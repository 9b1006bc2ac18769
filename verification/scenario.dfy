/**
 A worked session against the empty store: register "ann", fail to register
 her again, fail to log in with a wrong password, post as her, list her posts,
 then delete the post twice.
 */
module Scenario {
  import opened Entities
  import opened Repository
  import opened AccountService
  import opened MessageService

  lemma AnnSession()
    ensures var first := RegisterAccount(Empty, Account(0, "ann", "secret1"));
      && first.result == Ok(Account(1, "ann", "secret1"))
      && RegisterAccount(first.store, Account(0, "ann", "other99")).result
           == Err(DataIntegrityViolation(DuplicateUsernameText("ann")))
      && Login(first.store, Account(0, "ann", "wrong")) == Err(InvalidLogin("Invalid username and password."))
      && Login(first.store, Account(0, "ann", "secret1")) == Ok(Account(1, "ann", "secret1"))
      && var posted := CreateMessage(first.store, Message(0, 1, "hello", 1700000000));
      && posted.result == Ok(Message(1, 1, "hello", 1700000000))
      && CreateMessage(first.store, Message(0, 2, "hello", 1700000000)).result
           == Err(InvalidModelFieldValues("Posted by user could not be found."))
      && var deleted := DeleteMessageById(posted.store, 1);
      && deleted.result == Some(1)
      && DeleteMessageById(deleted.store, 1).result == None
  {
  }

  /** After "ann" registers and posts once, listing her posts gives exactly that post. */
  method AnnListing() returns (list: seq<Message>)
    ensures list == [Message(1, 1, "hello", 1700000000)]
  {
    var first := RegisterAccount(Empty, Account(0, "ann", "secret1"));
    var posted := CreateMessage(first.store, Message(0, 1, "hello", 1700000000));
    var hello := Message(1, 1, "hello", 1700000000);
    assert posted.store.messages == map[1 := hello];
    list := GetAllMessagesByPostedBy(posted.store, 1);
    assert hello in list;
    assert |list| == 1 && list[0] == hello;
  }
}
