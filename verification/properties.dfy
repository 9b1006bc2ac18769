/**
 Properties that relate several service calls: the store invariants every
 mutating operation preserves, and the round trips between an operation and
 the lookup that observes it.
 */
module Properties {
  import opened Entities
  import opened Repository
  import opened AccountService
  import opened MessageService

  /** Every stored account passed registration's field checks. */
  predicate AccountsWellFormed(accounts: map<int, Account>) {
    forall id :: id in accounts ==> accounts[id].username != "" && |accounts[id].password| >= MinPasswordLength
  }

  /** Every stored message text passed the length check. */
  predicate TextsWellFormed(messages: map<int, Message>) {
    forall id :: id in messages ==> ValidText(messages[id].messageText)
  }

  /** The store invariant: keys and counters agree, usernames are unique, rows passed their checks, posters exist. */
  predicate Consistent(s: Store) {
    && Valid(s)
    && UniqueUsernames(s.accounts)
    && AccountsWellFormed(s.accounts)
    && PostersExist(s)
    && TextsWellFormed(s.messages)
  }

  lemma EmptyIsConsistent()
    ensures Consistent(Empty)
  {
  }

  /** Registration never lets two accounts share a username. */
  lemma RegisterKeepsUsernamesUnique(s: Store, candidate: Account)
    requires UniqueUsernames(s.accounts)
    ensures UniqueUsernames(RegisterAccount(s, candidate).store.accounts)
  {
  }

  lemma RegisterPreservesConsistency(s: Store, candidate: Account)
    requires Consistent(s)
    ensures Consistent(RegisterAccount(s, candidate).store)
  {
  }

  /** A successful registration adds one fresh key and leaves every existing account as it was. */
  lemma RegisterAddsExactlyOne(s: Store, candidate: Account)
    requires Valid(s)
    requires RegisterAccount(s, candidate).result.Ok?
    ensures var r := RegisterAccount(s, candidate);
      && r.store.accounts.Keys == s.accounts.Keys + {r.result.value.accountId}
      && |r.store.accounts| == |s.accounts| + 1
      && (forall id :: id in s.accounts ==> r.store.accounts[id] == s.accounts[id])
  {
  }

  /** Right after a successful registration, logging in with the same credentials returns the new account. */
  lemma RegisterThenLogin(s: Store, candidate: Account)
    requires UniqueUsernames(s.accounts)
    requires RegisterAccount(s, candidate).result.Ok?
    ensures Login(RegisterAccount(s, candidate).store, candidate) == RegisterAccount(s, candidate).result
  {
    var r := RegisterAccount(s, candidate);
    var saved := r.result.value;
    RegisterKeepsUsernamesUnique(s, candidate);
    assert r.store.accounts[saved.accountId] == saved;
    assert FindByUsername(r.store.accounts, candidate.username) == Some(saved);
  }

  /** An unknown username and a wrong password are indistinguishable to the caller. */
  lemma LoginFailuresAlike(s: Store, unknown: Account, wrong: Account)
    requires !UsernameTaken(s.accounts, unknown.username)
    requires UniqueUsernames(s.accounts)
    requires !CredentialsMatch(s.accounts, wrong.username, wrong.password)
    ensures Login(s, unknown) == Login(s, wrong) == Err(InvalidLogin(InvalidLoginText))
  {
  }

  /** Message creation never produces a message whose poster is not a stored account. */
  lemma CreateKeepsPostersExisting(s: Store, candidate: Message)
    requires PostersExist(s)
    ensures PostersExist(CreateMessage(s, candidate).store)
  {
  }

  lemma CreatePreservesConsistency(s: Store, candidate: Message)
    requires Consistent(s)
    ensures Consistent(CreateMessage(s, candidate).store)
  {
  }

  /** Looking up the id a creation returned yields the created message. */
  lemma CreateThenGet(s: Store, candidate: Message)
    requires Valid(s)
    requires CreateMessage(s, candidate).result.Ok?
    ensures var r := CreateMessage(s, candidate);
      GetMessageById(r.store, r.result.value.messageId) == Some(candidate.(messageId := r.result.value.messageId))
  {
  }

  /** After a deletion the id is gone. */
  lemma DeleteThenGet(s: Store, id: int)
    ensures GetMessageById(DeleteMessageById(s, id).store, id).None?
  {
  }

  /** Deleting twice: the second call finds nothing and changes nothing. */
  lemma DeleteTwice(s: Store, id: int)
    ensures var first := DeleteMessageById(s, id);
      DeleteMessageById(first.store, id) == Step(None, first.store)
  {
  }

  lemma DeletePreservesConsistency(s: Store, id: int)
    requires Consistent(s)
    ensures Consistent(DeleteMessageById(s, id).store)
  {
  }

  /** Looking up an updated message shows the new text and every other field as before. */
  lemma UpdateThenGet(s: Store, id: int, text: string)
    requires Valid(s)
    requires UpdateMessageTextById(s, id, text).result.Ok?
    ensures GetMessageById(UpdateMessageTextById(s, id, text).store, id) == Some(s.messages[id].(messageText := text))
  {
  }

  lemma UpdatePreservesConsistency(s: Store, id: int, text: string)
    requires Consistent(s)
    ensures Consistent(UpdateMessageTextById(s, id, text).store)
  {
  }

  /**
   Listing the messages of an id that names no account gives the empty list
   whenever every stored message has an existing poster: the listing itself
   never checks the account.
   */
  method ListForUnknownAccount(s: Store, accountId: int) returns (list: seq<Message>)
    requires PostersExist(s)
    requires accountId !in s.accounts
    ensures list == []
  {
    list := GetAllMessagesByPostedBy(s, accountId);
  }
}
