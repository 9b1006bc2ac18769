/**
 Message creation, lookup, deletion, text update and listing. Creation and
 update check the text length before anything else; creation then checks the
 poster, update the message's existence. Lookups and deletion never fail.
 */
module MessageService {
  import opened Entities
  import opened Repository

  /** Longest message text the service accepts. */
  const MaxTextLength := 255

  const TextLengthText := "Message text must be between 1 and 255 characters."
  const PosterNotFoundText := "Posted by user could not be found."
  /** The update's not-found message, worded as the service words it. */
  const MessageNotFoundText := "User could not be found."

  /** Text of 1 to 255 characters. */
  predicate ValidText(text: string) {
    text != "" && |text| <= MaxTextLength
  }

  /**
   `createMessage`: the text is checked first, then that `postedBy` names a
   stored account; on success exactly one row is added carrying the
   candidate's poster, text and timestamp, and the account table is untouched.
   */
  function CreateMessage(s: Store, candidate: Message): (r: Step<Result<Message>>)
    ensures r.result == Err(InvalidModelFieldValues(TextLengthText)) <==> !ValidText(candidate.messageText)
    ensures r.result == Err(InvalidModelFieldValues(PosterNotFoundText))
      <==> ValidText(candidate.messageText) && candidate.postedBy !in s.accounts
    ensures r.result.Ok? <==> ValidText(candidate.messageText) && candidate.postedBy in s.accounts
    ensures r.result.Err? ==> r.store == s
    ensures r.result.Ok? ==>
      && r.result.value.postedBy == candidate.postedBy
      && r.result.value.messageText == candidate.messageText
      && r.result.value.timePostedEpoch == candidate.timePostedEpoch
      && r.store.messages == s.messages[r.result.value.messageId := r.result.value]
      && r.store.accounts == s.accounts
    ensures r.result.Ok? && Valid(s) ==> r.result.value.messageId !in s.messages && Valid(r.store)
  {
    if candidate.messageText == "" || |candidate.messageText| > MaxTextLength then
      Step(Err(InvalidModelFieldValues(TextLengthText)), s)
    else if candidate.postedBy !in s.accounts then
      Step(Err(InvalidModelFieldValues(PosterNotFoundText)), s)
    else
      var saved := SaveNewMessage(s, candidate);
      Step(Ok(saved.result), saved.store)
  }

  /**
   `getMessageById`: in a well-formed store, the message whose `messageId` is
   `id`, or `None` when there is none; absence is not an error.
   */
  function GetMessageById(s: Store, id: int): (r: Option<Message>)
    ensures r.Some? ==> r.value in s.messages.Values
    ensures Valid(s) ==> (r.Some? <==> exists k :: k in s.messages && s.messages[k].messageId == id)
    ensures Valid(s) && r.Some? ==> r.value.messageId == id
  {
    if id in s.messages then Some(s.messages[id]) else None
  }

  /**
   `deleteMessageById`: the number of removed rows when it is positive, `None`
   (Java `null`) otherwise; afterwards no row has that key and every other row
   is as it was.
   */
  function DeleteMessageById(s: Store, id: int): (r: Step<Option<int>>)
    ensures r.result.Some? <==> id in s.messages
    ensures r.result.Some? ==> r.result.value == 1
    ensures id !in r.store.messages
    ensures forall k :: k in s.messages && k != id ==> k in r.store.messages && r.store.messages[k] == s.messages[k]
    ensures r.store.messages.Keys <= s.messages.Keys
    ensures r.store.accounts == s.accounts
  {
    var deleted := DeleteByMessageId(s, id);
    Step(if deleted.result > 0 then Some(deleted.result) else None, deleted.store)
  }

  /**
   `updateMessageTextById`: the text is checked before existence, and a
   missing message is a failure, not a count of zero; on success the result is
   1 and only that row's `messageText` changes.
   */
  function UpdateMessageTextById(s: Store, id: int, text: string): (r: Step<Result<int>>)
    ensures r.result == Err(InvalidModelFieldValues(TextLengthText)) <==> !ValidText(text)
    ensures r.result == Err(InvalidModelFieldValues(MessageNotFoundText)) <==> ValidText(text) && id !in s.messages
    ensures r.result.Ok? <==> ValidText(text) && id in s.messages
    ensures r.result.Err? ==> r.store == s
    ensures r.result.Ok? ==>
      && r.result.value == 1
      && r.store.messages.Keys == s.messages.Keys
      && r.store.messages[id].messageText == text
      && r.store.messages[id].messageId == s.messages[id].messageId
      && r.store.messages[id].postedBy == s.messages[id].postedBy
      && r.store.messages[id].timePostedEpoch == s.messages[id].timePostedEpoch
      && (forall k :: k in s.messages && k != id ==> r.store.messages[k] == s.messages[k])
      && r.store.accounts == s.accounts
      && r.store.nextMessageId == s.nextMessageId
  {
    if text == "" || |text| > MaxTextLength then
      Step(Err(InvalidModelFieldValues(TextLengthText)), s)
    else
      var found := GetMessageById(s, id);
      if found.None? then
        Step(Err(InvalidModelFieldValues(MessageNotFoundText)), s)
      else
        var updated := found.value.(messageText := text);
        Step(Ok(1), s.(messages := s.messages[id := updated]))
  }

  /** `getAllMessages`: every stored message, once each, in the store's order. */
  method GetAllMessages(s: Store) returns (list: seq<Message>)
    ensures forall m :: m in list <==> m in s.messages.Values
    ensures |list| <= |s.messages|
    ensures Valid(s) ==> forall i, j :: 0 <= i < j < |list| ==> list[i] != list[j]
  {
    list := Select(s.messages, All);
  }

  /**
   `getAllMessagesByPostedBy`: exactly the stored messages whose `postedBy`
   is `accountId`, once each; the account itself is never looked up, so an
   unknown account gives an empty list rather than an error.
   */
  method GetAllMessagesByPostedBy(s: Store, accountId: int) returns (list: seq<Message>)
    ensures forall m :: m in list <==> m in s.messages.Values && m.postedBy == accountId
    ensures |list| <= |s.messages|
    ensures Valid(s) ==> forall i, j :: 0 <= i < j < |list| ==> list[i] != list[j]
    ensures (forall k :: k in s.messages ==> s.messages[k].postedBy != accountId) ==> list == []
  {
    list := Select(s.messages, PostedBy(accountId));
    if list != [] {
      var m := list[0];
      assert m in s.messages.Values;
      // Names the key under which `m` is stored.
      if forall k :: k in s.messages ==> s.messages[k] != m { assert false; }
    }
  }
}
