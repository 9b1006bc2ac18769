# Social-media backend services, modelled in Dafny

This project models the decision logic of a small social-media backend built with
Spring: `AccountService` (registration and login) and `MessageService` (creating,
reading, deleting, updating and listing messages). The two JPA repositories they
call become an in-memory `Store`. It holds the account table and the message table,
each a finite map from primary key to row. It also holds the two identity counters
the database uses to hand out fresh keys. Every mutating service call is a pure
function from a store and an input to a `Step(result, store')`. The read-only calls
(`Login`, `GetMessageById`) return no store, so they cannot change it. The two
list-returning calls are methods that scan the message table in an order the store
chooses.

The three exception classes become the three constructors of `Entities.Error`:
`InvalidModelFieldValues`, `DataIntegrityViolation` and `InvalidLogin`. Each keeps
the exact message text the services build.

Modules:
- `Entities` (entities.dfy): `Account`, `Message`, `Error`, `Option`, `Result`.
- `Repository` (repository.dfy): the store, its well-formedness predicate `Valid`,
  the username lookup, inserts that assign fresh keys, deletion by key, and the
  table scan `Select`.
- `AccountService` (account_service.dfy): `RegisterAccount` and `Login`.
- `MessageService` (message_service.dfy): the six message operations.
- `Properties` (properties.dfy): the store invariant `Consistent` and the lemmas
  that relate several calls.
- `Scenario` (scenario.dfy): one concrete session, checked end to end.

In three places the code behaves differently from what its comments or a casual
reading suggest, and the model follows the code:
- The error messages are the code's own strings, not paraphrases.
- Deleting a missing message returns `null` (`None`), not the count 0.
- A password is rejected when its length is at most 4. The doc comment on
  `registerAccount` says "less than four characters", but the code rejects
  lengths up to and including four.

## Model

| member | source | states |
|---|---|---|
| Repository.FindByUsername | src/main/java/com/example/repository/AccountRepository.java:19-24 | The lookup finds nothing exactly when no stored account has that username. Otherwise it returns a stored account with that username. When usernames are unique, it returns the one account that has it. |
| Repository.SaveNewAccount | src/main/java/com/example/service/AccountService.java:51 | The saved row is the candidate with a store-assigned id. It is added under that id and the message table is untouched. In a valid store the id is fresh and the store stays valid. |
| Repository.SaveNewMessage | src/main/java/com/example/service/MessageService.java:55 | The saved row is the candidate with a store-assigned id. It is added under that id and the account table is untouched. In a valid store the id is fresh and the store stays valid. |
| Repository.DeleteByMessageId | src/main/java/com/example/repository/MessageRepository.java:14 | The returned count equals the number of rows the table lost. Only the given key is removed, and every other row is unchanged. |
| Repository.Select | src/main/java/com/example/service/MessageService.java:62-64 | The scan returns exactly the stored rows the filter keeps. It returns no more rows than are stored. When rows sit under their own ids, none is repeated. |
| AccountService.RegisterAccount | src/main/java/com/example/service/AccountService.java:40-52 | A blank username fails first, whatever the password. Otherwise a password of at most 4 characters fails. Otherwise a username already stored fails with the duplicate error, whatever the password. Success happens exactly when all three checks pass. A failure leaves the store as it was. A success adds exactly the candidate's username and password under one new key and leaves the message table alone. |
| AccountService.Login | src/main/java/com/example/service/AccountService.java:60-67 | Every failure is the same `InvalidLogin("Invalid username and password.")`. A success returns a stored row whose username and password equal the supplied ones exactly. When usernames are unique, login succeeds exactly when some stored account has both credentials. |
| MessageService.CreateMessage | src/main/java/com/example/service/MessageService.java:47-56 | Empty text or text over 255 characters fails first. Otherwise an unknown `postedBy` fails. Success happens exactly when both checks pass. A failure leaves the store as it was. A success adds one row carrying the candidate's poster, text and timestamp, and leaves the account table alone. |
| MessageService.GetMessageById | src/main/java/com/example/service/MessageService.java:71-73 | The result is a stored message or absent. In a valid store it is present exactly when some message has that `messageId`, and then it is that message. |
| MessageService.DeleteMessageById | src/main/java/com/example/service/MessageService.java:80-83 | The result is present, and equal to 1, exactly when the id was stored. Afterwards the id is gone, every other message is unchanged, and the accounts are untouched. |
| MessageService.UpdateMessageTextById | src/main/java/com/example/service/MessageService.java:93-105 | Invalid text fails first, even for an existing id. Otherwise a missing id fails with "User could not be found." There is no zero-count success. A success returns 1 and changes only that message's text. Its id, poster and timestamp, every other message and the accounts stay the same. |
| MessageService.GetAllMessages | src/main/java/com/example/service/MessageService.java:62-64 | The list holds exactly the stored messages. In a valid store each appears once. |
| MessageService.GetAllMessagesByPostedBy | src/main/java/com/example/service/MessageService.java:112-114 | The list holds exactly the stored messages whose `postedBy` is the given id, each once in a valid store, and is no longer than the table. There is no account check, so with no such message the list is empty rather than an error. |
| Properties.RegisterKeepsUsernamesUnique | src/main/java/com/example/service/AccountService.java:47-51 | If no two accounts share a username before registration, none do afterwards. |
| Properties.RegisterPreservesConsistency | src/main/java/com/example/service/AccountService.java:40-52 | Registration preserves the whole store invariant. In particular, every stored password has at least 5 characters. |
| Properties.RegisterAddsExactlyOne | src/main/java/com/example/service/AccountService.java:51 | A successful registration adds one new key, grows the table by one, and leaves every existing account unchanged. |
| Properties.RegisterThenLogin | src/main/java/com/example/service/AccountService.java:60-66 | Right after a successful registration, login with the same credentials returns the registered row, including its assigned id. |
| Properties.LoginFailuresAlike | src/main/java/com/example/service/AccountService.java:61-63 | An unknown username and a wrong password give the identical failure. |
| Properties.CreateKeepsPostersExisting | src/main/java/com/example/service/MessageService.java:51-55 | If every message's poster is a stored account before creation, the same holds afterwards. |
| Properties.CreatePreservesConsistency | src/main/java/com/example/service/MessageService.java:47-56 | Message creation preserves the whole store invariant. |
| Properties.CreateThenGet | src/main/java/com/example/service/MessageService.java:55 | Looking up the id that creation returned gives the candidate with that id, equal in every other field. |
| Properties.DeleteThenGet | src/main/java/com/example/service/MessageService.java:80-83 | After deleting an id, looking it up finds nothing. |
| Properties.DeleteTwice | src/main/java/com/example/service/MessageService.java:80-83 | A second deletion of the same id returns absent and changes nothing. |
| Properties.DeletePreservesConsistency | src/main/java/com/example/service/MessageService.java:80-83 | Deletion preserves the whole store invariant. |
| Properties.UpdateThenGet | src/main/java/com/example/service/MessageService.java:102-104 | After a successful update, a lookup shows the old message with only its text replaced. |
| Properties.UpdatePreservesConsistency | src/main/java/com/example/service/MessageService.java:93-105 | A text update preserves the whole store invariant. |
| Properties.ListForUnknownAccount | src/main/java/com/example/service/MessageService.java:112-114 | When every stored message has an existing poster, listing the messages of an id that names no account returns the empty list, since the listing never checks the account. |
| Scenario.AnnSession | src/main/java/com/example/service/AccountService.java:40-66 | Starting from the empty store: register "ann" and get id 1. Registering "ann" again conflicts. A wrong password is refused and the right one logs in. The same session also runs `createMessage` (MessageService.java:47-56) and `deleteMessageById` (MessageService.java:80-83): posting as account 1 succeeds, posting as the unknown account 2 fails, deleting the post returns 1, and deleting it again returns absent. |
| Scenario.AnnListing | src/main/java/com/example/service/MessageService.java:112-114 | After "ann" registers and posts "hello" once, listing the messages of account 1 gives exactly that one message, with id 1. |

## Left out

- The HTTP controller, request and response wrapping, and the exception-to-status handlers: this is web plumbing with no decisions in it.
- The repositories as code: Spring Data generates them. Each table is a map from primary key to row. A store-assigned id is the table's identity counter, and `Valid` states that every key is below it.
- `findAllByPostedBy` is not declared in the repository interface. It is modelled as a filtering scan of the message table.
- `setMessageTextByMessageId` is never called, so it is not modelled.
- Client-supplied `accountId` or `messageId` values in a request body are ignored: inserts always take a fresh key. JPA's merge behaviour for an entity that already carries an id lives in library code and the entity classes, and neither is part of this model.
- Null fields in a request body: strings in the model are never null. In the Java code a null username or password makes `registerAccount` throw `NullPointerException`, and so does a null message text in `createMessage` and `updateMessageTextById`. `login` instead turns a null username or password into its generic `InvalidLoginException`. The model represents neither behaviour.
- The 32-bit width of Java `int` ids: ids and counters are unbounded integers, so key exhaustion is not modelled.
- The UTF-16 semantics of `String.length()`: a string's length is its length as a sequence of characters.
- Races between a check and the write that follows it: each operation is one atomic step.
- The order of rows returned by `findAll` and `findAllByPostedBy`: the scan's order is left to the store, and the contracts state membership and absence of repeats only.
- Repository.FindByUsername: when several rows share a username (never true in a consistent store), it picks the row with the least key, whereas Spring Data would raise a library error. Only the unique-username case is promised.
- AccountService.Login: the "succeeds exactly when some account has both credentials" direction is stated only for stores with unique usernames, which every reachable store has (`Properties.RegisterKeepsUsernamesUnique`).
- MessageService.GetMessageById: the statement that the result carries the requested `messageId` is made only for valid stores, where each row sits under its own id.
- Repository.Select: the list length is bounded by the table size, not stated exactly. Absence of repeats is promised only when rows sit under their own ids.
