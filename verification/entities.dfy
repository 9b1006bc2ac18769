/**
 The two persisted entities of the social-media backend and the three
 exceptions its services throw.
 */
module Entities {

  /** A registered user. `accountId` is assigned by the store on registration. */
  datatype Account = Account(accountId: int, username: string, password: string)

  /**
   A post attributed to an account through `postedBy`. `messageId` is assigned
   by the store; `timePostedEpoch` is opaque to the services and passed through.
   */
  datatype Message = Message(messageId: int, postedBy: int, messageText: string, timePostedEpoch: int)

  /**
   One constructor per exception class, each carrying the exception's message:
   InvalidModelFieldValuesException, DataIntegrityViolationException and
   InvalidLoginException.
   */
  datatype Error =
    | InvalidModelFieldValues(message: string)
    | DataIntegrityViolation(message: string)
    | InvalidLogin(message: string)

  /** An optional value; `None` stands for a Java `null` return. */
  datatype Option<+T> = None | Some(value: T)

  /** Either the value a service returns or the exception it throws. */
  datatype Result<+T> = Ok(value: T) | Err(error: Error)
}
