/**
 The closed error taxonomy of the message store, and the result wrappers its
 operations return instead of raising exceptions.
 */
module Errors {

  /** What a lookup of a user or a message row returns: the row, or nothing. */
  datatype Option<+T> = None | Some(value: T)

  /** Which party of a request was looked up and not found. The source raises
      the same exception class for all three and tells them apart only by the
      message text. */
  datatype Party = Recipient | Sender | InboxOwner

  /** The four business-rule failures of the store. */
  datatype StoreError =
    | UsernameCannotBeEmpty
    | UsernameAlreadyExists
    | UserNotFound(party: Party)
    | MessageDoesNotExist

  /** The outcome of one store operation: a value or one typed failure. */
  datatype Result<+T> = Ok(value: T) | Err(error: StoreError)

  /** The human-readable text each failure carries; the transport layer
      forwards it to clients verbatim. */
  function Detail(e: StoreError): string
  {
    match e
    case UsernameCannotBeEmpty => "Username cannot be an empty string."
    case UsernameAlreadyExists => "Username already exists."
    case UserNotFound(Recipient) => "Recipient does not exist."
    case UserNotFound(Sender) => "Sender does not exist."
    case UserNotFound(InboxOwner) => "User does not exist."
    case MessageDoesNotExist => "No message with this message id exists."
  }

  /** A client can tell every failure apart from its text alone. */
  lemma DetailIsInjective(e1: StoreError, e2: StoreError)
    ensures Detail(e1) == Detail(e2) <==> e1 == e2
  {
  }
}
