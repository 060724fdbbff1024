/**
 The two persisted entities of the message store, and the defaults the
 store fills in when a record is built.

 Timestamps are abstract clock readings (`Time`); the wall clock itself is
 an input supplied by the caller of each operation.
 */
module Models {

  /** A reading of the store's clock, in its smallest unit. */
  type Time = nat

  /** A registered user, keyed by `username`. `lastSeen` is the watermark that
      separates the messages already read from the "new" ones. */
  datatype User = User(name: string, username: string, lastSeen: Time)

  /** A message addressed from one user to another. `id` is the opaque
      primary key generated when the message is built. */
  datatype Message = Message(
    id: string,
    senderUsername: string,
    recipientUsername: string,
    content: string,
    timestamp: Time)

  /** Builds a user record the way the entity's default factory does: the
      watermark starts at the clock reading taken when the record is made. */
  function NewUser(name: string, username: string, now: Time): User
  {
    User(name, username, now)
  }

  /** Builds a message record the way the entity's default factories do: a
      freshly generated id (given here as `id`) and the current clock
      reading as its timestamp. */
  function NewMessage(id: string, content: string, recipient: string, sender: string, now: Time): Message
  {
    Message(id, sender, recipient, content, now)
  }
}
