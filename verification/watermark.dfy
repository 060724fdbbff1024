/**
 The `lastSeen` watermark across several calls: what the "new messages"
 query returns after earlier reads and sends, under assumptions about the
 clock readings the calls were given.
 */
module Watermark {
  import opened Errors
  import opened Models
  import opened Inbox
  import opened Database

  /** No stored message is later than the clock reading `t`; true of every
      store whose clock has reached `t`. */
  ghost predicate Clocked(st: State, t: Time)
  {
    forall m :: m in st.messages ==> m.timestamp <= t
  }

  /** Asking for new messages twice in a row, with no send in between, the
      second call returns nothing: the first moved the watermark past every
      stored message. */
  lemma RepeatedNewIsEmpty(st: State, username: string, first: Time, second: Time)
    requires username in st.users
    requires Clocked(st, first)
    ensures GetNewMessagesForUser(GetNewMessagesForUser(st, username, first).store, username, second).outcome
            == Ok([])
  {
    var after := GetNewMessagesForUser(st, username, first).store;
    FilterDropsAll(after.messages, NewFor(username, first));
  }

  /** After the whole inbox has been listed, with no send in between, there
      are no new messages. */
  lemma NewAfterListingIsEmpty(st: State, username: string, first: Time, second: Time)
    requires username in st.users
    requires Clocked(st, first)
    ensures GetNewMessagesForUser(GetMessagesForUser(st, username, first).store, username, second).outcome
            == Ok([])
  {
    var after := GetMessagesForUser(st, username, first).store;
    FilterDropsAll(after.messages, NewFor(username, first));
  }

  /** After a "new messages" call, one send to the same user stamped later
      than that call makes the next "new messages" call return exactly the
      sent message. */
  lemma {:induction false} NewAfterSendIsExactlyIt(
    st: State, username: string, sender: string, content: string, id: string,
    read: Time, sent: Time, reread: Time)
    requires username in st.users && sender in st.users
    requires Clocked(st, read) && read < sent
    ensures var st1 := GetNewMessagesForUser(st, username, read).store;
            var send := CreateMessage(st1, content, username, sender, id, sent);
            GetNewMessagesForUser(send.store, username, reread).outcome == Ok([send.outcome.value])
  {
    var st1 := GetNewMessagesForUser(st, username, read).store;
    var send := CreateMessage(st1, content, username, sender, id, sent);
    var s := send.store.messages;
    assert s[..|s| - 1] == st.messages;
    FilterDropsAll(st.messages, NewFor(username, read));
    assert Filter(s, NewFor(username, read)) == [send.outcome.value];
  }

  /** The strict comparison has a boundary: a message stamped with the very
      clock reading that a "new messages" call stored as the watermark is
      not reported as new by the next such call. */
  lemma SameTickSendIsNotNew(
    st: State, username: string, sender: string, content: string, id: string, t: Time, later: Time)
    requires username in st.users && sender in st.users
    ensures var read := GetNewMessagesForUser(st, username, t);
            var send := CreateMessage(read.store, content, username, sender, id, t);
            && GetNewMessagesForUser(send.store, username, later).outcome.Ok?
            && send.outcome.value !in GetNewMessagesForUser(send.store, username, later).outcome.value
  {
  }

  /** With a clock that never goes back, sending keeps the Messages table in
      timestamp order. */
  lemma SendKeepsChronological(
    st: State, content: string, recipient: string, sender: string, id: string, now: Time)
    requires Chronological(st.messages) && Clocked(st, now)
    ensures Chronological(CreateMessage(st, content, recipient, sender, id, now).store.messages)
    ensures Clocked(CreateMessage(st, content, recipient, sender, id, now).store, now)
  {
  }

  /** With messages stored in timestamp order, the inbox is listed in the
      order the messages were sent, equal timestamps included. */
  lemma {:induction false} InboxInSendingOrder(st: State, username: string, now: Time)
    requires username in st.users
    requires Chronological(st.messages)
    ensures GetMessagesForUser(st, username, now).outcome == Ok(Filter(st.messages, AddressedTo(username)))
  {
    FilterKeepsChronological(st.messages, AddressedTo(username));
    SortKeepsChronological(Filter(st.messages, AddressedTo(username)));
  }
}
