/**
 Properties that relate several store operations: registration and lookup,
 sending and deleting, and the single and bulk forms of deletion.
 */
module Laws {
  import opened Errors
  import opened Models
  import opened Inbox
  import opened Database

  /** A user registered with the default factory can be looked up, and its
      watermark starts at the clock reading of the registration. */
  lemma RegisterThenFind(st: State, name: string, username: string, now: Time)
    requires username != "" && username !in st.users
    ensures CreateUser(st, NewUser(name, username, now)).outcome.Ok?
    ensures FindUser(CreateUser(st, NewUser(name, username, now)).store, username)
            == Some(User(name, username, now))
  {
  }

  /** Registering the same username a second time fails and changes nothing,
      whatever the second record's other fields are. */
  lemma RegisterTwiceFails(st: State, first: User, second: User)
    requires CreateUser(st, first).outcome.Ok?
    requires second.username == first.username
    ensures CreateUser(CreateUser(st, first).store, second)
            == Reply(Err(UsernameAlreadyExists), CreateUser(st, first).store)
  {
  }

  /** Deleting a message right after sending it, as its recipient, restores
      the store exactly. This holds even if the id was already in use, since
      the lookup finds the newest matching row first; in the service such a
      send would already fail on the primary key, a fault the model leaves
      out. */
  lemma SendThenDeleteRestores(
    st: State, content: string, recipient: string, sender: string, id: string, now: Time)
    requires recipient in st.users && sender in st.users
    ensures DeleteMessage(CreateMessage(st, content, recipient, sender, id, now).store, recipient, id)
            == Reply(Ok(()), st)
  {
  }

  /** A sent message joins its recipient's inbox rows after all those
      already there. */
  lemma SendAppendsToInbox(
    st: State, content: string, recipient: string, sender: string, id: string, now: Time)
    requires recipient in st.users && sender in st.users
    ensures var sent := CreateMessage(st, content, recipient, sender, id, now);
            Filter(sent.store.messages, AddressedTo(recipient))
            == Filter(st.messages, AddressedTo(recipient)) + [sent.outcome.value]
  {
  }

  /** Sending a message changes no other user's inbox listing. */
  lemma {:induction false} SendLeavesOtherInboxes(
    st: State, content: string, recipient: string, sender: string, id: string, now: Time,
    other: string, later: Time)
    requires recipient in st.users && sender in st.users
    requires other != recipient
    ensures GetMessagesForUser(CreateMessage(st, content, recipient, sender, id, now).store, other, later).outcome
            == GetMessagesForUser(st, other, later).outcome
  {
    var s := CreateMessage(st, content, recipient, sender, id, now).store.messages;
    assert s[..|s| - 1] == st.messages;
    assert Filter(s, AddressedTo(other)) == Filter(st.messages, AddressedTo(other));
  }

  /** Deleting one message is the bulk delete of a one-id list. */
  lemma {:induction false} DeleteOneIsBulkOfOne(st: State, username: string, id: string)
    requires Valid(st)
    requires DeleteMessage(st, username, id).outcome.Ok?
    ensures DeleteMessages(st, username, [id]) == DeleteMessage(st, username, id)
  {
    var s := st.messages;
    assert username in st.users;
    var found := FindMessage(s, username, id);
    assert found.Some?;
    var i := found.value;
    assert DeleteMessage(st, username, id) == Reply(Ok(()), st.(messages := s[..i] + s[i + 1..]));
    forall j | 0 <= j < |s| && j != i ensures Spared(username, [id])(s[j]) {
      assert s[j].id != s[i].id;
    }
    FilterRemovesOne(s, Spared(username, [id]), i);
    assert DeleteMessages(st, username, [id]) == Reply(Ok(()), st.(messages := Filter(s, Spared(username, [id]))));
  }

  /** A successful single delete removes exactly the one addressed message
      and keeps every other row. */
  lemma DeleteRemovesExactlyOne(st: State, username: string, id: string)
    requires Valid(st)
    requires DeleteMessage(st, username, id).outcome.Ok?
    ensures var after := DeleteMessage(st, username, id).store.messages;
            && |after| == |st.messages| - 1
            && forall m :: m in after <==>
                 m in st.messages && !(m.recipientUsername == username && m.id == id)
  {
  }

  /** A successful bulk delete splits the Messages table in two: the rows it
      keeps and exactly the rows addressed to the user with a listed id. */
  lemma BulkDeleteRemovesTargeted(st: State, username: string, ids: seq<string>)
    requires username in st.users
    ensures multiset(DeleteMessages(st, username, ids).store.messages)
            + multiset(Filter(st.messages, Targeted(username, ids)))
            == multiset(st.messages)
  {
    FilterPartition(st.messages, Spared(username, ids), Targeted(username, ids));
  }

  /** Ids that match nothing in the user's inbox make no difference to a
      bulk delete. */
  lemma {:induction false} BulkDeleteIgnoresUnmatched(st: State, username: string, ids: seq<string>, x: string)
    requires !HasMessage(st.messages, username, x)
    ensures DeleteMessages(st, username, ids + [x]) == DeleteMessages(st, username, ids)
  {
    if username in st.users {
      forall m | m in st.messages
        ensures Spared(username, ids + [x])(m) == Spared(username, ids)(m)
      {
        assert m.id in ids + [x] <==> m.id in ids || m.id == x;
      }
      FilterCongruent(st.messages, Spared(username, ids + [x]), Spared(username, ids));
    }
  }

  /** A bulk delete for a known user whose ids all miss succeeds and leaves
      the store as it was. */
  lemma {:induction false} BulkDeleteOfNothing(st: State, username: string, ids: seq<string>)
    requires username in st.users
    requires forall x :: x in ids ==> !HasMessage(st.messages, username, x)
    ensures DeleteMessages(st, username, ids) == Reply(Ok(()), st)
  {
    forall m | m in st.messages ensures Spared(username, ids)(m) {
      if m.recipientUsername == username && m.id in ids {
        assert HasMessage(st.messages, username, m.id);
      }
    }
    FilterKeepsAll(st.messages, Spared(username, ids));
  }
}
