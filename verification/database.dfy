/**
 The message store service: the Users and Messages tables and the six
 operations that read and change them.

 Each operation is one atomic unit of work: it either fails with one of the
 four typed errors and leaves the store as it was, or succeeds and moves the
 store to its next state. Inputs the service obtains from its environment
 (the clock reading `now`, the generated message `id`) are parameters.
 */
module Database {
  import opened Errors
  import opened Models
  import opened Inbox

  /** The persisted state: the Users table keyed by username, and the
      Messages table in insertion order. */
  datatype State = State(users: map<string, User>, messages: seq<Message>)

  /** What an operation hands back: its outcome and the state it leaves. */
  datatype Reply<+T> = Reply(outcome: Result<T>, store: State)

  /** The store right after its tables are created. */
  const EmptyStore: State := State(map[], [])

  /** Every user row is filed under its own, non-empty username. */
  ghost predicate UsersKeyed(users: map<string, User>)
  {
    forall k :: k in users ==> users[k].username == k && k != ""
  }

  /** Message ids are a primary key: no two rows share one. */
  ghost predicate UniqueIds(messages: seq<Message>)
  {
    forall i, j :: 0 <= i < j < |messages| ==> messages[i].id != messages[j].id
  }

  /** Every message names a sender and a recipient that are registered. */
  ghost predicate Referenced(st: State)
  {
    forall m :: m in st.messages ==> m.senderUsername in st.users && m.recipientUsername in st.users
  }

  /** The invariant every reachable store satisfies: it holds of the empty
      store and every operation keeps it, given a fresh id for each send. */
  ghost predicate Valid(st: State)
  {
    UsersKeyed(st.users) && UniqueIds(st.messages) && Referenced(st)
  }

  /** The freshly created store satisfies the invariant. */
  lemma EmptyStoreIsValid()
    ensures Valid(EmptyStore)
  {
  }

  /** The ids of all stored messages. */
  function Ids(messages: seq<Message>): set<string>
  {
    set m | m in messages :: m.id
  }

  /** Some stored message is addressed to `username` and has id `id`. */
  ghost predicate HasMessage(messages: seq<Message>, username: string, id: string)
  {
    exists m :: m in messages && m.recipientUsername == username && m.id == id
  }

  /** `after` differs from `before` only in `username`'s watermark, which is
      now `now`. */
  ghost predicate Watermarked(before: State, after: State, username: string, now: Time)
    requires username in before.users
  {
    && after.messages == before.messages
    && after.users.Keys == before.users.Keys
    && after.users[username] == before.users[username].(lastSeen := now)
    && forall v :: v in before.users && v != username ==> after.users[v] == before.users[v]
  }

  /** The user row whose username is `username`, if there is one. */
  function FindUser(st: State, username: string): (r: Option<User>)
    ensures r.Some? ==> r.value in st.users.Values
    ensures UsersKeyed(st.users) ==>
              (r.Some? <==> exists u :: u in st.users.Values && u.username == username)
    ensures UsersKeyed(st.users) && r.Some? ==> r.value.username == username
  {
    if username in st.users then Some(st.users[username]) else None
  }

  /** Registers `user`. The empty username is refused before uniqueness is
      looked at; on success the record is stored as given. */
  function CreateUser(st: State, user: User): (r: Reply<()>)
    ensures r.outcome == Err(UsernameCannotBeEmpty) <==> user.username == ""
    ensures r.outcome == Err(UsernameAlreadyExists) <==> user.username != "" && user.username in st.users
    ensures r.outcome.Ok? <==> user.username != "" && user.username !in st.users
    ensures r.outcome.Err? ==> r.store == st
    ensures r.store.messages == st.messages
    ensures r.outcome.Ok? ==>
              && r.store.users.Keys == st.users.Keys + {user.username}
              && user.username !in st.users
              && r.store.users[user.username] == user
              && forall v :: v in st.users ==> r.store.users[v] == st.users[v]
    ensures Valid(st) ==> Valid(r.store)
  {
    if user.username == "" then
      Reply(Err(UsernameCannotBeEmpty), st)
    else if FindUser(st, user.username).Some? then
      Reply(Err(UsernameAlreadyExists), st)
    else
      Reply(Ok(()), st.(users := st.users[user.username := user]))
  }

  /** Sends `content` from `sender` to `recipient` as a new message with id
      `id`, stamped `now`. A missing recipient is reported before a missing
      sender. The found rows carry exactly the requested usernames, so the
      message records those. */
  function CreateMessage(st: State, content: string, recipient: string, sender: string, id: string, now: Time)
    : (r: Reply<Message>)
    ensures r.outcome == Err(UserNotFound(Recipient)) <==> recipient !in st.users
    ensures r.outcome == Err(UserNotFound(Sender)) <==> recipient in st.users && sender !in st.users
    ensures r.outcome.Ok? <==> recipient in st.users && sender in st.users
    ensures r.outcome.Err? ==> r.store == st
    ensures r.store.users == st.users
    ensures r.outcome.Ok? ==>
              && r.outcome.value.id == id
              && r.outcome.value.content == content
              && r.outcome.value.recipientUsername == recipient
              && r.outcome.value.senderUsername == sender
              && r.outcome.value.timestamp == now
              && r.store.messages == st.messages + [r.outcome.value]
    ensures Valid(st) && id !in Ids(st.messages) ==> Valid(r.store)
  {
    var found := FindUser(st, recipient);
    var from := FindUser(st, sender);
    if found.None? then
      Reply(Err(UserNotFound(Recipient)), st)
    else if from.None? then
      Reply(Err(UserNotFound(Sender)), st)
    else
      var m := NewMessage(id, content, recipient, sender, now);
      var st' := st.(messages := st.messages + [m]);
      assert Valid(st) && id !in Ids(st.messages) ==> Valid(st') by {
        if Valid(st) && id !in Ids(st.messages) {
          forall i, j | 0 <= i < j < |st'.messages| ensures st'.messages[i].id != st'.messages[j].id {
            if j == |st.messages| {
              assert st.messages[i] in st.messages;
            }
          }
        }
      }
      Reply(Ok(m), st')
  }

  /** Lists every message addressed to `username`, oldest first, and moves
      the user's watermark to the clock reading `now`, taken before the query. */
  function GetMessagesForUser(st: State, username: string, now: Time): (r: Reply<seq<Message>>)
    ensures r.outcome.Err? <==> username !in st.users
    ensures r.outcome.Err? ==> r.outcome.error == UserNotFound(InboxOwner) && r.store == st
    ensures r.outcome.Ok? ==>
              forall m :: multiset(r.outcome.value)[m] ==
                            if m.recipientUsername == username then multiset(st.messages)[m] else 0
    ensures r.outcome.Ok? ==> Chronological(r.outcome.value)
    ensures r.outcome.Ok? ==> username in st.users && Watermarked(st, r.store, username, now)
    ensures Valid(st) ==> Valid(r.store)
  {
    match FindUser(st, username)
    case None => Reply(Err(UserNotFound(InboxOwner)), st)
    case Some(user) =>
      var rows := Filter(st.messages, AddressedTo(username));
      FilterCounts(st.messages, AddressedTo(username));
      SortIsChronological(rows);
      Reply(Ok(SortByTime(rows)), st.(users := st.users[username := user.(lastSeen := now)]))
  }

  /** Lists the messages addressed to `username` that are strictly later than
      the watermark read at the start of the call, oldest first, and moves the
      watermark to the clock reading `now`, taken before the query. */
  function GetNewMessagesForUser(st: State, username: string, now: Time): (r: Reply<seq<Message>>)
    ensures r.outcome.Err? <==> username !in st.users
    ensures r.outcome.Err? ==> r.outcome.error == UserNotFound(InboxOwner) && r.store == st
    ensures r.outcome.Ok? ==>
              forall m :: multiset(r.outcome.value)[m] ==
                            if m.recipientUsername == username && m.timestamp > st.users[username].lastSeen
                            then multiset(st.messages)[m] else 0
    ensures r.outcome.Ok? ==> Chronological(r.outcome.value)
    ensures r.outcome.Ok? ==> username in st.users && Watermarked(st, r.store, username, now)
    ensures Valid(st) ==> Valid(r.store)
  {
    match FindUser(st, username)
    case None => Reply(Err(UserNotFound(InboxOwner)), st)
    case Some(user) =>
      var rows := Filter(st.messages, NewFor(username, user.lastSeen));
      FilterCounts(st.messages, NewFor(username, user.lastSeen));
      SortIsChronological(rows);
      Reply(Ok(SortByTime(rows)), st.(users := st.users[username := user.(lastSeen := now)]))
  }

  /** The position of the message addressed to `username` with id `id`, if any. */
  function FindMessage(messages: seq<Message>, username: string, id: string): (r: Option<nat>)
    ensures r.Some? ==>
              && r.value < |messages|
              && messages[r.value].recipientUsername == username
              && messages[r.value].id == id
    ensures r.None? <==> !HasMessage(messages, username, id)
  {
    if |messages| == 0 then None
    else
      var last := messages[|messages| - 1];
      if last.recipientUsername == username && last.id == id then Some(|messages| - 1)
      else
        var r := FindMessage(messages[..|messages| - 1], username, id);
        assert HasMessage(messages, username, id) ==> HasMessage(messages[..|messages| - 1], username, id) by {
          if HasMessage(messages, username, id) {
            var m :| m in messages && m.recipientUsername == username && m.id == id;
            var j :| 0 <= j < |messages| && messages[j] == m;
            assert messages[..|messages| - 1][j] == m;
          }
        }
        r
  }

  /** Deletes the message with id `id` from `username`'s inbox. A message that
      exists but is addressed to someone else counts as missing. */
  function DeleteMessage(st: State, username: string, id: string): (r: Reply<()>)
    ensures r.outcome == Err(UserNotFound(InboxOwner)) <==> username !in st.users
    ensures r.outcome == Err(MessageDoesNotExist) <==>
              username in st.users && !HasMessage(st.messages, username, id)
    ensures r.outcome.Ok? <==> username in st.users && HasMessage(st.messages, username, id)
    ensures r.outcome.Err? ==> r.store == st
    ensures r.store.users == st.users
    ensures r.outcome.Ok? ==>
              exists i :: 0 <= i < |st.messages|
                && st.messages[i].recipientUsername == username && st.messages[i].id == id
                && r.store.messages == st.messages[..i] + st.messages[i + 1..]
    ensures Valid(st) ==> Valid(r.store)
  {
    match FindUser(st, username)
    case None => Reply(Err(UserNotFound(InboxOwner)), st)
    case Some(_) =>
      match FindMessage(st.messages, username, id)
      case None => Reply(Err(MessageDoesNotExist), st)
      case Some(i) =>
        var st' := st.(messages := st.messages[..i] + st.messages[i + 1..]);
        assert Valid(st) ==> Valid(st') by {
          if Valid(st) {
            RemoveAtKeepsValid(st, i);
          }
        }
        Reply(Ok(()), st')
  }

  /** Removing one row keeps the store valid. */
  lemma RemoveAtKeepsValid(st: State, i: nat)
    requires Valid(st) && i < |st.messages|
    ensures Valid(st.(messages := st.messages[..i] + st.messages[i + 1..]))
  {
  }

  /** Deletes the messages of `username`'s inbox whose ids are in `ids`; ids
      that match nothing there are ignored. */
  function DeleteMessages(st: State, username: string, ids: seq<string>): (r: Reply<()>)
    ensures r.outcome.Err? <==> username !in st.users
    ensures r.outcome.Err? ==> r.outcome.error == UserNotFound(InboxOwner) && r.store == st
    ensures r.store.users == st.users
    ensures r.outcome.Ok? ==>
              forall m :: multiset(r.store.messages)[m] ==
                            if m.recipientUsername == username && m.id in ids then 0 else multiset(st.messages)[m]
    ensures Valid(st) ==> Valid(r.store)
  {
    match FindUser(st, username)
    case None => Reply(Err(UserNotFound(InboxOwner)), st)
    case Some(_) =>
      var kept := Filter(st.messages, Spared(username, ids));
      FilterCounts(st.messages, Spared(username, ids));
      var st' := st.(messages := kept);
      assert Valid(st) ==> Valid(st') by {
        if Valid(st) {
          FilterKeepsValid(st, Spared(username, ids));
        }
      }
      Reply(Ok(()), st')
  }

  /** Keeping a selection of the rows keeps the store valid. */
  lemma {:induction false} FilterKeepsValid(st: State, p: Message -> bool)
    requires Valid(st)
    ensures Valid(st.(messages := Filter(st.messages, p)))
    decreases |st.messages|
  {
    FilterMembers(st.messages, p);
    if |st.messages| > 0 {
      var s := st.messages;
      var s', x := s[..|s| - 1], s[|s| - 1];
      assert UniqueIds(s') by {
        forall a, b | 0 <= a < b < |s'| ensures s'[a].id != s'[b].id {
          assert s'[a] == s[a] && s'[b] == s[b];
        }
      }
      assert Referenced(st.(messages := s')) by {
        forall m | m in s' ensures m in s {
          var k :| 0 <= k < |s'| && s'[k] == m;
          assert s[k] == m;
        }
      }
      FilterKeepsValid(st.(messages := s'), p);
      FilterMembers(s', p);
      var f' := Filter(s', p);
      forall y | y in f' ensures y.id != x.id {
        var k :| 0 <= k < |s'| && s'[k] == y;
        assert s[k] == y;
      }
      var f := Filter(s, p);
      forall a, b | 0 <= a < b < |f| ensures f[a].id != f[b].id {
        if b == |f'| && p(x) {
          assert f[a] == f'[a] && f'[a] in f';
        } else {
          assert f[a] == f'[a] && f[b] == f'[b];
        }
      }
    }
  }
}
