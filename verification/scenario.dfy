/**
 The alice/bob walk-through of the application's tests
 (tests/test_app.py:80-131), replayed on the model: two users,
 two greetings, the inbox listed in sending order, the "new messages" query
 emptied by a repeat call and refilled by one more send.
 */
module Scenario {
  import opened Errors
  import opened Models
  import opened Inbox
  import opened Database
  import opened Watermark

  const Hej: Message := Message("m1", "alice", "bob", "hej hej", 1)
  const Trevlig: Message := Message("m2", "alice", "bob", "trevlig att träffas", 2)

  /** "alice" and "bob" registered at clock 0; as in the tests, both records
      carry the display name "Alice" (tests/test_app.py:15-16). */
  function Registered(): State
  {
    CreateUser(CreateUser(EmptyStore, NewUser("Alice", "alice", 0)).store, NewUser("Alice", "bob", 0)).store
  }

  /** Then alice greets bob twice, at clock 1 and 2. */
  function Greeted(): State
  {
    var hej := CreateMessage(Registered(), "hej hej", "bob", "alice", "m1", 1);
    CreateMessage(hej.store, "trevlig att träffas", "bob", "alice", "m2", 2).store
  }

  /** Both greetings are stored, in sending order, and bob has not read anything. */
  lemma GreetedStore()
    ensures "alice" in Greeted().users && "bob" in Greeted().users
    ensures Greeted().users["bob"].lastSeen == 0
    ensures Greeted().messages == [Hej, Trevlig]
  {
  }

  /** Listing bob's inbox returns the two greetings in sending order. */
  lemma ListingIsInSendingOrder()
    ensures GetMessagesForUser(Greeted(), "bob", 3).outcome == Ok([Hej, Trevlig])
  {
    GreetedStore();
    assert Chronological([Hej, Trevlig]);
    FilterKeepsAll([Hej, Trevlig], AddressedTo("bob"));
    InboxInSendingOrder(Greeted(), "bob", 3);
  }

  /** The first "new messages" call returns both greetings. */
  lemma FirstNewCallReturnsBoth()
    ensures GetNewMessagesForUser(Greeted(), "bob", 3).outcome == Ok([Hej, Trevlig])
  {
    GreetedStore();
    assert Chronological([Hej, Trevlig]);
    FilterKeepsAll([Hej, Trevlig], NewFor("bob", 0));
    SortKeepsChronological([Hej, Trevlig]);
  }

  /** Repeating the call returns nothing; after a third greeting the next
      call returns just that one. */
  lemma ThenNoneThenTheThird()
    ensures var read := GetNewMessagesForUser(Greeted(), "bob", 3).store;
            GetNewMessagesForUser(read, "bob", 4).outcome == Ok([])
    ensures var read := GetNewMessagesForUser(Greeted(), "bob", 3).store;
            var visSes := CreateMessage(read, "vi ses", "bob", "alice", "m3", 4);
            GetNewMessagesForUser(visSes.store, "bob", 5).outcome == Ok([visSes.outcome.value])
  {
    GreetedStore();
    assert Clocked(Greeted(), 3);
    RepeatedNewIsEmpty(Greeted(), "bob", 3, 4);
    NewAfterSendIsExactlyIt(Greeted(), "bob", "alice", "vi ses", "m3", 3, 4, 5);
  }
}
