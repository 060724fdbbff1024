/**
 The query side of the store: selecting messages by a row predicate (the
 WHERE clause) and ordering them by timestamp (the ORDER BY clause).

 The order of messages with equal timestamps is left open by the store's
 query; this model fixes it to insertion order, by sorting stably.
 */
module Inbox {
  import opened Models

  /** The messages of `s` that satisfy `p`, in their original order. */
  function Filter(s: seq<Message>, p: Message -> bool): seq<Message>
  {
    if |s| == 0 then []
    else Filter(s[..|s| - 1], p) + (if p(s[|s| - 1]) then [s[|s| - 1]] else [])
  }

  /** Row predicate of an inbox query: the message is addressed to `username`. */
  function AddressedTo(username: string): Message -> bool
  {
    (m: Message) => m.recipientUsername == username
  }

  /** Row predicate of the "new messages" query: addressed to `username` and
      strictly later than the watermark `since`. */
  function NewFor(username: string, since: Time): Message -> bool
  {
    (m: Message) => m.recipientUsername == username && m.timestamp > since
  }

  /** Row predicate of a bulk delete: addressed to `username` with an id in `ids`. */
  function Targeted(username: string, ids: seq<string>): Message -> bool
  {
    (m: Message) => m.recipientUsername == username && m.id in ids
  }

  /** The complement of `Targeted`: the rows a bulk delete keeps. */
  function Spared(username: string, ids: seq<string>): Message -> bool
  {
    (m: Message) => !(m.recipientUsername == username && m.id in ids)
  }

  /** Row predicate used to state stability: the message carries timestamp `t`. */
  function StampedAt(t: Time): Message -> bool
  {
    (m: Message) => m.timestamp == t
  }

  /** Messages in non-decreasing timestamp order. */
  ghost predicate Chronological(s: seq<Message>)
  {
    forall i, j :: 0 <= i < j < |s| ==> s[i].timestamp <= s[j].timestamp
  }

  /** Inserts `m` into `s` just after the last message whose timestamp is not
      later than `m`'s, so that `m` follows every earlier-or-equal message. */
  function Insert(s: seq<Message>, m: Message): (r: seq<Message>)
    ensures multiset(r) == multiset(s) + multiset{m}
  {
    if |s| == 0 || s[|s| - 1].timestamp <= m.timestamp then
      s + [m]
    else
      var s', x := s[..|s| - 1], s[|s| - 1];
      assert s == s' + [x];
      Insert(s', m) + [x]
  }

  /** Orders `s` by timestamp, ties kept in their order in `s` (insertion sort).
      The result is a permutation of `s`. */
  function SortByTime(s: seq<Message>): (r: seq<Message>)
    ensures multiset(r) == multiset(s)
  {
    if |s| == 0 then []
    else
      var s', x := s[..|s| - 1], s[|s| - 1];
      assert s == s' + [x];
      Insert(SortByTime(s'), x)
  }

  /** Sequences with the same elements counted with multiplicity have the
      same members. */
  lemma SameMembers(a: seq<Message>, b: seq<Message>)
    requires multiset(a) == multiset(b)
    ensures forall x :: x in a <==> x in b
  {
    forall x ensures x in a <==> x in b {
      assert x in a <==> x in multiset(a);
      assert x in b <==> x in multiset(b);
    }
  }

  /** Inserting into a chronological sequence keeps it chronological. */
  lemma {:induction false} InsertChronological(s: seq<Message>, m: Message)
    requires Chronological(s)
    ensures Chronological(Insert(s, m))
  {
    if |s| > 0 && s[|s| - 1].timestamp > m.timestamp {
      var s', x := s[..|s| - 1], s[|s| - 1];
      InsertChronological(s', m);
      var r' := Insert(s', m);
      assert multiset(r') == multiset(s' + [m]);
      SameMembers(r', s' + [m]);
      forall y | y in r' ensures y.timestamp <= x.timestamp {
        if y != m {
          var j :| 0 <= j < |s'| && s'[j] == y;
          assert s[j] == y;
        }
      }
      assert Insert(s, m) == r' + [x];
    }
  }

  /** The sorted sequence is in non-decreasing timestamp order. */
  lemma {:induction false} SortIsChronological(s: seq<Message>)
    ensures Chronological(SortByTime(s))
  {
    if |s| > 0 {
      SortIsChronological(s[..|s| - 1]);
      InsertChronological(SortByTime(s[..|s| - 1]), s[|s| - 1]);
    }
  }

  /** The filter keeps every message satisfying `p` as often as `s` holds it,
      and drops every other message. */
  lemma {:induction false} FilterCounts(s: seq<Message>, p: Message -> bool)
    ensures forall x :: multiset(Filter(s, p))[x] == if p(x) then multiset(s)[x] else 0
  {
    if |s| > 0 {
      var s', x := s[..|s| - 1], s[|s| - 1];
      FilterCounts(s', p);
      assert s == s' + [x];
    }
  }

  /** Two row predicates that agree on every message of `s` select the same rows. */
  lemma {:induction false} FilterCongruent(s: seq<Message>, p: Message -> bool, q: Message -> bool)
    requires forall x :: x in s ==> p(x) == q(x)
    ensures Filter(s, p) == Filter(s, q)
  {
    if |s| > 0 {
      FilterCongruent(s[..|s| - 1], p, q);
    }
  }

  /** Exactly the messages of `s` that satisfy `p` survive the filter. */
  lemma {:induction false} FilterMembers(s: seq<Message>, p: Message -> bool)
    ensures forall x :: x in Filter(s, p) <==> x in s && p(x)
  {
    if |s| > 0 {
      var s', x := s[..|s| - 1], s[|s| - 1];
      FilterMembers(s', p);
      assert s == s' + [x];
    }
  }

  /** Filtering distributes over concatenation. */
  lemma {:induction false} FilterAppend(a: seq<Message>, b: seq<Message>, p: Message -> bool)
    ensures Filter(a + b, p) == Filter(a, p) + Filter(b, p)
    decreases |b|
  {
    if |b| == 0 {
      assert a + b == a;
    } else {
      var b' := b[..|b| - 1];
      assert (a + b)[..|a + b| - 1] == a + b';
      FilterAppend(a, b', p);
    }
  }

  /** A filter that every element passes keeps the whole sequence. */
  lemma {:induction false} FilterKeepsAll(s: seq<Message>, p: Message -> bool)
    requires forall x :: x in s ==> p(x)
    ensures Filter(s, p) == s
  {
    if |s| > 0 {
      FilterKeepsAll(s[..|s| - 1], p);
      assert s == s[..|s| - 1] + [s[|s| - 1]];
    }
  }

  /** A filter that no element passes yields nothing. */
  lemma {:induction false} FilterDropsAll(s: seq<Message>, p: Message -> bool)
    requires forall x :: x in s ==> !p(x)
    ensures Filter(s, p) == []
  {
    if |s| > 0 {
      FilterDropsAll(s[..|s| - 1], p);
    }
  }

  /** A predicate and its complement split a sequence without loss: every
      element lands in exactly one of the two parts. */
  lemma {:induction false} FilterPartition(s: seq<Message>, p: Message -> bool, q: Message -> bool)
    requires forall x :: q(x) == !p(x)
    ensures multiset(Filter(s, p)) + multiset(Filter(s, q)) == multiset(s)
  {
    if |s| > 0 {
      FilterPartition(s[..|s| - 1], p, q);
      assert s == s[..|s| - 1] + [s[|s| - 1]];
    }
  }

  /** When only the element at `i` fails `p`, the filter removes just that one. */
  lemma {:induction false} FilterRemovesOne(s: seq<Message>, p: Message -> bool, i: nat)
    requires i < |s|
    requires !p(s[i])
    requires forall j :: 0 <= j < |s| && j != i ==> p(s[j])
    ensures Filter(s, p) == s[..i] + s[i + 1..]
  {
    var s', x := s[..|s| - 1], s[|s| - 1];
    if i == |s| - 1 {
      FilterKeepsAll(s', p);
    } else {
      FilterRemovesOne(s', p, i);
      assert s'[..i] + s'[i + 1..] + [x] == s[..i] + s[i + 1..];
    }
  }

  /** Insertion is stable: among the messages stamped `t`, `m` comes after
      all those already present. */
  lemma {:induction false} InsertStable(s: seq<Message>, m: Message, t: Time)
    ensures Filter(Insert(s, m), StampedAt(t)) == Filter(s, StampedAt(t)) + Filter([m], StampedAt(t))
  {
    var p := StampedAt(t);
    assert [m][..0] == [];
    if |s| == 0 || s[|s| - 1].timestamp <= m.timestamp {
      FilterAppend(s, [m], p);
    } else {
      var s', x := s[..|s| - 1], s[|s| - 1];
      assert s == s' + [x];
      InsertStable(s', m, t);
      FilterAppend(Insert(s', m), [x], p);
      FilterAppend(s', [x], p);
      assert [x][..0] == [];
    }
  }

  /** Sorting is stable: the messages stamped `t` keep their relative order. */
  lemma {:induction false} SortIsStable(s: seq<Message>, t: Time)
    ensures Filter(SortByTime(s), StampedAt(t)) == Filter(s, StampedAt(t))
  {
    if |s| > 0 {
      var s', x := s[..|s| - 1], s[|s| - 1];
      assert s == s' + [x];
      assert SortByTime(s) == Insert(SortByTime(s'), x);
      SortIsStable(s', t);
      InsertStable(SortByTime(s'), x, t);
      FilterAppend(s', [x], StampedAt(t));
    }
  }

  /** Messages already in timestamp order are left exactly where they are. */
  lemma {:induction false} SortKeepsChronological(s: seq<Message>)
    requires Chronological(s)
    ensures SortByTime(s) == s
  {
    if |s| > 0 {
      var s', x := s[..|s| - 1], s[|s| - 1];
      ChronologicalPrefix(s);
      SortKeepsChronological(s');
      assert SortByTime(s) == Insert(s', x);
      if |s'| > 0 {
        assert s[|s| - 2].timestamp <= s[|s| - 1].timestamp;
      }
    }
  }

  /** Dropping the last message keeps a sequence chronological. */
  lemma ChronologicalPrefix(s: seq<Message>)
    requires |s| > 0 && Chronological(s)
    ensures Chronological(s[..|s| - 1])
  {
  }

  /** A selection of chronological messages is itself chronological. */
  lemma {:induction false} FilterKeepsChronological(s: seq<Message>, p: Message -> bool)
    requires Chronological(s)
    ensures Chronological(Filter(s, p))
  {
    if |s| > 0 {
      var s', x := s[..|s| - 1], s[|s| - 1];
      ChronologicalPrefix(s);
      FilterKeepsChronological(s', p);
      FilterMembers(s', p);
      forall y | y in Filter(s', p) ensures y.timestamp <= x.timestamp {
        var j :| 0 <= j < |s'| && s'[j] == y;
        assert s[j] == y;
      }
    }
  }
}
