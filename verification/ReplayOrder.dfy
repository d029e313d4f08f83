/**
 The HTTP replay cache prunes and evicts along its queue, where an id accepted again stands first at
 the place of its older copy; the ledger goes by the place of its last copy. The two do the same
 exactly when these orders agree on the ids that are dropped.
 */
module ReplayOrder {
  import opened Prelude
  import opened ReplayLedger
  import H = HttpReplay

  // ----- dropping several ids -----

  function Keep(ids: seq<Id>, gone: set<Id>): seq<Id> {
    if ids == [] then []
    else if ids[0] in gone then Keep(ids[1..], gone)
    else [ids[0]] + Keep(ids[1..], gone)
  }

  function DropAll(l: Ledger, gone: set<Id>): Ledger {
    Ledger(Keep(l.ids, gone), l.entries - gone)
  }

  lemma {:induction false} KeepAll(ids: seq<Id>)
    ensures Keep(ids, {}) == ids
  {
    if ids != [] {
      KeepAll(ids[1..]);
    }
  }

  lemma {:induction false} KeepWithout(ids: seq<Id>, x: Id, gone: set<Id>)
    ensures Keep(Without(ids, x), gone) == Keep(ids, {x} + gone)
  {
    if ids != [] {
      KeepWithout(ids[1..], x, gone);
      if ids[0] != x {
        var rest := Without(ids[1..], x);
        assert ([ids[0]] + rest)[1..] == rest;
      }
    }
  }

  lemma DropNone(l: Ledger)
    ensures DropAll(l, {}) == l
  {
    KeepAll(l.ids);
    assert l.entries - {} == l.entries;
  }

  lemma DropOneMore(l: Ledger, x: Id, gone: set<Id>)
    ensures DropAll(Drop(l, x), gone) == DropAll(l, {x} + gone)
  {
    KeepWithout(l.ids, x, gone);
    assert (l.entries - {x}) - gone == l.entries - ({x} + gone);
  }

  lemma SameDropped(l: Ledger, a: set<Id>, b: set<Id>)
    requires a <= l.entries.Keys && b <= l.entries.Keys
    ensures DropAll(l, a) == DropAll(l, b) <==> a == b
  {
    if DropAll(l, a) == DropAll(l, b) {
      assert (l.entries - a).Keys == l.entries.Keys - a;
      assert (l.entries - b).Keys == l.entries.Keys - b;
      assert a == l.entries.Keys - (l.entries.Keys - a);
      assert b == l.entries.Keys - (l.entries.Keys - b);
    }
  }

  // ----- the two orders -----

  /** The live ids of a queue in the order of their first copies. */
  function Firsts(order: seq<Id>, keys: set<Id>): seq<Id> {
    if order == [] then []
    else if order[0] in keys then [order[0]] + Firsts(order[1..], keys - {order[0]})
    else Firsts(order[1..], keys)
  }

  /** The expired ids in front of the first that is not. */
  function Expired(ids: seq<Id>, entries: map<Id, Entry>, now: nat): set<Id> {
    if ids != [] && ids[0] in entries && entries[ids[0]].expiresAt <= now then
      {ids[0]} + Expired(ids[1..], entries, now)
    else {}
  }

  lemma {:induction false} FirstsLive(order: seq<Id>, keys: set<Id>)
    ensures forall x :: x in Firsts(order, keys) ==> x in keys
  {
    if order != [] {
      FirstsLive(order[1..], if order[0] in keys then keys - {order[0]} else keys);
    }
  }

  lemma {:induction false} ExpiredHeld(ids: seq<Id>, entries: map<Id, Entry>, now: nat)
    ensures Expired(ids, entries, now) <= entries.Keys
  {
    if ids != [] {
      ExpiredHeld(ids[1..], entries, now);
    }
  }

  lemma {:induction false} ExpiredElsewhere(ids: seq<Id>, entries: map<Id, Entry>, now: nat, x: Id)
    requires x !in ids
    ensures Expired(ids, entries - {x}, now) == Expired(ids, entries, now)
  {
    if ids != [] {
      ExpiredElsewhere(ids[1..], entries, now, x);
    }
  }

  // ----- pruning -----

  /** The HTTP cache drops the expired ids in front of its queue, each at its first copy. */
  lemma {:induction false} HttpPrunes(c: H.Cache, now: nat)
    requires H.Inv(c)
    ensures H.View(H.Prune(c, now)) == DropAll(H.View(c), Expired(Firsts(c.order, c.entries.Keys), c.entries, now))
    decreases |c.order|
  {
    if c.order == [] || (c.order[0] in c.entries && c.entries[c.order[0]].expiresAt > now) {
      DropNone(H.View(c));
    } else if c.order[0] !in c.entries {
      H.PopStale(c);
      HttpPrunes(H.PopFront(c), now);
    } else {
      var x := c.order[0];
      var d := H.Remove(H.PopFront(c), x);
      H.PopRefines(c);
      HttpPrunes(d, now);
      var rest := Firsts(c.order[1..], c.entries.Keys - {x});
      assert d.entries.Keys == c.entries.Keys - {x};
      FirstsLive(c.order[1..], c.entries.Keys - {x});
      ExpiredElsewhere(rest, c.entries, now, x);
      DropOneMore(H.View(c), x, Expired(rest, c.entries, now));
    }
  }

  /** The ledger drops the expired ids in front of its own. */
  lemma {:induction false} LedgerPrunes(l: Ledger, now: nat)
    requires WellFormed(l)
    ensures Prune(l, now) == DropAll(l, Expired(l.ids, l.entries, now))
    decreases |l.ids|
  {
    if l.ids == [] || l.entries[l.ids[0]].expiresAt > now {
      DropNone(l);
    } else {
      var x := l.ids[0];
      DropHead(l);
      LedgerPrunes(Drop(l, x), now);
      assert x !in l.ids[1..];
      ExpiredElsewhere(l.ids[1..], l.entries, now, x);
      DropOneMore(l, x, Expired(l.ids[1..], l.entries, now));
    }
  }

  /** First and last copies put the same expired ids in front. */
  predicate PruneInOrder(c: H.Cache, now: nat) {
    Expired(Firsts(c.order, c.entries.Keys), c.entries, now) == Expired(H.View(c).ids, c.entries, now)
  }

  lemma PruneIff(c: H.Cache, now: nat)
    requires H.Inv(c)
    ensures H.View(H.Prune(c, now)) == Prune(H.View(c), now) <==> PruneInOrder(c, now)
  {
    HttpPrunes(c, now);
    LedgerPrunes(H.View(c), now);
    ExpiredHeld(Firsts(c.order, c.entries.Keys), c.entries, now);
    ExpiredHeld(H.View(c).ids, c.entries, now);
    SameDropped(H.View(c), Expired(Firsts(c.order, c.entries.Keys), c.entries, now),
                Expired(H.View(c).ids, c.entries, now));
  }

  // ----- eviction -----

  function FirstLive(order: seq<Id>, keys: set<Id>): Option<Id> {
    if order == [] then None else if order[0] in keys then Some(order[0]) else FirstLive(order[1..], keys)
  }

  lemma {:induction false} HttpEvicts(c: H.Cache, capacity: nat)
    requires H.Inv(c) && |c.entries| == capacity > 0
    ensures var x := FirstLive(c.order, c.entries.Keys);
            x.Some? && x.value in c.entries && H.View(H.EvictOldest(c, capacity)) == Drop(H.View(c), x.value)
    decreases |c.order|
  {
    SizeOfEntries(H.View(c));
    H.LiveFacts(c.order, c.entries.Keys);
    var x := c.order[0];
    H.PopRefines(c);
    if x !in c.entries {
      H.PopStale(c);
      HttpEvicts(H.PopFront(c), capacity);
    } else {
      var d := H.Remove(H.PopFront(c), x);
      assert |d.entries| < capacity by {
        assert d.entries.Keys == c.entries.Keys - {x};
      }
    }
  }

  lemma LedgerEvicts(l: Ledger, capacity: nat)
    requires WellFormed(l) && |l.entries| == capacity > 0
    ensures l.ids != [] && EvictOldest(l, capacity) == Drop(l, l.ids[0])
  {
    SizeOfEntries(l);
    DropHead(l);
  }

  lemma {:induction false} HttpEvictsAll(c: H.Cache)
    requires H.Inv(c)
    ensures H.View(H.EvictOldest(c, 0)) == Ledger([], map[])
    decreases |c.order|
  {
    if c.order != [] {
      H.PopRefines(c);
      HttpEvictsAll(H.Remove(H.PopFront(c), c.order[0]));
    }
  }

  lemma {:induction false} LedgerEvictsAll(l: Ledger)
    requires WellFormed(l)
    ensures EvictOldest(l, 0) == Ledger([], map[])
    decreases |l.ids|
  {
    if l.ids != [] {
      DropHead(l);
      LedgerEvictsAll(Drop(l, l.ids[0]));
    }
  }

  /** If an id has to go, the first in the queue that is live is the oldest. */
  predicate EvictInOrder(c: H.Cache, capacity: nat) {
    0 < capacity <= |c.entries| ==>
      H.View(c).ids != [] && FirstLive(c.order, c.entries.Keys) == Some(H.View(c).ids[0])
  }

  lemma EvictIff(c: H.Cache, capacity: nat)
    requires H.Inv(c) && |c.entries| <= Max(1, capacity)
    ensures H.View(H.EvictOldest(c, capacity)) == EvictOldest(H.View(c), capacity) <==> EvictInOrder(c, capacity)
  {
    var l := H.View(c);
    SizeOfEntries(l);
    if capacity == 0 {
      HttpEvictsAll(c);
      LedgerEvictsAll(l);
    } else if |c.entries| == capacity {
      HttpEvicts(c, capacity);
      LedgerEvicts(l, capacity);
      var x, y := FirstLive(c.order, c.entries.Keys).value, l.ids[0];
      if x != y {
        assert x in Drop(l, y).entries && x !in Drop(l, x).entries;
      }
    }
  }

  lemma {:induction false} OnceFirstLive(order: seq<Id>, keys: set<Id>)
    requires NoDup(order)
    ensures var ids := H.Live(order, keys); FirstLive(order, keys) == if ids == [] then None else Some(ids[0])
  {
    if order != [] {
      assert order[0] !in order[1..];
      OnceFirstLive(order[1..], keys);
    }
  }

  /** A queue without repeated ids is in order. */
  lemma OnceInOrder(c: H.Cache, capacity: nat)
    requires H.Inv(c) && NoDup(c.order)
    ensures EvictInOrder(c, capacity)
  {
    OnceFirstLive(c.order, c.entries.Keys);
    SizeOfEntries(H.View(c));
  }
}
