/**
 The steps of the HTTP server's replay cache (src/server/mod.rs) as functions of its
 whole state. Unlike the iroh cache, ids evicted for a principal's share stay behind
 in the queue.
 */
module HttpReplay {
  import opened Prelude
  import opened ReplayLedger

  datatype Cache = Cache(entries: map<Id, Entry>, order: seq<Id>, byPrincipal: map<Principal, seq<Id>>)

  const EMPTY := Cache(map[], [], map[])

  // ----- the operations, as functions of the whole state -----

  function Remove(c: Cache, id: Id): Cache {
    if id !in c.entries then c
    else
      var p := c.entries[id].principal;
      var index := if p !in c.byPrincipal then c.byPrincipal
                else if Without(c.byPrincipal[p], id) == [] then c.byPrincipal - {p}
                else c.byPrincipal[p := Without(c.byPrincipal[p], id)];
      Cache(c.entries - {id}, c.order, index)
  }

  function PopFront(c: Cache): Cache
    requires c.order != []
  {
    c.(order := c.order[1..])
  }

  function Prune(c: Cache, now: nat): Cache
    decreases |c.order|
  {
    if c.order == [] then c
    else if c.order[0] !in c.entries then Prune(PopFront(c), now)
    else if c.entries[c.order[0]].expiresAt <= now then Prune(Remove(PopFront(c), c.order[0]), now)
    else c
  }

  function PopOldestOf(c: Cache, p: Principal): Cache
    requires p in c.byPrincipal && c.byPrincipal[p] != []
  {
    Remove(c.(byPrincipal := c.byPrincipal[p := c.byPrincipal[p][1..]]), c.byPrincipal[p][0])
  }

  function Share(c: Cache, p: Principal): nat {
    if p in c.byPrincipal then |c.byPrincipal[p]| else 0
  }

  lemma PopShrinks(c: Cache, p: Principal)
    requires p in c.byPrincipal && c.byPrincipal[p] != []
    ensures Share(PopOldestOf(c, p), p) < Share(c, p)
  {
    WithoutFacts(c.byPrincipal[p][1..], c.byPrincipal[p][0]);
  }

  function EvictFor(c: Cache, p: Principal, perPrincipal: nat): Cache
    decreases Share(c, p)
  {
    if p in c.byPrincipal && |c.byPrincipal[p]| >= perPrincipal && c.byPrincipal[p] != [] then
      PopShrinks(c, p);
      EvictFor(PopOldestOf(c, p), p, perPrincipal)
    else c
  }

  function EvictOldest(c: Cache, capacity: nat): Cache
    decreases |c.order|
  {
    if |c.entries| >= capacity && c.order != [] then
      EvictOldest(Remove(PopFront(c), c.order[0]), capacity)
    else c
  }

  function Insert(c: Cache, id: Id, e: Entry): Cache {
    var ids := if e.principal in c.byPrincipal then c.byPrincipal[e.principal] else [];
    Cache(c.entries[id := e], c.order + [id], c.byPrincipal[e.principal := ids + [id]])
  }

  function CheckAndInsert(c: Cache, capacity: nat, perPrincipal: nat, p: Principal, id: Id, now: nat, expiresAt: nat)
    : (Cache, bool)
  {
    var pruned := Prune(c, now);
    if id in pruned.entries then (pruned, false)
    else (Insert(EvictOldest(EvictFor(pruned, p, perPrincipal), capacity), id, Entry(p, expiresAt)), true)
  }

  // ----- the representation invariant -----

  /** The live ids of a queue: of several copies of an id only the last counts. */
  function Live(order: seq<Id>, keys: set<Id>): seq<Id> {
    if order == [] then []
    else if order[0] in keys && order[0] !in order[1..] then [order[0]] + Live(order[1..], keys)
    else Live(order[1..], keys)
  }

  function View(c: Cache): Ledger {
    Ledger(Live(c.order, c.entries.Keys), c.entries)
  }

  ghost predicate IndexExact(index: map<Principal, seq<Id>>, l: Ledger) {
    forall p :: ExactFor(index, l, p)
  }

  ghost predicate ExactFor(index: map<Principal, seq<Id>>, l: Ledger, p: Principal) {
    (p in index <==> Of(l, p) != []) && (p in index ==> index[p] == Of(l, p))
  }

  /** Every live id is queued, and each principal's list is exactly its live ids in insertion order. */
  ghost predicate Inv(c: Cache) {
    WellFormed(View(c)) && IndexExact(c.byPrincipal, View(c))
  }

  lemma EmptyInv()
    ensures Inv(EMPTY) && View(EMPTY) == Ledger([], map[])
    ensures forall p :: Of(View(EMPTY), p) == []
  {
  }

  lemma {:induction false} LiveFacts(order: seq<Id>, keys: set<Id>)
    ensures forall x :: x in Live(order, keys) <==> x in order && x in keys
    ensures NoDup(Live(order, keys))
    ensures |Live(order, keys)| <= |order|
  {
    if order != [] {
      LiveFacts(order[1..], keys);
      assert order == [order[0]] + order[1..];
    }
  }

  lemma {:induction false} LiveRemove(order: seq<Id>, keys: set<Id>, x: Id)
    ensures Live(order, keys - {x}) == Without(Live(order, keys), x)
  {
    if order != [] {
      LiveRemove(order[1..], keys, x);
    }
  }

  lemma {:induction false} LiveAppend(order: seq<Id>, keys: set<Id>, x: Id)
    requires x !in keys
    ensures Live(order + [x], keys + {x}) == Live(order, keys) + [x]
  {
    if order == [] {
      assert order + [x] == [x];
      assert Live([x], keys + {x}) == [x] + Live([], keys + {x});
    } else {
      LiveAppend(order[1..], keys, x);
      assert (order + [x])[1..] == order[1..] + [x];
    }
  }

  /** Popping the head of the queue together with its entry drops that id from the ledger. */
  lemma LivePop(order: seq<Id>, keys: set<Id>)
    requires order != []
    ensures Live(order[1..], keys - {order[0]}) == Without(Live(order, keys), order[0])
    ensures order[0] !in keys ==> Live(order[1..], keys) == Live(order, keys)
  {
    LiveRemove(order[1..], keys, order[0]);
    LiveFacts(order[1..], keys);
    WithoutFacts(Live(order[1..], keys), order[0]);
  }

  /** Removing an id from an exact index keeps it exact. */
  lemma RemoveExact(l: Ledger, index: map<Principal, seq<Id>>, id: Id)
    requires WellFormed(l) && IndexExact(index, l) && id in l.entries
    ensures var p := l.entries[id].principal;
            && p in index
            && IndexExact(if Without(index[p], id) == [] then index - {p} else index[p := Without(index[p], id)],
                          Drop(l, id))
  {
    var p := l.entries[id].principal;
    DropShare(l, id, p);
    assert ExactFor(index, l, p);
    var after := if Without(index[p], id) == [] then index - {p} else index[p := Without(index[p], id)];
    forall q
      ensures ExactFor(after, Drop(l, id), q)
    {
      assert ExactFor(index, l, q);
      DropShare(l, id, q);
    }
  }

  lemma RemoveRefines(c: Cache, id: Id)
    requires Inv(c)
    ensures Inv(Remove(c, id)) && View(Remove(c, id)) == Drop(View(c), id)
  {
    DropWellFormed(View(c), id);
    LiveRemove(c.order, c.entries.Keys, id);
    if id in c.entries {
      RemoveExact(View(c), c.byPrincipal, id);
      assert (c.entries - {id}).Keys == c.entries.Keys - {id};
    } else {
      WithoutFacts(View(c).ids, id);
      assert c.entries - {id} == c.entries;
    }
  }

  lemma PopRefines(c: Cache)
    requires Inv(c) && c.order != []
    ensures Inv(Remove(PopFront(c), c.order[0]))
    ensures View(Remove(PopFront(c), c.order[0])) == Drop(View(c), c.order[0])
  {
    var x := c.order[0];
    var d := Remove(PopFront(c), x);
    DropWellFormed(View(c), x);
    LivePop(c.order, c.entries.Keys);
    if x in c.entries {
      RemoveExact(View(c), c.byPrincipal, x);
      assert d.entries.Keys == c.entries.Keys - {x};
    } else {
      WithoutFacts(View(c).ids, x);
      assert c.entries - {x} == c.entries;
    }
  }

  lemma PopStale(c: Cache)
    requires Inv(c) && c.order != [] && c.order[0] !in c.entries
    ensures Inv(PopFront(c)) && View(PopFront(c)) == View(c)
  {
    LivePop(c.order, c.entries.Keys);
  }

  /** Popping a principal's oldest id before removing it is the same as removing it. */
  lemma PopIsRemove(c: Cache, p: Principal)
    requires p in c.byPrincipal && c.byPrincipal[p] != []
    requires c.byPrincipal[p][0] in c.entries && c.entries[c.byPrincipal[p][0]].principal == p
    requires c.byPrincipal[p][0] !in c.byPrincipal[p][1..]
    ensures PopOldestOf(c, p) == Remove(c, c.byPrincipal[p][0])
  {
    var ids := c.byPrincipal[p];
    WithoutFacts(ids[1..], ids[0]);
    assert Without(ids, ids[0]) == ids[1..];
    var index := c.byPrincipal[p := ids[1..]];
    assert index - {p} == c.byPrincipal - {p};
    assert index[p := ids[1..]] == index;
  }

  lemma PopOldestRefines(c: Cache, p: Principal)
    requires Inv(c) && p in c.byPrincipal
    ensures c.byPrincipal[p] == Of(View(c), p) != []
    ensures PopOldestOf(c, p) == Remove(c, Of(View(c), p)[0])
    ensures Inv(PopOldestOf(c, p)) && View(PopOldestOf(c, p)) == Drop(View(c), Of(View(c), p)[0])
  {
    var ids := c.byPrincipal[p];
    assert ExactFor(c.byPrincipal, View(c), p);
    OwnedIsHeld(View(c).ids, c.entries, p);
    assert ids[0] in ids;
    assert ids[0] !in ids[1..];
    PopIsRemove(c, p);
    RemoveRefines(c, ids[0]);
  }

  lemma {:induction false} PruneInv(c: Cache, now: nat)
    requires Inv(c)
    ensures Inv(Prune(c, now)) && Sub(View(Prune(c, now)), View(c))
    decreases |c.order|
  {
    if c.order != [] {
      if c.order[0] !in c.entries {
        PopStale(c);
        PruneInv(PopFront(c), now);
      } else if c.entries[c.order[0]].expiresAt <= now {
        var d := Remove(PopFront(c), c.order[0]);
        PopRefines(c);
        PruneInv(d, now);
        DropSub(View(c), c.order[0]);
        SubTransitive(View(Prune(d, now)), View(d), View(c));
      }
    }
  }

  /** Eviction within a principal's share is the ledger's, whatever stale ids the queue holds. */
  lemma {:induction false} EvictForRefines(c: Cache, p: Principal, perPrincipal: nat)
    requires Inv(c)
    ensures Inv(EvictFor(c, p, perPrincipal))
    ensures View(EvictFor(c, p, perPrincipal)) == ReplayLedger.EvictFor(View(c), p, perPrincipal)
    ensures Sub(View(EvictFor(c, p, perPrincipal)), View(c))
    decreases Share(c, p)
  {
    EvictForSub(View(c), p, perPrincipal);
    assert ExactFor(c.byPrincipal, View(c), p);
    if p in c.byPrincipal && |c.byPrincipal[p]| >= perPrincipal {
      PopOldestRefines(c, p);
      PopShrinks(c, p);
      EvictForRefines(PopOldestOf(c, p), p, perPrincipal);
    }
  }

  lemma {:induction false} EvictOldestInv(c: Cache, capacity: nat)
    requires Inv(c)
    ensures Inv(EvictOldest(c, capacity)) && Sub(View(EvictOldest(c, capacity)), View(c))
    ensures |EvictOldest(c, capacity).entries| < Max(1, capacity)
    decreases |c.order|
  {
    if |c.entries| >= capacity && c.order != [] {
      var d := Remove(PopFront(c), c.order[0]);
      PopRefines(c);
      EvictOldestInv(d, capacity);
      DropSub(View(c), c.order[0]);
      SubTransitive(View(EvictOldest(d, capacity)), View(d), View(c));
    } else if c.order == [] {
      SizeOfEntries(View(c));
    }
  }

  lemma InsertExact(l: Ledger, index: map<Principal, seq<Id>>, id: Id, e: Entry)
    requires WellFormed(l) && IndexExact(index, l) && id !in l.entries
    ensures var ids := if e.principal in index then index[e.principal] else [];
            IndexExact(index[e.principal := ids + [id]], Append(l, id, e))
  {
    var ids := if e.principal in index then index[e.principal] else [];
    var after, m := index[e.principal := ids + [id]], Append(l, id, e);
    forall q
      ensures ExactFor(after, m, q)
    {
      assert ExactFor(index, l, q);
      OwnedAppend(l.ids, l.entries, q, id, e);
    }
  }

  lemma InsertRefines(c: Cache, id: Id, e: Entry)
    requires Inv(c) && id !in c.entries
    ensures Inv(Insert(c, id, e)) && View(Insert(c, id, e)) == Append(View(c), id, e)
  {
    LiveAppend(c.order, c.entries.Keys, id);
    assert c.entries[id := e].Keys == c.entries.Keys + {id};
    assert View(Insert(c, id, e)) == Append(View(c), id, e);
    AppendFacts(View(c), id, e);
    InsertExact(View(c), c.byPrincipal, id, e);
  }

  /** Every step keeps the representation invariant and both limits, stale and repeated ids included. */
  lemma CheckAndInsertKeeps(c: Cache, capacity: nat, perPrincipal: nat, p: Principal, id: Id, now: nat, expiresAt: nat)
    requires Inv(c) && Within(View(c), capacity, perPrincipal)
    ensures Inv(CheckAndInsert(c, capacity, perPrincipal, p, id, now, expiresAt).0)
    ensures Within(View(CheckAndInsert(c, capacity, perPrincipal, p, id, now, expiresAt).0), capacity, perPrincipal)
  {
    PruneInv(c, now);
    var a := Prune(c, now);
    if id !in a.entries {
      EvictForRefines(a, p, perPrincipal);
      EvictForSub(View(a), p, perPrincipal);
      var b := EvictFor(a, p, perPrincipal);
      EvictOldestInv(b, capacity);
      var d := EvictOldest(b, capacity);
      SizeOfEntries(View(d));
      assert id !in View(b).entries && id !in View(d).entries;
      InsertRefines(d, id, Entry(p, expiresAt));
      AppendFacts(View(d), id, Entry(p, expiresAt));
    }
  }

  // ----- without repeated ids the cache is the ledger -----

  lemma LiveHead(c: Cache)
    requires Inv(c) && NoDup(c.order) && c.order != []
    ensures NoDup(c.order[1..])
    ensures c.order[0] in c.entries ==> View(c).ids != [] && View(c).ids[0] == c.order[0]
  {
    assert c.order[0] !in c.order[1..];
  }

  lemma {:induction false} PruneRefines(c: Cache, now: nat)
    requires Inv(c) && NoDup(c.order)
    ensures View(Prune(c, now)) == ReplayLedger.Prune(View(c), now)
    ensures NoDup(Prune(c, now).order)
    decreases |c.order|
  {
    if c.order != [] {
      LiveHead(c);
      if c.order[0] !in c.entries {
        PopStale(c);
        PruneRefines(PopFront(c), now);
      } else if c.entries[c.order[0]].expiresAt <= now {
        PopRefines(c);
        PruneRefines(Remove(PopFront(c), c.order[0]), now);
      }
    }
  }

  lemma {:induction false} EvictOldestRefines(c: Cache, capacity: nat)
    requires Inv(c) && NoDup(c.order)
    ensures View(EvictOldest(c, capacity)) == ReplayLedger.EvictOldest(View(c), capacity)
    ensures NoDup(EvictOldest(c, capacity).order)
    decreases |c.order|
  {
    SizeOfEntries(View(c));
    if |c.entries| >= capacity && c.order != [] {
      LiveHead(c);
      PopRefines(c);
      if c.order[0] !in c.entries {
        PopStale(c);
      }
      EvictOldestRefines(Remove(PopFront(c), c.order[0]), capacity);
    }
  }

  lemma {:induction false} PruneQueue(c: Cache, now: nat)
    ensures forall x :: x in Prune(c, now).order ==> x in c.order
    decreases |c.order|
  {
    if c.order != [] {
      if c.order[0] !in c.entries {
        PruneQueue(PopFront(c), now);
      } else if c.entries[c.order[0]].expiresAt <= now {
        PruneQueue(Remove(PopFront(c), c.order[0]), now);
      }
    }
  }

  lemma {:induction false} EvictOldestQueue(c: Cache, capacity: nat)
    ensures forall x :: x in EvictOldest(c, capacity).order ==> x in c.order
    decreases |c.order|
  {
    if |c.entries| >= capacity && c.order != [] {
      EvictOldestQueue(Remove(PopFront(c), c.order[0]), capacity);
    }
  }

  lemma {:induction false} EvictForQueue(c: Cache, p: Principal, perPrincipal: nat)
    ensures EvictFor(c, p, perPrincipal).order == c.order
    decreases Share(c, p)
  {
    if p in c.byPrincipal && |c.byPrincipal[p]| >= perPrincipal && c.byPrincipal[p] != [] {
      PopShrinks(c, p);
      EvictForQueue(PopOldestOf(c, p), p, perPrincipal);
    }
  }

  /** A step queues nothing but the id it accepts. */
  lemma QueueGrowsBy(c: Cache, capacity: nat, perPrincipal: nat, p: Principal, id: Id, now: nat, expiresAt: nat)
    ensures var (d, accepted) := CheckAndInsert(c, capacity, perPrincipal, p, id, now, expiresAt);
            forall x :: x in d.order ==> x in c.order || (accepted && x == id)
  {
    PruneQueue(c, now);
    var a := Prune(c, now);
    EvictForQueue(a, p, perPrincipal);
    EvictOldestQueue(EvictFor(a, p, perPrincipal), capacity);
  }

  /** A step refines the ledger's, as long as the accepted id is not still queued from an earlier acceptance. */
  lemma CheckAndInsertRefines(c: Cache, capacity: nat, perPrincipal: nat, p: Principal, id: Id, now: nat,
                              expiresAt: nat)
    requires Inv(c) && NoDup(c.order)
    requires CheckAndInsert(c, capacity, perPrincipal, p, id, now, expiresAt).1 ==> id !in Prune(c, now).order
    ensures var (d, accepted) := CheckAndInsert(c, capacity, perPrincipal, p, id, now, expiresAt);
            && (View(d), accepted) == Commit(View(c), capacity, perPrincipal, p, id, now, expiresAt)
            && Inv(d) && NoDup(d.order)
  {
    PruneInv(c, now);
    PruneRefines(c, now);
    EvictKeeps(View(c), capacity, perPrincipal, p, now);
    var a := Prune(c, now);
    if id !in a.entries {
      EvictForRefines(a, p, perPrincipal);
      EvictForQueue(a, p, perPrincipal);
      var b := EvictFor(a, p, perPrincipal);
      EvictOldestInv(b, capacity);
      EvictOldestQueue(b, capacity);
      EvictOldestRefines(b, capacity);
      var d := EvictOldest(b, capacity);
      assert id !in View(b).entries && id !in View(d).entries;
      InsertRefines(d, id, Entry(p, expiresAt));
    }
  }
}
