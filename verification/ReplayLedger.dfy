/**
 The simple form of a replay cache: the held event ids, oldest first, and what is
 recorded for each. Both caches of the source are compared with it.
 */
module ReplayLedger {
  import opened Prelude

  type Id = string
  type Principal = string

  datatype Entry = Entry(principal: Principal, expiresAt: nat)

  datatype Limits = Limits(capacity: nat, perPrincipal: nat)

  datatype Ledger = Ledger(ids: seq<Id>, entries: map<Id, Entry>)

  /** How long an accepted event is held, in seconds. */
  const RETENTION: nat := 120

  function Without(s: seq<Id>, x: Id): seq<Id> {
    if s == [] then [] else if s[0] == x then Without(s[1..], x) else [s[0]] + Without(s[1..], x)
  }

  /** The ids held for one principal, oldest first. */
  function Owned(ids: seq<Id>, entries: map<Id, Entry>, p: Principal): seq<Id> {
    if ids == [] then []
    else if ids[0] in entries && entries[ids[0]].principal == p then [ids[0]] + Owned(ids[1..], entries, p)
    else Owned(ids[1..], entries, p)
  }

  function Of(l: Ledger, p: Principal): seq<Id> {
    Owned(l.ids, l.entries, p)
  }

  function Drop(l: Ledger, id: Id): Ledger {
    Ledger(Without(l.ids, id), l.entries - {id})
  }

  ghost predicate WellFormed(l: Ledger) {
    NoDup(l.ids) && forall id :: id in l.ids <==> id in l.entries
  }

  ghost predicate Within(l: Ledger, capacity: nat, perPrincipal: nat) {
    && |l.ids| <= Max(1, capacity)
    && forall p :: |Of(l, p)| <= Max(1, perPrincipal)
  }

  ghost predicate SortedByExpiry(l: Ledger)
    requires WellFormed(l)
  {
    forall i, j :: 0 <= i < j < |l.ids| ==> l.entries[l.ids[i]].expiresAt <= l.entries[l.ids[j]].expiresAt
  }

  // ----- the operations -----

  function Prune(l: Ledger, now: nat): Ledger
    requires WellFormed(l)
    decreases |l.ids|
  {
    if l.ids != [] && l.entries[l.ids[0]].expiresAt <= now then
      DropHead(l);
      Prune(Drop(l, l.ids[0]), now)
    else l
  }

  function EvictFor(l: Ledger, p: Principal, perPrincipal: nat): Ledger
    requires WellFormed(l)
    decreases |l.ids|
  {
    if Of(l, p) != [] && |Of(l, p)| >= perPrincipal then
      OwnedIsHeld(l.ids, l.entries, p);
      DropWellFormed(l, Of(l, p)[0]);
      EvictFor(Drop(l, Of(l, p)[0]), p, perPrincipal)
    else l
  }

  function EvictOldest(l: Ledger, capacity: nat): Ledger
    requires WellFormed(l)
    decreases |l.ids|
  {
    if l.ids != [] && |l.ids| >= capacity then
      DropHead(l);
      EvictOldest(Drop(l, l.ids[0]), capacity)
    else l
  }

  function Append(l: Ledger, id: Id, e: Entry): Ledger {
    Ledger(l.ids + [id], l.entries[id := e])
  }

  function Commit(l: Ledger, capacity: nat, perPrincipal: nat, p: Principal, id: Id, now: nat, expiresAt: nat)
    : (Ledger, bool)
    requires WellFormed(l)
  {
    EvictKeeps(l, capacity, perPrincipal, p, now);
    var pruned := Prune(l, now);
    if id in pruned.entries then (pruned, false)
    else (Append(EvictOldest(EvictFor(pruned, p, perPrincipal), capacity), id, Entry(p, expiresAt)), true)
  }

  // ----- facts about Without, Owned and Drop -----

  lemma {:induction false} WithoutFacts(s: seq<Id>, x: Id)
    ensures |Without(s, x)| <= |s|
    ensures forall y :: y in Without(s, x) <==> y in s && y != x
    ensures x !in s ==> Without(s, x) == s
    ensures x in s ==> |Without(s, x)| < |s|
    ensures NoDup(s) ==> NoDup(Without(s, x))
  {
    if s != [] {
      WithoutFacts(s[1..], x);
      assert s == [s[0]] + s[1..];
      if NoDup(s) {
        assert NoDup(s[1..]);
        forall i, j | 0 <= i < j < |Without(s, x)|
          ensures Without(s, x)[i] != Without(s, x)[j]
        {
          if s[0] != x && i == 0 {
            assert Without(s, x)[j] == Without(s[1..], x)[j - 1];
            assert Without(s[1..], x)[j - 1] in s[1..];
          } else if s[0] != x {
            assert Without(s, x)[i] == Without(s[1..], x)[i - 1];
            assert Without(s, x)[j] == Without(s[1..], x)[j - 1];
          }
        }
      }
    }
  }

  lemma WithoutHead(s: seq<Id>)
    requires s != [] && NoDup(s)
    ensures Without(s, s[0]) == s[1..]
  {
    assert s[0] !in s[1..];
    WithoutFacts(s[1..], s[0]);
  }

  lemma {:induction false} WithoutOnce(s: seq<Id>, k: nat)
    requires NoDup(s) && k < |s|
    ensures Without(s, s[k]) == s[..k] + s[k + 1..]
  {
    if k == 0 {
      WithoutHead(s);
    } else {
      assert NoDup(s[1..]) && s[1..][k - 1] == s[k];
      WithoutOnce(s[1..], k - 1);
      assert s[..k] == [s[0]] + s[1..][..k - 1];
      assert s[1..][k - 1 + 1..] == s[k + 1..];
    }
  }

  lemma {:induction false} OwnedIsHeld(ids: seq<Id>, entries: map<Id, Entry>, p: Principal)
    ensures forall x :: x in Owned(ids, entries, p) <==> x in ids && x in entries && entries[x].principal == p
    ensures |Owned(ids, entries, p)| <= |ids|
    ensures NoDup(ids) ==> NoDup(Owned(ids, entries, p))
  {
    if ids != [] {
      OwnedIsHeld(ids[1..], entries, p);
      assert ids == [ids[0]] + ids[1..];
      if NoDup(ids) {
        assert NoDup(ids[1..]);
        assert ids[0] !in ids[1..];
      }
    }
  }

  /** The oldest id of a principal is the first position held for it. */
  lemma {:induction false} OwnedFirst(ids: seq<Id>, entries: map<Id, Entry>, p: Principal, k: nat)
    requires k < |ids| && ids[k] in entries && entries[ids[k]].principal == p
    requires forall j :: 0 <= j < k && ids[j] in entries ==> entries[ids[j]].principal != p
    ensures Owned(ids, entries, p) != [] && Owned(ids, entries, p)[0] == ids[k]
  {
    if k > 0 {
      assert forall j :: 0 <= j < k - 1 ==> ids[1..][j] == ids[j + 1];
      OwnedFirst(ids[1..], entries, p, k - 1);
    }
  }

  lemma {:induction false} OwnedNone(ids: seq<Id>, entries: map<Id, Entry>, p: Principal)
    requires forall j :: 0 <= j < |ids| && ids[j] in entries ==> entries[ids[j]].principal != p
    ensures Owned(ids, entries, p) == []
  {
    if ids != [] {
      OwnedNone(ids[1..], entries, p);
    }
  }

  lemma {:induction false} OwnedWithout(ids: seq<Id>, entries: map<Id, Entry>, p: Principal, x: Id)
    ensures Owned(Without(ids, x), entries - {x}, p) == Without(Owned(ids, entries, p), x)
  {
    if ids != [] {
      OwnedWithout(ids[1..], entries, p, x);
      if ids[0] != x {
        assert Without(ids, x) == [ids[0]] + Without(ids[1..], x);
      }
    }
  }

  lemma {:induction false} OwnedElsewhere(ids: seq<Id>, entries: map<Id, Entry>, p: Principal, x: Id, e: Entry)
    requires x !in ids
    ensures Owned(ids, entries[x := e], p) == Owned(ids, entries, p)
  {
    if ids != [] {
      OwnedElsewhere(ids[1..], entries, p, x, e);
    }
  }

  lemma {:induction false} OwnedConcat(ids: seq<Id>, x: Id, entries: map<Id, Entry>, p: Principal)
    requires x in entries
    ensures Owned(ids + [x], entries, p) == Owned(ids, entries, p) + (if entries[x].principal == p then [x] else [])
  {
    if ids == [] {
      assert ids + [x] == [x];
    } else {
      OwnedConcat(ids[1..], x, entries, p);
      assert (ids + [x])[1..] == ids[1..] + [x];
    }
  }

  lemma OwnedAppend(ids: seq<Id>, entries: map<Id, Entry>, p: Principal, x: Id, e: Entry)
    requires x !in ids
    ensures Owned(ids + [x], entries[x := e], p) == Owned(ids, entries, p) + (if e.principal == p then [x] else [])
  {
    OwnedElsewhere(ids, entries, p, x, e);
    OwnedConcat(ids, x, entries[x := e], p);
  }

  lemma DropWellFormed(l: Ledger, id: Id)
    requires WellFormed(l)
    ensures WellFormed(Drop(l, id))
    ensures id in l.entries ==> |Drop(l, id).ids| < |l.ids|
    ensures |Drop(l, id).ids| <= |l.ids|
    ensures forall p :: Of(Drop(l, id), p) == Without(Of(l, p), id)
    ensures forall p :: |Of(Drop(l, id), p)| <= |Of(l, p)|
  {
    WithoutFacts(l.ids, id);
    forall p
      ensures Of(Drop(l, id), p) == Without(Of(l, p), id)
      ensures |Of(Drop(l, id), p)| <= |Of(l, p)|
    {
      OwnedWithout(l.ids, l.entries, p, id);
      WithoutFacts(Of(l, p), id);
    }
  }

  /** What dropping an id does to the share of a principal. */
  lemma DropShare(l: Ledger, id: Id, q: Principal)
    requires WellFormed(l) && id in l.entries
    ensures id in Of(l, l.entries[id].principal)
    ensures Of(Drop(l, id), q) == if q == l.entries[id].principal then Without(Of(l, q), id) else Of(l, q)
  {
    OwnedIsHeld(l.ids, l.entries, l.entries[id].principal);
    OwnedIsHeld(l.ids, l.entries, q);
    OwnedWithout(l.ids, l.entries, q, id);
    WithoutFacts(Of(l, q), id);
  }

  lemma DropHead(l: Ledger)
    requires WellFormed(l) && l.ids != []
    ensures l.ids[0] in l.entries && WellFormed(Drop(l, l.ids[0]))
    ensures Drop(l, l.ids[0]).ids == l.ids[1..]
  {
    DropWellFormed(l, l.ids[0]);
    WithoutHead(l.ids);
  }

  lemma {:induction false} SizeOfEntries(l: Ledger)
    requires WellFormed(l)
    ensures |l.entries| == |l.ids|
    decreases |l.ids|
  {
    if l.ids == [] {
      assert l.entries == map[];
    } else {
      DropHead(l);
      SizeOfEntries(Drop(l, l.ids[0]));
      assert l.entries.Keys == Drop(l, l.ids[0]).entries.Keys + {l.ids[0]};
    }
  }

  // ----- what every operation keeps -----

  /** m is l after some removals. */
  ghost predicate Sub(m: Ledger, l: Ledger)
    requires WellFormed(l)
  {
    && WellFormed(m)
    && |m.ids| <= |l.ids|
    && (forall p :: |Of(m, p)| <= |Of(l, p)|)
    && (forall id :: id in m.entries ==> id in l.entries && m.entries[id] == l.entries[id])
    && (SortedByExpiry(l) ==> SortedByExpiry(m))
  }

  lemma DropSub(l: Ledger, id: Id)
    requires WellFormed(l)
    ensures Sub(Drop(l, id), l)
  {
    DropWellFormed(l, id);
    if SortedByExpiry(l) {
      WithoutSorted(l.ids, l.entries, id);
      WithoutFacts(l.ids, id);
      var m := Drop(l, id);
      forall i, j | 0 <= i < j < |m.ids|
        ensures m.entries[m.ids[i]].expiresAt <= m.entries[m.ids[j]].expiresAt
      {
        assert m.ids[i] in m.ids && m.ids[j] in m.ids;
      }
    }
  }

  ghost predicate SortedIds(s: seq<Id>, entries: map<Id, Entry>) {
    && (forall y :: y in s ==> y in entries)
    && (forall i, j :: 0 <= i < j < |s| ==> entries[s[i]].expiresAt <= entries[s[j]].expiresAt)
  }

  lemma SortedTail(s: seq<Id>, entries: map<Id, Entry>)
    requires s != [] && SortedIds(s, entries)
    ensures SortedIds(s[1..], entries)
    ensures forall y :: y in s[1..] ==> entries[s[0]].expiresAt <= entries[y].expiresAt
  {
  }

  lemma SortedCons(x: Id, t: seq<Id>, entries: map<Id, Entry>)
    requires SortedIds(t, entries) && x in entries
    requires forall y :: y in t ==> entries[x].expiresAt <= entries[y].expiresAt
    ensures SortedIds([x] + t, entries)
  {
    var s := [x] + t;
    forall i, j | 0 <= i < j < |s|
      ensures entries[s[i]].expiresAt <= entries[s[j]].expiresAt
    {
      assert s[j] == t[j - 1] && s[j] in t;
      assert i > 0 ==> s[i] == t[i - 1];
    }
  }

  lemma {:induction false} WithoutSorted(s: seq<Id>, entries: map<Id, Entry>, x: Id)
    requires SortedIds(s, entries)
    ensures SortedIds(Without(s, x), entries)
  {
    if s != [] {
      SortedTail(s, entries);
      WithoutSorted(s[1..], entries, x);
      WithoutFacts(s[1..], x);
      if s[0] != x {
        SortedCons(s[0], Without(s[1..], x), entries);
      }
    }
  }

  lemma SubTransitive(a: Ledger, b: Ledger, c: Ledger)
    requires WellFormed(b) && WellFormed(c) && Sub(a, b) && Sub(b, c)
    ensures Sub(a, c)
  {
  }

  lemma {:induction false} PruneSub(l: Ledger, now: nat)
    requires WellFormed(l)
    ensures Sub(Prune(l, now), l)
    ensures forall id :: id in l.entries && l.entries[id].expiresAt > now ==> id in Prune(l, now).entries
    decreases |l.ids|
  {
    if l.ids != [] && l.entries[l.ids[0]].expiresAt <= now {
      DropHead(l);
      DropSub(l, l.ids[0]);
      PruneSub(Drop(l, l.ids[0]), now);
      SubTransitive(Prune(l, now), Drop(l, l.ids[0]), l);
    }
  }

  lemma {:induction false} EvictForSub(l: Ledger, p: Principal, perPrincipal: nat)
    requires WellFormed(l)
    ensures Sub(EvictFor(l, p, perPrincipal), l)
    ensures |Of(EvictFor(l, p, perPrincipal), p)| < Max(1, perPrincipal)
    decreases |l.ids|
  {
    if Of(l, p) != [] && |Of(l, p)| >= perPrincipal {
      var oldest := Of(l, p)[0];
      OwnedIsHeld(l.ids, l.entries, p);
      DropSub(l, oldest);
      DropWellFormed(l, oldest);
      EvictForSub(Drop(l, oldest), p, perPrincipal);
      SubTransitive(EvictFor(l, p, perPrincipal), Drop(l, oldest), l);
    }
  }

  lemma {:induction false} EvictOldestSub(l: Ledger, capacity: nat)
    requires WellFormed(l)
    ensures Sub(EvictOldest(l, capacity), l)
    ensures |EvictOldest(l, capacity).ids| < Max(1, capacity)
    decreases |l.ids|
  {
    if l.ids != [] && |l.ids| >= capacity {
      DropHead(l);
      DropSub(l, l.ids[0]);
      EvictOldestSub(Drop(l, l.ids[0]), capacity);
      SubTransitive(EvictOldest(l, capacity), Drop(l, l.ids[0]), l);
    }
  }

  lemma EvictKeeps(l: Ledger, capacity: nat, perPrincipal: nat, p: Principal, now: nat)
    requires WellFormed(l)
    ensures WellFormed(Prune(l, now))
    ensures WellFormed(EvictFor(Prune(l, now), p, perPrincipal))
    ensures Sub(EvictOldest(EvictFor(Prune(l, now), p, perPrincipal), capacity), l)
    ensures |Of(EvictOldest(EvictFor(Prune(l, now), p, perPrincipal), capacity), p)| < Max(1, perPrincipal)
    ensures |EvictOldest(EvictFor(Prune(l, now), p, perPrincipal), capacity).ids| < Max(1, capacity)
  {
    PruneSub(l, now);
    var a := Prune(l, now);
    EvictForSub(a, p, perPrincipal);
    var b := EvictFor(a, p, perPrincipal);
    EvictOldestSub(b, capacity);
    SubTransitive(b, a, l);
    SubTransitive(EvictOldest(b, capacity), b, l);
  }

  lemma AppendFacts(l: Ledger, id: Id, e: Entry)
    requires WellFormed(l) && id !in l.entries
    ensures WellFormed(Append(l, id, e))
    ensures forall q :: Of(Append(l, id, e), q) == Of(l, q) + (if e.principal == q then [id] else [])
  {
    var m := Append(l, id, e);
    assert forall x :: x in m.ids <==> x in l.ids || x == id;
    forall q
      ensures Of(m, q) == Of(l, q) + (if e.principal == q then [id] else [])
    {
      OwnedAppend(l.ids, l.entries, q, id, e);
    }
  }

  lemma CommitWellFormed(l: Ledger, capacity: nat, perPrincipal: nat, p: Principal, id: Id, now: nat, expiresAt: nat)
    requires WellFormed(l)
    ensures WellFormed(Commit(l, capacity, perPrincipal, p, id, now, expiresAt).0)
  {
    EvictKeeps(l, capacity, perPrincipal, p, now);
    if id !in Prune(l, now).entries {
      EvictForSub(Prune(l, now), p, perPrincipal);
      EvictOldestSub(EvictFor(Prune(l, now), p, perPrincipal), capacity);
      AppendFacts(EvictOldest(EvictFor(Prune(l, now), p, perPrincipal), capacity), id, Entry(p, expiresAt));
    }
  }

  /** Every step keeps the ledger well formed and within both limits. */
  lemma CommitKeeps(l: Ledger, capacity: nat, perPrincipal: nat, p: Principal, id: Id, now: nat, expiresAt: nat)
    requires WellFormed(l) && Within(l, capacity, perPrincipal)
    ensures WellFormed(Commit(l, capacity, perPrincipal, p, id, now, expiresAt).0)
    ensures Within(Commit(l, capacity, perPrincipal, p, id, now, expiresAt).0, capacity, perPrincipal)
  {
    EvictKeeps(l, capacity, perPrincipal, p, now);
    PruneSub(l, now);
    var m := EvictOldest(EvictFor(Prune(l, now), p, perPrincipal), capacity);
    if id !in Prune(l, now).entries {
      EvictForSub(Prune(l, now), p, perPrincipal);
      EvictOldestSub(EvictFor(Prune(l, now), p, perPrincipal), capacity);
      assert id !in m.entries;
      AppendFacts(m, id, Entry(p, expiresAt));
    }
  }

  /** Pruning a ledger sorted by expiry leaves exactly the unexpired ids. */
  lemma {:induction false} PruneExact(l: Ledger, now: nat)
    requires WellFormed(l) && SortedByExpiry(l)
    ensures forall id :: id in Prune(l, now).entries <==> id in l.entries && l.entries[id].expiresAt > now
    decreases |l.ids|
  {
    PruneSub(l, now);
    if l.ids != [] && l.entries[l.ids[0]].expiresAt <= now {
      DropHead(l);
      DropSub(l, l.ids[0]);
      PruneExact(Drop(l, l.ids[0]), now);
    } else {
      forall id | id in l.entries
        ensures l.entries[id].expiresAt > now
      {
        var k :| 0 <= k < |l.ids| && l.ids[k] == id;
        assert k == 0 || l.entries[l.ids[0]].expiresAt <= l.entries[l.ids[k]].expiresAt;
      }
    }
  }

  ghost predicate ExpiresBy(l: Ledger, t: nat) {
    forall id :: id in l.entries ==> l.entries[id].expiresAt <= t
  }

  /** A commit whose expiry is the latest keeps the ledger sorted by expiry. */
  lemma CommitSorted(l: Ledger, capacity: nat, perPrincipal: nat, p: Principal, id: Id, now: nat, expiresAt: nat)
    requires WellFormed(l) && SortedByExpiry(l) && ExpiresBy(l, expiresAt)
    ensures WellFormed(Commit(l, capacity, perPrincipal, p, id, now, expiresAt).0)
    ensures SortedByExpiry(Commit(l, capacity, perPrincipal, p, id, now, expiresAt).0)
    ensures ExpiresBy(Commit(l, capacity, perPrincipal, p, id, now, expiresAt).0, expiresAt)
  {
    EvictKeeps(l, capacity, perPrincipal, p, now);
    PruneSub(l, now);
    var pruned := Prune(l, now);
    if id !in pruned.entries {
      EvictForSub(pruned, p, perPrincipal);
      EvictOldestSub(EvictFor(pruned, p, perPrincipal), capacity);
      var m := EvictOldest(EvictFor(pruned, p, perPrincipal), capacity);
      assert id !in m.entries;
      AppendSorted(m, id, Entry(p, expiresAt));
    }
  }

  lemma AppendSorted(l: Ledger, id: Id, e: Entry)
    requires WellFormed(l) && SortedByExpiry(l) && id !in l.entries && ExpiresBy(l, e.expiresAt)
    ensures WellFormed(Append(l, id, e)) && SortedByExpiry(Append(l, id, e))
  {
    AppendFacts(l, id, e);
    var m := Append(l, id, e);
    forall i, j | 0 <= i < j < |m.ids|
      ensures m.entries[m.ids[i]].expiresAt <= m.entries[m.ids[j]].expiresAt
    {
      assert m.ids[i] == l.ids[i] && l.ids[i] in l.entries;
    }
  }
}
