/** The HTTP and iroh replay caches over whole runs. */
module ReplayEquivalence {
  import opened Prelude
  import L = ReplayLedger
  import H = HttpReplay
  import O = ReplayOrder

  datatype Attempt = Attempt(principal: L.Principal, id: L.Id, now: nat)

  type Limits = L.Limits

  function HttpStep(c: H.Cache, m: Limits, a: Attempt): (H.Cache, bool) {
    H.CheckAndInsert(c, m.capacity, m.perPrincipal, a.principal, a.id, a.now, SaturatingAdd(a.now, L.RETENTION))
  }

  function IrohStep(l: L.Ledger, m: Limits, a: Attempt): (L.Ledger, bool)
    requires L.WellFormed(l)
  {
    L.Commit(l, m.capacity, m.perPrincipal, a.principal, a.id, a.now, SaturatingAdd(a.now, L.RETENTION))
  }

  /** The HTTP cache after the first n attempts. */
  function HttpAt(m: Limits, run: seq<Attempt>, n: nat): H.Cache
    requires n <= |run|
  {
    if n == 0 then H.EMPTY else HttpStep(HttpAt(m, run, n - 1), m, run[n - 1]).0
  }

  /** The iroh cache after the first n attempts. */
  function IrohAt(m: Limits, run: seq<Attempt>, n: nat): (l: L.Ledger)
    requires n <= |run|
    ensures L.WellFormed(l) && L.Within(l, m.capacity, m.perPrincipal)
  {
    if n == 0 then L.Ledger([], map[])
    else
      var before, a := IrohAt(m, run, n - 1), run[n - 1];
      L.CommitKeeps(before, m.capacity, m.perPrincipal, a.principal, a.id, a.now, SaturatingAdd(a.now, L.RETENTION));
      IrohStep(before, m, a).0
  }

  predicate HttpAccepts(m: Limits, run: seq<Attempt>, n: nat)
    requires n < |run|
  {
    HttpStep(HttpAt(m, run, n), m, run[n]).1
  }

  predicate IrohAccepts(m: Limits, run: seq<Attempt>, n: nat)
    requires n < |run|
  {
    IrohStep(IrohAt(m, run, n), m, run[n]).1
  }

  /** In every reachable state the HTTP cache meets its representation invariant and both limits. */
  lemma {:induction false} HttpRunInvariant(m: Limits, run: seq<Attempt>, n: nat)
    requires n <= |run|
    ensures H.Inv(HttpAt(m, run, n))
    ensures L.Within(H.View(HttpAt(m, run, n)), m.capacity, m.perPrincipal)
  {
    if n == 0 {
      H.EmptyInv();
    } else {
      var a := run[n - 1];
      HttpRunInvariant(m, run, n - 1);
      H.CheckAndInsertKeeps(HttpAt(m, run, n - 1), m.capacity, m.perPrincipal, a.principal, a.id, a.now,
                            SaturatingAdd(a.now, L.RETENTION));
    }
  }

  // ----- exactly when the two caches agree -----

  /** At this time the two caches would answer every attempt alike. */
  ghost predicate Alike(c: H.Cache, l: L.Ledger, m: Limits, now: nat)
    requires L.WellFormed(l)
  {
    forall p, id :: Alike1(c, l, m, Attempt(p, id, now))
  }

  ghost predicate Alike1(c: H.Cache, l: L.Ledger, m: Limits, a: Attempt)
    requires L.WellFormed(l)
  {
    HttpStep(c, m, a).1 == IrohStep(l, m, a).1
  }

  lemma AnswersAre(c: H.Cache, l: L.Ledger, m: Limits, a: Attempt)
    requires L.WellFormed(l)
    ensures HttpStep(c, m, a).1 == (a.id !in H.Prune(c, a.now).entries)
    ensures IrohStep(l, m, a).1 == (a.id !in L.Prune(l, a.now).entries)
  {
  }

  lemma AlikeIff(c: H.Cache, m: Limits, now: nat)
    requires H.Inv(c)
    ensures Alike(c, H.View(c), m, now) <==> O.PruneInOrder(c, now)
  {
    var l := H.View(c);
    O.PruneIff(c, now);
    if O.PruneInOrder(c, now) {
      forall p, id
        ensures Alike1(c, l, m, Attempt(p, id, now))
      {
        AnswersAre(c, l, m, Attempt(p, id, now));
      }
    } else if Alike(c, l, m, now) {
      forall id: L.Id
        ensures id in H.Prune(c, now).entries <==> id in L.Prune(l, now).entries
      {
        assert Alike1(c, l, m, Attempt("", id, now));
        AnswersAre(c, l, m, Attempt("", id, now));
      }
      SameHeldSamePruned(c, now);
      assert false;
    }
  }

  lemma SameHeldSamePruned(c: H.Cache, now: nat)
    requires H.Inv(c)
    requires forall id: L.Id :: id in H.Prune(c, now).entries <==> id in L.Prune(H.View(c), now).entries
    ensures O.PruneInOrder(c, now)
  {
    var l := H.View(c);
    var a, b := O.Expired(O.Firsts(c.order, c.entries.Keys), c.entries, now), O.Expired(l.ids, c.entries, now);
    O.HttpPrunes(c, now);
    O.LedgerPrunes(l, now);
    O.ExpiredHeld(O.Firsts(c.order, c.entries.Keys), c.entries, now);
    O.ExpiredHeld(l.ids, c.entries, now);
    assert forall id :: id in l.entries - a <==> id in l.entries - b;
    assert forall id :: id in a <==> id in b;
  }

  /** The attempt finds the queue in order: for pruning, and for evicting if it is accepted. */
  predicate InOrder(c: H.Cache, m: Limits, a: Attempt) {
    && O.PruneInOrder(c, a.now)
    && (HttpStep(c, m, a).1 ==> O.EvictInOrder(H.EvictFor(H.Prune(c, a.now), a.principal, m.perPrincipal), m.capacity))
  }

  lemma SameAppended(k: L.Ledger, l: L.Ledger, id: L.Id, e: L.Entry)
    requires id !in k.entries && id !in l.entries
    ensures L.Append(k, id, e) == L.Append(l, id, e) <==> k == l
  {
    if L.Append(k, id, e) == L.Append(l, id, e) {
      assert k.ids == (k.ids + [id])[..|k.ids|] && l.ids == (l.ids + [id])[..|l.ids|];
      assert |k.ids + [id]| == |l.ids + [id]|;
      assert k.entries == k.entries[id := e] - {id} && l.entries == l.entries[id := e] - {id};
    }
  }

  /** With pruning in order, an accepted attempt leaves the same entries exactly when eviction is in order too. */
  lemma AcceptedIff(c: H.Cache, m: Limits, a: Attempt)
    requires H.Inv(c) && L.Within(H.View(c), m.capacity, m.perPrincipal)
    requires O.PruneInOrder(c, a.now) && HttpStep(c, m, a).1
    ensures IrohStep(H.View(c), m, a).1
    ensures H.View(HttpStep(c, m, a).0) == IrohStep(H.View(c), m, a).0
            <==> O.EvictInOrder(H.EvictFor(H.Prune(c, a.now), a.principal, m.perPrincipal), m.capacity)
  {
    var pruned := H.Prune(c, a.now);
    var room := H.EvictFor(pruned, a.principal, m.perPrincipal);
    var e := L.Entry(a.principal, SaturatingAdd(a.now, L.RETENTION));
    O.PruneIff(c, a.now);
    H.PruneInv(c, a.now);
    H.EvictForRefines(pruned, a.principal, m.perPrincipal);
    L.SizeOfEntries(H.View(room));
    O.EvictIff(room, m.capacity);
    H.EvictOldestInv(room, m.capacity);
    L.EvictOldestSub(H.View(room), m.capacity);
    H.InsertRefines(H.EvictOldest(room, m.capacity), a.id, e);
    SameAppended(H.View(H.EvictOldest(room, m.capacity)), L.EvictOldest(H.View(room), m.capacity), a.id, e);
  }

  /** A step: answers alike and entries the same afterwards, exactly when the queue is in order. */
  lemma StepIff(c: H.Cache, m: Limits, a: Attempt)
    requires H.Inv(c) && L.Within(H.View(c), m.capacity, m.perPrincipal)
    ensures Alike(c, H.View(c), m, a.now) && H.View(HttpStep(c, m, a).0) == IrohStep(H.View(c), m, a).0
            <==> InOrder(c, m, a)
  {
    AlikeIff(c, m, a.now);
    if O.PruneInOrder(c, a.now) {
      if HttpStep(c, m, a).1 {
        AcceptedIff(c, m, a);
      } else {
        O.PruneIff(c, a.now);
      }
    }
  }

  /**
   Caches that would have answered differently may hold the same again after an attempt: what pruning left
   in one of them goes with the share of the principal. Holding the same is thus not yet agreeing.
   */
  lemma MayMeetAgain(c: H.Cache, m: Limits, a: Attempt, y: L.Id)
    requires H.Inv(c) && |c.entries| <= m.capacity && m.perPrincipal == 1 && a.id !in c.entries
    requires L.Of(H.View(H.Prune(c, a.now)), a.principal) == [y] && y in H.Prune(c, a.now).entries
    requires L.Prune(H.View(c), a.now) == L.Drop(H.View(H.Prune(c, a.now)), y)
    ensures !O.PruneInOrder(c, a.now) && H.View(HttpStep(c, m, a).0) == IrohStep(H.View(c), m, a).0
  {
    var pruned, e := H.Prune(c, a.now), L.Entry(a.principal, SaturatingAdd(a.now, L.RETENTION));
    var l := H.View(pruned);
    O.PruneIff(c, a.now);
    H.PruneInv(c, a.now);
    assert y in l.entries && y !in L.Drop(l, y).entries;
    L.SizeOfEntries(H.View(c));
    L.SizeOfEntries(l);
    ShareDrops(l, a.principal, y);
    H.EvictForRefines(pruned, a.principal, m.perPrincipal);
    H.InsertRefines(H.EvictFor(pruned, a.principal, m.perPrincipal), a.id, e);
  }

  lemma ShareDrops(l: L.Ledger, p: L.Principal, y: L.Id)
    requires L.WellFormed(l) && L.Of(l, p) == [y] && y in l.entries
    ensures L.EvictFor(l, p, 1) == L.Drop(l, y) && |L.Drop(l, y).ids| < |l.ids|
    ensures L.WellFormed(L.Drop(l, y)) && L.EvictFor(L.Drop(l, y), p, 1) == L.Drop(l, y)
    ensures |L.Drop(l, y).entries| == |L.Drop(l, y).ids|
  {
    L.DropWellFormed(l, y);
    assert L.Without([y], y) == [];
    L.SizeOfEntries(L.Drop(l, y));
  }

  ghost predicate StandsAt(m: Limits, run: seq<Attempt>, n: nat)
    requires n <= |run|
  {
    H.View(HttpAt(m, run, n)) == IrohAt(m, run, n)
  }

  ghost predicate AlikeAt(m: Limits, run: seq<Attempt>, n: nat)
    requires n < |run|
  {
    Alike(HttpAt(m, run, n), IrohAt(m, run, n), m, run[n].now)
  }

  predicate InOrderAt(m: Limits, run: seq<Attempt>, n: nat)
    requires n < |run|
  {
    InOrder(HttpAt(m, run, n), m, run[n])
  }

  /**
   The caches agree on a run: before each attempt they would answer every attempt alike, and they
   always hold the same entries in the same order.
   */
  ghost predicate Agree(m: Limits, run: seq<Attempt>) {
    && (forall n {:trigger StandsAt(m, run, n)} :: 0 <= n <= |run| ==> StandsAt(m, run, n))
    && (forall n {:trigger AlikeAt(m, run, n)} :: 0 <= n < |run| ==> AlikeAt(m, run, n))
  }

  lemma StepAgreesIff(m: Limits, run: seq<Attempt>, n: nat)
    requires n < |run| && StandsAt(m, run, n)
    ensures AlikeAt(m, run, n) && StandsAt(m, run, n + 1) <==> InOrderAt(m, run, n)
  {
    HttpRunInvariant(m, run, n);
    StepIff(HttpAt(m, run, n), m, run[n]);
  }

  lemma StartStands(m: Limits, run: seq<Attempt>)
    ensures StandsAt(m, run, 0)
  {
    H.EmptyInv();
  }

  lemma InOrderStands(m: Limits, run: seq<Attempt>, n: nat)
    requires n <= |run| && forall i {:trigger InOrderAt(m, run, i)} :: 0 <= i < n ==> InOrderAt(m, run, i)
    ensures StandsAt(m, run, n)
  {
    StartStands(m, run);
    for i := 0 to n
      invariant StandsAt(m, run, i)
    {
      assert InOrderAt(m, run, i);
      StepAgreesIff(m, run, i);
    }
  }

  /** The two caches agree on a run if and only if every attempt of it finds the HTTP queue in order. */
  lemma CachesAgreeIff(m: Limits, run: seq<Attempt>)
    ensures Agree(m, run) <==> forall n {:trigger InOrderAt(m, run, n)} :: 0 <= n < |run| ==> InOrderAt(m, run, n)
  {
    if Agree(m, run) {
      forall n | 0 <= n < |run|
        ensures InOrderAt(m, run, n)
      {
        assert StandsAt(m, run, n) && StandsAt(m, run, n + 1) && AlikeAt(m, run, n);
        StepAgreesIff(m, run, n);
      }
    }
    if forall n {:trigger InOrderAt(m, run, n)} :: 0 <= n < |run| ==> InOrderAt(m, run, n) {
      forall n | 0 <= n <= |run|
        ensures StandsAt(m, run, n)
      {
        InOrderStands(m, run, n);
      }
      forall n | 0 <= n < |run|
        ensures AlikeAt(m, run, n)
      {
        assert InOrderAt(m, run, n);
        StepAgreesIff(m, run, n);
      }
    }
  }

  // ----- a run without requeued ids is in order -----

  /** No id is accepted while an older copy of it, evicted for its principal's share, is still queued. */
  ghost predicate NeverRequeued(m: Limits, run: seq<Attempt>) {
    forall n {:trigger QueuedAt(m, run, n)} :: 0 <= n < |run| && HttpAccepts(m, run, n) ==> !QueuedAt(m, run, n)
  }

  predicate QueuedAt(m: Limits, run: seq<Attempt>, n: nat)
    requires n < |run|
  {
    run[n].id in H.Prune(HttpAt(m, run, n), run[n].now).order
  }

  ghost predicate QueuedOnce(m: Limits, run: seq<Attempt>, n: nat)
    requires n <= |run|
  {
    H.Inv(HttpAt(m, run, n)) && NoDup(HttpAt(m, run, n).order)
  }

  lemma StepQueuesOnce(m: Limits, run: seq<Attempt>, n: nat)
    requires n < |run| && NeverRequeued(m, run) && QueuedOnce(m, run, n)
    ensures QueuedOnce(m, run, n + 1) && InOrderAt(m, run, n)
  {
    var c, a := HttpAt(m, run, n), run[n];
    assert HttpAccepts(m, run, n) ==> !QueuedAt(m, run, n);
    H.CheckAndInsertRefines(c, m.capacity, m.perPrincipal, a.principal, a.id, a.now, SaturatingAdd(a.now, L.RETENTION));
    H.PruneRefines(c, a.now);
    O.PruneIff(c, a.now);
    var pruned := H.Prune(c, a.now);
    H.PruneInv(c, a.now);
    H.EvictForQueue(pruned, a.principal, m.perPrincipal);
    H.EvictForRefines(pruned, a.principal, m.perPrincipal);
    O.OnceInOrder(H.EvictFor(pruned, a.principal, m.perPrincipal), m.capacity);
  }

  lemma StartQueuesOnce(m: Limits, run: seq<Attempt>)
    ensures QueuedOnce(m, run, 0)
  {
    H.EmptyInv();
  }

  lemma RunQueuesOnce(m: Limits, run: seq<Attempt>, n: nat)
    requires n <= |run| && NeverRequeued(m, run)
    ensures QueuedOnce(m, run, n)
  {
    StartQueuesOnce(m, run);
    for i := 0 to n
      invariant QueuedOnce(m, run, i)
    {
      StepQueuesOnce(m, run, i);
    }
  }

  /** In particular the caches agree when no queued id is accepted again. */
  lemma CachesAgree(m: Limits, run: seq<Attempt>)
    requires NeverRequeued(m, run)
    ensures Agree(m, run)
  {
    forall n | 0 <= n < |run|
      ensures InOrderAt(m, run, n)
    {
      RunQueuesOnce(m, run, n);
      StepQueuesOnce(m, run, n);
    }
    CachesAgreeIff(m, run);
  }

  // ----- ids that are never accepted twice are never requeued -----

  ghost predicate NeverAcceptedTwice(m: Limits, run: seq<Attempt>) {
    forall i, j :: 0 <= i < j < |run| && HttpAccepts(m, run, i) && HttpAccepts(m, run, j) ==> run[i].id != run[j].id
  }

  ghost predicate AcceptedBefore(m: Limits, run: seq<Attempt>, n: nat, x: L.Id)
    requires n <= |run|
  {
    exists i :: 0 <= i < n && HttpAccepts(m, run, i) && run[i].id == x
  }

  lemma {:induction false} QueuedWasAccepted(m: Limits, run: seq<Attempt>, n: nat, x: L.Id)
    requires n <= |run| && x in HttpAt(m, run, n).order
    ensures AcceptedBefore(m, run, n, x)
  {
    var a := run[n - 1];
    H.QueueGrowsBy(HttpAt(m, run, n - 1), m.capacity, m.perPrincipal, a.principal, a.id, a.now,
                   SaturatingAdd(a.now, L.RETENTION));
    if x in HttpAt(m, run, n - 1).order {
      QueuedWasAccepted(m, run, n - 1, x);
    } else {
      assert HttpAccepts(m, run, n - 1) && a.id == x;
    }
  }

  lemma AcceptedOnceIsNeverRequeued(m: Limits, run: seq<Attempt>)
    requires NeverAcceptedTwice(m, run)
    ensures NeverRequeued(m, run)
  {
    forall n | 0 <= n < |run| && HttpAccepts(m, run, n)
      ensures !QueuedAt(m, run, n)
    {
      if QueuedAt(m, run, n) {
        H.PruneQueue(HttpAt(m, run, n), run[n].now);
        QueuedWasAccepted(m, run, n, run[n].id);
        assert false;
      }
    }
  }

  // ----- iroh: exact answers under a clock that does not go back -----

  ghost predicate Nondecreasing(run: seq<Attempt>) {
    forall i, j :: 0 <= i < j < |run| ==> run[i].now <= run[j].now
  }

  lemma {:induction false} IrohSorted(m: Limits, run: seq<Attempt>, n: nat)
    requires n <= |run| && Nondecreasing(run)
    ensures L.SortedByExpiry(IrohAt(m, run, n))
    ensures n > 0 ==> L.ExpiresBy(IrohAt(m, run, n), SaturatingAdd(run[n - 1].now, L.RETENTION))
  {
    if n > 0 {
      IrohSorted(m, run, n - 1);
      var a := run[n - 1];
      L.CommitSorted(IrohAt(m, run, n - 1), m.capacity, m.perPrincipal, a.principal, a.id, a.now,
                     SaturatingAdd(a.now, L.RETENTION));
    }
  }

  /** An attempt is refused exactly when its id is held and unexpired, and no expired entry outlives it. */
  lemma IrohExact(m: Limits, run: seq<Attempt>, n: nat)
    requires n < |run| && Nondecreasing(run) && run[n].now < U64_MAX
    ensures var l := IrohAt(m, run, n);
            IrohAccepts(m, run, n) <==> !(run[n].id in l.entries && l.entries[run[n].id].expiresAt > run[n].now)
    ensures var l' := IrohAt(m, run, n + 1);
            forall id :: id in l'.entries ==> l'.entries[id].expiresAt > run[n].now
  {
    var l, a := IrohAt(m, run, n), run[n];
    IrohSorted(m, run, n);
    L.PruneExact(l, a.now);
    L.PruneSub(l, a.now);
    var pruned := L.Prune(l, a.now);
    L.EvictForSub(pruned, a.principal, m.perPrincipal);
    L.EvictOldestSub(L.EvictFor(pruned, a.principal, m.perPrincipal), m.capacity);
  }
}
