/** On the iroh transport the bound on reuse of an authorization event holds for every acceptance. */
module IrohOnce {
  import opened Prelude
  import opened ReplayLedger
  import E = ExactlyOnce

  type Request = E.Request

  function VerifyAuth(l: Ledger, m: Limits, r: Request): (Ledger, bool)
    requires WellFormed(l)
  {
    if r.event.kind != E.BLOSSOM_KIND || E.VerifyClaims(r.event, r.bound, r.checkedAt).Some? then (l, false)
    else
      Commit(l, m.capacity, m.perPrincipal, r.event.pubkey, r.event.id, r.markedAt,
             SaturatingAdd(r.markedAt, RETENTION))
  }

  function LedgerAt(m: Limits, run: seq<Request>, n: nat): (l: Ledger)
    requires n <= |run|
    ensures WellFormed(l)
  {
    if n == 0 then Ledger([], map[])
    else
      var before, r := LedgerAt(m, run, n - 1), run[n - 1];
      CommitWellFormed(before, m.capacity, m.perPrincipal, r.event.pubkey, r.event.id, r.markedAt,
                       SaturatingAdd(r.markedAt, RETENTION));
      VerifyAuth(before, m, r).0
  }

  predicate Accepted(m: Limits, run: seq<Request>, n: nat)
    requires n < |run|
  {
    VerifyAuth(LedgerAt(m, run, n), m, run[n]).1
  }

  /** How many of the requests from..to were accepted. */
  function CountAccepted(m: Limits, run: seq<Request>, from: nat, to: nat): nat
    requires from <= to <= |run|
  {
    if from == to then 0 else CountAccepted(m, run, from, to - 1) + (if Accepted(m, run, to - 1) then 1 else 0)
  }

  /** How many of the requests from..to were accepted for one key. */
  function CountAcceptedFor(m: Limits, run: seq<Request>, from: nat, to: nat, p: Principal): nat
    requires from <= to <= |run|
  {
    if from == to then 0
    else CountAcceptedFor(m, run, from, to - 1, p) +
         (if Accepted(m, run, to - 1) && run[to - 1].event.pubkey == p then 1 else 0)
  }

  /** A request is accepted exactly when its event is a Blossom one, passes the claims and is not held unexpired. */
  lemma AcceptedIff(m: Limits, run: seq<Request>, n: nat)
    requires n < |run| && E.Representable(run[n].event, run[n].checkedAt)
    ensures Accepted(m, run, n) <==>
            && run[n].event.kind == 24242
            && E.Claims(run[n].event, run[n].bound, run[n].checkedAt)
            && run[n].event.id !in Prune(LedgerAt(m, run, n), run[n].markedAt).entries
  {
    E.ClaimsIff(run[n].event, run[n].bound, run[n].checkedAt);
  }

  // ----- following one held id -----

  /** x is held as e, with at most n younger ids, at most k of them of its principal. */
  ghost predicate Tracked(l: Ledger, x: Id, e: Entry, n: nat, k: nat) {
    && WellFormed(l) && x in l.entries && l.entries[x] == e
    && E.After(l.ids, x) <= n && E.After(Of(l, e.principal), x) <= k
  }

  lemma DropTracks(l: Ledger, x: Id, e: Entry, n: nat, k: nat, y: Id)
    requires Tracked(l, x, e, n, k) && y != x
    ensures Tracked(Drop(l, y), x, e, n, k)
  {
    DropWellFormed(l, y);
    E.AfterWithout(l.ids, x, y);
    E.AfterWithout(Of(l, e.principal), x, y);
  }

  lemma {:induction false} PruneTracks(l: Ledger, x: Id, e: Entry, n: nat, k: nat, now: nat)
    requires Tracked(l, x, e, n, k) && now < e.expiresAt
    ensures Tracked(Prune(l, now), x, e, n, k)
    decreases |l.ids|
  {
    if l.ids != [] && l.entries[l.ids[0]].expiresAt <= now {
      DropHead(l);
      DropTracks(l, x, e, n, k, l.ids[0]);
      PruneTracks(Drop(l, l.ids[0]), x, e, n, k, now);
    }
  }

  lemma {:induction false} EvictForTracks(l: Ledger, x: Id, e: Entry, n: nat, k: nat, p: Principal, perPrincipal: nat)
    requires Tracked(l, x, e, n, k)
    ensures Tracked(EvictFor(l, p, perPrincipal), x, e, n, k) || (p == e.principal && k + 1 >= perPrincipal)
    decreases |l.ids|
  {
    if Of(l, p) != [] && |Of(l, p)| >= perPrincipal {
      var oldest := Of(l, p)[0];
      OwnedIsHeld(l.ids, l.entries, p);
      assert oldest in Of(l, p);
      if oldest != x {
        DropWellFormed(l, oldest);
        DropTracks(l, x, e, n, k, oldest);
        EvictForTracks(Drop(l, oldest), x, e, n, k, p, perPrincipal);
      }
    }
  }

  lemma {:induction false} EvictOldestTracks(l: Ledger, x: Id, e: Entry, n: nat, k: nat, capacity: nat)
    requires Tracked(l, x, e, n, k)
    ensures Tracked(EvictOldest(l, capacity), x, e, n, k) || n + 1 >= capacity
    decreases |l.ids|
  {
    if l.ids != [] && |l.ids| >= capacity {
      var oldest := l.ids[0];
      DropHead(l);
      if oldest != x {
        DropTracks(l, x, e, n, k, oldest);
        EvictOldestTracks(Drop(l, oldest), x, e, n, k, capacity);
      }
    }
  }

  lemma AppendTracks(l: Ledger, x: Id, e: Entry, n: nat, k: nat, y: Id, f: Entry)
    requires Tracked(l, x, e, n, k) && y !in l.entries
    ensures Tracked(Append(l, y, f), x, e, n + 1, if f.principal == e.principal then k + 1 else k)
  {
    AppendFacts(l, y, f);
    E.AfterAppend(l.ids, x, y);
    E.ShareGrows(l, x, e, k, y, f);
  }

  /** One request against a held, unexpired id: it cannot be that id, and only full limits lose it. */
  lemma StepTracks(l: Ledger, m: Limits, r: Request, x: Id, e: Entry, n: nat, k: nat)
    requires Tracked(l, x, e, n, k) && r.markedAt < e.expiresAt
    ensures var (after, accepted) := VerifyAuth(l, m, r);
            var n' := if accepted then n + 1 else n;
            var k' := if accepted && r.event.pubkey == e.principal then k + 1 else k;
            && (r.event.id == x ==> !accepted)
            && (Tracked(after, x, e, n', k') || n' >= m.capacity || k' >= m.perPrincipal)
  {
    if VerifyAuth(l, m, r).1 {
      var p, y, f := r.event.pubkey, r.event.id, Entry(r.event.pubkey, SaturatingAdd(r.markedAt, RETENTION));
      EvictKeeps(l, m.capacity, m.perPrincipal, p, r.markedAt);
      var a := Prune(l, r.markedAt);
      PruneTracks(l, x, e, n, k, r.markedAt);
      EvictForTracks(a, x, e, n, k, p, m.perPrincipal);
      var b := EvictFor(a, p, m.perPrincipal);
      if Tracked(b, x, e, n, k) {
        EvictForSub(a, p, m.perPrincipal);
        EvictOldestSub(b, m.capacity);
        EvictOldestTracks(b, x, e, n, k, m.capacity);
        if Tracked(EvictOldest(b, m.capacity), x, e, n, k) {
          AppendTracks(EvictOldest(b, m.capacity), x, e, n, k, y, f);
        }
      }
    } else if E.VerifyClaims(r.event, r.bound, r.checkedAt).None? && r.event.kind == E.BLOSSOM_KIND {
      PruneTracks(l, x, e, n, k, r.markedAt);
    }
  }

  // ----- whole runs -----

  ghost predicate HeldOrUsedUp(m: Limits, run: seq<Request>, i: nat, j: nat)
    requires i < j <= |run|
  {
    var e := Entry(run[i].event.pubkey, SaturatingAdd(run[i].markedAt, RETENTION));
    var n, k := CountAccepted(m, run, i + 1, j), CountAcceptedFor(m, run, i + 1, j, e.principal);
    Tracked(LedgerAt(m, run, j), run[i].event.id, e, n, k) || n >= m.capacity || k >= m.perPrincipal
  }

  /** Whatever happened to it before, an accepted event is the youngest held. */
  lemma Acceptance(l: Ledger, m: Limits, r: Request)
    requires WellFormed(l) && VerifyAuth(l, m, r).1
    ensures Tracked(VerifyAuth(l, m, r).0, r.event.id,
                    Entry(r.event.pubkey, SaturatingAdd(r.markedAt, RETENTION)), 0, 0)
  {
    var p, x, e := r.event.pubkey, r.event.id, Entry(r.event.pubkey, SaturatingAdd(r.markedAt, RETENTION));
    EvictKeeps(l, m.capacity, m.perPrincipal, p, r.markedAt);
    var room := EvictOldest(EvictFor(Prune(l, r.markedAt), p, m.perPrincipal), m.capacity);
    EvictForSub(Prune(l, r.markedAt), p, m.perPrincipal);
    EvictOldestSub(EvictFor(Prune(l, r.markedAt), p, m.perPrincipal), m.capacity);
    AppendFacts(room, x, e);
    E.LastIsOnce(room.ids, x);
    OwnedAppend(room.ids, room.entries, p, x, e);
    OwnedIsHeld(room.ids, room.entries, p);
    E.LastIsOnce(Of(room, p), x);
  }

  lemma FollowStart(m: Limits, run: seq<Request>, i: nat, j: nat)
    requires i < |run| && j == i + 1 && Accepted(m, run, i)
    ensures HeldOrUsedUp(m, run, i, j)
  {
    Acceptance(LedgerAt(m, run, i), m, run[i]);
  }

  lemma FollowStep(m: Limits, run: seq<Request>, i: nat, j: nat)
    requires i + 1 < j <= |run| && run[j - 1].markedAt < SaturatingAdd(run[i].markedAt, RETENTION)
    requires HeldOrUsedUp(m, run, i, j - 1)
    ensures HeldOrUsedUp(m, run, i, j)
  {
    var e := Entry(run[i].event.pubkey, SaturatingAdd(run[i].markedAt, RETENTION));
    var n, k := CountAccepted(m, run, i + 1, j - 1), CountAcceptedFor(m, run, i + 1, j - 1, e.principal);
    if Tracked(LedgerAt(m, run, j - 1), run[i].event.id, e, n, k) {
      StepTracks(LedgerAt(m, run, j - 1), m, run[j - 1], run[i].event.id, e, n, k);
    }
  }

  /** From an acceptance on, an unexpired id stays held until one of the limits is used up. */
  lemma {:induction false} Follow(m: Limits, run: seq<Request>, i: nat, j: nat)
    requires i < j <= |run| && Accepted(m, run, i)
    requires forall l :: i < l < j ==> run[l].markedAt < SaturatingAdd(run[i].markedAt, RETENTION)
    ensures HeldOrUsedUp(m, run, i, j)
    decreases j, 1
  {
    if j == i + 1 {
      FollowStart(m, run, i, j);
    } else {
      FollowOn(m, run, i, j);
    }
  }

  lemma {:induction false} FollowOn(m: Limits, run: seq<Request>, i: nat, j: nat)
    requires i + 1 < j <= |run| && Accepted(m, run, i)
    requires forall l :: i < l < j ==> run[l].markedAt < SaturatingAdd(run[i].markedAt, RETENTION)
    ensures HeldOrUsedUp(m, run, i, j)
    decreases j, 0
  {
    Follow(m, run, i, j - 1);
    FollowStep(m, run, i, j);
  }

  /**
   After any acceptance an event is accepted again only after perPrincipal later events of its key,
   or capacity later events overall, were accepted in between.
   */
  lemma AcceptedOnce(m: Limits, run: seq<Request>, i: nat, k: nat)
    requires i < k < |run| && E.WellTimed(run, i, k)
    requires Accepted(m, run, i) && Accepted(m, run, k) && run[k].event == run[i].event
    ensures CountAcceptedFor(m, run, i + 1, k, run[i].event.pubkey) >= m.perPrincipal
            || CountAccepted(m, run, i + 1, k) >= m.capacity
  {
    E.ClaimsWindow(run[i].event, run[i].bound, run[k].bound, run[i].checkedAt, run[k].checkedAt);
    assert run[k].markedAt < SaturatingAdd(run[i].markedAt, RETENTION);
    Follow(m, run, i, k);
    var e := Entry(run[i].event.pubkey, SaturatingAdd(run[i].markedAt, RETENTION));
    var n, held := CountAccepted(m, run, i + 1, k), CountAcceptedFor(m, run, i + 1, k, e.principal);
    if Tracked(LedgerAt(m, run, k), run[i].event.id, e, n, held) {
      StepTracks(LedgerAt(m, run, k), m, run[k], run[i].event.id, e, n, held);
    }
  }
}
