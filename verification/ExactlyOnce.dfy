/** Authorization events are honoured once: the claims' time window against the replay cache's retention. */
module ExactlyOnce {
  import opened Prelude
  import opened ReplayLedger
  import H = HttpReplay

  datatype AuthError = WrongKind | FutureDated | Expired | MissingTag | DuplicateTag | MalformedTag | NotBound | Replay

  /** An authorization event: `expirations` are its expiration tags, each parsed as a number if well formed. */
  datatype Event = Event(id: Id, pubkey: Principal, kind: nat, createdAt: nat, expirations: seq<Option<nat>>)

  const BLOSSOM_KIND: nat := 24242
  const NIP98_KIND: nat := 27235

  // ----- claims -----

  function CheckWindow(e: Event, now: nat): Option<AuthError> {
    if e.createdAt > SaturatingAdd(now, 30) then Some(FutureDated)
    else if SaturatingSub(now, e.createdAt) > 60 then Some(Expired)
    else None
  }

  function CheckExpiration(e: Event, now: nat): Option<AuthError> {
    if |e.expirations| == 0 then Some(MissingTag)
    else if |e.expirations| > 1 then Some(DuplicateTag)
    else
      match e.expirations[0]
      case None => Some(MalformedTag)
      case Some(exp) => if now > exp || exp > SaturatingAdd(e.createdAt, 120) then Some(Expired) else None
  }

  /** `bound` says whether action, server, resource, method, hash, id and signature all match. */
  function VerifyClaims(e: Event, bound: bool, now: nat): Option<AuthError> {
    if e.kind != BLOSSOM_KIND && e.kind != NIP98_KIND then Some(WrongKind)
    else if CheckWindow(e, now).Some? then CheckWindow(e, now)
    else if e.kind == BLOSSOM_KIND && CheckExpiration(e, now).Some? then CheckExpiration(e, now)
    else if !bound then Some(NotBound)
    else None
  }

  // ----- runs -----

  /** One request: the clock is read once for the claims and once more for the cache. */
  datatype Request = Request(event: Event, bound: bool, checkedAt: nat, markedAt: nat)

  function VerifyAuthEvent(c: H.Cache, m: Limits, r: Request): (H.Cache, Option<AuthError>) {
    var refused := VerifyClaims(r.event, r.bound, r.checkedAt);
    if refused.Some? then (c, refused)
    else
      var (d, unseen) := H.CheckAndInsert(c, m.capacity, m.perPrincipal, r.event.pubkey, r.event.id,
                                         r.markedAt, SaturatingAdd(r.markedAt, RETENTION));
      (d, if unseen then None else Some(Replay))
  }

  function StateAt(m: Limits, run: seq<Request>, n: nat): H.Cache
    requires n <= |run|
  {
    if n == 0 then H.EMPTY else VerifyAuthEvent(StateAt(m, run, n - 1), m, run[n - 1]).0
  }

  predicate Accepted(m: Limits, run: seq<Request>, n: nat)
    requires n < |run|
  {
    VerifyAuthEvent(StateAt(m, run, n), m, run[n]).1.None?
  }

  /** How many of the requests from..to were accepted. */
  function CountAccepted(m: Limits, run: seq<Request>, from: nat, to: nat): nat
    requires from <= to <= |run|
  {
    if from == to then 0 else CountAccepted(m, run, from, to - 1) + (if Accepted(m, run, to - 1) then 1 else 0)
  }

  /** How many of the requests from..to were accepted for one key. */
  function CountAcceptedFor(m: Limits, run: seq<Request>, from: nat, to: nat, p: Principal): nat
    requires from <= to <= |run|
  {
    if from == to then 0
    else CountAcceptedFor(m, run, from, to - 1, p) +
         (if Accepted(m, run, to - 1) && run[to - 1].event.pubkey == p then 1 else 0)
  }

  // ----- which requests are accepted -----

  /** Times and expiration are 64-bit numbers. */
  ghost predicate Representable(e: Event, now: nat) {
    && e.createdAt <= U64_MAX && now <= U64_MAX
    && forall i :: 0 <= i < |e.expirations| && e.expirations[i].Some? ==> e.expirations[i].value <= U64_MAX
  }

  /** One well-formed expiration, not yet reached and at most two minutes after the event. */
  ghost predicate Unexpired(e: Event, now: nat) {
    && |e.expirations| == 1 && e.expirations[0].Some?
    && now <= e.expirations[0].value <= e.createdAt + 120
  }

  /** What a claim asks for: at most 30 s from the future, at most 60 s old, unexpired if it can expire, and bound. */
  ghost predicate Claims(e: Event, bound: bool, now: nat) {
    && bound && e.createdAt <= now + 30 && now <= e.createdAt + 60
    && (e.kind == 27235 || (e.kind == 24242 && Unexpired(e, now)))
  }

  lemma ClaimsIff(e: Event, bound: bool, now: nat)
    requires Representable(e, now)
    ensures VerifyClaims(e, bound, now).None? <==> Claims(e, bound, now)
  {
  }

  /** Each refusal names the first thing that is wrong. */
  lemma ClaimsRefused(e: Event, bound: bool, now: nat)
    requires Representable(e, now)
    ensures var known := e.kind == 24242 || e.kind == 27235;
            var timely := known && e.createdAt <= now + 30 && now <= e.createdAt + 60;
            var expiring, n := e.kind == 24242, |e.expirations|;
            var refused := VerifyClaims(e, bound, now);
            && (refused == Some(WrongKind) <==> !known)
            && (refused == Some(FutureDated) <==> known && e.createdAt > now + 30)
            && (refused == Some(MissingTag) <==> timely && expiring && n == 0)
            && (refused == Some(DuplicateTag) <==> timely && expiring && n > 1)
            && (refused == Some(MalformedTag) <==> timely && expiring && n == 1 && e.expirations[0].None?)
            && (refused == Some(NotBound) <==> timely && (expiring ==> Unexpired(e, now)) && !bound)
            && refused != Some(Replay)
  {
  }

  /** A request is accepted exactly when its event passes the claims and is not held unexpired. */
  lemma AcceptedIff(m: Limits, run: seq<Request>, n: nat)
    requires n < |run| && Representable(run[n].event, run[n].checkedAt)
    ensures Accepted(m, run, n) <==>
            && Claims(run[n].event, run[n].bound, run[n].checkedAt)
            && run[n].event.id !in H.Prune(StateAt(m, run, n), run[n].markedAt).entries
  {
    ClaimsIff(run[n].event, run[n].bound, run[n].checkedAt);
  }

  /**
   The cache sees a clock that does not go back; request i is marked after its claims check, and request k
   within 30 s of its own.
   */
  ghost predicate WellTimed(run: seq<Request>, i: nat, k: nat)
    requires i < k < |run|
  {
    && run[i].checkedAt <= run[i].markedAt && run[k].markedAt < run[k].checkedAt + 30
    && (forall j :: 0 <= j < |run| ==> run[j].markedAt < U64_MAX)
    && (forall j, l :: 0 <= j < l < |run| ==> run[j].markedAt <= run[l].markedAt)
  }

  // ----- following one held id -----

  /** How many elements follow the first occurrence of x. */
  function After(s: seq<Id>, x: Id): nat {
    if s == [] then 0 else if s[0] == x then |s| - 1 else After(s[1..], x)
  }

  ghost predicate Once(s: seq<Id>, x: Id) {
    if s == [] then false else if s[0] == x then x !in s[1..] else Once(s[1..], x)
  }

  /** x is held as e; at most n ids were queued after it, at most k of them in its principal's list. */
  ghost predicate Tracked(c: H.Cache, x: Id, e: Entry, n: nat, k: nat) {
    && H.Inv(c)
    && x in c.entries && c.entries[x] == e
    && Once(c.order, x) && After(c.order, x) <= n
    && After(Of(H.View(c), e.principal), x) <= k
  }

  lemma {:induction false} AfterWithout(s: seq<Id>, x: Id, y: Id)
    requires x != y
    ensures After(Without(s, y), x) <= After(s, x)
  {
    if s != [] {
      AfterWithout(s[1..], x, y);
      WithoutFacts(s[1..], y);
    }
  }

  lemma {:induction false} AfterAppend(s: seq<Id>, x: Id, y: Id)
    requires x in s && x != y
    ensures After(s + [y], x) == After(s, x) + 1
    ensures Once(s, x) ==> Once(s + [y], x)
  {
    assert (s + [y])[1..] == s[1..] + [y];
    if s[0] != x {
      AfterAppend(s[1..], x, y);
    }
  }

  lemma {:induction false} OnceIn(s: seq<Id>, x: Id)
    requires Once(s, x)
    ensures x in s
  {
    if s[0] != x {
      OnceIn(s[1..], x);
    }
  }

  /** Dropping another id, with or without its place at the head of the queue, keeps x tracked. */
  lemma DropOther(c: H.Cache, d: H.Cache, x: Id, e: Entry, n: nat, k: nat, y: Id)
    requires Tracked(c, x, e, n, k) && y != x
    requires H.Inv(d) && H.View(d) == Drop(H.View(c), y)
    requires d.order == c.order || (c.order != [] && c.order[0] == y && d.order == c.order[1..])
    ensures Tracked(d, x, e, n, k)
  {
    DropWellFormed(H.View(c), y);
    assert d.entries == H.View(d).entries == c.entries - {y};
    AfterWithout(Of(H.View(c), e.principal), x, y);
  }

  lemma {:induction false} PruneTracks(c: H.Cache, x: Id, e: Entry, n: nat, k: nat, now: nat)
    requires Tracked(c, x, e, n, k) && now < e.expiresAt
    ensures Tracked(H.Prune(c, now), x, e, n, k)
    decreases |c.order|
  {
    if c.order != [] {
      var y := c.order[0];
      if y !in c.entries {
        H.PopStale(c);
        PruneTracks(H.PopFront(c), x, e, n, k, now);
      } else if c.entries[y].expiresAt <= now {
        H.PopRefines(c);
        DropOther(c, H.Remove(H.PopFront(c), y), x, e, n, k, y);
        PruneTracks(H.Remove(H.PopFront(c), y), x, e, n, k, now);
      }
    }
  }

  /** Only a full share of the same principal evicts x here. */
  lemma {:induction false} EvictForTracks(c: H.Cache, x: Id, e: Entry, n: nat, k: nat, p: Principal, perPrincipal: nat)
    requires Tracked(c, x, e, n, k)
    ensures Tracked(H.EvictFor(c, p, perPrincipal), x, e, n, k) || (p == e.principal && k + 1 >= perPrincipal)
    decreases H.Share(c, p)
  {
    if p in c.byPrincipal && |c.byPrincipal[p]| >= perPrincipal {
      H.PopOldestRefines(c, p);
      H.PopShrinks(c, p);
      var y := Of(H.View(c), p)[0];
      OwnedIsHeld(H.View(c).ids, c.entries, p);
      assert y in Of(H.View(c), p);
      if y != x {
        DropOther(c, H.PopOldestOf(c, p), x, e, n, k, y);
        EvictForTracks(H.PopOldestOf(c, p), x, e, n, k, p, perPrincipal);
      }
    }
  }

  /** Only a full cache evicts x here, and then every id held besides x was queued after it. */
  lemma {:induction false} EvictOldestTracks(c: H.Cache, x: Id, e: Entry, n: nat, k: nat, capacity: nat)
    requires Tracked(c, x, e, n, k)
    ensures Tracked(H.EvictOldest(c, capacity), x, e, n, k) || n + 1 >= capacity
    decreases |c.order|
  {
    if |c.entries| >= capacity && c.order != [] {
      var y := c.order[0];
      if y == x {
        SizeOfEntries(H.View(c));
        H.LiveFacts(c.order, c.entries.Keys);
      } else {
        H.PopRefines(c);
        DropOther(c, H.Remove(H.PopFront(c), y), x, e, n, k, y);
        EvictOldestTracks(H.Remove(H.PopFront(c), y), x, e, n, k, capacity);
      }
    }
  }

  lemma InsertTracks(c: H.Cache, x: Id, e: Entry, n: nat, k: nat, y: Id, f: Entry)
    requires Tracked(c, x, e, n, k) && y !in c.entries
    ensures Tracked(H.Insert(c, y, f), x, e, n + 1, if f.principal == e.principal then k + 1 else k)
  {
    H.InsertRefines(c, y, f);
    OnceIn(c.order, x);
    AfterAppend(c.order, x, y);
    ShareGrows(H.View(c), x, e, k, y, f);
  }

  lemma ShareGrows(l: Ledger, x: Id, e: Entry, k: nat, y: Id, f: Entry)
    requires WellFormed(l) && x in l.entries && l.entries[x] == e && y !in l.entries
    requires After(Of(l, e.principal), x) <= k
    ensures After(Of(Append(l, y, f), e.principal), x) <= if f.principal == e.principal then k + 1 else k
  {
    OwnedAppend(l.ids, l.entries, e.principal, y, f);
    OwnedIsHeld(l.ids, l.entries, e.principal);
    if f.principal == e.principal {
      AfterAppend(Of(l, e.principal), x, y);
    } else {
      assert Of(l, e.principal) + [] == Of(l, e.principal);
    }
  }

  /** One request against a held, unexpired id: it cannot be that id, and only full limits lose it. */
  lemma StepTracks(c: H.Cache, m: Limits, r: Request, x: Id, e: Entry, n: nat, k: nat)
    requires Tracked(c, x, e, n, k) && r.markedAt < e.expiresAt
    ensures var (d, refused) := VerifyAuthEvent(c, m, r);
            var n' := if refused.None? then n + 1 else n;
            var k' := if refused.None? && r.event.pubkey == e.principal then k + 1 else k;
            && (r.event.id == x ==> refused.Some?)
            && (Tracked(d, x, e, n', k') || n' >= m.capacity || k' >= m.perPrincipal)
  {
    if VerifyClaims(r.event, r.bound, r.checkedAt).None? {
      var p, y := r.event.pubkey, r.event.id;
      PruneTracks(c, x, e, n, k, r.markedAt);
      var a := H.Prune(c, r.markedAt);
      if y !in a.entries {
        EvictForTracks(a, x, e, n, k, p, m.perPrincipal);
        H.EvictForRefines(a, p, m.perPrincipal);
        var b := H.EvictFor(a, p, m.perPrincipal);
        if Tracked(b, x, e, n, k) {
          EvictOldestTracks(b, x, e, n, k, m.capacity);
          H.EvictOldestInv(b, m.capacity);
          var d := H.EvictOldest(b, m.capacity);
          if Tracked(d, x, e, n, k) {
            assert y !in H.View(b).entries && y !in H.View(d).entries;
            InsertTracks(d, x, e, n, k, y, Entry(p, SaturatingAdd(r.markedAt, RETENTION)));
          }
        }
      }
    }
  }

  // ----- whole runs -----

  ghost predicate AcceptedBefore(m: Limits, run: seq<Request>, n: nat, x: Id)
    requires n <= |run|
  {
    exists i :: 0 <= i < n && Accepted(m, run, i) && run[i].event.id == x
  }

  lemma {:induction false} RunInvariant(m: Limits, run: seq<Request>, n: nat)
    requires n <= |run|
    ensures H.Inv(StateAt(m, run, n)) && Within(H.View(StateAt(m, run, n)), m.capacity, m.perPrincipal)
    ensures var queue := StateAt(m, run, n).order; forall x :: x in queue ==> AcceptedBefore(m, run, n, x)
  {
    if n > 0 {
      RunInvariant(m, run, n - 1);
      var c, r := StateAt(m, run, n - 1), run[n - 1];
      H.CheckAndInsertKeeps(c, m.capacity, m.perPrincipal, r.event.pubkey, r.event.id, r.markedAt,
                            SaturatingAdd(r.markedAt, RETENTION));
      H.QueueGrowsBy(c, m.capacity, m.perPrincipal, r.event.pubkey, r.event.id, r.markedAt,
                     SaturatingAdd(r.markedAt, RETENTION));
      var queue := StateAt(m, run, n).order;
      forall x | x in queue
        ensures AcceptedBefore(m, run, n, x)
      {
        if x in c.order {
          assert AcceptedBefore(m, run, n - 1, x);
        } else {
          assert Accepted(m, run, n - 1) && run[n - 1].event.id == x;
        }
      }
    }
  }

  /** The queue holds no copy of the event's id from an earlier acceptance. */
  predicate Unqueued(m: Limits, run: seq<Request>, i: nat)
    requires i < |run|
  {
    run[i].event.id !in H.Prune(StateAt(m, run, i), run[i].markedAt).order
  }

  /** So it is at the event's first acceptance. */
  lemma FirstIsUnqueued(m: Limits, run: seq<Request>, i: nat)
    requires i < |run| && !AcceptedBefore(m, run, i, run[i].event.id)
    ensures Unqueued(m, run, i)
  {
    RunInvariant(m, run, i);
    H.PruneQueue(StateAt(m, run, i), run[i].markedAt);
  }

  /** Right after such an acceptance an event is the youngest held, queued once. */
  lemma UnqueuedAcceptance(m: Limits, run: seq<Request>, i: nat)
    requires i < |run| && Accepted(m, run, i) && Unqueued(m, run, i)
    ensures Tracked(StateAt(m, run, i + 1), run[i].event.id,
                    Entry(run[i].event.pubkey, SaturatingAdd(run[i].markedAt, RETENTION)), 0, 0)
  {
    RunInvariant(m, run, i);
    RunInvariant(m, run, i + 1);
    var c, r := StateAt(m, run, i), run[i];
    var x, p := r.event.id, r.event.pubkey;
    var a := H.Prune(c, r.markedAt);
    H.PruneInv(c, r.markedAt);
    H.EvictForRefines(a, p, m.perPrincipal);
    H.EvictForQueue(a, p, m.perPrincipal);
    var b := H.EvictFor(a, p, m.perPrincipal);
    H.EvictOldestInv(b, m.capacity);
    H.EvictOldestQueue(b, m.capacity);
    var d := H.EvictOldest(b, m.capacity);
    var e := Entry(p, SaturatingAdd(r.markedAt, RETENTION));
    assert x !in H.View(b).entries && x !in H.View(d).entries;
    H.InsertRefines(d, x, e);
    AppendFacts(H.View(d), x, e);
    LastIsOnce(d.order, x);
    OwnedIsHeld(H.View(d).ids, d.entries, p);
    LastIsOnce(Of(H.View(d), p), x);
  }

  lemma {:induction false} LastIsOnce(s: seq<Id>, x: Id)
    requires x !in s
    ensures Once(s + [x], x) && After(s + [x], x) == 0
  {
    if s != [] {
      assert (s + [x])[1..] == s[1..] + [x];
      LastIsOnce(s[1..], x);
    }
  }

  /** After j requests the event accepted at i is still held, or one of the limits was used up since. */
  ghost predicate HeldOrUsedUp(m: Limits, run: seq<Request>, i: nat, j: nat)
    requires i < j <= |run|
  {
    var e := Entry(run[i].event.pubkey, SaturatingAdd(run[i].markedAt, RETENTION));
    var n, k := CountAccepted(m, run, i + 1, j), CountAcceptedFor(m, run, i + 1, j, e.principal);
    Tracked(StateAt(m, run, j), run[i].event.id, e, n, k) || n >= m.capacity || k >= m.perPrincipal
  }

  lemma FollowStart(m: Limits, run: seq<Request>, i: nat, j: nat)
    requires i < |run| && j == i + 1 && Accepted(m, run, i) && Unqueued(m, run, i)
    ensures HeldOrUsedUp(m, run, i, j)
  {
    UnqueuedAcceptance(m, run, i);
  }

  lemma FollowStep(m: Limits, run: seq<Request>, i: nat, j: nat)
    requires i + 1 < j <= |run| && run[j - 1].markedAt < SaturatingAdd(run[i].markedAt, RETENTION)
    requires HeldOrUsedUp(m, run, i, j - 1)
    ensures HeldOrUsedUp(m, run, i, j)
  {
    var e := Entry(run[i].event.pubkey, SaturatingAdd(run[i].markedAt, RETENTION));
    var n, k := CountAccepted(m, run, i + 1, j - 1), CountAcceptedFor(m, run, i + 1, j - 1, e.principal);
    if Tracked(StateAt(m, run, j - 1), run[i].event.id, e, n, k) {
      StepTracks(StateAt(m, run, j - 1), m, run[j - 1], run[i].event.id, e, n, k);
    }
  }

  /** An unexpired id that is held stays so until one of the limits is used up. */
  lemma {:induction false} Follow(m: Limits, run: seq<Request>, i: nat, f: nat, j: nat)
    requires i < f <= j <= |run| && HeldOrUsedUp(m, run, i, f)
    requires forall l :: f <= l < j ==> run[l].markedAt < SaturatingAdd(run[i].markedAt, RETENTION)
    ensures HeldOrUsedUp(m, run, i, j)
    decreases j
  {
    if f < j {
      Follow(m, run, i, f, j - 1);
      FollowStep(m, run, i, j);
    }
  }

  lemma StaysHeld(m: Limits, run: seq<Request>, i: nat, f: nat, j: nat)
    requires i + 1 == f <= j <= |run| && Accepted(m, run, i) && Unqueued(m, run, i)
    requires forall l :: f <= l < j ==> run[l].markedAt < SaturatingAdd(run[i].markedAt, RETENTION)
    ensures HeldOrUsedUp(m, run, i, j)
  {
    FollowStart(m, run, i, f);
    Follow(m, run, i, f, j);
  }

  lemma UsedUp(m: Limits, run: seq<Request>, i: nat, k: nat)
    requires i < k < |run| && HeldOrUsedUp(m, run, i, k) && Accepted(m, run, k) && run[k].event == run[i].event
    requires run[k].markedAt < SaturatingAdd(run[i].markedAt, RETENTION)
    ensures CountAcceptedFor(m, run, i + 1, k, run[i].event.pubkey) >= m.perPrincipal
            || CountAccepted(m, run, i + 1, k) >= m.capacity
  {
    var e := Entry(run[i].event.pubkey, SaturatingAdd(run[i].markedAt, RETENTION));
    var n, held := CountAccepted(m, run, i + 1, k), CountAcceptedFor(m, run, i + 1, k, e.principal);
    if Tracked(StateAt(m, run, k), run[i].event.id, e, n, held) {
      StepTracks(StateAt(m, run, k), m, run[k], run[i].event.id, e, n, held);
    }
  }

  /** An event that passes the claims check again does so within 90 s of its first acceptance. */
  lemma ClaimsWindow(e: Event, bound: bool, bound': bool, t: nat, t': nat)
    requires VerifyClaims(e, bound, t).None? && VerifyClaims(e, bound', t').None?
    ensures t' <= t + 90
  {
  }

  /**
   An event accepted while no older copy of its id is queued, as at its first acceptance, is accepted again
   only after perPrincipal later events of its key, or capacity later events overall, were accepted in between.
   */
  lemma AcceptedOnce(m: Limits, run: seq<Request>, i: nat, k: nat)
    requires i < k < |run| && WellTimed(run, i, k)
    requires Accepted(m, run, i) && Unqueued(m, run, i)
    requires Accepted(m, run, k) && run[k].event == run[i].event
    ensures CountAcceptedFor(m, run, i + 1, k, run[i].event.pubkey) >= m.perPrincipal
            || CountAccepted(m, run, i + 1, k) >= m.capacity
  {
    ClaimsWindow(run[i].event, run[i].bound, run[k].bound, run[i].checkedAt, run[k].checkedAt);
    assert run[k].markedAt < SaturatingAdd(run[i].markedAt, RETENTION);
    StaysHeld(m, run, i, i + 1, k);
    UsedUp(m, run, i, k);
  }

  /** Two uses of one event: at the start of its window, and at the end of it but marked 30 s later. */
  function LateRun(e: Event): seq<Request>
    requires e.createdAt >= 30
  {
    [Request(e, true, e.createdAt - 30, e.createdAt - 30), Request(e, true, e.createdAt + 60, e.createdAt + 90)]
  }

  lemma UsedOnce(m: Limits, r: Request)
    requires VerifyClaims(r.event, r.bound, r.checkedAt).None?
    ensures VerifyAuthEvent(H.EMPTY, m, r).1.None?
    ensures var c := VerifyAuthEvent(H.EMPTY, m, r).0;
            c.order == [r.event.id]
            && c.entries == map[r.event.id := Entry(r.event.pubkey, SaturatingAdd(r.markedAt, RETENTION))]
  {
  }

  lemma UsedAgain(c: H.Cache, m: Limits, r: Request, e: Entry)
    requires VerifyClaims(r.event, r.bound, r.checkedAt).None?
    requires c.order == [r.event.id] && c.entries == map[r.event.id := e] && e.expiresAt <= r.markedAt
    ensures VerifyAuthEvent(c, m, r).1.None?
  {
    var d := H.Remove(H.PopFront(c), r.event.id);
    assert H.PopFront(c).order == [] && d.order == [] && d.entries == map[];
    assert H.Prune(c, r.markedAt) == d;
  }

  /** The 30 s cannot be made longer: marked exactly 30 s after its check, the event is accepted twice in a row. */
  lemma GapIsTight(m: Limits, e: Event)
    requires 30 <= e.createdAt && e.createdAt + 210 <= U64_MAX
    requires e.kind == NIP98_KIND || (e.kind == BLOSSOM_KIND && e.expirations == [Some(e.createdAt + 120)])
    ensures var run := LateRun(e);
            && Accepted(m, run, 0) && Accepted(m, run, 1) && CountAccepted(m, run, 1, 1) == 0
            && run[1].markedAt == run[1].checkedAt + 30 && run[0].markedAt == run[0].checkedAt
  {
    var run := LateRun(e);
    UsedOnce(m, run[0]);
    assert StateAt(m, run, 0) == H.EMPTY;
    assert StateAt(m, run, 1) == VerifyAuthEvent(H.EMPTY, m, run[0]).0;
    UsedAgain(StateAt(m, run, 1), m, run[1], Entry(e.pubkey, e.createdAt + 90));
  }
}
