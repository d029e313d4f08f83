/**
 Why the bound on reuse does not hold for every acceptance on the HTTP server: an event accepted while an older
 copy of its id is queued loses its new entry when that copy is popped, and can be used again too soon.
 */
module ThirdUse {
  import opened Prelude
  import opened ReplayLedger
  import H = HttpReplay
  import E = ReplayEquivalence
  import D = ReplayDivergence
  import X = ExactlyOnce

  // ----- requests that pass their claims are attempts -----

  function AsRequest(a: E.Attempt): X.Request {
    X.Request(X.Event(a.id, a.principal, X.NIP98_KIND, 0, []), true, a.now, a.now)
  }

  /** The requests carry the attempts, each in time. */
  ghost predicate Carry(rs: seq<X.Request>, run: seq<E.Attempt>) {
    |rs| == |run| && forall i :: 0 <= i < |run| ==> CarryAt(rs, run, i)
  }

  ghost predicate CarryAt(rs: seq<X.Request>, run: seq<E.Attempt>, i: nat)
    requires i < |rs| && i < |run|
  {
    run[i].now <= 60 && rs[i] == AsRequest(run[i])
  }

  lemma SameStep(c: H.Cache, m: Limits, a: E.Attempt)
    requires a.now <= 60
    ensures X.VerifyAuthEvent(c, m, AsRequest(a)).0 == E.HttpStep(c, m, a).0
    ensures X.VerifyAuthEvent(c, m, AsRequest(a)).1.None? <==> E.HttpStep(c, m, a).1
  {
  }

  lemma {:induction false} SameState(m: Limits, run: seq<E.Attempt>, rs: seq<X.Request>, n: nat)
    requires Carry(rs, run) && n <= |run|
    ensures X.StateAt(m, rs, n) == E.HttpAt(m, run, n)
  {
    if n > 0 {
      SameState(m, run, rs, n - 1);
      assert CarryAt(rs, run, n - 1);
      SameNext(m, run, rs, n);
    }
  }

  lemma SameNext(m: Limits, run: seq<E.Attempt>, rs: seq<X.Request>, n: nat)
    requires 0 < n <= |run| == |rs| && CarryAt(rs, run, n - 1)
    requires X.StateAt(m, rs, n - 1) == E.HttpAt(m, run, n - 1)
    ensures X.StateAt(m, rs, n) == E.HttpAt(m, run, n)
  {
    SameStep(E.HttpAt(m, run, n - 1), m, run[n - 1]);
  }

  lemma SameAnswer(m: Limits, run: seq<E.Attempt>, rs: seq<X.Request>, n: nat)
    requires Carry(rs, run) && n < |run|
    ensures X.Accepted(m, rs, n) <==> E.HttpAccepts(m, run, n)
  {
    SameState(m, run, rs, n);
    assert CarryAt(rs, run, n);
    SameStep(E.HttpAt(m, run, n), m, run[n]);
  }

  // ----- a full cache pops the front of its queue -----

  ghost predicate FrontLive(c: H.Cache, now: nat) {
    c.order != [] && c.order[0] in c.entries && c.entries[c.order[0]].expiresAt > now
  }

  lemma NothingPruned(c: H.Cache, now: nat)
    requires FrontLive(c, now)
    ensures H.Prune(c, now) == c
  {
  }

  lemma {:induction false} OwnsNone(ids: seq<Id>, entries: map<Id, Entry>, p: Principal)
    requires forall id :: id in entries ==> entries[id].principal != p
    ensures Owned(ids, entries, p) == []
  {
    if ids != [] {
      OwnsNone(ids[1..], entries, p);
    }
  }

  lemma NoShare(c: H.Cache, p: Principal)
    requires H.Inv(c) && forall id :: id in c.entries ==> c.entries[id].principal != p
    ensures H.Share(c, p) == 0
  {
    OwnsNone(H.View(c).ids, c.entries, p);
    assert H.ExactFor(c.byPrincipal, H.View(c), p);
  }

  lemma PopsFront(c: H.Cache, m: Limits, a: E.Attempt, x: Id, rest: seq<Id>, d: H.Cache)
    requires H.Inv(c) && FrontLive(c, a.now) && c.order == [x] + rest
    requires |c.entries| == m.capacity > 0 && a.id !in c.entries && H.Share(c, a.principal) < m.perPrincipal
    requires d == H.Insert(H.Remove(H.PopFront(c), x), a.id, D.EntryOf(a))
    ensures E.HttpStep(c, m, a) == (d, true) && H.Inv(d)
    ensures d.order == rest + [a.id] && d.entries == (c.entries - {x})[a.id := D.EntryOf(a)]
  {
    assert H.PopFront(c).order == rest;
    var room := H.Remove(H.PopFront(c), x);
    H.PopRefines(c);
    assert room.entries.Keys == c.entries.Keys - {x};
    D.HasRoom(room, m.capacity);
    NothingPruned(c, a.now);
    assert H.EvictOldest(c, m.capacity) == room;
    H.InsertRefines(room, a.id, D.EntryOf(a));
  }

  // ----- newcomers push the queue along -----

  /** Attempts for as many new ids by as many new keys. */
  ghost predicate Strangers(zs: seq<E.Attempt>) {
    forall i, j :: 0 <= i < j < |zs| ==> zs[i].id != zs[j].id && zs[i].principal != zs[j].principal
  }

  /** Of n live entries those of the ids in front are next to be popped; nothing of the newcomers is held. */
  ghost predicate Waiting(k: H.Cache, front: seq<Id>, n: nat, zs: seq<E.Attempt>) {
    |k.entries| == n && InFront(k, front) && AllUnknown(k, zs)
  }

  ghost predicate InFront(k: H.Cache, front: seq<Id>) {
    && front <= k.order && NoDup(front) && (forall id :: id in front ==> id in k.entries)
    && (forall id :: id in k.entries ==> k.entries[id].expiresAt > 1)
  }

  ghost predicate AllUnknown(k: H.Cache, zs: seq<E.Attempt>) {
    forall i :: 0 <= i < |zs| ==> Unknown(k, zs[i])
  }

  ghost predicate Unknown(k: H.Cache, a: E.Attempt) {
    a.now == 1 && a.id !in k.entries && forall id :: id in k.entries ==> k.entries[id].principal != a.principal
  }

  /** Every entry of l is a's or was in k. */
  ghost predicate AddsOnly(k: H.Cache, l: H.Cache, a: E.Attempt) {
    forall id :: id in l.entries ==>
      if id == a.id then l.entries[id] == D.EntryOf(a) else id in k.entries && l.entries[id] == k.entries[id]
  }

  lemma StayUnknown(k: H.Cache, l: H.Cache, zs: seq<E.Attempt>)
    requires zs != [] && Strangers(zs) && AllUnknown(k, zs)
    requires AddsOnly(k, l, zs[0])
    ensures AllUnknown(l, zs[1..])
  {
    forall i | 0 <= i < |zs[1..]|
      ensures Unknown(l, zs[1..][i])
    {
      assert Unknown(k, zs[i + 1]);
      StaysUnknown(k, l, zs[0], zs[i + 1]);
    }
  }

  lemma StaysUnknown(k: H.Cache, l: H.Cache, a: E.Attempt, b: E.Attempt)
    requires Unknown(k, b) && b.id != a.id && b.principal != a.principal
    requires AddsOnly(k, l, a)
    ensures Unknown(l, b)
  {
  }

  /** While there is room a newcomer is added. */
  lemma Joins(k: H.Cache, m: Limits, front: seq<Id>, n: nat, zs: seq<E.Attempt>, l: H.Cache)
    requires H.Inv(k) && Waiting(k, front, n, zs) && Strangers(zs) && zs != [] && front != []
    requires n < m.capacity && m.perPrincipal > 0 && l == H.Insert(k, zs[0].id, D.EntryOf(zs[0]))
    ensures E.HttpStep(k, m, zs[0]) == (l, true) && H.Inv(l) && Waiting(l, front, n + 1, zs[1..])
  {
    var a := zs[0];
    assert Unknown(k, a);
    NoShare(k, a.principal);
    D.StepsWithinShare(m, k, a, l);
    JoinsInFront(k, front, a, l);
    StayUnknown(k, l, zs);
  }

  lemma JoinsInFront(k: H.Cache, front: seq<Id>, a: E.Attempt, l: H.Cache)
    requires InFront(k, front) && a.id !in k.entries && a.now == 1
    requires l.order == k.order + [a.id] && l.entries == k.entries[a.id := D.EntryOf(a)]
    ensures InFront(l, front) && |l.entries| == |k.entries| + 1
  {
    assert l.entries.Keys == k.entries.Keys + {a.id};
  }

  /** A newcomer to a full cache drops whatever the front of the queue names. */
  lemma Pushes(k: H.Cache, m: Limits, front: seq<Id>, zs: seq<E.Attempt>, l: H.Cache)
    requires H.Inv(k) && Waiting(k, front, m.capacity, zs) && Strangers(zs) && zs != [] && front != []
    requires m.perPrincipal > 0
    requires l == H.Insert(H.Remove(H.PopFront(k), front[0]), zs[0].id, D.EntryOf(zs[0]))
    ensures E.HttpStep(k, m, zs[0]) == (l, true) && H.Inv(l)
    ensures Waiting(l, front[1..], m.capacity, zs[1..]) && front[0] !in l.entries
  {
    var a := zs[0];
    assert Unknown(k, a);
    NoShare(k, a.principal);
    assert front[0] in k.entries;
    PopsFront(k, m, a, front[0], k.order[1..], l);
    PushesInFront(k, front, a, l);
    StayUnknown(k, l, zs);
  }

  lemma PushesInFront(k: H.Cache, front: seq<Id>, a: E.Attempt, l: H.Cache)
    requires InFront(k, front) && front != [] && a.id !in k.entries && a.now == 1
    requires l.order == k.order[1..] + [a.id] && l.entries == (k.entries - {front[0]})[a.id := D.EntryOf(a)]
    ensures InFront(l, front[1..]) && |l.entries| == |k.entries| && front[0] !in l.entries
  {
    var x := front[0];
    assert x in k.entries;
    assert l.entries.Keys == k.entries.Keys - {x} + {a.id};
    assert forall id :: id in front[1..] ==> id in front && id != x;
  }

  // ----- the run -----

  /** The newcomers come at time 1, and are none of the ids and keys of the run before. */
  ghost predicate Newcomers(w: D.World, zs: seq<E.Attempt>) {
    && Strangers(zs)
    && forall i :: 0 <= i < |zs| ==>
         && zs[i].now == 1 && zs[i].id !in {w.c, w.x, w.d} && zs[i].principal !in {w.q, w.p, w.r}
  }

  lemma OnlyThree(m: Limits, w: D.World, k: H.Cache, id: Id)
    requires D.Cast(w, m) && |w.ys| == 1 && H.Inv(k) && D.Requeued(k, w) && id in k.entries
    ensures id in {w.c, w.x, w.d}
  {
    if id !in k.order {
      D.Unheld(k, id);
    }
    assert w.ys == [w.ys[0]];
    assert id != w.ys[0];
  }

  lemma StartsWaiting(m: Limits, w: D.World, k: H.Cache, zs: seq<E.Attempt>)
    requires D.Cast(w, m) && D.Requeued(k, w) && Newcomers(w, zs)
    requires forall id :: id in k.entries ==> id in {w.c, w.x, w.d}
    ensures Waiting(k, [w.c, w.x, w.d], 3, zs)
  {
    D.Distinct(w, m);
    assert k.entries.Keys == {w.c, w.x, w.d};
    assert [w.c, w.x] + ([w.d] + w.ys + [w.x]) == [w.c, w.x, w.d] + (w.ys + [w.x]);
    forall i | 0 <= i < |zs|
      ensures Unknown(k, zs[i])
    {
    }
  }

  /** The states of the HTTP cache along some attempts, all accepted. */
  ghost predicate Taken(m: Limits, ks: seq<H.Cache>, zs: seq<E.Attempt>) {
    |ks| == |zs| + 1 && forall j {:trigger TakenAt(m, ks, zs, j)} :: 0 <= j < |zs| ==> TakenAt(m, ks, zs, j)
  }

  ghost predicate TakenAt(m: Limits, ks: seq<H.Cache>, zs: seq<E.Attempt>, j: nat)
    requires j < |zs| < |ks|
  {
    E.HttpStep(ks[j], m, zs[j]) == (ks[j + 1], true)
  }

  lemma TakenOn(m: Limits, ks: seq<H.Cache>, zs: seq<E.Attempt>, j: nat, l: H.Cache)
    requires j < |zs| && Taken(m, ks, zs[..j]) && E.HttpStep(ks[j], m, zs[j]) == (l, true)
    ensures Taken(m, ks + [l], zs[..j + 1])
  {
    var more, uses := ks + [l], zs[..j + 1];
    forall i | 0 <= i < |uses|
      ensures TakenAt(m, more, uses, i)
    {
      if i < j {
        assert TakenAt(m, ks, zs[..j], i);
      }
    }
  }

  lemma {:induction false} JoinAll(m: Limits, k: H.Cache, zs: seq<E.Attempt>, front: seq<Id>, n: nat, j: nat)
    returns (ks: seq<H.Cache>)
    requires H.Inv(k) && Waiting(k, front, n, zs) && Strangers(zs) && front != [] && m.perPrincipal > 0
    requires j <= |zs| && n + j <= m.capacity
    ensures Taken(m, ks, zs[..j]) && ks[0] == k && H.Inv(ks[j]) && Waiting(ks[j], front, n + j, zs[j..])
  {
    if j == 0 {
      ks := [k];
      assert zs[0..] == zs;
    } else {
      var before := JoinAll(m, k, zs, front, n, j - 1);
      var l := H.Insert(before[j - 1], zs[j - 1].id, D.EntryOf(zs[j - 1]));
      assert zs[j - 1..][1..] == zs[j..];
      Joins(before[j - 1], m, front, n + j - 1, zs[j - 1..], l);
      TakenOn(m, before, zs, j - 1, l);
      ks := before + [l];
    }
  }

  lemma PushOne(m: Limits, before: seq<H.Cache>, zs: seq<E.Attempt>, front: seq<Id>, j: nat)
    returns (ks: seq<H.Cache>)
    requires j < |zs| && Taken(m, before, zs[..j]) && Strangers(zs) && front != [] && m.perPrincipal > 0
    requires H.Inv(before[j]) && Waiting(before[j], front, m.capacity, zs[j..])
    ensures Taken(m, ks, zs[..j + 1]) && ks[0] == before[0] && H.Inv(ks[j + 1])
    ensures Waiting(ks[j + 1], front[1..], m.capacity, zs[j + 1..]) && front[0] !in ks[j + 1].entries
  {
    var l := H.Insert(H.Remove(H.PopFront(before[j]), front[0]), zs[j].id, D.EntryOf(zs[j]));
    assert zs[j..][1..] == zs[j + 1..];
    Pushes(before[j], m, front, zs[j..], l);
    TakenOn(m, before, zs, j, l);
    ks := before + [l];
  }

  lemma Newcome(m: Limits, k: H.Cache, zs: seq<E.Attempt>, c: Id, x: Id, d: Id) returns (ks: seq<H.Cache>)
    requires H.Inv(k) && Waiting(k, [c, x, d], 3, zs) && Strangers(zs) && m.perPrincipal > 0
    requires |zs| + 1 == m.capacity && m.capacity > 3
    ensures Taken(m, ks, zs) && ks[0] == k && x !in ks[|zs|].entries && FrontLive(ks[|zs|], 1)
  {
    var j := |zs| - 2;
    var joined := JoinAll(m, k, zs, [c, x, d], 3, j);
    var pushed := PushOne(m, joined, zs, [c, x, d], j);
    assert [c, x, d][1..] == [x, d] && [x, d][1..] == [d];
    ks := PushOne(m, pushed, zs, [x, d], j + 1);
    assert zs[..j + 2] == zs;
    assert [d][0] == d;
  }

  /** zs is what is attempted from index `at` of the run on. */
  ghost predicate Continues(run: seq<E.Attempt>, at: nat, zs: seq<E.Attempt>) {
    at + |zs| <= |run| && forall i :: 0 <= i < |zs| ==> zs[i] == run[at + i]
  }

  lemma {:induction false} TakenStates(m: Limits, run: seq<E.Attempt>, at: nat, ks: seq<H.Cache>,
                                       zs: seq<E.Attempt>, n: nat)
    requires Continues(run, at, zs) && Taken(m, ks, zs) && ks[0] == E.HttpAt(m, run, at) && at <= n <= at + |zs|
    ensures E.HttpAt(m, run, n) == ks[n - at]
  {
    if n > at {
      TakenStates(m, run, at, ks, zs, n - 1);
      TakenStep(m, run, at, ks, zs, n);
      D.NextState(m, run, n, ks[n - 1 - at], ks[n - at]);
    }
  }

  lemma TakenStep(m: Limits, run: seq<E.Attempt>, at: nat, ks: seq<H.Cache>, zs: seq<E.Attempt>, n: nat)
    requires Continues(run, at, zs) && Taken(m, ks, zs) && at < n <= at + |zs|
    ensures E.HttpStep(ks[n - 1 - at], m, run[n - 1]).0 == ks[n - at]
  {
    assert TakenAt(m, ks, zs, n - 1 - at);
    assert zs[n - 1 - at] == run[at + (n - 1 - at)];
  }

  lemma AcceptsUnheld(m: Limits, run: seq<E.Attempt>, n: nat, k: H.Cache)
    requires n < |run| && E.HttpAt(m, run, n) == k && run[n].id !in k.entries && FrontLive(k, run[n].now)
    ensures E.HttpAccepts(m, run, n)
  {
    NothingPruned(k, run[n].now);
  }

  lemma SecondUse(m: Limits, w: D.World, run: seq<E.Attempt>, i: nat)
    requires D.Cast(w, m) && |w.ys| == 1 && D.Run(w) <= run && i + 1 == |D.Run(w)|
    ensures E.HttpAccepts(m, run, i) && H.Inv(E.HttpAt(m, run, i + 1)) && D.Requeued(E.HttpAt(m, run, i + 1), w)
  {
    var cs := D.TraceOfRun(m, w);
    D.TraceStates(m, cs, D.Run(w), run, i);
    D.TraceStates(m, cs, D.Run(w), run, i + 1);
    assert D.StepAt(m, cs, D.Run(w), i);
  }

  lemma FromRequeued(m: Limits, w: D.World, k: H.Cache, zs: seq<E.Attempt>) returns (ks: seq<H.Cache>)
    requires D.Cast(w, m) && |w.ys| == 1 && Newcomers(w, zs) && |zs| + 1 == m.capacity
    requires H.Inv(k) && D.Requeued(k, w)
    ensures Taken(m, ks, zs) && ks[0] == k && w.x !in ks[|zs|].entries && FrontLive(ks[|zs|], 1)
  {
    forall id | id in k.entries
      ensures id in {w.c, w.x, w.d}
    {
      OnlyThree(m, w, k, id);
    }
    StartsWaiting(m, w, k, zs);
    ks := Newcome(m, k, zs, w.c, w.x, w.d);
  }

  lemma ThirdTime(m: Limits, w: D.World, zs: seq<E.Attempt>, run: seq<E.Attempt>, at: nat, k: nat)
    requires D.Cast(w, m) && |w.ys| == 1 && Newcomers(w, zs) && |zs| + 1 == m.capacity
    requires Continues(run, at, zs) && k == at + |zs| < |run| && run[k] == D.Use(w.p, w.x, 1)
    requires H.Inv(E.HttpAt(m, run, at)) && D.Requeued(E.HttpAt(m, run, at), w)
    ensures E.HttpAccepts(m, run, k)
  {
    var ks := FromRequeued(m, w, E.HttpAt(m, run, at), zs);
    TakenStates(m, run, at, ks, zs, k);
    AcceptsUnheld(m, run, k, ks[|zs|]);
  }

  lemma {:induction false} CountAtMost(m: Limits, rs: seq<X.Request>, from: nat, to: nat)
    requires from <= to <= |rs|
    ensures X.CountAccepted(m, rs, from, to) <= to - from
  {
    if from < to {
      CountAtMost(m, rs, from, to - 1);
    }
  }

  lemma {:induction false} CountNone(m: Limits, rs: seq<X.Request>, from: nat, to: nat, p: Principal)
    requires from <= to <= |rs| && forall j :: from <= j < to ==> rs[j].event.pubkey != p
    ensures X.CountAcceptedFor(m, rs, from, to, p) == 0
  {
    if from < to {
      CountNone(m, rs, from, to - 1, p);
    }
  }

  ghost predicate IsRun(m: Limits, w: D.World, zs: seq<E.Attempt>, run: seq<E.Attempt>, i: nat, k: nat) {
    && D.Cast(w, m) && |w.ys| == 1 && Newcomers(w, zs) && |zs| + 1 == m.capacity
    && run == D.Run(w) + zs + [D.Use(w.p, w.x, 1)] && i + 1 == |D.Run(w)| && k == i + 1 + |zs|
  }

  lemma RunParts(m: Limits, w: D.World, zs: seq<E.Attempt>, run: seq<E.Attempt>, i: nat, k: nat)
    requires IsRun(m, w, zs, run, i, k)
    ensures k + 1 == |run| && D.Run(w) <= run && Continues(run, i + 1, zs)
    ensures run[i] == run[k] == D.Use(w.p, w.x, 1)
    ensures forall j :: 0 <= j < i ==> run[j].now == 0
    ensures forall j :: i < j < k ==> run[j].now == 1 && run[j].principal != w.p
  {
    assert D.Uses(w, 1) == D.FirstUses(w) + [D.Use(w.p, w.ys[0], 0)];
    assert forall j :: i < j < k ==> run[j] == zs[j - i - 1];
  }

  lemma BothAccepted(m: Limits, w: D.World, zs: seq<E.Attempt>, run: seq<E.Attempt>, i: nat, k: nat)
    requires IsRun(m, w, zs, run, i, k)
    ensures k < |run| && E.HttpAccepts(m, run, i) && E.HttpAccepts(m, run, k)
  {
    RunParts(m, w, zs, run, i, k);
    SecondUse(m, w, run, i);
    ThirdTime(m, w, zs, run, i + 1, k);
  }

  lemma InTime(m: Limits, w: D.World, zs: seq<E.Attempt>, run: seq<E.Attempt>, rs: seq<X.Request>, i: nat, k: nat)
    requires IsRun(m, w, zs, run, i, k) && Carry(rs, run)
    ensures i < k < |rs| && X.WellTimed(rs, i, k) && rs[i].event == rs[k].event && rs[i].event.pubkey == w.p
    ensures forall j :: i + 1 <= j < k ==> rs[j].event.pubkey != w.p
  {
    RunParts(m, w, zs, run, i, k);
    forall j | 0 <= j < |rs|
      ensures rs[j] == AsRequest(run[j])
    {
      assert CarryAt(rs, run, j);
    }
  }

  lemma FewBetween(m: Limits, rs: seq<X.Request>, p: Principal, i: nat, k: nat)
    requires i < k <= |rs| && k - (i + 1) < m.capacity && m.perPrincipal > 0
    requires forall j :: i + 1 <= j < k ==> rs[j].event.pubkey != p
    ensures X.CountAccepted(m, rs, i + 1, k) < m.capacity
    ensures X.CountAcceptedFor(m, rs, i + 1, k, p) < m.perPrincipal
  {
    CountAtMost(m, rs, i + 1, k);
    CountNone(m, rs, i + 1, k, p);
  }

  /**
   With a share of one and a capacity of at least four, a run on which an event is accepted a third time although its
   second acceptance was followed by fewer others than the cache holds, and by none of its own key: its first
   copy was still queued at the second acceptance.
   */
  lemma AcceptedTooSoon(m: Limits, w: D.World, zs: seq<E.Attempt>, run: seq<E.Attempt>, rs: seq<X.Request>,
                        i: nat, k: nat)
    requires IsRun(m, w, zs, run, i, k) && Carry(rs, run)
    ensures i < k < |rs| && X.WellTimed(rs, i, k) && rs[i].event == rs[k].event
    ensures X.Accepted(m, rs, i) && X.Accepted(m, rs, k)
    ensures X.CountAccepted(m, rs, i + 1, k) < m.capacity
    ensures X.CountAcceptedFor(m, rs, i + 1, k, rs[i].event.pubkey) < m.perPrincipal
  {
    InTime(m, w, zs, run, rs, i, k);
    BothAccepted(m, w, zs, run, i, k);
    SameAnswer(m, run, rs, i);
    SameAnswer(m, run, rs, k);
    FewBetween(m, rs, w.p, i, k);
  }
}
