/**
 Runs on which the HTTP and the iroh replay caches part ways, for any limits with enough room. An id
 evicted for its principal's share stays in the HTTP queue; accepted again, it is queued twice, and its
 older copy keeps the entries behind it from being pruned.
 */
module ReplayDivergence {
  import opened Prelude
  import opened ReplayLedger
  import H = HttpReplay
  import O = ReplayOrder
  import E = ReplayEquivalence

  // ----- steps of a cache in which nothing has expired and there is room -----

  ghost predicate Quiet(c: H.Cache, m: Limits, now: nat) {
    && H.Inv(c)
    && (forall x :: x in c.entries ==> c.entries[x].expiresAt > now)
    && |c.entries| < m.capacity
    && (c.order == [] || c.order[0] in c.entries)
  }

  lemma QuietPrune(c: H.Cache, m: Limits, now: nat)
    requires Quiet(c, m, now)
    ensures H.Prune(c, now) == c && O.PruneInOrder(c, now)
  {
    H.LiveFacts(c.order, c.entries.Keys);
    O.FirstsLive(c.order, c.entries.Keys);
    assert forall x :: x in H.View(c).ids ==> x in c.entries;
  }

  lemma QuietInOrder(c: H.Cache, m: Limits, a: E.Attempt)
    requires Quiet(c, m, a.now)
    ensures E.InOrder(c, m, a)
  {
    QuietPrune(c, m, a.now);
    H.EvictForRefines(c, a.principal, m.perPrincipal);
    SizeOfEntries(H.View(c));
    SizeOfEntries(H.View(H.EvictFor(c, a.principal, m.perPrincipal)));
  }

  lemma HasRoom(c: H.Cache, capacity: nat)
    requires |c.entries| < capacity
    ensures H.EvictOldest(c, capacity) == c
  {
  }

  function EntryOf(a: E.Attempt): Entry {
    Entry(a.principal, SaturatingAdd(a.now, RETENTION))
  }

  lemma AcceptsInto(c: H.Cache, m: Limits, a: E.Attempt, pruned: H.Cache, room: H.Cache)
    requires H.Prune(c, a.now) == pruned && a.id !in pruned.entries
    requires H.EvictFor(pruned, a.principal, m.perPrincipal) == room && |room.entries| < m.capacity
    ensures E.HttpStep(c, m, a) == (H.Insert(room, a.id, EntryOf(a)), true)
  {
    HasRoom(room, m.capacity);
  }

  /** Within the share nothing is evicted. */
  lemma WithinShare(c: H.Cache, m: Limits, a: E.Attempt)
    requires Quiet(c, m, a.now) && a.id !in c.entries && H.Share(c, a.principal) < m.perPrincipal
    ensures E.HttpStep(c, m, a) == (H.Insert(c, a.id, EntryOf(a)), true)
  {
    QuietPrune(c, m, a.now);
    AcceptsInto(c, m, a, c, c);
  }

  /** With the share used up the oldest of the principal goes. */
  lemma ShareUsedUp(c: H.Cache, m: Limits, a: E.Attempt, x: Id, rest: seq<Id>)
    requires Quiet(c, m, a.now) && a.id !in c.entries && a.principal in c.byPrincipal
    requires c.byPrincipal[a.principal] == [x] + rest && |rest| + 1 == m.perPrincipal
    ensures x in c.entries && c.entries[x].principal == a.principal
    ensures E.HttpStep(c, m, a) == (H.Insert(H.Remove(c, x), a.id, EntryOf(a)), true)
    ensures H.Share(H.Remove(c, x), a.principal) == |rest|
    ensures rest != [] ==> a.principal in H.Remove(c, x).byPrincipal && H.Remove(c, x).byPrincipal[a.principal] == rest
  {
    var p := a.principal;
    QuietPrune(c, m, a.now);
    H.PopOldestRefines(c, p);
    OwnedIsHeld(H.View(c).ids, c.entries, p);
    assert x == Of(H.View(c), p)[0];
    WithoutHead(c.byPrincipal[p]);
    assert Without([x] + rest, x) == rest;
    OneEvicted(c, p, m.perPrincipal);
    assert H.Remove(c, x).entries.Keys == c.entries.Keys - {x};
    AcceptsInto(c, m, a, c, H.Remove(c, x));
  }

  lemma OneEvicted(c: H.Cache, p: Principal, perPrincipal: nat)
    requires p in c.byPrincipal && |c.byPrincipal[p]| == perPrincipal > 0
    requires H.Share(H.PopOldestOf(c, p), p) < perPrincipal
    ensures H.EvictFor(c, p, perPrincipal) == H.PopOldestOf(c, p)
  {
    H.PopShrinks(c, p);
  }

  /** An attempt on a quiet cache, accepted. */
  ghost predicate Stepped(m: Limits, c: H.Cache, a: E.Attempt, d: H.Cache) {
    Quiet(c, m, a.now) && E.HttpStep(c, m, a) == (d, true) && H.Inv(d)
  }

  lemma StepsWithinShare(m: Limits, c: H.Cache, a: E.Attempt, d: H.Cache)
    requires Quiet(c, m, a.now) && a.id !in c.entries && H.Share(c, a.principal) < m.perPrincipal
    requires d == H.Insert(c, a.id, EntryOf(a))
    ensures Stepped(m, c, a, d)
  {
    WithinShare(c, m, a);
    H.InsertRefines(c, a.id, EntryOf(a));
  }

  lemma StepsShareUsedUp(m: Limits, c: H.Cache, a: E.Attempt, x: Id, rest: seq<Id>, d: H.Cache)
    requires Quiet(c, m, a.now) && a.id !in c.entries && a.principal in c.byPrincipal
    requires c.byPrincipal[a.principal] == [x] + rest && |rest| + 1 == m.perPrincipal
    requires d == H.Insert(H.Remove(c, x), a.id, EntryOf(a))
    ensures Stepped(m, c, a, d) && a.principal in d.byPrincipal && d.byPrincipal[a.principal] == rest + [a.id]
    ensures d.order == c.order + [a.id] && d.entries == (c.entries - {x})[a.id := EntryOf(a)] && x in c.entries
  {
    ShareUsedUp(c, m, a, x, rest);
    H.RemoveRefines(c, x);
    H.InsertRefines(H.Remove(c, x), a.id, EntryOf(a));
  }

  // ----- runs -----

  /** The states of the HTTP cache along some attempts. */
  ghost predicate Trace(m: Limits, cs: seq<H.Cache>, run: seq<E.Attempt>) {
    |cs| == |run| + 1 && forall k {:trigger StepAt(m, cs, run, k)} :: 0 <= k < |run| ==> StepAt(m, cs, run, k)
  }

  ghost predicate StepAt(m: Limits, cs: seq<H.Cache>, run: seq<E.Attempt>, k: nat)
    requires k < |run| < |cs|
  {
    Stepped(m, cs[k], run[k], cs[k + 1])
  }

  lemma TraceOn(m: Limits, cs: seq<H.Cache>, run: seq<E.Attempt>, a: E.Attempt, d: H.Cache)
    requires Trace(m, cs, run) && Stepped(m, cs[|run|], a, d)
    ensures Trace(m, cs + [d], run + [a])
  {
    var more, uses := cs + [d], run + [a];
    forall k | 0 <= k < |uses|
      ensures StepAt(m, more, uses, k)
    {
      if k < |run| {
        assert StepAt(m, cs, run, k);
      }
    }
  }

  lemma {:induction false} TraceStates(m: Limits, cs: seq<H.Cache>, run: seq<E.Attempt>, whole: seq<E.Attempt>, n: nat)
    requires Trace(m, cs, run) && cs[0] == H.EMPTY && n <= |run| && run <= whole
    ensures E.HttpAt(m, whole, n) == cs[n]
  {
    if n > 0 {
      TraceStates(m, cs, run, whole, n - 1);
      TraceStep(m, cs, run, whole, n);
      NextState(m, whole, n, cs[n - 1], cs[n]);
    }
  }

  lemma TraceStep(m: Limits, cs: seq<H.Cache>, run: seq<E.Attempt>, whole: seq<E.Attempt>, n: nat)
    requires Trace(m, cs, run) && 0 < n <= |run| && run <= whole
    ensures E.HttpStep(cs[n - 1], m, whole[n - 1]).0 == cs[n]
  {
    assert StepAt(m, cs, run, n - 1);
  }

  lemma NextState(m: Limits, run: seq<E.Attempt>, n: nat, c: H.Cache, d: H.Cache)
    requires 0 < n <= |run| && E.HttpAt(m, run, n - 1) == c && E.HttpStep(c, m, run[n - 1]).0 == d
    ensures E.HttpAt(m, run, n) == d
  {
  }

  lemma TraceInOrder(m: Limits, cs: seq<H.Cache>, run: seq<E.Attempt>, whole: seq<E.Attempt>, n: nat)
    requires Trace(m, cs, run) && cs[0] == H.EMPTY && n < |run| && run <= whole
    ensures E.InOrderAt(m, whole, n)
  {
    TraceStates(m, cs, run, whole, n);
    assert StepAt(m, cs, run, n);
    QuietInOrder(cs[n], m, run[n]);
  }

  /** At the end of a trace the HTTP cache is its last state, and the iroh cache holds the same. */
  lemma TraceEnds(m: Limits, cs: seq<H.Cache>, run: seq<E.Attempt>, whole: seq<E.Attempt>, n: nat)
    requires Trace(m, cs, run) && cs[0] == H.EMPTY && n == |run| && run <= whole
    ensures E.HttpAt(m, whole, n) == cs[n] && E.StandsAt(m, whole, n)
  {
    forall i | 0 <= i < n
      ensures E.InOrderAt(m, whole, i)
    {
      TraceInOrder(m, cs, run, whole, i);
    }
    TraceStates(m, cs, run, whole, n);
    E.InOrderStands(m, whole, n);
  }

  // ----- the run -----

  /** Three ids of three principals, and as many more of the second one as its share holds. */
  datatype World = World(c: Id, x: Id, d: Id, ys: seq<Id>, q: Principal, p: Principal, r: Principal)

  ghost predicate Cast(w: World, m: Limits) {
    && NoDup([w.c, w.x, w.d] + w.ys) && w.p != w.q && w.p != w.r && w.q != w.r
    && |w.ys| == m.perPrincipal > 0 && m.perPrincipal + 3 <= m.capacity
  }

  /** All but one expire at 120. */
  ghost predicate Expiring(c: H.Cache, x: Id) {
    forall id :: id in c.entries && id != x ==> c.entries[id].expiresAt == 120
  }

  /** After the first three attempts and j more. */
  ghost predicate Stage(c: H.Cache, w: World, j: nat)
    requires j <= |w.ys|
  {
    && c.order == [w.c, w.x, w.d] + w.ys[..j] && |c.entries| <= 3 + j
    && w.c in c.entries && w.d in c.entries && c.entries[w.c].principal == w.q && c.entries[w.d].principal == w.r
    && (forall id :: id in c.entries ==> c.entries[id].expiresAt == 120)
    && w.p in c.byPrincipal && c.byPrincipal[w.p] == [w.x] + w.ys[..j]
  }

  function Use(p: Principal, id: Id, now: nat): E.Attempt {
    E.Attempt(p, id, now)
  }

  function FirstUses(w: World): seq<E.Attempt> {
    [Use(w.q, w.c, 0), Use(w.p, w.x, 0), Use(w.r, w.d, 0)]
  }

  function Uses(w: World, j: nat): seq<E.Attempt>
    requires j <= |w.ys|
  {
    if j == 0 then FirstUses(w) else Uses(w, j - 1) + [Use(w.p, w.ys[j - 1], 0)]
  }

  /** The ids of the second principal fill its share, evict x and are followed by x again. */
  function Run(w: World): seq<E.Attempt> {
    Uses(w, |w.ys|) + [Use(w.p, w.x, 1)]
  }

  lemma Unheld(c: H.Cache, id: Id)
    requires H.Inv(c) && id !in c.order
    ensures id !in c.entries
  {
    H.LiveFacts(c.order, c.entries.Keys);
  }

  lemma Distinct(w: World, m: Limits)
    requires Cast(w, m)
    ensures w.c != w.x && w.c != w.d && w.x != w.d
    ensures forall j :: 0 <= j < |w.ys| ==> w.ys[j] !in [w.c, w.x, w.d] + w.ys[..j]
    ensures w.c !in w.ys && w.x !in w.ys && w.d !in w.ys
  {
    var all := [w.c, w.x, w.d] + w.ys;
    assert all[0] == w.c && all[1] == w.x && all[2] == w.d;
    assert forall j :: 0 <= j < |w.ys| ==> all[3 + j] == w.ys[j];
  }

  lemma First(m: Limits, w: World, c: H.Cache)
    requires Cast(w, m) && c == H.Insert(H.EMPTY, w.c, Entry(w.q, 120))
    ensures Stepped(m, H.EMPTY, Use(w.q, w.c, 0), c)
    ensures c == H.Cache(map[w.c := Entry(w.q, 120)], [w.c], map[w.q := [w.c]])
  {
    H.EmptyInv();
    StepsWithinShare(m, H.EMPTY, Use(w.q, w.c, 0), c);
    assert [] + [w.c] == [w.c];
  }

  lemma Second(m: Limits, w: World, c: H.Cache, d: H.Cache)
    requires Cast(w, m) && H.Inv(c) && c == H.Cache(map[w.c := Entry(w.q, 120)], [w.c], map[w.q := [w.c]])
    requires d == H.Insert(c, w.x, Entry(w.p, 120))
    ensures Stepped(m, c, Use(w.p, w.x, 0), d)
    ensures d.entries == map[w.c := Entry(w.q, 120), w.x := Entry(w.p, 120)] && d.order == [w.c, w.x]
    ensures d.byPrincipal == map[w.q := [w.c], w.p := [w.x]]
  {
    Distinct(w, m);
    StepsWithinShare(m, c, Use(w.p, w.x, 0), d);
    assert [] + [w.x] == [w.x];
  }

  lemma Third(m: Limits, w: World, c: H.Cache, d: H.Cache)
    requires Cast(w, m) && H.Inv(c)
    requires c.entries == map[w.c := Entry(w.q, 120), w.x := Entry(w.p, 120)] && c.order == [w.c, w.x]
    requires c.byPrincipal == map[w.q := [w.c], w.p := [w.x]]
    requires d == H.Insert(c, w.d, Entry(w.r, 120))
    ensures Stepped(m, c, Use(w.r, w.d, 0), d) && Stage(d, w, 0)
  {
    Distinct(w, m);
    StepsWithinShare(m, c, Use(w.r, w.d, 0), d);
    assert d.order == [w.c, w.x, w.d] + w.ys[..0];
    assert [w.x] + w.ys[..0] == [w.x];
  }

  lemma FirstTwo(m: Limits, w: World) returns (c1: H.Cache, c2: H.Cache)
    requires Cast(w, m)
    ensures Trace(m, [H.EMPTY, c1, c2], [Use(w.q, w.c, 0), Use(w.p, w.x, 0)]) && H.Inv(c2)
    ensures c2.entries == map[w.c := Entry(w.q, 120), w.x := Entry(w.p, 120)] && c2.order == [w.c, w.x]
    ensures c2.byPrincipal == map[w.q := [w.c], w.p := [w.x]]
  {
    c1 := H.Insert(H.EMPTY, w.c, Entry(w.q, 120));
    First(m, w, c1);
    c2 := H.Insert(c1, w.x, Entry(w.p, 120));
    Second(m, w, c1, c2);
    TraceOn(m, [H.EMPTY], [], Use(w.q, w.c, 0), c1);
    assert [H.EMPTY] + [c1] == [H.EMPTY, c1] && [] + [Use(w.q, w.c, 0)] == [Use(w.q, w.c, 0)];
    TraceOn(m, [H.EMPTY, c1], [Use(w.q, w.c, 0)], Use(w.p, w.x, 0), c2);
    assert [H.EMPTY, c1] + [c2] == [H.EMPTY, c1, c2];
    assert [Use(w.q, w.c, 0)] + [Use(w.p, w.x, 0)] == [Use(w.q, w.c, 0), Use(w.p, w.x, 0)];
  }

  lemma FirstThree(m: Limits, w: World) returns (cs: seq<H.Cache>)
    requires Cast(w, m)
    ensures Trace(m, cs, FirstUses(w)) && cs[0] == H.EMPTY && H.Inv(cs[3]) && Stage(cs[3], w, 0)
  {
    var c1, c2 := FirstTwo(m, w);
    var c3 := H.Insert(c2, w.d, Entry(w.r, 120));
    Third(m, w, c2, c3);
    TraceOn(m, [H.EMPTY, c1, c2], [Use(w.q, w.c, 0), Use(w.p, w.x, 0)], Use(w.r, w.d, 0), c3);
    cs := [H.EMPTY, c1, c2] + [c3];
    assert [Use(w.q, w.c, 0), Use(w.p, w.x, 0)] + [Use(w.r, w.d, 0)] == FirstUses(w);
  }

  lemma StageIsQuiet(c: H.Cache, m: Limits, w: World, j: nat)
    requires Cast(w, m) && j < |w.ys| && H.Inv(c) && Stage(c, w, j)
    ensures Quiet(c, m, 0) && w.ys[j] !in c.entries
  {
    Distinct(w, m);
    Unheld(c, w.ys[j]);
  }

  lemma StageNext(m: Limits, w: World, j: nat, c: H.Cache, d: H.Cache)
    requires Cast(w, m) && j + 1 < |w.ys| && H.Inv(c) && Stage(c, w, j)
    requires d == H.Insert(c, w.ys[j], Entry(w.p, 120))
    ensures Stepped(m, c, Use(w.p, w.ys[j], 0), d) && Stage(d, w, j + 1)
  {
    StageIsQuiet(c, m, w, j);
    StepsWithinShare(m, c, Use(w.p, w.ys[j], 0), d);
    assert w.ys[..j + 1] == w.ys[..j] + [w.ys[j]];
    assert [w.x] + w.ys[..j] + [w.ys[j]] == [w.x] + w.ys[..j + 1];
  }

  lemma {:induction false} ShareFills(m: Limits, w: World, j: nat) returns (cs: seq<H.Cache>)
    requires Cast(w, m) && j < |w.ys|
    ensures Trace(m, cs, Uses(w, j)) && cs[0] == H.EMPTY
    ensures H.Inv(cs[|Uses(w, j)|]) && Stage(cs[|Uses(w, j)|], w, j)
  {
    if j == 0 {
      cs := FirstThree(m, w);
    } else {
      var before := ShareFills(m, w, j - 1);
      var c := before[|Uses(w, j - 1)|];
      var d := H.Insert(c, w.ys[j - 1], Entry(w.p, 120));
      StageNext(m, w, j - 1, c, d);
      TraceOn(m, before, Uses(w, j - 1), Use(w.p, w.ys[j - 1], 0), d);
      cs := before + [d];
    }
  }

  // ----- x evicted, and accepted again -----

  /** The share is full of the ids after x, whose older copy is still queued. */
  ghost predicate Evicted(c: H.Cache, w: World) {
    && c.order == [w.c, w.x, w.d] + w.ys && |c.entries| <= 2 + |w.ys| && w.x !in c.entries
    && w.c in c.entries && w.d in c.entries && c.entries[w.c].principal == w.q && c.entries[w.d].principal == w.r
    && (forall id :: id in c.entries ==> c.entries[id].expiresAt == 120)
    && w.p in c.byPrincipal && c.byPrincipal[w.p] == w.ys
  }

  /** x is queued before and behind d, and expires a second later. */
  ghost predicate Requeued(c: H.Cache, w: World) {
    && c.order == [w.c, w.x] + ([w.d] + w.ys + [w.x])
    && c.entries.Keys >= {w.c, w.x, w.d} && c.entries[w.c] == Entry(w.q, 120) && c.entries[w.d] == Entry(w.r, 120)
    && c.entries[w.x] == Entry(w.p, 121)
    && (w.ys != [] ==> w.ys[0] !in c.entries)
  }

  lemma LastEvicts(m: Limits, w: World, c: H.Cache, d: H.Cache)
    requires Cast(w, m) && H.Inv(c) && Stage(c, w, |w.ys| - 1)
    requires d == H.Insert(H.Remove(c, w.x), w.ys[|w.ys| - 1], Entry(w.p, 120))
    ensures Stepped(m, c, Use(w.p, w.ys[|w.ys| - 1], 0), d) && Evicted(d, w)
  {
    var j := |w.ys| - 1;
    Distinct(w, m);
    StageIsQuiet(c, m, w, j);
    StepsShareUsedUp(m, c, Use(w.p, w.ys[j], 0), w.x, w.ys[..j], d);
    IsEvicted(m, w, c, d, w.ys[j]);
  }

  lemma IsEvicted(m: Limits, w: World, c: H.Cache, d: H.Cache, y: Id)
    requires Cast(w, m) && Stage(c, w, |w.ys| - 1) && y == w.ys[|w.ys| - 1] && w.x in c.entries
    requires d.order == c.order + [y] && d.entries == (c.entries - {w.x})[y := Entry(w.p, 120)]
    requires w.p in d.byPrincipal && d.byPrincipal[w.p] == w.ys[..|w.ys| - 1] + [y]
    ensures Evicted(d, w)
  {
    var j := |w.ys| - 1;
    Distinct(w, m);
    assert w.ys == w.ys[..j] + [y];
    assert [w.c, w.x, w.d] + w.ys[..j] + [y] == [w.c, w.x, w.d] + w.ys;
    assert d.entries.Keys == c.entries.Keys - {w.x} + {y};
  }

  lemma EvictedIsQuiet(c: H.Cache, m: Limits, w: World)
    requires Cast(w, m) && H.Inv(c) && Evicted(c, w)
    ensures Quiet(c, m, 1)
  {
  }

  lemma XAgain(m: Limits, w: World, c: H.Cache, d: H.Cache)
    requires Cast(w, m) && H.Inv(c) && Evicted(c, w)
    requires d == H.Insert(H.Remove(c, w.ys[0]), w.x, Entry(w.p, 121))
    ensures Stepped(m, c, Use(w.p, w.x, 1), d) && Requeued(d, w)
  {
    var y := w.ys[0];
    EvictedIsQuiet(c, m, w);
    assert w.ys == [y] + w.ys[1..];
    StepsShareUsedUp(m, c, Use(w.p, w.x, 1), y, w.ys[1..], d);
    IsRequeued(m, w, c, d, y);
  }

  lemma IsRequeued(m: Limits, w: World, c: H.Cache, d: H.Cache, y: Id)
    requires Cast(w, m) && Evicted(c, w) && y == w.ys[0]
    requires d.order == c.order + [w.x] && d.entries == (c.entries - {y})[w.x := Entry(w.p, 121)]
    ensures Requeued(d, w)
  {
    Distinct(w, m);
    assert [w.c, w.x, w.d] + w.ys + [w.x] == [w.c, w.x] + ([w.d] + w.ys + [w.x]);
  }

  lemma TraceOfRun(m: Limits, w: World) returns (cs: seq<H.Cache>)
    requires Cast(w, m)
    ensures Trace(m, cs, Run(w)) && cs[0] == H.EMPTY && H.Inv(cs[|Run(w)|]) && Requeued(cs[|Run(w)|], w)
  {
    var j := |w.ys| - 1;
    var before := ShareFills(m, w, j);
    var c := before[|Uses(w, j)|];
    var d := H.Insert(H.Remove(c, w.x), w.ys[j], Entry(w.p, 120));
    LastEvicts(m, w, c, d);
    TraceOn(m, before, Uses(w, j), Use(w.p, w.ys[j], 0), d);
    var e := H.Insert(H.Remove(d, w.ys[0]), w.x, Entry(w.p, 121));
    XAgain(m, w, d, e);
    TraceOn(m, before + [d], Uses(w, j + 1), Use(w.p, w.x, 1), e);
    cs := before + [d] + [e];
  }

  // ----- what the two caches make of it -----

  lemma FirstCopies(c: Id, x: Id, rest: seq<Id>, keys: set<Id>)
    requires c in keys && x in keys && c != x
    ensures var ids := O.Firsts([c, x] + rest, keys); |ids| >= 2 && ids[0] == c && ids[1] == x
  {
    assert ([c, x] + rest)[1..] == [x] + rest && ([x] + rest)[1..] == rest;
    assert O.Firsts([x] + rest, keys - {c}) == [x] + O.Firsts(rest, keys - {c} - {x});
  }

  lemma LastCopies(c: Id, x: Id, d: Id, rest: seq<Id>, keys: set<Id>)
    requires c in keys && d in keys && c != x && c != d && x != d
    requires c !in rest && d !in rest && x in rest
    ensures H.Live([c, x] + ([d] + rest), keys) == [c, d] + H.Live(rest, keys)
  {
    var tail := [d] + rest;
    assert ([c, x] + tail)[1..] == [x] + tail && ([x] + tail)[1..] == tail && tail[1..] == rest;
    assert H.Live(tail, keys) == [d] + H.Live(rest, keys);
    assert x in tail && H.Live([x] + tail, keys) == H.Live(tail, keys);
    assert c !in [x] + tail;
  }

  lemma OnlyFirstExpired(ids: seq<Id>, entries: map<Id, Entry>, now: nat)
    requires |ids| >= 2 && ids[0] in entries && ids[1] in entries
    requires entries[ids[0]].expiresAt <= now < entries[ids[1]].expiresAt
    ensures O.Expired(ids, entries, now) == {ids[0]}
  {
    assert O.Expired(ids[1..], entries, now) == {};
  }

  lemma FirstTwoExpired(ids: seq<Id>, entries: map<Id, Entry>, now: nat)
    requires |ids| >= 2 && ids[0] in entries && ids[1] in entries
    requires entries[ids[0]].expiresAt <= now && entries[ids[1]].expiresAt <= now
    ensures ids[1] in O.Expired(ids, entries, now)
  {
    assert ids[1] in O.Expired(ids[1..], entries, now);
  }

  /** The older copy of x, unexpired in the second place, keeps everything behind it in the HTTP cache. */
  lemma HttpKeeps(c: H.Cache, w: World)
    requires H.Inv(c) && Requeued(c, w) && w.c != w.x && w.c != w.d
    ensures H.View(H.Prune(c, 120)) == Drop(H.View(c), w.c) && w.d in H.Prune(c, 120).entries
  {
    FirstCopies(w.c, w.x, [w.d] + w.ys + [w.x], c.entries.Keys);
    OnlyFirstExpired(O.Firsts(c.order, c.entries.Keys), c.entries, 120);
    O.HttpPrunes(c, 120);
    O.DropNone(Drop(H.View(c), w.c));
    O.DropOneMore(H.View(c), w.c, {});
    assert {w.c} + {} == {w.c};
  }

  lemma IrohDrops(c: H.Cache, w: World, m: Limits)
    requires H.Inv(c) && Requeued(c, w) && Cast(w, m)
    ensures H.View(c).ids == [w.c, w.d] + H.Live(w.ys + [w.x], c.entries.Keys)
    ensures w.d !in Prune(H.View(c), 120).entries
  {
    Distinct(w, m);
    assert [w.d] + w.ys + [w.x] == [w.d] + (w.ys + [w.x]);
    LastCopies(w.c, w.x, w.d, w.ys + [w.x], c.entries.Keys);
    FirstTwoExpired(H.View(c).ids, c.entries, 120);
    O.LedgerPrunes(H.View(c), 120);
  }

  /**
   For any limits with a share of at least one and room for three more than it, there is a run at the end of
   which the HTTP cache still refuses an expired event that the iroh cache accepts.
   */
  lemma CachesDiverge(m: Limits, w: World, run: seq<E.Attempt>, last: nat)
    requires Cast(w, m) && last == |Run(w)| && run == Run(w) + [Use(w.r, w.d, 120)]
    ensures !E.HttpAccepts(m, run, last) && E.IrohAccepts(m, run, last)
    ensures !E.Agree(m, run)
  {
    var cs := TraceOfRun(m, w);
    Distinct(w, m);
    TraceEnds(m, cs, Run(w), run, last);
    HttpKeeps(cs[last], w);
    IrohDrops(cs[last], w, m);
    E.AnswersAre(cs[last], H.View(cs[last]), m, run[last]);
    DifferDisagrees(m, run, last);
  }

  lemma DifferDisagrees(m: Limits, run: seq<E.Attempt>, n: nat)
    requires n < |run| && E.HttpAccepts(m, run, n) != E.IrohAccepts(m, run, n)
    ensures !E.Agree(m, run)
  {
    var a := run[n];
    assert a == E.Attempt(a.principal, a.id, a.now);
    assert !E.Alike1(E.HttpAt(m, run, n), E.IrohAt(m, run, n), m, E.Attempt(a.principal, a.id, a.now));
    assert !E.AlikeAt(m, run, n);
  }

  // ----- and meet again -----

  lemma ThreeLeft(c: H.Cache, w: World, m: Limits)
    requires H.Inv(c) && Requeued(c, w) && Cast(w, m) && m.perPrincipal == 1
    ensures H.View(c).ids == [w.c, w.d, w.x] && |c.entries| == 3
  {
    Distinct(w, m);
    IrohDrops(c, w, m);
    assert w.ys + [w.x] == [w.ys[0], w.x];
    LastLive(w.ys[0], w.x, c.entries.Keys);
    assert [w.c, w.d] + [w.x] == [w.c, w.d, w.x];
    SizeOfEntries(H.View(c));
  }

  lemma LastLive(y: Id, x: Id, keys: set<Id>)
    requires x in keys && y !in keys
    ensures H.Live([y, x], keys) == [x]
  {
    assert [y, x][1..] == [x] && [x][1..] == [];
    assert H.Live([x], keys) == [x];
  }

  /** Of three, the first two expired. */
  lemma TwoExpire(l: Ledger, x: Id, y: Id, z: Id, now: nat)
    requires WellFormed(l) && l.ids == [x, y, z]
    requires l.entries[x].expiresAt <= now && l.entries[y].expiresAt <= now < l.entries[z].expiresAt
    ensures Prune(l, now) == Drop(Drop(l, x), y)
  {
    assert l.ids[1..] == [y, z] && [y, z][1..] == [z];
    assert O.Expired([z], l.entries, now) == {};
    assert O.Expired([y, z], l.entries, now) == {y};
    assert O.Expired(l.ids, l.entries, now) == {x} + {y};
    O.LedgerPrunes(l, now);
    O.DropOneMore(l, x, {y});
    O.DropOneMore(Drop(l, x), y, {});
    O.DropNone(Drop(Drop(l, x), y));
    assert {y} + {} == {y};
  }

  lemma OnlyOwn(l: Ledger, x: Id, y: Id, z: Id, p: Principal)
    requires WellFormed(l) && l.ids == [x, y, z] && l.entries[y].principal == p && l.entries[z].principal != p
    ensures Of(Drop(l, x), p) == [y]
  {
    WithoutHead(l.ids);
    var m := Drop(l, x);
    assert m.ids == [y, z] && m.ids[1..] == [z] && [z][1..] == [];
    assert Owned([z], m.entries, p) == [];
  }

  /**
   With a share of one, an attempt of another kind ends the same run with the two caches holding the same again,
   although they would have answered differently just before it.
   */
  lemma CachesMeetAgain(m: Limits, w: World, e: Id, run: seq<E.Attempt>, last: nat)
    requires Cast(w, m) && m.perPrincipal == 1 && e !in [w.c, w.x, w.d] + w.ys
    requires last == |Run(w)| && run == Run(w) + [Use(w.r, e, 120)]
    ensures !E.AlikeAt(m, run, last) && E.StandsAt(m, run, last + 1)
  {
    var cs := TraceOfRun(m, w);
    var c := cs[last];
    Distinct(w, m);
    TraceEnds(m, cs, Run(w), run, last);
    Unheld(c, e);
    MeetsAgain(m, w, e, c);
    E.AlikeIff(c, m, 120);
  }

  lemma MeetsAgain(m: Limits, w: World, e: Id, c: H.Cache)
    requires Cast(w, m) && m.perPrincipal == 1 && H.Inv(c) && Requeued(c, w) && e !in c.entries
    ensures !O.PruneInOrder(c, 120)
    ensures H.View(E.HttpStep(c, m, Use(w.r, e, 120)).0) == E.IrohStep(H.View(c), m, Use(w.r, e, 120)).0
  {
    Distinct(w, m);
    ThreeLeft(c, w, m);
    HttpKeeps(c, w);
    TwoExpire(H.View(c), w.c, w.d, w.x, 120);
    OnlyOwn(H.View(c), w.c, w.d, w.x, w.r);
    E.MayMeetAgain(c, m, Use(w.r, e, 120), w.d);
  }
}
