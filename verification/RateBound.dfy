/**
 * What the rate limiter guarantees over a whole run: a bound over the lifetime of one bucket under any
 * clock and rate, and, against a limiter that never forgets a bucket, when dropping stale buckets shows
 * and how many requests any window lets through.
 */
module RateBound {
  import opened Prelude
  import opened TokenBucket

  // ----- arithmetic of refilling -----

  lemma WorthAdds(c: Config, a: int, b: int)
    ensures Worth(c, a + b) == Worth(c, a) + Worth(c, b)
  {
  }

  lemma WorthGrows(c: Config, a: int, b: int)
    requires a <= b && c.refillRate >= 0.0
    ensures Worth(c, a) <= Worth(c, b)
  {
    WorthAdds(c, a, b - a);
    assert (b - a) as real / 1000.0 >= 0.0;
  }

  lemma GrantedWithin(c: Config, elapsed: nat)
    ensures Granted(c, elapsed) > 0 ==> Granted(c, elapsed) as real <= Worth(c, elapsed)
    ensures Granted(c, elapsed) == 0 ==> Worth(c, elapsed) < 1.0
  {
  }

  lemma PositiveRate(c: Config, elapsed: nat)
    requires Granted(c, elapsed) > 0
    ensures c.refillRate > 0.0
  {
    assert elapsed as real / 1000.0 >= 0.0;
  }

  lemma GrantedGrows(c: Config, a: nat, b: nat)
    requires a <= b && Granted(c, a) > 0
    ensures Granted(c, b) >= Granted(c, a)
  {
    PositiveRate(c, a);
    WorthGrows(c, a, b);
  }

  /** The tokens left and the tokens spent come out of what was there and what the time since was worth. */
  ghost predicate Gain(c: Config, b: Bucket, after: Bucket, spent: nat) {
    && b.lastRefill <= after.lastRefill
    && (after.tokens + spent) as real <= b.tokens as real + Worth(c, after.lastRefill - b.lastRefill)
  }

  lemma NoGain(c: Config, b: Bucket)
    ensures Gain(c, b, b, 0)
  {
    assert Worth(c, 0) == 0.0;
  }

  lemma GainAdds(c: Config, b: Bucket, mid: Bucket, after: Bucket, s: nat, t: nat)
    requires Gain(c, b, mid, s) && Gain(c, mid, after, t)
    ensures Gain(c, b, after, s + t)
  {
    WorthAdds(c, mid.lastRefill - b.lastRefill, after.lastRefill - mid.lastRefill);
  }

  /** A refill adds no more than the time it accounts for is worth. */
  lemma RefillGains(c: Config, b: Bucket, now: nat)
    ensures Gain(c, b, Refill(c, b, now), 0)
  {
    NoGain(c, b);
    if now > b.lastRefill {
      GrantedWithin(c, now - b.lastRefill);
    }
  }

  lemma TakeSpends(c: Config, b: Bucket)
    ensures Gain(c, b, Take(b).0, One(Take(b).1)) && Take(b).0.lastRefill == b.lastRefill
  {
    NoGain(c, b);
  }

  /** One request, from the bucket it finds to the bucket it leaves. */
  lemma RequestGains(c: Config, b: Bucket, now: nat)
    ensures var (after, allowed) := Take(Refill(c, b, now)); Gain(c, b, after, One(allowed))
  {
    var r := Refill(c, b, now);
    RefillGains(c, b, now);
    TakeSpends(c, r);
    GainAdds(c, b, r, Take(r).0, 0, One(Take(r).1));
  }

  // ----- counting -----

  ghost predicate AllowedAt(c: Config, run: seq<Op>, key: Key, n: nat)
    requires n < |run|
  {
    run[n].Request? && run[n].key == key && AnswerAt(c, run, n).Allowed?
  }

  ghost function One(b: bool): nat {
    if b then 1 else 0
  }

  /** How many requests of a key are allowed from operation i up to operation n. */
  ghost function AllowedIn(c: Config, run: seq<Op>, key: Key, i: nat, n: nat): nat
    requires i <= n <= |run|
    decreases n
  {
    if n == i then 0 else AllowedIn(c, run, key, i, n - 1) + One(AllowedAt(c, run, key, n - 1))
  }

  lemma {:induction false} AllowedSplit(c: Config, run: seq<Op>, key: Key, i: nat, j: nat, n: nat)
    requires i <= j <= n <= |run|
    ensures AllowedIn(c, run, key, i, n) == AllowedIn(c, run, key, i, j) + AllowedIn(c, run, key, j, n)
    decreases n
  {
    if n > j {
      AllowedSplit(c, run, key, i, j, n - 1);
    }
  }

  lemma AllowedFirst(c: Config, run: seq<Op>, key: Key, i: nat, n: nat)
    requires i < n <= |run|
    ensures AllowedIn(c, run, key, i, n) == One(AllowedAt(c, run, key, i)) + AllowedIn(c, run, key, i + 1, n)
  {
    AllowedSplit(c, run, key, i, i + 1, n);
    assert AllowedIn(c, run, key, i, i) == 0;
  }

  // ----- the lifetime of one bucket, under any clock and any rate -----

  /** The key is tracked after each of the operations i to n - 1. */
  ghost predicate Tracked(c: Config, run: seq<Op>, key: Key, i: nat, n: nat)
    requires i < n <= |run|
  {
    forall j :: i < j <= n ==> key in At(c, run, j)
  }

  ghost function BucketAt(c: Config, run: seq<Op>, key: Key, n: nat): Bucket
    requires n <= |run| && key in At(c, run, n)
  {
    At(c, run, n)[key]
  }

  lemma CheckGains(c: Config, m: Buckets, key: Key, k: Key, now: nat, cleanupNow: nat)
    requires key in m && key in Check(c, m, k, now, cleanupNow).0
    ensures var (after, answer) := Check(c, m, k, now, cleanupNow);
            Gain(c, m[key], after[key], One(k == key && answer.Allowed?))
  {
    NoGain(c, m[key]);
    RequestGains(c, m[key], now);
  }

  lemma StepGains(c: Config, run: seq<Op>, key: Key, n: nat)
    requires n < |run| && key in At(c, run, n) && key in At(c, run, n + 1)
    ensures Gain(c, BucketAt(c, run, key, n), BucketAt(c, run, key, n + 1), One(AllowedAt(c, run, key, n)))
  {
    match run[n] {
      case Sweep(_, _) => NoGain(c, BucketAt(c, run, key, n));
      case Request(k, now, cleanupNow) => CheckGains(c, At(c, run, n), key, k, now, cleanupNow);
    }
  }

  /** What has been spent since operation i, out of the bucket it left. */
  ghost predicate SpentSo(c: Config, run: seq<Op>, key: Key, i: nat, n: nat)
    requires i < n <= |run| && key in At(c, run, i + 1) && key in At(c, run, n)
  {
    Gain(c, BucketAt(c, run, key, i + 1), BucketAt(c, run, key, n), AllowedIn(c, run, key, i + 1, n))
  }

  lemma SpentStart(c: Config, run: seq<Op>, key: Key, i: nat)
    requires i < |run| && key in At(c, run, i + 1)
    ensures SpentSo(c, run, key, i, i + 1)
  {
    NoGain(c, BucketAt(c, run, key, i + 1));
  }

  lemma AllowedLast(c: Config, run: seq<Op>, key: Key, i: nat, n: nat)
    requires i <= n < |run|
    ensures AllowedIn(c, run, key, i, n + 1) == AllowedIn(c, run, key, i, n) + One(AllowedAt(c, run, key, n))
  {
  }

  lemma SpentStep(c: Config, run: seq<Op>, key: Key, i: nat, n: nat, b: Bucket, mid: Bucket, after: Bucket)
    requires i < n < |run| && Gain(c, b, mid, AllowedIn(c, run, key, i + 1, n))
    requires Gain(c, mid, after, One(AllowedAt(c, run, key, n)))
    ensures Gain(c, b, after, AllowedIn(c, run, key, i + 1, n + 1))
  {
    GainAdds(c, b, mid, after, AllowedIn(c, run, key, i + 1, n), One(AllowedAt(c, run, key, n)));
    AllowedLast(c, run, key, i + 1, n);
  }

  lemma SpentNext(c: Config, run: seq<Op>, key: Key, i: nat, n: nat)
    requires i < n < |run| && key in At(c, run, i + 1) && key in At(c, run, n) && key in At(c, run, n + 1)
    requires SpentSo(c, run, key, i, n)
    ensures SpentSo(c, run, key, i, n + 1)
  {
    StepGains(c, run, key, n);
    SpentStep(c, run, key, i, n, BucketAt(c, run, key, i + 1), BucketAt(c, run, key, n), BucketAt(c, run, key, n + 1));
  }

  lemma SpentSoFar(c: Config, run: seq<Op>, key: Key, i: nat, n: nat)
    requires i < n <= |run| && Tracked(c, run, key, i, n)
    ensures SpentSo(c, run, key, i, n)
  {
    SpentStart(c, run, key, i);
    for j := i + 1 to n
      invariant SpentSo(c, run, key, i, j)
    {
      SpentNext(c, run, key, i, j);
    }
  }

  lemma WholeTokens(c: Config, b: Bucket, after: Bucket, first: nat, spent: nat)
    requires Gain(c, b, after, spent) && b.tokens + first == c.maxTokens
    ensures first + spent + after.tokens <= c.maxTokens + Worth(c, after.lastRefill - b.lastRefill).Floor
  {
  }

  /** The operation that starts a bucket is a request of its key, which finds the bucket full. */
  lemma BucketStarts(c: Config, run: seq<Op>, key: Key, i: nat)
    requires i < |run| && key !in At(c, run, i) && key in At(c, run, i + 1)
    ensures run[i].Request? && run[i].key == key
    ensures var b := BucketAt(c, run, key, i + 1);
            b.lastRefill == run[i].now && b.tokens + One(AllowedAt(c, run, key, i)) == c.maxTokens
  {
    var full := Fresh(c, StartOf(run[i]));
    assert Refill(c, full, full.lastRefill) == full;
  }

  lemma LifetimeCount(c: Config, run: seq<Op>, key: Key, i: nat, n: nat, b: Bucket, after: Bucket, start: nat)
    requires i < n <= |run| && Gain(c, b, after, AllowedIn(c, run, key, i + 1, n))
    requires b.tokens + One(AllowedAt(c, run, key, i)) == c.maxTokens && b.lastRefill == start
    ensures LifetimeWithin(c, AllowedIn(c, run, key, i, n), start, after)
  {
    AllowedFirst(c, run, key, i, n);
    WholeTokens(c, b, after, One(AllowedAt(c, run, key, i)), AllowedIn(c, run, key, i + 1, n));
  }

  /** Requests allowed and tokens left are at most a full bucket and what the time up to the last refill is worth. */
  ghost predicate LifetimeWithin(c: Config, allowed: nat, start: nat, b: Bucket) {
    start <= b.lastRefill && allowed + b.tokens <= c.maxTokens + Worth(c, b.lastRefill - start).Floor
  }

  /** The bound holds from the request that starts a bucket on, as long as its key is tracked. */
  lemma LifetimeBound(c: Config, run: seq<Op>, key: Key, i: nat, n: nat)
    requires i < n <= |run| && key !in At(c, run, i) && Tracked(c, run, key, i, n)
    ensures run[i].Request? && LifetimeWithin(c, AllowedIn(c, run, key, i, n), run[i].now, At(c, run, n)[key])
  {
    BucketStarts(c, run, key, i);
    SpentSoFar(c, run, key, i, n);
    LifetimeCount(c, run, key, i, n, BucketAt(c, run, key, i + 1), BucketAt(c, run, key, n), run[i].now);
  }

  // ----- dropping a bucket -----

  /** By this time the bucket is due a refill that fills it. */
  predicate Due(c: Config, b: Bucket, clock: nat) {
    && b.lastRefill <= clock
    && Granted(c, clock - b.lastRefill) > 0
    && b.tokens + Granted(c, clock - b.lastRefill) >= c.maxTokens
  }

  lemma DueLater(c: Config, b: Bucket, clock: nat, later: nat)
    requires Due(c, b, clock) && clock <= later
    ensures Due(c, b, later)
  {
    GrantedGrows(c, clock - b.lastRefill, later - b.lastRefill);
  }

  /** A refill that fills leaves exactly the bucket that a key seen for the first time gets. */
  lemma RefillIsFresh(c: Config, b: Bucket, now: nat)
    requires Due(c, b, now) && c.maxTokens <= U64_MAX
    ensures Refill(c, b, now) == Fresh(c, now) == Refill(c, Fresh(c, now), now)
  {
    assert Worth(c, 0) == 0.0;
  }

  /** The buckets after n requests of one key at one moment. */
  function AfterBurst(c: Config, m: Buckets, key: Key, now: nat, cleanupNow: nat, n: nat): Buckets {
    if n == 0 then m
    else Check(c, AfterBurst(c, m, key, now, cleanupNow, n - 1), key, now, cleanupNow).0
  }

  /** The answer to the request after those. */
  function BurstAnswer(c: Config, m: Buckets, key: Key, now: nat, cleanupNow: nat, n: nat): Answer {
    Check(c, AfterBurst(c, m, key, now, cleanupNow, n), key, now, cleanupNow).1
  }

  /** A bucket that a request at this moment finds as it is. */
  ghost predicate Settled(c: Config, b: Bucket, now: nat) {
    Refill(c, b, now) == b
  }

  lemma RefillSettles(c: Config, b: Bucket, now: nat, tokens: nat)
    ensures Settled(c, Refill(c, b, now), now) && Settled(c, Bucket(tokens, Refill(c, b, now).lastRefill), now)
  {
  }

  lemma CheckTakes(c: Config, m: Buckets, key: Key, now: nat, cleanupNow: nat)
    requires key in m || |m| < MAX_TRACKED_KEYS
    ensures var r := Refill(c, Entry(c, m, key, now), now);
            Check(c, m, key, now, cleanupNow) == (m[key := Take(r).0], if r.tokens > 0 then Allowed else Limited)
  {
  }

  lemma {:induction false} BurstLeaves(c: Config, m: Buckets, key: Key, now: nat, cleanupNow: nat, n: nat)
    requires n > 0 && (key in m || |m| < MAX_TRACKED_KEYS)
    ensures var r := Refill(c, Entry(c, m, key, now), now);
            AfterBurst(c, m, key, now, cleanupNow, n) == m[key := Bucket(SaturatingSub(r.tokens, n), r.lastRefill)]
  {
    var r := Refill(c, Entry(c, m, key, now), now);
    if n == 1 {
      CheckTakes(c, m, key, now, cleanupNow);
      assert AfterBurst(c, m, key, now, cleanupNow, 0) == m;
    } else {
      BurstLeaves(c, m, key, now, cleanupNow, n - 1);
      BurstNext(c, m, key, now, cleanupNow, Bucket(SaturatingSub(r.tokens, n - 1), r.lastRefill), r);
    }
  }

  lemma BurstNext(c: Config, m: Buckets, key: Key, now: nat, cleanupNow: nat, b: Bucket, r: Bucket)
    requires r == Refill(c, Entry(c, m, key, now), now) && b.lastRefill == r.lastRefill
    ensures Check(c, m[key := b], key, now, cleanupNow).0 == m[key := Bucket(SaturatingSub(b.tokens, 1), r.lastRefill)]
  {
    RefillSettles(c, Entry(c, m, key, now), now, b.tokens);
    CheckTakes(c, m[key := b], key, now, cleanupNow);
    assert m[key := b][key := Take(b).0] == m[key := Take(b).0];
  }

  /** Of requests at one moment exactly as many are allowed as the first of them finds tokens. */
  lemma BurstAllowed(c: Config, m: Buckets, key: Key, now: nat, cleanupNow: nat, n: nat)
    requires key in m || |m| < MAX_TRACKED_KEYS
    ensures BurstAnswer(c, m, key, now, cleanupNow, n)
            == if n < Refill(c, Entry(c, m, key, now), now).tokens then Allowed else Limited
  {
    if n == 0 {
      CheckTakes(c, m, key, now, cleanupNow);
    } else {
      var r := Refill(c, Entry(c, m, key, now), now);
      var b := Bucket(SaturatingSub(r.tokens, n), r.lastRefill);
      BurstLeaves(c, m, key, now, cleanupNow, n);
      RefillSettles(c, Entry(c, m, key, now), now, b.tokens);
      CheckTakes(c, m[key := b], key, now, cleanupNow);
    }
  }

  /** The whole tokens earned since the last refill; none if the clock has stepped back or the rate is negative. */
  ghost function TokensDue(c: Config, b: Bucket, now: nat): nat {
    if now <= b.lastRefill then 0
    else Max(0, ((now - b.lastRefill) as real / 1000.0 * c.refillRate).Floor)
  }

  lemma RefillEarns(c: Config, b: Bucket, now: nat)
    requires b.tokens <= c.maxTokens <= U64_MAX
    ensures Refill(c, b, now) ==
            Bucket(Min(c.maxTokens, b.tokens + TokensDue(c, b, now)),
                   if TokensDue(c, b, now) > 0 then now else b.lastRefill)
  {
    if now > b.lastRefill {
      GrantedIs(c, now - b.lastRefill, Worth(c, now - b.lastRefill));
    }
  }

  lemma GrantedIs(c: Config, elapsed: nat, worth: real)
    requires worth == Worth(c, elapsed)
    ensures Granted(c, elapsed) == Min(Max(0, worth.Floor), U64_MAX)
  {
    assert worth < 0.0 ==> worth.Floor < 0;
    assert worth >= 0.0 ==> worth.Floor >= 0;
  }

  /** A tracked key's requests at one moment: as many are allowed as it has tokens and earned since its last refill. */
  lemma BurstOfTracked(c: Config, m: Buckets, key: Key, now: nat, cleanupNow: nat, n: nat)
    requires key in m && m[key].tokens <= c.maxTokens <= U64_MAX
    ensures BurstAnswer(c, m, key, now, cleanupNow, n) ==
            if n < Min(c.maxTokens, m[key].tokens + TokensDue(c, m[key], now)) then Allowed else Limited
  {
    BurstAllowed(c, m, key, now, cleanupNow, n);
    RefillEarns(c, m[key], now);
  }

  /** A new key's: as many as a bucket holds. */
  lemma BurstOfNew(c: Config, m: Buckets, key: Key, now: nat, cleanupNow: nat, n: nat)
    requires key !in m && |m| < MAX_TRACKED_KEYS && c.maxTokens <= U64_MAX
    ensures BurstAnswer(c, m, key, now, cleanupNow, n) == if n < c.maxTokens then Allowed else Limited
  {
    BurstAllowed(c, m, key, now, cleanupNow, n);
    RefillEarns(c, Fresh(c, now), now);
  }

  /** What is left after them, and from when the next refill counts: the time short of a whole token is not lost. */
  lemma BurstLeft(c: Config, m: Buckets, key: Key, now: nat, cleanupNow: nat, n: nat)
    requires key in m && m[key].tokens <= c.maxTokens <= U64_MAX && n > 0
    ensures var found := Min(c.maxTokens, m[key].tokens + TokensDue(c, m[key], now));
            AfterBurst(c, m, key, now, cleanupNow, n) ==
            m[key := Bucket(Max(0, found - n), if TokensDue(c, m[key], now) > 0 then now else m[key].lastRefill)]
  {
    BurstLeaves(c, m, key, now, cleanupNow, n);
    RefillEarns(c, m[key], now);
  }

  /**
   * Whether dropping a bucket shows: the requests of its key at a later moment all get the answers they
   * would have got with the bucket kept if and only if the refill it was due would have filled it.
   */
  lemma DroppingShowsIff(c: Config, m: Buckets, key: Key, now: nat, cleanupNow: nat)
    requires key in m && |m| <= MAX_TRACKED_KEYS && m[key].tokens <= c.maxTokens <= U64_MAX && m[key].lastRefill < now
    ensures (forall n ::
               BurstAnswer(c, m - {key}, key, now, cleanupNow, n) == BurstAnswer(c, m, key, now, cleanupNow, n))
            <==> m[key].tokens + Granted(c, now - m[key].lastRefill) >= c.maxTokens
  {
    var dropped := m - {key};
    assert |dropped| < MAX_TRACKED_KEYS by {
      assert dropped.Keys == m.Keys - {key};
    }
    forall n: nat
      ensures BurstAnswer(c, dropped, key, now, cleanupNow, n) == if n < c.maxTokens then Allowed else Limited
      ensures BurstAnswer(c, m, key, now, cleanupNow, n) ==
              if n < Refill(c, m[key], now).tokens then Allowed else Limited
    {
      BurstAllowed(c, dropped, key, now, cleanupNow, n);
      BurstAllowed(c, m, key, now, cleanupNow, n);
    }
    var kept: nat := Refill(c, m[key], now).tokens;
    if kept < c.maxTokens {
      assert BurstAnswer(c, dropped, key, now, cleanupNow, kept) != BurstAnswer(c, m, key, now, cleanupNow, kept);
    }
  }

  // ----- the limiter that forgets nothing -----

  function StartOf(op: Op): nat {
    if op.Request? then op.now else op.sweepNow
  }

  function EndOf(op: Op): nat {
    if op.Request? then op.cleanupNow else op.sweepNow
  }

  /** The clock never steps back. */
  ghost predicate Ordered(run: seq<Op>) {
    && (forall i :: 0 <= i < |run| ==> StartOf(run[i]) <= EndOf(run[i]))
    && (forall i, j :: 0 <= i < j < |run| ==> EndOf(run[i]) <= StartOf(run[j]))
  }

  /** What is left of the buckets once the operation has dropped the stale ones, if it drops any. */
  function Kept(m: Buckets, op: Op): Buckets {
    match op
    case Request(key, _, cleanupNow) => MakeRoom(m, key, cleanupNow)
    case Sweep(maxAge, now) => Cleanup(m, maxAge, now)
  }

  /** Every bucket the operation drops is due to be full. */
  ghost predicate Harmless(c: Config, m: Buckets, op: Op) {
    forall k :: k in m && k !in Kept(m, op) ==> Due(c, m[k], EndOf(op))
  }

  ghost predicate WellTimed(c: Config, run: seq<Op>) {
    && c.maxTokens <= U64_MAX && Ordered(run)
    && forall n {:trigger HarmlessAt(c, run, n)} :: 0 <= n < |run| ==> HarmlessAt(c, run, n)
  }

  ghost predicate HarmlessAt(c: Config, run: seq<Op>, n: nat)
    requires n < |run|
  {
    Harmless(c, At(c, run, n), run[n])
  }

  function AgeOf(op: Op): nat {
    if op.Request? then STALE_AFTER else op.maxAge
  }

  /** An operation whose age fills any bucket is harmless once the clock has passed that age. */
  lemma LongAgeIsHarmless(c: Config, m: Buckets, op: Op)
    requires Granted(c, AgeOf(op)) >= Max(1, c.maxTokens) && AgeOf(op) <= EndOf(op)
    ensures Harmless(c, m, op)
  {
    forall k | k in m && k !in Kept(m, op)
      ensures Due(c, m[k], EndOf(op))
    {
      GrantedGrows(c, AgeOf(op), EndOf(op) - m[k].lastRefill);
    }
  }

  function IdealStep(c: Config, ideal: Buckets, op: Op, full: bool): Buckets {
    if op.Sweep? || full then ideal else Touch(c, ideal, op.key, op.now).0
  }

  ghost predicate FullAt(c: Config, run: seq<Op>, n: nat)
    requires n < |run|
  {
    run[n].Request? && AnswerAt(c, run, n).Full?
  }

  ghost function IdealAt(c: Config, run: seq<Op>, n: nat): Buckets
    requires n <= |run|
  {
    if n == 0 then map[]
    else IdealStep(c, IdealAt(c, run, n - 1), run[n - 1], FullAt(c, run, n - 1))
  }

  /** Tracked buckets are the ideal ones, and forgotten ones would be full by now. */
  ghost predicate Tracks(c: Config, m: Buckets, ideal: Buckets, clock: nat) {
    && (forall k :: k in m ==> k in ideal && m[k] == ideal[k])
    && (forall k :: k in ideal && k !in m ==> Due(c, ideal[k], clock))
  }

  lemma TracksLater(c: Config, m: Buckets, ideal: Buckets, clock: nat, later: nat)
    requires Tracks(c, m, ideal, clock) && clock <= later
    ensures Tracks(c, m, ideal, later)
  {
    forall k | k in ideal && k !in m
      ensures Due(c, ideal[k], later)
    {
      DueLater(c, ideal[k], clock, later);
    }
  }

  lemma KeptTracks(c: Config, m: Buckets, ideal: Buckets, clock: nat, op: Op)
    requires Tracks(c, m, ideal, clock) && clock <= EndOf(op) && Harmless(c, m, op)
    ensures Tracks(c, Kept(m, op), ideal, EndOf(op))
  {
    TracksLater(c, m, ideal, clock, EndOf(op));
  }

  /** The bucket a request works on is the ideal one, or a fresh one that the ideal one refills to. */
  lemma SameEntry(c: Config, m: Buckets, ideal: Buckets, clock: nat, key: Key, now: nat)
    requires Tracks(c, m, ideal, clock) && clock <= now && c.maxTokens <= U64_MAX
    ensures Refill(c, Entry(c, m, key, now), now) == Refill(c, Entry(c, ideal, key, now), now)
  {
    if key in ideal && key !in m {
      DueLater(c, ideal[key], clock, now);
      RefillIsFresh(c, ideal[key], now);
    }
  }

  lemma TouchTracks(c: Config, m: Buckets, ideal: Buckets, clock: nat, key: Key, b: Bucket)
    requires Tracks(c, m, ideal, clock)
    ensures Tracks(c, m[key := b], ideal[key := b], clock)
  {
  }

  lemma RequestTracks(c: Config, m: Buckets, ideal: Buckets, clock: nat, op: Op)
    requires op.Request? && Tracks(c, m, ideal, clock) && clock <= op.now <= op.cleanupNow && c.maxTokens <= U64_MAX
    requires Harmless(c, m, op)
    ensures var (after, answer) := Check(c, m, op.key, op.now, op.cleanupNow);
            && Tracks(c, after, IdealStep(c, ideal, op, answer.Full?), op.cleanupNow)
            && (!answer.Full? ==> answer.Allowed? == Touch(c, ideal, op.key, op.now).1)
  {
    var room := Kept(m, op);
    SameEntry(c, m, ideal, clock, op.key, op.now);
    assert Entry(c, room, op.key, op.now) == Entry(c, m, op.key, op.now);
    KeptTracks(c, m, ideal, clock, op);
    TouchTracks(c, room, ideal, op.cleanupNow, op.key, Take(Refill(c, Entry(c, m, op.key, op.now), op.now)).0);
  }

  ghost function ClockAt(run: seq<Op>, n: nat): nat
    requires n <= |run|
  {
    if n == 0 then 0 else EndOf(run[n - 1])
  }

  ghost predicate TracksAt(c: Config, run: seq<Op>, n: nat)
    requires n <= |run|
  {
    Tracks(c, At(c, run, n), IdealAt(c, run, n), ClockAt(run, n))
  }

  lemma StepTracks(c: Config, run: seq<Op>, n: nat)
    requires n < |run| && WellTimed(c, run) && TracksAt(c, run, n)
    ensures TracksAt(c, run, n + 1)
  {
    OperationInOrder(c, run, n);
    match run[n] {
      case Sweep(_, _) => KeptTracks(c, At(c, run, n), IdealAt(c, run, n), ClockAt(run, n), run[n]);
      case Request(_, _, _) => RequestTracks(c, At(c, run, n), IdealAt(c, run, n), ClockAt(run, n), run[n]);
    }
  }

  lemma OperationInOrder(c: Config, run: seq<Op>, n: nat)
    requires n < |run| && WellTimed(c, run)
    ensures Harmless(c, At(c, run, n), run[n]) && ClockAt(run, n) <= StartOf(run[n]) <= EndOf(run[n])
  {
    assert HarmlessAt(c, run, n);
    assert n > 0 ==> EndOf(run[n - 1]) <= StartOf(run[n]);
  }

  lemma StartTracks(c: Config, run: seq<Op>)
    ensures TracksAt(c, run, 0)
  {
  }

  lemma RunTracks(c: Config, run: seq<Op>, n: nat)
    requires n <= |run| && WellTimed(c, run)
    ensures TracksAt(c, run, n)
  {
    StartTracks(c, run);
    for i := 0 to n
      invariant TracksAt(c, run, i)
    {
      StepTracks(c, run, i);
    }
  }

  /** Unless it is refused for lack of room, every request gets the answer of a limiter that forgets nothing. */
  lemma ForgettingIsInvisible(c: Config, run: seq<Op>, n: nat)
    requires n < |run| && WellTimed(c, run) && run[n].Request? && !AnswerAt(c, run, n).Full?
    ensures AnswerAt(c, run, n).Allowed? == Touch(c, IdealAt(c, run, n), run[n].key, run[n].now).1
  {
    RunTracks(c, run, n);
    OperationInOrder(c, run, n);
    RequestTracks(c, At(c, run, n), IdealAt(c, run, n), ClockAt(run, n), run[n]);
  }

  // ----- how many requests a window lets through -----

  ghost predicate ServedAt(c: Config, run: seq<Op>, key: Key, n: nat)
    requires n < |run|
  {
    run[n].Request? && run[n].key == key && !AnswerAt(c, run, n).Full?
  }

  ghost predicate Sane(c: Config, ideal: Buckets, clock: nat) {
    forall k :: k in ideal ==> ideal[k].tokens <= c.maxTokens && ideal[k].lastRefill <= clock
  }

  lemma {:induction false} IdealSane(c: Config, run: seq<Op>, n: nat)
    requires n <= |run| && Ordered(run)
    ensures Sane(c, IdealAt(c, run, n), ClockAt(run, n))
  {
    if n > 0 {
      IdealSane(c, run, n - 1);
      var op := run[n - 1];
      assert StartOf(op) <= EndOf(op);
      assert n > 1 ==> EndOf(run[n - 2]) <= StartOf(op);
    }
  }

  /** What a stretch of time is worth; a negative rate earns nothing. */
  function Earned(c: Config, elapsed: int): real {
    if c.refillRate < 0.0 then 0.0 else Worth(c, elapsed)
  }

  /** A refill accounts for all but one token's worth of the time. */
  lemma RefillLeaves(c: Config, b: Bucket, now: nat)
    requires b.tokens <= c.maxTokens && b.lastRefill <= now
    ensures var r := Refill(c, b, now);
            r.lastRefill <= now && r.tokens <= c.maxTokens && Worth(c, now - r.lastRefill) < 1.0
  {
    GrantedWithin(c, now - b.lastRefill);
    assert Worth(c, 0) == 0.0;
  }

  ghost predicate NoRicherThanFull(c: Config, b: Bucket, spent: nat, now: nat) {
    b.tokens + spent <= c.maxTokens && b.lastRefill <= now && Worth(c, now - b.lastRefill) < 1.0
  }

  /** Fewer than a full bucket plus one plus what a stretch of time is worth. */
  ghost predicate Within(c: Config, allowed: nat, elapsed: int) {
    allowed as real < c.maxTokens as real + 1.0 + Earned(c, elapsed)
  }

  lemma GainFromFull(c: Config, b: Bucket, after: Bucket, first: nat, spent: nat, now: nat, end: nat)
    requires Gain(c, b, after, spent) && NoRicherThanFull(c, b, first, now) && after.lastRefill <= end
    ensures Within(c, first + spent, end - now)
  {
    if c.refillRate < 0.0 {
      assert (after.lastRefill - b.lastRefill) as real / 1000.0 >= 0.0;
      assert Worth(c, after.lastRefill - b.lastRefill) <= 0.0;
    } else {
      WorthAdds(c, now - b.lastRefill, end - now);
      WorthGrows(c, after.lastRefill - b.lastRefill, end - b.lastRefill);
    }
  }

  lemma WithinLonger(c: Config, allowed: nat, a: int, b: int)
    requires Within(c, allowed, a) && a <= b
    ensures Within(c, allowed, b)
  {
    if c.refillRate >= 0.0 {
      WorthGrows(c, a, b);
    }
  }

  ghost function IdealBucket(c: Config, run: seq<Op>, key: Key, n: nat): Bucket
    requires n <= |run| && key in IdealAt(c, run, n)
  {
    IdealAt(c, run, n)[key]
  }

  /** What one served request does to the ideal bucket of its key. */
  lemma ServedStep(c: Config, run: seq<Op>, key: Key, n: nat)
    requires n < |run| && WellTimed(c, run) && ServedAt(c, run, key, n)
    ensures key in IdealAt(c, run, n + 1)
    ensures var r := Refill(c, Entry(c, IdealAt(c, run, n), key, run[n].now), run[n].now);
            && IdealBucket(c, run, key, n + 1).lastRefill == r.lastRefill
            && IdealBucket(c, run, key, n + 1).tokens + One(AllowedAt(c, run, key, n)) == r.tokens
  {
    ForgettingIsInvisible(c, run, n);
  }

  lemma EntrySane(c: Config, run: seq<Op>, key: Key, n: nat)
    requires n < |run| && Ordered(run) && run[n].Request?
    ensures var b := Entry(c, IdealAt(c, run, n), key, run[n].now);
            b.tokens <= c.maxTokens && b.lastRefill <= run[n].now
  {
    IdealSane(c, run, n);
    assert n > 0 ==> EndOf(run[n - 1]) <= StartOf(run[n]);
  }

  /** The first request served in a window leaves a bucket that is no richer than a full one. */
  lemma FirstServed(c: Config, run: seq<Op>, key: Key, f: nat)
    requires f < |run| && WellTimed(c, run) && ServedAt(c, run, key, f)
    ensures key in IdealAt(c, run, f + 1)
    ensures NoRicherThanFull(c, IdealBucket(c, run, key, f + 1), One(AllowedAt(c, run, key, f)), run[f].now)
  {
    ServedStep(c, run, key, f);
    EntrySane(c, run, key, f);
    RefillLeaves(c, Entry(c, IdealAt(c, run, f), key, run[f].now), run[f].now);
  }

  lemma LaterStep(c: Config, run: seq<Op>, key: Key, n: nat)
    requires n < |run| && WellTimed(c, run) && key in IdealAt(c, run, n)
    ensures key in IdealAt(c, run, n + 1)
    ensures Gain(c, IdealBucket(c, run, key, n), IdealBucket(c, run, key, n + 1), One(AllowedAt(c, run, key, n)))
  {
    if ServedAt(c, run, key, n) {
      ServedStep(c, run, key, n);
      RefillGains(c, IdealBucket(c, run, key, n), run[n].now);
    } else {
      NoGain(c, IdealBucket(c, run, key, n));
    }
  }

  lemma {:induction false} SpentSince(c: Config, run: seq<Op>, key: Key, i: nat, n: nat)
    requires i <= n <= |run| && WellTimed(c, run) && key in IdealAt(c, run, i)
    ensures key in IdealAt(c, run, n)
    ensures Gain(c, IdealBucket(c, run, key, i), IdealBucket(c, run, key, n), AllowedIn(c, run, key, i, n))
    decreases n
  {
    if n == i {
      NoGain(c, IdealBucket(c, run, key, n));
    } else {
      SpentSince(c, run, key, i, n - 1);
      LaterStep(c, run, key, n - 1);
      GainAdds(c, IdealBucket(c, run, key, i), IdealBucket(c, run, key, n - 1), IdealBucket(c, run, key, n),
               AllowedIn(c, run, key, i, n - 1), One(AllowedAt(c, run, key, n - 1)));
    }
  }

  lemma LastRefillPassed(c: Config, run: seq<Op>, key: Key, n: nat)
    requires n <= |run| && Ordered(run) && key in IdealAt(c, run, n)
    ensures IdealBucket(c, run, key, n).lastRefill <= ClockAt(run, n)
  {
    IdealSane(c, run, n);
  }

  /** The bound, for a window that opens with a served request. */
  lemma FromFirstServed(c: Config, run: seq<Op>, key: Key, f: nat, n: nat)
    requires f < n <= |run| && WellTimed(c, run) && ServedAt(c, run, key, f)
    ensures Within(c, AllowedIn(c, run, key, f, n), ClockAt(run, n) - run[f].now)
  {
    FirstServed(c, run, key, f);
    SpentSince(c, run, key, f + 1, n);
    AllowedFirst(c, run, key, f, n);
    LastRefillPassed(c, run, key, n);
    GainFromFull(c, IdealBucket(c, run, key, f + 1), IdealBucket(c, run, key, n), One(AllowedAt(c, run, key, f)),
                 AllowedIn(c, run, key, f + 1, n), run[f].now, ClockAt(run, n));
  }

  /**
   * In any stretch of any well-timed run, the requests of a key that are allowed number fewer than a full
   * bucket plus one plus what the length of the stretch is worth, sweeps and forgotten buckets included.
   */
  lemma {:induction false} WindowBound(c: Config, run: seq<Op>, key: Key, i: nat, n: nat)
    requires i < n <= |run| && WellTimed(c, run)
    ensures Within(c, AllowedIn(c, run, key, i, n), EndOf(run[n - 1]) - StartOf(run[i]))
    decreases n - i
  {
    if ServedAt(c, run, key, i) {
      FromFirstServed(c, run, key, i, n);
    } else {
      AllowedFirst(c, run, key, i, n);
      assert StartOf(run[i]) <= EndOf(run[i]);
      if i + 1 < n {
        WindowBound(c, run, key, i + 1, n);
        assert StartOf(run[i]) <= StartOf(run[i + 1]);
        WithinLonger(c, AllowedIn(c, run, key, i, n), EndOf(run[n - 1]) - StartOf(run[i + 1]),
                     EndOf(run[n - 1]) - StartOf(run[i]));
      } else {
        assert Worth(c, 0) == 0.0;
        WithinLonger(c, 0, 0, EndOf(run[n - 1]) - StartOf(run[i]));
      }
    }
  }
}
