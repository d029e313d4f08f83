/** The per-key token-bucket rate limiter (src/ratelimit.rs), with its clock readings as arguments. */
module TokenBucket {
  import opened Prelude

  /** Refill rate in tokens per second. */
  datatype Config = Config(maxTokens: nat, refillRate: real)

  /** Times are in milliseconds. */
  datatype Bucket = Bucket(tokens: nat, lastRefill: nat)

  type Buckets = map<Key, Bucket>

  const MAX_TRACKED_KEYS: nat := 10_000
  const STALE_AFTER: nat := 600_000

  /** How many tokens a stretch of time is worth, before rounding. */
  function Worth(c: Config, elapsed: int): real {
    elapsed as real / 1000.0 * c.refillRate
  }

  function Granted(c: Config, elapsed: nat): nat {
    if Worth(c, elapsed) < 0.0 then 0 else Min(Worth(c, elapsed).Floor, U64_MAX)
  }

  function Fresh(c: Config, now: nat): Bucket {
    Bucket(c.maxTokens, now)
  }

  function Refill(c: Config, b: Bucket, now: nat): Bucket {
    var granted := Granted(c, SaturatingSub(now, b.lastRefill));
    if now > b.lastRefill && granted > 0 then
      Bucket(Min(SaturatingAdd(b.tokens, granted), c.maxTokens), now)
    else
      b
  }

  function Take(b: Bucket): (Bucket, bool) {
    if b.tokens == 0 then (b, false) else (b.(tokens := b.tokens - 1), true)
  }

  function Entry(c: Config, m: Buckets, key: Key, now: nat): Bucket {
    if key in m then m[key] else Fresh(c, now)
  }

  function Touch(c: Config, m: Buckets, key: Key, now: nat): (Buckets, bool) {
    var (b, allowed) := Take(Refill(c, Entry(c, m, key, now), now));
    (m[key := b], allowed)
  }

  function Cleanup(m: Buckets, maxAge: nat, now: nat): Buckets {
    var threshold := SaturatingSub(now, maxAge);
    map k | k in m && m[k].lastRefill > threshold :: m[k]
  }

  /** A request is refused either because its bucket is empty or because too many keys are tracked. */
  datatype Answer = Allowed | Limited | Full

  function MakeRoom(m: Buckets, key: Key, cleanupNow: nat): Buckets {
    if key !in m && |m| >= MAX_TRACKED_KEYS then Cleanup(m, STALE_AFTER, cleanupNow) else m
  }

  function Check(c: Config, m: Buckets, key: Key, now: nat, cleanupNow: nat): (Buckets, Answer) {
    var room := MakeRoom(m, key, cleanupNow);
    if key !in room && |room| >= MAX_TRACKED_KEYS then (room, Full)
    else
      var (after, allowed) := Touch(c, room, key, now);
      (after, if allowed then Allowed else Limited)
  }

  /** A sweep keeps exactly the buckets refilled within the age, unchanged. */
  lemma CleanupKeeps(m: Buckets, maxAge: nat, now: nat, key: Key)
    requires key in m
    ensures var kept := Cleanup(m, maxAge, now);
            && (key in kept <==> m[key].lastRefill > Max(0, now - maxAge))
            && (key in kept ==> kept[key] == m[key]) && kept.Keys <= m.Keys
  {
  }

  /** A request is refused for room exactly when 10,000 other keys made requests in the last ten minutes. */
  lemma FullIff(c: Config, m: Buckets, key: Key, now: nat, cleanupNow: nat)
    requires |m| <= 10_000
    ensures Check(c, m, key, now, cleanupNow).1 == Full <==>
            && key !in m && |m| == 10_000
            && forall k :: k in m ==> m[k].lastRefill > Max(0, cleanupNow - 600_000)
  {
    var kept := Cleanup(m, STALE_AFTER, cleanupNow);
    if forall k :: k in m ==> m[k].lastRefill > Max(0, cleanupNow - 600_000) {
      assert kept == m;
    } else {
      var k :| k in m && m[k].lastRefill <= Max(0, cleanupNow - 600_000);
      assert kept.Keys <= m.Keys - {k};
      SubsetSize(kept.Keys, m.Keys - {k});
    }
  }

  // ----- the limiter -----

  class RateLimiter {
    const config: Config
    var buckets: Buckets

    constructor (config: Config)
      ensures this.config == config && buckets == map[]
    {
      this.config := config;
      buckets := map[];
    }

    method Sweep(maxAge: nat, now: nat)
      modifies this
      ensures buckets == Cleanup(old(buckets), maxAge, now)
    {
      var threshold := SaturatingSub(now, maxAge);
      var keys := buckets.Keys;
      while keys != {}
        invariant keys <= old(buckets).Keys
        invariant forall k ::
                    k in buckets <==> k in old(buckets) && (k in keys || old(buckets)[k].lastRefill > threshold)
        invariant forall k :: k in buckets ==> buckets[k] == old(buckets)[k]
        decreases |keys|
      {
        var k :| k in keys;
        if buckets[k].lastRefill <= threshold {
          buckets := buckets - {k};
        }
        keys := keys - {k};
      }
    }

    method Request(key: Key, now: nat, cleanupNow: nat) returns (answer: Answer)
      modifies this
      ensures (buckets, answer) == Check(config, old(buckets), key, now, cleanupNow)
    {
      if key !in buckets && |buckets| >= MAX_TRACKED_KEYS {
        Sweep(STALE_AFTER, cleanupNow);
        if |buckets| >= MAX_TRACKED_KEYS {
          return Full;
        }
      }
      if key !in buckets {
        buckets := buckets[key := Bucket(config.maxTokens, now)];
      }
      var elapsed := SaturatingSub(now, buckets[key].lastRefill);
      if elapsed > 0 {
        var granted := Granted(config, elapsed);
        if granted > 0 {
          var refilled := Min(SaturatingAdd(buckets[key].tokens, granted), config.maxTokens);
          buckets := buckets[key := Bucket(refilled, now)];
        }
      }
      if buckets[key].tokens == 0 {
        answer := Limited;
      } else {
        buckets := buckets[key := buckets[key].(tokens := buckets[key].tokens - 1)];
        answer := Allowed;
      }
      assert buckets == Check(config, old(buckets), key, now, cleanupNow).0;
    }
  }

  // ----- runs -----

  datatype Op = Request(key: Key, now: nat, cleanupNow: nat) | Sweep(maxAge: nat, sweepNow: nat)

  function Step(c: Config, m: Buckets, op: Op): Buckets {
    match op
    case Request(key, now, cleanupNow) => Check(c, m, key, now, cleanupNow).0
    case Sweep(maxAge, now) => Cleanup(m, maxAge, now)
  }

  function At(c: Config, run: seq<Op>, n: nat): Buckets
    requires n <= |run|
  {
    if n == 0 then map[] else Step(c, At(c, run, n - 1), run[n - 1])
  }

  function AnswerAt(c: Config, run: seq<Op>, n: nat): Answer
    requires n < |run| && run[n].Request?
  {
    Check(c, At(c, run, n), run[n].key, run[n].now, run[n].cleanupNow).1
  }

  /** Bucket contents and the number of tracked keys stay within their limits. */
  ghost predicate Bounded(c: Config, m: Buckets) {
    |m| <= MAX_TRACKED_KEYS && forall k :: k in m ==> m[k].tokens <= c.maxTokens
  }

  lemma CleanupShrinks(m: Buckets, maxAge: nat, now: nat)
    ensures |Cleanup(m, maxAge, now)| <= |m|
  {
    var kept := Cleanup(m, maxAge, now).Keys;
    assert kept <= m.Keys;
    SubsetSize(kept, m.Keys);
    KeysSize(m);
    KeysSize(Cleanup(m, maxAge, now));
  }

  lemma KeysSize(m: Buckets)
    ensures |m| == |m.Keys|
  {
  }

  /** No run, whatever its clock does, takes a bucket over its size or tracks too many keys. */
  lemma {:induction false} RunBounded(c: Config, run: seq<Op>, n: nat)
    requires n <= |run|
    ensures Bounded(c, At(c, run, n))
  {
    if n > 0 {
      RunBounded(c, run, n - 1);
      var m := At(c, run, n - 1);
      match run[n - 1] {
        case Sweep(maxAge, now) => CleanupShrinks(m, maxAge, now);
        case Request(key, _, cleanupNow) =>
          CleanupShrinks(m, STALE_AFTER, cleanupNow);
          assert |m| >= MAX_TRACKED_KEYS || key in m || |m[key := Fresh(c, 0)]| <= |m| + 1;
      }
    }
  }
}
