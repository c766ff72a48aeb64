/**
 The keyed fixed-window rate limiter (core/security.rs).  `now` is the clock value the call
 reads; runs have a non-decreasing clock.
 */
module RateLimit {

  const U32_MAX: nat := 0xffff_ffff
  const PRUNE_ABOVE: nat := 5000

  datatype Bucket = Bucket(start: nat, window: nat, count: nat)

  type Buckets = map<string, Bucket>

  datatype Call = Call(key: string, limit: nat, window: nat, now: nat)

  datatype Outcome = Outcome(buckets: Buckets, limited: bool)

  /** `now.saturating_sub(start)` */
  function Age(now: nat, start: nat): nat
  {
    if now < start then 0 else now - start
  }

  function Prune(buckets: Buckets, now: nat): Buckets
  {
    map key | key in buckets && Age(now, buckets[key].start) <= buckets[key].window :: buckets[key]
  }

  /** The bucket of the call's key once this call is counted. */
  function Charge(buckets: Buckets, call: Call): Bucket
  {
    var found := if call.key in buckets then buckets[call.key] else Bucket(call.now, call.window, 0);
    var bucket := if Age(call.now, found.start) > call.window then Bucket(call.now, call.window, 0) else found;
    bucket.(count := if bucket.count < U32_MAX then bucket.count + 1 else U32_MAX)
  }

  /** One call, with the pruning of the source (`pruning`) or without it. */
  function Step(buckets: Buckets, call: Call, pruning: bool): Outcome
  {
    var kept := if pruning && |buckets| > PRUNE_ABOVE then Prune(buckets, call.now) else buckets;
    var bucket := Charge(kept, call);
    Outcome(kept[call.key := bucket], bucket.count > call.limit)
  }

  class RateLimiter {
    var buckets: Buckets

    constructor ()
      ensures buckets == map[]
    {
      buckets := map[];
    }

    /** `rate_limit_hit`: true when the call is refused. */
    method RateLimitHit(key: string, limit: nat, window: nat, now: nat) returns (limited: bool)
      modifies this
      ensures Outcome(buckets, limited) == Step(old(buckets), Call(key, limit, window, now), true)
    {
      if |buckets| > PRUNE_ABOVE {
        buckets := Prune(buckets, now);
      }
      if key !in buckets {
        buckets := buckets[key := Bucket(now, window, 0)];
      }
      if Age(now, buckets[key].start) > window {
        buckets := buckets[key := Bucket(now, window, 0)];
      }
      var count := buckets[key].count;
      buckets := buckets[key := buckets[key].(count := if count < U32_MAX then count + 1 else U32_MAX)];
      limited := buckets[key].count > limit;
    }
  }

  // ----- runs

  ghost function After(calls: seq<Call>, pruning: bool): Buckets
  {
    if calls == [] then map[]
    else Step(After(calls[..|calls| - 1], pruning), calls[|calls| - 1], pruning).buckets
  }

  /** Whether the last call of the run is refused. */
  ghost predicate LastLimited(calls: seq<Call>, pruning: bool)
    requires calls != []
  {
    Step(After(calls[..|calls| - 1], pruning), calls[|calls| - 1], pruning).limited
  }

  ghost predicate NonDecreasing(calls: seq<Call>)
  {
    forall i, j :: 0 <= i < j < |calls| ==> calls[i].now <= calls[j].now
  }

  /** Every key is always used with the one window `windowOf` gives it. */
  ghost predicate OneWindowPerKey(calls: seq<Call>, windowOf: string -> nat)
  {
    forall i :: 0 <= i < |calls| ==> calls[i].window == windowOf(calls[i].key)
  }

  // ----- pruning is invisible

  /** The pruned table lacks only buckets that the next call to their key would reset anyway. */
  ghost predicate Similar(pruned: Buckets, full: Buckets, now: nat, windowOf: string -> nat)
  {
    && (forall key :: key in pruned ==> key in full && pruned[key] == full[key])
    && (forall key :: key in full ==> full[key].start <= now && full[key].window == windowOf(key))
    && (forall key :: key in full && key !in pruned ==> now - full[key].start > windowOf(key))
  }

  lemma StepSimilar(pruned: Buckets, full: Buckets, call: Call, before: nat, windowOf: string -> nat)
    requires Similar(pruned, full, before, windowOf)
    requires before <= call.now && call.window == windowOf(call.key)
    ensures Similar(Step(pruned, call, true).buckets, Step(full, call, false).buckets, call.now, windowOf)
    ensures Step(pruned, call, true).limited == Step(full, call, false).limited
  {
    var kept := if |pruned| > PRUNE_ABOVE then Prune(pruned, call.now) else pruned;
    assert Similar(kept, full, call.now, windowOf);
    assert Charge(kept, call) == Charge(full, call);
  }

  lemma {:induction false} RunSimilar(calls: seq<Call>, windowOf: string -> nat)
    requires NonDecreasing(calls) && OneWindowPerKey(calls, windowOf)
    ensures Similar(After(calls, true), After(calls, false),
                    if calls == [] then 0 else calls[|calls| - 1].now, windowOf)
    ensures calls != [] ==> LastLimited(calls, true) == LastLimited(calls, false)
    decreases |calls|
  {
    if calls != [] {
      var front := calls[..|calls| - 1];
      RunSimilar(front, windowOf);
      var before := if front == [] then 0 else front[|front| - 1].now;
      StepSimilar(After(front, true), After(front, false), calls[|calls| - 1], before, windowOf);
    }
  }

  /** The pruned and the never-pruned limiter answer every call of every run alike. */
  lemma PruningInvisible(calls: seq<Call>, windowOf: string -> nat)
    requires NonDecreasing(calls) && OneWindowPerKey(calls, windowOf)
    ensures forall n :: 0 < n <= |calls| ==> LastLimited(calls[..n], true) == LastLimited(calls[..n], false)
  {
    forall n | 0 < n <= |calls|
      ensures LastLimited(calls[..n], true) == LastLimited(calls[..n], false)
    {
      RunSimilar(calls[..n], windowOf);
    }
  }

  // ----- the bound on accepted calls

  /** Accepted calls of `key` with a clock value from `lo` to `hi`. */
  ghost function Accepted(calls: seq<Call>, key: string, lo: nat, hi: nat, pruning: bool): nat
  {
    if calls == [] then 0
    else
      var last := calls[|calls| - 1];
      Accepted(calls[..|calls| - 1], key, lo, hi, pruning)
      + if last.key == key && lo <= last.now <= hi && !LastLimited(calls, pruning) then 1 else 0
  }

  /** The key's calls use limits up to `limit` (not all the same one, perhaps) and one window. */
  ghost predicate UsesLimitsUpTo(calls: seq<Call>, key: string, limit: nat, window: nat)
  {
    forall i :: 0 <= i < |calls| && calls[i].key == key ==> calls[i].limit <= limit && calls[i].window == window
  }

  function Min(x: int, y: int): int { if x <= y then x else y }

  /**
   The invariant of a run for an interval of length `window` that starts at `lo`: the interval
   meets at most two buckets, and the call that opened the first of them lies before it.
   */
  ghost predicate Budget(bucket: Bucket, accepted: nat, limit: nat, window: nat, lo: nat)
    requires limit > 0
  {
    && bucket.count >= 1
    && (bucket.start < lo ==> accepted <= Min(bucket.count, limit) - 1)
    && (lo <= bucket.start <= lo + window ==> accepted <= limit - 1 + Min(bucket.count, limit))
    && (bucket.start > lo + window ==> accepted <= 2 * limit - 1)
  }

  lemma ChargeKeepsBudget(found: Bucket, call: Call, accepted: nat, limit: nat, lo: nat)
    requires call.limit <= limit && 0 < limit < U32_MAX && found.start <= call.now
    requires Budget(found, accepted, limit, call.window, lo)
    requires call.now < lo ==> accepted == 0
    ensures var bucket := Charge(map[call.key := found], call);
            var counted := if lo <= call.now <= lo + call.window && bucket.count <= call.limit then 1 else 0;
            Budget(bucket, accepted + counted, limit, call.window, lo)
  {
  }

  lemma {:induction false} RunBudget(calls: seq<Call>, key: string, limit: nat, window: nat, lo: nat)
    requires NonDecreasing(calls) && UsesLimitsUpTo(calls, key, limit, window)
    requires 0 < limit < U32_MAX
    ensures var accepted := Accepted(calls, key, lo, lo + window, false);
            && (calls == [] || calls[|calls| - 1].now < lo ==> accepted == 0)
            && (if key in After(calls, false)
                then After(calls, false)[key].start <= calls[|calls| - 1].now
                     && Budget(After(calls, false)[key], accepted, limit, window, lo)
                else accepted == 0)
    decreases |calls|
  {
    if calls != [] {
      var front, last := calls[..|calls| - 1], calls[|calls| - 1];
      RunBudget(front, key, limit, window, lo);
      var full, accepted := After(front, false), Accepted(front, key, lo, lo + window, false);
      assert front != [] ==> front[|front| - 1].now <= last.now;
      if last.key == key && key in full {
        assert Charge(full, last) == Charge(map[key := full[key]], last);
        ChargeKeepsBudget(full[key], last, accepted, limit, lo);
      }
    }
  }

  lemma {:induction false} NoLimitNoCalls(calls: seq<Call>, key: string, window: nat, lo: nat, hi: nat)
    requires UsesLimitsUpTo(calls, key, 0, window)
    ensures Accepted(calls, key, lo, hi, false) == 0
    decreases |calls|
  {
    if calls != [] { NoLimitNoCalls(calls[..|calls| - 1], key, window, lo, hi); }
  }

  lemma {:induction false} SameAnswersSameCount(
        calls: seq<Call>, key: string, lo: nat, hi: nat, windowOf: string -> nat)
    requires NonDecreasing(calls) && OneWindowPerKey(calls, windowOf)
    ensures Accepted(calls, key, lo, hi, true) == Accepted(calls, key, lo, hi, false)
    decreases |calls|
  {
    if calls != [] {
      RunSimilar(calls, windowOf);
      SameAnswersSameCount(calls[..|calls| - 1], key, lo, hi, windowOf);
    }
  }

  /**
   A key that is always used with one window and limits up to `limit`: any interval of length
   `window` (both ends included) contains fewer than 2·limit accepted calls, none when the
   limit is 0.
   */
  lemma FewerThanTwiceTheLimit(calls: seq<Call>, key: string, limit: nat, window: nat, lo: nat, windowOf: string -> nat)
    requires NonDecreasing(calls) && OneWindowPerKey(calls, windowOf)
    requires UsesLimitsUpTo(calls, key, limit, window) && limit < U32_MAX
    ensures Accepted(calls, key, lo, lo + window, true) <= if limit == 0 then 0 else 2 * limit - 1
  {
    SameAnswersSameCount(calls, key, lo, lo + window, windowOf);
    if limit == 0 {
      NoLimitNoCalls(calls, key, window, lo, lo + window);
    } else {
      RunBudget(calls, key, limit, window, lo);
    }
  }

  /** The limit must be below the 32-bit maximum: at the maximum the counter saturates and never exceeds it. */
  lemma MaximalLimitNeverLimits(buckets: Buckets, call: Call, pruning: bool)
    requires call.limit == U32_MAX
    requires forall key :: key in buckets ==> buckets[key].count <= U32_MAX
    ensures !Step(buckets, call, pruning).limited
  {
    var kept := if pruning && |buckets| > PRUNE_ABOVE then Prune(buckets, call.now) else buckets;
    assert call.key in kept ==> kept[call.key].count <= U32_MAX;
  }

  /** `n` calls at one clock value. */
  ghost function Burst(key: string, limit: nat, window: nat, n: nat): seq<Call>
  {
    seq(n, i => Call(key, limit, window, 0))
  }

  lemma {:induction false} CountsFitInU32(calls: seq<Call>, pruning: bool)
    ensures forall key :: key in After(calls, pruning) ==> After(calls, pruning)[key].count <= U32_MAX
    decreases |calls|
  {
    if calls != [] { CountsFitInU32(calls[..|calls| - 1], pruning); }
  }

  lemma {:induction false} BurstIsAccepted(key: string, window: nat, n: nat)
    ensures Accepted(Burst(key, U32_MAX, window, n), key, 0, window, true) == n
    decreases n
  {
    if n > 0 {
      var calls := Burst(key, U32_MAX, window, n);
      var front := calls[..n - 1];
      assert front == Burst(key, U32_MAX, window, n - 1);
      BurstIsAccepted(key, window, n - 1);
      CountsFitInU32(front, true);
      MaximalLimitNeverLimits(After(front, true), calls[n - 1], true);
    }
  }

  // ----- who is not refused

  /** The calls of `key`, refused or not, with a clock value from `lo` on. */
  ghost function CallsSince(calls: seq<Call>, key: string, lo: nat): nat
  {
    if calls == [] then 0
    else
      var last := calls[|calls| - 1];
      CallsSince(calls[..|calls| - 1], key, lo) + if last.key == key && last.now >= lo then 1 else 0
  }

  lemma {:induction false} CallsSinceMonotone(calls: seq<Call>, key: string, lo: nat, hi: nat)
    requires lo <= hi
    ensures CallsSince(calls, key, hi) <= CallsSince(calls, key, lo)
    decreases |calls|
  {
    if calls != [] { CallsSinceMonotone(calls[..|calls| - 1], key, lo, hi); }
  }

  /** A bucket never counts more calls than there were since it opened. */
  lemma {:induction false} BucketCounts(calls: seq<Call>, key: string, windowOf: string -> nat)
    requires NonDecreasing(calls) && OneWindowPerKey(calls, windowOf)
    ensures key in After(calls, false) ==>
              var bucket := After(calls, false)[key];
              && bucket.start <= calls[|calls| - 1].now && bucket.window == windowOf(key)
              && bucket.count <= CallsSince(calls, key, bucket.start)
    decreases |calls|
  {
    if calls != [] {
      var front, last := calls[..|calls| - 1], calls[|calls| - 1];
      BucketCounts(front, key, windowOf);
      assert front != [] ==> front[|front| - 1].now <= last.now;
    }
  }

  /** The answer is in the bucket of the call, which is no older than the window. */
  lemma AnswerInBucket(buckets: Buckets, call: Call)
    requires call.key in buckets ==> buckets[call.key].start <= call.now
    ensures var after := Step(buckets, call, false);
            && call.key in after.buckets
            && (after.limited <==> after.buckets[call.key].count > call.limit)
            && after.buckets[call.key].start + call.window >= call.now
  {
  }

  ghost function WindowBack(call: Call): nat
  {
    if call.now < call.window then 0 else call.now - call.window
  }

  /** A call is not refused while its key has had at most `limit` calls, this one included, in the window up to now. */
  lemma NotRefusedWithinLimit(calls: seq<Call>, windowOf: string -> nat)
    requires calls != [] && NonDecreasing(calls) && OneWindowPerKey(calls, windowOf)
    requires var last := calls[|calls| - 1]; CallsSince(calls, last.key, WindowBack(last)) <= last.limit
    ensures !LastLimited(calls, true)
  {
    var front, last := calls[..|calls| - 1], calls[|calls| - 1];
    RunSimilar(calls, windowOf);
    BucketCounts(front, last.key, windowOf);
    BucketCounts(calls, last.key, windowOf);
    assert front != [] ==> front[|front| - 1].now <= last.now;
    AnswerInBucket(After(front, false), last);
    CallsSinceMonotone(calls, last.key, WindowBack(last), After(calls, false)[last.key].start);
  }

  lemma {:induction false} BurstCount(key: string, limit: nat, window: nat, n: nat)
    requires limit < U32_MAX
    ensures var calls := Burst(key, limit, window, n);
            && Accepted(calls, key, 0, window, false) == (if n < limit then n else limit)
            && (if n == 0 then After(calls, false) == map[]
                else After(calls, false) == map[key := Bucket(0, window, if n < U32_MAX then n else U32_MAX)])
    decreases n
  {
    if n > 0 {
      var calls := Burst(key, limit, window, n);
      assert calls[..n - 1] == Burst(key, limit, window, n - 1);
      BurstCount(key, limit, window, n - 1);
      BurstStep(After(calls[..n - 1], false), calls[n - 1], n - 1);
    }
  }

  /** The bucket of a burst after `n` calls, and the answer to the next one. */
  lemma BurstStep(buckets: Buckets, call: Call, n: nat)
    requires call.now == 0 && call.limit < U32_MAX
    requires buckets ==
             if n == 0 then map[] else map[call.key := Bucket(0, call.window, if n < U32_MAX then n else U32_MAX)]
    ensures Step(buckets, call, false).buckets
         == map[call.key := Bucket(0, call.window, if n + 1 < U32_MAX then n + 1 else U32_MAX)]
    ensures Step(buckets, call, false).limited <==> n >= call.limit
  {
    assert Charge(buckets, call).count == if n + 1 < U32_MAX then n + 1 else U32_MAX;
  }

  /** Of `n` calls at one moment exactly the first `limit` are accepted. */
  lemma BurstExact(key: string, limit: nat, window: nat, n: nat)
    requires limit < U32_MAX
    ensures Accepted(Burst(key, limit, window, n), key, 0, window, true) == if n < limit then n else limit
  {
    BurstCount(key, limit, window, n);
    SameAnswersSameCount(Burst(key, limit, window, n), key, 0, window, _ => window);
  }

  ghost predicate Regular(calls: seq<Call>, key: string, limit: nat, window: nat, windowOf: string -> nat)
  {
    NonDecreasing(calls) && OneWindowPerKey(calls, windowOf) && UsesLimitsUpTo(calls, key, limit, window)
  }

  ghost predicate WithinBound(calls: seq<Call>, key: string, limit: nat, window: nat, lo: nat)
  {
    Accepted(calls, key, lo, lo + window, true) <= if limit == 0 then 0 else 2 * limit - 1
  }

  /** Every interval of every run of a key with limits up to `limit` holds fewer than 2·limit accepted calls. */
  ghost predicate Bounded(limit: nat)
  {
    forall calls, key, window: nat, lo: nat, windowOf ::
      Regular(calls, key, limit, window, windowOf) ==> WithinBound(calls, key, limit, window, lo)
  }

  lemma BurstExceeds(windowOf: string -> nat)
    requires windowOf("") == 0
    ensures Regular(Burst("", U32_MAX, 0, 2 * U32_MAX), "", U32_MAX, 0, windowOf)
    ensures !WithinBound(Burst("", U32_MAX, 0, 2 * U32_MAX), "", U32_MAX, 0, 0)
  {
    BurstIsAccepted("", 0, 2 * U32_MAX);
  }

  /** Among the limits a 32-bit word can hold, exactly the maximal one bounds nothing. */
  lemma BoundedIff(limit: nat)
    requires limit <= U32_MAX
    ensures Bounded(limit) <==> limit < U32_MAX
  {
    if limit < U32_MAX {
      forall calls, key, window: nat, lo: nat, windowOf | Regular(calls, key, limit, window, windowOf)
        ensures WithinBound(calls, key, limit, window, lo)
      {
        FewerThanTwiceTheLimit(calls, key, limit, window, lo, windowOf);
      }
    } else {
      BurstExceeds((key: string) => 0);
    }
  }
}
