/** The token bucket that limits transmissions (src/digipeater/mod.rs), over exact reals and an
    explicit clock in seconds. */
module RateLimiting {
  import opened Clock

  datatype Bucket = Bucket(tokens: real, maxTokens: real, refillRate: real, lastRefill: real)

  function NewBucket(maxPerMinute: real, burst: real, now: real): Bucket {
    Bucket(burst, burst, maxPerMinute / 60.0, now)
  }

  function Min(x: real, y: real): real {
    if x <= y then x else y
  }

  function Refill(b: Bucket, now: real): Bucket {
    b.(tokens := Min(b.tokens + ElapsedSeconds(now, b.lastRefill) * b.refillRate, b.maxTokens), lastRefill := now)
  }

  predicate Grants(b: Bucket, now: real) {
    Refill(b, now).tokens >= 1.0
  }

  function Consume(b: Bucket, now: real): Bucket {
    var r := Refill(b, now);
    if Grants(b, now) then r.(tokens := r.tokens - 1.0) else r
  }

  class RateLimiter {
    var tokens: real
    var maxTokens: real
    var refillRate: real
    var lastRefill: real

    function Value(): Bucket
      reads this
    {
      Bucket(tokens, maxTokens, refillRate, lastRefill)
    }

    constructor (maxPerMinute: real, burst: real, now: real)
      ensures Value() == NewBucket(maxPerMinute, burst, now)
    {
      tokens := burst;
      maxTokens := burst;
      refillRate := maxPerMinute / 60.0;
      lastRefill := now;
    }

    method TryConsume(now: real) returns (granted: bool)
      modifies this
      ensures granted == Grants(old(Value()), now) && Value() == Consume(old(Value()), now)
    {
      RefillAt(now);
      if tokens >= 1.0 {
        tokens := tokens - 1.0;
        granted := true;
      } else {
        granted := false;
      }
    }

    method RefillAt(now: real)
      modifies this
      ensures Value() == Refill(old(Value()), now)
    {
      var elapsed := ElapsedSeconds(now, lastRefill);
      tokens := Min(tokens + elapsed * refillRate, maxTokens);
      lastRefill := now;
    }
  }

  // ----- Runs -----

  /** The bucket after attempts at the given times. */
  function After(b: Bucket, times: seq<real>): Bucket {
    if times == [] then b else Consume(After(b, times[..|times| - 1]), times[|times| - 1])
  }

  /** The number of attempts granted. */
  function Granted(b: Bucket, times: seq<real>): nat {
    if times == [] then 0
    else
      var before := times[..|times| - 1];
      Granted(b, before) + if Grants(After(b, before), times[|times| - 1]) then 1 else 0
  }

  /** A clock that never runs backwards, starting at t0. */
  predicate Monotone(t0: real, times: seq<real>) {
    && (forall i :: 0 <= i < |times| ==> t0 <= times[i])
    && forall i, j :: 0 <= i < j < |times| ==> times[i] <= times[j]
  }

  predicate InRange(b: Bucket) {
    0.0 <= b.tokens <= b.maxTokens && b.refillRate >= 0.0
  }

  lemma {:induction false} AfterShape(b: Bucket, times: seq<real>)
    ensures After(b, times).maxTokens == b.maxTokens && After(b, times).refillRate == b.refillRate
    ensures After(b, times).lastRefill == if times == [] then b.lastRefill else times[|times| - 1]
  {
    if times != [] {
      AfterShape(b, times[..|times| - 1]);
    }
  }

  lemma ProductNonNegative(x: real, y: real)
    requires x >= 0.0 && y >= 0.0
    ensures x * y >= 0.0
  {
  }

  lemma ConsumeInRange(b: Bucket, now: real)
    requires InRange(b)
    ensures InRange(Consume(b, now))
  {
    ProductNonNegative(ElapsedSeconds(now, b.lastRefill), b.refillRate);
  }

  lemma {:induction false} AfterInRange(b: Bucket, times: seq<real>)
    requires InRange(b)
    ensures InRange(After(b, times))
  {
    hide InRange, Consume;
    if times != [] {
      AfterInRange(b, times[..|times| - 1]);
      ConsumeInRange(After(b, times[..|times| - 1]), times[|times| - 1]);
    }
  }

  /** The tokens of a new limiter stay between 0 and the burst over every run, exactly when
      neither the burst nor the rate is negative; the constructor itself checks neither. */
  lemma TokensStayInRangeIff(maxPerMinute: real, burst: real, now: real)
    ensures burst >= 0.0 && maxPerMinute >= 0.0 <==>
            forall times :: Monotone(now, times) ==>
              0.0 <= After(NewBucket(maxPerMinute, burst, now), times).tokens <= burst
  {
    var b := NewBucket(maxPerMinute, burst, now);
    if burst >= 0.0 && maxPerMinute >= 0.0 {
      forall times ensures 0.0 <= After(b, times).tokens <= burst {
        AfterInRange(b, times);
        AfterShape(b, times);
      }
    } else if burst < 0.0 {
      assert After(b, []).tokens < 0.0 && Monotone(now, []);
    } else {
      var t := NegativeRate(b);
      assert [t][..0] == [];
      assert After(b, [t]) == Consume(b, t);
      assert Monotone(now, [t]);
    }
  }

  lemma NegativeRate(b: Bucket) returns (t: real)
    requires b.refillRate < 0.0 && 0.0 <= b.tokens == b.maxTokens
    ensures t >= b.lastRefill && Consume(b, t).tokens < 0.0
  {
    var wait := (b.tokens + 1.0) / -b.refillRate;
    assert wait * b.refillRate == -(b.tokens + 1.0);
    assert wait >= 0.0;
    t := b.lastRefill + wait;
  }

  /** What a rate earns between two times. */
  function Earned(rate: real, from: real, to: real): real {
    (to - from) * rate
  }

  lemma Distribute(r: real, a: real, b: real, c: real)
    ensures Earned(r, a, c) == Earned(r, a, b) + Earned(r, b, c) && Earned(r, a, a) == 0.0
  {
  }

  // ----- The window bound -----

  /** Tokens are conserved: what is granted and what is left come from the first refill and the
      time since. */
  lemma {:induction false} Conservation(b: Bucket, times: seq<real>)
    requires InRange(b) && times != [] && Monotone(b.lastRefill, times)
    ensures var last := times[|times| - 1];
            Granted(b, times) as real + After(b, times).tokens
            <= Refill(b, times[0]).tokens + Earned(b.refillRate, times[0], last)
    decreases |times|
  {
    hide InRange, Consume, Refill, Grants, Earned;
    var n := |times| - 1;
    var before := times[..n];
    if n > 0 {
      Conservation(b, before);
      AfterShape(b, before);
      ConsumeTokens(After(b, before), times[n]);
      Distribute(b.refillRate, times[0], times[n - 1], times[n]);
    } else {
      assert before == [];
      Distribute(b.refillRate, times[0], times[0], times[0]);
      ConsumeTokens(b, times[0]);
    }
  }

  lemma ConsumeTokens(b: Bucket, now: real)
    requires now >= b.lastRefill
    ensures var grant := if Grants(b, now) then 1.0 else 0.0;
            && Consume(b, now).tokens + grant == Refill(b, now).tokens
            && Refill(b, now).tokens <= b.tokens + Earned(b.refillRate, b.lastRefill, now)
            && Refill(b, now).tokens <= b.maxTokens
  {
  }

  lemma {:induction false} RunConcat(b: Bucket, s: seq<real>, t: seq<real>)
    ensures After(b, s + t) == After(After(b, s), t)
    ensures Granted(b, s + t) == Granted(b, s) + Granted(After(b, s), t)
    decreases |t|
  {
    hide Consume, Grants;
    if t == [] {
      assert s + t == s;
    } else {
      var n := |t| - 1;
      RunConcat(b, s, t[..n]);
      assert (s + t)[..|s + t| - 1] == s + t[..n];
    }
  }

  /** Rate limit: in any window of any run, attempts i to j together are granted at most the
      burst plus the rate times the length of the window. */
  lemma WindowBound(b: Bucket, times: seq<real>, i: nat, j: nat)
    requires InRange(b) && Monotone(b.lastRefill, times) && i <= j < |times|
    ensures (Granted(b, times[..j + 1]) - Granted(b, times[..i])) as real
            <= b.maxTokens + Earned(b.refillRate, times[i], times[j])
  {
    hide InRange, Refill, Consume, Grants, Monotone, Earned, Granted, After;
    var start, window := After(b, times[..i]), times[i..j + 1];
    assert times[..j + 1] == times[..i] + window;
    assert window[|window| - 1] == times[j];
    RunConcat(b, times[..i], window);
    AfterInRange(b, times[..i]);
    AfterShape(b, times[..i]);
    MonotoneWindow(b.lastRefill, times, i, j);
    Conservation(start, window);
    ConsumeTokens(start, window[0]);
    AfterInRange(start, window);
    RangeIsNonNegative(After(start, window));
  }

  lemma MonotoneWindow(t0: real, times: seq<real>, i: nat, j: nat)
    requires Monotone(t0, times) && i <= j < |times|
    ensures var start := if i == 0 then t0 else times[..i][i - 1];
            start <= times[i] && Monotone(start, times[i..j + 1])
  {
  }

  lemma RangeIsNonNegative(b: Bucket)
    requires InRange(b)
    ensures b.tokens >= 0.0
  {
  }

  // ----- Denied attempts -----

  /** A refill may be split at any time in between. */
  lemma RefillSplits(b: Bucket, t: real, u: real)
    requires b.refillRate >= 0.0 && b.lastRefill <= t <= u
    ensures Refill(Refill(b, t), u) == Refill(b, u)
  {
    Distribute(b.refillRate, b.lastRefill, t, u);
    ProductNonNegative(t - b.lastRefill, b.refillRate);
    ProductNonNegative(u - t, b.refillRate);
  }

  /** The times of a run at which an attempt was granted. */
  function GrantedTimes(b: Bucket, times: seq<real>): seq<real> {
    if times == [] then []
    else
      var before, last := times[..|times| - 1], times[|times| - 1];
      GrantedTimes(b, before) + if Grants(After(b, before), last) then [last] else []
  }

  /** Leaving out every denied attempt changes no answer: the run of the granted times alone
      grants all of them, and any later attempt finds the same tokens after both runs. */
  lemma {:induction false} DeniedAttemptsDoNotMatter(b: Bucket, times: seq<real>, now: real)
    requires b.refillRate >= 0.0 && Monotone(b.lastRefill, times + [now])
    ensures Granted(b, GrantedTimes(b, times)) == |GrantedTimes(b, times)|
    ensures Refill(After(b, GrantedTimes(b, times)), now) == Refill(After(b, times), now)
    decreases |times|
  {
    hide Refill, Monotone, Consume;
    if times != [] {
      var n := |times| - 1;
      var before, last := times[..n], times[n];
      assert times + [now] == before + [last] + [now];
      MonotoneParts(b.lastRefill, before, last, now);
      DeniedAttemptsDoNotMatter(b, before, last);
      var kept := GrantedTimes(b, before);
      if Grants(After(b, before), last) {
        assert (kept + [last])[..|kept|] == kept;
        SameRefillSameStep(After(b, before), After(b, kept), last);
      } else {
        assert GrantedTimes(b, times) == kept;
        DeniedIsRefill(After(b, before), last);
        GrantedTimesPast(b, before, last);
        AfterShape(b, before);
        AfterShape(b, kept);
        RefillSplits(After(b, before), last, now);
        RefillSplits(After(b, kept), last, now);
      }
    }
  }

  lemma SameRefillSameStep(b: Bucket, c: Bucket, now: real)
    requires Refill(b, now) == Refill(c, now)
    ensures Grants(b, now) == Grants(c, now) && Consume(b, now) == Consume(c, now)
  {
  }

  lemma DeniedIsRefill(b: Bucket, now: real)
    requires !Grants(b, now)
    ensures Consume(b, now) == Refill(b, now)
  {
  }

  lemma MonotoneParts(t0: real, before: seq<real>, last: real, now: real)
    requires Monotone(t0, before + [last] + [now])
    ensures Monotone(t0, before + [last]) && t0 <= last <= now
    ensures forall i :: 0 <= i < |before| ==> before[i] <= last
  {
    var all, some := before + [last] + [now], before + [last];
    assert all[|before|] == last && all[|before| + 1] == now;
    assert forall i :: 0 <= i < |some| ==> all[i] == some[i];
    assert forall i :: 0 <= i < |before| ==> some[i] == before[i];
  }

  lemma {:induction false} GrantedTimesPast(b: Bucket, times: seq<real>, now: real)
    requires b.lastRefill <= now && forall i :: 0 <= i < |times| ==> times[i] <= now
    ensures After(b, times).lastRefill <= now && After(b, GrantedTimes(b, times)).lastRefill <= now
    ensures forall i :: 0 <= i < |GrantedTimes(b, times)| ==> GrantedTimes(b, times)[i] <= now
  {
    hide Grants, Consume;
    if times != [] {
      GrantedTimesPast(b, times[..|times| - 1], now);
    }
    AfterShape(b, times);
    AfterShape(b, GrantedTimes(b, times));
  }

  // ----- Spaced callers -----

  /** Time enough between two attempts for one token. */
  predicate Gap(rate: real, earlier: real, later: real) {
    earlier <= later && (later - earlier) * rate >= 1.0
  }

  /** Attempts far enough apart for one token each. */
  predicate Spaced(rate: real, times: seq<real>) {
    forall i :: 0 <= i < |times| - 1 ==> Gap(rate, times[i], times[i + 1])
  }

  lemma {:induction false} SpacedRun(b: Bucket, times: seq<real>)
    requires 1.0 <= b.tokens <= b.maxTokens && InRange(b) && Spaced(b.refillRate, times)
    requires times != [] ==> b.lastRefill <= times[0]
    ensures Granted(b, times) == |times| && After(b, times).tokens >= 0.0
    decreases |times|
  {
    hide InRange, Consume, Grants, Refill;
    if times != [] {
      var n := |times| - 1;
      var before := times[..n];
      SpacedBefore(b.refillRate, times);
      SpacedRun(b, before);
      AfterShape(b, before);
      AfterInRange(b, before);
      SpacedStep(After(b, before), times[n]);
    }
  }

  lemma SpacedBefore(rate: real, times: seq<real>)
    requires Spaced(rate, times) && times != []
    ensures var n := |times| - 1;
            && Spaced(rate, times[..n])
            && (n > 0 ==> Gap(rate, times[..n][n - 1], times[n]))
  {
    var n := |times| - 1;
    var before := times[..n];
    forall i | 0 <= i < |before| - 1 ensures Gap(rate, before[i], before[i + 1]) {
      assert Gap(rate, times[i], times[i + 1]);
    }
    if n > 0 {
      assert Gap(rate, times[n - 1], times[n - 1 + 1]);
    }
  }

  lemma SpacedStep(b: Bucket, now: real)
    requires InRange(b) && b.maxTokens >= 1.0 && b.lastRefill <= now
    requires b.tokens >= 1.0 || (now - b.lastRefill) * b.refillRate >= 1.0
    ensures Grants(b, now) && Consume(b, now).tokens >= 0.0
  {
    ProductNonNegative(now - b.lastRefill, b.refillRate);
  }

  lemma {:induction false} EmptyBucketDenies(b: Bucket, times: seq<real>)
    requires b.maxTokens < 1.0
    ensures Granted(b, times) == 0
  {
    if times != [] {
      EmptyBucketDenies(b, times[..|times| - 1]);
      AfterShape(b, times[..|times| - 1]);
    }
  }

  /** A caller who leaves at least 1/rate between attempts is never denied, exactly when the
      burst admits a whole token; otherwise no one ever gets through. */
  lemma SpacedCallersPassIff(maxPerMinute: real, burst: real, now: real, times: seq<real>)
    requires maxPerMinute >= 0.0 && times != [] && now <= times[0]
    requires Spaced(maxPerMinute / 60.0, times)
    ensures Granted(NewBucket(maxPerMinute, burst, now), times) == |times| <==> burst >= 1.0
  {
    var b := NewBucket(maxPerMinute, burst, now);
    if burst >= 1.0 {
      SpacedRun(b, times);
    } else {
      EmptyBucketDenies(b, times);
    }
  }
}
