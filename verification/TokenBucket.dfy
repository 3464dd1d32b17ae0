/** The token bucket that throttles Fabric events. */
module TokenBucket {

  datatype Bucket = Bucket(tokens: real, updated: real)

  function Refill(rate: real, elapsed: real): real { elapsed * rate }

  /** Refill for the time elapsed, capped at the rate. */
  function Refilled(rate: real, b: Bucket, now: real): real {
    var t := b.tokens + Refill(rate, now - b.updated);
    if t > rate then rate else t
  }

  predicate Grants(rate: real, b: Bucket, now: real) { Refilled(rate, b, now) >= 1.0 }

  function Acquired(rate: real, b: Bucket, now: real): Bucket {
    Bucket(Refilled(rate, b, now) - if Grants(rate, b, now) then 1.0 else 0.0, now)
  }

  class Throttle {
    const rate: real
    var tokens: real
    var updated: real

    ghost function View(): Bucket
      reads this
    {
      Bucket(tokens, updated)
    }

    constructor (rate: real, now: real)
      ensures this.rate == rate && View() == Bucket(rate, now)
    {
      this.rate := rate;
      tokens, updated := rate, now;
    }

    method Acquire(now: real) returns (granted: bool)
      modifies this
      ensures granted == Grants(rate, old(View()), now) && View() == Acquired(rate, old(View()), now)
    {
      var elapsed := now - updated;
      tokens := tokens + elapsed * rate;
      if tokens > rate {
        tokens := rate;
      }
      updated := now;
      if tokens >= 1.0 {
        tokens := tokens - 1.0;
        return true;
      }
      return false;
    }
  }

  // ---------------------------------------------------------------- runs

  /** The bucket after calls at the given times, full at its creation. */
  function Run(rate: real, created: real, times: seq<real>): Bucket {
    if times == [] then Bucket(rate, created)
    else Acquired(rate, Run(rate, created, times[..|times| - 1]), times[|times| - 1])
  }

  /** Grants among the calls made from s to t. */
  function GrantsBetween(rate: real, created: real, times: seq<real>, s: real, t: real): nat {
    if times == [] then 0
    else
      var init, now := times[..|times| - 1], times[|times| - 1];
      GrantsBetween(rate, created, init, s, t)
      + if s <= now <= t && Grants(rate, Run(rate, created, init), now) then 1 else 0
  }

  /** A monotonic clock. */
  ghost predicate Monotonic(created: real, times: seq<real>) {
    && (forall i :: 0 <= i < |times| ==> created <= times[i])
    && (forall i, j :: 0 <= i < j < |times| ==> times[i] <= times[j])
  }

  lemma MonotonicInit(created: real, times: seq<real>)
    requires Monotonic(created, times) && times != []
    ensures var init := times[..|times| - 1];
            && Monotonic(created, init)
            && (if init == [] then created else init[|init| - 1]) <= times[|times| - 1]
  {
  }

  lemma {:induction false} UpdatedAt(rate: real, created: real, times: seq<real>)
    ensures Run(rate, created, times).updated == if times == [] then created else times[|times| - 1]
  {
  }

  /** A second of waiting buys `rate` tokens. */
  lemma RefillIsRate(rate: real, elapsed: real)
    ensures Refill(rate, elapsed) == rate * elapsed
  {
  }

  lemma RefillNonNegative(rate: real, elapsed: real)
    requires rate >= 0.0 && elapsed >= 0.0
    ensures Refill(rate, elapsed) >= 0.0
  {
  }

  lemma AcquiredInRange(rate: real, b: Bucket, now: real)
    requires rate >= 0.0 && 0.0 <= b.tokens <= rate && b.updated <= now
    ensures 0.0 <= Acquired(rate, b, now).tokens <= rate
  {
    RefillNonNegative(rate, now - b.updated);
  }

  /** Tokens stay between zero and the rate, over every run. */
  lemma {:induction false} TokensInRange(rate: real, created: real, times: seq<real>)
    requires rate >= 0.0 && Monotonic(created, times)
    ensures 0.0 <= Run(rate, created, times).tokens <= rate
  {
    if times != [] {
      var init := times[..|times| - 1];
      MonotonicInit(created, times);
      TokensInRange(rate, created, init);
      UpdatedAt(rate, created, init);
      AcquiredInRange(rate, Run(rate, created, init), times[|times| - 1]);
    }
  }

  /** Grants from s on, plus the tokens left, are paid for by one full bucket and the refill since s. */
  ghost predicate PaidFor(rate: real, b: Bucket, grants: nat, s: real) {
    if b.updated < s then grants == 0
    else grants as real + b.tokens <= rate + Refill(rate, b.updated - s)
  }

  lemma PaidForStep(rate: real, b: Bucket, grants: nat, s: real, now: real)
    requires rate >= 0.0 && b.updated <= now && PaidFor(rate, b, grants, s)
    ensures PaidFor(rate, Acquired(rate, b, now), grants + if s <= now && Grants(rate, b, now) then 1 else 0, s)
  {
    if s <= now {
      RefillNonNegative(rate, now - s);
      if b.updated >= s {
        SplitSpan(rate, s, b.updated, now);
      }
    }
  }

  lemma {:induction false} RunPaidFor(rate: real, created: real, times: seq<real>, s: real, t: real)
    requires rate >= 0.0 && Monotonic(created, times)
    requires forall i :: 0 <= i < |times| ==> times[i] <= t
    ensures PaidFor(rate, Run(rate, created, times), GrantsBetween(rate, created, times, s, t), s)
  {
    if times == [] {
      if created >= s { RefillNonNegative(rate, created - s); }
    } else {
      var init := times[..|times| - 1];
      MonotonicInit(created, times);
      RunPaidFor(rate, created, init, s, t);
      UpdatedAt(rate, created, init);
      PaidForStep(rate, Run(rate, created, init), GrantsBetween(rate, created, init, s, t), s, times[|times| - 1]);
    }
  }

  /** The bound over whole runs: between s and t at most rate * (t - s) + rate calls are granted. */
  lemma {:induction false} GrantsBound(rate: real, created: real, times: seq<real>, s: real, t: real)
    requires rate >= 0.0 && Monotonic(created, times) && s <= t
    ensures GrantsBetween(rate, created, times, s, t) as real <= rate * (t - s) + rate
  {
    if times != [] && times[|times| - 1] > t {
      MonotonicInit(created, times);
      GrantsBound(rate, created, times[..|times| - 1], s, t);
    } else {
      RunPaidFor(rate, created, times, s, t);
      TokensInRange(rate, created, times);
      UpdatedAt(rate, created, times);
      FinalBound(rate, Run(rate, created, times), GrantsBetween(rate, created, times, s, t), s, t);
    }
  }

  lemma FinalBound(rate: real, b: Bucket, grants: nat, s: real, t: real)
    requires rate >= 0.0 && b.tokens >= 0.0 && s <= t && (b.updated <= t || grants == 0) && PaidFor(rate, b, grants, s)
    ensures grants as real <= rate * (t - s) + rate
  {
    RefillIsRate(rate, t - s);
    RefillNonNegative(rate, t - s);
    if s <= b.updated <= t {
      RefillNonNegative(rate, t - b.updated);
      SplitSpan(rate, s, b.updated, t);
    }
  }

  lemma SplitSpan(rate: real, s: real, m: real, t: real)
    ensures Refill(rate, t - s) == Refill(rate, m - s) + Refill(rate, t - m)
  {
  }

  /** A rate below one never grants anything. */
  lemma {:induction false} SlowBucketNeverGrants(rate: real, created: real, times: seq<real>, s: real, t: real)
    requires rate < 1.0
    ensures GrantsBetween(rate, created, times, s, t) == 0
  {
    if times != [] {
      SlowBucketNeverGrants(rate, created, times[..|times| - 1], s, t);
    }
  }

  /** A caller that leaves one refill interval between calls is always served. */
  lemma SpacedCallGranted(rate: real, created: real, times: seq<real>, now: real)
    requires rate >= 1.0 && Monotonic(created, times)
    requires rate * (now - if times == [] then created else times[|times| - 1]) >= 1.0
    ensures Grants(rate, Run(rate, created, times), now)
  {
    TokensInRange(rate, created, times);
    UpdatedAt(rate, created, times);
    GrantedAfter(rate, Run(rate, created, times), now, now - if times == [] then created else times[|times| - 1]);
  }

  lemma GrantedAfter(rate: real, b: Bucket, now: real, gap: real)
    requires rate >= 1.0 && b.tokens >= 0.0 && gap == now - b.updated && rate * gap >= 1.0
    ensures Grants(rate, b, now)
  {
    RefillIsRate(rate, gap);
  }

  function Repeated(t: real, n: nat): seq<real> {
    if n == 0 then [] else Repeated(t, n - 1) + [t]
  }

  lemma AcquiredAtOnce(rate: real, b: Bucket)
    requires b.tokens <= rate
    ensures Grants(rate, b, b.updated) <==> b.tokens >= 1.0
    ensures Acquired(rate, b, b.updated) == if b.tokens >= 1.0 then b.(tokens := b.tokens - 1.0) else b
  {
    assert Refill(rate, b.updated - b.updated) == 0.0;
  }

  function Min(a: int, b: int): int { if a <= b then a else b }

  lemma OneToken(rate: real, n: nat)
    requires rate >= 0.0
    ensures rate - Min(n, rate.Floor) as real >= 1.0 <==> n < rate.Floor
    ensures n < rate.Floor ==> Min(n + 1, rate.Floor) as real == Min(n, rate.Floor) as real + 1.0
  {
    assert rate.Floor as real <= rate < rate.Floor as real + 1.0;
    if n < rate.Floor { assert n as real + 1.0 == (n + 1) as real <= rate.Floor as real; }
  }

  /** A full bucket holds its rate: of calls made at its creation, the whole tokens of the rate are granted, and no more. */
  lemma {:induction false} FullBucketBurst(rate: real, created: real, n: nat)
    requires rate >= 0.0
    ensures Run(rate, created, Repeated(created, n)) == Bucket(rate - Min(n, rate.Floor) as real, created)
    ensures GrantsBetween(rate, created, Repeated(created, n), created, created) == Min(n, rate.Floor)
  {
    assert rate.Floor >= 0;
    if n > 0 {
      FullBucketBurst(rate, created, n - 1);
      var times, before := Repeated(created, n), Bucket(rate - Min(n - 1, rate.Floor) as real, created);
      assert times[..|times| - 1] == Repeated(created, n - 1) && times[|times| - 1] == created;
      OneToken(rate, n - 1);
      AcquiredAtOnce(rate, before);
    }
  }
}
