/** The retry policy: normalisation and the exponential delay between attempts. */
module Backoff {
  import opened Prelude

  // time.Duration and int32 as machine integers: every operation below is checked not to wrap.
  newtype Duration = d: int | -0x8000_0000_0000_0000 <= d <= 0x7fff_ffff_ffff_ffff
  newtype Int32 = i: int | -0x8000_0000 <= i <= 0x7fff_ffff

  datatype RetryPolicy = RetryPolicy(initialDelay: Duration, maxDelay: Duration)

  /** Fills in the defaults and raises the ceiling to the initial delay. */
  function Normalize(p: RetryPolicy): (r: RetryPolicy)
    ensures 0 < r.initialDelay <= r.maxDelay
    ensures 0 < p.initialDelay <= p.maxDelay ==> r == p
    ensures p.initialDelay as int <= 0 ==> r.initialDelay as int == 2 * SECOND
    ensures p.initialDelay as int > 0 ==> r.initialDelay == p.initialDelay
    ensures p.maxDelay as int <= 0 ==> r.maxDelay as int == Max(30 * SECOND, r.initialDelay as int)
    ensures p.maxDelay as int > 0 ==> r.maxDelay as int == Max(p.maxDelay as int, r.initialDelay as int)
  {
    var initial := if p.initialDelay <= 0 then 2_000_000_000 else p.initialDelay;
    var ceiling := if p.maxDelay <= 0 then 30_000_000_000 else p.maxDelay;
    RetryPolicy(initial, if ceiling < initial then initial else ceiling)
  }

  /** The uncapped exponential, doubling with every attempt after the first. */
  function Exponential(p: RetryPolicy, n: int): (r: int)
    ensures r >= Normalize(p).initialDelay as int
  {
    if n <= 1 then Normalize(p).initialDelay as int else 2 * Exponential(p, n - 1)
  }

  function Pow2(n: nat): int {
    if n == 0 then 1 else 2 * Pow2(n - 1)
  }

  /** Its closed form: InitialDelay * 2^(n-1). */
  lemma {:induction false} ExponentialClosedForm(p: RetryPolicy, n: int)
    requires n >= 1
    ensures Exponential(p, n) == Normalize(p).initialDelay as int * Pow2(n - 1)
  {
    if n > 1 {
      ExponentialClosedForm(p, n - 1);
      var x, y := Normalize(p).initialDelay as int, Pow2(n - 2);
      assert x * (2 * y) == 2 * (x * y);
    }
  }

  /** What the documentation promises: the exponential, cut off at MaxDelay. */
  function CappedDelay(p: RetryPolicy, n: int): int {
    Min(Normalize(p).maxDelay as int, Exponential(p, n))
  }

  /** The one case in which the halved overflow guard rounds up: the exponential lands on MaxDelay - 1. */
  predicate RoundsUp(p: RetryPolicy, n: int) {
    n >= 2 && Exponential(p, n) == Normalize(p).maxDelay as int - 1
  }

  /** The delay before attempt n + 1, without reference to the loop that computes it. */
  function Delay(p: RetryPolicy, n: int): int {
    if RoundsUp(p, n) then CappedDelay(p, n) + 1 else CappedDelay(p, n)
  }

  lemma {:induction false} ExponentialMonotone(p: RetryPolicy, m: int, n: int)
    requires m <= n
    ensures Exponential(p, m) <= Exponential(p, n)
    decreases n - m
  {
    if m < n {
      ExponentialMonotone(p, m, n - 1);
    }
  }

  /** Once the running delay reaches half the ceiling, every later attempt waits exactly MaxDelay. */
  lemma HalvedGuard(p: RetryPolicy, i: int, n: int)
    requires 1 <= i < n
    requires Exponential(p, i) >= Normalize(p).maxDelay as int / 2
    ensures Delay(p, n) == Normalize(p).maxDelay as int
  {
    assert Exponential(p, i + 1) == 2 * Exponential(p, i);
    ExponentialMonotone(p, i + 1, n);
  }

  /** DelayForAttempt: the doubling loop, with its guard against overflow. */
  method DelayForAttempt(policy: RetryPolicy, attemptNumber: Int32) returns (delay: Duration)
    ensures delay as int == Delay(policy, attemptNumber as int)
    ensures delay as int == CappedDelay(policy, attemptNumber as int) <==> !RoundsUp(policy, attemptNumber as int)
    ensures RoundsUp(policy, attemptNumber as int) ==>
              delay == Normalize(policy).maxDelay && delay as int == CappedDelay(policy, attemptNumber as int) + 1
  {
    var p := Normalize(policy);
    if attemptNumber <= 1 {
      return p.initialDelay;
    }
    delay := p.initialDelay;
    var i: Int32 := 1;
    while i < attemptNumber
      invariant 1 <= i <= attemptNumber
      invariant delay as int == Exponential(policy, i as int) <= p.maxDelay as int
      invariant i > 1 ==> delay as int <= p.maxDelay as int - 2
    {
      if delay >= p.maxDelay / 2 {
        HalvedGuard(policy, i as int, attemptNumber as int);
        return p.maxDelay;
      }
      assert Exponential(policy, i as int + 1) == 2 * Exponential(policy, i as int);
      delay := delay * 2;
      i := i + 1;
    }
    if delay > p.maxDelay {
      return p.maxDelay;
    }
  }

  /** The delay stays between the normalized bounds and never shrinks from one attempt to the next. */
  lemma DelayBoundedAndMonotone(p: RetryPolicy, m: int, n: int)
    requires m <= n
    ensures Normalize(p).initialDelay as int <= Delay(p, m) <= Normalize(p).maxDelay as int
    ensures Delay(p, m) <= Delay(p, n)
  {
    ExponentialMonotone(p, m, n);
  }

  /** In closed form: the delay is min(MaxDelay, InitialDelay * 2^(n-1)) exactly when the uncapped value is not
      MaxDelay - 1, or on the first attempt; otherwise it is 1 ns more. An even ceiling is always exact. */
  lemma DelayExactlyWhen(p: RetryPolicy, n: int)
    requires n >= 1
    ensures var uncapped, ceiling := Normalize(p).initialDelay as int * Pow2(n - 1), Normalize(p).maxDelay as int;
            && (Delay(p, n) == Min(ceiling, uncapped) <==> n == 1 || uncapped != ceiling - 1)
            && (n > 1 && uncapped == ceiling - 1 ==> Delay(p, n) == ceiling)
            && (n > 1 && ceiling % 2 == 0 ==> uncapped != ceiling - 1)
  {
    ExponentialClosedForm(p, n);
    if n > 1 {
      assert Exponential(p, n) == 2 * Exponential(p, n - 1);
    }
  }

  /** A policy on which the promise fails: 1 ns doubling towards 3 ns waits 3 ns, not 2, before attempt 3. */
  lemma RoundUpWitness()
    ensures Delay(RetryPolicy(1, 3), 2) == 3 && CappedDelay(RetryPolicy(1, 3), 2) == 2
  {
    assert Exponential(RetryPolicy(1, 3), 2) == 2 * Exponential(RetryPolicy(1, 3), 1);
  }
}
