/**
 * The backoff policy (src/utils.ts): the next eligible second after a failed
 * attempt is the current whole second plus `base` raised to the attempt count.
 */
module Backoff {

  /**
   * `Math.floor(ms / 1000)`. Dafny's `/` with a positive divisor rounds toward
   * minus infinity, exactly like `Math.floor`, also for negative readings.
   */
  function EpochSeconds(nowMs: int): (s: int)
    ensures s * 1000 <= nowMs < s * 1000 + 1000
  {
    nowMs / 1000
  }

  /** `Math.pow` restricted to natural numbers. */
  function Pow(base: nat, exponent: nat): (r: nat)
    ensures base >= 1 ==> r >= 1
    ensures base == 0 ==> r == if exponent == 0 then 1 else 0
  {
    if exponent == 0 then 1 else base * Pow(base, exponent - 1)
  }

  /** `computeBackoffRunAfter(base, attempts)` read at clock `nowMs`. */
  function ComputeBackoffRunAfter(nowMs: int, base: nat, attempts: nat): (runAfter: int)
    ensures base >= 1 ==> runAfter > EpochSeconds(nowMs)
  {
    EpochSeconds(nowMs) + Pow(base, attempts)
  }

  lemma PowStep(base: nat, n: nat)
    requires base >= 1
    ensures Pow(base, n) <= Pow(base, n + 1)
    ensures base >= 2 ==> Pow(base, n) < Pow(base, n + 1)
  {
    var p := Pow(base, n);
    assert Pow(base, n + 1) == base * p;
    assert base * p == p + (base - 1) * p;
    assert (base - 1) * p >= 0;
    if base >= 2 {
      assert (base - 1) * p >= p;
    }
  }

  /** A larger exponent never gives a smaller power, and a strictly larger one for base >= 2. */
  lemma {:induction false} PowMonotone(base: nat, m: nat, n: nat)
    requires base >= 1 && m <= n
    ensures Pow(base, m) <= Pow(base, n)
    ensures base >= 2 && m < n ==> Pow(base, m) < Pow(base, n)
    decreases n
  {
    if m < n {
      PowMonotone(base, m, n - 1);
      PowStep(base, n - 1);
    }
  }

  /** At a fixed clock, more attempts never schedule earlier; for base >= 2 strictly later. */
  lemma BackoffMonotoneInAttempts(nowMs: int, base: nat, a1: nat, a2: nat)
    requires base >= 1 && a1 <= a2
    ensures ComputeBackoffRunAfter(nowMs, base, a1) <= ComputeBackoffRunAfter(nowMs, base, a2)
    ensures base >= 2 && a1 < a2 ==>
      ComputeBackoffRunAfter(nowMs, base, a1) < ComputeBackoffRunAfter(nowMs, base, a2)
  {
    PowMonotone(base, a1, a2);
  }

  /** For fixed base and attempts, a later clock reading never schedules earlier. */
  lemma BackoffMonotoneInClock(t1: int, t2: int, base: nat, attempts: nat)
    requires t1 <= t2
    ensures ComputeBackoffRunAfter(t1, base, attempts) <= ComputeBackoffRunAfter(t2, base, attempts)
  {
  }

  /** With base 2: one attempt waits 2 seconds, three attempts wait 8. */
  lemma BackoffBaseTwo(nowMs: int)
    ensures ComputeBackoffRunAfter(nowMs, 2, 1) == EpochSeconds(nowMs) + 2
    ensures ComputeBackoffRunAfter(nowMs, 2, 3) == EpochSeconds(nowMs) + 8
  {
  }
}
