/** The delay between two attempts: a doubling delay computed in wrapping int64 arithmetic,
  * capped, and then jittered by up to thirty percent either way.
  */
module Backoff {
  const TWO_63 := 0x8000_0000_0000_0000
  const TWO_64 := 0x1_0000_0000_0000_0000

  newtype int64 = x: int | -0x8000_0000_0000_0000 <= x < 0x8000_0000_0000_0000

  datatype RetryPolicy = RetryPolicy(maxAttempts: int, baseDelay: int64, maxDelay: int64)

  /** The value an int64 keeps of a mathematical integer. */
  function Wrap(x: int): int64 {
    ((x + TWO_63) % TWO_64 - TWO_63) as int64
  }

  function Pow2(k: nat): nat {
    if k == 0 then 1 else 2 * Pow2(k - 1)
  }

  /** `1 << k` on an int64. */
  function ShiftOne(k: nat): int64 {
    if k >= 64 then 0 else Wrap(Pow2(k))
  }

  /** The delay before jitter, as the code computes it. */
  function Nominal(p: RetryPolicy, k: nat): int64 {
    var d := Wrap(p.baseDelay as int * ShiftOne(k) as int);
    if d > p.maxDelay then p.maxDelay else d
  }

  predicate Jitter(j: real) { -0.3 <= j < 0.3 }

  /** Conversion of a floating-point number to an integer drops the fraction. */
  function Truncate(x: real): int {
    if x >= 0.0 then x.Floor else -((-x).Floor)
  }

  function ApplyJitter(d: int, jitter: real): int {
    Truncate(d as real * (1.0 + jitter))
  }

  function Delay(p: RetryPolicy, k: nat, jitter: real): int {
    ApplyJitter(Nominal(p, k) as int, jitter)
  }

  // ----- What the delay is meant to be -----

  /** `base * 2^k` without wrap-around. */
  function Scaled(base: int, k: nat): int {
    if k == 0 then base else 2 * Scaled(base, k - 1)
  }

  function Min(a: int, b: int): int { if a <= b then a else b }

  function Ideal(p: RetryPolicy, k: nat): int {
    Min(Scaled(p.baseDelay as int, k), p.maxDelay as int)
  }

  predicate PositiveDelays(p: RetryPolicy) {
    0 < p.baseDelay && 0 < p.maxDelay
  }

  /** base * 2^k is still an int64. */
  predicate Fits(p: RetryPolicy, k: nat) {
    Scaled(p.baseDelay as int, k) < TWO_63
  }

  lemma WrapInRange(x: int)
    requires -TWO_63 <= x < TWO_63
    ensures Wrap(x) as int == x
  {
  }

  lemma WrapPeriod(x: int, n: int)
    ensures Wrap(x + n * TWO_64) == Wrap(x)
  {
    var q, r := (x + TWO_63) / TWO_64, (x + TWO_63) % TWO_64;
    assert x + TWO_63 == q * TWO_64 + r;
    assert x + n * TWO_64 + TWO_63 == (q + n) * TWO_64 + r;
    RemainderIsUnique(q + n, r);
  }

  lemma RemainderIsUnique(q: int, r: int)
    requires 0 <= r < TWO_64
    ensures (q * TWO_64 + r) % TWO_64 == r
  {
  }

  lemma {:induction false} ScaledIsProduct(base: int, k: nat)
    ensures Scaled(base, k) == base * Pow2(k)
  {
    if k > 0 {
      ScaledIsProduct(base, k - 1);
      DoubledFactor(base, Pow2(k - 1));
    }
  }

  lemma {:induction false} ScaledGrows(base: int, j: nat, k: nat)
    requires 0 < base && j <= k
    ensures base <= Scaled(base, j) <= Scaled(base, k)
    ensures j < k ==> 2 * Scaled(base, j) <= Scaled(base, k)
    decreases k
  {
    if j < k {
      ScaledGrows(base, j, k - 1);
    } else if k > 0 {
      ScaledGrows(base, j - 1, k - 1);
    }
  }

  lemma {:induction false} Pow2Adds(a: nat, b: nat)
    ensures Pow2(a + b) == Pow2(a) * Pow2(b)
  {
    if b > 0 {
      Pow2Adds(a, b - 1);
      DoubledFactor(Pow2(a), Pow2(b - 1));
    }
  }

  lemma DoubledFactor(x: int, y: int)
    ensures x * (2 * y) == 2 * (x * y)
  {
  }

  lemma Pow2Squared(k: nat, x: nat, n: nat)
    requires Pow2(k) == x && n == 2 * k
    ensures Pow2(n) == x * x
  {
    Pow2Adds(k, k);
  }

  lemma Pow2Constants()
    ensures Pow2(32) == 0x1_0000_0000 && Pow2(63) == TWO_63 && Pow2(64) == TWO_64
  {
    var four, eight, sixteen, thirtyTwo, most := 4, 8, 16, 32, 63;
    Pow2Squared(four, 0x10, eight);
    Pow2Squared(eight, 0x100, sixteen);
    Pow2Squared(sixteen, 0x1_0000, thirtyTwo);
    Pow2Squared(thirtyTwo, 0x1_0000_0000, most + 1);
  }

  lemma {:induction false} Pow2Grows(j: nat, k: nat)
    requires j <= k
    ensures 0 < Pow2(j) <= Pow2(k)
  {
    if j < k { Pow2Grows(j, k - 1); } else if k > 0 { Pow2Grows(j - 1, k - 1); }
  }

  /** The shift is the power of two up to a multiple of 2^64. */
  lemma ShiftIsPower(k: nat) returns (n: int)
    ensures ShiftOne(k) as int + n * TWO_64 == Pow2(k)
  {
    Pow2Constants();
    if k < 63 {
      Pow2Grows(k, 62);
      assert Pow2(63) == 2 * Pow2(62);
      WrapInRange(Pow2(k));
      n := 0;
    } else if k == 63 {
      n := 1;
    } else {
      Pow2Adds(k - 64, 64);
      n := Pow2(k - 64);
    }
  }

  /** The product the code wraps is the low 64 bits of the exact one, whatever the shift. */
  lemma WrappedProduct(base: int, k: nat)
    ensures Wrap(base * ShiftOne(k) as int) == Wrap(Scaled(base, k))
  {
    hide Wrap, ShiftOne;
    ScaledIsProduct(base, k);
    var n := ShiftIsPower(k);
    ProductOfSum(base, ShiftOne(k) as int, n);
    WrapPeriod(base * ShiftOne(k) as int, base * n);
  }

  lemma ProductOfSum(b: int, s: int, n: int)
    ensures b * (s + n * TWO_64) == b * s + b * n * TWO_64
  {
  }

  /** As long as nothing overflows, the code computes min(base * 2^k, max). */
  lemma NominalIsIdeal(p: RetryPolicy, k: nat)
    requires PositiveDelays(p) && Fits(p, k)
    ensures Nominal(p, k) as int == Ideal(p, k)
    ensures 0 < Nominal(p, k)
  {
    ScaledGrows(p.baseDelay as int, 0, k);
    WrappedProduct(p.baseDelay as int, k);
    WrapInRange(Scaled(p.baseDelay as int, k));
  }

  /** At any index, overflowing or not: the code agrees with the ideal delay exactly when the
    * product fits, or its low 64 bits happen to reach the cap as well. */
  lemma NominalIsIdealExactly(p: RetryPolicy, k: nat)
    requires PositiveDelays(p)
    ensures Nominal(p, k) as int == Ideal(p, k) <==>
            Fits(p, k) || Wrap(Scaled(p.baseDelay as int, k)) >= p.maxDelay
  {
    WrappedProduct(p.baseDelay as int, k);
    if Fits(p, k) { NominalIsIdeal(p, k); }
  }

  /** An overflowing index can still agree: 5 * 2^60 doubled twice wraps to 2^62. */
  lemma OverflowCanAgree() returns (p: RetryPolicy)
    ensures PositiveDelays(p) && !Fits(p, 2) && Nominal(p, 2) as int == Ideal(p, 2)
  {
    p := RetryPolicy(4, 0x5000_0000_0000_0000, 1);
    var b := p.baseDelay as int;
    assert Scaled(b, 1) == 2 * b && Scaled(b, 2) == 4 * b;
    WrapPeriod(0x4000_0000_0000_0000, 1);
    NominalIsIdealExactly(p, 2);
  }

  /** The first index that overflows gives a negative delay. */
  lemma FirstOverflow(p: RetryPolicy, k: nat)
    requires PositiveDelays(p) && !Fits(p, k) && k > 0 && Fits(p, k - 1)
    ensures Nominal(p, k) < 0
    ensures Nominal(p, k) as int == Scaled(p.baseDelay as int, k) - TWO_64
  {
    var x := Scaled(p.baseDelay as int, k);
    WrappedProduct(p.baseDelay as int, k);
    WrapInRange(x - TWO_64);
    WrapPeriod(x - TWO_64, 1);
  }

  lemma {:induction false} OverflowStarts(p: RetryPolicy, k: nat) returns (f: nat)
    requires PositiveDelays(p) && !Fits(p, k)
    ensures 0 < f <= k && !Fits(p, f) && Fits(p, f - 1)
  {
    f := k;
    if !Fits(p, k - 1) { f := OverflowStarts(p, k - 1); }
  }

  predicate IdealUpTo(p: RetryPolicy, k: nat) {
    forall j: nat | j <= k :: Nominal(p, j) as int == Ideal(p, j)
  }

  predicate MonotoneUpTo(p: RetryPolicy, k: nat) {
    forall j: nat | j < k :: Nominal(p, j) <= Nominal(p, j + 1)
  }

  /** The first k + 1 delays are the intended ones, and grow, exactly as long as base * 2^k fits. */
  lemma BackoffIsExactUntilOverflow(p: RetryPolicy, k: nat)
    requires PositiveDelays(p)
    ensures IdealUpTo(p, k) <==> Fits(p, k)
    ensures MonotoneUpTo(p, k) <==> Fits(p, k)
  {
    if Fits(p, k) {
      forall j: nat | j <= k
        ensures Nominal(p, j) as int == Ideal(p, j)
      {
        ScaledGrows(p.baseDelay as int, j, k);
        NominalIsIdeal(p, j);
      }
      forall j: nat | j < k
        ensures Nominal(p, j) <= Nominal(p, j + 1)
      {
        ScaledGrows(p.baseDelay as int, j, j + 1);
      }
    } else {
      var f := OverflowStarts(p, k);
      FirstOverflow(p, f);
      NominalIsIdeal(p, f - 1);
      assert Nominal(p, f - 1) > Nominal(p, f - 1 + 1);
      ScaledGrows(p.baseDelay as int, 0, f);
      assert Nominal(p, f) as int != Ideal(p, f);
    }
  }

  /** Once the exact product is a multiple of 2^64, and so from k = 64 on, there is no delay at all. */
  lemma VanishingDelay(p: RetryPolicy, k: nat, jitter: real)
    requires PositiveDelays(p)
    ensures Scaled(p.baseDelay as int, k) % TWO_64 == 0 <==> Nominal(p, k) == 0
    ensures k >= 64 ==> Nominal(p, k) == 0 && Delay(p, k, jitter) == 0
  {
    var x := Scaled(p.baseDelay as int, k);
    WrappedProduct(p.baseDelay as int, k);
    var q, r := x / TWO_64, x % TWO_64;
    WrapPeriod(r, q);
    assert x == r + q * TWO_64;
    assert Wrap(r) == 0 <==> r == 0;
    if k >= 64 { assert ShiftOne(k) == 0; }
  }

  /** Every delay, for every policy: the int64 congruent to base * 2^k, or the cap if that is less, times
    * one plus the jitter, with the fraction dropped; a sleep is that or, if it is negative, nothing. */
  lemma DelayExactly(p: RetryPolicy, k: nat, jitter: real) returns (w: int)
    ensures -0x8000_0000_0000_0000 <= w < 0x8000_0000_0000_0000
    ensures (w - p.baseDelay as int * Pow2(k)) % 0x1_0000_0000_0000_0000 == 0
    ensures var x := Min(w, p.maxDelay as int) as real * (1.0 + jitter);
      && (x >= 0.0 ==> Delay(p, k, jitter) as real <= x < Delay(p, k, jitter) as real + 1.0)
      && (x <= 0.0 ==> Delay(p, k, jitter) as real - 1.0 < x <= Delay(p, k, jitter) as real)
      && (x >= 0.0 ==> Sleep(p, k, jitter) as real <= x < Sleep(p, k, jitter) as real + 1.0)
      && (x <= 0.0 ==> Sleep(p, k, jitter) == 0)
  {
    w := LowBits(p, k);
    var d := Min(w, p.maxDelay as int);
    hide Nominal;
    TruncateExactly(d as real * (1.0 + jitter));
  }

  lemma LowBits(p: RetryPolicy, k: nat) returns (w: int)
    ensures -TWO_63 <= w < TWO_63 && (w - p.baseDelay as int * Pow2(k)) % TWO_64 == 0
    ensures Nominal(p, k) as int == Min(w, p.maxDelay as int)
  {
    var b := p.baseDelay as int;
    w := Wrap(b * ShiftOne(k) as int) as int;
    WrappedProduct(b, k);
    ScaledIsProduct(b, k);
    hide ShiftOne;
    WrapIsCongruent(b * Pow2(k));
  }

  lemma WrapIsCongruent(x: int)
    ensures (Wrap(x) as int - x) % TWO_64 == 0
  {
    var q, r := (x + TWO_63) / TWO_64, (x + TWO_63) % TWO_64;
    assert Wrap(x) as int - x == (-q) * TWO_64 + 0;
    RemainderIsUnique(-q, 0);
  }

  lemma TruncateExactly(x: real)
    ensures x >= 0.0 ==> 0.0 <= Truncate(x) as real <= x < Truncate(x) as real + 1.0
    ensures x <= 0.0 ==> Truncate(x) as real - 1.0 < x <= Truncate(x) as real <= 0.0
  {
  }

  // ----- The time a run sleeps -----

  function NominalSum(p: RetryPolicy, n: nat): int {
    if n == 0 then 0 else NominalSum(p, n - 1) + Nominal(p, n - 1) as int
  }

  function Max0(n: int): nat { if n > 0 then n else 0 }

  /** How long `time.After` of the delay takes: a negative one fires at once. */
  function Sleep(p: RetryPolicy, k: nat, jitter: real): nat {
    Max0(Delay(p, k, jitter))
  }

  /** The time slept when the i-th sleep drew `jitters[i]`. */
  function TotalWait(p: RetryPolicy, jitters: seq<real>): nat {
    if jitters == [] then 0
    else TotalWait(p, jitters[..|jitters| - 1]) + Sleep(p, |jitters| - 1, jitters[|jitters| - 1])
  }

  predicate BelowCap(p: RetryPolicy, k: nat) {
    Scaled(p.baseDelay as int, k) < p.maxDelay as int
  }

  /** The first index at which the ideal delay is the cap. */
  function FirstCapped(p: RetryPolicy, k: nat): (c: nat)
    requires PositiveDelays(p) && forall j: nat | j < k :: BelowCap(p, j)
    ensures !BelowCap(p, c)
    ensures forall j: nat | j < c :: BelowCap(p, j)
    decreases p.maxDelay as int - Scaled(p.baseDelay as int, k)
  {
    if !BelowCap(p, k) then k
    else
      ScaledGrows(p.baseDelay as int, 0, k);
      FirstCapped(p, k + 1)
  }

  function CapIndex(p: RetryPolicy): nat
    requires PositiveDelays(p)
  {
    FirstCapped(p, 0)
  }

  /** base * (2^min(c, n) - 1) + max(0, n - c) * max, with c the cap index. */
  function ClosedForm(p: RetryPolicy, n: nat): int
    requires PositiveDelays(p)
  {
    var c := CapIndex(p);
    p.baseDelay as int * (Pow2(if c <= n then c else n) - 1) + (if c <= n then n - c else 0) * p.maxDelay as int
  }

  lemma OneMoreTerm(k: int, m: int)
    ensures (k + 1) * m == k * m + m
  {
  }

  lemma ClosedFormStep(p: RetryPolicy, n: nat)
    requires PositiveDelays(p)
    ensures ClosedForm(p, n + 1) == ClosedForm(p, n) + Ideal(p, n)
  {
    var b, m, c := p.baseDelay as int, p.maxDelay as int, CapIndex(p);
    if n < c {
      assert BelowCap(p, n);
      ScaledIsProduct(b, n);
      CappedTerms(b, Pow2(n), 2 * Pow2(n));
    } else {
      ScaledGrows(b, c, n);
      OneMoreTerm(n - c, m);
    }
  }

  lemma CappedTerms(b: int, x: int, y: int)
    requires y == 2 * x
    ensures b * (y - 1) == b * (x - 1) + b * x
  {
    assert y - 1 == (x - 1) + x;
  }

  lemma {:induction false} NominalSumIsClosedForm(p: RetryPolicy, n: nat)
    requires PositiveDelays(p) && (n > 0 ==> Fits(p, n - 1))
    ensures NominalSum(p, n) == ClosedForm(p, n)
  {
    if n > 0 {
      if n > 1 { ScaledGrows(p.baseDelay as int, n - 2, n - 1); }
      NominalSumIsClosedForm(p, n - 1);
      NominalIsIdeal(p, n - 1);
      ClosedFormStep(p, n - 1);
    }
  }

  lemma TruncateBetween(x: real, low: real, high: real)
    requires 0.0 <= x && low <= x <= high
    ensures low - 1.0 <= Truncate(x) as real <= high
  {
  }

  lemma Jittered(d: real, f: real)
    requires 0.0 <= d && 0.7 <= f <= 1.3
    ensures 0.0 <= 0.7 * d <= d * f <= 1.3 * d
  {
    assert 0.0 <= d * (f - 0.7) && 0.0 <= d * (1.3 - f);
  }

  lemma JitterBounds(d: int, jitter: real)
    requires d >= 0 && Jitter(jitter)
    ensures 0.7 * d as real - 1.0 <= ApplyJitter(d, jitter) as real
    ensures ApplyJitter(d, jitter) as real <= 1.3 * d as real
  {
    var r := d as real;
    Jittered(r, 1.0 + jitter);
    TruncateBetween(r * (1.0 + jitter), 0.7 * r, 1.3 * r);
  }

  /** Whatever the code computes for the delay, no sleep is longer than 1.3 times the cap. */
  lemma SleepIsCapped(p: RetryPolicy, k: nat, jitter: real)
    requires Jitter(jitter)
    ensures Sleep(p, k, jitter) as real <= 1.3 * Max0(p.maxDelay as int) as real
  {
    var d := Nominal(p, k) as int;
    assert d <= p.maxDelay as int by { NominalIsCapped(p, k); }
    hide Nominal;
    if d >= 0 {
      JitterBounds(d, jitter);
    } else {
      NegativeStaysNegative(d, jitter);
    }
  }

  lemma NominalIsCapped(p: RetryPolicy, k: nat)
    ensures Nominal(p, k) <= p.maxDelay
  {
  }

  lemma NegativeStaysNegative(d: int, jitter: real)
    requires d < 0 && Jitter(jitter)
    ensures ApplyJitter(d, jitter) <= 0
  {
    var r := -(d as real);
    Jittered(r, 1.0 + jitter);
    assert d as real * (1.0 + jitter) == -(r * (1.0 + jitter));
  }

  /** For every policy, overflowing or not, n sleeps take at most 1.3 times n caps. */
  lemma {:induction false} TotalWaitIsCapped(p: RetryPolicy, jitters: seq<real>)
    requires forall i | 0 <= i < |jitters| :: Jitter(jitters[i])
    ensures TotalWait(p, jitters) as real <= 1.3 * (Max0(p.maxDelay as int) * |jitters|) as real
  {
    var n := |jitters|;
    if n > 0 {
      TotalWaitIsCapped(p, jitters[..n - 1]);
      SleepIsCapped(p, n - 1, jitters[n - 1]);
      OneMore(Max0(p.maxDelay as int), n);
    }
  }

  lemma OneMore(m: nat, n: nat)
    requires n > 0
    ensures m * n == m * (n - 1) + m
  {
  }

  /** Over any n sleeps without overflow the time slept is within thirty percent of the closed form,
    * less one nanosecond a sleep for truncation. */
  lemma {:induction false} TotalWaitBounds(p: RetryPolicy, jitters: seq<real>)
    requires PositiveDelays(p) && (jitters != [] ==> Fits(p, |jitters| - 1))
    requires forall i | 0 <= i < |jitters| :: Jitter(jitters[i])
    ensures 0.7 * ClosedForm(p, |jitters|) as real - |jitters| as real <= TotalWait(p, jitters) as real
    ensures TotalWait(p, jitters) as real <= 1.3 * ClosedForm(p, |jitters|) as real
  {
    var n := |jitters|;
    NominalSumIsClosedForm(p, n);
    if n > 0 {
      if n > 1 { ScaledGrows(p.baseDelay as int, n - 2, n - 1); }
      TotalWaitBounds(p, jitters[..n - 1]);
      NominalSumIsClosedForm(p, n - 1);
      NominalIsIdeal(p, n - 1);
      JitterBounds(Nominal(p, n - 1) as int, jitters[n - 1]);
    }
  }
}
