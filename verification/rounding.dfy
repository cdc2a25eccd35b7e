/** Unity's `Mathf.Round`, which rounds to the nearest integer and sends a
    value exactly halfway between two integers to the even one, and the
    three-decimal rounding the road applies to a segment's progress. */
module Rounding {

  predicate Even(n: int) {
    n % 2 == 0
  }

  /** The nearest integer to `x`, ties to even. The two ensures pin the
      result down completely (see `RoundHalfEvenUnique`). */
  function RoundHalfEven(x: real): (n: int)
    ensures -0.5 <= x - n as real <= 0.5
    ensures x - n as real == 0.5 || x - n as real == -0.5 ==> Even(n)
  {
    var f := x.Floor;
    var frac := x - f as real;
    if frac < 0.5 then f
    else if frac > 0.5 then f + 1
    else if Even(f) then f
    else f + 1
  }

  /** Any integer within a half of `x`, and even on a tie, is the rounded value. */
  lemma RoundHalfEvenUnique(x: real, n: int)
    requires -0.5 <= x - n as real <= 0.5
    requires x - n as real == 0.5 || x - n as real == -0.5 ==> Even(n)
    ensures n == RoundHalfEven(x)
  {
  }

  /** Below an even bound: `x` rounds to at most `k` exactly when `x` is at
      most `k + 1/2`; the tie at `k + 1/2` goes down to `k`. */
  lemma RoundedAtMostEven(x: real, k: int)
    requires Even(k)
    ensures RoundHalfEven(x) <= k <==> x <= k as real + 0.5
  {
  }

  /** Above an even bound: `x` rounds to at least `k` exactly when `x` is at
      least `k - 1/2`; the tie at `k - 1/2` goes up to `k`. */
  lemma RoundedAtLeastEven(x: real, k: int)
    requires Even(k)
    ensures RoundHalfEven(x) >= k <==> x >= k as real - 0.5
  {
  }

  /** `Mathf.Round(v * 1000f) / 1000f`: `v` rounded to three decimals. */
  function ThreeDecimals(v: real): (t: real)
    ensures -0.0005 <= v - t <= 0.0005
  {
    RoundHalfEven(v * 1000.0) as real / 1000.0
  }

  /** `v` rounds to a non-positive three-decimal value exactly when
      `1000 v` is at most one half. */
  lemma ThreeDecimalsNonPositive(v: real)
    ensures ThreeDecimals(v) <= 0.0 <==> v * 1000.0 <= 0.5
  {
    RoundedAtMostEven(v * 1000.0, 0);
  }

  /** `v` rounds to a three-decimal value of at least one exactly when
      `1000 v` is at least 999.5. */
  lemma ThreeDecimalsAtLeastOne(v: real)
    ensures ThreeDecimals(v) >= 1.0 <==> v * 1000.0 >= 999.5
  {
    RoundedAtLeastEven(v * 1000.0, 1000);
  }
}
