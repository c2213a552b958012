/**
 * Python's int() applied to a float: truncation toward zero (not floor).
 */
module Truncation {

  /** int(v): the integer part of v, rounding toward zero. */
  function TruncToInt(v: real): (n: int)
    ensures v >= 0.0 ==> n as real <= v < n as real + 1.0
    ensures v < 0.0 ==> n as real - 1.0 < v <= n as real
  {
    if v >= 0.0 then v.Floor else -((-v).Floor)
  }

  /** Truncation of a whole number gives that number back. */
  lemma TruncOfInt(k: int)
    ensures TruncToInt(k as real) == k
  {
  }

  /** Truncation is monotone. */
  lemma TruncMonotone(v: real, w: real)
    requires v <= w
    ensures TruncToInt(v) <= TruncToInt(w)
  {
  }

  /** Truncation never moves a value away from zero: the result lies between 0 and v. */
  lemma TruncTowardZero(v: real)
    ensures v >= 0.0 ==> 0 <= TruncToInt(v)
    ensures v <= 0.0 ==> TruncToInt(v) <= 0
  {
  }

  /** An integer bound on v is also a bound on its truncation. */
  lemma TruncWithin(v: real, lo: int, hi: int)
    requires lo as real <= v <= hi as real
    ensures lo <= TruncToInt(v) <= hi
  {
  }

  /** Truncation of a negative real differs from floor whenever the real is not whole: int(-4.13) is -4, not -5. */
  lemma TruncIsNotFloor()
    ensures TruncToInt(-500.0 / 121.0) == -4
    ensures (-500.0 / 121.0).Floor == -5
  {
  }
}
