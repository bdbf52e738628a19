/** Python's `round(score, 4)` on a float. Python rounds the exact binary value
    of the float to the nearest multiple of 10^-4, halfway cases to even. The
    model takes that exact value as a `real` and returns the rounded result as
    a whole number of ten-thousandths, so no floating point is involved. */
module Rounding {

  /** Ten-thousandths: four decimal digits. */
  const Scale: int := 10000

  /** Nearest integer to `x`; halfway cases go to the even neighbour. */
  function RoundHalfEven(x: real): (k: int)
    ensures -0.5 <= k as real - x <= 0.5
    ensures x - x.Floor as real == 0.5 ==> k % 2 == 0
  {
    var f := x.Floor;
    var frac := x - f as real;
    if frac < 0.5 then f
    else if frac > 0.5 then f + 1
    else if f % 2 == 0 then f
    else f + 1
  }

  /** `round(score, 4)`, in ten-thousandths: within half a unit of score * 10^4. */
  function Round4(score: real): (k: int)
    ensures -0.5 <= k as real - score * Scale as real <= 0.5
  {
    RoundHalfEven(score * Scale as real)
  }

  /** Rounding never reverses an order; it can only make two values equal. */
  lemma RoundHalfEvenMonotone(x: real, y: real)
    requires x <= y
    ensures RoundHalfEven(x) <= RoundHalfEven(y)
  {
  }

  lemma Round4Monotone(x: real, y: real)
    requires x <= y
    ensures Round4(x) <= Round4(y)
  {
    RoundHalfEvenMonotone(x * Scale as real, y * Scale as real);
  }

  /** A probability in [0, 1] rounds to a confidence in [0, 10000]. */
  lemma Round4InUnitRange(score: real)
    requires 0.0 <= score <= 1.0
    ensures 0 <= Round4(score) <= Scale
  {
    RoundHalfEvenMonotone(0.0, score * Scale as real);
    RoundHalfEvenMonotone(score * Scale as real, Scale as real);
  }
}
