/** Real-valued arithmetic shared by the detector (threshold scaling) and the evaluator (squared error). */
module Numerics {

  /** Absolute value of a real. */
  function Abs(x: real): real
  {
    if x < 0.0 then -x else x
  }

  /** Sum of the squares of the elements; never negative. */
  function SumOfSquares(xs: seq<real>): (r: real)
    ensures r >= 0.0
  {
    if xs == [] then 0.0
    else
      assert xs[0] * xs[0] >= 0.0;
      xs[0] * xs[0] + SumOfSquares(xs[1..])
  }

  /** A sequence of zeros has a zero sum of squares. */
  lemma {:induction false} SumOfSquaresOfZeros(xs: seq<real>)
    requires forall i :: 0 <= i < |xs| ==> xs[i] == 0.0
    ensures SumOfSquares(xs) == 0.0
  {
    if xs != [] {
      assert forall i :: 0 <= i < |xs[1..]| ==> xs[1..][i] == xs[i + 1];
      SumOfSquaresOfZeros(xs[1..]);
    }
  }

  /** The product of two non-negative reals is non-negative. */
  lemma MulNonNegative(a: real, b: real)
    requires a >= 0.0 && b >= 0.0
    ensures a * b >= 0.0
  {
  }

  /** Multiplying by a non-negative factor preserves order. */
  lemma MulMonotone(a: real, b: real, c: real)
    requires a <= b && c >= 0.0
    ensures a * c <= b * c
  {
    MulNonNegative(b - a, c);
  }
}
