/** Scalar comparison helpers of `GameEngine.Math2D.Utils`. Floats and doubles are both modelled as reals. */
module FloatUtils {

  const PreciseEpsilonF: real := 0.000001
  const LooseEpsilonF: real := 0.0001
  const StrictEpsilonD: real := 0.000000000001
  const PreciseEpsilonD: real := 0.00000001
  const LooseEpsilonD: real := 0.0001

  function Abs(x: real): real { if x < 0.0 then -x else x }

  function Min(a: real, b: real): (r: real)
    ensures r <= a && r <= b && (r == a || r == b)
  { if a <= b then a else b }

  function Max(a: real, b: real): (r: real)
    ensures r >= a && r >= b && (r == a || r == b)
  { if a >= b then a else b }

  /** Strictly within `epsilon` of zero. */
  function IsFloatZero(value: real, epsilon: real): (r: bool)
    ensures r <==> Abs(value) < epsilon
  {
    value > -epsilon && value < epsilon
  }

  function IsFloatClose(x: real, y: real, epsilon: real): (r: bool)
    ensures r <==> Abs(x - y) < epsilon
  {
    IsFloatZero(x - y, epsilon)
  }

  function IsDoubleZero(value: real, epsilon: real): (r: bool)
    ensures r <==> IsFloatZero(value, epsilon)
  {
    value > -epsilon && value < epsilon
  }

  function IsDoubleClose(x: real, y: real, epsilon: real): (r: bool)
    ensures r <==> IsFloatClose(x, y, epsilon)
  {
    IsDoubleZero(x - y, epsilon)
  }

  /** The law a square-root function supplied by a caller must obey on non-negative arguments. */
  ghost predicate IsSqrt(sqrt: real -> real)
  {
    forall x :: x >= 0.0 ==> sqrt(x) >= 0.0 && sqrt(x) * sqrt(x) == x
  }

  /** Closeness is symmetric, and reflexive exactly when the tolerance is positive. */
  lemma IsFloatCloseSymmetric(x: real, y: real, epsilon: real)
    ensures IsFloatClose(x, y, epsilon) <==> IsFloatClose(y, x, epsilon)
    ensures IsFloatClose(x, x, epsilon) <==> epsilon > 0.0
  {
  }
}
