/** The homogeneous 2D vector `GameEngine.Math2D.Vector2`: z = 1 marks a point, z = 0 a direction. */
module Vectors {
  import opened FloatUtils
  import opened Outcomes

  datatype Vector2 = Vector2(X: real, Y: real, Z: real) {

    /** The dot product ignores z. */
    function Dot(other: Vector2): real { X * other.X + Y * other.Y }

    function LengthSquared(): real { Dot(this) }

    /** Component-wise product of x and y; z is the receiver's. */
    function Scale(other: Vector2): (r: Vector2)
      ensures r.Z == Z
    {
      Vector2(X * other.X, Y * other.Y, Z)
    }

    /** The indexer: keys 0, 1 and 2 select x, y and z; any other key throws. */
    function At(key: int): (r: Result<real>)
      ensures r.Ok? <==> 0 <= key < 3
      ensures r.Throws? ==> r.error == IndexOutOfRange
    {
      if key == 0 then Ok(X)
      else if key == 1 then Ok(Y)
      else if key == 2 then Ok(Z)
      else Throws(IndexOutOfRange)
    }

    /** `Equals(Vector2)`: precise tolerance on x and z, but exact equality on y. */
    function Equals(other: Vector2): (r: bool)
      ensures r <==> Abs(X - other.X) < PreciseEpsilonF && Y == other.Y && Abs(Z - other.Z) < PreciseEpsilonF
    {
      IsFloatClose(X, other.X, PreciseEpsilonF) && Y == other.Y && IsFloatClose(Z, other.Z, PreciseEpsilonF)
    }

    /** `Equals(Vector2, float)`: every component within `epsilon`. */
    function EqualsWithin(other: Vector2, epsilon: real): (r: bool)
      ensures r <==> Abs(X - other.X) < epsilon && Abs(Y - other.Y) < epsilon && Abs(Z - other.Z) < epsilon
    {
      IsFloatClose(X, other.X, epsilon) && IsFloatClose(Y, other.Y, epsilon) && IsFloatClose(Z, other.Z, epsilon)
    }
  }

  /** `new Vector2(x, y)`: the omitted z defaults to 0. */
  function Vec(x: real, y: real): Vector2 { Vector2(x, y, 0.0) }

  const Zero: Vector2 := Vector2(0.0, 0.0, 0.0)

  function Add(left: Vector2, right: Vector2): Vector2
  {
    Vector2(left.X + right.X, left.Y + right.Y, left.Z + right.Z)
  }

  function Sub(left: Vector2, right: Vector2): Vector2
  {
    Vector2(left.X - right.X, left.Y - right.Y, left.Z - right.Z)
  }

  function Neg(v: Vector2): Vector2 { Vector2(-v.X, -v.Y, -v.Z) }

  /** `float * Vector2`. */
  function Mul(s: real, v: Vector2): Vector2 { Vector2(s * v.X, s * v.Y, s * v.Z) }

  /** `Vector2 * float`. */
  function MulRight(v: Vector2, s: real): Vector2 { Vector2(v.X * s, v.Y * s, v.Z * s) }

  /** `Vector2 * Vector2` is the dot product. */
  function DotOp(left: Vector2, right: Vector2): real { left.Dot(right) }

  /** The indexer reads back every component: a vector is determined by its three keys. */
  lemma AtRoundTrip(v: Vector2)
    ensures v.At(0).Ok? && v.At(1).Ok? && v.At(2).Ok?
    ensures Vector2(v.At(0).value, v.At(1).value, v.At(2).value) == v
  {
  }

  /** Addition and subtraction act on x, y and z independently, and subtraction undoes addition. */
  lemma AddSubLaws(a: Vector2, b: Vector2, c: Vector2)
    ensures Add(a, b) == Add(b, a)
    ensures Add(Add(a, b), c) == Add(a, Add(b, c))
    ensures Sub(a, b) == Add(a, Neg(b))
    ensures Sub(Add(a, b), b) == a
    ensures Neg(Neg(a)) == a && Add(a, Neg(a)) == Zero
  {
  }

  /** Scalar multiplication from either side agrees and scales all three components. */
  lemma ScalarSides(s: real, t: real, v: Vector2)
    ensures Mul(s, v) == MulRight(v, s)
    ensures Mul(s, Mul(t, v)) == Mul(s * t, v)
    ensures Mul(-1.0, v) == Neg(v)
  {
  }

  /** The dot product is symmetric, ignores z, and is linear in its first argument. */
  lemma DotLaws(a: Vector2, b: Vector2, c: Vector2, s: real, za: real, zb: real)
    ensures a.Dot(b) == b.Dot(a) == DotOp(a, b)
    ensures Vector2(a.X, a.Y, za).Dot(Vector2(b.X, b.Y, zb)) == a.Dot(b)
    ensures Add(a, b).Dot(c) == a.Dot(c) + b.Dot(c)
    ensures Mul(s, a).Dot(b) == s * a.Dot(b)
    ensures a.LengthSquared() >= 0.0
  {
  }

  /** Exact equality of y is the part of `Equals` that is not tolerant. */
  lemma EqualsLaws(a: Vector2, b: Vector2, epsilon: real)
    ensures a.Equals(a)
    ensures a.Equals(b) <==> b.Equals(a)
    ensures a.EqualsWithin(b, epsilon) <==> b.EqualsWithin(a, epsilon)
    ensures a.Y != b.Y ==> !a.Equals(b)
  {
  }
}
