/** The bounding circle `GameEngine.Math2D.BoundingCircle`. */
module BoundingCircles {
  import opened FloatUtils
  import opened Vectors
  import opened Matrices
  import Aabbs

  datatype BoundingCircle = BoundingCircle(Center: Vector2, Radius: real) {

    function RadiusSquared(): real { Radius * Radius }

    /** Inclusive: a point at exactly the radius is inside. */
    predicate Contains(point: Vector2)
    {
      Sub(point, Center).LengthSquared() <= RadiusSquared()
    }

    /** The squared distance of the centres against the squared sum of the radii. */
    predicate Intersects(circle: BoundingCircle)
    {
      var radius := circle.Radius + Radius;
      Sub(circle.Center, Center).LengthSquared() <= radius * radius
    }

    /** `Transform(matrix)`: the centre goes through the matrix-vector product and the radius grows by the
        larger scale factor; the product and the square root are supplied by the caller. */
    function Transform(transformation: Matrix, apply: PointMap, sqrt: real -> real): (r: BoundingCircle)
      ensures r.Center == apply(transformation, Center)
      ensures r.Radius == Radius * Scale2(transformation, sqrt).X || r.Radius == Radius * Scale2(transformation, sqrt).Y
      ensures Radius >= 0.0 ==> r.Radius >= Radius * Scale2(transformation, sqrt).X && r.Radius >= Radius * Scale2(transformation, sqrt).Y
      ensures Radius <= 0.0 ==> r.Radius <= Radius * Scale2(transformation, sqrt).X && r.Radius <= Radius * Scale2(transformation, sqrt).Y
      ensures IsSqrt(sqrt) && Radius >= 0.0 ==> r.Radius >= 0.0
    {
      var size := Scale2(transformation, sqrt);
      var newRadius := Radius * FloatUtils.Max(size.X, size.Y);
      NonNegativeProduct(Radius, FloatUtils.Max(size.X, size.Y), IsSqrt(sqrt) && Radius >= 0.0, sqrt, transformation);
      LargerFactor(Radius, size.X, size.Y);
      BoundingCircle(apply(transformation, Center), newRadius)
    }
  }

  /** Helper of `Transform`: scaling by the larger factor gives the larger product for a non-negative
      radius and the smaller one for a non-positive radius. */
  lemma LargerFactor(radius: real, x: real, y: real)
    ensures radius >= 0.0 ==> radius * FloatUtils.Max(x, y) >= radius * x && radius * FloatUtils.Max(x, y) >= radius * y
    ensures radius <= 0.0 ==> radius * FloatUtils.Max(x, y) <= radius * x && radius * FloatUtils.Max(x, y) <= radius * y
  {
    var m := FloatUtils.Max(x, y);
    assert radius * m - radius * x == radius * (m - x);
    assert radius * m - radius * y == radius * (m - y);
  }

  /** Helper of `Transform`: with a lawful square root both factors of the new radius are non-negative. */
  lemma NonNegativeProduct(radius: real, scale: real, lawful: bool, sqrt: real -> real, m: Matrix)
    requires lawful ==> IsSqrt(sqrt) && radius >= 0.0
    requires scale == FloatUtils.Max(Scale2(m, sqrt).X, Scale2(m, sqrt).Y)
    ensures lawful ==> radius * scale >= 0.0
  {
    if lawful {
      assert Right(m).LengthSquared() >= 0.0;
      assert sqrt(Right(m).LengthSquared()) >= 0.0;
    }
  }

  /** `new BoundingCircle()`: the origin with radius zero. */
  const Default := BoundingCircle(Zero, 0.0)

  /** The squared distance of a point from a centre. */
  function DistanceSquared(point: Vector2, center: Vector2): (r: real)
    ensures r >= 0.0
  {
    Sub(point, center).LengthSquared()
  }

  /** The running maximum of `Compute`, seeded with 0 and folded over the points in order. */
  function Farthest(points: seq<Vector2>, center: Vector2): real
  {
    if |points| == 0 then 0.0
    else FloatUtils.Max(Farthest(points[..|points| - 1], center), DistanceSquared(points[|points| - 1], center))
  }

  /** The fold is the largest squared distance: at least every point's, and attained by one of them. */
  lemma {:induction false} FarthestIsMaximum(points: seq<Vector2>, center: Vector2)
    ensures Farthest(points, center) >= 0.0
    ensures forall i :: 0 <= i < |points| ==> DistanceSquared(points[i], center) <= Farthest(points, center)
    ensures |points| > 0 ==> exists i :: 0 <= i < |points| && DistanceSquared(points[i], center) == Farthest(points, center)
  {
    if |points| > 0 {
      var init := points[..|points| - 1];
      FarthestIsMaximum(init, center);
      forall i | 0 <= i < |points| - 1
        ensures DistanceSquared(points[i], center) <= Farthest(points, center)
      {
        assert points[i] == init[i];
      }
      if |init| > 0 && Farthest(init, center) >= DistanceSquared(points[|points| - 1], center) {
        var k :| 0 <= k < |init| && DistanceSquared(init[k], center) == Farthest(init, center);
        assert points[k] == init[k];
      } else {
        assert DistanceSquared(points[|points| - 1], center) == Farthest(points, center);
      }
    }
  }

  /** `Compute(points, center)`: the default circle for no points; otherwise the circle about `center`
      whose radius is the square root of the largest squared distance, plus the loose epsilon. */
  method Compute(points: seq<Vector2>, center: Vector2, sqrt: real -> real) returns (r: BoundingCircle)
    ensures |points| == 0 ==> r == Default
    ensures |points| > 0 ==> r == BoundingCircle(center, sqrt(Farthest(points, center)) + LooseEpsilonF)
  {
    if |points| == 0 {
      return Default;
    }
    var farthestSquared := 0.0;
    for i := 0 to |points|
      invariant farthestSquared == Farthest(points[..i], center)
    {
      assert points[..i + 1][..i] == points[..i];
      farthestSquared := FloatUtils.Max(farthestSquared, Sub(points[i], center).LengthSquared());
    }
    assert points[..|points|] == points;
    r := BoundingCircle(center, sqrt(farthestSquared) + LooseEpsilonF);
  }

  /** A value below a square stays below the square of the root plus a positive amount. */
  lemma RootBound(d: real, f: real, root: real, e: real)
    requires d <= f && root >= 0.0 && root * root == f && e > 0.0
    ensures d <= (root + e) * (root + e)
  {
    assert (root + e) * (root + e) == root * root + e * (2.0 * root + e);
    assert e * (2.0 * root + e) > 0.0;
  }

  /** A circle about `center` whose radius exceeds the root of the farthest squared distance holds every point. */
  lemma CircleHoldsAll(points: seq<Vector2>, center: Vector2, root: real)
    requires root >= 0.0 && root * root == Farthest(points, center)
    ensures forall i :: 0 <= i < |points| ==> BoundingCircle(center, root + LooseEpsilonF).Contains(points[i])
  {
    FarthestIsMaximum(points, center);
    var c := BoundingCircle(center, root + LooseEpsilonF);
    forall i | 0 <= i < |points|
      ensures c.Contains(points[i])
    {
      HoldsPoint(c, points[i], Farthest(points, center), root);
    }
  }

  lemma HoldsPoint(c: BoundingCircle, p: Vector2, f: real, root: real)
    requires DistanceSquared(p, c.Center) <= f && root >= 0.0 && root * root == f && c.Radius == root + LooseEpsilonF
    ensures c.Contains(p)
  {
    RootBound(DistanceSquared(p, c.Center), f, root, LooseEpsilonF);
  }

  /** With a lawful square root the computed circle holds every point and its radius is at least the
      loose epsilon. */
  lemma ComputeContainsAll(points: seq<Vector2>, center: Vector2, sqrt: real -> real)
    requires IsSqrt(sqrt) && |points| > 0
    ensures var c := BoundingCircle(center, sqrt(Farthest(points, center)) + LooseEpsilonF);
      c.Radius >= LooseEpsilonF && forall i :: 0 <= i < |points| ==> c.Contains(points[i])
  {
    FarthestIsMaximum(points, center);
    CircleHoldsAll(points, center, sqrt(Farthest(points, center)));
  }

  /** `Compute(points)`: the default circle for no points, else centred on the bounding box's centre. */
  method ComputeFromPoints(points: seq<Vector2>, sqrt: real -> real) returns (r: BoundingCircle)
    ensures |points| == 0 ==> r == Default
    ensures |points| > 0 ==> r == BoundingCircle(Aabbs.Hull(points).Center(), sqrt(Farthest(points, Aabbs.Hull(points).Center())) + LooseEpsilonF)
  {
    if |points| == 0 {
      return Default;
    }
    var boundingBox := Aabbs.Compute(points);
    r := Compute(points, boundingBox.Center(), sqrt);
  }

  /** The centre `Compute(points)` picks lies inside the bounding box of the points. */
  lemma CenterInsideBox(points: seq<Vector2>)
    requires |points| > 0
    ensures Aabbs.Hull(points).Contains(Aabbs.Hull(points).Center())
  {
    var h := Aabbs.Hull(points);
    assert h.Min.X <= h.Max.X && h.Min.Y <= h.Max.Y;
  }

  /** The squared distance does not depend on the direction of the difference. */
  lemma DistanceSymmetric(u: Vector2, v: Vector2)
    ensures Sub(u, v).LengthSquared() == Sub(v, u).LengthSquared()
  {
    var x, y := u.X - v.X, u.Y - v.Y;
    assert Sub(v, u).X == -x && Sub(v, u).Y == -y;
    assert (-x) * (-x) == x * x && (-y) * (-y) == y * y;
  }

  /** Intersection is symmetric, and a circle with non-negative radius intersects itself. */
  lemma IntersectsSymmetric(a: BoundingCircle, b: BoundingCircle)
    ensures a.Intersects(b) <==> b.Intersects(a)
    ensures a.Radius >= 0.0 ==> a.Intersects(a)
  {
    DistanceSymmetric(a.Center, b.Center);
    var r := a.Radius + b.Radius;
    assert b.Radius + a.Radius == r;
    assert Sub(a.Center, a.Center) == Zero;
    assert r * r >= 0.0;
  }

  /** A circle holds its own centre exactly when the circle is not degenerate in sign: always. */
  lemma ContainsCenter(c: BoundingCircle)
    ensures c.Contains(c.Center)
  {
    assert Sub(c.Center, c.Center) == Zero;
  }
}
