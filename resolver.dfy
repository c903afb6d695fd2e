/** `PhysicsResolver`: decides, for a pair of colliders, whether they interact and by how much the
    first must move to separate them. */
module Resolver {
  import opened FloatUtils
  import opened Vectors
  import opened Outcomes
  import BoundingCircles

  datatype ResultsType = NoInteraction | Detected | Resolution

  /** `PhysicsResults`: the kind of outcome and the minimum translation vector (MTV). */
  datatype PhysicsResults = PhysicsResults(Type: ResultsType, MinimumTranslation: Vector2)

  /** `new PhysicsResults` with `Type` set to `NoInteraction`: the translation keeps its zero default. */
  const Nothing := PhysicsResults(NoInteraction, Zero)

  /** What the resolver reads of a collider's data: whether it is a mesh, and its bounding circle. */
  datatype Shape = Shape(IsMesh: bool, Circle: BoundingCircles.BoundingCircle)

  /** `ResolveCircleToMesh`: not implemented, so never an interaction. */
  function ResolveCircleToMesh(collider1: Shape, collider2: Shape): (r: PhysicsResults)
    ensures r == Nothing
  {
    Nothing
  }

  /** `ResolveMeshToMesh`: not implemented, so never an interaction. */
  function ResolveMeshToMesh(collider1: Shape, collider2: Shape): (r: PhysicsResults)
    ensures r == Nothing
  {
    Nothing
  }

  /** `ResolveCircleToCircle`: no interaction when the squared centre distance exceeds the squared
      sum of the radii; otherwise a resolution whose MTV is the overlap (never negative) along the
      unit offset from collider 2 to collider 1. The offset is divided by the root of the squared
      distance, so coinciding centres divide by zero; that case is `None`, since the float result is
      not a real vector. */
  function ResolveCircleToCircle(collider1: Shape, collider2: Shape, sqrt: real -> real): (r: Option<PhysicsResults>)
    ensures var combined := collider1.Circle.Radius + collider2.Circle.Radius;
      var distance := Sub(collider1.Circle.Center, collider2.Circle.Center).LengthSquared();
      (r == Some(Nothing) <==> distance > combined * combined)
      && (r.None? <==> distance <= combined * combined && sqrt(distance) == 0.0)
    ensures r.Some? ==> r.value.Type == NoInteraction || r.value.Type == Resolution
  {
    var combinedRadius := collider1.Circle.Radius + collider2.Circle.Radius;
    var offset := Sub(collider1.Circle.Center, collider2.Circle.Center);
    var distance := offset.LengthSquared();
    if distance <= combinedRadius * combinedRadius then
      var root := sqrt(distance);
      if root == 0.0 then None
      else Some(PhysicsResults(Resolution, Mul(FloatUtils.Max(0.0, combinedRadius - root), Mul(1.0 / root, offset))))
    else Some(Nothing)
  }

  /** `Resolve`: same kinds go to the mesh/mesh or circle/circle resolver; a circle followed by a mesh
      goes to the circle/mesh resolver as given; a mesh followed by a circle goes to it with the pair
      swapped, and the translation is negated. */
  function Resolve(collider1: Shape, collider2: Shape, sqrt: real -> real): (r: Option<PhysicsResults>)
    ensures collider1.IsMesh && collider2.IsMesh ==> r == Some(ResolveMeshToMesh(collider1, collider2))
    ensures !collider1.IsMesh && !collider2.IsMesh ==> r == ResolveCircleToCircle(collider1, collider2, sqrt)
    ensures !collider1.IsMesh && collider2.IsMesh ==> r == Some(ResolveCircleToMesh(collider1, collider2))
    ensures collider1.IsMesh && !collider2.IsMesh ==>
      var swapped := ResolveCircleToMesh(collider2, collider1);
      r == Some(swapped.(MinimumTranslation := Mul(-1.0, swapped.MinimumTranslation)))
  {
    if collider1.IsMesh == collider2.IsMesh then
      if collider1.IsMesh then Some(ResolveMeshToMesh(collider1, collider2))
      else ResolveCircleToCircle(collider1, collider2, sqrt)
    else if !collider1.IsMesh then Some(ResolveCircleToMesh(collider1, collider2))
    else
      var results := ResolveCircleToMesh(collider2, collider1);
      Some(results.(MinimumTranslation := Mul(-1.0, results.MinimumTranslation)))
  }

  /** Touching circles (distance exactly the sum of the radii) at distinct centres still resolve:
      with a lawful square root, a positive squared distance has a non-zero root. */
  lemma TouchingResolves(collider1: Shape, collider2: Shape, sqrt: real -> real)
    requires IsSqrt(sqrt)
    requires var combined := collider1.Circle.Radius + collider2.Circle.Radius;
      Sub(collider1.Circle.Center, collider2.Circle.Center).LengthSquared() == combined * combined
    requires Sub(collider1.Circle.Center, collider2.Circle.Center).LengthSquared() > 0.0
    ensures var r := ResolveCircleToCircle(collider1, collider2, sqrt);
      r.Some? && r.value.Type == Resolution
  {
    var offset := Sub(collider1.Circle.Center, collider2.Circle.Center);
    var distance := offset.LengthSquared();
    assert sqrt(distance) * sqrt(distance) == distance;
  }

  /** The MTV of a circle/circle resolution is a non-negative multiple `k` of the offset from
      collider 2's centre to collider 1's, so it pushes collider 1 away from collider 2, and `k`
      times the centre distance is the overlap depth `max(0, r1 + r2 - distance)`. */
  lemma TranslationPointsAway(collider1: Shape, collider2: Shape, sqrt: real -> real)
    requires IsSqrt(sqrt)
    requires var r := ResolveCircleToCircle(collider1, collider2, sqrt); r.Some? && r.value.Type == Resolution
    ensures var r := ResolveCircleToCircle(collider1, collider2, sqrt);
      var offset := Sub(collider1.Circle.Center, collider2.Circle.Center);
      var distance := sqrt(offset.LengthSquared());
      var depth := FloatUtils.Max(0.0, collider1.Circle.Radius + collider2.Circle.Radius - distance);
      exists k: real :: k >= 0.0 && k * distance == depth && r.value.MinimumTranslation == Mul(k, offset)
  {
    var r := ResolveCircleToCircle(collider1, collider2, sqrt);
    var combined := collider1.Circle.Radius + collider2.Circle.Radius;
    var offset := Sub(collider1.Circle.Center, collider2.Circle.Center);
    var root := sqrt(offset.LengthSquared());
    var overlap := FloatUtils.Max(0.0, combined - root);
    var k := overlap * (1.0 / root);
    assert offset.LengthSquared() >= 0.0 by {
      assert offset.X * offset.X >= 0.0 && offset.Y * offset.Y >= 0.0;
    }
    assert root != 0.0 by {
      assert r != Some(Nothing);
    }
    assert root > 0.0;
    ScaleNonNegative(overlap, root);
    assert offset.LengthSquared() <= combined * combined;
    assert r.value.MinimumTranslation == Mul(overlap, Mul(1.0 / root, offset));
    MulMul(overlap, 1.0 / root, offset);
    Cancel(overlap, root);
  }

  /** A vector `k * offset` whose factor times the offset's length is `depth` is `depth` long; with
      `TranslationPointsAway` this makes the squared length of a circle/circle MTV the overlap depth
      squared. */
  lemma DepthLength(translation: Vector2, offset: Vector2, k: real, depth: real, sqrt: real -> real)
    requires IsSqrt(sqrt)
    requires k * sqrt(offset.LengthSquared()) == depth && translation == Mul(k, offset)
    ensures translation.LengthSquared() == depth * depth
  {
    assert offset.LengthSquared() >= 0.0 by {
      assert offset.X * offset.X >= 0.0 && offset.Y * offset.Y >= 0.0;
    }
    ScaledLength(k, offset, sqrt(offset.LengthSquared()), depth);
  }

  /** Dividing by a non-zero amount and multiplying back cancels. */
  lemma Cancel(amount: real, root: real)
    requires root != 0.0
    ensures (amount * (1.0 / root)) * root == amount
  {
    assert (1.0 / root) * root == 1.0;
    assert (amount * (1.0 / root)) * root == amount * ((1.0 / root) * root);
  }

  /** Scaling a vector of length `d` by `k` gives a vector of length `k * d`. */
  lemma ScaledLength(k: real, v: Vector2, d: real, length: real)
    requires d * d == v.LengthSquared() && k * d == length
    ensures Mul(k, v).LengthSquared() == length * length
  {
    assert (k * v.X) * (k * v.X) == (k * k) * (v.X * v.X);
    assert (k * v.Y) * (k * v.Y) == (k * k) * (v.Y * v.Y);
    assert Mul(k, v).LengthSquared() == (k * k) * v.LengthSquared();
    assert (k * k) * (d * d) == (k * d) * (k * d);
    SameSquare(k * d, length);
  }

  /** Equal amounts have equal squares. */
  lemma SameSquare(a: real, b: real)
    requires a == b
    ensures a * a == b * b
  {
  }

  /** A non-negative amount divided by a positive one stays non-negative. */
  lemma ScaleNonNegative(amount: real, root: real)
    requires amount >= 0.0 && root > 0.0
    ensures amount * (1.0 / root) >= 0.0
  {
    assert 1.0 / root > 0.0;
  }

  /** Scaling twice is scaling by the product. */
  lemma MulMul(s: real, t: real, v: Vector2)
    ensures Mul(s, Mul(t, v)) == Mul(s * t, v)
  {
    assert s * (t * v.X) == (s * t) * v.X;
    assert s * (t * v.Y) == (s * t) * v.Y;
    assert s * (t * v.Z) == (s * t) * v.Z;
  }

  /** Swapping the two circles negates the MTV and keeps the kind of outcome. */
  lemma CircleResolutionAntisymmetric(collider1: Shape, collider2: Shape, sqrt: real -> real)
    ensures var forward := ResolveCircleToCircle(collider1, collider2, sqrt);
      var backward := ResolveCircleToCircle(collider2, collider1, sqrt);
      forward.None? == backward.None?
      && (forward.Some? ==> backward.value.Type == forward.value.Type
                            && backward.value.MinimumTranslation == Neg(forward.value.MinimumTranslation))
  {
    var offset := Sub(collider1.Circle.Center, collider2.Circle.Center);
    var back := Sub(collider2.Circle.Center, collider1.Circle.Center);
    assert back == Neg(offset);
    assert back.LengthSquared() == offset.LengthSquared() by {
      assert back.X * back.X == offset.X * offset.X;
      assert back.Y * back.Y == offset.Y * offset.Y;
    }
    var root := sqrt(offset.LengthSquared());
    if root != 0.0 {
      var overlap := FloatUtils.Max(0.0, collider1.Circle.Radius + collider2.Circle.Radius - root);
      assert overlap == FloatUtils.Max(0.0, collider2.Circle.Radius + collider1.Circle.Radius - root);
      MulNeg(overlap, 1.0 / root, offset);
    }
  }

  /** Scaling a negated vector negates the scaled vector. */
  lemma MulNeg(s: real, t: real, v: Vector2)
    ensures Mul(s, Mul(t, Neg(v))) == Neg(Mul(s, Mul(t, v)))
  {
    assert t * -v.X == -(t * v.X) && s * -(t * v.X) == -(s * (t * v.X));
    assert t * -v.Y == -(t * v.Y) && s * -(t * v.Y) == -(s * (t * v.Y));
    assert t * -v.Z == -(t * v.Z) && s * -(t * v.Z) == -(s * (t * v.Z));
  }

  /** Any pair involving a mesh never interacts, in either order, and the negation for a mesh-first
      pair leaves the zero translation as it is. */
  lemma MeshPairsNeverInteract(collider1: Shape, collider2: Shape, sqrt: real -> real)
    requires collider1.IsMesh || collider2.IsMesh
    ensures Resolve(collider1, collider2, sqrt) == Some(Nothing)
  {
  }
}
