/**
 * What the component subclasses add: `Transform` (its matrix, the stale flag and the movement
 * controller count), the `PhysicsController` move and the `Collider` hooks. The `Position` setter
 * rebuilds the matrix from the new translation and the old `Right` and `Up` columns; every matrix
 * write marks the transform stale.
 */
module Kinds {
  import opened Outcomes
  import opened Vectors
  import opened Matrices
  import opened EcsNodes
  import Resolver

  // ---- Transform ----

  /** `new Transform()`: named `Transform`, holding the default matrix, with no controllers, not stale. */
  function NewTransform(): (r: ComponentNode)
    ensures r.Name == "Transform" && r.Kind.Transform? && r.Kind.Data == Default()
    ensures !r.Kind.IsStale && IsStatic(r.Kind)
    ensures r.ParentObject.None? && r.Parent.None? && r.Children == []
  {
    NewComponentNode("Transform", Transform(Default(), 0, false))
  }

  /** `IsStatic`: no movement controller is registered. */
  predicate IsStatic(k: Kind)
    requires k.Transform?
  {
    k.MovementControllers == 0
  }

  /** The `Matrix` setter: stores the matrix and marks the transform stale. */
  function WithMatrix(k: Kind, m: Matrix): (r: Kind)
    requires k.Transform?
    ensures r.Transform? && r.Data == m && r.IsStale && r.MovementControllers == k.MovementControllers
  {
    k.(Data := m, IsStale := true)
  }

  /** The `Position` getter: the matrix translation, a point whose z is 1. */
  function Position(k: Kind): (r: Vector2)
    requires k.Transform?
    ensures r.Z == 1.0
  {
    Translation(k.Data)
  }

  /** The `Position` setter: `Matrix = new(value, Matrix.Right, Matrix.Up)`. */
  function WithPosition(k: Kind, p: Vector2): (r: Kind)
    requires k.Transform?
  {
    WithMatrix(k, FromBasis(p, Right(k.Data), Up(k.Data)))
  }

  /** Setting the position moves the translation to (p.X, p.Y), keeps `Right` and `Up` and the
      controller count, and marks the transform stale. */
  lemma WithPositionMoves(k: Kind, p: Vector2)
    requires k.Transform?
    ensures var r := WithPosition(k, p);
      r.Transform? && Position(r) == Vector2(p.X, p.Y, 1.0)
      && Right(r.Data) == Right(k.Data) && Up(r.Data) == Up(k.Data)
      && r.IsStale && r.MovementControllers == k.MovementControllers
  {
  }

  /** `Position += offset` is a translation of the matrix by the offset. */
  lemma ShiftIsTranslate(k: Kind, offset: Vector2)
    requires k.Transform?
    ensures WithPosition(k, Add(Position(k), offset)).Data == TranslateBy(k.Data, offset)
  {
  }

  /** `MarkStale()`. */
  function MarkStale(k: Kind): (r: Kind)
    requires k.Transform?
    ensures r == k.(IsStale := true)
  {
    k.(IsStale := true)
  }

  /** `Updated()`, which is all `Transform.Update` does: the stale flag drops, nothing else changes. */
  function Updated(k: Kind): (r: Kind)
    requires k.Transform?
    ensures r.Transform? && !r.IsStale && r.Data == k.Data && r.MovementControllers == k.MovementControllers
  {
    k.(IsStale := false)
  }

  /** `AddMovementController()` (`delta` 1) and `RemoveMovementController()` (`delta` -1): no lower
      bound is checked, so the count can go negative. */
  function CountControllers(k: Kind, delta: int): (r: Kind)
    requires k.Transform?
    ensures r.Transform? && r.MovementControllers == k.MovementControllers + delta
    ensures r.Data == k.Data && r.IsStale == k.IsStale
  {
    k.(MovementControllers := k.MovementControllers + delta)
  }

  /** Adding then removing a controller restores the transform; a static transform with one added
      controller is dynamic; removing from a static transform leaves it at -1, still not static. */
  lemma ControllerCounting(k: Kind)
    requires k.Transform?
    ensures CountControllers(CountControllers(k, 1), -1) == k
    ensures IsStatic(k) ==> !IsStatic(CountControllers(k, 1)) && !IsStatic(CountControllers(k, -1))
    ensures IsStatic(k) ==> CountControllers(k, -1).MovementControllers == -1
  {
  }

  // ---- Owner transforms ----

  /** `ParentObject?.Transform` of `c`, when it exists and is a transform. */
  function OwnerTransformOf(g: Graph, c: CId): (r: Option<CId>)
    ensures r.Some? ==> r.value in g.Components && g.C(r.value).Kind.Transform?
    ensures r.Some? <==> g.OwnerTransform(c).Some? && g.OwnerTransform(c).value in g.Components
                         && g.C(g.OwnerTransform(c).value).Kind.Transform?
    ensures r.Some? ==> r == g.OwnerTransform(c)
  {
    var t := g.OwnerTransform(c);
    if t.Some? && t.value in g.Components && g.C(t.value).Kind.Transform? then t else None
  }

  /** Moves the owner's transform of `c` by `offset` (`ParentObject.Transform.Position += offset`);
      nothing happens when there is no owner or no transform. */
  function Shifted(g: Graph, c: CId, offset: Vector2): (r: Graph)
    ensures r.Entities == g.Entities && r.Components.Keys == g.Components.Keys
    ensures OwnerTransformOf(g, c).None? ==> r == g
    ensures OwnerTransformOf(g, c).Some? ==>
      var t := OwnerTransformOf(g, c).value;
      r.C(t) == g.C(t).(Kind := WithPosition(g.C(t).Kind, Add(Position(g.C(t).Kind), offset)))
      && forall k :: k != t ==> r.C(k) == g.C(k)
  {
    var t := OwnerTransformOf(g, c);
    if t.None? then g
    else
      var n := g.C(t.value);
      g.WithC(t.value, n.(Kind := WithPosition(n.Kind, Add(Position(n.Kind), offset))))
  }

  /** A shift moves the position by exactly the offset, keeps `Right`, `Up` and the controller count,
      leaves the transform stale, and touches no other component. */
  lemma ShiftedMoves(g: Graph, c: CId, offset: Vector2)
    requires OwnerTransformOf(g, c).Some?
    ensures var t := OwnerTransformOf(g, c).value; var before := g.C(t).Kind; var after := Shifted(g, c, offset).C(t).Kind;
      after.Transform?
      && Position(after) == Vector2(Position(before).X + offset.X, Position(before).Y + offset.Y, 1.0)
      && Right(after.Data) == Right(before.Data) && Up(after.Data) == Up(before.Data)
      && after.IsStale && after.MovementControllers == before.MovementControllers
  {
    var t := OwnerTransformOf(g, c).value;
    WithPositionMoves(g.C(t).Kind, Add(Position(g.C(t).Kind), offset));
  }

  // ---- MovementController / PhysicsController ----

  /** `UpdatePhysics(delta)`: a `PhysicsController` moves its owner's transform by `delta * Velocity`;
      the default `MovementController` version does nothing, nor does any other kind. */
  function UpdatePhysics(g: Graph, c: CId, delta: real): (r: Graph)
    ensures r.Entities == g.Entities && r.Components.Keys == g.Components.Keys
  {
    if g.C(c).Kind.Physics? then Shifted(g, c, Mul(delta, g.C(c).Kind.Velocity)) else g
  }

  /** A physics controller with an owner transform moves it by exactly `delta * Velocity`, keeping its
      basis, and leaves it stale; every other case changes nothing at all. */
  lemma UpdatePhysicsMoves(g: Graph, c: CId, delta: real)
    ensures !g.C(c).Kind.Physics? || OwnerTransformOf(g, c).None? ==> UpdatePhysics(g, c, delta) == g
    ensures g.C(c).Kind.Physics? && OwnerTransformOf(g, c).Some? ==>
      var t := OwnerTransformOf(g, c).value; var v := g.C(c).Kind.Velocity;
      var before := g.C(t).Kind; var after := UpdatePhysics(g, c, delta).C(t).Kind;
      after.Transform?
      && Position(after) == Vector2(Position(before).X + delta * v.X, Position(before).Y + delta * v.Y, 1.0)
      && Right(after.Data) == Right(before.Data) && Up(after.Data) == Up(before.Data) && after.IsStale
      && forall k :: k != t ==> UpdatePhysics(g, c, delta).C(k) == g.C(k)
  {
    if g.C(c).Kind.Physics? && OwnerTransformOf(g, c).Some? {
      ShiftedMoves(g, c, Mul(delta, g.C(c).Kind.Velocity));
    }
  }

  // ---- Collider ----

  /** `CollidedWith(other, results)`: the owner's transform moves by the minimum translation. */
  function CollidedWith(g: Graph, c: CId, results: Resolver.PhysicsResults): (r: Graph)
    ensures r.Entities == g.Entities && r.Components.Keys == g.Components.Keys
  {
    Shifted(g, c, results.MinimumTranslation)
  }

  /** `Collider.Update`: without an owner transform, with a transform that is not stale, or without an
      asset the data stays; otherwise it is rebuilt from the asset and the transform's matrix by
      `transformFrom` (`ColliderData.TransformFrom`, not part of this model). The stale flag is not
      cleared and no child is visited. */
  function ColliderUpdate(g: Graph, c: CId, transformFrom: (Resolver.Shape, Matrix) -> Resolver.Shape): (r: Graph)
    requires g.C(c).Kind.Collider?
    ensures r.Entities == g.Entities && r.Components.Keys == g.Components.Keys
    ensures forall k :: k != c ==> r.C(k) == g.C(k)
    ensures var t := OwnerTransformOf(g, c); var n := g.C(c);
      if t.None? || !g.C(t.value).Kind.IsStale || n.Kind.Asset.None? then r == g
      else c in g.Components ==>
        r.C(c) == n.(Kind := n.Kind.(Shape := transformFrom(n.Kind.Asset.value, g.C(t.value).Kind.Data)))
  {
    var t := OwnerTransformOf(g, c);
    var n := g.C(c);
    if t.None? || !g.C(t.value).Kind.IsStale || n.Kind.Asset.None? then g
    else g.WithC(c, n.(Kind := n.Kind.(Shape := transformFrom(n.Kind.Asset.value, g.C(t.value).Kind.Data))))
  }

  /** `Transform.Update`: only the stale flag of this transform drops. */
  function TransformUpdate(g: Graph, c: CId): (r: Graph)
    requires g.C(c).Kind.Transform?
    ensures r.Entities == g.Entities && r.Components.Keys == g.Components.Keys
    ensures forall k :: k != c ==> r.C(k) == g.C(k)
    ensures c in g.Components ==> r.C(c) == g.C(c).(Kind := Updated(g.C(c).Kind))
  {
    g.WithC(c, g.C(c).(Kind := Updated(g.C(c).Kind)))
  }

  /** `ShouldBeReplicated`: only transforms are, so a transform is the one kind `AddComponent` refuses
      to nest, and a collider may be nested. */
  lemma OnlyTransformsReplicate(k: Kind)
    ensures k.ShouldBeReplicated() <==> k.Transform?
  {
  }
}
