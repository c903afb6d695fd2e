/**
 * The state-changing members of `Transform`, `MovementController`, `PhysicsController` and
 * `Collider`, as writes to the records of a `Worlds.World`. Each is proved to compute the function
 * of `Kinds` (or `EcsLinks`) that describes it.
 */
module KindMethods {
  import opened Outcomes
  import opened Vectors
  import opened Matrices
  import opened EcsNodes
  import EcsLinks
  import opened Kinds
  import Resolver
  import opened Worlds

  // ---- Transform ----

  /** The `Matrix` setter on transform `t`. */
  method SetMatrix(w: World, t: CId, m: Matrix)
    requires w.C(t).Kind.Transform?
    modifies w
    ensures w.State() == old(w.State()).WithC(t, old(w.C(t)).(Kind := WithMatrix(old(w.C(t)).Kind, m)))
    ensures w.C(t).Kind.Data == m && w.C(t).Kind.IsStale
  {
    var node := w.C(t);
    w.SetComponent(t, node.(Kind := node.Kind.(Data := m, IsStale := true)));
  }

  /** The `Position` setter on transform `t`: the matrix is rebuilt from `p` and the old basis. */
  method SetPosition(w: World, t: CId, p: Vector2)
    requires w.C(t).Kind.Transform?
    modifies w
    ensures w.State() == old(w.State()).WithC(t, old(w.C(t)).(Kind := WithPosition(old(w.C(t)).Kind, p)))
    ensures var before := old(w.C(t)).Kind; var after := w.C(t).Kind;
      after.Transform? && Position(after) == Vector2(p.X, p.Y, 1.0)
      && Right(after.Data) == Right(before.Data) && Up(after.Data) == Up(before.Data)
      && after.IsStale && after.MovementControllers == before.MovementControllers
  {
    var m := w.C(t).Kind.Data;
    WithPositionMoves(w.C(t).Kind, p);
    SetMatrix(w, t, FromBasis(p, Right(m), Up(m)));
  }

  /** `MarkStale()`. */
  method MarkStale(w: World, t: CId)
    requires w.C(t).Kind.Transform?
    modifies w
    ensures w.State() == old(w.State()).WithC(t, old(w.C(t)).(Kind := old(w.C(t)).Kind.(IsStale := true)))
  {
    var node := w.C(t);
    w.SetComponent(t, node.(Kind := node.Kind.(IsStale := true)));
  }

  /** `Updated()`, and `Transform.Update(delta)`, which only calls it: no child is visited. */
  method Updated(w: World, t: CId)
    requires w.C(t).Kind.Transform?
    modifies w
    ensures w.State() == TransformUpdate(old(w.State()), t)
  {
    var node := w.C(t);
    w.SetComponent(t, node.(Kind := node.Kind.(IsStale := false)));
  }

  /** `AddMovementController()`: one more controller, with no upper bound. */
  method AddMovementController(w: World, t: CId)
    requires w.C(t).Kind.Transform?
    modifies w
    ensures w.State() == old(w.State()).WithC(t, old(w.C(t)).(Kind := CountControllers(old(w.C(t)).Kind, 1)))
    ensures IsStatic(old(w.C(t)).Kind) ==> !IsStatic(w.C(t).Kind)
  {
    var node := w.C(t);
    w.SetComponent(t, node.(Kind := node.Kind.(MovementControllers := node.Kind.MovementControllers + 1)));
  }

  /** `RemoveMovementController()`: one controller fewer, with no lower bound. */
  method RemoveMovementController(w: World, t: CId)
    requires w.C(t).Kind.Transform?
    modifies w
    ensures w.State() == old(w.State()).WithC(t, old(w.C(t)).(Kind := CountControllers(old(w.C(t)).Kind, -1)))
  {
    var node := w.C(t);
    w.SetComponent(t, node.(Kind := node.Kind.(MovementControllers := node.Kind.MovementControllers - 1)));
  }

  // ---- MovementController ----

  /** `t?.AddMovementController()` (`delta` 1) or `t?.RemoveMovementController()` (`delta` -1). */
  method Tally(w: World, t: Option<CId>, delta: int)
    requires delta == 1 || delta == -1
    modifies w
    ensures w.State() == EcsLinks.Tally(old(w.State()), t, delta)
  {
    if t.Some? && w.C(t.value).Kind.Transform? {
      if delta == 1 {
        AddMovementController(w, t.value);
      } else {
        RemoveMovementController(w, t.value);
      }
    }
  }

  /** The hook `AttachToInternal` calls on `c` when its owner changed from `previous`: a movement
      controller leaves `previous?.Transform` and joins `ParentObject?.Transform`. */
  method ParentObjectChanged(w: World, c: CId, previous: Option<EId>)
    modifies w
    ensures w.State() == EcsLinks.ParentObjectChanged(old(w.State()), c, previous)
  {
    if w.C(c).Kind.IsMovementController() {
      Tally(w, if previous.Some? then w.E(previous.value).Transform else None, -1);
      Tally(w, w.State().OwnerTransform(c), 1);
    }
  }

  /** `UpdatePhysics(delta)` on controller `c`: a `PhysicsController` with an owner transform moves
      it by `delta * Velocity`; every other case changes nothing. */
  method UpdatePhysics(w: World, c: CId, delta: real)
    modifies w
    ensures w.State() == Kinds.UpdatePhysics(old(w.State()), c, delta)
  {
    if w.C(c).Kind.Physics? {
      var t := OwnerTransformOf(w.State(), c);
      if t.Some? {
        var k := w.C(t.value).Kind;
        SetPosition(w, t.value, Add(Position(k), Mul(delta, w.C(c).Kind.Velocity)));
      }
    }
  }

  // ---- Collider ----

  /** `CollidedWith(other, results)` on collider `c`: `ParentObject.Transform.Position +=
      results.MinimumTranslation`, when the owner has a transform. */
  method CollidedWith(w: World, c: CId, results: Resolver.PhysicsResults)
    modifies w
    ensures w.State() == Kinds.CollidedWith(old(w.State()), c, results)
  {
    var t := OwnerTransformOf(w.State(), c);
    if t.Some? {
      var k := w.C(t.value).Kind;
      SetPosition(w, t.value, Add(Position(k), results.MinimumTranslation));
    }
  }

  /** `Collider.Update(delta)`: rebuilds the collider data from the asset through `transformFrom`
      when the owner's transform is stale. */
  method ColliderUpdate(w: World, c: CId, transformFrom: (Resolver.Shape, Matrix) -> Resolver.Shape)
    requires w.C(c).Kind.Collider?
    modifies w
    ensures w.State() == Kinds.ColliderUpdate(old(w.State()), c, transformFrom)
  {
    var t := OwnerTransformOf(w.State(), c);
    if t.None? {
      return;
    }
    if !w.C(t.value).Kind.IsStale {
      return;
    }
    var n := w.C(c);
    if n.Kind.Asset.None? {
      return;
    }
    w.SetComponent(c, n.(Kind := n.Kind.(Shape := transformFrom(n.Kind.Asset.value, w.C(t.value).Kind.Data))));
  }
}
