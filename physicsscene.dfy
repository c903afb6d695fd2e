/**
 * `PhysicsScene`: the registered colliders and movement controllers, and `Update(delta)`, which
 * runs the controllers and then corrects every registered pair of colliders with one static side.
 * Each method is proved against the functions of `PhysicsStep`.
 */
module PhysicsScenes {
  import opened Outcomes
  import opened Vectors
  import opened Sequences
  import opened EcsNodes
  import opened Kinds
  import opened PhysicsStep
  import opened Worlds
  import Resolver
  import KindMethods

  class PhysicsScene {
    var Colliders: seq<CId>
    var MovementControllers: seq<CId>
    /** The scratch list cleared before each resolver call; the resolvers in this model do not use it. */
    var Workbench: seq<Vector2>

    constructor()
      ensures Colliders == [] && MovementControllers == [] && Workbench == []
    {
      Colliders := [];
      MovementControllers := [];
      Workbench := [];
    }

    /** `AddCollide(collider)`: registers at the end of the collider list. */
    method AddCollide(collider: CId)
      modifies this
      ensures Colliders == old(Colliders) + [collider]
      ensures MovementControllers == old(MovementControllers) && Workbench == old(Workbench)
    {
      Colliders := Colliders + [collider];
    }

    /** `RemoveCollide(collider)`: drops its first registration, if any. */
    method RemoveCollide(collider: CId)
      modifies this
      ensures Colliders == RemoveFirst(old(Colliders), collider)
      ensures MovementControllers == old(MovementControllers) && Workbench == old(Workbench)
    {
      Colliders := RemoveFirst(Colliders, collider);
    }

    /** `AddPhysicsController(movementController)`: registers at the end of the controller list. */
    method AddPhysicsController(controller: CId)
      modifies this
      ensures MovementControllers == old(MovementControllers) + [controller]
      ensures Colliders == old(Colliders) && Workbench == old(Workbench)
    {
      MovementControllers := MovementControllers + [controller];
    }

    /** `RemovePhysicsController(movementController)`: drops its first registration, if any. */
    method RemovePhysicsController(controller: CId)
      modifies this
      ensures MovementControllers == RemoveFirst(old(MovementControllers), controller)
      ensures Colliders == old(Colliders) && Workbench == old(Workbench)
    {
      MovementControllers := RemoveFirst(MovementControllers, controller);
    }

    /** `Update(delta)`: clamps the step, runs every registered controller, then visits every pair
        of registered colliders. `completed` is false exactly when the resolver met coinciding
        circle centres, where the scene stops (see `PairStep`). */
    method Update(w: World, delta: real, sqrt: real -> real) returns (completed: bool)
      requires AllColliders(w.State(), Colliders)
      modifies this, w
      ensures Colliders == old(Colliders) && MovementControllers == old(MovementControllers)
      ensures var r := SceneUpdate(old(w.State()), old(MovementControllers), old(Colliders), delta, sqrt);
        completed == r.Some? && (completed ==> w.State() == r.value)
    {
      var clamped := ClampDelta(delta);
      ghost var g := w.State();
      RunControllers(w, clamped);
      IntegrateOnlyMoves(g, MovementControllers, clamped);
      AllCollidersKept(g, w.State(), Colliders);
      completed := RunPairs(w, sqrt);
    }

    /** The controller loop: `controller.UpdatePhysics(delta)` for each, in list order. */
    method RunControllers(w: World, delta: real)
      modifies w
      ensures w.State() == Integrate(old(w.State()), MovementControllers, delta)
    {
      ghost var g := w.State();
      for i := 0 to |MovementControllers|
        invariant w.State() == Integrate(g, MovementControllers[..i], delta)
      {
        IntegrateStep(g, MovementControllers, i, delta);
        KindMethods.UpdatePhysics(w, MovementControllers[i], delta);
      }
      assert MovementControllers[..|MovementControllers|] == MovementControllers;
    }

    /** The outer pair loop: a row whose collider has no owner transform is passed over. */
    method RunPairs(w: World, sqrt: real -> real) returns (completed: bool)
      requires AllColliders(w.State(), Colliders)
      modifies this, w
      ensures Colliders == old(Colliders) && MovementControllers == old(MovementControllers)
      ensures var r := FoldPairs(old(w.State()), old(Colliders), AllPairs(|old(Colliders)|), sqrt);
        completed == r.Some? && (completed ==> w.State() == r.value)
    {
      var cs := Colliders;
      ghost var total := FoldPairs(w.State(), cs, AllPairs(|cs|), sqrt);
      var i := 0;
      while i < |Colliders|
        invariant Colliders == cs && MovementControllers == old(MovementControllers)
        invariant 0 <= i <= |cs|
        invariant PassFrom(w.State(), cs, i, i + 1, sqrt, total)
        decreases |cs| - i
      {
        var collider := Colliders[i];
        if OwnerTransformOf(w.State(), collider).None? {
          SkipRow(w.State(), cs, i, i + 1, sqrt);
        } else {
          var ok := RunRow(w, i, sqrt, total);
          if !ok {
            return false;
          }
        }
        i := i + 1;
      }
      completed := true;
    }

    /** The inner pair loop over row `i`: the pairs `(i, j)` for `j` from `i + 1` on. It either
        stops the whole pass or leaves the rows below to finish it. */
    method RunRow(w: World, i: nat, sqrt: real -> real, ghost total: Option<Graph>) returns (ok: bool)
      requires i < |Colliders| && OwnerTransformOf(w.State(), Colliders[i]).Some?
      requires PassFrom(w.State(), Colliders, i, i + 1, sqrt, total)
      modifies this, w
      ensures Colliders == old(Colliders) && MovementControllers == old(MovementControllers)
      ensures ok ==> PassFrom(w.State(), Colliders, i + 1, i + 2, sqrt, total)
      ensures !ok ==> total.None?
    {
      var cs := Colliders;
      var j := i + 1;
      while j < |Colliders|
        invariant Colliders == cs && MovementControllers == old(MovementControllers)
        invariant i < j <= |cs| && OwnerTransformOf(w.State(), cs[i]).Some?
        invariant PassFrom(w.State(), cs, i, j, sqrt, total)
        decreases |cs| - j
      {
        var stepped := RowTurn(w, cs, i, j, sqrt, total);
        if !stepped {
          return false;
        }
        j := j + 1;
      }
      assert PairsFrom(|cs|, i, |cs|) == PairsFrom(|cs|, i + 1, i + 2);
      ok := true;
    }

    /** One turn of the inner loop over row `i`: the visit of `(i, j)`, which either stops the whole
        pass or leaves the rest of it, from `(i, j + 1)` on, to compute the same fold. */
    method RowTurn(w: World, cs: seq<CId>, i: nat, j: nat, sqrt: real -> real, ghost total: Option<Graph>) returns (ok: bool)
      requires cs == Colliders && i < j < |cs| && OwnerTransformOf(w.State(), cs[i]).Some?
      requires PassFrom(w.State(), cs, i, j, sqrt, total)
      modifies this, w
      ensures Colliders == old(Colliders) && MovementControllers == old(MovementControllers)
      ensures ok ==> PassFrom(w.State(), cs, i, j + 1, sqrt, total) && OwnerTransformOf(w.State(), cs[i]).Some?
      ensures !ok ==> total.None?
    {
      ghost var before := w.State();
      var stepped := Visit(w, cs[i], cs[j], sqrt);
      if !stepped {
        RowStops(before, cs, i, j, sqrt);
        return false;
      }
      RowAdvance(before, w.State(), cs, i, j, sqrt, total);
      ok := true;
    }

    /** One turn of the inner loop on `collider` and `otherCollider`. */
    method Visit(w: World, collider: CId, otherCollider: CId, sqrt: real -> real) returns (ok: bool)
      requires w.C(collider).Kind.Collider? && w.C(otherCollider).Kind.Collider?
      requires OwnerTransformOf(w.State(), collider).Some?
      modifies this, w
      ensures Colliders == old(Colliders) && MovementControllers == old(MovementControllers)
      ensures var r := PairStep(old(w.State()), collider, otherCollider, sqrt);
        ok == r.Some? && (ok ==> w.State() == r.value)
    {
      var t1 := OwnerTransformOf(w.State(), collider).value;
      var t2 := OwnerTransformOf(w.State(), otherCollider);
      if t2.None? {
        return true;
      }
      var static1 := IsStatic(w.C(t1).Kind);
      var static2 := IsStatic(w.C(t2.value).Kind);
      if !static1 && !static2 {
        return true;
      }
      Workbench := [];
      var results := Resolver.Resolve(w.C(collider).Kind.Shape, w.C(otherCollider).Kind.Shape, sqrt);
      if results.None? {
        return false;
      }
      if results.value.Type == Resolver.NoInteraction {
        return true;
      }
      var minimumTranslation := results.value.MinimumTranslation;
      var movementWeight := if static1 then 0.0 else 1.0;
      var otherMovementWeight := if static2 then 0.0 else 1.0;
      if !(movementWeight == 0.0 && otherMovementWeight == 0.0) {
        movementWeight := movementWeight / (movementWeight + otherMovementWeight);
        otherMovementWeight := otherMovementWeight / (movementWeight + otherMovementWeight);
      }
      assert (movementWeight, otherMovementWeight) == Weights(static1, static2);
      ghost var g := w.State();
      KindMethods.CollidedWith(w, collider, results.value.(MinimumTranslation := MulRight(minimumTranslation, movementWeight)));
      KindMethods.CollidedWith(w, otherCollider, results.value.(MinimumTranslation := MulRight(minimumTranslation, -otherMovementWeight)));
      assert w.State() == Interaction(g, collider, otherCollider, results.value);
      ok := true;
    }
  }

  /** Registering a component that is not registered yet and then removing it restores the list. */
  lemma {:induction false} RegisterThenRemove(s: seq<CId>, x: CId)
    requires x !in s
    ensures RemoveFirst(s + [x], x) == s
  {
    if |s| > 0 {
      assert (s + [x])[1..] == s[1..] + [x];
      RegisterThenRemove(s[1..], x);
    }
  }
}
