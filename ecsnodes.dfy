/**
 * The state of the `GameEngine.ECS` scene graph. Every `Component` and `Entity` object is a record
 * in one of two tables keyed by its handle (`ComponentID` / `EntityID`); a reference field holds a
 * handle, and `null` is `None`. The tables stand for the engine's static `ActiveComponents` and
 * `ActiveEntities` lists, which keep every live object reachable by id.
 */
module EcsNodes {
  import opened Outcomes
  import opened Vectors
  import Matrices
  import Resolver

  type CId = nat
  type EId = nat

  /** `ChildUpdateStatus`: the outcome of a structural request. */
  datatype ChildUpdateStatus = Failed | Succeeded | Deferred

  /** `VisitType`: what a traversal callback asks for next. */
  datatype VisitType = Continue | Skip | Stop

  /**
   * The component subclasses the engine defines, with the state each adds.
   * `Transform` keeps its matrix (`Data`), the movement-controller count and the stale flag;
   * `Movement` is a `MovementController` with the default `UpdatePhysics`; `Physics` is a
   * `PhysicsController`; `Collider` keeps its collider data and the optional asset it is built from.
   */
  datatype Kind =
    | Basic
    | Transform(Data: Matrices.Matrix, MovementControllers: int, IsStale: bool)
    | Movement
    | Physics(Velocity: Vector2)
    | Collider(Shape: Resolver.Shape, Asset: Option<Resolver.Shape>)
  {
    /** `ShouldBeReplicated`: overridden to true by `Transform` only. */
    predicate ShouldBeReplicated() { Transform? }

    /** Whether the `MovementController.ParentObjectChanged` override applies. */
    predicate IsMovementController() { Movement? || Physics? }
  }

  datatype ComponentNode = ComponentNode(
    Name: string,
    Kind: Kind,
    ParentObject: Option<EId>,
    Parent: Option<CId>,
    Children: seq<CId>,
    QueueRemovals: bool,
    ClearAll: bool,
    ClearAllDeep: bool,
    QueuedRemovals: seq<CId>,
    QueuedAdds: seq<CId>)

  datatype EntityNode = EntityNode(
    Name: string,
    Transform: Option<CId>,
    Parent: Option<EId>,
    Components: seq<CId>,
    Children: seq<EId>,
    QueueRemovals: bool,
    ClearAllComponents: bool,
    ClearAllComponentsDeep: bool,
    QueuedComponentRemovals: seq<CId>,
    QueuedComponentAdds: seq<CId>,
    ClearAll: bool,
    ClearAllDeep: bool,
    QueuedRemovals: seq<EId>,
    QueuedAdds: seq<EId>)

  /** A freshly constructed component of the given kind: no owner, no parent, nothing queued. */
  function NewComponentNode(name: string, kind: Kind): ComponentNode
  {
    ComponentNode(name, kind, None, None, [], false, false, false, [], [])
  }

  /** A freshly constructed entity, before its constructor adds a `Transform`. */
  function NewEntityNode(name: string): EntityNode
  {
    EntityNode(name, None, None, [], [], false, false, false, [], [], false, false, [], [])
  }

  /** The record the tables give for a handle they do not hold; the live objects never reach it. */
  const Detached: ComponentNode := NewComponentNode("Component", Basic)
  const Orphan: EntityNode := NewEntityNode("Entity")

  datatype Graph = Graph(Components: map<CId, ComponentNode>, Entities: map<EId, EntityNode>)
  {
    function C(c: CId): ComponentNode { if c in Components then Components[c] else Detached }

    function E(e: EId): EntityNode { if e in Entities then Entities[e] else Orphan }

    /** Writes the record of component `c`; the tables never gain or lose a handle this way. */
    function WithC(c: CId, node: ComponentNode): (r: Graph)
      ensures r.Entities == Entities && r.Components.Keys == Components.Keys
      ensures c in Components ==> r.C(c) == node
      ensures forall k :: k != c ==> r.C(k) == C(k)
    {
      if c in Components then Graph(Components[c := node], Entities) else this
    }

    /** Writes the record of entity `e`. */
    function WithE(e: EId, node: EntityNode): (r: Graph)
      ensures r.Components == Components && r.Entities.Keys == Entities.Keys
      ensures e in Entities ==> r.E(e) == node
      ensures forall k :: k != e ==> r.E(k) == E(k)
    {
      if e in Entities then Graph(Components, Entities[e := node]) else this
    }

    /** The owner's `Transform`, when the owner exists and has one (`ParentObject?.Transform`). */
    function OwnerTransform(c: CId): Option<CId>
    {
      var owner := C(c).ParentObject;
      if owner.Some? then E(owner.value).Transform else None
    }
  }

  // ---- Well-founded orders the recursive operations need ----

  function RankOf(rank: map<nat, nat>, x: nat): nat { if x in rank then rank[x] else 0 }

  /** A rank above every listed handle: the bound for a walk over a list that no node owns. */
  function RankBound(rank: map<nat, nat>, xs: seq<nat>): (r: nat)
    ensures forall x :: x in xs ==> RankOf(rank, x) < r
  {
    if |xs| == 0 then 0
    else
      var rest := RankBound(rank, xs[1..]);
      assert forall x :: x in xs ==> x == xs[0] || x in xs[1..];
      if RankOf(rank, xs[0]) < rest then rest else RankOf(rank, xs[0]) + 1
  }

  /** Every component's children rank strictly below it: the order in which the recursive walks over
      `Children` (`AttachToInternal`, `DetatchInternal`, `ClearChildren`, `ForEachChild`,
      `Contains`) terminate. A child list that loops makes those walks recurse without end. */
  ghost predicate ComponentsRanked(g: Graph, rank: map<CId, nat>)
  {
    forall c, i :: 0 <= i < |g.C(c).Children| ==> RankOf(rank, g.C(c).Children[i]) < RankOf(rank, c)
  }

  /** Writing an entity record leaves the component order as it was. */
  lemma RankedAfterEntityWrite(g: Graph, e: EId, node: EntityNode, rank: map<CId, nat>)
    requires ComponentsRanked(g, rank)
    ensures ComponentsRanked(g.WithE(e, node), rank)
  {
    assert forall c :: g.WithE(e, node).C(c) == g.C(c);
  }

  /** Every entity's children rank strictly below it: the order of the walks over entity `Children`. */
  ghost predicate EntitiesRanked(g: Graph, rank: map<EId, nat>)
  {
    forall e, i :: 0 <= i < |g.E(e).Children| ==> RankOf(rank, g.E(e).Children[i]) < RankOf(rank, e)
  }

  /** Every component's parent lies strictly shallower: the order in which the `Parent`-chain loop
      of `Component.IsDescendantOf` terminates. */
  ghost predicate ComponentParentsRanked(g: Graph, depth: map<CId, nat>)
  {
    forall c :: g.C(c).Parent.Some? ==> RankOf(depth, g.C(c).Parent.value) < RankOf(depth, c)
  }

  /** The same for the entity `Parent` chain walked by `Entity.IsDescendantOf`. */
  ghost predicate EntityParentsRanked(g: Graph, depth: map<EId, nat>)
  {
    forall e :: g.E(e).Parent.Some? ==> RankOf(depth, g.E(e).Parent.value) < RankOf(depth, e)
  }

  /** A kind with its movement-controller count set aside. */
  function Untallied(kind: Kind): Kind
  {
    if kind.Transform? then kind.(MovementControllers := 0) else kind
  }

  /** The part of a component record that owner changes leave alone. */
  function Frame(n: ComponentNode): ComponentNode
  {
    n.(ParentObject := None, Kind := Untallied(n.Kind))
  }

  /** Two graphs with the same handles and entities whose components differ at most in their owners
      (`ParentObject`) and in the transforms' movement-controller counts. */
  ghost predicate SameLinks(g: Graph, h: Graph)
  {
    g.Components.Keys == h.Components.Keys && g.Entities == h.Entities
    && forall c :: Frame(g.C(c)) == Frame(h.C(c))
  }
}
