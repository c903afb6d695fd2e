/**
 * The state of the older `GameEngine` scene graph (`GameEngine.Component`, `GameEngine.Entity`):
 * every object is a record in one of two tables keyed by a handle that stands for its reference,
 * and `null` is `None`. Unlike the `GameEngine.ECS` graph there are no ids, no deferred requests
 * and no component kinds.
 */
module LegacyNodes {
  import opened Outcomes
  import EcsNodes

  type LCId = nat
  type LEId = nat

  datatype LComponent = LComponent(Name: string, ParentObject: Option<LEId>, Parent: Option<LCId>, Children: seq<LCId>)

  datatype LEntity = LEntity(Name: string, Transform: Option<LCId>, Components: seq<LCId>)

  /** A `new Component()`: the default name, no owner, no parent, no children. */
  const NewComponent: LComponent := LComponent("Component", None, None, [])

  /** A `new Entity()`: the default name, no transform, no components. */
  const NewEntity: LEntity := LEntity("Entity", None, [])

  datatype Scene = Scene(Components: map<LCId, LComponent>, Entities: map<LEId, LEntity>)
  {
    function C(c: LCId): LComponent { if c in Components then Components[c] else NewComponent }

    function E(e: LEId): LEntity { if e in Entities then Entities[e] else NewEntity }

    /** Writes the record of component `c`; the tables never gain or lose a handle this way. */
    function WithC(c: LCId, node: LComponent): (r: Scene)
      ensures r.Entities == Entities && r.Components.Keys == Components.Keys
      ensures c in Components ==> r.C(c) == node
      ensures forall k :: k != c ==> r.C(k) == C(k)
    {
      if c in Components then Scene(Components[c := node], Entities) else this
    }

    /** Writes the record of entity `e`. */
    function WithE(e: LEId, node: LEntity): (r: Scene)
      ensures r.Components == Components && r.Entities.Keys == Entities.Keys
      ensures e in Entities ==> r.E(e) == node
      ensures forall k :: k != e ==> r.E(k) == E(k)
    {
      if e in Entities then Scene(Components, Entities[e := node]) else this
    }
  }

  function RankOf(rank: map<LCId, nat>, c: LCId): nat { EcsNodes.RankOf(rank, c) }

  /** Every component's children rank strictly below it: the order in which the recursive walks
      over `Children` (`AttachToInternal`, `DetatchInternal`, `ClearChildren`) terminate. Nothing
      in these classes rules out a child list that loops, on which those walks never end. */
  ghost predicate Ranked(g: Scene, rank: map<LCId, nat>)
  {
    forall c, i :: 0 <= i < |g.C(c).Children| ==> RankOf(rank, g.C(c).Children[i]) < RankOf(rank, c)
  }

  /** `h` differs from `g` at most in component owners: the walks of `AttachToInternal` and
      `DetatchInternal` write nothing else. */
  ghost predicate OwnersOnly(g: Scene, h: Scene)
  {
    g.Components.Keys == h.Components.Keys && g.Entities == h.Entities
    && forall k :: h.C(k) == g.C(k).(ParentObject := h.C(k).ParentObject)
  }

  lemma OwnersOnlyTransitive(a: Scene, b: Scene, c: Scene)
    requires OwnersOnly(a, b) && OwnersOnly(b, c)
    ensures OwnersOnly(a, c)
  {
    forall k
      ensures c.C(k) == a.C(k).(ParentObject := c.C(k).ParentObject)
    {
      assert b.C(k) == a.C(k).(ParentObject := b.C(k).ParentObject);
    }
  }

  /** A step that writes only owners keeps the order and every child list. */
  lemma OwnersOnlyRanked(g: Scene, h: Scene, rank: map<LCId, nat>)
    requires OwnersOnly(g, h) && Ranked(g, rank)
    ensures Ranked(h, rank)
    ensures forall k :: h.C(k).Children == g.C(k).Children
  {
    forall k
      ensures h.C(k).Children == g.C(k).Children
    {
      assert h.C(k) == g.C(k).(ParentObject := h.C(k).ParentObject);
    }
  }

  /** Writing an entity record leaves the order as it was. */
  lemma RankedAfterEntityWrite(g: Scene, e: LEId, node: LEntity, rank: map<LCId, nat>)
    requires Ranked(g, rank)
    ensures Ranked(g.WithE(e, node), rank)
  {
    assert forall c :: g.WithE(e, node).C(c) == g.C(c);
  }

  /** The tables as one mutable object: every field write of a legacy `Component` or `Entity` is
      a write of one record here. */
  class LegacyWorld {
    var Components: map<LCId, LComponent>
    var Entities: map<LEId, LEntity>

    constructor()
      ensures Components == map[] && Entities == map[]
    {
      Components := map[];
      Entities := map[];
    }

    function State(): Scene
      reads this
    {
      Scene(Components, Entities)
    }

    function C(c: LCId): LComponent
      reads this
    {
      State().C(c)
    }

    function E(e: LEId): LEntity
      reads this
    {
      State().E(e)
    }

    method SetComponent(c: LCId, node: LComponent)
      modifies this
      ensures State() == old(State()).WithC(c, node)
    {
      if c in Components {
        Components := Components[c := node];
      }
    }

    method SetEntity(e: LEId, node: LEntity)
      modifies this
      ensures State() == old(State()).WithE(e, node)
    {
      if e in Entities {
        Entities := Entities[e := node];
      }
    }
  }
}
