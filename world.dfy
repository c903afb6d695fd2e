/**
 * The live scene graph as one mutable object. `Components` and `Entities` stand for the engine's
 * static `ActiveComponents` and `ActiveEntities` tables, and the two `IdProvider`s for
 * `ComponentIDProvider` and `EntityIDProvider`, which hand out the handles the tables are keyed by.
 * Every field write of a `Component` or `Entity` object is a write of one record here.
 */
module Worlds {
  import opened EcsNodes
  import IdProviders

  class World {
    var Components: map<CId, ComponentNode>
    var Entities: map<EId, EntityNode>
    const ComponentIds: IdProviders.IdProvider
    const EntityIds: IdProviders.IdProvider

    /** Both allocators keep their own invariant, and every live handle is allocated in its own. */
    ghost predicate Valid()
      reads this, ComponentIds, EntityIds
    {
      ComponentIds != EntityIds && ComponentIds.Valid() && EntityIds.Valid()
      && (forall c :: c in Components ==> ComponentIds.IsAllocated(c))
      && (forall e :: e in Entities ==> EntityIds.IsAllocated(e))
    }

    /** An empty scene with fresh allocators. */
    constructor()
      ensures Valid() && Components == map[] && Entities == map[]
      ensures fresh(ComponentIds) && fresh(EntityIds)
    {
      Components := map[];
      Entities := map[];
      ComponentIds := new IdProviders.IdProvider();
      EntityIds := new IdProviders.IdProvider();
    }

    /** The graph the object stands for. */
    function State(): Graph
      reads this
    {
      Graph(Components, Entities)
    }

    /** The record of component `c`, `Detached` for a dead handle. */
    function C(c: CId): ComponentNode
      reads this
    {
      State().C(c)
    }

    /** The record of entity `e`, `Orphan` for a dead handle. */
    function E(e: EId): EntityNode
      reads this
    {
      State().E(e)
    }

    /** A write to fields of component `c`; a dead handle is not written. */
    method SetComponent(c: CId, node: ComponentNode)
      modifies this
      ensures Components == (if c in old(Components) then old(Components)[c := node] else old(Components))
      ensures Entities == old(Entities)
    {
      if c in Components {
        Components := Components[c := node];
      }
    }

    /** A write to fields of entity `e`. */
    method SetEntity(e: EId, node: EntityNode)
      modifies this
      ensures Entities == (if e in old(Entities) then old(Entities)[e := node] else old(Entities))
      ensures Components == old(Components)
    {
      if e in Entities {
        Entities := Entities[e := node];
      }
    }

    /** The `Component` constructor: allocates a handle not in use and registers a fresh record. */
    method NewComponent(name: string, kind: Kind) returns (c: CId)
      requires Valid()
      modifies this, ComponentIds
      ensures Valid()
      ensures c !in old(Components)
      ensures Components == old(Components)[c := NewComponentNode(name, kind)] && Entities == old(Entities)
    {
      var id := ComponentIds.Allocate();
      c := id;
      Components := Components[c := NewComponentNode(name, kind)];
    }

    /** The part of the `Entity` constructors before the `Transform` is added. */
    method NewEntity(name: string) returns (e: EId)
      requires Valid()
      modifies this, EntityIds
      ensures Valid()
      ensures e !in old(Entities)
      ensures Entities == old(Entities)[e := NewEntityNode(name)] && Components == old(Components)
    {
      var id := EntityIds.Allocate();
      e := id;
      Entities := Entities[e := NewEntityNode(name)];
    }
  }
}
