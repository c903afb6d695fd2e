/**
 * The part of `GameEngine.ECS.Entity` that manages the entity's own component list: `AddComponent`,
 * `RemoveComponent`, `AddTransform`, `RemoveComponentShallow`/`Deep`, `ClearComponents`, the
 * `UpdateComponents` reconciliation, `GetComponents`, `ForEachComponent` and `Contains(Component)`.
 * A component is listed by an entity when the entity owns it directly: its owner is the entity and it
 * has no parent component.
 */
module EntityComponents {
  import opened Outcomes
  import opened EcsNodes
  import opened EcsLinks
  import opened Sequences
  import ComponentOps

  /** Whether `e` owns `k` directly (`ParentObject == this && Parent == null`). */
  function OwnedDirectly(g: Graph, e: EId): CId -> bool
  {
    (k: CId) => g.C(k).ParentObject == Some(e) && g.C(k).Parent.None?
  }

  // ---- RemoveComponent ----

  /** `e.RemoveComponent(comp)`. It fails unless `e` owns `comp`. For a nested component the request
      is forwarded as `comp.Parent.RemoveComponent(comp.Parent)`, which asks the parent to remove
      itself. For a directly owned one, the entity's `Transform` reference is cleared if it is `comp`,
      `comp`'s subtree is detached from `e`, and the removal is queued (while traversing) or done. */
  ghost function RemoveComponent(g: Graph, e: EId, comp: CId, rank: map<CId, nat>): (r: Step)
    requires ComponentsRanked(g, rank)
    ensures g.C(comp).ParentObject != Some(e) ==> r == Step(g, Failed)
    ensures g.C(comp).ParentObject == Some(e) && g.C(comp).Parent.Some? ==>
      r == ComponentOps.RemoveChild(g, g.C(comp).Parent.value, g.C(comp).Parent.value)
    ensures ComponentsRanked(r.After, rank)
    ensures r.After.Components.Keys == g.Components.Keys && r.After.Entities.Keys == g.Entities.Keys
    ensures forall x :: x != e ==> r.After.E(x) == g.E(x)
  {
    var n := g.C(comp);
    if n.ParentObject != Some(e) then Step(g, Failed)
    else if n.Parent.Some? then
      ComponentOps.RemoveChildShrinks(g, n.Parent.value, n.Parent.value);
      ComponentOps.RankedBySubset(g, ComponentOps.RemoveChild(g, n.Parent.value, n.Parent.value).After, rank);
      ComponentOps.RemoveChild(g, n.Parent.value, n.Parent.value)
    else
      var m := g.E(e);
      var untracked := if m.Transform == Some(comp) then g.WithE(e, m.(Transform := None)) else g;
      RankedAfterEntityWrite(g, e, m.(Transform := None), rank);
      var detached := Detach(untracked, comp, Some(e), rank);
      SameLinksRanked(untracked, detached, rank);
      var held := detached.E(e);
      var n := if held.QueueRemovals then held.(QueuedComponentRemovals := held.QueuedComponentRemovals + [comp])
               else held.(Components := RemoveFirst(held.Components, comp));
      RankedAfterEntityWrite(detached, e, n, rank);
      Step(detached.WithE(e, n), if held.QueueRemovals then Deferred else Succeeded)
  }

  /** The shape of the removal of a directly owned component, step by step. */
  lemma OwnedRemovalForm(g: Graph, e: EId, comp: CId, rank: map<CId, nat>)
    requires ComponentsRanked(g, rank)
    requires OwnedDirectly(g, e)(comp)
    ensures var m := g.E(e);
      var untracked := if m.Transform == Some(comp) then g.WithE(e, m.(Transform := None)) else g;
      ComponentsRanked(untracked, rank)
      && var detached := Detach(untracked, comp, Some(e), rank);
      var held := detached.E(e);
      var n := if held.QueueRemovals then held.(QueuedComponentRemovals := held.QueuedComponentRemovals + [comp])
               else held.(Components := RemoveFirst(held.Components, comp));
      RemoveComponent(g, e, comp, rank) == Step(detached.WithE(e, n), if held.QueueRemovals then Deferred else Succeeded)
  {
    var m := g.E(e);
    RankedAfterEntityWrite(g, e, m.(Transform := None), rank);
  }

  /** Removing a directly owned component: the status follows the traversal flag; the component
      loses its owner; a `Transform` reference to it is cleared; the component list loses it (or the
      removal is queued); and no component changes kind. */
  lemma RemoveOwnedComponent(g: Graph, e: EId, comp: CId, rank: map<CId, nat>)
    requires ComponentsRanked(g, rank)
    requires e in g.Entities && OwnedDirectly(g, e)(comp)
    ensures var r := RemoveComponent(g, e, comp, rank); var m := g.E(e);
      r.Status == (if m.QueueRemovals then Deferred else Succeeded)
      && r.After.C(comp).ParentObject.None?
      && r.After.E(e).Transform == (if m.Transform == Some(comp) then None else m.Transform)
      && r.After.E(e).Components == (if m.QueueRemovals then m.Components else RemoveFirst(m.Components, comp))
      && r.After.E(e).QueuedComponentRemovals == m.QueuedComponentRemovals + (if m.QueueRemovals then [comp] else [])
      && forall k :: r.After.C(k).Kind == g.C(k).Kind
  {
    OwnedRemovalForm(g, e, comp, rank);
    var m := g.E(e);
    var untracked := if m.Transform == Some(comp) then g.WithE(e, m.(Transform := None)) else g;
    RankedAfterEntityWrite(g, e, m.(Transform := None), rank);
    OwnedRemovalResult(g, e, comp, untracked, Detach(untracked, comp, Some(e), rank));
  }

  /** The graph the removal of a directly owned component leaves, given any detach of it that keeps
      the links, kinds and entities and clears its owner. */
  lemma OwnedRemovalResult(g: Graph, e: EId, comp: CId, untracked: Graph, detached: Graph)
    requires e in g.Entities && g.C(comp).ParentObject == Some(e)
    requires untracked == (if g.E(e).Transform == Some(comp) then g.WithE(e, g.E(e).(Transform := None)) else g)
    requires SameLinks(untracked, detached) && detached.C(comp).ParentObject.None?
    requires forall k :: detached.C(k).Kind == untracked.C(k).Kind
    ensures var m := g.E(e); var held := detached.E(e);
      var n := if held.QueueRemovals then held.(QueuedComponentRemovals := held.QueuedComponentRemovals + [comp])
               else held.(Components := RemoveFirst(held.Components, comp));
      var after := detached.WithE(e, n);
      held.QueueRemovals == m.QueueRemovals
      && after.C(comp).ParentObject.None?
      && after.E(e).Transform == (if m.Transform == Some(comp) then None else m.Transform)
      && after.E(e).Components == (if m.QueueRemovals then m.Components else RemoveFirst(m.Components, comp))
      && after.E(e).QueuedComponentRemovals == m.QueuedComponentRemovals + (if m.QueueRemovals then [comp] else [])
      && forall k :: after.C(k).Kind == g.C(k).Kind
  {
    var m := g.E(e);
    OwnedRemovalEntity(g, e, comp, untracked, detached);
    var held := detached.E(e);
    var n := if held.QueueRemovals then held.(QueuedComponentRemovals := held.QueuedComponentRemovals + [comp])
             else held.(Components := RemoveFirst(held.Components, comp));
    OwnedRemovalKinds(g, e, comp, untracked, detached, n);
  }

  /** The entity record the detach leaves: only a `Transform` reference to the component is gone. */
  lemma OwnedRemovalEntity(g: Graph, e: EId, comp: CId, untracked: Graph, detached: Graph)
    requires e in g.Entities
    requires untracked == (if g.E(e).Transform == Some(comp) then g.WithE(e, g.E(e).(Transform := None)) else g)
    requires SameLinks(untracked, detached)
    ensures var m := g.E(e);
      e in detached.Entities && detached.E(e) == m.(Transform := if m.Transform == Some(comp) then None else m.Transform)
  {
  }

  /** Writing the entity record back keeps every component's record, so the detach's kinds and
      cleared owner survive. */
  lemma OwnedRemovalKinds(g: Graph, e: EId, comp: CId, untracked: Graph, detached: Graph, n: EntityNode)
    requires untracked == (if g.E(e).Transform == Some(comp) then g.WithE(e, g.E(e).(Transform := None)) else g)
    requires detached.C(comp).ParentObject.None?
    requires forall k :: detached.C(k).Kind == untracked.C(k).Kind
    ensures var after := detached.WithE(e, n);
      after.C(comp).ParentObject.None? && forall k :: after.C(k).Kind == g.C(k).Kind
  {
    var after := detached.WithE(e, n);
    assert untracked.Components == g.Components;
    forall k
      ensures after.C(k).Kind == g.C(k).Kind
    {
      assert after.C(k) == detached.C(k) && untracked.C(k) == g.C(k);
    }
  }

  /** The forwarded request for a nested component fails, changing nothing, unless that component's
      parent is its own parent. */
  lemma NestedRemovalFails(g: Graph, e: EId, comp: CId, rank: map<CId, nat>)
    requires ComponentsRanked(g, rank)
    requires g.C(comp).ParentObject == Some(e) && g.C(comp).Parent.Some?
    requires var p := g.C(comp).Parent.value; g.C(p).Parent != Some(p)
    ensures RemoveComponent(g, e, comp, rank) == Step(g, Failed)
  {
  }

  // ---- AddComponent and AddTransform ----

  /** The first part of `AddComponent`: the component's current owner is asked to remove it. */
  ghost function Released(g: Graph, comp: CId, rank: map<CId, nat>): (r: Graph)
    requires ComponentsRanked(g, rank)
    ensures ComponentsRanked(r, rank)
    ensures r.Components.Keys == g.Components.Keys && r.Entities.Keys == g.Entities.Keys
    ensures forall x: EId :: g.C(comp).ParentObject != Some(x) ==> r.E(x) == g.E(x)
    ensures forall x: EId :: g.C(comp).Parent.Some? ==> r.E(x) == g.E(x)
  {
    var owner := g.C(comp).ParentObject;
    if owner.Some? then RemoveComponent(g, owner.value, comp, rank).After else g
  }

  /** `e.AddComponent(comp)`. A component `e` already owns directly is left alone and reported as
      added. Otherwise it is released by its old owner, its subtree is attached to `e` at once, and it
      is appended to the component list, or queued while `e` traverses. */
  ghost function AddComponent(g: Graph, e: EId, comp: CId, rank: map<CId, nat>): (r: Step)
    requires ComponentsRanked(g, rank)
    ensures OwnedDirectly(g, e)(comp) ==> r == Step(g, Succeeded)
    ensures ComponentsRanked(r.After, rank)
    ensures r.After.Components.Keys == g.Components.Keys && r.After.Entities.Keys == g.Entities.Keys
  {
    var n := g.C(comp);
    if n.ParentObject == Some(e) && n.Parent.None? then Step(g, Succeeded)
    else
      var released := Released(g, comp, rank);
      var attached := Attach(released, comp, Some(e), rank);
      SameLinksRanked(released, attached, rank);
      var m := attached.E(e);
      var n := if m.QueueRemovals then m.(QueuedComponentAdds := m.QueuedComponentAdds + [comp])
               else m.(Components := m.Components + [comp]);
      RankedAfterEntityWrite(attached, e, n, rank);
      Step(attached.WithE(e, n), if m.QueueRemovals then Deferred else Succeeded)
  }

  /** Adding a component `e` does not own directly attaches its whole subtree (as the old owner left
      it) to `e` at once, even when the add is only queued; the component list gains it unless `e`
      traverses. */
  lemma AddForeignComponent(g: Graph, e: EId, comp: CId, rank: map<CId, nat>)
    requires ComponentsRanked(g, rank)
    requires e in g.Entities && !OwnedDirectly(g, e)(comp)
    ensures var r := AddComponent(g, e, comp, rank); var released := Released(g, comp, rank); var m := g.E(e);
      r.Status == (if m.QueueRemovals then Deferred else Succeeded)
      && r.After.E(e).Components == m.Components + (if m.QueueRemovals then [] else [comp])
      && r.After.E(e).QueuedComponentAdds == m.QueuedComponentAdds + (if m.QueueRemovals then [comp] else [])
      && r.After.E(e).Transform == m.Transform
      && forall k :: k in g.Components ==>
           r.After.C(k).ParentObject == if k in Reach(released, comp, rank) then Some(e) else released.C(k).ParentObject
  {
    var released := Released(g, comp, rank);
    assert released.E(e) == g.E(e);
    var attached := Attach(released, comp, Some(e), rank);
    AttachOwners(released, comp, Some(e), rank);
    assert attached.E(e) == g.E(e);
  }

  /** `e.AddTransform(comp)`: records `comp` as the entity's transform, then adds it. */
  ghost function AddTransform(g: Graph, e: EId, comp: CId, rank: map<CId, nat>): (r: Step)
    requires ComponentsRanked(g, rank)
    requires g.C(comp).Kind.Transform?
    ensures ComponentsRanked(r.After, rank)
  {
    RankedAfterEntityWrite(g, e, g.E(e).(Transform := Some(comp)), rank);
    AddComponent(g.WithE(e, g.E(e).(Transform := Some(comp))), e, comp, rank)
  }

  /** After `AddTransform` the entity's transform is the added component, whatever the add did. */
  lemma AddTransformSetsTransform(g: Graph, e: EId, comp: CId, rank: map<CId, nat>)
    requires ComponentsRanked(g, rank)
    requires e in g.Entities && g.C(comp).Kind.Transform?
    ensures AddTransform(g, e, comp, rank).After.E(e).Transform == Some(comp)
  {
    var h := g.WithE(e, g.E(e).(Transform := Some(comp)));
    RankedAfterEntityWrite(g, e, g.E(e).(Transform := Some(comp)), rank);
    if !OwnedDirectly(h, e)(comp) {
      AddForeignComponent(h, e, comp, rank);
    }
  }

  // ---- The constructor ----

  /** The `Entity(name, makeTransform)` constructors once both handles are allocated: the fresh entity
      `e` and the fresh transform `t` are registered, and `t` is added as the transform of `e`. */
  ghost function Spawned(g: Graph, name: string, e: EId, t: CId, node: ComponentNode, rank: map<CId, nat>): (r: Step)
    requires ComponentsRanked(g, rank)
    requires node.Kind.Transform? && node.Children == []
    ensures ComponentsRanked(r.After, rank)
  {
    var h := Graph(g.Components[t := node], g.Entities[e := NewEntityNode(name)]);
    FreshRanked(g, t, node, e, NewEntityNode(name), rank);
    AddTransform(h, e, t, rank)
  }

  /** Registering a childless component and an entity keeps every ranking. */
  lemma FreshRanked(g: Graph, t: CId, node: ComponentNode, e: EId, m: EntityNode, rank: map<CId, nat>)
    requires ComponentsRanked(g, rank) && node.Children == []
    ensures ComponentsRanked(Graph(g.Components[t := node], g.Entities[e := m]), rank)
  {
    var h := Graph(g.Components[t := node], g.Entities[e := m]);
    assert forall c :: c != t ==> h.C(c) == g.C(c);
  }

  /** A freshly constructed entity owns exactly its transform, which it lists as its only component; it
      has no parent and no children, and no other entity changes. */
  lemma SpawnedShape(g: Graph, name: string, e: EId, t: CId, node: ComponentNode, rank: map<CId, nat>)
    requires ComponentsRanked(g, rank)
    requires node.Kind.Transform? && node.Children == [] && node.Parent.None? && node.ParentObject.None?
    requires e !in g.Entities && t !in g.Components
    ensures var r := Spawned(g, name, e, t, node, rank);
      r.Status == Succeeded
      && r.After.Components.Keys == g.Components.Keys + {t}
      && r.After.Entities.Keys == g.Entities.Keys + {e}
      && r.After.E(e) == NewEntityNode(name).(Transform := Some(t), Components := [t])
      && (forall k :: k != e ==> r.After.E(k) == g.E(k))
      && r.After.C(t).ParentObject == Some(e)
  {
    var h := Graph(g.Components[t := node], g.Entities[e := NewEntityNode(name)]);
    FreshRanked(g, t, node, e, NewEntityNode(name), rank);
    var named := h.WithE(e, h.E(e).(Transform := Some(t)));
    RankedAfterEntityWrite(h, e, h.E(e).(Transform := Some(t)), rank);
    var attached := SpawnedAttach(g, name, e, t, node, rank);
    SpawnedTables(g, h, named, attached, name, e, t, node);
  }

  /** The tables the constructor leaves once `t` is attached: the two new handles and nothing else. */
  lemma SpawnedTables(g: Graph, h: Graph, named: Graph, attached: Graph, name: string, e: EId, t: CId, node: ComponentNode)
    requires h == Graph(g.Components[t := node], g.Entities[e := NewEntityNode(name)])
    requires named == h.WithE(e, h.E(e).(Transform := Some(t)))
    requires SameLinks(named, attached) && attached.C(t).ParentObject == Some(e)
    requires e !in g.Entities
    ensures var done := attached.WithE(e, NewEntityNode(name).(Transform := Some(t), Components := [t]));
      done.Components.Keys == g.Components.Keys + {t}
      && done.Entities.Keys == g.Entities.Keys + {e}
      && done.E(e) == NewEntityNode(name).(Transform := Some(t), Components := [t])
      && (forall k :: k != e ==> done.E(k) == g.E(k))
      && done.C(t).ParentObject == Some(e)
  {
    assert forall k :: k != e ==> named.E(k) == g.E(k);
  }

  /** The add inside the constructor attaches `t` to `e` and lists it, without a release step. */
  lemma SpawnedAttach(g: Graph, name: string, e: EId, t: CId, node: ComponentNode, rank: map<CId, nat>)
    returns (attached: Graph)
    requires ComponentsRanked(g, rank)
    requires node.Kind.Transform? && node.Children == [] && node.ParentObject.None?
    requires e !in g.Entities && t !in g.Components
    ensures var h := Graph(g.Components[t := node], g.Entities[e := NewEntityNode(name)]);
      var named := h.WithE(e, h.E(e).(Transform := Some(t)));
      ComponentsRanked(named, rank)
      && attached == Attach(named, t, Some(e), rank)
      && Spawned(g, name, e, t, node, rank)
         == Step(attached.WithE(e, NewEntityNode(name).(Transform := Some(t), Components := [t])), Succeeded)
      && attached.C(t).ParentObject == Some(e)
  {
    var h := Graph(g.Components[t := node], g.Entities[e := NewEntityNode(name)]);
    FreshRanked(g, t, node, e, NewEntityNode(name), rank);
    var named := h.WithE(e, h.E(e).(Transform := Some(t)));
    RankedAfterEntityWrite(h, e, h.E(e).(Transform := Some(t)), rank);
    assert named.C(t) == node;
    assert Released(named, t, rank) == named;
    attached := Attach(named, t, Some(e), rank);
    var notified := Owned(named, t, Some(e));
    SameLinksRanked(named, notified, rank);
    assert attached == AttachAll(notified, t, [], Some(e), rank);
    assert attached.E(e) == NewEntityNode(name).(Transform := Some(t));
    assert Spawned(g, name, e, t, node, rank) == AddTransform(h, e, t, rank);
    assert AddTransform(h, e, t, rank) == AddComponent(named, e, t, rank);
    var m := attached.E(e);
    assert !m.QueueRemovals;
    assert m.(Components := m.Components + [t]) == NewEntityNode(name).(Transform := Some(t), Components := [t]);
  }

  // ---- RemoveComponentShallow / RemoveComponentDeep ----

  /** `RemoveComponentShallow` (`deep` false) and `RemoveComponentDeep` (`deep` true). They fail unless
      `e` owns `comp` (nested or not). The subtree is detached from `e`; then the removal is queued while
      `e` traverses, or else `comp` leaves the list and its children are cleared, shallowly or deeply.
      The `Transform` reference is not touched. */
  ghost function RemoveDetached(g: Graph, e: EId, comp: CId, deep: bool, rank: map<CId, nat>): (r: Step)
    requires ComponentsRanked(g, rank)
    ensures g.C(comp).ParentObject != Some(e) ==> r == Step(g, Failed)
    ensures ComponentsRanked(r.After, rank)
    ensures r.After.Components.Keys == g.Components.Keys && r.After.Entities.Keys == g.Entities.Keys
    ensures forall x :: x != e ==> r.After.E(x) == g.E(x)
  {
    if g.C(comp).ParentObject != Some(e) then Step(g, Failed)
    else
      var detached := Detach(g, comp, Some(e), rank);
      SameLinksRanked(g, detached, rank);
      var m := detached.E(e);
      if m.QueueRemovals then
        RankedAfterEntityWrite(detached, e, m.(QueuedComponentRemovals := m.QueuedComponentRemovals + [comp]), rank);
        Step(detached.WithE(e, m.(QueuedComponentRemovals := m.QueuedComponentRemovals + [comp])), Deferred)
      else
        var removed := detached.WithE(e, m.(Components := RemoveFirst(m.Components, comp)));
        RankedAfterEntityWrite(detached, e, m.(Components := RemoveFirst(m.Components, comp)), rank);
        Step(ClearChildren(removed, comp, deep, rank).After, Succeeded)
  }

  /** A shallow or deep removal of an owned component: it loses its owner at once; outside traversal
      it leaves the list and, unless it is traversing itself, its child list empties and each former
      child loses parent and owner; the `Transform` reference stays as it was. */
  lemma RemoveDetachedEffects(g: Graph, e: EId, comp: CId, deep: bool, rank: map<CId, nat>)
    requires ComponentsRanked(g, rank)
    requires e in g.Entities && g.C(comp).ParentObject == Some(e)
    ensures var r := RemoveDetached(g, e, comp, deep, rank); var m := g.E(e);
      r.Status == (if m.QueueRemovals then Deferred else Succeeded)
      && r.After.C(comp).ParentObject.None?
      && r.After.E(e).Transform == m.Transform
      && r.After.E(e).Components == (if m.QueueRemovals then m.Components else RemoveFirst(m.Components, comp))
      && (!m.QueueRemovals && !g.C(comp).QueueRemovals ==>
            r.After.C(comp).Children == []
            && forall k :: k in g.C(comp).Children && k in g.Components ==>
                 r.After.C(k).Parent.None? && r.After.C(k).ParentObject.None?)
  {
    var detached := Detach(g, comp, Some(e), rank);
    SameLinksRanked(g, detached, rank);
    assert Frame(detached.C(comp)) == Frame(g.C(comp));
  }

  // ---- ClearComponents ----

  /** The first loop of `ClearComponents`: each listed component is detached from `e`. */
  ghost function DetachEach(g: Graph, e: EId, kids: seq<CId>, rank: map<CId, nat>): (r: Graph)
    requires ComponentsRanked(g, rank)
    ensures SameLinks(g, r) && ComponentsRanked(r, rank)
    ensures forall k :: r.C(k).Kind == g.C(k).Kind
    ensures forall k :: r.C(k).ParentObject == g.C(k).ParentObject || r.C(k).ParentObject.None?
    ensures forall k :: k in kids && g.C(k).ParentObject == Some(e) ==> r.C(k).ParentObject.None?
  {
    if |kids| == 0 then g
    else
      var before := DetachEach(g, e, kids[..|kids| - 1], rank);
      var r := Detach(before, kids[|kids| - 1], Some(e), rank);
      SameLinksRanked(before, r, rank);
      r
  }

  /** The second loop of a deep `ClearComponents`: each listed component clears its children deeply. */
  ghost function ClearEachDeep(g: Graph, kids: seq<CId>, rank: map<CId, nat>): (r: Graph)
    requires ComponentsRanked(g, rank)
    ensures OnlyClears(g, r) && ComponentsRanked(r, rank)
  {
    if |kids| == 0 then g
    else
      var before := ClearEachDeep(g, kids[..|kids| - 1], rank);
      var r := ClearChildren(before, kids[|kids| - 1], true, rank).After;
      OnlyClearsTransitive(g, before, r);
      r
  }

  /** One more turn of the detach loop of `ClearComponents`. */
  lemma DetachEachStep(g: Graph, e: EId, kids: seq<CId>, i: nat, rank: map<CId, nat>)
    requires ComponentsRanked(g, rank)
    requires i < |kids|
    ensures ComponentsRanked(DetachEach(g, e, kids[..i], rank), rank)
    ensures DetachEach(g, e, kids[..i + 1], rank) == Detach(DetachEach(g, e, kids[..i], rank), kids[i], Some(e), rank)
  {
    assert kids[..i + 1][..i] == kids[..i];
  }

  /** One more turn of the deep-clear loop of `ClearComponents`. */
  lemma ClearEachDeepStep(g: Graph, kids: seq<CId>, i: nat, rank: map<CId, nat>)
    requires ComponentsRanked(g, rank)
    requires i < |kids|
    ensures ComponentsRanked(ClearEachDeep(g, kids[..i], rank), rank)
    ensures ClearEachDeep(g, kids[..i + 1], rank) == ClearChildren(ClearEachDeep(g, kids[..i], rank), kids[i], true, rank).After
  {
    assert kids[..i + 1][..i] == kids[..i];
  }

  /** `e.ClearComponents(deep)`: every listed component is detached from `e` at once, even when the
      clear itself is deferred (flags only, while traversing); otherwise, after the components clear
      their children (deep), the list empties. */
  ghost function ClearComponents(g: Graph, e: EId, deep: bool, rank: map<CId, nat>): (r: Step)
    requires ComponentsRanked(g, rank)
    ensures r.Status == (if g.E(e).QueueRemovals then Deferred else Succeeded)
    ensures ComponentsRanked(r.After, rank)
    ensures r.After.Components.Keys == g.Components.Keys && r.After.Entities.Keys == g.Entities.Keys
    ensures forall x :: x != e ==> r.After.E(x) == g.E(x)
    ensures forall k :: r.After.C(k).Kind == g.C(k).Kind
    ensures forall k :: k in g.E(e).Components && g.C(k).ParentObject == Some(e) ==> r.After.C(k).ParentObject.None?
    ensures e in g.Entities && g.E(e).QueueRemovals ==>
      r.After.E(e) == g.E(e).(ClearAllComponents := true, ClearAllComponentsDeep := g.E(e).ClearAllComponentsDeep || deep)
    ensures e in g.Entities && !g.E(e).QueueRemovals ==> r.After.E(e) == g.E(e).(Components := [])
  {
    var detached := DetachEach(g, e, g.E(e).Components, rank);
    var m := detached.E(e);
    if m.QueueRemovals then
      RankedAfterEntityWrite(detached, e, m.(ClearAllComponents := true, ClearAllComponentsDeep := m.ClearAllComponentsDeep || deep), rank);
      Step(detached.WithE(e, m.(ClearAllComponents := true, ClearAllComponentsDeep := m.ClearAllComponentsDeep || deep)), Deferred)
    else
      var cleared := if deep then ClearEachDeep(detached, m.Components, rank) else detached;
      RankedAfterEntityWrite(cleared, e, cleared.E(e).(Components := []), rank);
      Step(cleared.WithE(e, cleared.E(e).(Components := [])), Succeeded)
  }

  // ---- UpdateComponents ----

  /** An entity record with its component-side state set aside. */
  function TreePart(n: EntityNode): EntityNode
  {
    n.(Components := [], ClearAllComponents := false, ClearAllComponentsDeep := false,
       QueuedComponentRemovals := [], QueuedComponentAdds := [])
  }

  /** `UpdateComponents()`: a recorded clear runs as `ClearComponents` and discards both queues;
      otherwise a queued removal drops a component no longer owned directly, then a queued add appends a
      directly owned component not yet listed, and the queues and flags reset. */
  ghost function UpdateComponents(g: Graph, e: EId, rank: map<CId, nat>): (r: Graph)
    requires ComponentsRanked(g, rank)
    ensures ComponentsRanked(r, rank)
    ensures r.Components.Keys == g.Components.Keys && r.Entities.Keys == g.Entities.Keys
    ensures forall x :: x != e ==> r.E(x) == g.E(x)
    ensures TreePart(r.E(e)) == TreePart(g.E(e))
    ensures e in g.Entities ==>
      var n := r.E(e);
      !n.ClearAllComponents && !n.ClearAllComponentsDeep && n.QueuedComponentRemovals == [] && n.QueuedComponentAdds == []
    ensures !g.E(e).ClearAllComponents ==>
      r.Components == g.Components
      && (e in g.Entities ==> r.E(e).Components == ReconciledComponents(g, e))
    ensures g.E(e).ClearAllComponents && !g.E(e).QueueRemovals && e in g.Entities ==> r.E(e).Components == []
  {
    var m := g.E(e);
    if m.ClearAllComponents then
      var cleared := ClearComponents(g, e, m.ClearAllComponentsDeep, rank).After;
      var n := cleared.E(e);
      RankedAfterEntityWrite(cleared, e, n.(ClearAllComponents := false, ClearAllComponentsDeep := false,
                          QueuedComponentRemovals := [], QueuedComponentAdds := []), rank);
      cleared.WithE(e, n.(ClearAllComponents := false, ClearAllComponentsDeep := false,
                          QueuedComponentRemovals := [], QueuedComponentAdds := []))
    else
      RankedAfterEntityWrite(g, e, m.(ClearAllComponentsDeep := false, Components := ReconciledComponents(g, e),
                    QueuedComponentRemovals := [], QueuedComponentAdds := []), rank);
      g.WithE(e, m.(ClearAllComponentsDeep := false, Components := ReconciledComponents(g, e),
                    QueuedComponentRemovals := [], QueuedComponentAdds := []))
  }

  /** Both loops of the component reconciliation. */
  function ReconciledComponents(g: Graph, e: EId): seq<CId>
  {
    var m := g.E(e);
    AppendArrivals(DropDeparted(m.Components, m.QueuedComponentRemovals, OwnedDirectly(g, e)),
                   m.QueuedComponentAdds, OwnedDirectly(g, e))
  }

  // ---- GetComponents, ForEachComponent, Contains(Component) ----

  /** `GetComponents()`: a copy of the list; while traversing, only the components `e` still owns
      directly, in order (the same list when none has left). */
  function ComponentsView(g: Graph, e: EId): (r: seq<CId>)
    ensures !g.E(e).QueueRemovals ==> r == g.E(e).Components
    ensures g.E(e).QueueRemovals ==> r == Filter(g.E(e).Components, OwnedDirectly(g, e))
    ensures forall x :: x in r <==> x in g.E(e).Components && (g.E(e).QueueRemovals ==> OwnedDirectly(g, e)(x))
  {
    var keep := OwnedDirectly(g, e);
    FilterMembersAll(g.E(e).Components, keep);
    if !g.E(e).QueueRemovals then g.E(e).Components
    else if Rejected(g.E(e).Components, keep) == 0 then
      FilterNoneRejected(g.E(e).Components, keep);
      g.E(e).Components
    else Filter(g.E(e).Components, keep)
  }

  /** `ForEachComponent(recursive, callback)`: the walk of `ForEachChild` over the component list. */
  ghost function ForEachComponent(g: Graph, e: EId, recursive: bool, callback: CId -> VisitType, rank: map<CId, nat>): (r: VisitType)
    requires ComponentsRanked(g, rank)
    ensures r != Skip
  {
    ComponentOps.Visit(g, g.E(e).Components, RankBound(rank, g.E(e).Components), recursive, callback, rank)
  }

  /** A flat walk of the components stops exactly when the callback stops on one of them. */
  lemma FlatForEachComponent(g: Graph, e: EId, callback: CId -> VisitType, rank: map<CId, nat>)
    requires ComponentsRanked(g, rank)
    ensures ForEachComponent(g, e, false, callback, rank) == Stop <==>
      exists i :: 0 <= i < |g.E(e).Components| && callback(g.E(e).Components[i]) == Stop
  {
    ComponentOps.FlatVisitStops(g, g.E(e).Components, RankBound(rank, g.E(e).Components), callback, rank);
  }

  /** A recursive walk of the components stops exactly when one of them stops it, directly or through
      the walk of its children; a `Skip` hides just that component's subtree. */
  lemma RecursiveForEachComponent(g: Graph, e: EId, callback: CId -> VisitType, rank: map<CId, nat>)
    requires ComponentsRanked(g, rank)
    ensures ForEachComponent(g, e, true, callback, rank) == Stop <==>
      exists k :: k in g.E(e).Components && ComponentOps.StopsUnder(g, k, callback, rank)
  {
    ComponentOps.RecursiveVisitStops(g, g.E(e).Components, RankBound(rank, g.E(e).Components), callback, rank);
  }

  /** A callback that skips every listed component makes the walk continue, whatever lies below. */
  lemma SkippedForEachComponent(g: Graph, e: EId, recursive: bool, callback: CId -> VisitType, rank: map<CId, nat>)
    requires ComponentsRanked(g, rank)
    requires forall k :: k in g.E(e).Components ==> callback(k) == Skip
    ensures ForEachComponent(g, e, recursive, callback, rank) == Continue
  {
    ComponentOps.SkippedVisitContinues(g, g.E(e).Components, RankBound(rank, g.E(e).Components), recursive, callback, rank);
  }

  /** `Contains(component)`: whether `target` is in the component view or contained by one of it. */
  ghost function ContainsComponent(g: Graph, e: EId, target: CId, rank: map<CId, nat>): bool
    requires ComponentsRanked(g, rank)
  {
    var view := ComponentsView(g, e);
    ComponentOps.ContainsAny(g, view, RankBound(rank, view), target, rank)
  }

  /** Outside any traversal, `Contains(component)` holds exactly when `target` lies in the subtree of
      one of the listed components. */
  lemma ContainsComponentIsReach(g: Graph, e: EId, target: CId, rank: map<CId, nat>)
    requires ComponentsRanked(g, rank)
    requires !g.E(e).QueueRemovals && forall k :: !g.C(k).QueueRemovals
    ensures ContainsComponent(g, e, target, rank) <==>
      exists i :: 0 <= i < |g.E(e).Components| && target in Reach(g, g.E(e).Components[i], rank)
  {
    var view := ComponentsView(g, e);
    ComponentOps.ContainsAnyIsReach(g, view, RankBound(rank, view), target, rank);
  }
}
