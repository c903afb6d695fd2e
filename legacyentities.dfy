/**
 * The members of the legacy `GameEngine.Entity` as functions: each returns the answer the method
 * gives (`bool` where it has one) and the scene after. A component is owned directly when its
 * owner is the entity and it has no parent component, and nested when it has both.
 */
module LegacyEntities {
  import opened Outcomes
  import opened Sequences
  import opened LegacyNodes
  import opened LegacyLinks

  /** The answer of a `bool` member and the scene after it. */
  datatype Reply = Reply(Ok: bool, After: Scene)

  /** Owned by `e` with no parent component: what `AddComponent` accepts as already added and what
      `RemoveComponent` requires. */
  predicate OwnedDirectly(g: Scene, e: LEId, comp: LCId)
  {
    g.C(comp).ParentObject == Some(e) && g.C(comp).Parent.None?
  }

  /** `e.AddComponent(comp)`: true at once for a directly owned component; false for one owned by
      any entity otherwise (nested here, or owned elsewhere); else `comp` is appended and its
      subtree attached to `e`. */
  ghost function AddComponent(g: Scene, e: LEId, comp: LCId, rank: map<LCId, nat>): (r: Reply)
    requires Ranked(g, rank)
    ensures r.After.Entities.Keys == g.Entities.Keys && r.After.Components.Keys == g.Components.Keys
    ensures r.Ok == (OwnedDirectly(g, e, comp) || g.C(comp).ParentObject.None?)
    ensures !r.Ok || OwnedDirectly(g, e, comp) ==> r.After == g
  {
    var n := g.C(comp);
    if n.ParentObject == Some(e) && n.Parent.None? then Reply(true, g)
    else if n.ParentObject.Some? then Reply(false, g)
    else
      var listed := g.WithE(e, g.E(e).(Components := g.E(e).Components + [comp]));
      RankedAfterEntityWrite(g, e, g.E(e).(Components := g.E(e).Components + [comp]), rank);
      Reply(true, Attach(listed, comp, Some(e), rank))
  }

  /** The accepting path of `AddComponent`: `comp` is appended to the list of `e`, every component of
      its subtree is owned by `e`, and nothing else changes but those owners. */
  lemma AddComponentAttaches(g: Scene, e: LEId, comp: LCId, rank: map<LCId, nat>)
    requires Ranked(g, rank)
    requires e in g.Entities && g.C(comp).ParentObject.None?
    ensures var r := AddComponent(g, e, comp, rank).After;
      r.E(e) == g.E(e).(Components := g.E(e).Components + [comp])
      && (forall x :: x != e ==> r.E(x) == g.E(x))
      && (forall k :: k in g.Components ==>
            r.C(k).ParentObject == if k in Reach(g, comp, rank) then Some(e) else g.C(k).ParentObject)
      && (forall k :: r.C(k) == g.C(k).(ParentObject := r.C(k).ParentObject))
  {
    var m := g.E(e).(Components := g.E(e).Components + [comp]);
    var listed := g.WithE(e, m);
    RankedAfterEntityWrite(g, e, m, rank);
    assert forall k :: listed.C(k) == g.C(k);
    ReachSameLinks(g, listed, comp, rank);
    AttachOwners(listed, comp, Some(e), rank);
  }

  /** Adding a component that is not in any entity and has no parent makes it directly owned, and
      a second `AddComponent` is then accepted without changing anything. */
  lemma AddComponentIdempotent(g: Scene, e: LEId, comp: LCId, rank: map<LCId, nat>)
    requires Ranked(g, rank)
    requires e in g.Entities && comp in g.Components
    requires g.C(comp).ParentObject.None? && g.C(comp).Parent.None?
    ensures var once := AddComponent(g, e, comp, rank).After;
      OwnedDirectly(once, e, comp) && Ranked(once, rank)
      && AddComponent(once, e, comp, rank) == Reply(true, once)
  {
    AddComponentAttaches(g, e, comp, rank);
    var once := AddComponent(g, e, comp, rank).After;
    assert comp in Reach(g, comp, rank);
    assert once.C(comp) == g.C(comp).(ParentObject := once.C(comp).ParentObject);
    assert forall k :: once.C(k).Children == g.C(k).Children;
    SameChildrenRanked(g, once, rank);
  }

  /** `e.RemoveComponent(comp)`: false unless `comp` is directly owned by `e`; then it leaves the
      list, its subtree is detached, and `Transform` is cleared when it was `comp`. */
  ghost function RemoveComponent(g: Scene, e: LEId, comp: LCId, rank: map<LCId, nat>): (r: Reply)
    requires Ranked(g, rank)
    ensures r.After.Entities.Keys == g.Entities.Keys && r.After.Components.Keys == g.Components.Keys
    ensures r.Ok == OwnedDirectly(g, e, comp)
    ensures !r.Ok ==> r.After == g
  {
    if !OwnedDirectly(g, e, comp) then Reply(false, g)
    else
      var m := g.E(e).(Components := RemoveFirst(g.E(e).Components, comp));
      var listed := g.WithE(e, m);
      RankedAfterEntityWrite(g, e, m, rank);
      var detached := Detach(listed, comp, rank);
      var n := detached.E(e);
      Reply(true, if n.Transform == Some(comp) then detached.WithE(e, n.(Transform := None)) else detached)
  }

  /** The accepting path of `RemoveComponent`: `comp` leaves the list of `e` and ends ownerless,
      `Transform` no longer names it, and no component outside its subtree changes. */
  lemma RemoveComponentDetaches(g: Scene, e: LEId, comp: LCId, rank: map<LCId, nat>)
    requires Ranked(g, rank)
    requires e in g.Entities && comp in g.Components && OwnedDirectly(g, e, comp)
    ensures var r := RemoveComponent(g, e, comp, rank).After;
      r.E(e).Components == RemoveFirst(g.E(e).Components, comp)
      && r.E(e).Transform == (if g.E(e).Transform == Some(comp) then None else g.E(e).Transform)
      && (forall x :: x != e ==> r.E(x) == g.E(x))
      && r.C(comp).ParentObject.None?
      && (forall k :: k !in Reach(g, comp, rank) ==> r.C(k) == g.C(k))
  {
    var m := g.E(e).(Components := RemoveFirst(g.E(e).Components, comp));
    var listed := g.WithE(e, m);
    RankedAfterEntityWrite(g, e, m, rank);
    assert forall k :: listed.C(k) == g.C(k);
    ReachSameLinks(g, listed, comp, rank);
    DetachEffect(listed, comp, rank);
  }

  /** A component added and then removed leaves the entity's list as it was. */
  lemma AddThenRemoveComponent(g: Scene, e: LEId, comp: LCId, rank: map<LCId, nat>)
    requires Ranked(g, rank)
    requires e in g.Entities && comp in g.Components
    requires g.C(comp).ParentObject.None? && g.C(comp).Parent.None?
    requires comp !in g.E(e).Components
    ensures var once := AddComponent(g, e, comp, rank).After;
      Ranked(once, rank)
      && var r := RemoveComponent(once, e, comp, rank);
      r.Ok && r.After.E(e).Components == g.E(e).Components
  {
    AddComponentIdempotent(g, e, comp, rank);
    var once := AddComponent(g, e, comp, rank).After;
    AddComponentAttaches(g, e, comp, rank);
    RemoveComponentDetaches(once, e, comp, rank);
    RemoveAfterAppend(g.E(e).Components, comp);
  }

  /** `e.AddTransform(comp)`: for a component owned by `e`, false when it is nested and otherwise
      it becomes the transform; for one owned elsewhere, false; for an ownerless one, it is added as
      by `AddComponent` and becomes the transform. */
  ghost function AddTransform(g: Scene, e: LEId, comp: LCId, rank: map<LCId, nat>): (r: Reply)
    requires Ranked(g, rank)
    ensures r.After.Entities.Keys == g.Entities.Keys && r.After.Components.Keys == g.Components.Keys
    ensures r.Ok == (OwnedDirectly(g, e, comp) || g.C(comp).ParentObject.None?)
    ensures !r.Ok ==> r.After == g
    ensures r.Ok && e in g.Entities ==> r.After.E(e).Transform == Some(comp)
  {
    var n := g.C(comp);
    if n.ParentObject == Some(e) then
      if n.Parent.Some? then Reply(false, g)
      else Reply(true, g.WithE(e, g.E(e).(Transform := Some(comp))))
    else if n.ParentObject.Some? then Reply(false, g)
    else
      var added := AddComponent(g, e, comp, rank).After;
      Reply(true, added.WithE(e, added.E(e).(Transform := Some(comp))))
  }

  /** The accepting paths of `AddTransform`: a directly owned component only becomes the transform;
      an ownerless one is first added exactly as `AddComponent` adds it. */
  lemma AddTransformEffect(g: Scene, e: LEId, comp: LCId, rank: map<LCId, nat>)
    requires Ranked(g, rank)
    ensures OwnedDirectly(g, e, comp) ==>
      AddTransform(g, e, comp, rank) == Reply(true, g.WithE(e, g.E(e).(Transform := Some(comp))))
    ensures g.C(comp).ParentObject.None? ==>
      var added := AddComponent(g, e, comp, rank).After;
      AddTransform(g, e, comp, rank) == Reply(true, added.WithE(e, added.E(e).(Transform := Some(comp))))
  {
  }

  /** `GetComponents` lists the components in the order they were added: accepting a new one puts
      it last. */
  lemma GetComponentsInOrder(g: Scene, e: LEId, comp: LCId, rank: map<LCId, nat>)
    requires Ranked(g, rank)
    requires e in g.Entities && g.C(comp).ParentObject.None?
    ensures GetComponents(AddComponent(g, e, comp, rank).After, e) == GetComponents(g, e) + [comp]
  {
    AddComponentAttaches(g, e, comp, rank);
  }

  /** `RemoveComponentShallow(comp)` (`deep` false) and `RemoveComponentDeep(comp)` (`deep` true):
      nothing unless `comp` is owned by `e`, nested or not; then it leaves the list (a nested one is
      not in it), is detached, and its children are cleared. `Transform` is left as it was. */
  ghost function RemoveComponentTree(g: Scene, e: LEId, comp: LCId, deep: bool, rank: map<LCId, nat>): (r: Scene)
    requires Ranked(g, rank)
    ensures r.Entities.Keys == g.Entities.Keys && r.Components.Keys == g.Components.Keys
    ensures g.C(comp).ParentObject != Some(e) ==> r == g
  {
    if g.C(comp).ParentObject != Some(e) then g
    else
      var m := g.E(e).(Components := RemoveFirst(g.E(e).Components, comp));
      var listed := g.WithE(e, m);
      RankedAfterEntityWrite(g, e, m, rank);
      var detached := Detach(listed, comp, rank);
      OwnersOnlyRanked(listed, detached, rank);
      ClearChildren(detached, comp, deep, rank)
  }

  /** The accepting path of `RemoveComponentShallow`/`Deep`: `comp` leaves the list and ends with
      neither owner nor children, each former child has neither parent nor owner, the transform
      and the other entities are kept, and no component outside the subtree of `comp` changes. */
  lemma RemoveComponentTreeEffect(g: Scene, e: LEId, comp: LCId, deep: bool, rank: map<LCId, nat>)
    requires Ranked(g, rank)
    requires e in g.Entities && comp in g.Components && g.C(comp).ParentObject == Some(e)
    ensures var r := RemoveComponentTree(g, e, comp, deep, rank);
      r.E(e) == g.E(e).(Components := RemoveFirst(g.E(e).Components, comp))
      && (forall x :: x != e ==> r.E(x) == g.E(x))
      && r.C(comp).ParentObject.None? && r.C(comp).Children == []
      && (forall k :: k in g.C(comp).Children && k in g.Components ==>
            r.C(k).Parent.None? && r.C(k).ParentObject.None?)
      && (forall k :: k !in Reach(g, comp, rank) ==> r.C(k) == g.C(k))
  {
    var m := g.E(e).(Components := RemoveFirst(g.E(e).Components, comp));
    var listed := g.WithE(e, m);
    RankedAfterEntityWrite(g, e, m, rank);
    assert forall k :: listed.C(k) == g.C(k);
    ReachSameLinks(g, listed, comp, rank);
    DetachEffect(listed, comp, rank);
    var detached := Detach(listed, comp, rank);
    OwnersOnlyRanked(listed, detached, rank);
    ReachSameLinks(listed, detached, comp, rank);
    ClearFrame(detached, comp, deep, rank);
  }

  /** `GetComponents()`: the list itself, in the order the components were added. */
  function GetComponents(g: Scene, e: LEId): (r: seq<LCId>)
    ensures forall comp :: comp in r <==> comp in g.E(e).Components
    ensures |r| == |g.E(e).Components|
  {
    g.E(e).Components
  }
}
