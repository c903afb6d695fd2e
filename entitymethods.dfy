/**
 * The members of `GameEngine.ECS.Entity` as methods on a `Worlds.World`: the receiver is the handle
 * `e`. Each method is proved to compute the function of `EntityComponents` or `EntityTree` that
 * describes it. The ghost `rank` and `erank` maps witness that the component and entity child lists
 * are well founded, and `depth` that the entity `Parent` chain is.
 */
module EntityMethods {
  import opened Outcomes
  import opened EcsNodes
  import opened EcsLinks
  import opened Sequences
  import ComponentOps
  import EntityComponents
  import EntityTree
  import ComponentMethods
  import Kinds
  import opened Worlds

  // ---- AddComponent / RemoveComponent / AddTransform ----

  /** `e.RemoveComponent(comp)`. */
  method RemoveComponent(w: World, e: EId, comp: CId, ghost rank: map<CId, nat>) returns (status: ChildUpdateStatus)
    requires ComponentsRanked(w.State(), rank)
    modifies w
    ensures Step(w.State(), status) == EntityComponents.RemoveComponent(old(w.State()), e, comp, rank)
  {
    var n := w.C(comp);
    if n.ParentObject != Some(e) {
      return Failed;
    }
    if n.Parent.Some? {
      status := ComponentMethods.RemoveComponent(w, n.Parent.value, n.Parent.value);
      return;
    }
    ghost var g := w.State();
    var m := w.E(e);
    if m.Transform == Some(comp) {
      w.SetEntity(e, m.(Transform := None));
    }
    RankedAfterEntityWrite(g, e, m.(Transform := None), rank);
    ComponentMethods.DetatchInternal(w, comp, Some(e), rank);
    var held := w.E(e);
    if held.QueueRemovals {
      w.SetEntity(e, held.(QueuedComponentRemovals := held.QueuedComponentRemovals + [comp]));
      return Deferred;
    }
    w.SetEntity(e, held.(Components := RemoveFirst(held.Components, comp)));
    return Succeeded;
  }

  /** `e.AddComponent(comp)`. */
  method AddComponent(w: World, e: EId, comp: CId, ghost rank: map<CId, nat>) returns (status: ChildUpdateStatus)
    requires ComponentsRanked(w.State(), rank)
    modifies w
    ensures Step(w.State(), status) == EntityComponents.AddComponent(old(w.State()), e, comp, rank)
  {
    ghost var g := w.State();
    var n := w.C(comp);
    if n.ParentObject == Some(e) && n.Parent.None? {
      return Succeeded;
    }
    if n.ParentObject.Some? {
      var _ := RemoveComponent(w, n.ParentObject.value, comp, rank);
    }
    assert w.State() == EntityComponents.Released(g, comp, rank);
    ComponentMethods.AttachToInternal(w, comp, Some(e), rank);
    var m := w.E(e);
    if m.QueueRemovals {
      w.SetEntity(e, m.(QueuedComponentAdds := m.QueuedComponentAdds + [comp]));
      return Deferred;
    }
    w.SetEntity(e, m.(Components := m.Components + [comp]));
    return Succeeded;
  }

  /** `e.AddTransform(comp)`. */
  method AddTransform(w: World, e: EId, comp: CId, ghost rank: map<CId, nat>) returns (status: ChildUpdateStatus)
    requires ComponentsRanked(w.State(), rank)
    requires w.C(comp).Kind.Transform?
    modifies w
    ensures Step(w.State(), status) == EntityComponents.AddTransform(old(w.State()), e, comp, rank)
  {
    ghost var g := w.State();
    w.SetEntity(e, w.E(e).(Transform := Some(comp)));
    RankedAfterEntityWrite(g, e, g.E(e).(Transform := Some(comp)), rank);
    status := AddComponent(w, e, comp, rank);
  }

  // ---- RemoveComponentShallow / RemoveComponentDeep ----

  /** The body `RemoveComponentShallow` (`deep` false) and `RemoveComponentDeep` (`deep` true) share. */
  method RemoveDetached(w: World, e: EId, comp: CId, deep: bool, ghost rank: map<CId, nat>) returns (status: ChildUpdateStatus)
    requires ComponentsRanked(w.State(), rank)
    modifies w
    ensures Step(w.State(), status) == EntityComponents.RemoveDetached(old(w.State()), e, comp, deep, rank)
  {
    if w.C(comp).ParentObject != Some(e) {
      return Failed;
    }
    ghost var g := w.State();
    ComponentMethods.DetatchInternal(w, comp, Some(e), rank);
    SameLinksRanked(g, w.State(), rank);
    var m := w.E(e);
    if m.QueueRemovals {
      w.SetEntity(e, m.(QueuedComponentRemovals := m.QueuedComponentRemovals + [comp]));
      return Deferred;
    }
    ghost var detached := w.State();
    w.SetEntity(e, m.(Components := RemoveFirst(m.Components, comp)));
    RankedAfterEntityWrite(detached, e, m.(Components := RemoveFirst(m.Components, comp)), rank);
    var _ := ComponentMethods.ClearChildren(w, comp, deep, rank);
    return Succeeded;
  }

  /** `e.RemoveComponentShallow(comp)`. */
  method RemoveComponentShallow(w: World, e: EId, comp: CId, ghost rank: map<CId, nat>) returns (status: ChildUpdateStatus)
    requires ComponentsRanked(w.State(), rank)
    modifies w
    ensures Step(w.State(), status) == EntityComponents.RemoveDetached(old(w.State()), e, comp, false, rank)
  {
    status := RemoveDetached(w, e, comp, false, rank);
  }

  /** `e.RemoveComponentDeep(comp)`. */
  method RemoveComponentDeep(w: World, e: EId, comp: CId, ghost rank: map<CId, nat>) returns (status: ChildUpdateStatus)
    requires ComponentsRanked(w.State(), rank)
    modifies w
    ensures Step(w.State(), status) == EntityComponents.RemoveDetached(old(w.State()), e, comp, true, rank)
  {
    status := RemoveDetached(w, e, comp, true, rank);
  }

  // ---- ClearComponents ----

  /** `e.ClearComponents(deep)`. */
  method ClearComponents(w: World, e: EId, deep: bool, ghost rank: map<CId, nat>) returns (status: ChildUpdateStatus)
    requires ComponentsRanked(w.State(), rank)
    modifies w
    ensures Step(w.State(), status) == EntityComponents.ClearComponents(old(w.State()), e, deep, rank)
  {
    ghost var g := w.State();
    var kids := w.E(e).Components;
    DetachComponents(w, e, kids, rank);
    var m := w.E(e);
    if m.QueueRemovals {
      w.SetEntity(e, m.(ClearAllComponents := true, ClearAllComponentsDeep := m.ClearAllComponentsDeep || deep));
      return Deferred;
    }
    if deep {
      ClearComponentsDeep(w, kids, rank);
    }
    w.SetEntity(e, w.E(e).(Components := []));
    return Succeeded;
  }

  /** The first loop of `ClearComponents`: `component.DetatchInternal(this)` for each listed one. */
  method DetachComponents(w: World, e: EId, kids: seq<CId>, ghost rank: map<CId, nat>)
    requires ComponentsRanked(w.State(), rank)
    modifies w
    ensures w.State() == EntityComponents.DetachEach(old(w.State()), e, kids, rank)
  {
    ghost var g := w.State();
    for i := 0 to |kids|
      invariant w.State() == EntityComponents.DetachEach(g, e, kids[..i], rank)
    {
      EntityComponents.DetachEachStep(g, e, kids, i, rank);
      ComponentMethods.DetatchInternal(w, kids[i], Some(e), rank);
    }
    assert kids[..|kids|] == kids;
  }

  /** The second loop of a deep `ClearComponents`: `component.ClearChildren(true)` for each one. */
  method ClearComponentsDeep(w: World, kids: seq<CId>, ghost rank: map<CId, nat>)
    requires ComponentsRanked(w.State(), rank)
    modifies w
    ensures w.State() == EntityComponents.ClearEachDeep(old(w.State()), kids, rank)
  {
    ghost var g := w.State();
    for i := 0 to |kids|
      invariant w.State() == EntityComponents.ClearEachDeep(g, kids[..i], rank)
    {
      EntityComponents.ClearEachDeepStep(g, kids, i, rank);
      var _ := ComponentMethods.ClearChildren(w, kids[i], true, rank);
    }
    assert kids[..|kids|] == kids;
  }

  // ---- UpdateComponents ----

  /** `UpdateComponents()`: the recorded clear, or the two reconciliation loops. The loops only read
      the owners and parents of the queued components, so the list they edit is kept in a local and
      written back with the reset queues and flags. */
  method UpdateComponents(w: World, e: EId, ghost rank: map<CId, nat>)
    requires ComponentsRanked(w.State(), rank)
    modifies w
    ensures w.State() == EntityComponents.UpdateComponents(old(w.State()), e, rank)
  {
    var m := w.E(e);
    if m.ClearAllComponents {
      var _ := ClearComponents(w, e, m.ClearAllComponentsDeep, rank);
      var n := w.E(e);
      w.SetEntity(e, n.(ClearAllComponents := false, ClearAllComponentsDeep := false,
                        QueuedComponentRemovals := [], QueuedComponentAdds := []));
      return;
    }
    var kept := DropDisowned(w, e, m.Components, m.QueuedComponentRemovals);
    var listed := AppendOwned(w, e, kept, m.QueuedComponentAdds);
    w.SetEntity(e, m.(ClearAllComponentsDeep := false, Components := listed,
                      QueuedComponentRemovals := [], QueuedComponentAdds := []));
  }

  /** The queued-removal loop of `UpdateComponents`: a queued component that `e` no longer owns
      directly loses one occurrence from the list. */
  method DropDisowned(w: World, e: EId, kids: seq<CId>, queue: seq<CId>) returns (r: seq<CId>)
    ensures r == DropDeparted(kids, queue, EntityComponents.OwnedDirectly(w.State(), e))
  {
    ghost var stays := EntityComponents.OwnedDirectly(w.State(), e);
    r := kids;
    for i := 0 to |queue|
      invariant r == DropDeparted(kids, queue[..i], stays)
    {
      var k := queue[i];
      DropDepartedStep(kids, queue, i, stays);
      assert stays(k) == (w.C(k).ParentObject == Some(e) && w.C(k).Parent.None?);
      if !(w.C(k).ParentObject == Some(e) && w.C(k).Parent.None?) {
        r := RemoveFirst(r, k);
      }
    }
    assert queue[..|queue|] == queue;
  }

  /** The queued-add loop of `UpdateComponents`: a queued component `e` owns directly and does not
      list yet is appended. */
  method AppendOwned(w: World, e: EId, kids: seq<CId>, queue: seq<CId>) returns (r: seq<CId>)
    ensures r == AppendArrivals(kids, queue, EntityComponents.OwnedDirectly(w.State(), e))
  {
    ghost var stays := EntityComponents.OwnedDirectly(w.State(), e);
    r := kids;
    for i := 0 to |queue|
      invariant r == AppendArrivals(kids, queue[..i], stays)
    {
      var k := queue[i];
      AppendArrivalsStep(kids, queue, i, stays);
      assert stays(k) == (w.C(k).ParentObject == Some(e) && w.C(k).Parent.None?);
      if w.C(k).ParentObject == Some(e) && w.C(k).Parent.None? && k !in r {
        r := r + [k];
      }
    }
    assert queue[..|queue|] == queue;
  }

  // ---- GetComponents, ForEachComponent, Contains(Component) ----

  /** `GetComponents()`: a copy of the list, or, while traversing, the components still owned
      directly, counted by the first loop and copied into an array of that size by the second. */
  method GetComponents(w: World, e: EId) returns (r: seq<CId>)
    ensures r == EntityComponents.ComponentsView(w.State(), e)
  {
    var kids := w.E(e).Components;
    if !w.E(e).QueueRemovals {
      return kids;
    }
    var removed := CountDisowned(w, e);
    if removed == 0 {
      FilterNoneRejected(kids, EntityComponents.OwnedDirectly(w.State(), e));
      return kids;
    }
    FilterLength(kids, EntityComponents.OwnedDirectly(w.State(), e));
    r := CopyOwned(w, e, |kids| - removed);
  }

  /** The first loop of `GetComponents()`: the listed components `e` no longer owns directly. */
  method CountDisowned(w: World, e: EId) returns (removed: nat)
    ensures removed == Rejected(w.E(e).Components, EntityComponents.OwnedDirectly(w.State(), e))
  {
    var kids := w.E(e).Components;
    ghost var keep := EntityComponents.OwnedDirectly(w.State(), e);
    removed := 0;
    for i := 0 to |kids|
      invariant removed == Rejected(kids[..i], keep)
    {
      assert kids[..i + 1][..i] == kids[..i];
      assert keep(kids[i]) == (w.C(kids[i]).ParentObject == Some(e) && w.C(kids[i]).Parent.None?);
      if w.C(kids[i]).ParentObject != Some(e) || w.C(kids[i]).Parent.Some? {
        removed := removed + 1;
      }
    }
    assert kids[..|kids|] == kids;
  }

  /** The second loop of `GetComponents()`: the components still owned directly, in order, written
      into an array of the size the first loop found. */
  method CopyOwned(w: World, e: EId, size: nat) returns (r: seq<CId>)
    requires size == |Filter(w.E(e).Components, EntityComponents.OwnedDirectly(w.State(), e))|
    ensures r == Filter(w.E(e).Components, EntityComponents.OwnedDirectly(w.State(), e))
  {
    r := ComponentMethods.CopyKept(w.E(e).Components, EntityComponents.OwnedDirectly(w.State(), e), size);
  }

  /** `ForEachComponent(recursive, callback)`. */
  method ForEachComponent(w: World, e: EId, recursive: bool, callback: CId -> VisitType, ghost rank: map<CId, nat>)
    returns (r: VisitType)
    requires ComponentsRanked(w.State(), rank)
    ensures r == EntityComponents.ForEachComponent(w.State(), e, recursive, callback, rank)
  {
    var kids := w.E(e).Components;
    ghost var bound := RankBound(rank, kids);
    for i := 0 to |kids|
      invariant ComponentOps.Visit(w.State(), kids[i..], bound, recursive, callback, rank)
                == EntityComponents.ForEachComponent(w.State(), e, recursive, callback, rank)
    {
      assert kids[i..][1..] == kids[i + 1..];
      var t := callback(kids[i]);
      if t == Stop {
        return t;
      }
      if t != Skip && recursive {
        t := ComponentMethods.ForEachChild(w, kids[i], true, callback, rank);
        if t == Stop {
          return t;
        }
      }
    }
    return Continue;
  }

  /** `Contains(component)`: over the `GetComponents()` view, each one and its subtree. */
  method ContainsComponent(w: World, e: EId, target: CId, ghost rank: map<CId, nat>) returns (r: bool)
    requires ComponentsRanked(w.State(), rank)
    ensures r == EntityComponents.ContainsComponent(w.State(), e, target, rank)
  {
    var view := GetComponents(w, e);
    ghost var bound := RankBound(rank, view);
    var i := 0;
    while i < |view|
      invariant 0 <= i <= |view|
      invariant ComponentOps.ContainsAny(w.State(), view[i..], bound, target, rank)
                == EntityComponents.ContainsComponent(w.State(), e, target, rank)
    {
      if view[i] == target {
        return true;
      }
      var inner := ComponentMethods.Contains(w, view[i], target, rank);
      if inner {
        return true;
      }
      assert view[i..][1..] == view[i + 1..];
      i := i + 1;
    }
    return false;
  }

  // ---- The entity tree ----

  /** `TryGetEntity(id)`: an allocated handle whose entity is still alive. */
  method TryGetEntity(w: World, id: EId) returns (r: Option<EntityNode>)
    requires w.Valid()
    ensures r == EntityTree.TryGetEntity(w.State(), id)
    ensures r.Some? ==> w.EntityIds.IsAllocated(id)
  {
    if !w.EntityIds.IsAllocated(id) {
      return None;
    }
    if id in w.Entities {
      return Some(w.Entities[id]);
    }
    return None;
  }

  /** The `Entity(name, makeTransform)` constructors: a fresh handle is allocated and registered,
      then, with `makeTransform`, a fresh `Transform` is constructed and added as its transform. */
  method Construct(w: World, name: string, makeTransform: bool, ghost rank: map<CId, nat>)
    returns (e: EId, transform: Option<CId>)
    requires w.Valid() && ComponentsRanked(w.State(), rank)
    modifies w, w.ComponentIds, w.EntityIds
    ensures w.Valid()
    ensures e !in old(w.Entities)
    ensures !makeTransform ==> transform.None? && w.Components == old(w.Components)
                                && w.Entities == old(w.Entities)[e := NewEntityNode(name)]
    ensures makeTransform ==> transform.Some? && transform.value !in old(w.Components)
                               && w.State() == EntityComponents.Spawned(old(w.State()), name, e, transform.value, Kinds.NewTransform(), rank).After
  {
    ghost var g := w.State();
    e := w.NewEntity(name);
    if !makeTransform {
      return e, None;
    }
    ghost var h := w.State();
    var t := w.NewComponent("Transform", Kinds.NewTransform().Kind);
    assert NewComponentNode("Transform", Kinds.NewTransform().Kind) == Kinds.NewTransform();
    EntityComponents.FreshRanked(g, t, Kinds.NewTransform(), e, NewEntityNode(name), rank);
    assert w.State() == Graph(g.Components[t := Kinds.NewTransform()], g.Entities[e := NewEntityNode(name)]);
    var _ := AddTransform(w, e, t, rank);
    transform := Some(t);
  }

  /** `IsDescendantOf(entity)`: walks the `Parent` chain from the parent up. */
  method IsDescendantOf(w: World, e: EId, target: EId, ghost depth: map<EId, nat>) returns (r: bool)
    requires EntityParentsRanked(w.State(), depth)
    ensures r == EntityTree.OnEntityChain(w.State(), w.E(e).Parent, target, depth)
    ensures r <==> target in EntityTree.EntityAncestors(w.State(), w.E(e).Parent, depth)
  {
    EntityTree.OnEntityChainIsMembership(w.State(), w.E(e).Parent, target, depth);
    var ancestor := w.E(e).Parent;
    while ancestor.Some?
      invariant EntityTree.OnEntityChain(w.State(), ancestor, target, depth)
                == EntityTree.OnEntityChain(w.State(), w.E(e).Parent, target, depth)
      decreases (if ancestor.Some? then RankOf(depth, ancestor.value) + 1 else 0)
    {
      if ancestor.value == target {
        return true;
      }
      ancestor := w.E(ancestor.value).Parent;
    }
    return false;
  }

  /** `Remove(deep)`. */
  method Remove(w: World, e: EId, deep: bool, ghost erank: map<EId, nat>) returns (status: ChildUpdateStatus)
    requires EntitiesRanked(w.State(), erank)
    modifies w
    ensures Step(w.State(), status) == EntityTree.Remove(old(w.State()), e, deep, erank)
  {
    var n := w.E(e);
    if n.Parent.None? {
      return Failed;
    }
    var p := n.Parent.value;
    var pn := w.E(p);
    if pn.QueueRemovals {
      w.SetEntity(p, pn.(QueuedRemovals := pn.QueuedRemovals + [e]));
      var m := w.E(e).(Parent := None);
      if m.QueueRemovals && deep {
        m := m.(ClearAll := true, ClearAllDeep := true);
      }
      w.SetEntity(e, m);
      return Deferred;
    }
    ghost var g := w.State();
    w.SetEntity(p, pn.(Children := RemoveFirst(pn.Children, e)));
    w.SetEntity(e, w.E(e).(Parent := None));
    assert w.State() == EntityTree.Unlisted(g, e);
    if !deep {
      return Succeeded;
    }
    EntityTree.EntitiesRankedBySubset(g, w.State(), erank);
    DeepRemove(w, e, erank);
    return Succeeded;
  }

  /** `DeepRemove()`: the parent is dropped, each child is deep-removed in order, then the list
      empties. */
  method DeepRemove(w: World, e: EId, ghost erank: map<EId, nat>)
    requires EntitiesRanked(w.State(), erank)
    modifies w
    ensures w.State() == EntityTree.DeepRemove(old(w.State()), e, erank)
    decreases RankOf(erank, e), 1
  {
    ghost var g := w.State();
    w.SetEntity(e, w.E(e).(Parent := None));
    assert w.State() == EntityTree.Unparent(g, e);
    EntityTree.EntitiesRankedBySubset(g, w.State(), erank);
    var kids := w.E(e).Children;
    assert forall k :: k in kids ==> RankOf(erank, k) < RankOf(erank, e);
    DeepRemoveChildren(w, e, kids, erank);
    w.SetEntity(e, w.E(e).(Children := []));
  }

  /** The loop of `DeepRemove` over the captured child list. */
  method DeepRemoveChildren(w: World, e: EId, kids: seq<EId>, ghost erank: map<EId, nat>)
    requires EntitiesRanked(w.State(), erank)
    requires forall k :: k in kids ==> RankOf(erank, k) < RankOf(erank, e)
    modifies w
    ensures w.State() == EntityTree.DeepRemoveAll(old(w.State()), e, kids, erank)
    decreases RankOf(erank, e), 0
  {
    ghost var g := w.State();
    for i := 0 to |kids|
      invariant w.State() == EntityTree.DeepRemoveAll(g, e, kids[..i], erank)
    {
      EntityTree.DeepRemoveAllStep(g, e, kids, i, erank);
      DeepRemove(w, kids[i], erank);
    }
    assert kids[..|kids|] == kids;
  }

  /** `SetParent(newParent)`, returning the statuses for the old and the new parent. */
  method SetParent(w: World, e: EId, parent: Option<EId>, ghost erank: map<EId, nat>, ghost depth: map<EId, nat>)
    returns (oldStatus: ChildUpdateStatus, newStatus: ChildUpdateStatus)
    requires EntitiesRanked(w.State(), erank) && EntityParentsRanked(w.State(), depth)
    modifies w
    ensures EntityTree.Reparent(w.State(), oldStatus, newStatus)
            == EntityTree.SetParent(old(w.State()), e, parent, erank, depth)
  {
    if parent.None? {
      oldStatus := Remove(w, e, false, erank);
      return oldStatus, Succeeded;
    }
    var p := parent.value;
    var inside := IsDescendantOf(w, p, e, depth);
    if inside {
      return Failed, Failed;
    }
    oldStatus := Succeeded;
    if w.E(e).Parent.Some? {
      oldStatus := Remove(w, e, false, erank);
    }
    newStatus := Join(w, e, p);
  }

  /** The second half of `SetParent`: `ParentInternal = newParent`, then the child list of `p`, or
      its queued adds while `p` traverses, gains `e`. */
  method Join(w: World, e: EId, p: EId) returns (status: ChildUpdateStatus)
    modifies w
    ensures w.State() == EntityTree.Joined(old(w.State()), e, p)
    ensures status == (if old(w.E(p)).QueueRemovals then Deferred else Succeeded)
  {
    w.SetEntity(e, w.E(e).(Parent := Some(p)));
    var pn := w.E(p);
    if pn.QueueRemovals {
      w.SetEntity(p, pn.(QueuedAdds := pn.QueuedAdds + [e]));
      return Deferred;
    }
    w.SetEntity(p, pn.(Children := pn.Children + [e]));
    return Succeeded;
  }

  /** `ClearChildren(deep)`. */
  method ClearChildren(w: World, e: EId, deep: bool, ghost erank: map<EId, nat>) returns (status: ChildUpdateStatus)
    requires EntitiesRanked(w.State(), erank)
    modifies w
    ensures Step(w.State(), status) == EntityTree.ClearChildren(old(w.State()), e, deep, erank)
    decreases RankOf(erank, e), 1
  {
    ghost var g := w.State();
    var n := w.E(e);
    if n.QueueRemovals {
      w.SetEntity(e, n.(ClearAll := true, ClearAllDeep := n.ClearAllDeep || deep));
      return Deferred;
    }
    var kids := n.Children;
    assert forall k :: k in kids ==> RankOf(erank, k) < RankOf(erank, e);
    for i := 0 to |kids|
      invariant w.State() == EntityTree.ClearEach(g, e, kids[..i], deep, erank)
    {
      EntityTree.ClearEachStep(g, e, kids, i, deep, erank);
      ClearOne(w, kids[i], deep, erank);
    }
    assert kids[..|kids|] == kids;
    w.SetEntity(e, w.E(e).(Children := []));
    return Succeeded;
  }

  /** One turn of the `ClearChildren` loop. */
  method ClearOne(w: World, child: EId, deep: bool, ghost erank: map<EId, nat>)
    requires EntitiesRanked(w.State(), erank)
    modifies w
    ensures w.State() == EntityTree.ClearOne(old(w.State()), child, deep, erank)
    decreases RankOf(erank, child), 2
  {
    ghost var g := w.State();
    w.SetEntity(child, w.E(child).(Parent := None));
    EntityTree.EntityOnlyClearsRanked(g, w.State(), erank);
    if deep {
      var _ := ClearChildren(w, child, deep, erank);
    }
  }

  /** `GetChildren()`: a copy of the list, or, while traversing, the children whose parent is still
      `e`, counted by the first loop and copied into an array of that size by the second. */
  method GetChildren(w: World, e: EId) returns (r: seq<EId>)
    ensures r == EntityTree.ChildrenView(w.State(), e)
  {
    var kids := w.E(e).Children;
    if !w.E(e).QueueRemovals {
      return kids;
    }
    var removed := CountStrays(w, e);
    if removed == 0 {
      FilterNoneRejected(kids, EntityTree.ChildOf(w.State(), e));
      return kids;
    }
    FilterLength(kids, EntityTree.ChildOf(w.State(), e));
    r := ComponentMethods.CopyKept(kids, EntityTree.ChildOf(w.State(), e), |kids| - removed);
  }

  /** The first loop of `GetChildren()`: the listed children whose parent is no longer `e`. */
  method CountStrays(w: World, e: EId) returns (removed: nat)
    ensures removed == Rejected(w.E(e).Children, EntityTree.ChildOf(w.State(), e))
  {
    var kids := w.E(e).Children;
    ghost var keep := EntityTree.ChildOf(w.State(), e);
    removed := 0;
    for i := 0 to |kids|
      invariant removed == Rejected(kids[..i], keep)
    {
      assert kids[..i + 1][..i] == kids[..i];
      assert keep(kids[i]) == (w.E(kids[i]).Parent == Some(e));
      if w.E(kids[i]).Parent != Some(e) {
        removed := removed + 1;
      }
    }
    assert kids[..|kids|] == kids;
  }

  /** `Contains(entity)`: over the `GetChildren()` view, recursively. */
  method ContainsEntity(w: World, e: EId, target: EId, ghost erank: map<EId, nat>) returns (r: bool)
    requires EntitiesRanked(w.State(), erank)
    ensures r == EntityTree.ContainsEntity(w.State(), e, target, erank)
    decreases RankOf(erank, e)
  {
    var kids := GetChildren(w, e);
    assert forall k :: k in kids ==> RankOf(erank, k) < RankOf(erank, e);
    var i := 0;
    while i < |kids|
      invariant 0 <= i <= |kids|
      invariant EntityTree.ContainsAnyEntity(w.State(), e, kids[i..], target, erank)
                == EntityTree.ContainsEntity(w.State(), e, target, erank)
    {
      if kids[i] == target {
        return true;
      }
      var inner := ContainsEntity(w, kids[i], target, erank);
      if inner {
        return true;
      }
      assert kids[i..][1..] == kids[i + 1..];
      i := i + 1;
    }
    return false;
  }

  // ---- UpdateChildren and the Update bracket ----

  /** `UpdateChildren()`: the recorded clear, or the two reconciliation loops as written. The loops
      only read the parents of the queued entities, so the list they edit is kept in a local and
      written back with the reset queues and flag. */
  method UpdateChildren(w: World, e: EId, ghost erank: map<EId, nat>)
    requires EntitiesRanked(w.State(), erank)
    modifies w
    ensures w.State() == EntityTree.UpdateChildren(old(w.State()), e, erank)
  {
    var n := w.E(e);
    if n.ClearAll {
      var _ := ClearChildren(w, e, n.ClearAllDeep, erank);
      var m := w.E(e);
      w.SetEntity(e, m.(ClearAll := false, ClearAllDeep := false, QueuedRemovals := [], QueuedAdds := []));
      return;
    }
    var kept := RemoveSelfForStrays(w, e, n.Children, n.QueuedRemovals);
    var listed := AppendSelfForArrivals(w, e, kept, n.QueuedAdds);
    w.SetEntity(e, n.(ClearAllDeep := false, Children := listed, QueuedRemovals := [], QueuedAdds := []));
  }

  /** The queued-removal loop as written: for each queued entity whose parent is no longer `e`,
      `Children.Remove(this)`. */
  method RemoveSelfForStrays(w: World, e: EId, kids: seq<EId>, queue: seq<EId>) returns (r: seq<EId>)
    ensures r == EntityTree.RemovalsAsWritten(kids, queue, e, EntityTree.ChildOf(w.State(), e))
  {
    ghost var stays := EntityTree.ChildOf(w.State(), e);
    r := kids;
    for i := 0 to |queue|
      invariant r == EntityTree.RemovalsAsWritten(kids, queue[..i], e, stays)
    {
      var k := queue[i];
      EntityTree.RemovalsAsWrittenStep(kids, queue, i, e, stays);
      assert stays(k) == (w.E(k).Parent == Some(e));
      if w.E(k).Parent != Some(e) {
        r := RemoveFirst(r, e);
      }
    }
    assert queue[..|queue|] == queue;
  }

  /** The queued-add loop as written: for each queued entity parented by `e` and not yet listed,
      `Children.Add(this)`. */
  method AppendSelfForArrivals(w: World, e: EId, kids: seq<EId>, queue: seq<EId>) returns (r: seq<EId>)
    ensures r == EntityTree.AddsAsWritten(kids, queue, e, EntityTree.ChildOf(w.State(), e))
  {
    ghost var stays := EntityTree.ChildOf(w.State(), e);
    r := kids;
    for i := 0 to |queue|
      invariant r == EntityTree.AddsAsWritten(kids, queue[..i], e, stays)
    {
      var k := queue[i];
      EntityTree.AddsAsWrittenStep(kids, queue, i, e, stays);
      assert stays(k) == (w.E(k).Parent == Some(e));
      if w.E(k).Parent == Some(e) && k !in r {
        r := r + [e];
      }
    }
    assert queue[..|queue|] == queue;
  }

  /** `Update(delta)` before its loops over components and children. */
  method UpdateBegin(w: World, e: EId)
    modifies w
    ensures w.State() == EntityTree.UpdateBegin(old(w.State()), e)
  {
    w.SetEntity(e, w.E(e).(QueueRemovals := true));
  }

  /** `Update(delta)` after its loops: the traversal mark drops, then `UpdateChildren()` and
      `UpdateComponents()` run in that order. */
  method UpdateEnd(w: World, e: EId, ghost rank: map<CId, nat>, ghost erank: map<EId, nat>)
    requires ComponentsRanked(w.State(), rank) && EntitiesRanked(w.State(), erank)
    modifies w
    ensures w.State() == EntityTree.UpdateEnd(old(w.State()), e, rank, erank)
  {
    ghost var g := w.State();
    w.SetEntity(e, w.E(e).(QueueRemovals := false));
    assert w.State() == EntityTree.Idle(g, e);
    RankedAfterEntityWrite(g, e, g.E(e).(QueueRemovals := false), rank);
    EntityTree.EntitiesRankedBySubset(g, w.State(), erank);
    ghost var idle := w.State();
    UpdateChildren(w, e, erank);
    EntityTree.UpdateChildrenKeepsComponents(idle, e, rank, erank);
    UpdateComponents(w, e, rank);
  }
}
