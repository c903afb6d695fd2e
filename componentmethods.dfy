/**
 * The members of `GameEngine.ECS.Component` as methods on a `Worlds.World`: the receiver is the
 * handle `c` (or `node`, `owner`). Each method is proved to compute the function of `EcsLinks` or
 * `ComponentOps` that describes it, so everything proved about those functions holds of it. The
 * ghost `rank` and `depth` maps witness that the child lists and the parent chain the method walks
 * are well founded.
 */
module ComponentMethods {
  import opened Outcomes
  import opened EcsNodes
  import opened EcsLinks
  import opened Sequences
  import ComponentOps
  import KindMethods
  import opened Worlds

  // ---- AttachToInternal / DetatchInternal ----

  /** `c.AttachToInternal(e)`. */
  method AttachToInternal(w: World, c: CId, e: Option<EId>, ghost rank: map<CId, nat>)
    requires ComponentsRanked(w.State(), rank)
    modifies w
    ensures w.State() == Attach(old(w.State()), c, e, rank)
    decreases RankOf(rank, c), 1
  {
    ghost var g := w.State();
    var kids := w.C(c).Children;
    SetOwner(w, c, e);
    SameLinksRanked(g, w.State(), rank);
    assert forall k :: k in kids ==> RankOf(rank, k) < RankOf(rank, c);
    AttachChildren(w, c, kids, e, rank);
  }

  /** `ParentObject = e`, then `ParentObjectChanged(previous)` when the owner changed. */
  method SetOwner(w: World, c: CId, e: Option<EId>)
    modifies w
    ensures w.State() == Owned(old(w.State()), c, e)
  {
    var node := w.C(c);
    var previous := node.ParentObject;
    w.SetComponent(c, node.(ParentObject := e));
    if e != previous {
      KindMethods.ParentObjectChanged(w, c, previous);
    }
  }

  /** The loop of `AttachToInternal`: `child.AttachToInternal(e)` for each of `kids`. */
  method AttachChildren(w: World, c: CId, kids: seq<CId>, e: Option<EId>, ghost rank: map<CId, nat>)
    requires ComponentsRanked(w.State(), rank)
    requires forall k :: k in kids ==> RankOf(rank, k) < RankOf(rank, c)
    modifies w
    ensures w.State() == AttachAll(old(w.State()), c, kids, e, rank)
    decreases RankOf(rank, c), 0
  {
    ghost var g := w.State();
    for i := 0 to |kids|
      invariant w.State() == AttachAll(g, c, kids[..i], e, rank)
    {
      AttachAllStep(g, c, kids, i, e, rank);
      AttachToInternal(w, kids[i], e, rank);
    }
    assert kids[..|kids|] == kids;
  }

  /** `c.DetatchInternal(p)`. */
  method DetatchInternal(w: World, c: CId, p: Option<EId>, ghost rank: map<CId, nat>)
    requires ComponentsRanked(w.State(), rank)
    modifies w
    ensures w.State() == Detach(old(w.State()), c, p, rank)
    decreases RankOf(rank, c), 1
  {
    ghost var g := w.State();
    var node := w.C(c);
    if node.ParentObject != p {
      return;
    }
    w.SetComponent(c, node.(ParentObject := None));
    SameLinksRanked(g, w.State(), rank);
    var kids := node.Children;
    assert forall k :: k in kids ==> RankOf(rank, k) < RankOf(rank, c);
    DetachChildren(w, c, kids, p, rank);
  }

  /** The loop of `DetatchInternal`: `child.DetatchInternal(p)` for each of `kids`. */
  method DetachChildren(w: World, c: CId, kids: seq<CId>, p: Option<EId>, ghost rank: map<CId, nat>)
    requires ComponentsRanked(w.State(), rank)
    requires forall k :: k in kids ==> RankOf(rank, k) < RankOf(rank, c)
    modifies w
    ensures w.State() == DetachAll(old(w.State()), c, kids, p, rank)
    decreases RankOf(rank, c), 0
  {
    ghost var g := w.State();
    for i := 0 to |kids|
      invariant w.State() == DetachAll(g, c, kids[..i], p, rank)
    {
      DetachAllStep(g, c, kids, i, p, rank);
      DetatchInternal(w, kids[i], p, rank);
    }
    assert kids[..|kids|] == kids;
  }

  // ---- IsDescendantOf ----

  /** `c.IsDescendantOf(target)`: the loop up the `Parent` chain. It answers whether `target` is a
      proper ancestor of `c`. */
  method IsDescendantOf(w: World, c: CId, target: CId, ghost depth: map<CId, nat>) returns (r: bool)
    requires ComponentParentsRanked(w.State(), depth)
    ensures r == OnParentChain(w.State(), w.C(c).Parent, target, depth)
    ensures r <==> target in Ancestors(w.State(), w.C(c).Parent, depth)
  {
    OnParentChainIsMembership(w.State(), w.C(c).Parent, target, depth);
    var ancestor := w.C(c).Parent;
    while ancestor.Some?
      invariant OnParentChain(w.State(), ancestor, target, depth) == OnParentChain(w.State(), w.C(c).Parent, target, depth)
      decreases (if ancestor.Some? then RankOf(depth, ancestor.value) + 1 else 0)
    {
      if ancestor.value == target {
        return true;
      }
      ancestor := w.C(ancestor.value).Parent;
    }
    return false;
  }

  /** `TryGetComponent(id)`: an allocated handle whose component is still alive. */
  method TryGetComponent(w: World, id: CId) returns (r: Option<ComponentNode>)
    requires w.Valid()
    ensures r == ComponentOps.TryGetComponent(w.State(), id)
    ensures r.Some? ==> w.ComponentIds.IsAllocated(id)
  {
    if !w.ComponentIds.IsAllocated(id) {
      return None;
    }
    if id in w.Components {
      return Some(w.Components[id]);
    }
    return None;
  }

  // ---- RemoveComponent / AddComponent ----

  /** `owner.RemoveComponent(comp)`. */
  method RemoveComponent(w: World, owner: CId, comp: CId) returns (status: ChildUpdateStatus)
    modifies w
    ensures ComponentOps.RemoveChild(old(w.State()), owner, comp) == Step(w.State(), status)
  {
    var n := w.C(comp);
    if n.Parent != Some(owner) {
      return Failed;
    }
    w.SetComponent(comp, n.(Parent := None, ParentObject := None));
    var m := w.C(owner);
    if m.QueueRemovals {
      w.SetComponent(owner, m.(QueuedRemovals := m.QueuedRemovals + [comp]));
      return Deferred;
    }
    w.SetComponent(owner, m.(Children := RemoveFirst(m.Children, comp)));
    return Succeeded;
  }

  /** `node.AddComponent(comp)`. */
  method AddComponent(w: World, node: CId, comp: CId, ghost depth: map<CId, nat>, ghost rank: map<CId, nat>)
    returns (status: ChildUpdateStatus)
    requires ComponentParentsRanked(w.State(), depth) && ComponentsRanked(w.State(), rank)
    modifies w
    ensures ComponentOps.AddChild(old(w.State()), node, comp, depth, rank) == Step(w.State(), status)
  {
    ghost var g := w.State();
    if w.C(comp).Kind.ShouldBeReplicated() {
      return Failed;
    }
    var cycle := IsDescendantOf(w, node, comp, depth);
    if cycle {
      return Failed;
    }
    var parent := w.C(comp).Parent;
    if parent.Some? {
      var _ := RemoveComponent(w, parent.value, comp);
    }
    assert w.State() == ComponentOps.Unparented(g, comp);
    ComponentOps.RankedBySubset(g, w.State(), rank);
    var n := w.C(node);
    if n.QueueRemovals {
      w.SetComponent(node, n.(QueuedAdds := n.QueuedAdds + [comp]));
      return Deferred;
    }
    Adopt(w, node, comp, rank);
    return Succeeded;
  }

  /** The immediate part of `AddComponent`: `comp.Parent = node`, the subtree is attached to the
      owner of `node`, `comp.ParentObject` is set again, and `comp` is appended. */
  method Adopt(w: World, node: CId, comp: CId, ghost rank: map<CId, nat>)
    requires ComponentsRanked(w.State(), rank)
    modifies w
    ensures w.State() == ComponentOps.Adopt(old(w.State()), node, comp, rank)
  {
    ghost var h := w.State();
    var e := w.C(node).ParentObject;
    w.SetComponent(comp, w.C(comp).(Parent := Some(node)));
    assert w.State() == ComponentOps.Reparented(h, comp, node);
    ComponentOps.RankedBySubset(h, w.State(), rank);
    AttachToInternal(w, comp, e, rank);
    w.SetComponent(comp, w.C(comp).(ParentObject := e));
    var m := w.C(node);
    w.SetComponent(node, m.(Children := m.Children + [comp]));
  }

  // ---- ClearChildren ----

  /** `c.ClearChildren(deep)`. */
  method ClearChildren(w: World, c: CId, deep: bool, ghost rank: map<CId, nat>) returns (status: ChildUpdateStatus)
    requires ComponentsRanked(w.State(), rank)
    modifies w
    ensures Step(w.State(), status) == EcsLinks.ClearChildren(old(w.State()), c, deep, rank)
    decreases RankOf(rank, c), 1
  {
    ghost var g := w.State();
    var n := w.C(c);
    if n.QueueRemovals {
      w.SetComponent(c, n.(ClearAll := true, ClearAllDeep := n.ClearAllDeep || deep));
      return Deferred;
    }
    var kids := n.Children;
    assert forall k :: k in kids ==> RankOf(rank, k) < RankOf(rank, c);
    ClearKids(w, c, kids, deep, rank);
    w.SetComponent(c, w.C(c).(Children := []));
    return Succeeded;
  }

  /** The loop of `ClearChildren` over the captured child list. */
  method ClearKids(w: World, c: CId, kids: seq<CId>, deep: bool, ghost rank: map<CId, nat>)
    requires ComponentsRanked(w.State(), rank)
    requires forall k :: k in kids ==> RankOf(rank, k) < RankOf(rank, c)
    modifies w
    ensures w.State() == ClearEach(old(w.State()), c, kids, deep, rank)
    decreases RankOf(rank, c), 0
  {
    ghost var g := w.State();
    for i := 0 to |kids|
      invariant ClearedEach(w.State(), g, c, kids, i, deep, rank)
    {
      ClearEachStep(g, c, kids, i, deep, rank);
      ClearOne(w, c, kids[i], deep, rank);
    }
    assert kids[..|kids|] == kids;
  }

  /** The progress of that loop: `h` is what clearing the first `i` of `kids` one after another
      makes of `g`. */
  ghost predicate ClearedEach(h: Graph, g: Graph, c: CId, kids: seq<CId>, i: nat, deep: bool, rank: map<CId, nat>)
  {
    ComponentsRanked(g, rank) && (forall k :: k in kids ==> RankOf(rank, k) < RankOf(rank, c))
    && i <= |kids| && h == ClearEach(g, c, kids[..i], deep, rank)
  }

  /** One turn of the `ClearChildren` loop. */
  method ClearOne(w: World, c: CId, child: CId, deep: bool, ghost rank: map<CId, nat>)
    requires ComponentsRanked(w.State(), rank)
    modifies w
    ensures w.State() == EcsLinks.ClearOne(old(w.State()), c, child, deep, rank)
    decreases RankOf(rank, child), 2
  {
    ghost var g := w.State();
    w.SetComponent(child, w.C(child).(Parent := None, ParentObject := None));
    OnlyClearsRanked(g, w.State(), rank);
    if deep {
      var _ := ClearChildren(w, child, deep, rank);
    } else {
      DetatchInternal(w, child, w.C(c).ParentObject, rank);
    }
  }

  // ---- Update ----

  /** `Update(delta)` before its child loop. */
  method UpdateBegin(w: World, c: CId)
    modifies w
    ensures w.State() == ComponentOps.UpdateBegin(old(w.State()), c)
  {
    w.SetComponent(c, w.C(c).(QueueRemovals := true));
  }

  /** `Update(delta)` after its child loop: the clear, or the two reconciliation loops. */
  method UpdateEnd(w: World, c: CId, ghost rank: map<CId, nat>)
    requires ComponentsRanked(w.State(), rank)
    modifies w
    ensures w.State() == ComponentOps.UpdateEnd(old(w.State()), c, rank)
  {
    ghost var g := w.State();
    w.SetComponent(c, w.C(c).(QueueRemovals := false));
    ComponentOps.RankedBySubset(g, w.State(), rank);
    if w.C(c).ClearAll {
      var _ := ClearChildren(w, c, w.C(c).ClearAllDeep, rank);
      w.SetComponent(c, w.C(c).(ClearAll := false, ClearAllDeep := false, QueuedRemovals := [], QueuedAdds := []));
      return;
    }
    w.SetComponent(c, w.C(c).(ClearAllDeep := false));
    ComponentOps.ReconciledSameParents(g, w.State(), c);
    Reconcile(w, c);
  }

  /** The two reconciliation loops: each queued removal whose parent is no longer `c` is removed
      from the children, then each queued add whose parent is `c` and that is not yet listed is
      appended; both queues are emptied. */
  method Reconcile(w: World, c: CId)
    modifies w
    ensures var n := old(w.C(c));
      w.State() == old(w.State()).WithC(c, n.(Children := ComponentOps.Reconciled(old(w.State()), c),
                                             QueuedRemovals := [], QueuedAdds := []))
  {
    ghost var g := w.State();
    ApplyRemovals(w, c);
    ghost var h := w.State();
    forall k
      ensures ComponentOps.ParentedBy(h, c)(k) == ComponentOps.ParentedBy(g, c)(k)
    {
      assert h.C(k).Parent == g.C(k).Parent;
    }
    AppendArrivalsSame(h.C(c).Children, g.C(c).QueuedAdds, ComponentOps.ParentedBy(h, c), ComponentOps.ParentedBy(g, c));
    ApplyAdds(w, c);
  }

  /** The queued-removal loop, then `QueuedRemovals.Clear()`. The loop reads only the parents of
      the queued components, so the list it edits is kept in a local until it ends. */
  method ApplyRemovals(w: World, c: CId)
    modifies w
    ensures var n := old(w.C(c));
      w.State() == old(w.State()).WithC(c, n.(Children := DropDeparted(n.Children, n.QueuedRemovals,
                                                                      ComponentOps.ParentedBy(old(w.State()), c)),
                                             QueuedRemovals := []))
  {
    var n := w.C(c);
    ghost var stays := ComponentOps.ParentedBy(w.State(), c);
    var removals := n.QueuedRemovals;
    var children := n.Children;
    for i := 0 to |removals|
      invariant children == DropDeparted(n.Children, removals[..i], stays)
      modifies {}
    {
      var k := removals[i];
      DropDepartedStep(n.Children, removals, i, stays);
      assert stays(k) == (w.C(k).Parent == Some(c));
      if w.C(k).Parent != Some(c) {
        children := RemoveFirst(children, k);
      }
    }
    assert removals[..|removals|] == removals;
    w.SetComponent(c, n.(Children := children, QueuedRemovals := []));
  }

  /** The queued-add loop, then `QueuedAdds.Clear()`. */
  method ApplyAdds(w: World, c: CId)
    modifies w
    ensures var n := old(w.C(c));
      w.State() == old(w.State()).WithC(c, n.(Children := AppendArrivals(n.Children, n.QueuedAdds,
                                                                        ComponentOps.ParentedBy(old(w.State()), c)),
                                             QueuedAdds := []))
  {
    var n := w.C(c);
    ghost var stays := ComponentOps.ParentedBy(w.State(), c);
    var adds := n.QueuedAdds;
    var children := n.Children;
    for i := 0 to |adds|
      invariant children == AppendArrivals(n.Children, adds[..i], stays)
      modifies {}
    {
      var k := adds[i];
      AppendArrivalsStep(n.Children, adds, i, stays);
      assert stays(k) == (w.C(k).Parent == Some(c));
      if w.C(k).Parent == Some(c) && k !in children {
        children := children + [k];
      }
    }
    assert adds[..|adds|] == adds;
    w.SetComponent(c, n.(Children := children, QueuedAdds := []));
  }

  // ---- GetChildren, Contains, ForEachChild ----

  /** `GetChildren()`: a copy of the child list, or, while traversing, the children still parented
      here, counted by the first loop and copied into an array of that size by the second. */
  method GetChildren(w: World, c: CId) returns (r: seq<CId>)
    ensures r == ComponentOps.ChildrenView(w.State(), c)
  {
    var kids := w.C(c).Children;
    if !w.C(c).QueueRemovals {
      return kids;
    }
    var removed := CountDeparted(w, c);
    if removed == 0 {
      FilterNoneRejected(kids, ComponentOps.ParentedBy(w.State(), c));
      return kids;
    }
    FilterLength(kids, ComponentOps.ParentedBy(w.State(), c));
    r := CopyParented(w, c, |kids| - removed);
  }

  /** The first loop of `GetChildren()`: the children whose parent is no longer `c`. */
  method CountDeparted(w: World, c: CId) returns (removed: nat)
    ensures removed == Rejected(w.C(c).Children, ComponentOps.ParentedBy(w.State(), c))
  {
    var kids := w.C(c).Children;
    ghost var keep := ComponentOps.ParentedBy(w.State(), c);
    removed := 0;
    for i := 0 to |kids|
      invariant removed == Rejected(kids[..i], keep)
    {
      assert kids[..i + 1][..i] == kids[..i];
      assert keep(kids[i]) == (w.C(kids[i]).Parent == Some(c));
      if w.C(kids[i]).Parent != Some(c) {
        removed := removed + 1;
      }
    }
    assert kids[..|kids|] == kids;
  }

  /** The second loop of `GetChildren()`: the children still parented by `c`, in order, written
      into an array of the size the first loop found. */
  method CopyParented(w: World, c: CId, size: nat) returns (r: seq<CId>)
    requires size == |Filter(w.C(c).Children, ComponentOps.ParentedBy(w.State(), c))|
    ensures r == Filter(w.C(c).Children, ComponentOps.ParentedBy(w.State(), c))
  {
    r := CopyKept(w.C(c).Children, ComponentOps.ParentedBy(w.State(), c), size);
  }

  /** The array-filling loop both `GetChildren()` and `Entity.GetComponents()` end with: the
      members of `kids` that pass `keep`, in order, written into an array of exactly that size. */
  method CopyKept(kids: seq<CId>, keep: CId -> bool, size: nat) returns (r: seq<CId>)
    requires size == |Filter(kids, keep)|
    ensures r == Filter(kids, keep)
  {
    var kept := new CId[size];
    var index := 0;
    for i := 0 to |kids|
      invariant index == |Filter(kids[..i], keep)| <= kept.Length
      invariant kept[..index] == Filter(kids[..i], keep)
    {
      ghost var before := kept[..index];
      FilterStep(kids, i, keep);
      FilterPrefix(kids, i + 1, keep);
      if keep(kids[i]) {
        kept[index] := kids[i];
        assert kept[..index + 1] == before + [kids[i]];
        index := index + 1;
      }
    }
    assert kids[..|kids|] == kids;
    r := kept[..];
  }

  /** One more turn of a filtering loop. */
  lemma FilterStep(s: seq<CId>, i: nat, keep: CId -> bool)
    requires i < |s|
    ensures Filter(s[..i + 1], keep) == Filter(s[..i], keep) + (if keep(s[i]) then [s[i]] else [])
  {
    assert s[..i + 1][..i] == s[..i];
  }

  /** A prefix filters to at most what the whole list filters to. */
  lemma {:induction false} FilterPrefix(s: seq<CId>, n: nat, keep: CId -> bool)
    requires n <= |s|
    ensures |Filter(s[..n], keep)| <= |Filter(s, keep)|
    decreases |s| - n
  {
    if n < |s| {
      FilterPrefix(s, n + 1, keep);
      assert s[..n + 1][..n] == s[..n];
    } else {
      assert s[..n] == s;
    }
  }

  /** `Contains(target)`: over the `GetChildren()` view, recursively. */
  method Contains(w: World, c: CId, target: CId, ghost rank: map<CId, nat>) returns (r: bool)
    requires ComponentsRanked(w.State(), rank)
    ensures r == ComponentOps.Contains(w.State(), c, target, rank)
    decreases RankOf(rank, c)
  {
    var kids := GetChildren(w, c);
    assert forall k :: k in kids ==> RankOf(rank, k) < RankOf(rank, c);
    var i := 0;
    while i < |kids|
      invariant 0 <= i <= |kids|
      invariant ComponentOps.ContainsAny(w.State(), kids[i..], RankOf(rank, c), target, rank)
                == ComponentOps.Contains(w.State(), c, target, rank)
    {
      var inner := Contains(w, kids[i], target, rank);
      if kids[i] == target || inner {
        return true;
      }
      assert kids[i..][1..] == kids[i + 1..];
      i := i + 1;
    }
    return false;
  }

  /** `ForEachChild(recursive, callback)`, with the callback a function of the visited component. */
  method ForEachChild(w: World, c: CId, recursive: bool, callback: CId -> VisitType, ghost rank: map<CId, nat>)
    returns (r: VisitType)
    requires ComponentsRanked(w.State(), rank)
    ensures r == ComponentOps.Walk(w.State(), c, recursive, callback, rank)
    decreases RankOf(rank, c)
  {
    var kids := w.C(c).Children;
    assert forall k :: k in kids ==> RankOf(rank, k) < RankOf(rank, c);
    var i := 0;
    while i < |kids|
      invariant 0 <= i <= |kids|
      invariant ComponentOps.Visit(w.State(), kids[i..], RankOf(rank, c), recursive, callback, rank)
                == ComponentOps.Walk(w.State(), c, recursive, callback, rank)
    {
      assert kids[i..][1..] == kids[i + 1..];
      var t := callback(kids[i]);
      if t == Stop {
        return t;
      }
      if t != Skip && recursive {
        t := ForEachChild(w, kids[i], true, callback, rank);
        if t == Stop {
          return t;
        }
      }
      i := i + 1;
    }
    return Continue;
  }
}
