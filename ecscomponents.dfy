/**
 * The structural requests of `GameEngine.ECS.Component`: `AddComponent`, `RemoveComponent`, the
 * reconciliation that ends `Update`, the `GetChildren` view, `Contains` and `ForEachChild`. While a
 * node traverses its children (`QueueRemovals`), requests aimed at it only queue work or set flags,
 * so its own child list stays as it was until `Update` reconciles.
 */
module ComponentOps {
  import opened Outcomes
  import opened EcsNodes
  import opened EcsLinks
  import opened Sequences

  /** Graphs whose child lists only lost elements keep every ranking. */
  lemma RankedBySubset(g: Graph, h: Graph, rank: map<CId, nat>)
    requires ComponentsRanked(g, rank)
    requires forall k, x :: x in h.C(k).Children ==> x in g.C(k).Children
    ensures ComponentsRanked(h, rank)
  {
    forall c, i | 0 <= i < |h.C(c).Children|
      ensures RankOf(rank, h.C(c).Children[i]) < RankOf(rank, c)
    {
      var x := h.C(c).Children[i];
      assert x in g.C(c).Children;
    }
  }

  // ---- RemoveComponent ----

  /** `owner.RemoveComponent(comp)`: fails, changing nothing, unless `comp`'s parent is `owner`.
      Otherwise `comp` alone loses its parent and its owner (its subtree keeps theirs); `owner` then
      queues the removal while traversing, or else drops the first occurrence of `comp` from its
      child list. */
  function RemoveChild(g: Graph, owner: CId, comp: CId): (r: Step)
    ensures g.C(comp).Parent != Some(owner) ==> r == Step(g, Failed)
    ensures g.C(comp).Parent == Some(owner) ==>
      r.Status == (if g.C(owner).QueueRemovals then Deferred else Succeeded)
      && r.After.Components.Keys == g.Components.Keys && r.After.Entities == g.Entities
      && r.After.C(comp).Parent.None? && r.After.C(comp).ParentObject.None?
      && r.After.C(owner).Children
         == (if g.C(owner).QueueRemovals then g.C(owner).Children else RemoveFirst(g.C(owner).Children, comp))
      && r.After.C(owner).QueuedRemovals
         == g.C(owner).QueuedRemovals + (if g.C(owner).QueueRemovals then [comp] else [])
      && (comp != owner ==> r.After.C(comp) == g.C(comp).(Parent := None, ParentObject := None))
      && (comp != owner ==> r.After.C(owner) == g.C(owner).(Children := r.After.C(owner).Children,
                                                           QueuedRemovals := r.After.C(owner).QueuedRemovals))
      && forall k :: k != comp && k != owner ==> r.After.C(k) == g.C(k)
  {
    if g.C(comp).Parent != Some(owner) then Step(g, Failed)
    else
      var unlinked := g.WithC(comp, g.C(comp).(Parent := None, ParentObject := None));
      var n := unlinked.C(owner);
      if n.QueueRemovals then Step(unlinked.WithC(owner, n.(QueuedRemovals := n.QueuedRemovals + [comp])), Deferred)
      else Step(unlinked.WithC(owner, n.(Children := RemoveFirst(n.Children, comp))), Succeeded)
  }

  /** A removal never adds a child anywhere, never touches a traversing node's child list, and
      changes no traversal flag. */
  lemma RemoveChildShrinks(g: Graph, owner: CId, comp: CId)
    ensures var r := RemoveChild(g, owner, comp);
      (forall k, x :: x in r.After.C(k).Children ==> x in g.C(k).Children)
      && (forall k :: g.C(k).QueueRemovals ==> r.After.C(k).Children == g.C(k).Children)
      && (forall k :: r.After.C(k).QueueRemovals == g.C(k).QueueRemovals && r.After.C(k).Kind == g.C(k).Kind)
  {
  }

  /** The first part of `AddComponent`: `comp` is taken out of its current parent, if any. */
  function Unparented(g: Graph, comp: CId): (r: Graph)
    ensures r.Components.Keys == g.Components.Keys && r.Entities == g.Entities
    ensures r.C(comp).Parent.None?
    ensures forall k, x :: x in r.C(k).Children ==> x in g.C(k).Children
    ensures forall k :: g.C(k).QueueRemovals ==> r.C(k).Children == g.C(k).Children
    ensures forall k :: r.C(k).QueueRemovals == g.C(k).QueueRemovals && r.C(k).ClearAll == g.C(k).ClearAll
    ensures forall k :: r.C(k).Kind == g.C(k).Kind && r.C(k).QueuedAdds == g.C(k).QueuedAdds
    ensures forall k :: k != comp ==> r.C(k).ParentObject == g.C(k).ParentObject && r.C(k).Parent == g.C(k).Parent
  {
    var parent := g.C(comp).Parent;
    if parent.Some? then
      RemoveChildShrinks(g, parent.value, comp);
      RemoveChild(g, parent.value, comp).After
    else g
  }

  // ---- AddComponent ----

  /** `node.AddComponent(comp)`. It fails, changing nothing, for a `Transform` (`ShouldBeReplicated`)
      and when `comp` lies on `node`'s parent chain (the cycle guard). Otherwise `comp` leaves its old
      parent; then, while `node` traverses, the add is only queued and `comp` is left without a parent;
      else `comp` becomes `node`'s last child and its whole subtree takes `node`'s owner. */
  ghost function AddChild(g: Graph, node: CId, comp: CId, depth: map<CId, nat>, rank: map<CId, nat>): (r: Step)
    requires ComponentParentsRanked(g, depth) && ComponentsRanked(g, rank)
    ensures g.C(comp).Kind.ShouldBeReplicated() ==> r == Step(g, Failed)
    ensures OnParentChain(g, g.C(node).Parent, comp, depth) ==> r == Step(g, Failed)
    ensures r.Status == Failed <==>
      g.C(comp).Kind.ShouldBeReplicated() || OnParentChain(g, g.C(node).Parent, comp, depth)
    ensures r.Status != Failed ==> (r.Status == Deferred <==> g.C(node).QueueRemovals)
    ensures r.After.Components.Keys == g.Components.Keys && r.After.Entities == g.Entities
    ensures forall k :: g.C(k).QueueRemovals ==> r.After.C(k).Children == g.C(k).Children
    ensures r.Status != Succeeded ==> ComponentsRanked(r.After, rank)
    ensures r.Status == Deferred ==>
      r.After.C(comp).Parent.None?
      && (node in g.Components ==> r.After.C(node).QueuedAdds == g.C(node).QueuedAdds + [comp])
    ensures r.Status == Succeeded ==>
      var h := Unparented(g, comp);
      ComponentsRanked(h, rank)
      && (comp in g.Components ==> r.After.C(comp).Parent == Some(node))
      && (node in g.Components ==> r.After.C(node).Children == h.C(node).Children + [comp])
      && forall k :: k in g.Components ==>
           r.After.C(k).ParentObject == if k in Reach(h, comp, rank) then h.C(node).ParentObject else h.C(k).ParentObject
  {
    if g.C(comp).Kind.ShouldBeReplicated() then Step(g, Failed)
    else if OnParentChain(g, g.C(node).Parent, comp, depth) then Step(g, Failed)
    else
      var h := Unparented(g, comp);
      RankedBySubset(g, h, rank);
      var n := h.C(node);
      if n.QueueRemovals then
        var r := h.WithC(node, n.(QueuedAdds := n.QueuedAdds + [comp]));
        RankedBySubset(g, r, rank);
        Step(r, Deferred)
      else
        AdoptLinks(h, node, comp, rank);
        AdoptOwners(h, node, comp, rank);
        Step(Adopt(h, node, comp, rank), Succeeded)
  }

  /** The immediate part of `AddComponent`: `comp` takes `node` as parent, its subtree is attached to
      `node`'s owner, and it is appended to `node`'s children. */
  ghost function Adopt(h: Graph, node: CId, comp: CId, rank: map<CId, nat>): Graph
    requires ComponentsRanked(h, rank)
  {
    var e := h.C(node).ParentObject;
    var parented := Reparented(h, comp, node);
    RankedBySubset(h, parented, rank);
    var attached := Attach(parented, comp, e, rank);
    var owned := attached.WithC(comp, attached.C(comp).(ParentObject := e));
    var m := owned.C(node);
    owned.WithC(node, m.(Children := m.Children + [comp]))
  }

  /** `comp.Parent = node`. */
  function Reparented(h: Graph, comp: CId, node: CId): (r: Graph)
    ensures r.Components.Keys == h.Components.Keys && r.Entities == h.Entities
    ensures forall k :: r.C(k).Children == h.C(k).Children && r.C(k).ParentObject == h.C(k).ParentObject
    ensures comp in h.Components ==> r.C(comp).Parent == Some(node)
    ensures forall k :: k != comp ==> r.C(k) == h.C(k)
  {
    h.WithC(comp, h.C(comp).(Parent := Some(node)))
  }

  /** After an immediate add, `comp` is parented by `node` and is its last child, and no other child
      list changes. */
  lemma AdoptLinks(h: Graph, node: CId, comp: CId, rank: map<CId, nat>)
    requires ComponentsRanked(h, rank)
    ensures var r := Adopt(h, node, comp, rank);
      r.Components.Keys == h.Components.Keys && r.Entities == h.Entities
      && (comp in h.Components ==> r.C(comp).Parent == Some(node))
      && (node in h.Components ==> r.C(node).Children == h.C(node).Children + [comp])
      && (forall k :: k != node ==> r.C(k).Children == h.C(k).Children)
  {
    var e := h.C(node).ParentObject;
    var parented := Reparented(h, comp, node);
    RankedBySubset(h, parented, rank);
    var attached := Attach(parented, comp, e, rank);
    SameLinksRanked(parented, attached, rank);
    SameLinksParents(parented, attached);
  }

  /** After an immediate add, every component of `comp`'s subtree is owned by `node`'s owner, and no
      other owner changes. */
  lemma AdoptOwners(h: Graph, node: CId, comp: CId, rank: map<CId, nat>)
    requires ComponentsRanked(h, rank)
    ensures var r := Adopt(h, node, comp, rank);
      forall k :: k in h.Components ==>
        r.C(k).ParentObject == if k in Reach(h, comp, rank) then h.C(node).ParentObject else h.C(k).ParentObject
  {
    var e := h.C(node).ParentObject;
    var parented := Reparented(h, comp, node);
    RankedBySubset(h, parented, rank);
    ReachSameLinks(h, parented, comp, rank);
    var attached := Attach(parented, comp, e, rank);
    AttachOwners(parented, comp, e, rank);
    var reach := Reach(h, comp, rank);
    assert comp in reach;
    var owned := attached.WithC(comp, attached.C(comp).(ParentObject := e));
    forall k | k in h.Components
      ensures owned.C(k).ParentObject == (if k in reach then e else h.C(k).ParentObject)
    {
      if k != comp {
        assert owned.C(k) == attached.C(k);
      }
    }
    var m := owned.C(node);
    var r := owned.WithC(node, m.(Children := m.Children + [comp]));
    assert r == Adopt(h, node, comp, rank);
    forall k | k in h.Components
      ensures r.C(k).ParentObject == (if k in reach then e else h.C(k).ParentObject)
    {
      if k != node {
        assert r.C(k) == owned.C(k);
      }
    }
  }

  /** Graphs that differ only in owners and counters have the same parents. */
  lemma SameLinksParents(g: Graph, h: Graph)
    requires SameLinks(g, h)
    ensures forall k :: g.C(k).Parent == h.C(k).Parent
  {
    forall k
      ensures g.C(k).Parent == h.C(k).Parent
    {
      assert Frame(g.C(k)).Parent == Frame(h.C(k)).Parent;
    }
  }

  /** Adding a component to itself passes the cycle guard (the guard starts at the parent), and the
      component becomes its own child: no ranking of the result exists, so every later walk of its
      subtree recurses without end. */
  lemma AddSelfBreaksEveryRanking(g: Graph, c: CId, depth: map<CId, nat>, rank: map<CId, nat>, later: map<CId, nat>)
    requires ComponentParentsRanked(g, depth) && ComponentsRanked(g, rank)
    requires c in g.Components && !g.C(c).Kind.ShouldBeReplicated() && !g.C(c).QueueRemovals
    requires !OnParentChain(g, g.C(c).Parent, c, depth)
    ensures AddChild(g, c, c, depth, rank).Status == Succeeded
    ensures !ComponentsRanked(AddChild(g, c, c, depth, rank).After, later)
  {
    var r := AddChild(g, c, c, depth, rank).After;
    var kids := r.C(c).Children;
    assert kids[|kids| - 1] == c;
  }

  // ---- The end of Update: reconciliation ----

  /** `Update` before the child loop: the node starts traversing. */
  function UpdateBegin(g: Graph, c: CId): (r: Graph)
    ensures r.Components.Keys == g.Components.Keys && r.Entities == g.Entities
    ensures c in g.Components ==> r.C(c) == g.C(c).(QueueRemovals := true)
    ensures forall k :: k != c ==> r.C(k) == g.C(k)
  {
    g.WithC(c, g.C(c).(QueueRemovals := true))
  }

  /** Whether `k` still has `c` as its parent: what the reconciliation keeps. */
  function ParentedBy(g: Graph, c: CId): CId -> bool
  {
    (k: CId) => g.C(k).Parent == Some(c)
  }

  /** Both loops of the reconciliation: the queued removals, then the queued adds. */
  function Reconciled(g: Graph, c: CId): seq<CId>
  {
    var n := g.C(c);
    AppendArrivals(DropDeparted(n.Children, n.QueuedRemovals, ParentedBy(g, c)), n.QueuedAdds, ParentedBy(g, c))
  }

  /** The reconciliation depends only on the record of `c` and on every component's parent. */
  lemma ReconciledSameParents(g: Graph, h: Graph, c: CId)
    requires forall k :: g.C(k).Parent == h.C(k).Parent
    requires g.C(c).Children == h.C(c).Children
    requires g.C(c).QueuedRemovals == h.C(c).QueuedRemovals && g.C(c).QueuedAdds == h.C(c).QueuedAdds
    ensures Reconciled(g, c) == Reconciled(h, c)
  {
    var n := g.C(c);
    DropDepartedSame(n.Children, n.QueuedRemovals, ParentedBy(g, c), ParentedBy(h, c));
    AppendArrivalsSame(DropDeparted(n.Children, n.QueuedRemovals, ParentedBy(g, c)), n.QueuedAdds,
                       ParentedBy(g, c), ParentedBy(h, c));
  }

  /** `Update` after the child loop. Traversal stops; a recorded clear runs as `ClearChildren` and
      discards both queues; otherwise the queued removals are applied, then the queued adds, and both
      queues and the clear flags are reset. */
  ghost function UpdateEnd(g: Graph, c: CId, rank: map<CId, nat>): (r: Graph)
    requires ComponentsRanked(g, rank)
    ensures r.Components.Keys == g.Components.Keys && r.Entities == g.Entities
    ensures c in g.Components ==>
      var n := r.C(c);
      !n.QueueRemovals && !n.ClearAll && !n.ClearAllDeep && n.QueuedRemovals == [] && n.QueuedAdds == []
    ensures g.C(c).ClearAll && c in g.Components ==>
      r.C(c).Children == []
      && forall k :: k in g.C(c).Children && k in g.Components ==> r.C(k).Parent.None? && r.C(k).ParentObject.None?
    ensures !g.C(c).ClearAll ==>
      (forall k :: k != c ==> r.C(k) == g.C(k))
      && (c in g.Components ==> r.C(c).Children == Reconciled(g, c))
  {
    var stopped := g.WithC(c, g.C(c).(QueueRemovals := false));
    RankedBySubset(g, stopped, rank);
    var n := stopped.C(c);
    if n.ClearAll then
      var cleared := ClearChildren(stopped, c, n.ClearAllDeep, rank).After;
      cleared.WithC(c, cleared.C(c).(ClearAll := false, ClearAllDeep := false, QueuedRemovals := [], QueuedAdds := []))
    else
      stopped.WithC(c, n.(ClearAllDeep := false, Children := Reconciled(g, c), QueuedRemovals := [], QueuedAdds := []))
  }

  /** A deferred `AddComponent` leaves the component without a parent, so the reconciliation that
      follows never appends it: the component ends up in no child list of `node`. */
  lemma DeferredAddIsLost(g: Graph, node: CId, comp: CId, depth: map<CId, nat>, rank: map<CId, nat>)
    requires ComponentParentsRanked(g, depth) && ComponentsRanked(g, rank)
    requires node in g.Components && g.C(node).QueueRemovals && !g.C(node).ClearAll
    requires !g.C(comp).Kind.ShouldBeReplicated() && !OnParentChain(g, g.C(node).Parent, comp, depth)
    requires comp !in g.C(node).Children
    ensures var s := AddChild(g, node, comp, depth, rank);
      s.Status == Deferred && ComponentsRanked(s.After, rank)
      && comp !in UpdateEnd(s.After, node, rank).C(node).Children
  {
    var s := AddChild(g, node, comp, depth, rank);
    var h := s.After;
    var kept := DropDeparted(h.C(node).Children, h.C(node).QueuedRemovals, ParentedBy(h, node));
    DropDepartedCounts(h.C(node).Children, h.C(node).QueuedRemovals, ParentedBy(h, node));
    assert comp !in kept;
    AppendArrivalsShape(kept, h.C(node).QueuedAdds, ParentedBy(h, node));
  }

  // ---- GetChildren, Contains, ForEachChild ----

  /** `GetChildren()`: a copy of the child list; while traversing, only the children whose parent is
      still this node, in order (the same list when none has left). */
  function ChildrenView(g: Graph, c: CId): (r: seq<CId>)
    ensures !g.C(c).QueueRemovals ==> r == g.C(c).Children
    ensures g.C(c).QueueRemovals ==> r == Filter(g.C(c).Children, ParentedBy(g, c))
    ensures forall x :: x in r <==> x in g.C(c).Children && (g.C(c).QueueRemovals ==> g.C(x).Parent == Some(c))
  {
    var keep := ParentedBy(g, c);
    FilterMembersAll(g.C(c).Children, keep);
    if !g.C(c).QueueRemovals then g.C(c).Children
    else if Rejected(g.C(c).Children, keep) == 0 then
      FilterNoneRejected(g.C(c).Children, keep);
      g.C(c).Children
    else Filter(g.C(c).Children, keep)
  }

  /** `Contains(target)`: whether `target` is a child in the view, or is contained by one. */
  ghost function Contains(g: Graph, c: CId, target: CId, rank: map<CId, nat>): bool
    requires ComponentsRanked(g, rank)
    decreases RankOf(rank, c), 1, 0
  {
    ContainsAny(g, ChildrenView(g, c), RankOf(rank, c), target, rank)
  }

  /** The loop of `Contains` over `kids`, all ranked below `bound`. */
  ghost function ContainsAny(g: Graph, kids: seq<CId>, bound: nat, target: CId, rank: map<CId, nat>): bool
    requires ComponentsRanked(g, rank)
    requires forall k :: k in kids ==> RankOf(rank, k) < bound
    decreases bound, 0, |kids|
  {
    if |kids| == 0 then false
    else kids[0] == target || Contains(g, kids[0], target, rank) || ContainsAny(g, kids[1..], bound, target, rank)
  }

  /** Outside any traversal, `Contains` is membership in the proper subtree. */
  lemma {:induction false} ContainsIsReach(g: Graph, c: CId, target: CId, rank: map<CId, nat>)
    requires ComponentsRanked(g, rank)
    requires forall k :: !g.C(k).QueueRemovals
    ensures Contains(g, c, target, rank) <==> target in ReachAll(g, c, g.C(c).Children, rank)
    decreases RankOf(rank, c), 1, 0
  {
    ContainsAnyIsReach(g, g.C(c).Children, RankOf(rank, c), target, rank);
    ReachAllMembers(g, c, g.C(c).Children, rank, target);
  }

  lemma {:induction false} ContainsAnyIsReach(g: Graph, kids: seq<CId>, bound: nat, target: CId, rank: map<CId, nat>)
    requires ComponentsRanked(g, rank)
    requires forall k :: !g.C(k).QueueRemovals
    requires forall k :: k in kids ==> RankOf(rank, k) < bound
    ensures ContainsAny(g, kids, bound, target, rank) <==> exists i :: 0 <= i < |kids| && target in Reach(g, kids[i], rank)
    decreases bound, 0, |kids|
  {
    if |kids| > 0 {
      ContainsIsReach(g, kids[0], target, rank);
      ContainsAnyIsReach(g, kids[1..], bound, target, rank);
      if exists i :: 0 <= i < |kids| && target in Reach(g, kids[i], rank) {
        var i :| 0 <= i < |kids| && target in Reach(g, kids[i], rank);
        if i > 0 {
          assert kids[1..][i - 1] == kids[i];
        }
      }
      if exists i :: 0 <= i < |kids| - 1 && target in Reach(g, kids[1..][i], rank) {
        var i :| 0 <= i < |kids| - 1 && target in Reach(g, kids[1..][i], rank);
        assert kids[1..][i] == kids[i + 1];
      }
    }
  }

  /** `ForEachChild(recursive, callback)` over the children of `c`. The callback is a function of the
      visited component. */
  ghost function Walk(g: Graph, c: CId, recursive: bool, callback: CId -> VisitType, rank: map<CId, nat>): (r: VisitType)
    requires ComponentsRanked(g, rank)
    ensures r != Skip
    decreases RankOf(rank, c), 1, 0
  {
    Visit(g, g.C(c).Children, RankOf(rank, c), recursive, callback, rank)
  }

  /** The loop of `ForEachChild` over `kids`: `Stop` from the callback or from a nested walk ends
      everything; `Skip` passes over that component's subtree; the loop otherwise yields `Continue`. */
  ghost function Visit(g: Graph, kids: seq<CId>, bound: nat, recursive: bool, callback: CId -> VisitType,
                       rank: map<CId, nat>): (r: VisitType)
    requires ComponentsRanked(g, rank)
    requires forall k :: k in kids ==> RankOf(rank, k) < bound
    ensures r != Skip
    decreases bound, 0, |kids|
  {
    if |kids| == 0 then Continue
    else
      var t := callback(kids[0]);
      if t == Stop then Stop
      else if t == Skip then Visit(g, kids[1..], bound, recursive, callback, rank)
      else if recursive && Walk(g, kids[0], recursive, callback, rank) == Stop then Stop
      else Visit(g, kids[1..], bound, recursive, callback, rank)
  }

  /** A `Stop` from the callback on any listed component stops the walk. */
  lemma {:induction false} VisitStopsOnStop(g: Graph, kids: seq<CId>, bound: nat, recursive: bool,
                                            callback: CId -> VisitType, rank: map<CId, nat>, i: nat)
    requires ComponentsRanked(g, rank)
    requires forall k :: k in kids ==> RankOf(rank, k) < bound
    requires i < |kids| && callback(kids[i]) == Stop
    ensures Visit(g, kids, bound, recursive, callback, rank) == Stop
  {
    if i > 0 && callback(kids[0]) != Stop {
      assert kids[1..][i - 1] == kids[i];
      VisitStopsOnStop(g, kids[1..], bound, recursive, callback, rank, i - 1);
    }
  }

  /** A flat walk stops exactly when the callback says `Stop` on some listed component. */
  lemma {:induction false} FlatVisitStops(g: Graph, kids: seq<CId>, bound: nat, callback: CId -> VisitType, rank: map<CId, nat>)
    requires ComponentsRanked(g, rank)
    requires forall k :: k in kids ==> RankOf(rank, k) < bound
    ensures Visit(g, kids, bound, false, callback, rank) == Stop <==> exists i :: 0 <= i < |kids| && callback(kids[i]) == Stop
  {
    if |kids| > 0 {
      FlatVisitStops(g, kids[1..], bound, callback, rank);
      if exists i :: 0 <= i < |kids| && callback(kids[i]) == Stop {
        var i :| 0 <= i < |kids| && callback(kids[i]) == Stop;
        VisitStopsOnStop(g, kids, bound, false, callback, rank, i);
      }
      if exists i :: 0 <= i < |kids| - 1 && callback(kids[1..][i]) == Stop {
        var i :| 0 <= i < |kids| - 1 && callback(kids[1..][i]) == Stop;
        assert kids[1..][i] == kids[i + 1];
      }
    }
  }

  /** In a recursive walk, the part a listed component `k` plays: the callback stops on `k`, or it
      answers `Continue` there and the walk of `k`'s children stops. After a `Skip` nothing below `k`
      is looked at. */
  ghost predicate StopsUnder(g: Graph, k: CId, callback: CId -> VisitType, rank: map<CId, nat>)
    requires ComponentsRanked(g, rank)
  {
    callback(k) == Stop || (callback(k) == Continue && Walk(g, k, true, callback, rank) == Stop)
  }

  /** A recursive walk stops exactly when some listed component stops it, directly or through the walk
      of its own children; a `Skip` suppresses the recursion into that component only. */
  lemma {:induction false} RecursiveVisitStops(g: Graph, kids: seq<CId>, bound: nat, callback: CId -> VisitType,
                                               rank: map<CId, nat>)
    requires ComponentsRanked(g, rank)
    requires forall k :: k in kids ==> RankOf(rank, k) < bound
    ensures Visit(g, kids, bound, true, callback, rank) == Stop <==>
      exists k :: k in kids && StopsUnder(g, k, callback, rank)
    decreases |kids|
  {
    if |kids| > 0 {
      var first, rest := kids[0], kids[1..];
      assert forall k :: k in kids <==> k == first || k in rest;
      RecursiveVisitStops(g, rest, bound, callback, rank);
      if callback(first) == Stop {
        assert StopsUnder(g, first, callback, rank);
      } else if callback(first) == Continue && Walk(g, first, true, callback, rank) == Stop {
        assert StopsUnder(g, first, callback, rank);
      } else {
        assert !StopsUnder(g, first, callback, rank);
        assert Visit(g, kids, bound, true, callback, rank) == Visit(g, rest, bound, true, callback, rank);
      }
    }
  }

  /** `ForEachChild(true, callback)` stops exactly when one of the children stops it, directly or through
      the walk of its own children. */
  lemma RecursiveWalkStops(g: Graph, c: CId, callback: CId -> VisitType, rank: map<CId, nat>)
    requires ComponentsRanked(g, rank)
    ensures Walk(g, c, true, callback, rank) == Stop <==>
      exists k :: k in g.C(c).Children && StopsUnder(g, k, callback, rank)
  {
    RecursiveVisitStops(g, g.C(c).Children, RankOf(rank, c), callback, rank);
  }

  /** When the callback answers `Skip` on every listed component, the walk continues, whatever the
      callback would answer further down. */
  lemma {:induction false} SkippedVisitContinues(g: Graph, kids: seq<CId>, bound: nat, recursive: bool,
                                                 callback: CId -> VisitType, rank: map<CId, nat>)
    requires ComponentsRanked(g, rank)
    requires forall k :: k in kids ==> RankOf(rank, k) < bound
    requires forall k :: k in kids ==> callback(k) == Skip
    ensures Visit(g, kids, bound, recursive, callback, rank) == Continue
    decreases |kids|
  {
    if |kids| > 0 {
      assert kids[0] in kids;
      assert forall k :: k in kids[1..] ==> k in kids;
      SkippedVisitContinues(g, kids[1..], bound, recursive, callback, rank);
    }
  }

  /** A walk that stops was stopped by the callback on some component of the walked subtrees. */
  lemma {:induction false} WalkStopIsWitnessed(g: Graph, c: CId, recursive: bool, callback: CId -> VisitType, rank: map<CId, nat>)
    requires ComponentsRanked(g, rank)
    requires Walk(g, c, recursive, callback, rank) == Stop
    ensures exists k :: k in ReachAll(g, c, g.C(c).Children, rank) && callback(k) == Stop
    decreases RankOf(rank, c), 1, 0
  {
    var k := VisitStopWitness(g, g.C(c).Children, RankOf(rank, c), recursive, callback, rank);
    var i :| 0 <= i < |g.C(c).Children| && k in Reach(g, g.C(c).Children[i], rank);
    ReachAllMembers(g, c, g.C(c).Children, rank, k);
  }

  /** The component whose callback stopped a loop, found in the subtree of one listed component. */
  lemma {:induction false} VisitStopWitness(g: Graph, kids: seq<CId>, bound: nat, recursive: bool,
                                            callback: CId -> VisitType, rank: map<CId, nat>) returns (k: CId)
    requires ComponentsRanked(g, rank)
    requires forall k :: k in kids ==> RankOf(rank, k) < bound
    requires Visit(g, kids, bound, recursive, callback, rank) == Stop
    ensures callback(k) == Stop && exists i :: 0 <= i < |kids| && k in Reach(g, kids[i], rank)
    decreases bound, 0, |kids|
  {
    var t := callback(kids[0]);
    if t == Stop {
      k := kids[0];
      assert k in Reach(g, kids[0], rank);
    } else if t != Skip && recursive && Walk(g, kids[0], recursive, callback, rank) == Stop {
      WalkStopIsWitnessed(g, kids[0], recursive, callback, rank);
      k :| k in ReachAll(g, kids[0], g.C(kids[0]).Children, rank) && callback(k) == Stop;
      assert k in Reach(g, kids[0], rank);
    } else {
      k := VisitStopWitness(g, kids[1..], bound, recursive, callback, rank);
      var i :| 0 <= i < |kids| - 1 && k in Reach(g, kids[1..][i], rank);
      assert kids[1..][i] == kids[i + 1];
    }
  }

  /** `ComponentID` lookup (`TryGetComponent`): found exactly for a live handle. */
  function TryGetComponent(g: Graph, id: CId): (r: Option<ComponentNode>)
    ensures r.Some? <==> id in g.Components
    ensures r.Some? ==> r.value == g.Components[id]
  {
    if id in g.Components then Some(g.Components[id]) else None
  }

  /** `IsDescendantOf(entity)`: whether `entity` owns `c`, directly or through an ancestor component. */
  function OwnedBy(g: Graph, c: CId, entity: EId): (r: bool)
    ensures r <==> g.C(c).ParentObject == Some(entity)
  {
    g.C(c).ParentObject == Some(entity)
  }

  /** Attaching `c` to `entity` makes `entity` the owner of every live component in `c`'s subtree and
      changes the answer for no other component. */
  lemma AttachMakesDescendants(g: Graph, c: CId, entity: EId, rank: map<CId, nat>)
    requires ComponentsRanked(g, rank)
    ensures forall k :: k in g.Components ==>
      (OwnedBy(Attach(g, c, Some(entity), rank), k, entity) <==> k in Reach(g, c, rank) || OwnedBy(g, k, entity))
  {
    AttachOwners(g, c, Some(entity), rank);
  }
}
