/**
 * The recursive walks of `GameEngine.ECS.Component` over a subtree: `AttachToInternal` (with the
 * `MovementController.ParentObjectChanged` hook), `DetatchInternal`, `ClearChildren`, and the
 * `Parent`-chain test of `IsDescendantOf`. Each is a function from the graph before to the graph
 * after; the methods of `Worlds.World` are proved to compute them.
 */
module EcsLinks {
  import opened Outcomes
  import opened EcsNodes

  // ---- Subtrees ----

  /** The components `c` reaches through `Children`, itself included. */
  ghost function Reach(g: Graph, c: CId, rank: map<CId, nat>): set<CId>
    requires ComponentsRanked(g, rank)
    decreases RankOf(rank, c), 1, 0
  {
    {c} + ReachAll(g, c, g.C(c).Children, rank)
  }

  /** The components some element of `kids` (children of `c`) reaches. */
  ghost function ReachAll(g: Graph, c: CId, kids: seq<CId>, rank: map<CId, nat>): set<CId>
    requires ComponentsRanked(g, rank)
    requires forall k :: k in kids ==> RankOf(rank, k) < RankOf(rank, c)
    decreases RankOf(rank, c), 0, |kids|
  {
    if |kids| == 0 then {}
    else ReachAll(g, c, kids[..|kids| - 1], rank) + Reach(g, kids[|kids| - 1], rank)
  }

  /** Graphs with the same child lists have the same subtrees. */
  lemma {:induction false} ReachSameLinks(g: Graph, h: Graph, c: CId, rank: map<CId, nat>)
    requires ComponentsRanked(g, rank) && ComponentsRanked(h, rank)
    requires forall k :: g.C(k).Children == h.C(k).Children
    ensures Reach(g, c, rank) == Reach(h, c, rank)
    decreases RankOf(rank, c), 1, 0
  {
    ReachAllSameLinks(g, h, c, g.C(c).Children, rank);
  }

  lemma {:induction false} ReachAllSameLinks(g: Graph, h: Graph, c: CId, kids: seq<CId>, rank: map<CId, nat>)
    requires ComponentsRanked(g, rank) && ComponentsRanked(h, rank)
    requires forall k :: g.C(k).Children == h.C(k).Children
    requires forall k :: k in kids ==> RankOf(rank, k) < RankOf(rank, c)
    ensures ReachAll(g, c, kids, rank) == ReachAll(h, c, kids, rank)
    decreases RankOf(rank, c), 0, |kids|
  {
    if |kids| > 0 {
      ReachAllSameLinks(g, h, c, kids[..|kids| - 1], rank);
      ReachSameLinks(g, h, kids[|kids| - 1], rank);
    }
  }

  /** Every component in the subtree union is in the subtree of one of the listed children. */
  lemma {:induction false} ReachAllMembers(g: Graph, c: CId, kids: seq<CId>, rank: map<CId, nat>, t: CId)
    requires ComponentsRanked(g, rank)
    requires forall k :: k in kids ==> RankOf(rank, k) < RankOf(rank, c)
    ensures t in ReachAll(g, c, kids, rank) <==> exists i :: 0 <= i < |kids| && t in Reach(g, kids[i], rank)
  {
    if |kids| > 0 {
      ReachAllMembers(g, c, kids[..|kids| - 1], rank, t);
      if t in Reach(g, kids[|kids| - 1], rank) {
        assert 0 <= |kids| - 1 < |kids|;
      }
    }
  }

  /** Graphs that differ only in owners and counters rank the same way. */
  lemma SameLinksRanked(g: Graph, h: Graph, rank: map<CId, nat>)
    requires SameLinks(g, h) && ComponentsRanked(g, rank)
    ensures ComponentsRanked(h, rank)
    ensures forall k :: g.C(k).Children == h.C(k).Children
  {
    forall k
      ensures g.C(k).Children == h.C(k).Children
    {
      assert Frame(g.C(k)).Children == Frame(h.C(k)).Children;
    }
  }

  // ---- AttachToInternal and its hook ----

  /** `Transform.AddMovementController` (`delta` 1) and `RemoveMovementController` (`delta` -1) on
      the transform `t` refers to, if any. */
  function Tally(g: Graph, t: Option<CId>, delta: int): (r: Graph)
    ensures SameLinks(g, r)
    ensures forall k :: r.C(k).ParentObject == g.C(k).ParentObject
  {
    if t.Some? && t.value in g.Components && g.C(t.value).Kind.Transform? then
      var node := g.C(t.value);
      g.WithC(t.value, node.(Kind := node.Kind.(MovementControllers := node.Kind.MovementControllers + delta)))
    else g
  }

  /** `ParentObjectChanged(previous)`, called on `c` after its owner was set: a movement controller
      leaves the previous owner's transform and joins the current owner's; other kinds do nothing. */
  function ParentObjectChanged(g: Graph, c: CId, previous: Option<EId>): (r: Graph)
    ensures SameLinks(g, r)
    ensures forall k :: r.C(k).ParentObject == g.C(k).ParentObject
  {
    if !g.C(c).Kind.IsMovementController() then g
    else
      var left := Tally(g, if previous.Some? then g.E(previous.value).Transform else None, -1);
      Tally(left, left.OwnerTransform(c), 1)
  }

  /** `c.AttachToInternal(e)`: sets the owner of `c`, fires the hook when the owner changed, then
      attaches each child in order. Every component of the subtree ends owned by `e`; no other
      component's owner changes. */
  ghost function Attach(g: Graph, c: CId, e: Option<EId>, rank: map<CId, nat>): (r: Graph)
    requires ComponentsRanked(g, rank)
    ensures SameLinks(g, r)
    decreases RankOf(rank, c), 1, 0
  {
    var notified := Owned(g, c, e);
    SameLinksRanked(g, notified, rank);
    AttachAll(notified, c, g.C(c).Children, e, rank)
  }

  /** The part of `AttachToInternal` before its loop: `ParentObject = e`, then the hook when the
      owner changed. Only the owner of `c` changes. */
  function Owned(g: Graph, c: CId, e: Option<EId>): (r: Graph)
    ensures SameLinks(g, r)
    ensures forall k :: r.C(k).ParentObject == (if k == c && c in g.Components then e else g.C(k).ParentObject)
  {
    var previous := g.C(c).ParentObject;
    var owned := g.WithC(c, g.C(c).(ParentObject := e));
    if e != previous then ParentObjectChanged(owned, c, previous) else owned
  }

  /** The loop of `AttachToInternal` over the first `|kids|` children of `c`. */
  ghost function AttachAll(g: Graph, c: CId, kids: seq<CId>, e: Option<EId>, rank: map<CId, nat>): (r: Graph)
    requires ComponentsRanked(g, rank)
    requires forall k :: k in kids ==> RankOf(rank, k) < RankOf(rank, c)
    ensures SameLinks(g, r)
    decreases RankOf(rank, c), 0, |kids|
  {
    if |kids| == 0 then g
    else
      var before := AttachAll(g, c, kids[..|kids| - 1], e, rank);
      SameLinksRanked(g, before, rank);
      Attach(before, kids[|kids| - 1], e, rank)
  }

  /** Every component of the subtree of `c` ends owned by `e`; no other component's owner changes. */
  lemma {:induction false} AttachOwners(g: Graph, c: CId, e: Option<EId>, rank: map<CId, nat>)
    requires ComponentsRanked(g, rank)
    ensures forall k :: k in g.Components ==>
      Attach(g, c, e, rank).C(k).ParentObject == if k in Reach(g, c, rank) then e else g.C(k).ParentObject
    decreases RankOf(rank, c), 1, 0
  {
    var notified := Owned(g, c, e);
    SameLinksRanked(g, notified, rank);
    ReachAllSameLinks(g, notified, c, g.C(c).Children, rank);
    AttachAllOwners(notified, c, g.C(c).Children, e, rank);
  }

  /** The same for the loop over the first `|kids|` children. */
  lemma {:induction false} AttachAllOwners(g: Graph, c: CId, kids: seq<CId>, e: Option<EId>, rank: map<CId, nat>)
    requires ComponentsRanked(g, rank)
    requires forall k :: k in kids ==> RankOf(rank, k) < RankOf(rank, c)
    ensures forall k :: k in g.Components ==>
      AttachAll(g, c, kids, e, rank).C(k).ParentObject == if k in ReachAll(g, c, kids, rank) then e else g.C(k).ParentObject
    decreases RankOf(rank, c), 0, |kids|
  {
    if |kids| > 0 {
      var before := AttachAll(g, c, kids[..|kids| - 1], e, rank);
      AttachAllOwners(g, c, kids[..|kids| - 1], e, rank);
      SameLinksRanked(g, before, rank);
      ReachSameLinks(g, before, kids[|kids| - 1], rank);
      AttachOwners(before, kids[|kids| - 1], e, rank);
    }
  }

  /** One more turn of the `AttachToInternal` loop: the prefix result is still ranked, and the next
      child is attached to it. */
  lemma AttachAllStep(g: Graph, c: CId, kids: seq<CId>, i: nat, e: Option<EId>, rank: map<CId, nat>)
    requires ComponentsRanked(g, rank)
    requires forall k :: k in kids ==> RankOf(rank, k) < RankOf(rank, c)
    requires i < |kids|
    ensures ComponentsRanked(AttachAll(g, c, kids[..i], e, rank), rank)
    ensures AttachAll(g, c, kids[..i + 1], e, rank) == Attach(AttachAll(g, c, kids[..i], e, rank), kids[i], e, rank)
  {
    assert kids[..i + 1][..i] == kids[..i];
    SameLinksRanked(g, AttachAll(g, c, kids[..i], e, rank), rank);
  }

  // ---- DetatchInternal ----

  /** `c.DetatchInternal(p)`: stops at once when the owner of `c` is not `p`; otherwise clears the
      owner and detaches each child. The hook never fires on this path, so kinds (and the transforms'
      counters) are untouched, and every owner is either kept or cleared. */
  ghost function Detach(g: Graph, c: CId, p: Option<EId>, rank: map<CId, nat>): (r: Graph)
    requires ComponentsRanked(g, rank)
    ensures SameLinks(g, r)
    ensures forall k :: r.C(k).Kind == g.C(k).Kind
    ensures forall k :: r.C(k).ParentObject == g.C(k).ParentObject || r.C(k).ParentObject.None?
    ensures forall k :: g.C(k).ParentObject != p ==> r.C(k) == g.C(k)
    ensures g.C(c).ParentObject != p ==> r == g
    ensures g.C(c).ParentObject == p && c in g.Components ==> r.C(c).ParentObject.None?
    decreases RankOf(rank, c), 1, 0
  {
    if g.C(c).ParentObject != p then g
    else
      var cleared := g.WithC(c, g.C(c).(ParentObject := None));
      SameLinksRanked(g, cleared, rank);
      DetachAll(cleared, c, g.C(c).Children, p, rank)
  }

  ghost function DetachAll(g: Graph, c: CId, kids: seq<CId>, p: Option<EId>, rank: map<CId, nat>): (r: Graph)
    requires ComponentsRanked(g, rank)
    requires forall k :: k in kids ==> RankOf(rank, k) < RankOf(rank, c)
    ensures SameLinks(g, r)
    ensures forall k :: r.C(k).Kind == g.C(k).Kind
    ensures forall k :: r.C(k).ParentObject == g.C(k).ParentObject || r.C(k).ParentObject.None?
    ensures forall k :: g.C(k).ParentObject != p ==> r.C(k) == g.C(k)
    decreases RankOf(rank, c), 0, |kids|
  {
    if |kids| == 0 then g
    else
      var before := DetachAll(g, c, kids[..|kids| - 1], p, rank);
      SameLinksRanked(g, before, rank);
      Detach(before, kids[|kids| - 1], p, rank)
  }

  /** One more turn of the `DetatchInternal` loop. */
  lemma DetachAllStep(g: Graph, c: CId, kids: seq<CId>, i: nat, p: Option<EId>, rank: map<CId, nat>)
    requires ComponentsRanked(g, rank)
    requires forall k :: k in kids ==> RankOf(rank, k) < RankOf(rank, c)
    requires i < |kids|
    ensures ComponentsRanked(DetachAll(g, c, kids[..i], p, rank), rank)
    ensures DetachAll(g, c, kids[..i + 1], p, rank) == Detach(DetachAll(g, c, kids[..i], p, rank), kids[i], p, rank)
  {
    assert kids[..i + 1][..i] == kids[..i];
    SameLinksRanked(g, DetachAll(g, c, kids[..i], p, rank), rank);
  }

  // ---- IsDescendantOf ----

  /** Whether `target` lies on the `Parent` chain that starts at `from`. */
  ghost function OnParentChain(g: Graph, from: Option<CId>, target: CId, depth: map<CId, nat>): bool
    requires ComponentParentsRanked(g, depth)
    decreases (if from.Some? then RankOf(depth, from.value) + 1 else 0)
  {
    if from.None? then false
    else if from.value == target then true
    else OnParentChain(g, g.C(from.value).Parent, target, depth)
  }

  /** The chain itself, nearest ancestor first. */
  ghost function Ancestors(g: Graph, from: Option<CId>, depth: map<CId, nat>): seq<CId>
    requires ComponentParentsRanked(g, depth)
    decreases (if from.Some? then RankOf(depth, from.value) + 1 else 0)
  {
    if from.None? then [] else [from.value] + Ancestors(g, g.C(from.value).Parent, depth)
  }

  /** The loop's answer is membership in the chain. */
  lemma {:induction false} OnParentChainIsMembership(g: Graph, from: Option<CId>, target: CId, depth: map<CId, nat>)
    requires ComponentParentsRanked(g, depth)
    ensures OnParentChain(g, from, target, depth) <==> target in Ancestors(g, from, depth)
    decreases (if from.Some? then RankOf(depth, from.value) + 1 else 0)
  {
    if from.Some? {
      OnParentChainIsMembership(g, g.C(from.value).Parent, target, depth);
    }
  }

  // ---- ClearChildren ----

  /** A graph step that only ever clears links: owners and parents are kept or nulled, child lists
      kept or emptied, kinds untouched, and a traversing node's child list left as it was. */
  ghost predicate OnlyClears(g: Graph, h: Graph)
  {
    g.Components.Keys == h.Components.Keys && g.Entities == h.Entities
    && forall k :: h.C(k).Kind == g.C(k).Kind
                   && (h.C(k).ParentObject == g.C(k).ParentObject || h.C(k).ParentObject.None?)
                   && (h.C(k).Parent == g.C(k).Parent || h.C(k).Parent.None?)
                   && (h.C(k).Children == g.C(k).Children || h.C(k).Children == [])
                   && h.C(k).QueueRemovals == g.C(k).QueueRemovals
                   && (g.C(k).QueueRemovals ==> h.C(k).Children == g.C(k).Children)
  }

  lemma OnlyClearsTransitive(a: Graph, b: Graph, c: Graph)
    requires OnlyClears(a, b) && OnlyClears(b, c)
    ensures OnlyClears(a, c)
  {
  }

  lemma OnlyClearsRanked(g: Graph, h: Graph, rank: map<CId, nat>)
    requires OnlyClears(g, h) && ComponentsRanked(g, rank)
    ensures ComponentsRanked(h, rank)
  {
    forall c, i | 0 <= i < |h.C(c).Children|
      ensures RankOf(rank, h.C(c).Children[i]) < RankOf(rank, c)
    {
      assert h.C(c).Children == g.C(c).Children;
    }
  }

  /** The outcome of a structural request: the graph after it and the status it returns. */
  datatype Step = Step(After: Graph, Status: ChildUpdateStatus)

  /** `c.ClearChildren(deep)`. While `c` is traversing it only records the request (`ClearAll`, and
      `ClearAllDeep` when deep). Otherwise each child in turn loses its parent and owner, and is then
      cleared itself (deep) or detached from this node's owner (shallow); finally the list empties. */
  ghost function ClearChildren(g: Graph, c: CId, deep: bool, rank: map<CId, nat>): (r: Step)
    requires ComponentsRanked(g, rank)
    ensures r.Status == (if g.C(c).QueueRemovals then Deferred else Succeeded)
    ensures OnlyClears(g, r.After) && ComponentsRanked(r.After, rank)
    ensures g.C(c).QueueRemovals ==> forall k :: k != c ==> r.After.C(k) == g.C(k)
    ensures !g.C(c).QueueRemovals && c in g.Components ==>
      r.After.C(c).Children == []
      && forall k :: k in g.C(c).Children && k in g.Components ==>
           r.After.C(k).Parent.None? && r.After.C(k).ParentObject.None?
    decreases RankOf(rank, c), 1, 0
  {
    var n := g.C(c);
    if n.QueueRemovals then
      var r := g.WithC(c, n.(ClearAll := true, ClearAllDeep := n.ClearAllDeep || deep));
      Step(r, Deferred)
    else
      var each := ClearEach(g, c, n.Children, deep, rank);
      var r := each.WithC(c, each.C(c).(Children := []));
      OnlyClearsTransitive(g, each, r);
      OnlyClearsRanked(g, r, rank);
      Step(r, Succeeded)
  }

  /** The loop of `ClearChildren` over the first `|kids|` children of `c`, when not traversing. */
  ghost function ClearEach(g: Graph, c: CId, kids: seq<CId>, deep: bool, rank: map<CId, nat>): (r: Graph)
    requires ComponentsRanked(g, rank)
    requires forall k :: k in kids ==> RankOf(rank, k) < RankOf(rank, c)
    ensures OnlyClears(g, r)
    ensures forall k :: k in kids && k in g.Components ==> r.C(k).Parent.None? && r.C(k).ParentObject.None?
    decreases RankOf(rank, c), 0, |kids|
  {
    if |kids| == 0 then g
    else
      var before := ClearEach(g, c, kids[..|kids| - 1], deep, rank);
      OnlyClearsRanked(g, before, rank);
      var r := ClearOne(before, c, kids[|kids| - 1], deep, rank);
      OnlyClearsTransitive(g, before, r);
      r
  }

  /** One more turn of the `ClearChildren` loop. */
  lemma ClearEachStep(g: Graph, c: CId, kids: seq<CId>, i: nat, deep: bool, rank: map<CId, nat>)
    requires ComponentsRanked(g, rank)
    requires forall k :: k in kids ==> RankOf(rank, k) < RankOf(rank, c)
    requires i < |kids|
    ensures ComponentsRanked(ClearEach(g, c, kids[..i], deep, rank), rank)
    ensures ClearEach(g, c, kids[..i + 1], deep, rank) == ClearOne(ClearEach(g, c, kids[..i], deep, rank), c, kids[i], deep, rank)
  {
    assert kids[..i + 1][..i] == kids[..i];
    OnlyClearsRanked(g, ClearEach(g, c, kids[..i], deep, rank), rank);
  }

  /** One turn of that loop: `child` loses its parent and owner, then is cleared (deep) or detached
      from the owner `c` has at that moment (shallow). */
  ghost function ClearOne(g: Graph, c: CId, child: CId, deep: bool, rank: map<CId, nat>): (r: Graph)
    requires ComponentsRanked(g, rank)
    ensures OnlyClears(g, r)
    ensures child in g.Components ==> r.C(child).Parent.None? && r.C(child).ParentObject.None?
    decreases RankOf(rank, child), 2, 0
  {
    var unlinked := g.WithC(child, g.C(child).(Parent := None, ParentObject := None));
    OnlyClearsRanked(g, unlinked, rank);
    var r := if deep then ClearChildren(unlinked, child, deep, rank).After
             else Detach(unlinked, child, unlinked.C(c).ParentObject, rank);
    OnlyClearsTransitive(g, unlinked, r);
    r
  }
}
