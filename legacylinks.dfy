/**
 * The members of the legacy `GameEngine.Component` as functions from the scene before to the
 * scene after: `AddComponent`, `RemoveComponent`, `ClearChildren`, `AttachToInternal` and
 * `DetatchInternal`. The methods of `LegacyMethods` are proved to compute them.
 */
module LegacyLinks {
  import opened Outcomes
  import opened Sequences
  import opened LegacyNodes

  // ---- Subtrees ----

  /** The components `c` reaches through `Children`, itself included. */
  ghost function Reach(g: Scene, c: LCId, rank: map<LCId, nat>): set<LCId>
    requires Ranked(g, rank)
    decreases RankOf(rank, c), 1
  {
    {c} + ReachAll(g, c, g.C(c).Children, rank)
  }

  /** The components some element of `kids` (children of `c`) reaches. */
  ghost function ReachAll(g: Scene, c: LCId, kids: seq<LCId>, rank: map<LCId, nat>): set<LCId>
    requires Ranked(g, rank)
    requires forall k :: k in kids ==> RankOf(rank, k) < RankOf(rank, c)
    decreases RankOf(rank, c), 0, |kids|
  {
    if |kids| == 0 then {}
    else ReachAll(g, c, kids[..|kids| - 1], rank) + Reach(g, kids[|kids| - 1], rank)
  }

  /** Scenes with the same child lists have the same subtrees. */
  lemma {:induction false} ReachSameLinks(g: Scene, h: Scene, c: LCId, rank: map<LCId, nat>)
    requires Ranked(g, rank) && Ranked(h, rank)
    requires forall k :: g.C(k).Children == h.C(k).Children
    ensures Reach(g, c, rank) == Reach(h, c, rank)
    decreases RankOf(rank, c), 1
  {
    ReachAllSameLinks(g, h, c, g.C(c).Children, rank);
  }

  lemma {:induction false} ReachAllSameLinks(g: Scene, h: Scene, c: LCId, kids: seq<LCId>, rank: map<LCId, nat>)
    requires Ranked(g, rank) && Ranked(h, rank)
    requires forall k :: g.C(k).Children == h.C(k).Children
    requires forall k :: k in kids ==> RankOf(rank, k) < RankOf(rank, c)
    ensures ReachAll(g, c, kids, rank) == ReachAll(h, c, kids, rank)
    decreases RankOf(rank, c), 0, |kids|
  {
    if |kids| > 0 {
      ReachAllSameLinks(g, h, c, kids[..|kids| - 1], rank);
      ReachSameLinks(g, h, kids[|kids| - 1], rank);
    }
  }

  /** A scene whose child lists are those of a ranked scene is ranked the same way. */
  lemma SameChildrenRanked(g: Scene, h: Scene, rank: map<LCId, nat>)
    requires Ranked(g, rank)
    requires forall k :: h.C(k).Children == g.C(k).Children
    ensures Ranked(h, rank)
  {
  }

  // ---- AttachToInternal ----

  /** `c.AttachToInternal(e)`: sets the owner of `c`, then attaches each child in order. */
  ghost function Attach(g: Scene, c: LCId, e: Option<LEId>, rank: map<LCId, nat>): (r: Scene)
    requires Ranked(g, rank)
    ensures OwnersOnly(g, r)
    decreases RankOf(rank, c), 1
  {
    var owned := g.WithC(c, g.C(c).(ParentObject := e));
    OwnersOnlyRanked(g, owned, rank);
    var r := AttachAll(owned, c, g.C(c).Children, e, rank);
    OwnersOnlyTransitive(g, owned, r);
    r
  }

  /** The loop of `AttachToInternal` over the first `|kids|` children of `c`. */
  ghost function AttachAll(g: Scene, c: LCId, kids: seq<LCId>, e: Option<LEId>, rank: map<LCId, nat>): (r: Scene)
    requires Ranked(g, rank)
    requires forall k :: k in kids ==> RankOf(rank, k) < RankOf(rank, c)
    ensures OwnersOnly(g, r)
    decreases RankOf(rank, c), 0, |kids|
  {
    if |kids| == 0 then g
    else
      var before := AttachAll(g, c, kids[..|kids| - 1], e, rank);
      OwnersOnlyRanked(g, before, rank);
      var r := Attach(before, kids[|kids| - 1], e, rank);
      OwnersOnlyTransitive(g, before, r);
      r
  }

  /** Every component of the subtree of `c` ends owned by `e`; no other component's owner changes. */
  lemma {:induction false} AttachOwners(g: Scene, c: LCId, e: Option<LEId>, rank: map<LCId, nat>)
    requires Ranked(g, rank)
    ensures forall k :: k in g.Components ==>
      Attach(g, c, e, rank).C(k).ParentObject == if k in Reach(g, c, rank) then e else g.C(k).ParentObject
    decreases RankOf(rank, c), 1
  {
    var owned := g.WithC(c, g.C(c).(ParentObject := e));
    OwnersOnlyRanked(g, owned, rank);
    ReachAllSameLinks(g, owned, c, g.C(c).Children, rank);
    AttachAllOwners(owned, c, g.C(c).Children, e, rank);
  }

  lemma {:induction false} AttachAllOwners(g: Scene, c: LCId, kids: seq<LCId>, e: Option<LEId>, rank: map<LCId, nat>)
    requires Ranked(g, rank)
    requires forall k :: k in kids ==> RankOf(rank, k) < RankOf(rank, c)
    ensures forall k :: k in g.Components ==>
      AttachAll(g, c, kids, e, rank).C(k).ParentObject == if k in ReachAll(g, c, kids, rank) then e else g.C(k).ParentObject
    decreases RankOf(rank, c), 0, |kids|
  {
    if |kids| > 0 {
      var before := AttachAll(g, c, kids[..|kids| - 1], e, rank);
      AttachAllOwners(g, c, kids[..|kids| - 1], e, rank);
      OwnersOnlyRanked(g, before, rank);
      ReachSameLinks(g, before, kids[|kids| - 1], rank);
      AttachOwners(before, kids[|kids| - 1], e, rank);
    }
  }

  /** One more turn of the `AttachToInternal` loop. */
  lemma AttachAllStep(g: Scene, c: LCId, kids: seq<LCId>, i: nat, e: Option<LEId>, rank: map<LCId, nat>)
    requires Ranked(g, rank)
    requires forall k :: k in kids ==> RankOf(rank, k) < RankOf(rank, c)
    requires i < |kids|
    ensures Ranked(AttachAll(g, c, kids[..i], e, rank), rank)
    ensures AttachAll(g, c, kids[..i + 1], e, rank) == Attach(AttachAll(g, c, kids[..i], e, rank), kids[i], e, rank)
  {
    assert kids[..i + 1][..i] == kids[..i];
    OwnersOnlyRanked(g, AttachAll(g, c, kids[..i], e, rank), rank);
  }

  // ---- DetatchInternal ----

  /** `c.DetatchInternal()`: does nothing when `c` has no owner; otherwise clears it and detaches
      each child. A child already without an owner stops the walk below it. */
  ghost function Detach(g: Scene, c: LCId, rank: map<LCId, nat>): (r: Scene)
    requires Ranked(g, rank)
    ensures OwnersOnly(g, r)
    ensures forall k :: r.C(k).ParentObject == g.C(k).ParentObject || r.C(k).ParentObject.None?
    decreases RankOf(rank, c), 1
  {
    if g.C(c).ParentObject.None? then g
    else
      var cleared := g.WithC(c, g.C(c).(ParentObject := None));
      OwnersOnlyRanked(g, cleared, rank);
      var r := DetachAll(cleared, c, g.C(c).Children, rank);
      OwnersOnlyTransitive(g, cleared, r);
      r
  }

  ghost function DetachAll(g: Scene, c: LCId, kids: seq<LCId>, rank: map<LCId, nat>): (r: Scene)
    requires Ranked(g, rank)
    requires forall k :: k in kids ==> RankOf(rank, k) < RankOf(rank, c)
    ensures OwnersOnly(g, r)
    ensures forall k :: r.C(k).ParentObject == g.C(k).ParentObject || r.C(k).ParentObject.None?
    decreases RankOf(rank, c), 0, |kids|
  {
    if |kids| == 0 then g
    else
      var before := DetachAll(g, c, kids[..|kids| - 1], rank);
      OwnersOnlyRanked(g, before, rank);
      var r := Detach(before, kids[|kids| - 1], rank);
      OwnersOnlyTransitive(g, before, r);
      r
  }

  /** One more turn of the `DetatchInternal` loop. */
  lemma DetachAllStep(g: Scene, c: LCId, kids: seq<LCId>, i: nat, rank: map<LCId, nat>)
    requires Ranked(g, rank)
    requires forall k :: k in kids ==> RankOf(rank, k) < RankOf(rank, c)
    requires i < |kids|
    ensures Ranked(DetachAll(g, c, kids[..i], rank), rank)
    ensures DetachAll(g, c, kids[..i + 1], rank) == Detach(DetachAll(g, c, kids[..i], rank), kids[i], rank)
  {
    assert kids[..i + 1][..i] == kids[..i];
    OwnersOnlyRanked(g, DetachAll(g, c, kids[..i], rank), rank);
  }

  /** `DetatchInternal` leaves a component without an owner as it is, and otherwise ends with `c`
      ownerless and touches nothing outside the subtree of `c`. */
  lemma {:induction false} DetachEffect(g: Scene, c: LCId, rank: map<LCId, nat>)
    requires Ranked(g, rank)
    ensures g.C(c).ParentObject.None? ==> Detach(g, c, rank) == g
    ensures c in g.Components ==> Detach(g, c, rank).C(c).ParentObject.None?
    ensures forall k :: k !in Reach(g, c, rank) ==> Detach(g, c, rank).C(k) == g.C(k)
    decreases RankOf(rank, c), 1
  {
    if g.C(c).ParentObject.Some? {
      var cleared := g.WithC(c, g.C(c).(ParentObject := None));
      OwnersOnlyRanked(g, cleared, rank);
      ReachAllSameLinks(g, cleared, c, g.C(c).Children, rank);
      DetachAllOutside(cleared, c, g.C(c).Children, rank);
      if c in g.Components {
        assert c in Reach(g, c, rank);
        assert c !in Reach(cleared, c, rank) - {c};
        DetachAllKeepsNone(cleared, c, g.C(c).Children, rank, c);
      }
    }
  }

  /** The loop touches nothing outside the subtrees it walks. */
  lemma {:induction false} DetachAllOutside(g: Scene, c: LCId, kids: seq<LCId>, rank: map<LCId, nat>)
    requires Ranked(g, rank)
    requires forall k :: k in kids ==> RankOf(rank, k) < RankOf(rank, c)
    ensures forall k :: k !in ReachAll(g, c, kids, rank) ==> DetachAll(g, c, kids, rank).C(k) == g.C(k)
    decreases RankOf(rank, c), 0, |kids|
  {
    if |kids| > 0 {
      var before := DetachAll(g, c, kids[..|kids| - 1], rank);
      DetachAllOutside(g, c, kids[..|kids| - 1], rank);
      OwnersOnlyRanked(g, before, rank);
      ReachSameLinks(g, before, kids[|kids| - 1], rank);
      DetachEffect(before, kids[|kids| - 1], rank);
    }
  }

  /** A component that is already ownerless stays ownerless. */
  lemma DetachAllKeepsNone(g: Scene, c: LCId, kids: seq<LCId>, rank: map<LCId, nat>, k: LCId)
    requires Ranked(g, rank)
    requires forall x :: x in kids ==> RankOf(rank, x) < RankOf(rank, c)
    requires g.C(k).ParentObject.None?
    ensures DetachAll(g, c, kids, rank).C(k).ParentObject.None?
  {
  }

  // ---- AddComponent / RemoveComponent ----

  /** `node.AddComponent(comp)`: `comp.Parent = node`, the subtree of `comp` is attached to the owner
      of `node`, `comp.ParentObject` is set to it once more, and `comp` is appended to the children
      of `node`. There is no check for a component that is already a child, or one whose subtree
      holds `node`. */
  ghost function AddComponent(g: Scene, node: LCId, comp: LCId, rank: map<LCId, nat>): (r: Scene)
    requires Ranked(g, rank)
    ensures r.Entities == g.Entities && r.Components.Keys == g.Components.Keys
  {
    var parented := g.WithC(comp, g.C(comp).(Parent := Some(node)));
    SameChildrenRanked(g, parented, rank);
    var owner := parented.C(node).ParentObject;
    var attached := Attach(parented, comp, owner, rank);
    var owned := attached.WithC(comp, attached.C(comp).(ParentObject := owner));
    owned.WithC(node, owned.C(node).(Children := owned.C(node).Children + [comp]))
  }

  /** What `AddComponent` does to the links: `comp` is appended to the children of `node` and takes
      `node` as its parent; no other parent, child list or name changes. */
  lemma AddComponentLinks(g: Scene, node: LCId, comp: LCId, rank: map<LCId, nat>)
    requires Ranked(g, rank)
    requires node in g.Components && comp in g.Components
    ensures var r := AddComponent(g, node, comp, rank);
      r.C(node).Children == g.C(node).Children + [comp]
      && r.C(comp).Parent == Some(node)
      && (forall k :: k != comp ==> r.C(k).Parent == g.C(k).Parent)
      && (forall k :: k != node ==> r.C(k).Children == g.C(k).Children)
      && (forall k :: r.C(k).Name == g.C(k).Name)
  {
    var parented := g.WithC(comp, g.C(comp).(Parent := Some(node)));
    SameChildrenRanked(g, parented, rank);
    var attached := Attach(parented, comp, parented.C(node).ParentObject, rank);
    assert forall k :: attached.C(k) == parented.C(k).(ParentObject := attached.C(k).ParentObject);
  }

  /** What `AddComponent` does to owners: the subtree of `comp` takes the owner of `node`, and no
      other component's owner changes. */
  lemma AddComponentOwners(g: Scene, node: LCId, comp: LCId, rank: map<LCId, nat>)
    requires Ranked(g, rank)
    requires node in g.Components && comp in g.Components
    ensures var r := AddComponent(g, node, comp, rank);
      forall k :: k in g.Components ==>
        r.C(k).ParentObject == if k in Reach(g, comp, rank) then g.C(node).ParentObject else g.C(k).ParentObject
  {
    var parented := g.WithC(comp, g.C(comp).(Parent := Some(node)));
    SameChildrenRanked(g, parented, rank);
    ReachSameLinks(g, parented, comp, rank);
    AttachOwners(parented, comp, parented.C(node).ParentObject, rank);
    assert comp in Reach(g, comp, rank);
  }

  /** `node.RemoveComponent(comp)`: nothing unless `comp.Parent` is `node`; then `comp` leaves the
      children of `node` and loses its parent and its owner. Its own subtree keeps its owner. */
  function RemoveComponent(g: Scene, node: LCId, comp: LCId): (r: Scene)
    ensures r.Entities == g.Entities && r.Components.Keys == g.Components.Keys
    ensures g.C(comp).Parent != Some(node) ==> r == g
    ensures g.C(comp).Parent == Some(node) && node in g.Components && comp in g.Components ==>
      r.C(node).Children == RemoveFirst(g.C(node).Children, comp)
      && r.C(comp).Parent.None? && r.C(comp).ParentObject.None?
      && forall k :: k != node && k != comp ==> r.C(k) == g.C(k)
  {
    if g.C(comp).Parent != Some(node) then g
    else
      var h := g.WithC(node, g.C(node).(Children := RemoveFirst(g.C(node).Children, comp)));
      h.WithC(comp, h.C(comp).(Parent := None, ParentObject := None))
  }

  /** Removing a component that was just added restores the child list of `node` and leaves `comp`
      with neither parent nor owner; the rest of its subtree keeps the owner `AddComponent` gave it. */
  lemma AddThenRemove(g: Scene, node: LCId, comp: LCId, rank: map<LCId, nat>)
    requires Ranked(g, rank)
    requires node in g.Components && comp in g.Components && node != comp
    requires comp !in g.C(node).Children
    ensures var r := RemoveComponent(AddComponent(g, node, comp, rank), node, comp);
      r.C(node).Children == g.C(node).Children
      && r.C(comp).Parent.None? && r.C(comp).ParentObject.None?
      && forall k :: k in Reach(g, comp, rank) && k != comp && k in g.Components ==>
           r.C(k).ParentObject == g.C(node).ParentObject
  {
    AddComponentLinks(g, node, comp, rank);
    AddComponentOwners(g, node, comp, rank);
    RemoveAfterAppend(g.C(node).Children, comp);
  }

  /** `List.Remove` after `List.Add` of an element the list did not hold. */
  lemma {:induction false} RemoveAfterAppend(s: seq<LCId>, x: LCId)
    requires x !in s
    ensures RemoveFirst(s + [x], x) == s
  {
    if |s| > 0 {
      assert (s + [x])[1..] == s[1..] + [x];
      RemoveAfterAppend(s[1..], x);
    }
  }

  // ---- ClearChildren ----

  /** A step that only ever clears links: owners and parents kept or nulled, child lists kept or
      emptied, names untouched. */
  ghost predicate OnlyClears(g: Scene, h: Scene)
  {
    g.Components.Keys == h.Components.Keys && g.Entities == h.Entities
    && forall k :: h.C(k).Name == g.C(k).Name
                   && (h.C(k).ParentObject == g.C(k).ParentObject || h.C(k).ParentObject.None?)
                   && (h.C(k).Parent == g.C(k).Parent || h.C(k).Parent.None?)
                   && (h.C(k).Children == g.C(k).Children || h.C(k).Children == [])
  }

  lemma OnlyClearsTransitive(a: Scene, b: Scene, c: Scene)
    requires OnlyClears(a, b) && OnlyClears(b, c)
    ensures OnlyClears(a, c)
  {
  }

  lemma OnlyClearsRanked(g: Scene, h: Scene, rank: map<LCId, nat>)
    requires OnlyClears(g, h) && Ranked(g, rank)
    ensures Ranked(h, rank)
  {
    forall c, i | 0 <= i < |h.C(c).Children|
      ensures RankOf(rank, h.C(c).Children[i]) < RankOf(rank, c)
    {
      assert h.C(c).Children == g.C(c).Children;
    }
  }

  /** `c.ClearChildren(deep)`: each child in turn loses its parent and owner and, when deep, is
      cleared itself; then the list empties. */
  ghost function ClearChildren(g: Scene, c: LCId, deep: bool, rank: map<LCId, nat>): (r: Scene)
    requires Ranked(g, rank)
    ensures OnlyClears(g, r) && Ranked(r, rank)
    ensures c in g.Components ==>
      r.C(c).Children == []
      && forall k :: k in g.C(c).Children && k in g.Components ==>
           r.C(k).Parent.None? && r.C(k).ParentObject.None?
    decreases RankOf(rank, c), 1
  {
    var each := ClearEach(g, c, g.C(c).Children, deep, rank);
    var r := each.WithC(c, each.C(c).(Children := []));
    OnlyClearsTransitive(g, each, r);
    OnlyClearsRanked(g, r, rank);
    r
  }

  /** The loop of `ClearChildren` over the first `|kids|` children of `c`. */
  ghost function ClearEach(g: Scene, c: LCId, kids: seq<LCId>, deep: bool, rank: map<LCId, nat>): (r: Scene)
    requires Ranked(g, rank)
    requires forall k :: k in kids ==> RankOf(rank, k) < RankOf(rank, c)
    ensures OnlyClears(g, r)
    ensures forall k :: k in kids && k in g.Components ==> r.C(k).Parent.None? && r.C(k).ParentObject.None?
    decreases RankOf(rank, c), 0, |kids|
  {
    if |kids| == 0 then g
    else
      var before := ClearEach(g, c, kids[..|kids| - 1], deep, rank);
      OnlyClearsRanked(g, before, rank);
      var r := ClearOne(before, kids[|kids| - 1], deep, rank);
      OnlyClearsTransitive(g, before, r);
      r
  }

  /** One more turn of the `ClearChildren` loop. */
  lemma ClearEachStep(g: Scene, c: LCId, kids: seq<LCId>, i: nat, deep: bool, rank: map<LCId, nat>)
    requires Ranked(g, rank)
    requires forall k :: k in kids ==> RankOf(rank, k) < RankOf(rank, c)
    requires i < |kids|
    ensures Ranked(ClearEach(g, c, kids[..i], deep, rank), rank)
    ensures ClearEach(g, c, kids[..i + 1], deep, rank) == ClearOne(ClearEach(g, c, kids[..i], deep, rank), kids[i], deep, rank)
  {
    assert kids[..i + 1][..i] == kids[..i];
    OnlyClearsRanked(g, ClearEach(g, c, kids[..i], deep, rank), rank);
  }

  /** One turn of that loop: `child` loses its parent and owner, then is cleared when deep. */
  ghost function ClearOne(g: Scene, child: LCId, deep: bool, rank: map<LCId, nat>): (r: Scene)
    requires Ranked(g, rank)
    ensures OnlyClears(g, r)
    ensures child in g.Components ==> r.C(child).Parent.None? && r.C(child).ParentObject.None?
    decreases RankOf(rank, child), 2
  {
    var unlinked := g.WithC(child, g.C(child).(Parent := None, ParentObject := None));
    OnlyClearsRanked(g, unlinked, rank);
    var r := if deep then ClearChildren(unlinked, child, deep, rank) else unlinked;
    OnlyClearsTransitive(g, unlinked, r);
    r
  }

  /** A shallow clear writes only `c` and its former children. */
  lemma {:induction false} ClearShallowFrame(g: Scene, c: LCId, kids: seq<LCId>, rank: map<LCId, nat>)
    requires Ranked(g, rank)
    requires forall k :: k in kids ==> RankOf(rank, k) < RankOf(rank, c)
    ensures forall k :: k !in kids ==> ClearEach(g, c, kids, false, rank).C(k) == g.C(k)
    decreases |kids|
  {
    if |kids| > 0 {
      ClearShallowFrame(g, c, kids[..|kids| - 1], rank);
    }
  }

  /** A clear, deep or shallow, touches nothing outside the subtree of `c`. */
  lemma {:induction false} ClearFrame(g: Scene, c: LCId, deep: bool, rank: map<LCId, nat>)
    requires Ranked(g, rank)
    ensures forall k :: k !in Reach(g, c, rank) ==> ClearChildren(g, c, deep, rank).C(k) == g.C(k)
    decreases RankOf(rank, c), 1
  {
    ClearEachFrame(g, c, g.C(c).Children, deep, rank);
  }

  lemma {:induction false} ClearEachFrame(g: Scene, c: LCId, kids: seq<LCId>, deep: bool, rank: map<LCId, nat>)
    requires Ranked(g, rank)
    requires forall k :: k in kids ==> RankOf(rank, k) < RankOf(rank, c)
    ensures forall k :: k !in ReachAll(g, c, kids, rank) ==> ClearEach(g, c, kids, deep, rank).C(k) == g.C(k)
    decreases RankOf(rank, c), 0, |kids|
  {
    if |kids| > 0 {
      var before := ClearEach(g, c, kids[..|kids| - 1], deep, rank);
      ClearEachFrame(g, c, kids[..|kids| - 1], deep, rank);
      OnlyClearsRanked(g, before, rank);
      var child := kids[|kids| - 1];
      var unlinked := before.WithC(child, before.C(child).(Parent := None, ParentObject := None));
      if deep {
        OnlyClearsRanked(before, unlinked, rank);
        ClearFrame(unlinked, child, deep, rank);
        SubtreeUnderClear(g, before, child, rank);
        SubtreeUnderClear(g, unlinked, child, rank);
      }
      assert child in Reach(g, child, rank);
    }
  }

  /** A scene reached by clears from `g` has a subtree of `c` within the subtree `g` had. */
  lemma {:induction false} SubtreeUnderClear(g: Scene, h: Scene, c: LCId, rank: map<LCId, nat>)
    requires Ranked(g, rank) && OnlyClears(g, h) && Ranked(h, rank)
    ensures Reach(h, c, rank) <= Reach(g, c, rank)
    decreases RankOf(rank, c), 1
  {
    if h.C(c).Children == g.C(c).Children {
      SubtreeAllUnderClear(g, h, c, g.C(c).Children, rank);
    }
  }

  lemma {:induction false} SubtreeAllUnderClear(g: Scene, h: Scene, c: LCId, kids: seq<LCId>, rank: map<LCId, nat>)
    requires Ranked(g, rank) && OnlyClears(g, h) && Ranked(h, rank)
    requires forall k :: k in kids ==> RankOf(rank, k) < RankOf(rank, c)
    ensures ReachAll(h, c, kids, rank) <= ReachAll(g, c, kids, rank)
    decreases RankOf(rank, c), 0, |kids|
  {
    if |kids| > 0 {
      SubtreeAllUnderClear(g, h, c, kids[..|kids| - 1], rank);
      SubtreeUnderClear(g, h, kids[|kids| - 1], rank);
    }
  }
}
