/**
 * The members of the legacy `GameEngine.Component` as methods on a `LegacyWorld`: the receiver is
 * the handle `c` (or `node`). Each method is proved to compute the function of `LegacyLinks` that
 * describes it. The ghost `rank` witnesses that the child lists the method walks are well founded.
 */
module LegacyComponentMethods {
  import opened Outcomes
  import opened Sequences
  import opened LegacyNodes
  import opened LegacyLinks

  /** `c.AttachToInternal(e)`. */
  method AttachToInternal(w: LegacyWorld, c: LCId, e: Option<LEId>, ghost rank: map<LCId, nat>)
    requires Ranked(w.State(), rank)
    modifies w
    ensures w.State() == Attach(old(w.State()), c, e, rank)
    decreases RankOf(rank, c), 1
  {
    ghost var g := w.State();
    var node := w.C(c);
    w.SetComponent(c, node.(ParentObject := e));
    ghost var owned := w.State();
    OwnersOnlyRanked(g, owned, rank);
    var kids := node.Children;
    assert forall k :: k in kids ==> RankOf(rank, k) < RankOf(rank, c);
    for i := 0 to |kids|
      invariant w.State() == AttachAll(owned, c, kids[..i], e, rank)
    {
      AttachAllStep(owned, c, kids, i, e, rank);
      AttachToInternal(w, kids[i], e, rank);
    }
    assert kids[..|kids|] == kids;
  }

  /** `c.DetatchInternal()`. */
  method DetatchInternal(w: LegacyWorld, c: LCId, ghost rank: map<LCId, nat>)
    requires Ranked(w.State(), rank)
    modifies w
    ensures w.State() == Detach(old(w.State()), c, rank)
    decreases RankOf(rank, c)
  {
    ghost var g := w.State();
    var node := w.C(c);
    if node.ParentObject.None? {
      return;
    }
    w.SetComponent(c, node.(ParentObject := None));
    ghost var cleared := w.State();
    OwnersOnlyRanked(g, cleared, rank);
    var kids := node.Children;
    assert forall k :: k in kids ==> RankOf(rank, k) < RankOf(rank, c);
    for i := 0 to |kids|
      invariant w.State() == DetachAll(cleared, c, kids[..i], rank)
    {
      DetachAllStep(cleared, c, kids, i, rank);
      DetatchInternal(w, kids[i], rank);
    }
    assert kids[..|kids|] == kids;
  }

  /** `node.AddComponent(comp)`. */
  method AddComponent(w: LegacyWorld, node: LCId, comp: LCId, ghost rank: map<LCId, nat>)
    requires Ranked(w.State(), rank)
    modifies w
    ensures w.State() == LegacyLinks.AddComponent(old(w.State()), node, comp, rank)
  {
    ghost var g := w.State();
    w.SetComponent(comp, w.C(comp).(Parent := Some(node)));
    SameChildrenRanked(g, w.State(), rank);
    var owner := w.C(node).ParentObject;
    AttachToInternal(w, comp, owner, rank);
    w.SetComponent(comp, w.C(comp).(ParentObject := owner));
    var m := w.C(node);
    w.SetComponent(node, m.(Children := m.Children + [comp]));
  }

  /** `node.RemoveComponent(comp)`. */
  method RemoveComponent(w: LegacyWorld, node: LCId, comp: LCId)
    modifies w
    ensures w.State() == LegacyLinks.RemoveComponent(old(w.State()), node, comp)
  {
    if w.C(comp).Parent != Some(node) {
      return;
    }
    var m := w.C(node);
    w.SetComponent(node, m.(Children := RemoveFirst(m.Children, comp)));
    w.SetComponent(comp, w.C(comp).(Parent := None, ParentObject := None));
  }

  /** `c.ClearChildren(deep)`. */
  method ClearChildren(w: LegacyWorld, c: LCId, deep: bool, ghost rank: map<LCId, nat>)
    requires Ranked(w.State(), rank)
    modifies w
    ensures w.State() == LegacyLinks.ClearChildren(old(w.State()), c, deep, rank)
    decreases RankOf(rank, c), 1
  {
    ghost var g := w.State();
    var kids := w.C(c).Children;
    assert forall k :: k in kids ==> RankOf(rank, k) < RankOf(rank, c);
    for i := 0 to |kids|
      invariant w.State() == ClearEach(g, c, kids[..i], deep, rank)
    {
      ClearEachStep(g, c, kids, i, deep, rank);
      ClearOne(w, kids[i], deep, rank);
    }
    assert kids[..|kids|] == kids;
    w.SetComponent(c, w.C(c).(Children := []));
  }

  /** One turn of the `ClearChildren` loop. */
  method ClearOne(w: LegacyWorld, child: LCId, deep: bool, ghost rank: map<LCId, nat>)
    requires Ranked(w.State(), rank)
    modifies w
    ensures w.State() == LegacyLinks.ClearOne(old(w.State()), child, deep, rank)
    decreases RankOf(rank, child), 2
  {
    ghost var g := w.State();
    w.SetComponent(child, w.C(child).(Parent := None, ParentObject := None));
    OnlyClearsRanked(g, w.State(), rank);
    if deep {
      ClearChildren(w, child, deep, rank);
    }
  }
}
