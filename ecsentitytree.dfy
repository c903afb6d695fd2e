/**
 * The entity tree of `GameEngine.ECS.Entity`: the `Parent` chain of `IsDescendantOf`, `SetParent`,
 * `Remove` and its `DeepRemove`, `ClearChildren`, `GetChildren`, `Contains(Entity)`, the
 * `UpdateChildren` reconciliation and the `Update` bracket around a traversal.
 */
module EntityTree {
  import opened Outcomes
  import opened EcsNodes
  import opened EcsLinks
  import opened Sequences
  import EntityComponents

  // ---- Subtrees ----

  /** The entities `e` reaches through `Children`, itself included. */
  ghost function EntityReach(g: Graph, e: EId, erank: map<EId, nat>): set<EId>
    requires EntitiesRanked(g, erank)
    decreases RankOf(erank, e), 1, 0
  {
    {e} + EntityReachAll(g, e, g.E(e).Children, erank)
  }

  /** The entities some element of `kids` (children of `e`) reaches. */
  ghost function EntityReachAll(g: Graph, e: EId, kids: seq<EId>, erank: map<EId, nat>): set<EId>
    requires EntitiesRanked(g, erank)
    requires forall k :: k in kids ==> RankOf(erank, k) < RankOf(erank, e)
    decreases RankOf(erank, e), 0, |kids|
  {
    if |kids| == 0 then {}
    else EntityReachAll(g, e, kids[..|kids| - 1], erank) + EntityReach(g, kids[|kids| - 1], erank)
  }

  /** Everything below `e` ranks no higher than `e`. */
  lemma {:induction false} EntityReachBelow(g: Graph, e: EId, x: EId, erank: map<EId, nat>)
    requires EntitiesRanked(g, erank) && x in EntityReach(g, e, erank)
    ensures RankOf(erank, x) <= RankOf(erank, e)
    decreases RankOf(erank, e), 1, 0
  {
    if x != e {
      EntityReachAllBelow(g, e, g.E(e).Children, x, erank);
    }
  }

  lemma {:induction false} EntityReachAllBelow(g: Graph, e: EId, kids: seq<EId>, x: EId, erank: map<EId, nat>)
    requires EntitiesRanked(g, erank)
    requires forall k :: k in kids ==> RankOf(erank, k) < RankOf(erank, e)
    requires x in EntityReachAll(g, e, kids, erank)
    ensures RankOf(erank, x) < RankOf(erank, e)
    decreases RankOf(erank, e), 0, |kids|
  {
    var last := kids[|kids| - 1];
    if x in EntityReach(g, last, erank) {
      EntityReachBelow(g, last, x, erank);
    } else {
      EntityReachAllBelow(g, e, kids[..|kids| - 1], x, erank);
    }
  }

  /** A subtree is closed under `Children`. */
  lemma {:induction false} EntityReachClosed(g: Graph, e: EId, x: EId, erank: map<EId, nat>)
    requires EntitiesRanked(g, erank) && x in EntityReach(g, e, erank)
    ensures forall y :: y in g.E(x).Children ==> y in EntityReach(g, e, erank)
    decreases RankOf(erank, e), 1, 0
  {
    if x == e {
      forall y | y in g.E(e).Children
        ensures y in EntityReach(g, e, erank)
      {
        var i :| 0 <= i < |g.E(e).Children| && g.E(e).Children[i] == y;
        EntityReachAllHolds(g, e, g.E(e).Children, i, erank);
      }
    } else {
      EntityReachAllClosed(g, e, g.E(e).Children, x, erank);
    }
  }

  lemma {:induction false} EntityReachAllClosed(g: Graph, e: EId, kids: seq<EId>, x: EId, erank: map<EId, nat>)
    requires EntitiesRanked(g, erank)
    requires forall k :: k in kids ==> RankOf(erank, k) < RankOf(erank, e)
    requires x in EntityReachAll(g, e, kids, erank)
    ensures forall y :: y in g.E(x).Children ==> y in EntityReachAll(g, e, kids, erank)
    decreases RankOf(erank, e), 0, |kids|
  {
    var last := kids[|kids| - 1];
    if x in EntityReach(g, last, erank) {
      EntityReachClosed(g, last, x, erank);
    } else {
      EntityReachAllClosed(g, e, kids[..|kids| - 1], x, erank);
    }
  }

  /** A set that holds the children of its members. */
  ghost predicate DownClosed(g: Graph, s: set<EId>)
  {
    forall y, z :: y in s && z in g.E(y).Children ==> z in s
  }

  lemma EntityReachAllClosedSet(g: Graph, e: EId, kids: seq<EId>, erank: map<EId, nat>)
    requires EntitiesRanked(g, erank)
    requires forall k :: k in kids ==> RankOf(erank, k) < RankOf(erank, e)
    ensures DownClosed(g, EntityReachAll(g, e, kids, erank))
  {
    var s := EntityReachAll(g, e, kids, erank);
    forall y, z | y in s && z in g.E(y).Children
      ensures z in s
    {
      EntityReachAllClosed(g, e, kids, y, erank);
    }
  }

  /** Each listed child's subtree lies in the union. */
  lemma {:induction false} EntityReachAllHolds(g: Graph, e: EId, kids: seq<EId>, i: nat, erank: map<EId, nat>)
    requires EntitiesRanked(g, erank)
    requires forall k :: k in kids ==> RankOf(erank, k) < RankOf(erank, e)
    requires i < |kids|
    ensures EntityReach(g, kids[i], erank) <= EntityReachAll(g, e, kids, erank)
    decreases |kids|
  {
    if i < |kids| - 1 {
      EntityReachAllHolds(g, e, kids[..|kids| - 1], i, erank);
    }
  }

  /** Graphs with the same entity child lists have the same subtrees. */
  lemma {:induction false} EntityReachSameLinks(g: Graph, h: Graph, e: EId, erank: map<EId, nat>)
    requires EntitiesRanked(g, erank) && EntitiesRanked(h, erank)
    requires forall k :: g.E(k).Children == h.E(k).Children
    ensures EntityReach(g, e, erank) == EntityReach(h, e, erank)
    decreases RankOf(erank, e), 1, 0
  {
    EntityReachAllSameLinks(g, h, e, g.E(e).Children, erank);
  }

  lemma {:induction false} EntityReachAllSameLinks(g: Graph, h: Graph, e: EId, kids: seq<EId>, erank: map<EId, nat>)
    requires EntitiesRanked(g, erank) && EntitiesRanked(h, erank)
    requires forall k :: g.E(k).Children == h.E(k).Children
    requires forall k :: k in kids ==> RankOf(erank, k) < RankOf(erank, e)
    ensures EntityReachAll(g, e, kids, erank) == EntityReachAll(h, e, kids, erank)
    decreases RankOf(erank, e), 0, |kids|
  {
    if |kids| > 0 {
      EntityReachAllSameLinks(g, h, e, kids[..|kids| - 1], erank);
      EntityReachSameLinks(g, h, kids[|kids| - 1], erank);
    }
  }

  /** A graph whose entity child lists are sublists (as sets) of a ranked graph's is ranked too. */
  lemma EntitiesRankedBySubset(g: Graph, h: Graph, erank: map<EId, nat>)
    requires EntitiesRanked(g, erank)
    requires forall k, x :: x in h.E(k).Children ==> x in g.E(k).Children
    ensures EntitiesRanked(h, erank)
  {
    forall e, i | 0 <= i < |h.E(e).Children|
      ensures RankOf(erank, h.E(e).Children[i]) < RankOf(erank, e)
    {
      assert h.E(e).Children[i] in g.E(e).Children;
    }
  }

  // ---- IsDescendantOf ----

  /** Whether `target` lies on the entity `Parent` chain that starts at `from`. */
  ghost function OnEntityChain(g: Graph, from: Option<EId>, target: EId, depth: map<EId, nat>): bool
    requires EntityParentsRanked(g, depth)
    decreases (if from.Some? then RankOf(depth, from.value) + 1 else 0)
  {
    if from.None? then false
    else if from.value == target then true
    else OnEntityChain(g, g.E(from.value).Parent, target, depth)
  }

  /** The chain itself, nearest ancestor first. */
  ghost function EntityAncestors(g: Graph, from: Option<EId>, depth: map<EId, nat>): seq<EId>
    requires EntityParentsRanked(g, depth)
    decreases (if from.Some? then RankOf(depth, from.value) + 1 else 0)
  {
    if from.None? then [] else [from.value] + EntityAncestors(g, g.E(from.value).Parent, depth)
  }

  /** `IsDescendantOf` answers membership in the ancestor chain. */
  lemma {:induction false} OnEntityChainIsMembership(g: Graph, from: Option<EId>, target: EId, depth: map<EId, nat>)
    requires EntityParentsRanked(g, depth)
    ensures OnEntityChain(g, from, target, depth) <==> target in EntityAncestors(g, from, depth)
    decreases (if from.Some? then RankOf(depth, from.value) + 1 else 0)
  {
    if from.Some? {
      OnEntityChainIsMembership(g, g.E(from.value).Parent, target, depth);
    }
  }

  // ---- Remove and DeepRemove ----

  /** An entity record with its parent and child list dropped, as `DeepRemove` leaves it. */
  function Wiped(n: EntityNode): EntityNode
  {
    n.(Parent := None, Children := [])
  }

  /** A step that leaves every entity as it was or wiped, and components alone. */
  ghost predicate OnlyWipes(g: Graph, h: Graph)
  {
    g.Components == h.Components && g.Entities.Keys == h.Entities.Keys
    && forall k :: h.E(k) == g.E(k) || h.E(k) == Wiped(g.E(k))
  }

  /** `h` is `g` with exactly the entities of `s` wiped. */
  ghost predicate WipedExactly(g: Graph, h: Graph, s: set<EId>)
  {
    g.Components == h.Components && g.Entities.Keys == h.Entities.Keys
    && forall k :: h.E(k) == if k in s then Wiped(g.E(k)) else g.E(k)
  }

  lemma OnlyWipesRanked(g: Graph, h: Graph, erank: map<EId, nat>)
    requires OnlyWipes(g, h) && EntitiesRanked(g, erank)
    ensures EntitiesRanked(h, erank)
  {
    EntitiesRankedBySubset(g, h, erank);
  }

  lemma OnlyWipesTransitive(a: Graph, b: Graph, c: Graph)
    requires OnlyWipes(a, b) && OnlyWipes(b, c)
    ensures OnlyWipes(a, c)
  {
  }

  /** `e.DeepRemove()`: drops the parent of `e`, deep-removes every child, then empties the list. */
  ghost function DeepRemove(g: Graph, e: EId, erank: map<EId, nat>): (r: Graph)
    requires EntitiesRanked(g, erank)
    ensures OnlyWipes(g, r) && EntitiesRanked(r, erank)
    decreases RankOf(erank, e), 1, 0
  {
    var start := Unparent(g, e);
    EntitiesRankedBySubset(g, start, erank);
    var each := DeepRemoveAll(start, e, g.E(e).Children, erank);
    var r := each.WithE(e, each.E(e).(Children := []));
    EmptiedAfterUnparent(g, each, e);
    OnlyWipesRanked(g, r, erank);
    r
  }

  /** One more turn of the `DeepRemove` loop. */
  lemma DeepRemoveAllStep(g: Graph, e: EId, kids: seq<EId>, i: nat, erank: map<EId, nat>)
    requires EntitiesRanked(g, erank)
    requires forall k :: k in kids ==> RankOf(erank, k) < RankOf(erank, e)
    requires i < |kids|
    ensures EntitiesRanked(DeepRemoveAll(g, e, kids[..i], erank), erank)
    ensures DeepRemoveAll(g, e, kids[..i + 1], erank) == DeepRemove(DeepRemoveAll(g, e, kids[..i], erank), kids[i], erank)
  {
    assert kids[..i + 1][..i] == kids[..i];
  }

  /** Wiping below an unparented `e`, then emptying its list, only wipes. */
  lemma EmptiedAfterUnparent(g: Graph, each: Graph, e: EId)
    requires OnlyWipes(Unparent(g, e), each)
    ensures OnlyWipes(g, each.WithE(e, each.E(e).(Children := [])))
  {
    var start := Unparent(g, e);
    var r := each.WithE(e, each.E(e).(Children := []));
    forall k
      ensures r.E(k) == g.E(k) || r.E(k) == Wiped(g.E(k))
    {
      if k == e && e in g.Entities {
        assert Wiped(start.E(e)) == Wiped(g.E(e));
      }
    }
  }

  /** `e` with its parent dropped. */
  function Unparent(g: Graph, e: EId): (r: Graph)
    ensures r.Components == g.Components && r.Entities.Keys == g.Entities.Keys
    ensures forall k :: r.E(k).Children == g.E(k).Children
    ensures forall k :: k != e ==> r.E(k) == g.E(k)
    ensures r.E(e) == g.E(e).(Parent := None) || e !in g.Entities
  {
    g.WithE(e, g.E(e).(Parent := None))
  }

  /** The loop of `DeepRemove` over the first `|kids|` children of `e`. */
  ghost function DeepRemoveAll(g: Graph, e: EId, kids: seq<EId>, erank: map<EId, nat>): (r: Graph)
    requires EntitiesRanked(g, erank)
    requires forall k :: k in kids ==> RankOf(erank, k) < RankOf(erank, e)
    ensures OnlyWipes(g, r) && EntitiesRanked(r, erank)
    decreases RankOf(erank, e), 0, |kids|
  {
    if |kids| == 0 then g
    else
      var before := DeepRemoveAll(g, e, kids[..|kids| - 1], erank);
      var r := DeepRemove(before, kids[|kids| - 1], erank);
      OnlyWipesTransitive(g, before, r);
      r
  }

  /** Wiping a downward-closed set `s` changes no subtree outside it: what a node reaches afterwards,
      together with `s`, is what it reached before, together with `s`. */
  lemma {:induction false} WipedReach(g: Graph, h: Graph, s: set<EId>, x: EId, erank: map<EId, nat>)
    requires EntitiesRanked(g, erank) && EntitiesRanked(h, erank) && WipedExactly(g, h, s)
    requires DownClosed(g, s)
    ensures EntityReach(h, x, erank) + s == EntityReach(g, x, erank) + s
    decreases RankOf(erank, x), 1, 0
  {
    if x in s {
      assert h.E(x).Children == [];
      EntityReachInClosed(g, s, x, erank);
    } else {
      assert h.E(x) == g.E(x);
      WipedReachAll(g, h, s, x, g.E(x).Children, erank);
    }
  }

  lemma {:induction false} WipedReachAll(g: Graph, h: Graph, s: set<EId>, x: EId, kids: seq<EId>, erank: map<EId, nat>)
    requires EntitiesRanked(g, erank) && EntitiesRanked(h, erank) && WipedExactly(g, h, s)
    requires DownClosed(g, s)
    requires forall k :: k in kids ==> RankOf(erank, k) < RankOf(erank, x)
    ensures EntityReachAll(h, x, kids, erank) + s == EntityReachAll(g, x, kids, erank) + s
    decreases RankOf(erank, x), 0, |kids|
  {
    if |kids| > 0 {
      WipedReachAll(g, h, s, x, kids[..|kids| - 1], erank);
      WipedReach(g, h, s, kids[|kids| - 1], erank);
    }
  }

  /** The subtree of a member of a downward-closed set stays in the set. */
  lemma {:induction false} EntityReachInClosed(g: Graph, s: set<EId>, x: EId, erank: map<EId, nat>)
    requires EntitiesRanked(g, erank) && x in s
    requires DownClosed(g, s)
    ensures EntityReach(g, x, erank) <= s
    decreases RankOf(erank, x), 1, 0
  {
    EntityReachAllInClosed(g, s, x, g.E(x).Children, erank);
  }

  lemma {:induction false} EntityReachAllInClosed(g: Graph, s: set<EId>, x: EId, kids: seq<EId>, erank: map<EId, nat>)
    requires EntitiesRanked(g, erank)
    requires DownClosed(g, s)
    requires forall k :: k in kids ==> RankOf(erank, k) < RankOf(erank, x) && k in s
    ensures EntityReachAll(g, x, kids, erank) <= s
    decreases RankOf(erank, x), 0, |kids|
  {
    if |kids| > 0 {
      EntityReachAllInClosed(g, s, x, kids[..|kids| - 1], erank);
      EntityReachInClosed(g, s, kids[|kids| - 1], erank);
    }
  }

  /** `DeepRemove` wipes exactly the subtree of `e`: every entity below it, and `e` itself, loses its
      parent and its child list; nothing else changes. */
  lemma {:induction false} DeepRemoveWipesSubtree(g: Graph, e: EId, erank: map<EId, nat>)
    requires EntitiesRanked(g, erank)
    ensures WipedExactly(g, DeepRemove(g, e, erank), EntityReach(g, e, erank))
    decreases RankOf(erank, e), 1, 0
  {
    var start := Unparent(g, e);
    EntitiesRankedBySubset(g, start, erank);
    var kids := g.E(e).Children;
    DeepRemoveAllWipes(start, e, kids, erank);
    EntityReachAllSameLinks(start, g, e, kids, erank);
    if e in EntityReachAll(g, e, kids, erank) {
      EntityReachAllBelow(g, e, kids, e, erank);
    }
    RootWiped(g, e, DeepRemoveAll(start, e, kids, erank), EntityReachAll(g, e, kids, erank));
  }

  /** Emptying the root's child list after a wipe of the rest of its subtree from the unparented
      graph is one wipe of the whole subtree. */
  lemma RootWiped(g: Graph, e: EId, each: Graph, s: set<EId>)
    requires WipedExactly(Unparent(g, e), each, s) && e !in s
    ensures WipedExactly(g, each.WithE(e, each.E(e).(Children := [])), {e} + s)
  {
    var r := each.WithE(e, each.E(e).(Children := []));
    forall k
      ensures r.E(k) == (if k in {e} + s then Wiped(g.E(k)) else g.E(k))
    {
      if k != e {
        assert r.E(k) == each.E(k);
      }
    }
  }

  lemma {:induction false} DeepRemoveAllWipes(g: Graph, e: EId, kids: seq<EId>, erank: map<EId, nat>)
    requires EntitiesRanked(g, erank)
    requires forall k :: k in kids ==> RankOf(erank, k) < RankOf(erank, e)
    ensures WipedExactly(g, DeepRemoveAll(g, e, kids, erank), EntityReachAll(g, e, kids, erank))
    decreases RankOf(erank, e), 0, |kids|
  {
    if |kids| > 0 {
      var front := kids[..|kids| - 1];
      var last := kids[|kids| - 1];
      var before := DeepRemoveAll(g, e, front, erank);
      DeepRemoveAllWipes(g, e, front, erank);
      var s := EntityReachAll(g, e, front, erank);
      EntityReachAllClosedSet(g, e, front, erank);
      DeepRemoveWipesSubtree(before, last, erank);
      WipedReach(g, before, s, last, erank);
      WipedCompose(g, before, DeepRemoveAll(g, e, kids, erank), s, EntityReach(before, last, erank), EntityReach(g, last, erank));
    }
  }

  /** Two wipes in a row are one wipe of the union. */
  lemma WipedCompose(g: Graph, b: Graph, c: Graph, s: set<EId>, t: set<EId>, u: set<EId>)
    requires WipedExactly(g, b, s) && WipedExactly(b, c, t) && t + s == u + s
    ensures WipedExactly(g, c, s + u)
  {
    forall k
      ensures c.E(k) == (if k in s + u then Wiped(g.E(k)) else g.E(k))
    {
      if k in s {
        assert b.E(k) == Wiped(g.E(k)) && Wiped(b.E(k)) == b.E(k);
      } else if k in t {
        assert b.E(k) == g.E(k);
      }
    }
  }

  /** `e.Remove(deep)`. Without a parent it fails. While the parent traverses, `e` is queued in the
      parent's removals, loses its parent, and records a deep clear of its own children when it is
      itself traversing and the removal is deep. Otherwise `e` leaves the parent's child list, loses its
      parent, and is deep-removed when asked. */
  ghost function Remove(g: Graph, e: EId, deep: bool, erank: map<EId, nat>): (r: Step)
    requires EntitiesRanked(g, erank)
    ensures g.E(e).Parent.None? ==> r == Step(g, Failed)
    ensures g.E(e).Parent.Some? ==> r.Status == (if g.E(g.E(e).Parent.value).QueueRemovals then Deferred else Succeeded)
    ensures EntitiesRanked(r.After, erank)
    ensures r.After.Components == g.Components && r.After.Entities.Keys == g.Entities.Keys
    ensures e in g.Entities ==> r.After.E(e).Parent.None?
    ensures forall k :: r.After.E(k).QueueRemovals == g.E(k).QueueRemovals
  {
    var n := g.E(e);
    if n.Parent.None? then Step(g, Failed)
    else if g.E(n.Parent.value).QueueRemovals then Step(Queued(g, e, deep), Deferred)
    else
      var shallow := Unlisted(g, e);
      EntitiesRankedBySubset(g, shallow, erank);
      if !deep then Step(shallow, Succeeded)
      else
        var r := DeepRemove(shallow, e, erank);
        assert r.E(e) == shallow.E(e) || r.E(e) == Wiped(shallow.E(e));
        Step(r, Succeeded)
  }

  /** The deferred path: `e` is queued in its parent's removals and loses its parent; a deep removal of
      a traversing `e` records a deep clear of its children. Every child list stays as it was. */
  function Queued(g: Graph, e: EId, deep: bool): (r: Graph)
    requires g.E(e).Parent.Some?
    ensures r.Components == g.Components && r.Entities.Keys == g.Entities.Keys
    ensures forall k :: r.E(k).Children == g.E(k).Children
    ensures e in g.Entities ==> r.E(e).Parent.None?
    ensures forall k :: r.E(k).QueueRemovals == g.E(k).QueueRemovals
  {
    var p := g.E(e).Parent.value;
    var pn := g.E(p);
    var queued := g.WithE(p, pn.(QueuedRemovals := pn.QueuedRemovals + [e]));
    var m := queued.E(e).(Parent := None);
    queued.WithE(e, if m.QueueRemovals && deep then m.(ClearAll := true, ClearAllDeep := true) else m)
  }

  /** The immediate path: the first occurrence of `e` leaves its parent's child list, then `e` loses its
      parent. */
  function Unlisted(g: Graph, e: EId): (r: Graph)
    requires g.E(e).Parent.Some?
    ensures r.Components == g.Components && r.Entities.Keys == g.Entities.Keys
    ensures forall k, x :: x in r.E(k).Children ==> x in g.E(k).Children
    ensures e in g.Entities ==> r.E(e).Parent.None?
    ensures forall k :: r.E(k).QueueRemovals == g.E(k).QueueRemovals
  {
    var p := g.E(e).Parent.value;
    var pn := g.E(p);
    var removed := g.WithE(p, pn.(Children := RemoveFirst(pn.Children, e)));
    removed.WithE(e, removed.E(e).(Parent := None))
  }

  /** With a parent that is not traversing, `Remove` takes the first occurrence of `e` out of the
      parent's child list and leaves the queues alone; a deep removal then wipes exactly the subtree of
      `e` as the shallow removal left it. */
  lemma RemoveImmediate(g: Graph, e: EId, deep: bool, erank: map<EId, nat>)
    requires EntitiesRanked(g, erank) && e in g.Entities
    requires g.E(e).Parent.Some? && g.E(e).Parent.value != e && !g.E(g.E(e).Parent.value).QueueRemovals
    ensures var r := Remove(g, e, deep, erank); var p := g.E(e).Parent.value; var shallow := Unlisted(g, e);
      shallow.E(p) == g.E(p).(Children := RemoveFirst(g.E(p).Children, e))
      && shallow.E(e) == g.E(e).(Parent := None)
      && (forall k :: k != e && k != p ==> shallow.E(k) == g.E(k))
      && (!deep ==> r.After == shallow)
      && (deep ==> EntitiesRanked(shallow, erank) && WipedExactly(shallow, r.After, EntityReach(shallow, e, erank)))
  {
    EntitiesRankedBySubset(g, Unlisted(g, e), erank);
    if deep {
      DeepRemoveWipesSubtree(Unlisted(g, e), e, erank);
    }
  }

  /** With a traversing parent, `Remove` leaves every child list as it was and queues `e`. */
  lemma RemoveDeferred(g: Graph, e: EId, deep: bool, erank: map<EId, nat>)
    requires EntitiesRanked(g, erank) && e in g.Entities
    requires g.E(e).Parent.Some? && g.E(e).Parent.value != e && g.E(g.E(e).Parent.value).QueueRemovals
    ensures var r := Remove(g, e, deep, erank); var p := g.E(e).Parent.value; var n := g.E(e);
      r.After.E(p) == g.E(p).(QueuedRemovals := g.E(p).QueuedRemovals + [e])
      && r.After.E(e) == n.(Parent := None, ClearAll := n.ClearAll || (n.QueueRemovals && deep),
                             ClearAllDeep := n.ClearAllDeep || (n.QueueRemovals && deep))
      && forall k :: k != e && k != p ==> r.After.E(k) == g.E(k)
  {
  }

  // ---- SetParent ----

  /** The two statuses `SetParent` returns, for the old and the new parent, and the graph after. */
  datatype Reparent = Reparent(After: Graph, OldParent: ChildUpdateStatus, NewParent: ChildUpdateStatus)

  /** `e.SetParent(p)`. `None` is a plain `Remove`. A new parent that has `e` on its ancestor chain is
      refused with no change (the chain starts at the parent's parent, so `p == e` is let through).
      Otherwise `e` leaves its old parent, takes `p` as parent, and joins its child list, or is queued
      while `p` traverses. */
  ghost function SetParent(g: Graph, e: EId, parent: Option<EId>, erank: map<EId, nat>, depth: map<EId, nat>): (r: Reparent)
    requires EntitiesRanked(g, erank) && EntityParentsRanked(g, depth)
    ensures parent.None? ==> r.NewParent == Succeeded && r.OldParent == Remove(g, e, false, erank).Status
    ensures parent.Some? && OnEntityChain(g, g.E(parent.value).Parent, e, depth) ==> r == Reparent(g, Failed, Failed)
    ensures r.After.Components == g.Components && r.After.Entities.Keys == g.Entities.Keys
    ensures parent.Some? && !OnEntityChain(g, g.E(parent.value).Parent, e, depth) ==>
      r.OldParent == (if g.E(e).Parent.Some? then Remove(g, e, false, erank).Status else Succeeded)
      && r.NewParent == (if g.E(parent.value).QueueRemovals then Deferred else Succeeded)
      && (e in g.Entities ==> r.After.E(e).Parent == parent)
  {
    if parent.None? then
      var removed := Remove(g, e, false, erank);
      Reparent(removed.After, removed.Status, Succeeded)
    else
      var p := parent.value;
      if OnEntityChain(g, g.E(p).Parent, e, depth) then Reparent(g, Failed, Failed)
      else
        var removed := if g.E(e).Parent.Some? then Remove(g, e, false, erank) else Step(g, Succeeded);
        var h := removed.After;
        Reparent(Joined(h, e, p), removed.Status, if h.E(p).QueueRemovals then Deferred else Succeeded)
  }

  /** The second half of `SetParent`: `e` takes `p` as parent and joins its child list, or its queued
      adds while `p` traverses. */
  function Joined(h: Graph, e: EId, p: EId): (r: Graph)
    ensures r.Components == h.Components && r.Entities.Keys == h.Entities.Keys
    ensures e in h.Entities ==> r.E(e).Parent == Some(p)
    ensures forall k :: k != e && k != p ==> r.E(k) == h.E(k)
    ensures p in h.Entities && p != e ==>
      r.E(p) == if h.E(p).QueueRemovals then h.E(p).(QueuedAdds := h.E(p).QueuedAdds + [e])
                else h.E(p).(Children := h.E(p).Children + [e])
  {
    var linked := h.WithE(e, h.E(e).(Parent := Some(p)));
    var pn := linked.E(p);
    if pn.QueueRemovals then linked.WithE(p, pn.(QueuedAdds := pn.QueuedAdds + [e]))
    else linked.WithE(p, pn.(Children := pn.Children + [e]))
  }

  /** A fresh parent that is not traversing lists `e` last among its children. */
  lemma SetParentAppends(g: Graph, e: EId, p: EId, erank: map<EId, nat>, depth: map<EId, nat>)
    requires EntitiesRanked(g, erank) && EntityParentsRanked(g, depth)
    requires e in g.Entities && p in g.Entities && p != e && g.E(e).Parent.None?
    requires !OnEntityChain(g, g.E(p).Parent, e, depth) && !g.E(p).QueueRemovals
    ensures var r := SetParent(g, e, Some(p), erank, depth);
      r.After.E(p).Children == g.E(p).Children + [e]
      && r.After.E(e).Parent == Some(p)
      && forall k :: k != e && k != p ==> r.After.E(k) == g.E(k)
  {
  }

  /** Making an entity its own parent is not refused: it ends up in its own child list, after which no
      ranking orders the tree and the recursive walks over it would not terminate. */
  lemma SelfParentBreaksEveryRanking(g: Graph, e: EId, erank: map<EId, nat>, depth: map<EId, nat>, later: map<EId, nat>)
    requires EntitiesRanked(g, erank) && EntityParentsRanked(g, depth)
    requires e in g.Entities && g.E(e).Parent.None? && !g.E(e).QueueRemovals
    ensures SetParent(g, e, Some(e), erank, depth).NewParent == Succeeded
    ensures e in SetParent(g, e, Some(e), erank, depth).After.E(e).Children
    ensures !EntitiesRanked(SetParent(g, e, Some(e), erank, depth).After, later)
  {
    assert !OnEntityChain(g, g.E(e).Parent, e, depth);
    var r := SetParent(g, e, Some(e), erank, depth).After;
    var kids := r.E(e).Children;
    assert kids[|kids| - 1] == e;
  }

  // ---- ClearChildren ----

  /** A step that only clears entity links: parents kept or nulled, child lists kept or emptied, and a
      traversing entity's child list left alone; components untouched. */
  ghost predicate EntityOnlyClears(g: Graph, h: Graph)
  {
    g.Components == h.Components && g.Entities.Keys == h.Entities.Keys
    && forall k :: (h.E(k).Parent == g.E(k).Parent || h.E(k).Parent.None?)
                   && (h.E(k).Children == g.E(k).Children || h.E(k).Children == [])
                   && h.E(k).QueueRemovals == g.E(k).QueueRemovals
                   && (g.E(k).QueueRemovals ==> h.E(k).Children == g.E(k).Children)
  }

  lemma EntityOnlyClearsTransitive(a: Graph, b: Graph, c: Graph)
    requires EntityOnlyClears(a, b) && EntityOnlyClears(b, c)
    ensures EntityOnlyClears(a, c)
  {
  }

  lemma EntityOnlyClearsRanked(g: Graph, h: Graph, erank: map<EId, nat>)
    requires EntityOnlyClears(g, h) && EntitiesRanked(g, erank)
    ensures EntitiesRanked(h, erank)
  {
    EntitiesRankedBySubset(g, h, erank);
  }

  /** `e.ClearChildren(deep)`: while traversing only the `ClearAll` flags are set; otherwise each child
      loses its parent and, when deep, clears its own children, and the list empties. */
  ghost function ClearChildren(g: Graph, e: EId, deep: bool, erank: map<EId, nat>): (r: Step)
    requires EntitiesRanked(g, erank)
    ensures r.Status == (if g.E(e).QueueRemovals then Deferred else Succeeded)
    ensures EntityOnlyClears(g, r.After) && EntitiesRanked(r.After, erank)
    ensures g.E(e).QueueRemovals ==>
      r.After == g.WithE(e, g.E(e).(ClearAll := true, ClearAllDeep := g.E(e).ClearAllDeep || deep))
    ensures !g.E(e).QueueRemovals && e in g.Entities ==>
      r.After.E(e).Children == []
      && forall k :: k in g.E(e).Children && k in g.Entities ==> r.After.E(k).Parent.None?
    decreases RankOf(erank, e), 1, 0
  {
    var n := g.E(e);
    if n.QueueRemovals then
      Step(g.WithE(e, n.(ClearAll := true, ClearAllDeep := n.ClearAllDeep || deep)), Deferred)
    else
      var each := ClearEach(g, e, n.Children, deep, erank);
      var r := each.WithE(e, each.E(e).(Children := []));
      EntityOnlyClearsTransitive(g, each, r);
      EntityOnlyClearsRanked(g, r, erank);
      Step(r, Succeeded)
  }

  /** The loop of `ClearChildren` over the first `|kids|` children of `e`. */
  ghost function ClearEach(g: Graph, e: EId, kids: seq<EId>, deep: bool, erank: map<EId, nat>): (r: Graph)
    requires EntitiesRanked(g, erank)
    requires forall k :: k in kids ==> RankOf(erank, k) < RankOf(erank, e)
    ensures EntityOnlyClears(g, r) && EntitiesRanked(r, erank)
    ensures forall k :: k in kids && k in g.Entities ==> r.E(k).Parent.None?
    decreases RankOf(erank, e), 0, |kids|
  {
    if |kids| == 0 then g
    else
      var before := ClearEach(g, e, kids[..|kids| - 1], deep, erank);
      var r := ClearOne(before, kids[|kids| - 1], deep, erank);
      EntityOnlyClearsTransitive(g, before, r);
      r
  }

  /** One more turn of the `ClearChildren` loop. */
  lemma ClearEachStep(g: Graph, e: EId, kids: seq<EId>, i: nat, deep: bool, erank: map<EId, nat>)
    requires EntitiesRanked(g, erank)
    requires forall k :: k in kids ==> RankOf(erank, k) < RankOf(erank, e)
    requires i < |kids|
    ensures EntitiesRanked(ClearEach(g, e, kids[..i], deep, erank), erank)
    ensures ClearEach(g, e, kids[..i + 1], deep, erank) == ClearOne(ClearEach(g, e, kids[..i], deep, erank), kids[i], deep, erank)
  {
    assert kids[..i + 1][..i] == kids[..i];
  }

  /** One turn: `child` loses its parent, then clears its own children when deep. */
  ghost function ClearOne(g: Graph, child: EId, deep: bool, erank: map<EId, nat>): (r: Graph)
    requires EntitiesRanked(g, erank)
    ensures EntityOnlyClears(g, r) && EntitiesRanked(r, erank)
    ensures child in g.Entities ==> r.E(child).Parent.None?
    ensures forall k :: r.E(k).Parent.Some? ==> r.E(k).Parent == g.E(k).Parent
    decreases RankOf(erank, child), 2, 0
  {
    var unlinked := g.WithE(child, g.E(child).(Parent := None));
    EntityOnlyClearsRanked(g, unlinked, erank);
    var r := if deep then ClearChildren(unlinked, child, deep, erank).After else unlinked;
    EntityOnlyClearsTransitive(g, unlinked, r);
    r
  }

  // ---- GetChildren, Contains(Entity) ----

  /** Whether `k` still names `e` as its parent. */
  function ChildOf(g: Graph, e: EId): EId -> bool
  {
    (k: EId) => g.E(k).Parent == Some(e)
  }

  /** `GetChildren()`: a copy of the list; while traversing, only the children whose parent is still
      `e`, in order (the same list when none has left). */
  function ChildrenView(g: Graph, e: EId): (r: seq<EId>)
    ensures !g.E(e).QueueRemovals ==> r == g.E(e).Children
    ensures g.E(e).QueueRemovals ==> r == Filter(g.E(e).Children, ChildOf(g, e))
    ensures forall x :: x in r <==> x in g.E(e).Children && (g.E(e).QueueRemovals ==> g.E(x).Parent == Some(e))
  {
    var keep := ChildOf(g, e);
    FilterMembersAll(g.E(e).Children, keep);
    if !g.E(e).QueueRemovals then g.E(e).Children
    else if Rejected(g.E(e).Children, keep) == 0 then
      FilterNoneRejected(g.E(e).Children, keep);
      g.E(e).Children
    else Filter(g.E(e).Children, keep)
  }

  /** `Contains(entity)`: whether `target` is one of the viewed children or contained by one of them. */
  ghost function ContainsEntity(g: Graph, e: EId, target: EId, erank: map<EId, nat>): bool
    requires EntitiesRanked(g, erank)
    decreases RankOf(erank, e), 1
  {
    var view := ChildrenView(g, e);
    ContainsAnyEntity(g, e, view, target, erank)
  }

  ghost function ContainsAnyEntity(g: Graph, e: EId, kids: seq<EId>, target: EId, erank: map<EId, nat>): bool
    requires EntitiesRanked(g, erank)
    requires forall k :: k in kids ==> RankOf(erank, k) < RankOf(erank, e)
    decreases RankOf(erank, e), 0, |kids|
  {
    if |kids| == 0 then false
    else kids[0] == target || ContainsEntity(g, kids[0], target, erank) || ContainsAnyEntity(g, e, kids[1..], target, erank)
  }

  /** Outside any traversal, `Contains(entity)` holds exactly when `target` lies strictly below `e`. */
  lemma {:induction false} ContainsEntityIsReach(g: Graph, e: EId, target: EId, erank: map<EId, nat>)
    requires EntitiesRanked(g, erank)
    requires forall k :: !g.E(k).QueueRemovals
    ensures ContainsEntity(g, e, target, erank) <==> target in EntityReachAll(g, e, g.E(e).Children, erank)
    decreases RankOf(erank, e), 1
  {
    ContainsAnyEntityIsReach(g, e, g.E(e).Children, target, erank);
  }

  lemma {:induction false} ContainsAnyEntityIsReach(g: Graph, e: EId, kids: seq<EId>, target: EId, erank: map<EId, nat>)
    requires EntitiesRanked(g, erank)
    requires forall k :: !g.E(k).QueueRemovals
    requires forall k :: k in kids ==> RankOf(erank, k) < RankOf(erank, e)
    ensures ContainsAnyEntity(g, e, kids, target, erank) <==> target in EntityReachAll(g, e, kids, erank)
    decreases RankOf(erank, e), 0, |kids|
  {
    if |kids| > 0 {
      ContainsEntityIsReach(g, kids[0], target, erank);
      ContainsAnyEntityIsReach(g, e, kids[1..], target, erank);
      EntityReachAllSplit(g, e, kids, erank);
    }
  }

  /** The union over a list is the first child's subtree together with the union over the rest. */
  lemma {:induction false} EntityReachAllSplit(g: Graph, e: EId, kids: seq<EId>, erank: map<EId, nat>)
    requires EntitiesRanked(g, erank)
    requires forall k :: k in kids ==> RankOf(erank, k) < RankOf(erank, e)
    requires |kids| > 0
    ensures EntityReachAll(g, e, kids, erank) == EntityReach(g, kids[0], erank) + EntityReachAll(g, e, kids[1..], erank)
    decreases |kids|
  {
    if |kids| > 1 {
      EntityReachAllSplit(g, e, kids[..|kids| - 1], erank);
      assert kids[..|kids| - 1][1..] == kids[1..][..|kids[1..]| - 1];
    } else {
      assert kids[..0] == [] && kids[1..] == [];
    }
  }

  // ---- UpdateChildren and the Update bracket ----

  /** The removal loop of `UpdateChildren` as written: for each queued entity no longer parented by
      `e`, the first occurrence of `e` itself (not the queued child) is removed. */
  function RemovalsAsWritten(kids: seq<EId>, queue: seq<EId>, e: EId, stays: EId -> bool): (r: seq<EId>)
    ensures forall x :: x in r ==> x in kids
    ensures e !in kids ==> r == kids
  {
    if |queue| == 0 then kids
    else
      var before := RemovalsAsWritten(kids, queue[..|queue| - 1], e, stays);
      if !stays(queue[|queue| - 1]) then RemoveFirst(before, e) else before
  }

  /** The add loop as written: for each queued entity parented by `e` and not yet listed, `e` itself is
      appended. */
  function AddsAsWritten(kids: seq<EId>, queue: seq<EId>, e: EId, stays: EId -> bool): (r: seq<EId>)
    ensures |kids| <= |r| && r[..|kids|] == kids
    ensures forall i :: |kids| <= i < |r| ==> r[i] == e
  {
    if |queue| == 0 then kids
    else
      var before := AddsAsWritten(kids, queue[..|queue| - 1], e, stays);
      var k := queue[|queue| - 1];
      if stays(k) && k !in before then
        assert (before + [e])[..|kids|] == before[..|kids|];
        before + [e]
      else before
  }

  /** One more turn of the removal loop as written. */
  lemma RemovalsAsWrittenStep(kids: seq<EId>, queue: seq<EId>, i: nat, e: EId, stays: EId -> bool)
    requires i < |queue|
    ensures RemovalsAsWritten(kids, queue[..i + 1], e, stays)
            == var before := RemovalsAsWritten(kids, queue[..i], e, stays);
               if stays(queue[i]) then before else RemoveFirst(before, e)
  {
    assert queue[..i + 1][..i] == queue[..i];
  }

  /** One more turn of the add loop as written. */
  lemma AddsAsWrittenStep(kids: seq<EId>, queue: seq<EId>, i: nat, e: EId, stays: EId -> bool)
    requires i < |queue|
    ensures AddsAsWritten(kids, queue[..i + 1], e, stays)
            == var before := AddsAsWritten(kids, queue[..i], e, stays);
               if stays(queue[i]) && queue[i] !in before then before + [e] else before
  {
    assert queue[..i + 1][..i] == queue[..i];
  }

  /** `UpdateChildren()`: a recorded clear runs as `ClearChildren` and discards both queues; otherwise
      both reconciliation loops run as written, and the queues and flags reset. */
  ghost function UpdateChildren(g: Graph, e: EId, erank: map<EId, nat>): (r: Graph)
    requires EntitiesRanked(g, erank)
    ensures r.Components == g.Components && r.Entities.Keys == g.Entities.Keys
    ensures e in g.Entities ==>
      var n := r.E(e);
      !n.ClearAll && !n.ClearAllDeep && n.QueuedRemovals == [] && n.QueuedAdds == []
    ensures !g.E(e).ClearAll ==>
      (forall k :: k != e ==> r.E(k) == g.E(k))
      && (e in g.Entities ==> r.E(e).Children == ReconciledAsWritten(g, e))
  {
    var n := g.E(e);
    if n.ClearAll then
      var cleared := ClearChildren(g, e, n.ClearAllDeep, erank).After;
      var m := cleared.E(e);
      cleared.WithE(e, m.(ClearAll := false, ClearAllDeep := false, QueuedRemovals := [], QueuedAdds := []))
    else
      g.WithE(e, n.(ClearAllDeep := false, Children := ReconciledAsWritten(g, e), QueuedRemovals := [], QueuedAdds := []))
  }

  /** Both loops of `UpdateChildren` as written. */
  function ReconciledAsWritten(g: Graph, e: EId): seq<EId>
  {
    var n := g.E(e);
    AddsAsWritten(RemovalsAsWritten(n.Children, n.QueuedRemovals, e, ChildOf(g, e)), n.QueuedAdds, e, ChildOf(g, e))
  }

  /** A child queued while `e` traversed and still parented by `e` is never listed by the
      reconciliation: `e` is appended in its place. */
  lemma DeferredChildIsLost(g: Graph, e: EId, child: EId)
    requires child in g.E(e).QueuedAdds && child != e && child !in g.E(e).Children
    requires g.E(e).QueuedRemovals == [] && g.E(child).Parent == Some(e)
    ensures child !in ReconciledAsWritten(g, e)
    ensures e in ReconciledAsWritten(g, e)
  {
    var n := g.E(e);
    var r := ReconciledAsWritten(g, e);
    assert RemovalsAsWritten(n.Children, n.QueuedRemovals, e, ChildOf(g, e)) == n.Children;
    AddsAsWrittenAddsSelf(n.Children, n.QueuedAdds, e, ChildOf(g, e), child);
  }

  lemma {:induction false} AddsAsWrittenAddsSelf(kids: seq<EId>, queue: seq<EId>, e: EId, stays: EId -> bool, child: EId)
    requires child in queue && stays(child) && child != e && child !in kids
    ensures var r := AddsAsWritten(kids, queue, e, stays); child !in r && e in r
  {
    var r := AddsAsWritten(kids, queue, e, stays);
    assert forall i | 0 <= i < |kids| :: r[i] == r[..|kids|][i];
    var before := AddsAsWritten(kids, queue[..|queue| - 1], e, stays);
    if queue[|queue| - 1] == child {
      assert forall i | 0 <= i < |kids| :: before[i] == before[..|kids|][i];
      assert r == before + [e];
    } else {
      AddsAsWrittenAddsSelf(kids, queue[..|queue| - 1], e, stays, child);
      assert e in before;
      assert before == r[..|before|] by {
        AddsAsWrittenExtends(kids, queue[..|queue| - 1], queue[|queue| - 1], e, stays);
      }
    }
  }

  /** One more queued entity only ever extends the result. */
  lemma AddsAsWrittenExtends(kids: seq<EId>, front: seq<EId>, k: EId, e: EId, stays: EId -> bool)
    ensures var before := AddsAsWritten(kids, front, e, stays);
      var r := AddsAsWritten(kids, front + [k], e, stays);
      |before| <= |r| && r[..|before|] == before
  {
    assert (front + [k])[..|front|] == front;
  }

  /** The start of `Update`: the entity is marked as traversing. */
  function UpdateBegin(g: Graph, e: EId): (r: Graph)
    ensures r.Components == g.Components && r.Entities.Keys == g.Entities.Keys
    ensures e in g.Entities ==> r.E(e) == g.E(e).(QueueRemovals := true)
    ensures forall k :: k != e ==> r.E(k) == g.E(k)
  {
    g.WithE(e, g.E(e).(QueueRemovals := true))
  }

  /** The end of `Update`: the traversal mark is dropped, then the children and the components are
      reconciled, in that order. */
  ghost function UpdateEnd(g: Graph, e: EId, rank: map<CId, nat>, erank: map<EId, nat>): (r: Graph)
    requires ComponentsRanked(g, rank) && EntitiesRanked(g, erank)
    ensures r.Components.Keys == g.Components.Keys && r.Entities.Keys == g.Entities.Keys
    ensures e in g.Entities ==>
      var n := r.E(e);
      !n.QueueRemovals && !n.ClearAll && !n.ClearAllDeep && n.QueuedRemovals == [] && n.QueuedAdds == []
      && !n.ClearAllComponents && !n.ClearAllComponentsDeep && n.QueuedComponentRemovals == [] && n.QueuedComponentAdds == []
  {
    var idle := Idle(g, e);
    RankedAfterEntityWrite(g, e, g.E(e).(QueueRemovals := false), rank);
    EntitiesRankedBySubset(g, idle, erank);
    var children := UpdateChildren(idle, e, erank);
    UpdateChildrenKeepsComponents(idle, e, rank, erank);
    EntityComponents.UpdateComponents(children, e, rank)
  }

  /** The traversal mark dropped. */
  function Idle(g: Graph, e: EId): (r: Graph)
    ensures r.Components == g.Components && r.Entities.Keys == g.Entities.Keys
    ensures forall k, x :: x in r.E(k).Children ==> x in g.E(k).Children
    ensures !r.E(e).QueueRemovals
  {
    g.WithE(e, g.E(e).(QueueRemovals := false))
  }

  /** Reconciling children keeps an idle entity idle and the component order as it was. */
  lemma UpdateChildrenKeepsComponents(g: Graph, e: EId, rank: map<CId, nat>, erank: map<EId, nat>)
    requires EntitiesRanked(g, erank) && ComponentsRanked(g, rank) && !g.E(e).QueueRemovals
    ensures var r := UpdateChildren(g, e, erank); !r.E(e).QueueRemovals && ComponentsRanked(r, rank)
  {
    var r := UpdateChildren(g, e, erank);
    assert forall c :: r.C(c) == g.C(c);
  }

  /** `TryGetEntity(id)`: the live entity with that handle, if any. */
  function TryGetEntity(g: Graph, id: EId): (r: Option<EntityNode>)
    ensures r.Some? <==> id in g.Entities
    ensures r.Some? ==> r.value == g.Entities[id]
  {
    if id in g.Entities then Some(g.Entities[id]) else None
  }
}
