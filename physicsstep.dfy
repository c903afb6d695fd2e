/**
 * One call of `PhysicsScene.Update(delta)` as functions on the scene graph: the clamped delta, the
 * pass over the registered movement controllers, and the pass over the unordered pairs of
 * registered colliders with the static/dynamic weights. The square root the resolver uses is a
 * parameter.
 */
module PhysicsStep {
  import opened Outcomes
  import opened FloatUtils
  import opened Vectors
  import opened EcsNodes
  import opened Kinds
  import Resolver

  /** The largest step the scene integrates at once. */
  const MaxDelta: real := 1.0 / 30.0

  /** `MathF.Min(delta, 1.0f / 30)`. */
  function ClampDelta(delta: real): (r: real)
    ensures r <= MaxDelta && r <= delta
    ensures delta <= MaxDelta ==> r == delta
    ensures delta >= MaxDelta ==> r == MaxDelta
  {
    Min(delta, MaxDelta)
  }

  // ---- What a step may change ----

  /** `h` differs from `g` at most in the matrices and stale flags of transforms: no link, no other
      kind and no controller count changes. */
  ghost predicate OnlyMoves(g: Graph, h: Graph)
  {
    g.Entities == h.Entities && g.Components.Keys == h.Components.Keys
    && forall k :: h.C(k) == g.C(k)
         || (g.C(k).Kind.Transform? && h.C(k).Kind.Transform?
             && h.C(k).Kind.MovementControllers == g.C(k).Kind.MovementControllers
             && h.C(k) == g.C(k).(Kind := h.C(k).Kind))
  }

  lemma OnlyMovesTransitive(a: Graph, b: Graph, c: Graph)
    requires OnlyMoves(a, b) && OnlyMoves(b, c)
    ensures OnlyMoves(a, c)
  {
    forall k
      ensures c.C(k) == a.C(k)
              || (a.C(k).Kind.Transform? && c.C(k).Kind.Transform?
                  && c.C(k).Kind.MovementControllers == a.C(k).Kind.MovementControllers
                  && c.C(k) == a.C(k).(Kind := c.C(k).Kind))
    {
      if b.C(k) != a.C(k) && c.C(k) != b.C(k) {
        assert c.C(k) == b.C(k).(Kind := c.C(k).Kind);
      }
    }
  }

  /** Moving a transform only moves. */
  lemma ShiftedOnlyMoves(g: Graph, c: CId, offset: Vector2)
    ensures OnlyMoves(g, Shifted(g, c, offset))
  {
  }

  /** Nothing a step may change is read by the pair filter: owners, transforms, collider data and
      the static flag stay as they were. */
  lemma OnlyMovesKeeps(g: Graph, h: Graph, c: CId)
    requires OnlyMoves(g, h)
    ensures OwnerTransformOf(h, c) == OwnerTransformOf(g, c)
    ensures h.C(c).Kind.Collider? == g.C(c).Kind.Collider?
    ensures g.C(c).Kind.Collider? ==> h.C(c).Kind == g.C(c).Kind
    ensures OwnerTransformOf(g, c).Some? ==>
      IsStatic(h.C(OwnerTransformOf(g, c).value).Kind) == IsStatic(g.C(OwnerTransformOf(g, c).value).Kind)
  {
    assert h.C(c).ParentObject == g.C(c).ParentObject;
    var t := g.OwnerTransform(c);
    if t.Some? {
      assert h.C(t.value).Kind.Transform? == g.C(t.value).Kind.Transform?;
    }
  }

  /** Every listed component is a `Collider`, as the scene's `List<Collider>` guarantees. */
  ghost predicate AllColliders(g: Graph, cs: seq<CId>)
  {
    forall i :: 0 <= i < |cs| ==> g.C(cs[i]).Kind.Collider?
  }

  lemma AllCollidersKept(g: Graph, h: Graph, cs: seq<CId>)
    requires OnlyMoves(g, h) && AllColliders(g, cs)
    ensures AllColliders(h, cs)
  {
    forall i | 0 <= i < |cs|
      ensures h.C(cs[i]).Kind.Collider?
    {
      OnlyMovesKeeps(g, h, cs[i]);
    }
  }

  // ---- The controller pass ----

  /** The controller loop: `UpdatePhysics(delta)` on each registered controller, in list order. */
  function Integrate(g: Graph, controllers: seq<CId>, delta: real): Graph
    decreases |controllers|
  {
    if |controllers| == 0 then g
    else UpdatePhysics(Integrate(g, controllers[..|controllers| - 1], delta), controllers[|controllers| - 1], delta)
  }

  /** One more turn of the controller loop. */
  lemma IntegrateStep(g: Graph, controllers: seq<CId>, i: nat, delta: real)
    requires i < |controllers|
    ensures Integrate(g, controllers[..i + 1], delta) == UpdatePhysics(Integrate(g, controllers[..i], delta), controllers[i], delta)
  {
    assert controllers[..i + 1][..i] == controllers[..i];
  }

  /** The controller pass only moves transforms. */
  lemma {:induction false} IntegrateOnlyMoves(g: Graph, controllers: seq<CId>, delta: real)
    ensures OnlyMoves(g, Integrate(g, controllers, delta))
    decreases |controllers|
  {
    if |controllers| > 0 {
      var front := controllers[..|controllers| - 1];
      var before := Integrate(g, front, delta);
      IntegrateOnlyMoves(g, front, delta);
      var c := controllers[|controllers| - 1];
      if before.C(c).Kind.Physics? {
        ShiftedOnlyMoves(before, c, Mul(delta, before.C(c).Kind.Velocity));
      }
      OnlyMovesTransitive(g, before, Integrate(g, controllers, delta));
    }
  }

  /** Only `PhysicsController`s move anything: a pass over default movement controllers (or any
      other kind) leaves the scene as it was. */
  lemma {:induction false} IntegrateWithoutPhysics(g: Graph, controllers: seq<CId>, delta: real)
    requires forall i :: 0 <= i < |controllers| ==> !g.C(controllers[i]).Kind.Physics?
    ensures Integrate(g, controllers, delta) == g
    decreases |controllers|
  {
    if |controllers| > 0 {
      var front := controllers[..|controllers| - 1];
      assert forall i :: 0 <= i < |front| ==> front[i] == controllers[i];
      IntegrateWithoutPhysics(g, front, delta);
    }
  }

  // ---- The pair pass ----

  /** The pairs of list positions the two index loops visit from row `i`, column `j` on: the rest of
      row `i`, then every later row `i'` from column `i' + 1`. */
  function PairsFrom(n: nat, i: nat, j: nat): (r: seq<(nat, nat)>)
    requires i < j
    ensures forall p :: p in r ==> i <= p.0 && p.0 < p.1 && p.1 < n
    decreases n - i, n - j
  {
    if i >= n then []
    else if j >= n then PairsFrom(n, i + 1, i + 2)
    else [(i, j)] + PairsFrom(n, i, j + 1)
  }

  /** Every pair the loops visit over a list of `n` colliders. */
  function AllPairs(n: nat): seq<(nat, nat)>
  {
    PairsFrom(n, 0, 1)
  }

  /** The loops visit a pair from row `i`, column `j` on exactly when it lies in the rest of row `i`
      or in a later row above the diagonal. */
  lemma {:induction false} PairsFromMembers(n: nat, i: nat, j: nat, p: (nat, nat))
    requires i < j
    ensures p in PairsFrom(n, i, j) <==> (p.0 == i && j <= p.1 < n) || (i < p.0 < p.1 < n)
    decreases n - i, n - j
  {
    if i < n {
      if j >= n {
        assert PairsFrom(n, i, j) == PairsFrom(n, i + 1, i + 2);
        PairsFromMembers(n, i + 1, i + 2, p);
      } else {
        var rest := PairsFrom(n, i, j + 1);
        assert PairsFrom(n, i, j) == [(i, j)] + rest;
        assert p in [(i, j)] + rest <==> p == (i, j) || p in rest;
        PairsFromMembers(n, i, j + 1, p);
      }
    }
  }

  /** No element occurs twice. */
  ghost predicate Distinct<T>(s: seq<T>)
  {
    forall a, b :: 0 <= a < b < |s| ==> s[a] != s[b]
  }

  /** A new element in front of a list without repeats makes a list without repeats. */
  lemma DistinctCons<T>(x: T, s: seq<T>)
    requires Distinct(s) && x !in s
    ensures Distinct([x] + s)
  {
    var r := [x] + s;
    forall a, b | 0 <= a < b < |r|
      ensures r[a] != r[b]
    {
      assert r[b] == s[b - 1];
      if a > 0 {
        assert r[a] == s[a - 1];
      }
    }
  }

  /** No pair is visited twice. */
  lemma {:induction false} PairsFromDistinct(n: nat, i: nat, j: nat)
    requires i < j
    ensures Distinct(PairsFrom(n, i, j))
    decreases n - i, n - j
  {
    if i < n {
      if j >= n {
        PairsFromDistinct(n, i + 1, i + 2);
        assert PairsFrom(n, i, j) == PairsFrom(n, i + 1, i + 2);
      } else {
        PairsFromDistinct(n, i, j + 1);
        RowPrepends(n, i, j);
      }
    }
  }

  /** Putting `(i, j)` in front of the rest of its row keeps a list without repeats. */
  lemma RowPrepends(n: nat, i: nat, j: nat)
    requires i < j < n && Distinct(PairsFrom(n, i, j + 1))
    ensures Distinct(PairsFrom(n, i, j))
  {
    var rest := PairsFrom(n, i, j + 1);
    PairsFromMembers(n, i, j + 1, (i, j));
    assert PairsFrom(n, i, j) == [(i, j)] + rest;
    DistinctCons((i, j), rest);
  }

  /** Over `n` colliders the loops visit each pair `(i, j)` with `i < j < n` exactly once, and no
      other: never `(i, i)`, never `(j, i)`. */
  lemma AllPairsExactlyOnce(n: nat)
    ensures forall p :: p in AllPairs(n) <==> p.0 < p.1 < n
    ensures Distinct(AllPairs(n))
  {
    forall p: (nat, nat)
      ensures p in AllPairs(n) <==> p.0 < p.1 < n
    {
      PairsFromMembers(n, 0, 1, p);
    }
    PairsFromDistinct(n, 0, 1);
    assert AllPairs(n) == PairsFrom(n, 0, 1);
  }

  /** `movementWeight` and `otherMovementWeight` as written: 0 for a static transform and 1 for a
      dynamic one; unless both are 0, the first is divided by the sum, and then the second by a sum
      that already uses the divided first. On the pairs that reach it (at least one static) these
      are the plain 0/1 weights; two dynamic transforms would get 1/2 and 2/3. */
  function Weights(static1: bool, static2: bool): (r: (real, real))
    ensures static1 || static2 ==> r == (if static1 then 0.0 else 1.0, if static2 then 0.0 else 1.0)
    ensures !static1 && !static2 ==> r == (0.5, 2.0 / 3.0)
  {
    var w1 := if static1 then 0.0 else 1.0;
    var w2 := if static2 then 0.0 else 1.0;
    if w1 == 0.0 && w2 == 0.0 then (w1, w2)
    else
      var share1 := w1 / (w1 + w2);
      assert share1 == if static1 then 0.0 else if static2 then 1.0 else 0.5;
      (share1, w2 / (share1 + w2))
  }

  /** A pair is passed over before the resolver runs when either owner or transform is missing, or
      when both transforms are dynamic. */
  predicate Skipped(g: Graph, c1: CId, c2: CId)
  {
    var t1 := OwnerTransformOf(g, c1);
    var t2 := OwnerTransformOf(g, c2);
    t1.None? || t2.None? || (!IsStatic(g.C(t1.value).Kind) && !IsStatic(g.C(t2.value).Kind))
  }

  /** One turn of the inner loop on colliders `c1` and `c2`: unless the pair is passed over, the
      resolver runs on their data; an interaction moves the first owner's transform by `MTV * w1`
      and then the second's by `MTV * -w2`. `None` stands for the float division by zero the
      resolver performs on coinciding circle centres. */
  function PairStep(g: Graph, c1: CId, c2: CId, sqrt: real -> real): (r: Option<Graph>)
    requires g.C(c1).Kind.Collider? && g.C(c2).Kind.Collider?
    ensures r.Some? ==> OnlyMoves(g, r.value)
  {
    if Skipped(g, c1, c2) then Some(g)
    else
      var t1 := OwnerTransformOf(g, c1).value;
      var t2 := OwnerTransformOf(g, c2).value;
      var results := Resolver.Resolve(g.C(c1).Kind.Shape, g.C(c2).Kind.Shape, sqrt);
      if results.None? then None
      else if results.value.Type == Resolver.NoInteraction then Some(g)
      else Some(Interaction(g, c1, c2, results.value))
  }

  /** The weighted correction of an interacting pair: the first owner's transform moves by
      `MTV * w1`, then the second's by `MTV * -w2`. */
  function Interaction(g: Graph, c1: CId, c2: CId, results: Resolver.PhysicsResults): (r: Graph)
    requires OwnerTransformOf(g, c1).Some? && OwnerTransformOf(g, c2).Some?
    ensures OnlyMoves(g, r)
  {
    var t1 := OwnerTransformOf(g, c1).value;
    var t2 := OwnerTransformOf(g, c2).value;
    var weights := Weights(IsStatic(g.C(t1).Kind), IsStatic(g.C(t2).Kind));
    var mtv := results.MinimumTranslation;
    var first := CollidedWith(g, c1, results.(MinimumTranslation := MulRight(mtv, weights.0)));
    var second := CollidedWith(first, c2, results.(MinimumTranslation := MulRight(mtv, -weights.1)));
    ShiftedOnlyMoves(g, c1, MulRight(mtv, weights.0));
    ShiftedOnlyMoves(first, c2, MulRight(mtv, -weights.1));
    OnlyMovesTransitive(g, first, second);
    second
  }

  /** The pair loops over a list of visited pairs: `PairStep` on each, in order, stopping at the
      first `None`. */
  function FoldPairs(g: Graph, cs: seq<CId>, pairs: seq<(nat, nat)>, sqrt: real -> real): (r: Option<Graph>)
    requires AllColliders(g, cs)
    requires forall p :: p in pairs ==> p.0 < |cs| && p.1 < |cs|
    ensures r.Some? ==> OnlyMoves(g, r.value)
    decreases |pairs|, 1
  {
    if |pairs| == 0 then Some(g) else VisitFirst(g, cs, pairs, sqrt)
  }

  /** The pair loops on a non-empty list: the visit of the first pair, then the rest of the list
      from the state that visit leaves. */
  function VisitFirst(g: Graph, cs: seq<CId>, pairs: seq<(nat, nat)>, sqrt: real -> real): (r: Option<Graph>)
    requires AllColliders(g, cs) && |pairs| > 0
    requires forall p :: p in pairs ==> p.0 < |cs| && p.1 < |cs|
    ensures r.Some? ==> OnlyMoves(g, r.value)
    decreases |pairs|, 0
  {
    assert pairs[0] in pairs;
    var next := PairStep(g, cs[pairs[0].0], cs[pairs[0].1], sqrt);
    if next.None? then None
    else
      AllCollidersKept(g, next.value, cs);
      var r := FoldPairs(next.value, cs, pairs[1..], sqrt);
      if r.Some? then OnlyMovesTransitive(g, next.value, r.value); r else r
  }

  /** `Update(delta)`: the clamped delta, the controller pass, then the pair pass over every pair
      of registered colliders. */
  function SceneUpdate(g: Graph, controllers: seq<CId>, colliders: seq<CId>, delta: real, sqrt: real -> real): (r: Option<Graph>)
    requires AllColliders(g, colliders)
    ensures r.Some? ==> OnlyMoves(g, r.value)
  {
    var moved := Integrate(g, controllers, ClampDelta(delta));
    IntegrateOnlyMoves(g, controllers, ClampDelta(delta));
    AllCollidersKept(g, moved, colliders);
    var r := FoldPairs(moved, colliders, AllPairs(|colliders|), sqrt);
    if r.Some? then OnlyMovesTransitive(g, moved, r.value); r else r
  }

  // ---- Loop facts ----

  /** The loops' progress: over colliders `cs` in state `g`, what is left of the pair pass from row
      `i`, column `j` on folds to `total`. */
  ghost predicate PassFrom(g: Graph, cs: seq<CId>, i: nat, j: nat, sqrt: real -> real, total: Option<Graph>)
  {
    AllColliders(g, cs) && i < j && FoldPairs(g, cs, PairsFrom(|cs|, i, j), sqrt) == total
  }

  /** A row whose own collider has no owner transform contributes nothing: the outer loop may pass
      straight to the next row. */
  lemma SkipRow(g: Graph, cs: seq<CId>, i: nat, j: nat, sqrt: real -> real)
    requires AllColliders(g, cs) && i < j && i < |cs|
    requires OwnerTransformOf(g, cs[i]).None?
    ensures FoldPairs(g, cs, PairsFrom(|cs|, i, j), sqrt) == FoldPairs(g, cs, PairsFrom(|cs|, i + 1, i + 2), sqrt)
  {
    var pairs := PairsFrom(|cs|, i, j);
    var k := if j < |cs| then |cs| - j else 0;
    RowShape(|cs|, i, j);
    FoldSkipsPrefix(g, cs, pairs, k, sqrt);
  }

  /** The pairs from `(i, j)` on are the rest of row `i`, then the rows below it. */
  lemma {:induction false} RowShape(n: nat, i: nat, j: nat)
    requires i < j && i < n
    ensures var k := if j < n then n - j else 0; var pairs := PairsFrom(n, i, j);
      k <= |pairs| && (forall t :: 0 <= t < k ==> pairs[t].0 == i) && pairs[k..] == PairsFrom(n, i + 1, i + 2)
    decreases n - j
  {
    if j < n {
      RowShape(n, i, j + 1);
      var rest := PairsFrom(n, i, j + 1);
      assert PairsFrom(n, i, j) == [(i, j)] + rest;
      assert ([(i, j)] + rest)[n - j..] == rest[n - (j + 1)..];
    }
  }

  /** A prefix of pairs whose first colliders have no owner transform is passed over. */
  lemma {:induction false} FoldSkipsPrefix(g: Graph, cs: seq<CId>, pairs: seq<(nat, nat)>, k: nat, sqrt: real -> real)
    requires AllColliders(g, cs) && k <= |pairs|
    requires forall p :: p in pairs ==> p.0 < |cs| && p.1 < |cs|
    requires forall t :: 0 <= t < k ==> OwnerTransformOf(g, cs[pairs[t].0]).None?
    ensures FoldPairs(g, cs, pairs, sqrt) == FoldPairs(g, cs, pairs[k..], sqrt)
    decreases k
  {
    if k > 0 {
      FoldPassesOver(g, cs, pairs, sqrt);
      var rest := pairs[1..];
      assert forall t :: 0 <= t < k - 1 ==> rest[t] == pairs[t + 1];
      FoldSkipsPrefix(g, cs, rest, k - 1, sqrt);
      assert rest[k - 1..] == pairs[k..];
    }
  }

  /** A first pair that is passed over leaves the pass to the rest of the list. */
  lemma FoldPassesOver(g: Graph, cs: seq<CId>, pairs: seq<(nat, nat)>, sqrt: real -> real)
    requires AllColliders(g, cs) && |pairs| > 0
    requires forall p :: p in pairs ==> p.0 < |cs| && p.1 < |cs|
    requires OwnerTransformOf(g, cs[pairs[0].0]).None?
    ensures FoldPairs(g, cs, pairs, sqrt) == FoldPairs(g, cs, pairs[1..], sqrt)
  {
    assert pairs[0] in pairs;
    assert Skipped(g, cs[pairs[0].0], cs[pairs[0].1]);
    assert FoldPairs(g, cs, pairs, sqrt) == VisitFirst(g, cs, pairs, sqrt);
  }

  /** One turn of the inner loop: the visit of `(i, j)`, then the rest. */
  lemma FoldPairsStep(g: Graph, cs: seq<CId>, i: nat, j: nat, sqrt: real -> real)
    requires AllColliders(g, cs) && i < j < |cs|
    ensures var next := PairStep(g, cs[i], cs[j], sqrt);
      FoldPairs(g, cs, PairsFrom(|cs|, i, j), sqrt)
      == if next.None? then None else FoldPairs(next.value, cs, PairsFrom(|cs|, i, j + 1), sqrt)
    ensures var next := PairStep(g, cs[i], cs[j], sqrt);
      next.Some? ==> AllColliders(next.value, cs) && OwnerTransformOf(next.value, cs[i]) == OwnerTransformOf(g, cs[i])
  {
    var next := PairStep(g, cs[i], cs[j], sqrt);
    assert PairsFrom(|cs|, i, j)[0] == (i, j);
    assert PairsFrom(|cs|, i, j)[1..] == PairsFrom(|cs|, i, j + 1);
    assert FoldPairs(g, cs, PairsFrom(|cs|, i, j), sqrt) == VisitFirst(g, cs, PairsFrom(|cs|, i, j), sqrt);
    if next.Some? {
      AllCollidersKept(g, next.value, cs);
      OnlyMovesKeeps(g, next.value, cs[i]);
    }
  }

  /** The inner loop's invariant carried over one visit that completed. */
  lemma RowAdvance(g: Graph, h: Graph, cs: seq<CId>, i: nat, j: nat, sqrt: real -> real, total: Option<Graph>)
    requires AllColliders(g, cs) && i < j < |cs|
    requires FoldPairs(g, cs, PairsFrom(|cs|, i, j), sqrt) == total
    requires PairStep(g, cs[i], cs[j], sqrt) == Some(h)
    ensures AllColliders(h, cs) && FoldPairs(h, cs, PairsFrom(|cs|, i, j + 1), sqrt) == total
    ensures OwnerTransformOf(h, cs[i]) == OwnerTransformOf(g, cs[i])
  {
    FoldPairsStep(g, cs, i, j, sqrt);
  }

  /** A visit that stops the scene stops the whole pair pass. */
  lemma RowStops(g: Graph, cs: seq<CId>, i: nat, j: nat, sqrt: real -> real)
    requires AllColliders(g, cs) && i < j < |cs|
    requires PairStep(g, cs[i], cs[j], sqrt).None?
    ensures FoldPairs(g, cs, PairsFrom(|cs|, i, j), sqrt).None?
  {
    FoldPairsStep(g, cs, i, j, sqrt);
  }

  // ---- What a correction does ----

  /** A pair that is not passed over and interacts moves the first owner's transform by the MTV
      scaled by the first weight, then the second's by the MTV scaled by the negated second weight. */
  lemma InteractionShifts(g: Graph, c1: CId, c2: CId, sqrt: real -> real)
    requires g.C(c1).Kind.Collider? && g.C(c2).Kind.Collider?
    requires !Skipped(g, c1, c2)
    requires var r := Resolver.Resolve(g.C(c1).Kind.Shape, g.C(c2).Kind.Shape, sqrt);
      r.Some? && r.value.Type != Resolver.NoInteraction
    ensures var t1 := OwnerTransformOf(g, c1).value; var t2 := OwnerTransformOf(g, c2).value;
      var mtv := Resolver.Resolve(g.C(c1).Kind.Shape, g.C(c2).Kind.Shape, sqrt).value.MinimumTranslation;
      var weights := Weights(IsStatic(g.C(t1).Kind), IsStatic(g.C(t2).Kind));
      PairStep(g, c1, c2, sqrt)
      == Some(Shifted(Shifted(g, c1, MulRight(mtv, weights.0)), c2, MulRight(mtv, -weights.1)))
  {
  }

  /** Two shifts of different owner transforms move each by its own offset and touch nothing else. */
  lemma TwoShifts(g: Graph, c1: CId, c2: CId, o1: Vector2, o2: Vector2)
    requires OwnerTransformOf(g, c1).Some? && OwnerTransformOf(g, c2).Some?
    requires OwnerTransformOf(g, c1) != OwnerTransformOf(g, c2)
    ensures var t1 := OwnerTransformOf(g, c1).value; var t2 := OwnerTransformOf(g, c2).value;
      var r := Shifted(Shifted(g, c1, o1), c2, o2);
      var p1 := Position(g.C(t1).Kind); var p2 := Position(g.C(t2).Kind);
      Position(r.C(t1).Kind) == Vector2(p1.X + o1.X, p1.Y + o1.Y, 1.0)
      && Position(r.C(t2).Kind) == Vector2(p2.X + o2.X, p2.Y + o2.Y, 1.0)
      && forall k :: k != t1 && k != t2 ==> r.C(k) == g.C(k)
  {
    var t2 := OwnerTransformOf(g, c2).value;
    var first := Shifted(g, c1, o1);
    ShiftedMoves(g, c1, o1);
    ShiftedOnlyMoves(g, c1, o1);
    OnlyMovesKeeps(g, first, c2);
    ShiftedMoves(first, c2, o2);
    assert first.C(t2) == g.C(t2);
  }

  /** A shift by an offset with no x or y part keeps every position. */
  lemma ZeroShiftStays(g: Graph, c: CId, o: Vector2)
    requires o.X == 0.0 && o.Y == 0.0
    ensures OnlyMoves(g, Shifted(g, c, o))
    ensures forall k :: g.C(k).Kind.Transform? ==> Position(Shifted(g, c, o).C(k).Kind) == Position(g.C(k).Kind)
  {
    ShiftedOnlyMoves(g, c, o);
    if OwnerTransformOf(g, c).Some? {
      ShiftedMoves(g, c, o);
    }
  }

  /** When an interacting pair has a static side, the weights collapse: a static owner transform is
      shifted by zero and a dynamic one by the whole correction (the MTV for the first collider,
      its negation for the second). `TwoShifts` then gives the positions. */
  lemma StaticDynamicCorrection(g: Graph, c1: CId, c2: CId, sqrt: real -> real, results: Resolver.PhysicsResults)
    requires g.C(c1).Kind.Collider? && g.C(c2).Kind.Collider?
    requires !Skipped(g, c1, c2)
    requires Resolver.Resolve(g.C(c1).Kind.Shape, g.C(c2).Kind.Shape, sqrt) == Some(results)
    requires results.Type != Resolver.NoInteraction
    ensures var t1 := OwnerTransformOf(g, c1).value; var t2 := OwnerTransformOf(g, c2).value;
      var mtv := results.MinimumTranslation;
      var o1 := if IsStatic(g.C(t1).Kind) then Zero else mtv;
      var o2 := if IsStatic(g.C(t2).Kind) then Zero else Vector2(-mtv.X, -mtv.Y, -mtv.Z);
      PairStep(g, c1, c2, sqrt) == Some(Shifted(Shifted(g, c1, o1), c2, o2))
  {
    var t1 := OwnerTransformOf(g, c1).value;
    var t2 := OwnerTransformOf(g, c2).value;
    assert PairStep(g, c1, c2, sqrt) == Some(Interaction(g, c1, c2, results));
    WeightedOffsets(results.MinimumTranslation, IsStatic(g.C(t1).Kind), IsStatic(g.C(t2).Kind));
    InteractionIsShifts(g, c1, c2, results);
  }

  /** `Interaction` is the two weighted shifts. */
  lemma InteractionIsShifts(g: Graph, c1: CId, c2: CId, results: Resolver.PhysicsResults)
    requires OwnerTransformOf(g, c1).Some? && OwnerTransformOf(g, c2).Some?
    ensures var mtv := results.MinimumTranslation;
      var weights := Weights(IsStatic(g.C(OwnerTransformOf(g, c1).value).Kind), IsStatic(g.C(OwnerTransformOf(g, c2).value).Kind));
      Interaction(g, c1, c2, results) == Shifted(Shifted(g, c1, MulRight(mtv, weights.0)), c2, MulRight(mtv, -weights.1))
  {
  }

  /** With one static side, the static offset is zero and the dynamic one is the whole `MTV`
      (as it is for the first collider, reversed for the second). */
  lemma WeightedOffsets(mtv: Vector2, static1: bool, static2: bool)
    requires static1 || static2
    ensures var weights := Weights(static1, static2);
      MulRight(mtv, weights.0) == (if static1 then Zero else mtv)
      && MulRight(mtv, -weights.1) == (if static2 then Zero else Vector2(-mtv.X, -mtv.Y, -mtv.Z))
  {
  }

  /** Two static colliders that interact are both passed the zero translation: no position
      changes, even when both belong to the same transform. */
  lemma StaticPairsStay(g: Graph, c1: CId, c2: CId, sqrt: real -> real)
    requires g.C(c1).Kind.Collider? && g.C(c2).Kind.Collider?
    requires var t1 := OwnerTransformOf(g, c1); var t2 := OwnerTransformOf(g, c2);
      t1.Some? && t2.Some? && IsStatic(g.C(t1.value).Kind) && IsStatic(g.C(t2.value).Kind)
    requires PairStep(g, c1, c2, sqrt).Some?
    ensures var r := PairStep(g, c1, c2, sqrt).value;
      forall k :: g.C(k).Kind.Transform? ==> Position(r.C(k).Kind) == Position(g.C(k).Kind)
  {
    var results := Resolver.Resolve(g.C(c1).Kind.Shape, g.C(c2).Kind.Shape, sqrt);
    if results.value.Type != Resolver.NoInteraction {
      var mtv := results.value.MinimumTranslation;
      var o1 := MulRight(mtv, 0.0);
      var o2 := MulRight(mtv, -0.0);
      InteractionShifts(g, c1, c2, sqrt);
      var first := Shifted(g, c1, o1);
      ZeroShiftStays(g, c1, o1);
      ZeroShiftStays(first, c2, o2);
      forall k | g.C(k).Kind.Transform?
        ensures first.C(k).Kind.Transform?
      {
      }
    }
  }
}
