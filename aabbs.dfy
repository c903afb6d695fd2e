/** The axis-aligned bounding box `GameEngine.Math2D.Aabb`. */
module Aabbs {
  import opened FloatUtils
  import opened Vectors
  import opened Matrices

  datatype Aabb = Aabb(Min: Vector2, Max: Vector2) {

    /** `0.5f * (Min + Max)`, written component by component. */
    function Center(): Vector2
    {
      Vector2(0.5 * (Min.X + Max.X), 0.5 * (Min.Y + Max.Y), 0.5 * (Min.Z + Max.Z))
    }

    function Size(): Vector2 { Sub(Max, Min) }

    function Area(): (r: real)
      ensures r == Size().X * Size().Y
    {
      (Max.X - Min.X) * (Max.Y - Min.Y)
    }

    function Perimeter(): (r: real)
      ensures r == 2.0 * (Size().X + Size().Y)
    {
      2.0 * (Max.X - Min.X + Max.Y - Min.Y)
    }

    /** Inclusive on both axes; z plays no part. */
    predicate Contains(point: Vector2)
    {
      point.X >= Min.X && point.X <= Max.X && point.Y >= Min.Y && point.Y <= Max.Y
    }

    /** Grows this box by the other's size and asks whether it then holds the other's `Max`. */
    predicate Intersects(other: Aabb)
    {
      FromCorners(Min, Add(Max, other.Size())).Contains(other.Max)
    }

    function Expand(amount: real): Aabb
    {
      FromCorners(Sub(Min, Vec(amount, amount)), Add(Max, Vec(amount, amount)))
    }

    /** `Equals(Aabb)`: both corners equal. */
    predicate Equals(other: Aabb) { Min == other.Min && Max == other.Max }

    /** `Equals(Aabb, float)`: both corners equal within `epsilon`, component by component. */
    predicate EqualsWithin(other: Aabb, epsilon: real)
    {
      Min.EqualsWithin(other.Min, epsilon) && Max.EqualsWithin(other.Max, epsilon)
    }

    /** Min lies below Max on both axes, as every box the two-point constructor builds does. */
    predicate Normalised() { Min.X <= Max.X && Min.Y <= Max.Y }
  }

  /** `new Aabb()`: both corners are the zero vector. */
  const Default: Aabb := Aabb(Zero, Zero)

  /** `new Aabb(min, max)`: orders the corners per axis and makes both points (z = 1). */
  function FromCorners(min: Vector2, max: Vector2): (r: Aabb)
    ensures r.Normalised() && r.Min.Z == 1.0 && r.Max.Z == 1.0
    ensures r.Min.X == FloatUtils.Min(min.X, max.X) && r.Max.X == FloatUtils.Max(min.X, max.X)
    ensures r.Min.Y == FloatUtils.Min(min.Y, max.Y) && r.Max.Y == FloatUtils.Max(min.Y, max.Y)
  {
    Aabb(Vector2(FloatUtils.Min(min.X, max.X), FloatUtils.Min(min.Y, max.Y), 1.0),
         Vector2(FloatUtils.Max(min.X, max.X), FloatUtils.Max(min.Y, max.Y), 1.0))
  }

  /** Already-ordered corners pass through unchanged apart from z. */
  lemma FromOrderedCorners(min: Vector2, max: Vector2)
    requires min.X <= max.X && min.Y <= max.Y
    ensures FromCorners(min, max) == Aabb(Vector2(min.X, min.Y, 1.0), Vector2(max.X, max.Y, 1.0))
  {
  }

  /** A constructed box contains both the corners it was given and its own centre. */
  lemma ConstructedContains(p: Vector2, q: Vector2)
    ensures FromCorners(p, q).Contains(p) && FromCorners(p, q).Contains(q)
    ensures FromCorners(p, q).Contains(FromCorners(p, q).Center())
  {
  }

  /** The size of a normalised box is non-negative, and so are its area and perimeter. */
  lemma NormalisedMeasures(b: Aabb)
    requires b.Normalised()
    ensures b.Size().X >= 0.0 && b.Size().Y >= 0.0
    ensures b.Area() >= 0.0 && b.Perimeter() >= 0.0
  {
  }

  /** For normalised boxes, `Intersects` is the per-axis overlap test, so it is symmetric and includes touching. */
  lemma IntersectsIsOverlap(a: Aabb, b: Aabb)
    requires a.Normalised() && b.Normalised()
    ensures a.Intersects(b) <==> a.Min.X <= b.Max.X && b.Min.X <= a.Max.X && a.Min.Y <= b.Max.Y && b.Min.Y <= a.Max.Y
  {
  }

  lemma IntersectsSymmetric(a: Aabb, b: Aabb)
    requires a.Normalised() && b.Normalised()
    ensures a.Intersects(b) <==> b.Intersects(a)
  {
    IntersectsIsOverlap(a, b);
    IntersectsIsOverlap(b, a);
  }

  /** Two boxes that share a point intersect, and two boxes that share only an edge or corner still do. */
  lemma SharedPointIntersects(a: Aabb, b: Aabb, p: Vector2)
    requires a.Normalised() && b.Normalised() && a.Contains(p) && b.Contains(p)
    ensures a.Intersects(b)
  {
    IntersectsIsOverlap(a, b);
  }

  /** Growing a normalised box by a positive amount, as the source's tests check it. */
  lemma ExpandProperties(b: Aabb, amount: real)
    requires b.Normalised() && amount > 0.0
    ensures b.Expand(amount).Contains(b.Min) && b.Expand(amount).Contains(b.Max)
    ensures !b.Contains(b.Expand(amount).Min) && !b.Contains(b.Expand(amount).Max)
    ensures b.Expand(amount).Area() == (b.Size().X + 2.0 * amount) * (b.Size().Y + 2.0 * amount)
    ensures b.Expand(amount).Perimeter() == b.Perimeter() + 8.0 * amount
  {
    var e := b.Expand(amount);
    assert e.Min.X == b.Min.X - amount && e.Max.X == b.Max.X + amount;
    assert e.Min.Y == b.Min.Y - amount && e.Max.Y == b.Max.Y + amount;
  }

  // ---- Compute ----

  /** The box the left-to-right min/max fold of `Compute` reaches over a non-empty list. */
  function Hull(points: seq<Vector2>): (r: Aabb)
    requires |points| > 0
    ensures r.Normalised() && r.Min.Z == 1.0 && r.Max.Z == 1.0
    decreases |points|
  {
    var p := points[|points| - 1];
    if |points| == 1 then Aabb(Vector2(p.X, p.Y, 1.0), Vector2(p.X, p.Y, 1.0))
    else
      var h := Hull(points[..|points| - 1]);
      Aabb(Vector2(FloatUtils.Min(h.Min.X, p.X), FloatUtils.Min(h.Min.Y, p.Y), 1.0),
           Vector2(FloatUtils.Max(h.Max.X, p.X), FloatUtils.Max(h.Max.Y, p.Y), 1.0))
  }

  /** Every point lies in the hull. */
  lemma {:induction false} HullContainsAll(points: seq<Vector2>)
    requires |points| > 0
    ensures forall i :: 0 <= i < |points| ==> Hull(points).Contains(points[i])
  {
    if |points| > 1 {
      var init := points[..|points| - 1];
      HullContainsAll(init);
      forall i | 0 <= i < |points| - 1 ensures Hull(points).Contains(points[i]) {
        assert init[i] == points[i];
      }
    }
  }

  /** Each bound of the hull is the coordinate of some point. */
  lemma {:induction false} HullAttained(points: seq<Vector2>)
    requires |points| > 0
    ensures exists i :: 0 <= i < |points| && points[i].X == Hull(points).Min.X
    ensures exists i :: 0 <= i < |points| && points[i].Y == Hull(points).Min.Y
    ensures exists i :: 0 <= i < |points| && points[i].X == Hull(points).Max.X
    ensures exists i :: 0 <= i < |points| && points[i].Y == Hull(points).Max.Y
  {
    var n := |points|;
    if n > 1 {
      var init := points[..n - 1];
      HullAttained(init);
      var h, r := Hull(init), Hull(points);
      var i0 :| 0 <= i0 < n - 1 && init[i0].X == h.Min.X;
      var i1 :| 0 <= i1 < n - 1 && init[i1].Y == h.Min.Y;
      var i2 :| 0 <= i2 < n - 1 && init[i2].X == h.Max.X;
      var i3 :| 0 <= i3 < n - 1 && init[i3].Y == h.Max.Y;
      assert points[i0] == init[i0] && points[i1] == init[i1] && points[i2] == init[i2] && points[i3] == init[i3];
      if r.Min.X == h.Min.X { assert points[i0].X == r.Min.X; } else { assert points[n - 1].X == r.Min.X; }
      if r.Min.Y == h.Min.Y { assert points[i1].Y == r.Min.Y; } else { assert points[n - 1].Y == r.Min.Y; }
      if r.Max.X == h.Max.X { assert points[i2].X == r.Max.X; } else { assert points[n - 1].X == r.Max.X; }
      if r.Max.Y == h.Max.Y { assert points[i3].Y == r.Max.Y; } else { assert points[n - 1].Y == r.Max.Y; }
    } else {
      assert points[0].X == Hull(points).Min.X && points[0].Y == Hull(points).Min.Y;
      assert points[0].X == Hull(points).Max.X && points[0].Y == Hull(points).Max.Y;
    }
  }

  /** The hull is the smallest box holding the points: any box that holds them all holds its corners. */
  lemma HullIsSmallest(points: seq<Vector2>, b: Aabb)
    requires |points| > 0
    requires forall i :: 0 <= i < |points| ==> b.Contains(points[i])
    ensures b.Contains(Hull(points).Min) && b.Contains(Hull(points).Max)
  {
    HullAttained(points);
  }

  /** `Aabb.Compute(points)`: the default box for an empty list, else the fold from index 1. */
  method Compute(points: seq<Vector2>) returns (r: Aabb)
    ensures |points| == 0 ==> r == Default
    ensures |points| > 0 ==> r == Hull(points)
  {
    if |points| == 0 {
      return Default;
    }
    var minX, minY := points[0].X, points[0].Y;
    var maxX, maxY := minX, minY;
    for i := 1 to |points|
      invariant Hull(points[..i]) == Aabb(Vector2(minX, minY, 1.0), Vector2(maxX, maxY, 1.0))
    {
      assert points[..i + 1][..i] == points[..i];
      minX := FloatUtils.Min(minX, points[i].X);
      minY := FloatUtils.Min(minY, points[i].Y);
      maxX := FloatUtils.Max(maxX, points[i].X);
      maxY := FloatUtils.Max(maxY, points[i].Y);
    }
    assert points[..|points|] == points;
    FromOrderedCorners(Vector2(minX, minY, 1.0), Vector2(maxX, maxY, 1.0));
    r := FromCorners(Vector2(minX, minY, 1.0), Vector2(maxX, maxY, 1.0));
  }

  // ---- Transform ----

  /** Component `i` of a vector, as the stack spans of `Transform` hold it. */
  function Coord(v: Vector2, i: int): real
  {
    if i == 0 then v.X else if i == 1 then v.Y else v.Z
  }

  /** One term of axis `i`'s bound: column `j` of the matrix against the box's extent on axis `j`. */
  function LowTerm(b: Aabb, m: Matrix, i: int, j: int): real
    requires 0 <= i < 2 && 0 <= j < 2
  {
    FloatUtils.Min(Get(m, i, j) * Coord(b.Min, j), Get(m, i, j) * Coord(b.Max, j))
  }

  function HighTerm(b: Aabb, m: Matrix, i: int, j: int): real
    requires 0 <= i < 2 && 0 <= j < 2
  {
    FloatUtils.Max(Get(m, i, j) * Coord(b.Min, j), Get(m, i, j) * Coord(b.Max, j))
  }

  /** The two lower terms of axis `i`, in the order the inner loop adds them. */
  function LowTerms(b: Aabb, m: Matrix, i: int): (r: seq<real>)
    requires 0 <= i < 2
    ensures |r| == 2
  {
    seq(2, j requires 0 <= j < 2 => LowTerm(b, m, i, j))
  }

  function HighTerms(b: Aabb, m: Matrix, i: int): (r: seq<real>)
    requires 0 <= i < 2
    ensures |r| == 2
  {
    seq(2, j requires 0 <= j < 2 => HighTerm(b, m, i, j))
  }

  /** The sum of a sequence, added from the front. */
  function Sum(s: seq<real>): real
  {
    if |s| == 0 then 0.0 else Sum(s[..|s| - 1]) + s[|s| - 1]
  }

  /** Adding one more element to a prefix adds it to the sum. */
  lemma SumPrefix(s: seq<real>, j: int)
    requires 0 <= j < |s|
    ensures Sum(s[..j + 1]) == Sum(s[..j]) + s[j]
  {
    assert s[..j + 1][..j] == s[..j];
  }

  /** The bounds `Transform` accumulates on axis `i < 2`: the translation plus the sum of the terms. */
  function Low(b: Aabb, m: Matrix, i: int): real
    requires 0 <= i < 2
  {
    Coord(Translation(m), i) + Sum(LowTerms(b, m, i))
  }

  function High(b: Aabb, m: Matrix, i: int): real
    requires 0 <= i < 2
  {
    Coord(Translation(m), i) + Sum(HighTerms(b, m, i))
  }

  /** Written out, each bound is the translation plus the two terms. */
  lemma {:induction false} BoundsExpanded(b: Aabb, m: Matrix, i: int)
    requires 0 <= i < 2
    ensures Low(b, m, i) == Coord(Translation(m), i) + LowTerm(b, m, i, 0) + LowTerm(b, m, i, 1)
    ensures High(b, m, i) == Coord(Translation(m), i) + HighTerm(b, m, i, 0) + HighTerm(b, m, i, 1)
  {
    var lows, highs := LowTerms(b, m, i), HighTerms(b, m, i);
    assert lows[..1][..0] == [] && highs[..1][..0] == [];
    assert lows[..2] == lows && highs[..2] == highs;
    SumPrefix(lows, 0);
    SumPrefix(lows, 1);
    SumPrefix(highs, 0);
    SumPrefix(highs, 1);
  }

  /** One term of the inner loop: the products of column `j`, ordered by a swap, are the next two terms. */
  method OrderedProducts(b: Aabb, m: Matrix, i: int, j: int, x: real, y: real) returns (lo: real, hi: real)
    requires 0 <= i < 2 && 0 <= j < 2 && x == Coord(b.Min, j) && y == Coord(b.Max, j)
    ensures lo == LowTerms(b, m, i)[j] && hi == HighTerms(b, m, i)[j]
  {
    lo := Get(m, i, j) * x;
    hi := Get(m, i, j) * y;
    if lo > hi {
      var c := lo;
      lo := hi;
      hi := c;
    }
  }

  /** `Transform(matrix)`: span accumulators seeded with the translation, summed over the 2x2 block.
      The stack-allocated spans are local sequences. */
  method Transform(b: Aabb, m: Matrix) returns (r: Aabb)
    ensures r == FromCorners(Vector2(Low(b, m, 0), Low(b, m, 1), 1.0), Vector2(High(b, m, 0), High(b, m, 1), 1.0))
  {
    var translation := Translation(m);
    var min := [b.Min.X, b.Min.Y, b.Min.Z];
    var max := [b.Max.X, b.Max.Y, b.Max.Z];
    var outMin := [translation.X, translation.Y, translation.Z];
    var outMax := [translation.X, translation.Y, translation.Z];
    for i := 0 to 2
      invariant |outMin| == 3 && |outMax| == 3
      invariant forall k :: 0 <= k < i ==> outMin[k] == Low(b, m, k) && outMax[k] == High(b, m, k)
      invariant forall k :: i <= k < 3 ==> outMin[k] == outMax[k] == Coord(translation, k)
    {
      ghost var lows, highs := LowTerms(b, m, i), HighTerms(b, m, i);
      ghost var before, beforeMax := outMin, outMax;
      for j := 0 to 2
        invariant |outMin| == 3 && |outMax| == 3
        invariant outMin[i] == before[i] + Sum(lows[..j]) && outMax[i] == beforeMax[i] + Sum(highs[..j])
        invariant forall k :: 0 <= k < 3 && k != i ==> outMin[k] == before[k] && outMax[k] == beforeMax[k]
      {
        var lo, hi := OrderedProducts(b, m, i, j, min[j], max[j]);
        SumPrefix(lows, j);
        SumPrefix(highs, j);
        outMin := outMin[i := outMin[i] + lo];
        outMax := outMax[i := outMax[i] + hi];
      }
      assert lows[..2] == lows && highs[..2] == highs;
    }
    r := FromCorners(Vector2(outMin[0], outMin[1], outMin[2]), Vector2(outMax[0], outMax[1], outMax[2]));
  }

  /** Row `i`, column `j` of the matrix applied to coordinate `j` of the point. */
  function ImageTerm(m: Matrix, p: Vector2, i: int, j: int): real
    requires 0 <= i < 2 && 0 <= j < 2
  {
    Get(m, i, j) * Coord(p, j)
  }

  /** The affine image of a point under the matrix: `Translation + x * Right + y * Up`. */
  function AffineImage(m: Matrix, p: Vector2): Vector2
  {
    Vec(Coord(Translation(m), 0) + ImageTerm(m, p, 0, 0) + ImageTerm(m, p, 0, 1),
        Coord(Translation(m), 1) + ImageTerm(m, p, 1, 0) + ImageTerm(m, p, 1, 1))
  }

  /** Multiplying by a non-negative factor keeps the order. */
  lemma MulMonotone(a: real, u: real, v: real)
    requires a >= 0.0 && u <= v
    ensures a * u <= a * v
  {
    assert a * v - a * u == a * (v - u);
  }

  /** Multiplying by a negative factor reverses the order. */
  lemma MulAntitone(a: real, u: real, v: real)
    requires a < 0.0 && u <= v
    ensures a * v <= a * u
  {
    assert a * u - a * v == -a * (v - u);
  }

  /** A product with a coordinate between two bounds lies between the two bound products. */
  lemma ProductBetween(a: real, lo: real, v: real, hi: real)
    requires lo <= v <= hi
    ensures FloatUtils.Min(a * lo, a * hi) <= a * v <= FloatUtils.Max(a * lo, a * hi)
  {
    if a >= 0.0 {
      MulMonotone(a, lo, v);
      MulMonotone(a, v, hi);
    } else {
      MulAntitone(a, lo, v);
      MulAntitone(a, v, hi);
    }
  }

  /** Each term of the image lies between the matching terms of the two bounds. */
  lemma {:induction false} TermBetween(b: Aabb, m: Matrix, p: Vector2, i: int, j: int)
    requires 0 <= i < 2 && 0 <= j < 2 && b.Contains(p)
    ensures LowTerm(b, m, i, j) <= ImageTerm(m, p, i, j) <= HighTerm(b, m, i, j)
  {
    assert Coord(b.Min, j) <= Coord(p, j) <= Coord(b.Max, j);
    ProductBetween(Get(m, i, j), Coord(b.Min, j), Coord(p, j), Coord(b.Max, j));
  }

  /** A point between two corners on both axes lies in the box they make. */
  lemma BetweenCorners(lo: Vector2, hi: Vector2, p: Vector2)
    requires lo.X <= p.X <= hi.X && lo.Y <= p.Y <= hi.Y
    ensures FromCorners(lo, hi).Contains(p)
  {
    FromOrderedCorners(lo, hi);
  }

  /** The transformed box holds the affine image of every point of the box. */
  lemma TransformSound(b: Aabb, m: Matrix, p: Vector2)
    requires b.Contains(p)
    ensures FromCorners(Vector2(Low(b, m, 0), Low(b, m, 1), 1.0), Vector2(High(b, m, 0), High(b, m, 1), 1.0)).Contains(AffineImage(m, p))
  {
    BoundsExpanded(b, m, 0);
    BoundsExpanded(b, m, 1);
    TermBetween(b, m, p, 0, 0);
    TermBetween(b, m, p, 0, 1);
    TermBetween(b, m, p, 1, 0);
    TermBetween(b, m, p, 1, 1);
    BetweenCorners(Vector2(Low(b, m, 0), Low(b, m, 1), 1.0), Vector2(High(b, m, 0), High(b, m, 1), 1.0), AffineImage(m, p));
  }

  /** The two equality tests agree on identical boxes and are symmetric. */
  lemma EqualsLaws(a: Aabb, b: Aabb, epsilon: real)
    ensures a.Equals(b) <==> a == b
    ensures a.EqualsWithin(b, epsilon) <==> b.EqualsWithin(a, epsilon)
    ensures epsilon > 0.0 ==> a.EqualsWithin(a, epsilon)
  {
  }
}
