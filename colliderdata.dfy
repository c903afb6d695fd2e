/** `ColliderData`: the placed polygon of a collider, with its bounding volumes, extremal vertices and
    edge normals, and the modular vertex indexing the resolvers use. */
module ColliderDatas {
  import opened FloatUtils
  import opened Vectors
  import opened Matrices
  import opened Outcomes
  import Aabbs
  import BoundingCircles

  // ---- C# integer remainder ----

  /** C#'s `/` on `int`: truncates toward zero. */
  function Quotient(a: int, b: int): int
    requires b > 0
  {
    if a >= 0 then a / b else -((-a) / b)
  }

  /** C#'s `%` on `int`: what is left after the truncating quotient, so it takes the sign of the
      dividend and stays below the divisor in size. */
  function Remainder(a: int, b: int): (r: int)
    requires b > 0
    ensures a == Quotient(a, b) * b + r
    ensures a >= 0 ==> 0 <= r < b
    ensures a < 0 ==> -b < r <= 0
  {
    if a >= 0 then a % b else -((-a) % b)
  }

  /** A positive multiple of `b` is at least `b`. */
  lemma MultipleAtLeast(d: int, b: int)
    requires b > 0 && d >= 1
    ensures d * b >= b
  {
  }

  /** A negative multiple of `b` is at most `-b`. */
  lemma NegativeMultipleAtMost(d: int, b: int)
    requires b > 0 && d <= -1
    ensures d * b <= -b
  {
    MultipleAtLeast(-d, b);
    assert (-d) * b == -(d * b);
  }

  /** A multiple of `b` plus a remainder `r` with `0 <= r < b` has exactly that Euclidean remainder. */
  lemma ModOfMultiplePlus(q: int, b: int, r: int)
    requires b > 0 && 0 <= r < b
    ensures (q * b + r) % b == r
  {
    var a := q * b + r;
    var qa, ra := a / b, a % b;
    assert a == qa * b + ra;
    var d := q - qa;
    assert d * b == ra - r;
    if d > 0 {
      MultipleAtLeast(d, b);
    } else if d < 0 {
      NegativeMultipleAtMost(d, b);
    }
  }

  // ---- Specification functions ----

  /** The vertex list `SetVertices` stores: the input, each entry transformed when a matrix is given. */
  function Placed(vertices: seq<Vector2>, optionalTransform: Option<Matrix>, apply: PointMap): (r: seq<Vector2>)
    ensures |r| == |vertices|
    ensures optionalTransform.None? ==> r == vertices
    ensures optionalTransform.Some? ==> forall i :: 0 <= i < |r| ==> r[i] == apply(optionalTransform.value, vertices[i])
  {
    if optionalTransform.None? then vertices
    else seq(|vertices|, i requires 0 <= i < |vertices| => apply(optionalTransform.value, vertices[i]))
  }

  /** The last index whose vertex has the given Y, or -1 when there is none. */
  function LastIndexOfY(vertices: seq<Vector2>, y: real): (r: int)
    ensures -1 <= r < |vertices|
    ensures r >= 0 ==> vertices[r].Y == y
    ensures forall k :: r < k < |vertices| ==> vertices[k].Y != y
  {
    if |vertices| == 0 then -1
    else if vertices[|vertices| - 1].Y == y then |vertices| - 1
    else LastIndexOfY(vertices[..|vertices| - 1], y)
  }

  /** The outward normal of the edge from vertex `i` to its successor, wrapping at the end. */
  function EdgeNormal(vertices: seq<Vector2>, i: int, leftNormal: Vector2 -> Vector2, unit: Vector2 -> Vector2): Vector2
    requires 0 <= i < |vertices|
  {
    unit(leftNormal(Sub(vertices[(i + 1) % |vertices|], vertices[i])))
  }

  /** The bounding box `Aabb.Compute` gives for a list. */
  function BoxOf(points: seq<Vector2>): Aabbs.Aabb
  {
    if |points| == 0 then Aabbs.Default else Aabbs.Hull(points)
  }

  /** The bounding circle `BoundingCircle.Compute(points, center)` gives. */
  function CircleOf(points: seq<Vector2>, center: Vector2, sqrt: real -> real): BoundingCircles.BoundingCircle
  {
    if |points| == 0 then BoundingCircles.Default
    else BoundingCircles.BoundingCircle(center, sqrt(BoundingCircles.Farthest(points, center)) + LooseEpsilonF)
  }

  class ColliderData {
    var Vertices: seq<Vector2>
    var Normals: seq<Vector2>
    var TopVertex: int
    var BottomVertex: int
    var BoundingBox: Aabbs.Aabb
    var BoundingCircle: BoundingCircles.BoundingCircle

    /** `new ColliderData()`: no vertices, no extremal vertex, default bounding volumes. */
    constructor()
      ensures Vertices == [] && Normals == [] && TopVertex == -1 && BottomVertex == -1
      ensures BoundingBox == Aabbs.Default && BoundingCircle == BoundingCircles.Default
    {
      Vertices := [];
      Normals := [];
      TopVertex := -1;
      BottomVertex := -1;
      BoundingBox := Aabbs.Default;
      BoundingCircle := BoundingCircles.Default;
    }

    /** `new ColliderData(vertices, optionalTransform)`: a fresh value filled by `SetVertices`. */
    constructor FromVertices(vertices: seq<Vector2>, optionalTransform: Option<Matrix>, apply: PointMap,
                             sqrt: real -> real, leftNormal: Vector2 -> Vector2, unit: Vector2 -> Vector2)
      ensures Vertices == Placed(vertices, optionalTransform, apply)
      ensures BoundingBox == BoxOf(vertices)
      ensures BoundingCircle == CircleOf(vertices, BoundingBox.Center(), sqrt)
      ensures BottomVertex == LastIndexOfY(Vertices, BoundingBox.Min.Y) && TopVertex == LastIndexOfY(Vertices, BoundingBox.Max.Y)
      ensures |Normals| == |Vertices|
      ensures forall i :: 0 <= i < |Normals| ==> Normals[i] == EdgeNormal(Vertices, i, leftNormal, unit)
    {
      Vertices := [];
      Normals := [];
      TopVertex := -1;
      BottomVertex := -1;
      BoundingBox := Aabbs.Default;
      BoundingCircle := BoundingCircles.Default;
      new;
      SetVertices(vertices, optionalTransform, apply, sqrt, leftNormal, unit);
    }

    /** `SetVertices(vertices, optionalTransform)`: copies (and places) the vertices, computes both
        bounding volumes from the caller's untransformed list, runs the winding check, finds the last
        bottom-most and top-most vertex, and computes one normal per vertex. */
    method SetVertices(vertices: seq<Vector2>, optionalTransform: Option<Matrix>, apply: PointMap,
                       sqrt: real -> real, leftNormal: Vector2 -> Vector2, unit: Vector2 -> Vector2)
      modifies this
      ensures Vertices == Placed(vertices, optionalTransform, apply)
      ensures BoundingBox == BoxOf(vertices)
      ensures BoundingCircle == CircleOf(vertices, BoundingBox.Center(), sqrt)
      ensures BottomVertex == LastIndexOfY(Vertices, BoundingBox.Min.Y)
      ensures TopVertex == LastIndexOfY(Vertices, BoundingBox.Max.Y)
      ensures |Normals| == |Vertices|
      ensures forall i :: 0 <= i < |Normals| ==> Normals[i] == EdgeNormal(Vertices, i, leftNormal, unit)
    {
      var placed := PlaceVertices(vertices, optionalTransform, apply);
      Vertices, Normals := placed, [];
      BoundingBox := Aabbs.Compute(vertices);
      BoundingCircle := BoundingCircles.Compute(vertices, BoundingBox.Center(), sqrt);
      if !IsClockwise(leftNormal) {
        FlipDirection();
      }
      BottomVertex, TopVertex := ExtremalVertices(Vertices, BoundingBox);
      ComputeNormals(leftNormal, unit);
    }

    /** `IsClockwise()`: true for fewer than three vertices; otherwise whether the left normal of the
        first edge points away from the box centre as seen from the first vertex. */
    function IsClockwise(leftNormal: Vector2 -> Vector2): (r: bool)
      reads this
      ensures |Vertices| < 3 ==> r
    {
      if |Vertices| < 3 then true
      else DotOp(leftNormal(Sub(Vertices[1], Vertices[0])), Sub(Vertices[0], BoundingBox.Center())) > 0.0
    }

    /** `FlipDirection()`: for every `i` in `1..n-1` swaps entries `i` and `n - i`. Each pair is swapped
        once from each end, so the list comes back exactly as it was. */
    method FlipDirection()
      modifies this
      ensures Vertices == old(Vertices)
      ensures Normals == old(Normals) && TopVertex == old(TopVertex) && BottomVertex == old(BottomVertex)
      ensures BoundingBox == old(BoundingBox) && BoundingCircle == old(BoundingCircle)
    {
      var vertices := Vertices;
      ghost var original := vertices;
      var n := |vertices|;
      if n > 0 {
        for i := 1 to n
          invariant |vertices| == n && vertices[0] == original[0]
          invariant forall k :: 1 <= k < n && (k < i) == (n - k < i) ==> vertices[k] == original[k]
          invariant forall k :: 1 <= k < n && (k < i) != (n - k < i) ==> vertices[k] == original[n - k]
        {
          var first := vertices[i];
          vertices := vertices[i := vertices[n - i]];
          vertices := vertices[n - i := first];
        }
      }
      assert vertices == original;
      Vertices := vertices;
    }

    /** `ComputeNormals()`: replaces `Normals` by the normal of each edge, in vertex order. */
    method ComputeNormals(leftNormal: Vector2 -> Vector2, unit: Vector2 -> Vector2)
      modifies this
      ensures |Normals| == |Vertices|
      ensures forall i :: 0 <= i < |Normals| ==> Normals[i] == EdgeNormal(Vertices, i, leftNormal, unit)
      ensures Vertices == old(Vertices) && TopVertex == old(TopVertex) && BottomVertex == old(BottomVertex)
      ensures BoundingBox == old(BoundingBox) && BoundingCircle == old(BoundingCircle)
    {
      var vertices := Vertices;
      var normals := [];
      for i := 0 to |vertices|
        invariant |normals| == i
        invariant forall k :: 0 <= k < i ==> normals[k] == EdgeNormal(vertices, k, leftNormal, unit)
      {
        normals := normals + [unit(leftNormal(Sub(vertices[(i + 1) % |vertices|], vertices[i])))];
      }
      Normals := normals;
    }

    /** `Wrap(index)`: -1 for an empty mesh, else `index` reduced so that `0 <= r < n`, negative indices included. */
    function Wrap(index: int): (r: int)
      reads this
      ensures |Vertices| == 0 ==> r == -1
      ensures |Vertices| > 0 ==> 0 <= r < |Vertices| && r == index % |Vertices|
    {
      if |Vertices| == 0 then -1
      else
        var reduced := Remainder(index, |Vertices|);
        var r := if reduced < 0 then reduced + |Vertices| else reduced;
        WrapIsModulo(index, |Vertices|, reduced, r);
        r
    }

    /** `VertexAt(index)`: throws on an empty mesh, else the vertex at the wrapped index. */
    function VertexAt(index: int): (r: Result<Vector2>)
      reads this
      ensures |Vertices| == 0 ==> r == Throws(Argument)
      ensures |Vertices| > 0 ==> r == Ok(Vertices[index % |Vertices|])
    {
      if |Vertices| == 0 then Throws(Argument) else Ok(Vertices[Wrap(index)])
    }

    /** `NormalAt(index)`: throws on an empty normal list; the index is wrapped by the vertex count, so
        a normal list out of step with the vertices makes the list indexer throw. */
    function NormalAt(index: int): (r: Result<Vector2>)
      reads this
      ensures |Normals| == 0 ==> r == Throws(Argument)
      ensures |Normals| > 0 && |Vertices| == 0 ==> r == Throws(ArgumentOutOfRange)
      ensures 0 < |Vertices| == |Normals| ==> r == Ok(Normals[index % |Vertices|])
    {
      if |Normals| == 0 then Throws(Argument)
      else
        var wrapped := Wrap(index);
        if 0 <= wrapped < |Normals| then Ok(Normals[wrapped]) else Throws(ArgumentOutOfRange)
    }
  }

  /** The copy at the start of `SetVertices`: each entry is overwritten by its transformed value when a
      matrix is supplied. */
  method PlaceVertices(vertices: seq<Vector2>, optionalTransform: Option<Matrix>, apply: PointMap)
    returns (placed: seq<Vector2>)
    ensures placed == Placed(vertices, optionalTransform, apply)
  {
    placed := vertices;
    if optionalTransform.Some? {
      var transform := optionalTransform.value;
      for i := 0 to |placed|
        invariant |placed| == |vertices|
        invariant forall k :: 0 <= k < i ==> placed[k] == apply(transform, vertices[k])
        invariant forall k :: i <= k < |placed| ==> placed[k] == vertices[k]
      {
        placed := placed[i := apply(transform, placed[i])];
      }
    }
  }

  /** The scan at the end of `SetVertices`: the last index at the bottom and at the top of the box. */
  method ExtremalVertices(vertices: seq<Vector2>, box: Aabbs.Aabb) returns (bottom: int, top: int)
    ensures bottom == LastIndexOfY(vertices, box.Min.Y) && top == LastIndexOfY(vertices, box.Max.Y)
  {
    bottom, top := -1, -1;
    for i := 0 to |vertices|
      invariant bottom == LastIndexOfY(vertices[..i], box.Min.Y)
      invariant top == LastIndexOfY(vertices[..i], box.Max.Y)
    {
      assert vertices[..i + 1][..i] == vertices[..i];
      if vertices[i].Y == box.Min.Y {
        bottom := i;
      }
      if vertices[i].Y == box.Max.Y {
        top := i;
      }
    }
    assert vertices[..|vertices|] == vertices;
  }

  /** Adding `n` to a negative C# remainder gives the Euclidean remainder. */
  lemma WrapIsModulo(index: int, n: int, reduced: int, r: int)
    requires n > 0 && reduced == Remainder(index, n) && r == (if reduced < 0 then reduced + n else reduced)
    ensures 0 <= r < n && r == index % n
  {
    var q := Quotient(index, n);
    assert index == q * n + reduced;
    if reduced < 0 {
      assert (q - 1) * n == q * n - n;
      ModOfMultiplePlus(q - 1, n, r);
    } else {
      ModOfMultiplePlus(q, n, r);
    }
  }

  /** With a non-empty list placed without a transform, both extremal vertices are real indices, at
      the bottom and the top of the bounding box. */
  lemma ExtremalVerticesExist(vertices: seq<Vector2>)
    requires |vertices| > 0
    ensures var box := BoxOf(vertices);
      0 <= LastIndexOfY(vertices, box.Min.Y) < |vertices| && 0 <= LastIndexOfY(vertices, box.Max.Y) < |vertices|
  {
    Aabbs.HullAttained(vertices);
    var box := BoxOf(vertices);
    var i :| 0 <= i < |vertices| && vertices[i].Y == box.Min.Y;
    var j :| 0 <= j < |vertices| && vertices[j].Y == box.Max.Y;
    assert LastIndexOfY(vertices, box.Min.Y) >= i;
    assert LastIndexOfY(vertices, box.Max.Y) >= j;
  }

  /** After `SetVertices` without a transform, the stored list is the input, so every vertex lies in
      the bounding box and, with a lawful square root, in the bounding circle. */
  lemma StoredVerticesBounded(vertices: seq<Vector2>, sqrt: real -> real)
    requires |vertices| > 0 && IsSqrt(sqrt)
    ensures forall i :: 0 <= i < |vertices| ==> BoxOf(vertices).Contains(vertices[i])
    ensures forall i :: 0 <= i < |vertices| ==> CircleOf(vertices, BoxOf(vertices).Center(), sqrt).Contains(vertices[i])
  {
    Aabbs.HullContainsAll(vertices);
    BoundingCircles.ComputeContainsAll(vertices, BoxOf(vertices).Center(), sqrt);
  }
}
