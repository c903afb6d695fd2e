/** `ColliderAsset`: an untransformed collider shape that works directly on the vertex list its caller
    hands over, rather than on a copy. */
module ColliderAssets {
  import opened FloatUtils
  import opened Vectors
  import Lists
  import Aabbs
  import BoundingCircles
  import ColliderDatas

  /** The circle `ComputeBoundingCircle` gives: no epsilon is added to the root of the farthest
      squared distance. */
  function TightCircle(points: seq<Vector2>, center: Vector2, sqrt: real -> real): BoundingCircles.BoundingCircle
  {
    if |points| == 0 then BoundingCircles.Default
    else BoundingCircles.BoundingCircle(center, sqrt(BoundingCircles.Farthest(points, center)))
  }

  class ColliderAsset {
    var Vertices: Lists.List<Vector2>
    var Normals: Lists.List<Vector2>
    var TopVertex: int
    var BottomVertex: int
    var BoundingBox: Aabbs.Aabb
    var BoundingCircle: BoundingCircles.BoundingCircle

    /** A new asset: two fresh empty lists, no extremal vertex, default volumes. */
    constructor()
      ensures fresh(Vertices) && fresh(Normals) && Vertices != Normals
      ensures Vertices.Items == [] && Normals.Items == []
      ensures TopVertex == -1 && BottomVertex == -1
      ensures BoundingBox == Aabbs.Default && BoundingCircle == BoundingCircles.Default
    {
      Vertices := new Lists.List();
      Normals := new Lists.List();
      TopVertex := -1;
      BottomVertex := -1;
      BoundingBox := Aabbs.Default;
      BoundingCircle := BoundingCircles.Default;
    }

    /** `SetVertices(vertices)`: adopts the caller's list itself, gives `Normals` a fresh list, computes
        the box and then the circle around the new box's centre, runs the winding check, and ends in
        `ComputeNormals`, which empties the adopted list; so the caller's list comes back empty. */
    method SetVertices(vertices: Lists.List<Vector2>, sqrt: real -> real)
      modifies this, vertices
      ensures Vertices == vertices && fresh(Normals) && Normals.Items == []
      ensures BoundingBox == ColliderDatas.BoxOf(old(vertices.Items))
      ensures BoundingCircle == TightCircle(old(vertices.Items), BoundingBox.Center(), sqrt)
      ensures vertices.Items == []
      ensures TopVertex == old(TopVertex) && BottomVertex == old(BottomVertex)
    {
      Adopt(vertices, sqrt);
      if !IsClockwise() {
        FlipDirection();
      }
      ComputeNormals();
    }

    /** The first half of `SetVertices`: the caller's list is adopted, `Normals` gets a fresh list,
        and the two volumes are computed from the adopted list. */
    method Adopt(vertices: Lists.List<Vector2>, sqrt: real -> real)
      modifies this
      ensures Vertices == vertices && fresh(Normals) && Normals.Items == []
      ensures BoundingBox == ColliderDatas.BoxOf(vertices.Items)
      ensures BoundingCircle == TightCircle(vertices.Items, BoundingBox.Center(), sqrt)
      ensures TopVertex == old(TopVertex) && BottomVertex == old(BottomVertex)
    {
      AdoptBox(vertices);
      ComputeBoundingCircle(sqrt);
    }

    /** The list assignments of `SetVertices` followed by `ComputeAabb`. */
    method AdoptBox(vertices: Lists.List<Vector2>)
      modifies this
      ensures Vertices == vertices && fresh(Normals) && Normals.Items == []
      ensures BoundingBox == ColliderDatas.BoxOf(vertices.Items)
      ensures TopVertex == old(TopVertex) && BottomVertex == old(BottomVertex)
    {
      Vertices := vertices;
      Normals := new Lists.List();
      ComputeAabb();
    }

    /** `ComputeAabb()`: the default box for no vertices, else the min/max fold from the first vertex. */
    method ComputeAabb()
      modifies this
      ensures BoundingBox == ColliderDatas.BoxOf(Vertices.Items)
      ensures Vertices == old(Vertices) && Normals == old(Normals) && BoundingCircle == old(BoundingCircle)
      ensures TopVertex == old(TopVertex) && BottomVertex == old(BottomVertex)
    {
      var points := Vertices.Items;
      if |points| == 0 {
        BoundingBox := Aabbs.Default;
        return;
      }
      var min, max := points[0], points[0];
      for i := 1 to |points|
        invariant Aabbs.Hull(points[..i]) == Aabbs.Aabb(Vector2(min.X, min.Y, 1.0), Vector2(max.X, max.Y, 1.0))
      {
        assert points[..i + 1][..i] == points[..i];
        var vertex := points[i];
        min := Vector2(FloatUtils.Min(min.X, vertex.X), FloatUtils.Min(min.Y, vertex.Y), 1.0);
        max := Vector2(FloatUtils.Max(max.X, vertex.X), FloatUtils.Max(max.Y, vertex.Y), 1.0);
      }
      assert points[..|points|] == points;
      Aabbs.FromOrderedCorners(min, max);
      BoundingBox := Aabbs.FromCorners(min, max);
    }

    /** `ComputeBoundingCircle()`: the default circle for no vertices, else the circle about the box
        centre through the farthest vertex. */
    method ComputeBoundingCircle(sqrt: real -> real)
      modifies this
      ensures BoundingCircle == TightCircle(Vertices.Items, BoundingBox.Center(), sqrt)
      ensures Vertices == old(Vertices) && Normals == old(Normals) && BoundingBox == old(BoundingBox)
      ensures TopVertex == old(TopVertex) && BottomVertex == old(BottomVertex)
    {
      var points := Vertices.Items;
      if |points| == 0 {
        BoundingCircle := BoundingCircles.Default;
        return;
      }
      var center := BoundingBox.Center();
      var farthestDistance := 0.0;
      for i := 0 to |points|
        invariant farthestDistance == BoundingCircles.Farthest(points[..i], center)
      {
        assert points[..i + 1][..i] == points[..i];
        var distance := Sub(points[i], center).LengthSquared();
        if distance > farthestDistance {
          farthestDistance := distance;
        }
      }
      assert points[..|points|] == points;
      BoundingCircle := BoundingCircles.BoundingCircle(center, sqrt(farthestDistance));
    }

    /** `IsClockwise()`: true for fewer than three vertices, else whether the first edge points away
        from the box centre as seen from the first vertex. */
    function IsClockwise(): (r: bool)
      reads this, Vertices
      ensures |Vertices.Items| < 3 ==> r
      ensures |Vertices.Items| >= 3 ==> (r <==> Sub(Vertices.Items[1], Vertices.Items[0]).Dot(Sub(Vertices.Items[0], BoundingBox.Center())) > 0.0)
    {
      var points := Vertices.Items;
      if |points| < 3 then true
      else DotOp(Sub(points[1], points[0]), Sub(points[0], BoundingBox.Center())) > 0.0
    }

    /** `FlipDirection()`: the same double swap as `ColliderData.FlipDirection`, on the adopted list
        in place; the list comes back exactly as it was. */
    method FlipDirection()
      modifies Vertices
      ensures Vertices.Items == old(Vertices.Items)
    {
      ghost var original := Vertices.Items;
      var n := Vertices.Count();
      if n > 0 {
        for i := 1 to n
          invariant |Vertices.Items| == n && Vertices.Items[0] == original[0]
          invariant forall k :: 1 <= k < n && (k < i) == (n - k < i) ==> Vertices.Items[k] == original[k]
          invariant forall k :: 1 <= k < n && (k < i) != (n - k < i) ==> Vertices.Items[k] == original[n - k]
        {
          var first := Vertices.Items[i];
          Vertices.Set(i, Vertices.Items[n - i]);
          Vertices.Set(n - i, first);
        }
      }
      assert Vertices.Items == original;
    }

    /** `ComputeNormals()`: clears the vertex list (not the normals); the loop that should then fill in
        the normals is bounded by the now-zero vertex count and so never runs. */
    method ComputeNormals()
      modifies Vertices
      ensures Vertices.Items == []
    {
      Vertices.Clear();
    }
  }

  /** With a lawful square root, the tight circle holds every point: each squared distance is at most
      the squared radius. */
  lemma TightCircleHoldsAll(points: seq<Vector2>, center: Vector2, sqrt: real -> real)
    requires IsSqrt(sqrt) && |points| > 0
    ensures var c := TightCircle(points, center, sqrt);
      c.Center == center && c.Radius >= 0.0 && forall i :: 0 <= i < |points| ==> c.Contains(points[i])
  {
    var farthest := BoundingCircles.Farthest(points, center);
    BoundingCircles.FarthestIsMaximum(points, center);
    var c := TightCircle(points, center, sqrt);
    assert c.Radius == sqrt(farthest) && c.RadiusSquared() == farthest;
    forall i | 0 <= i < |points|
      ensures c.Contains(points[i])
    {
      assert BoundingCircles.DistanceSquared(points[i], center) <= farthest;
    }
  }

  /** The value the adopted list held decides both volumes, and the circle is centred in the box. */
  lemma VolumesFromCallerList(points: seq<Vector2>, sqrt: real -> real)
    requires |points| > 0
    ensures var box := ColliderDatas.BoxOf(points);
      TightCircle(points, box.Center(), sqrt).Center == box.Center() && box.Contains(box.Center())
      && forall i :: 0 <= i < |points| ==> box.Contains(points[i])
  {
    Aabbs.HullContainsAll(points);
    BoundingCircles.CenterInsideBox(points);
  }
}
