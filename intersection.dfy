/**
 * Intersection.js (its bookkeeping half): the intersection points of the
 * drawn shapes in a spatial hash, kept up to date by `testShape` under the
 * same insert / delete / bulk-delete / nop protocol as SnapPoints, with a
 * deferred `flush` and a nearest-intersection search. The routines that
 * compute intersections are the geometry table parameter.
 */
module Intersections {
  import opened Wrappers
  import opened Shapes
  import opened SpatialHashes
  import opened SnapPointStores

  /** `Intersection.searchRadius`. */
  const SearchRadiusBase: int := 20

  class Intersection {
    const points: SpatialHash
    var deletedPoints: seq<Coord>
    var searchRadiusScale: real

    ghost predicate Valid()
      reads this, points
    {
      points.Valid() && points.bucketWidth == BucketWidth(SearchRadiusBase)
    }

    /** An empty store whose hash (width 200) fits searches at every zoom factor from the minimum up. */
    constructor ()
      ensures Valid() && fresh(points)
      ensures points.Counts() == map[] && points.bucketWidth == 200
      ensures deletedPoints == [] && searchRadiusScale == 1.0
    {
      points := new SpatialHash(BucketWidth(SearchRadiusBase));
      deletedPoints := [];
      searchRadiusScale := 1.0;
    }

    /**
     * `testShape`: the shapes of `shapes` that intersect `newShape`; each
     * shape's intersection points are inserted, removed or queued for
     * deletion as `action` says.
     */
    method TestShape(table: GeometryTable, newShape: Shape, shapes: seq<Shape?>, action: int)
      returns (intersectors: seq<Shape>)
      requires Valid()
      modifies this`deletedPoints, points
      ensures Valid() && searchRadiusScale == old(searchRadiusScale)
      ensures intersectors == Intersectors(table, newShape, shapes)
      ensures Applied(action, old(points.Counts()), old(deletedPoints), points.Counts(), deletedPoints,
                      AllPoints(table, newShape, shapes))
    {
      intersectors := [];
      ghost var allPoints: seq<Coord> := [];
      ghost var m0, d0 := points.Counts(), deletedPoints;
      var i := 0;
      while i < |shapes|
        invariant 0 <= i <= |shapes|
        invariant Valid() && searchRadiusScale == old(searchRadiusScale)
        invariant intersectors == Intersectors(table, newShape, shapes[..i])
        invariant allPoints == AllPoints(table, newShape, shapes[..i])
        invariant Applied(action, m0, d0, points.Counts(), deletedPoints, allPoints)
      {
        PrefixStep(table, newShape, shapes, i);
        var shape := shapes[i];
        var hit := TestOne(table, newShape, shape, action, m0, d0, allPoints);
        if hit {
          var s: Shape := shape;
          intersectors := intersectors + [s];
        }
        allPoints := allPoints + ShapePoints(table, newShape, shape);
        i := i + 1;
      }
      assert shapes[..i] == shapes;
    }

    /**
     * One round of `testShape`'s loop: a non-null shape's intersection
     * points with `newShape` get the action, and the shape counts as an
     * intersector when there is at least one.
     */
    method TestOne(table: GeometryTable, newShape: Shape, shape: Shape?, action: int,
                   ghost m0: map<Coord, nat>, ghost d0: seq<Coord>, ghost done: seq<Coord>)
      returns (hit: bool)
      requires Valid() && Applied(action, m0, d0, points.Counts(), deletedPoints, done)
      modifies this`deletedPoints, points
      ensures Valid()
      ensures hit <==> shape != null && Dispatch(table, shape, newShape) != []
      ensures Applied(action, m0, d0, points.Counts(), deletedPoints, done + ShapePoints(table, newShape, shape))
    {
      hit := false;
      if shape != null {
        var ps := Dispatch(table, shape, newShape);
        hit := |ps| > 0;
        ghost var m1, d1 := points.Counts(), deletedPoints;
        deletedPoints := ApplyAction(points, deletedPoints, ps, action);
        AppliedAppend(action, m0, d0, m1, d1, points.Counts(), deletedPoints, done, ps);
      } else {
        assert done + [] == done;
      }
    }

    /** The search radius `searchRadius / searchRadiusScale`. */
    function SearchRadius(): real
      reads this
      requires searchRadiusScale != 0.0
    {
      SearchRadiusBase as real / searchRadiusScale
    }

    /**
     * `getNearbyIntersection`: the first point nearest `coord` among those
     * `search` returns, or none; it fails when the scale is below the
     * minimum zoom factor (a zero scale makes the radius infinite). As
     * written, `search` can miss a stored point of the search square (see
     * `SpatialHashes.SearchCellsMissEdge`), so the result is nearest among
     * what the search found.
     */
    method GetNearbyIntersection(coord: Coord) returns (r: Result<Option<Coord>, string>)
      requires Valid()
      ensures r.Err? <==> 0.0 <= searchRadiusScale < 0.2
      ensures r.Ok? ==>
        NearestAmong(r.value, Found(points.buckets, SearchCells(coord, SearchRadius(), points.bucketWidth), coord, SearchRadius()),
                     coord, None)
      ensures r.Ok? && r.value.Some? ==> r.value.value in points.Counts() && Within(r.value.value, coord, SearchRadius())
    {
      if searchRadiusScale == 0.0 {
        return Err("Radius passed to SpatialHash::search must be no larger than half the bucket width.");
      }
      var qradius := SearchRadiusBase as real / searchRadiusScale;
      if searchRadiusScale > 0.0 {
        RadiusFits(SearchRadiusBase as real, searchRadiusScale);
      }
      var found := points.Search(coord, qradius);
      if found.Err? {
        return Err(found.error);
      }
      var near := found.value;
      var best := NearestIndex(near, coord, None);
      NearestIndexAmong(near, best, coord, None);
      if best >= 0 {
        assert near[best] in near;
      }
      r := Ok(if best < 0 then None else Some(near[best]));
    }

    /**
     * `getNearbyIntersection` over the corrected search: the stored
     * intersection nearest `coord` within the search square, or none, with
     * the same failure cases.
     */
    method GetNearbyIntersectionFixed(coord: Coord) returns (r: Result<Option<Coord>, string>)
      requires Valid()
      ensures r.Err? <==> 0.0 <= searchRadiusScale < 0.2
      ensures r.Ok? ==> Nearest(r.value, points.Counts(), coord, SearchRadius(), None)
    {
      if searchRadiusScale == 0.0 {
        return Err("Radius passed to SpatialHash::search must be no larger than half the bucket width.");
      }
      var qradius := SearchRadiusBase as real / searchRadiusScale;
      if searchRadiusScale > 0.0 {
        RadiusFits(SearchRadiusBase as real, searchRadiusScale);
      }
      var found := points.SearchFixed(coord, qradius);
      if found.Err? {
        return Err(found.error);
      }
      var near := found.value;
      var best := NearestIndex(near, coord, None);
      NearestOfFound(near, best, points.Counts(), coord, qradius, None);
      if best < 0 {
        r := Ok(None);
      } else {
        r := Ok(Some(near[best]));
      }
    }

    /** `flush`: the queued points leave the hash and the queue empties. */
    method Flush()
      requires Valid()
      modifies this, points
      ensures Valid() && searchRadiusScale == old(searchRadiusScale)
      ensures points.Counts() == RemoveCounts(old(points.Counts()), old(deletedPoints))
      ensures deletedPoints == []
    {
      points.Remove(deletedPoints);
      deletedPoints := [];
    }

    /** `setSearchRadiusScale`. */
    method SetSearchRadiusScale(scale: real)
      modifies this`searchRadiusScale
      ensures searchRadiusScale == scale
    {
      searchRadiusScale := scale;
    }
  }
}
