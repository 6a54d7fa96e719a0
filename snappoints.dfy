/**
 * SnapPoints.js: the set of snap points (intersections and tangencies of the
 * drawn shapes), kept in a spatial hash, with a list of points whose removal
 * waits for the next `flush`, and a nearest-point search whose radius shrinks
 * as the zoom grows.
 *
 * The geometry classes (Intersect, Tangency) are tables of routines named by
 * two shape names in alphabetical order; they are parameters here, as is
 * `Alberti.snapRadius`, which the constructor receives.
 */
module SnapPointStores {
  import opened Wrappers
  import opened Shapes
  import opened SpatialHashes
  import Zaps

  /** The action flags of `test`. */
  const InsertFlag: int := 0
  const DeleteFlag: int := 1
  const BulkDeleteFlag: int := 2
  const NopFlag: int := 3

  // ---------------------------------------------------------------------
  // Choosing the geometry routine for two shapes

  /** JavaScript `<` on strings: lexicographic by character code. */
  predicate LexLess(a: string, b: string)
  {
    if |a| == 0 then |b| > 0
    else if |b| == 0 then false
    else if a[0] != b[0] then a[0] < b[0]
    else LexLess(a[1..], b[1..])
  }

  /** `<` on strings is a strict total order. */
  lemma {:induction false} LexLessTotal(a: string, b: string)
    ensures !LexLess(a, a)
    ensures a != b ==> (LexLess(a, b) <==> !LexLess(b, a))
  {
    if |a| > 0 {
      LexLessTotal(a[1..], a[1..]);
    }
    if |a| > 0 && |b| > 0 && a[0] == b[0] {
      LexLessTotal(a[1..], b[1..]);
      if a != b {
        assert a == [a[0]] + a[1..] && b == [b[0]] + b[1..];
        assert a[1..] != b[1..];
      }
    }
  }

  /** A geometry class: routines, by name, giving the points two shapes share. */
  type GeometryTable = map<string, (Shape, Shape) -> seq<Coord>>

  /** The routine named `first.shapeName + second.shapeName` applied to the two, or no points when the class lacks it. */
  function Call(table: GeometryTable, first: Shape, second: Shape): (ps: seq<Coord>)
    ensures first.shapeName + second.shapeName !in table ==> ps == []
  {
    var name := first.shapeName + second.shapeName;
    if name in table then table[name](first, second) else []
  }

  /** The points of `shape` and `newShape`: the two go to the routine in the alphabetical order of their names. */
  function Dispatch(table: GeometryTable, shape: Shape, newShape: Shape): (ps: seq<Coord>)
  {
    if LexLess(shape.shapeName, newShape.shapeName) then Call(table, shape, newShape)
    else Call(table, newShape, shape)
  }

  /** For shapes of different kinds it does not matter which one is the new shape. */
  lemma DispatchSymmetric(table: GeometryTable, a: Shape, b: Shape)
    requires a.shapeName != b.shapeName
    ensures Dispatch(table, a, b) == Dispatch(table, b, a)
    ensures LexLess(a.shapeName, b.shapeName) ==> Dispatch(table, b, a) == Call(table, a, b)
  {
    LexLessTotal(a.shapeName, b.shapeName);
  }

  /** The shapes of `shapes` (nulls skipped) that share a point with `newShape`, in order. */
  function Intersectors(table: GeometryTable, newShape: Shape, shapes: seq<Shape?>): seq<Shape>
  {
    if |shapes| == 0 then []
    else
      var init := shapes[..|shapes| - 1];
      var s := shapes[|shapes| - 1];
      if s != null && Dispatch(table, s, newShape) != [] then Intersectors(table, newShape, init) + [s]
      else Intersectors(table, newShape, init)
  }

  /** The intersection points of one entry of the list with `newShape`: none for a null entry. */
  function ShapePoints(table: GeometryTable, newShape: Shape, s: Shape?): seq<Coord>
  {
    if s != null then Dispatch(table, s, newShape) else []
  }

  /** All points `newShape` shares with the shapes of `shapes`, shape by shape. */
  function AllPoints(table: GeometryTable, newShape: Shape, shapes: seq<Shape?>): seq<Coord>
  {
    if |shapes| == 0 then []
    else
      var init := shapes[..|shapes| - 1];
      var s := shapes[|shapes| - 1];
      AllPoints(table, newShape, init) + ShapePoints(table, newShape, s)
  }

  /**
   * The intersectors are exactly the non-null shapes of the list that share
   * a point with `newShape`, at most one per entry.
   */
  lemma {:induction false} IntersectorsMembers(table: GeometryTable, newShape: Shape, shapes: seq<Shape?>)
    ensures var r := Intersectors(table, newShape, shapes);
      |r| <= |shapes| &&
      (forall j :: 0 <= j < |r| ==> r[j] in shapes && Dispatch(table, r[j], newShape) != []) &&
      (forall i :: 0 <= i < |shapes| && shapes[i] != null && Dispatch(table, shapes[i], newShape) != [] ==> shapes[i] in r)
    decreases |shapes|
  {
    if |shapes| > 0 {
      var init := shapes[..|shapes| - 1];
      IntersectorsMembers(table, newShape, init);
      var r := Intersectors(table, newShape, shapes);
      forall i | 0 <= i < |shapes| && shapes[i] != null && Dispatch(table, shapes[i], newShape) != []
        ensures shapes[i] in r
      {
        if i < |shapes| - 1 {
          assert init[i] == shapes[i];
        }
      }
    }
  }

  /** One more entry of the list adds its points, and itself when it has any, at the end. */
  lemma PrefixStep(table: GeometryTable, newShape: Shape, shapes: seq<Shape?>, i: nat)
    requires i < |shapes|
    ensures AllPoints(table, newShape, shapes[..i + 1]) ==
      AllPoints(table, newShape, shapes[..i]) + ShapePoints(table, newShape, shapes[i])
    ensures Intersectors(table, newShape, shapes[..i + 1]) ==
      Intersectors(table, newShape, shapes[..i]) + (if ShapePoints(table, newShape, shapes[i]) != [] then [shapes[i]] else [])
  {
    assert shapes[..i + 1][..i] == shapes[..i];
  }

  /** There are no points exactly when there are no intersectors. */
  lemma {:induction false} AllPointsEmpty(table: GeometryTable, newShape: Shape, shapes: seq<Shape?>)
    ensures AllPoints(table, newShape, shapes) == [] <==> Intersectors(table, newShape, shapes) == []
    decreases |shapes|
  {
    if |shapes| > 0 {
      AllPointsEmpty(table, newShape, shapes[..|shapes| - 1]);
    }
  }

  /** Every point comes from a non-null shape of the list. */
  lemma {:induction false} AllPointsSound(table: GeometryTable, newShape: Shape, shapes: seq<Shape?>)
    ensures forall p | p in AllPoints(table, newShape, shapes) ::
      exists i :: 0 <= i < |shapes| && shapes[i] != null && p in Dispatch(table, shapes[i], newShape)
    decreases |shapes|
  {
    if |shapes| > 0 {
      var init, n := shapes[..|shapes| - 1], |shapes| - 1;
      AllPointsSound(table, newShape, init);
      forall p | p in AllPoints(table, newShape, shapes)
        ensures exists i :: 0 <= i < |shapes| && shapes[i] != null && p in Dispatch(table, shapes[i], newShape)
      {
        if p in AllPoints(table, newShape, init) {
          var i :| 0 <= i < |init| && init[i] != null && p in Dispatch(table, init[i], newShape);
          assert shapes[i] == init[i];
        } else {
          assert shapes[n] != null && p in Dispatch(table, shapes[n], newShape);
        }
      }
    }
  }

  /** Every point of every non-null shape of the list is among the points. */
  lemma {:induction false} AllPointsComplete(table: GeometryTable, newShape: Shape, shapes: seq<Shape?>)
    ensures forall i, p | 0 <= i < |shapes| && shapes[i] != null && p in Dispatch(table, shapes[i], newShape) ::
      p in AllPoints(table, newShape, shapes)
    decreases |shapes|
  {
    if |shapes| > 0 {
      var init, n := shapes[..|shapes| - 1], |shapes| - 1;
      AllPointsComplete(table, newShape, init);
      forall i, p | 0 <= i < n && shapes[i] != null && p in Dispatch(table, shapes[i], newShape)
        ensures p in AllPoints(table, newShape, shapes)
      {
        assert init[i] == shapes[i];
      }
    }
  }

  // ---------------------------------------------------------------------
  // The effect of one action on the hash and on the deletion list

  /**
   * What `test` does with the points `ps` under `action`: insert them, remove
   * them, queue them for `flush`, or nothing (any other flag, `nopFlag`
   * included). `m` are the hash counts, `d` the deletion list.
   */
  predicate Applied(action: int, m0: map<Coord, nat>, d0: seq<Coord>, m1: map<Coord, nat>, d1: seq<Coord>, ps: seq<Coord>)
  {
    if action == InsertFlag then m1 == InsertAll(m0, ps) && d1 == d0
    else if action == DeleteFlag then m1 == RemoveCounts(m0, ps) && d1 == d0
    else if action == BulkDeleteFlag then m1 == m0 && d1 == d0 + ps
    else m1 == m0 && d1 == d0
  }

  /** Applying an action to `ps` and then to `qs` is applying it to `ps + qs`. */
  lemma AppliedAppend(action: int, m0: map<Coord, nat>, d0: seq<Coord>, m1: map<Coord, nat>, d1: seq<Coord>,
                      m2: map<Coord, nat>, d2: seq<Coord>, ps: seq<Coord>, qs: seq<Coord>)
    requires Applied(action, m0, d0, m1, d1, ps) && Applied(action, m1, d1, m2, d2, qs)
    ensures Applied(action, m0, d0, m2, d2, ps + qs)
  {
    if action == InsertFlag {
      InsertAllAppend(m0, ps, qs);
    } else if action == DeleteFlag {
      RemoveCountsAppend(m0, ps, qs);
    } else if action == BulkDeleteFlag {
      assert d0 + ps + qs == d0 + (ps + qs);
    }
  }

  /** Points inserted by one call and deleted by another, in any order, leave the counts as they were. */
  lemma InsertThenDeleteRestores(m0: map<Coord, nat>, d: seq<Coord>, m1: map<Coord, nat>, m2: map<Coord, nat>,
                                 ps: seq<Coord>, qs: seq<Coord>)
    requires Positive(m0) && multiset(qs) == multiset(ps)
    requires Applied(InsertFlag, m0, d, m1, d, ps) && Applied(DeleteFlag, m1, d, m2, d, qs)
    ensures m2 == m0
  {
    InsertAllRemoveAll(m0, ps, qs);
  }

  /** A bulk delete followed by `flush` removes the same instances as a delete followed by `flush`. */
  lemma BulkDeleteThenFlush(m0: map<Coord, nat>, d0: seq<Coord>, m1: map<Coord, nat>, d1: seq<Coord>, ps: seq<Coord>)
    requires Applied(BulkDeleteFlag, m0, d0, m1, d1, ps)
    ensures RemoveCounts(m1, d1) == RemoveCounts(RemoveCounts(m0, d0), ps)
  {
    RemoveCountsAppend(m0, d0, ps);
  }

  /** The `switch (action)` of `test` for the points of one shape. */
  method ApplyAction(h: SpatialHash, deleted: seq<Coord>, ps: seq<Coord>, action: int) returns (deleted': seq<Coord>)
    requires h.Valid()
    modifies h
    ensures h.Valid()
    ensures Applied(action, old(h.Counts()), deleted, h.Counts(), deleted', ps)
    ensures action != InsertFlag && action != DeleteFlag ==> unchanged(h)
  {
    deleted' := deleted;
    if action == InsertFlag {
      InsertEach(h, ps);
    } else if action == DeleteFlag {
      RemoveEach(h, ps);
    } else if action == BulkDeleteFlag {
      var j := 0;
      while j < |ps|
        invariant 0 <= j <= |ps|
        invariant deleted' == deleted + ps[..j]
      {
        assert ps[..j + 1] == ps[..j] + [ps[j]];
        deleted' := deleted' + [ps[j]];
        j := j + 1;
      }
      assert ps[..j] == ps;
    }
  }

  /** `insert` of each point, in order. */
  method InsertEach(h: SpatialHash, ps: seq<Coord>)
    requires h.Valid()
    modifies h
    ensures h.Valid()
    ensures h.Counts() == InsertAll(old(h.Counts()), ps)
  {
    var j := 0;
    while j < |ps|
      invariant 0 <= j <= |ps|
      invariant h.Valid()
      invariant h.Counts() == InsertAll(old(h.Counts()), ps[..j])
    {
      assert ps[..j + 1][..j] == ps[..j];
      ghost var m := h.Counts();
      h.Insert(ps[j]);
      assert h.Counts() == InsertAll(old(h.Counts()), ps[..j + 1]) by {
        assert InsertAll(old(h.Counts()), ps[..j + 1]) == InsertCount(InsertAll(old(h.Counts()), ps[..j]), ps[j]);
      }
      j := j + 1;
    }
    assert ps[..j] == ps;
  }

  /** `remove([p])` for each point `p`, in order. */
  method RemoveEach(h: SpatialHash, ps: seq<Coord>)
    requires h.Valid()
    modifies h
    ensures h.Valid()
    ensures h.Counts() == RemoveCounts(old(h.Counts()), ps)
  {
    var j := 0;
    while j < |ps|
      invariant 0 <= j <= |ps|
      invariant h.Valid()
      invariant h.Counts() == RemoveCounts(old(h.Counts()), ps[..j])
    {
      assert ps[..j + 1][..j] == ps[..j];
      ghost var m := h.Counts();
      assert RemoveCounts(m, [ps[j]]) == RemoveCount(m, ps[j]) by {
        assert [ps[j]][..0] == [];
      }
      h.Remove([ps[j]]);
      j := j + 1;
    }
    assert ps[..j] == ps;
  }

  // ---------------------------------------------------------------------
  // Nearest candidate

  /** Squared distance: it orders points as `Coord2D.distanceTo` does. */
  function Dist2(a: Coord, b: Coord): nat
  {
    (a.x - b.x) * (a.x - b.x) + (a.y - b.y) * (a.y - b.y)
  }

  /** A point other than the excluded one (`isEqual` on the integer grid is equality). */
  predicate Candidate(c: Coord, exclude: Option<Coord>)
  {
    exclude.None? || c != exclude.value
  }

  /**
   * The loop of `getNearestNeighbor`: the index of the first candidate at the
   * least distance from `q`, or -1 when there is none.
   */
  method NearestIndex(cs: seq<Coord>, q: Coord, exclude: Option<Coord>) returns (best: int)
    ensures -1 <= best < |cs|
    ensures best == -1 <==> forall k :: 0 <= k < |cs| ==> !Candidate(cs[k], exclude)
    ensures best >= 0 ==> Candidate(cs[best], exclude)
    ensures best >= 0 ==> forall k :: 0 <= k < |cs| && Candidate(cs[k], exclude) ==> Dist2(q, cs[best]) <= Dist2(q, cs[k])
    ensures best >= 0 ==> forall k :: 0 <= k < best && Candidate(cs[k], exclude) ==> Dist2(q, cs[best]) < Dist2(q, cs[k])
  {
    best := -1;
    var i := 0;
    while i < |cs|
      invariant 0 <= i <= |cs|
      invariant -1 <= best < i
      invariant best == -1 <==> forall k :: 0 <= k < i ==> !Candidate(cs[k], exclude)
      invariant best >= 0 ==> Candidate(cs[best], exclude)
      invariant best >= 0 ==> forall k :: 0 <= k < i && Candidate(cs[k], exclude) ==> Dist2(q, cs[best]) <= Dist2(q, cs[k])
      invariant best >= 0 ==> forall k :: 0 <= k < best && Candidate(cs[k], exclude) ==> Dist2(q, cs[best]) < Dist2(q, cs[k])
    {
      // a strictly smaller distance is needed to replace the current best
      if Candidate(cs[i], exclude) && (best == -1 || Dist2(q, cs[i]) < Dist2(q, cs[best])) {
        best := i;
      }
      i := i + 1;
    }
  }

  /**
   * `n` is a nearest stored point to `q` in the search square other than
   * `exclude`, and is none exactly when no such point exists.
   */
  ghost predicate Nearest(n: Option<Coord>, m: map<Coord, nat>, q: Coord, radius: real, exclude: Option<Coord>)
  {
    (n.None? <==> forall p :: p in m && Within(p, q, radius) ==> !Candidate(p, exclude)) &&
    (n.Some? ==>
      n.value in m && Within(n.value, q, radius) && Candidate(n.value, exclude) &&
      forall p :: p in m && Within(p, q, radius) && Candidate(p, exclude) ==> Dist2(q, n.value) <= Dist2(q, p))
  }

  /**
   * What the loop of `getNearestNeighbor` picks from a search result `cs`:
   * none exactly when `cs` holds no candidate, otherwise the first
   * candidate of `cs` at the least distance from `q`.
   */
  ghost predicate NearestAmong(n: Option<Coord>, cs: seq<Coord>, q: Coord, exclude: Option<Coord>)
  {
    (n.None? <==> forall k :: 0 <= k < |cs| ==> !Candidate(cs[k], exclude)) &&
    (n.Some? ==>
      exists k :: 0 <= k < |cs| && cs[k] == n.value && Candidate(cs[k], exclude) &&
        (forall j :: 0 <= j < |cs| && Candidate(cs[j], exclude) ==> Dist2(q, cs[k]) <= Dist2(q, cs[j])) &&
        (forall j :: 0 <= j < k && Candidate(cs[j], exclude) ==> Dist2(q, cs[k]) < Dist2(q, cs[j])))
  }

  /** The index the loop of `getNearestNeighbor` computes picks what `NearestAmong` describes. */
  lemma NearestIndexAmong(cs: seq<Coord>, best: int, q: Coord, exclude: Option<Coord>)
    requires -1 <= best < |cs|
    requires best == -1 <==> forall k :: 0 <= k < |cs| ==> !Candidate(cs[k], exclude)
    requires best >= 0 ==> Candidate(cs[best], exclude)
    requires best >= 0 ==> forall k :: 0 <= k < |cs| && Candidate(cs[k], exclude) ==> Dist2(q, cs[best]) <= Dist2(q, cs[k])
    requires best >= 0 ==> forall k :: 0 <= k < best && Candidate(cs[k], exclude) ==> Dist2(q, cs[best]) < Dist2(q, cs[k])
    ensures NearestAmong(if best < 0 then None else Some(cs[best]), cs, q, exclude)
  {
  }

  /** The nearest candidate of a complete search result is a nearest stored point. */
  lemma NearestOfFound(near: seq<Coord>, best: int, m: map<Coord, nat>, q: Coord, radius: real, exclude: Option<Coord>)
    requires forall p :: p in near <==> p in m && Within(p, q, radius)
    requires -1 <= best < |near|
    requires best == -1 <==> forall k :: 0 <= k < |near| ==> !Candidate(near[k], exclude)
    requires best >= 0 ==> Candidate(near[best], exclude)
    requires best >= 0 ==> forall k :: 0 <= k < |near| && Candidate(near[k], exclude) ==> Dist2(q, near[best]) <= Dist2(q, near[k])
    ensures Nearest(if best < 0 then None else Some(near[best]), m, q, radius, exclude)
  {
    if best < 0 {
      forall p | p in m && Within(p, q, radius) ensures !Candidate(p, exclude) {
        var k :| 0 <= k < |near| && near[k] == p;
      }
    } else {
      assert near[best] in near;
      forall p | p in m && Within(p, q, radius) && Candidate(p, exclude) ensures Dist2(q, near[best]) <= Dist2(q, p) {
        var k :| 0 <= k < |near| && near[k] == p;
      }
    }
  }

  /** The bucket width the constructor gives the hash: `(snapRadius / zoomFactors[minZoomLevel]) * 2`. */
  function BucketWidth(snapRadius: int): (w: int)
    requires snapRadius > 0
    ensures w > 0
    ensures w as real == snapRadius as real / Zaps.ZoomFactors[Zaps.MinZoomLevel] * 2.0
  {
    10 * snapRadius
  }

  /** Multiplying by a positive number keeps the order. */
  lemma MulMonotone(a: real, b: real, c: real)
    requires c > 0.0
    ensures a < b <==> a * c < b * c
  {
    assert (b - a) * c == b * c - a * c;
    if a < b {
      assert (b - a) * c > 0.0;
    } else {
      assert (a - b) * c >= 0.0;
    }
  }

  /** The search radius `r / s` fits the bucket width `10 r` exactly when `s` is at least 1/5. */
  lemma RadiusFits(r: real, s: real)
    requires r > 0.0 && s > 0.0
    ensures r / s > 10.0 * r / 2.0 <==> s < 0.2
  {
    var q := r / s;
    var t := 5.0 * r;
    assert q * s == r;
    MulMonotone(t, q, s);
    assert t < q <==> t * s < q * s;
    assert t < q <==> t * s < r;
    MulMonotone(5.0 * s, 1.0, r);
    assert t * s == (5.0 * s) * r;
    assert 10.0 * r / 2.0 == t;
  }

  class SnapPoints {
    const snapRadius: int
    const points: SpatialHash
    var deletedPoints: seq<Coord>
    var snapRadiusScale: real

    ghost predicate Valid()
      reads this, points
    {
      snapRadius > 0 && points.Valid() && points.bucketWidth == BucketWidth(snapRadius)
    }

    /** An empty store whose hash fits searches at every zoom factor from the minimum up. */
    constructor (snapRadius: int)
      requires snapRadius > 0
      ensures Valid() && fresh(points)
      ensures this.snapRadius == snapRadius && points.Counts() == map[]
      ensures deletedPoints == [] && snapRadiusScale == 1.0
    {
      this.snapRadius := snapRadius;
      points := new SpatialHash(BucketWidth(snapRadius));
      deletedPoints := [];
      snapRadiusScale := 1.0;
    }

    /**
     * `test`: the shapes of `shapes` that share points with `newShape` and
     * all those points, each shape's points inserted, removed or queued for
     * deletion as `action` says.
     */
    method Test(table: GeometryTable, newShape: Shape, shapes: seq<Shape?>, action: int)
      returns (intersectors: seq<Shape>, allPoints: seq<Coord>)
      requires Valid()
      modifies this`deletedPoints, points
      ensures Valid() && snapRadiusScale == old(snapRadiusScale)
      ensures intersectors == Intersectors(table, newShape, shapes)
      ensures allPoints == AllPoints(table, newShape, shapes)
      ensures Applied(action, old(points.Counts()), old(deletedPoints), points.Counts(), deletedPoints, allPoints)
    {
      intersectors := [];
      allPoints := [];
      ghost var m0, d0 := points.Counts(), deletedPoints;
      var i := 0;
      while i < |shapes|
        invariant 0 <= i <= |shapes|
        invariant Valid() && snapRadiusScale == old(snapRadiusScale)
        invariant intersectors == Intersectors(table, newShape, shapes[..i])
        invariant allPoints == AllPoints(table, newShape, shapes[..i])
        invariant Applied(action, m0, d0, points.Counts(), deletedPoints, allPoints)
      {
        PrefixStep(table, newShape, shapes, i);
        var shape := shapes[i];
        var hit := TestOne(table, newShape, shape, action, m0, d0, allPoints);
        if hit {
          var s: Shape := shape;
          intersectors := intersectors + [s];
        }
        allPoints := allPoints + ShapePoints(table, newShape, shape);
        i := i + 1;
      }
      assert shapes[..i] == shapes;
    }

    /**
     * One round of `test`'s loop: a non-null shape's points with `newShape`
     * get the action, and the shape counts as an intersector when there is
     * at least one.
     */
    method TestOne(table: GeometryTable, newShape: Shape, shape: Shape?, action: int,
                   ghost m0: map<Coord, nat>, ghost d0: seq<Coord>, ghost done: seq<Coord>)
      returns (hit: bool)
      requires Valid() && Applied(action, m0, d0, points.Counts(), deletedPoints, done)
      modifies this`deletedPoints, points
      ensures Valid() && snapRadiusScale == old(snapRadiusScale)
      ensures hit <==> shape != null && Dispatch(table, shape, newShape) != []
      ensures Applied(action, m0, d0, points.Counts(), deletedPoints, done + ShapePoints(table, newShape, shape))
    {
      hit := false;
      if shape != null {
        var ps := Dispatch(table, shape, newShape);
        hit := |ps| > 0;
        ghost var m1, d1 := points.Counts(), deletedPoints;
        deletedPoints := ApplyAction(points, deletedPoints, ps, action);
        AppliedAppend(action, m0, d0, m1, d1, points.Counts(), deletedPoints, done, ps);
      } else {
        assert done + [] == done;
      }
    }

    /** `testIntersections`: `test` with the intersection routines. */
    method TestIntersections(intersect: GeometryTable, newShape: Shape, shapes: seq<Shape?>, action: int)
      returns (intersectors: seq<Shape>, allPoints: seq<Coord>)
      requires Valid()
      modifies this`deletedPoints, points
      ensures Valid() && snapRadiusScale == old(snapRadiusScale)
      ensures intersectors == Intersectors(intersect, newShape, shapes)
      ensures allPoints == AllPoints(intersect, newShape, shapes)
      ensures Applied(action, old(points.Counts()), old(deletedPoints), points.Counts(), deletedPoints, allPoints)
    {
      intersectors, allPoints := Test(intersect, newShape, shapes, action);
    }

    /** `testTangencies`: `test` with the tangency routines. */
    method TestTangencies(tangency: GeometryTable, newShape: Shape, shapes: seq<Shape?>, action: int)
      returns (intersectors: seq<Shape>, allPoints: seq<Coord>)
      requires Valid()
      modifies this`deletedPoints, points
      ensures Valid() && snapRadiusScale == old(snapRadiusScale)
      ensures intersectors == Intersectors(tangency, newShape, shapes)
      ensures allPoints == AllPoints(tangency, newShape, shapes)
      ensures Applied(action, old(points.Counts()), old(deletedPoints), points.Counts(), deletedPoints, allPoints)
    {
      intersectors, allPoints := Test(tangency, newShape, shapes, action);
    }

    /** The search radius `snapRadius / snapRadiusScale`. */
    function SearchRadius(): real
      reads this
      requires snapRadiusScale != 0.0
    {
      snapRadius as real / snapRadiusScale
    }

    /**
     * `getNearestNeighbor`: the first point nearest `coord`, other than
     * `exclude`, among those `search` returns, or none. It fails (the hash
     * rejects the radius; a zero scale makes it infinite) when the scale is
     * below the minimum zoom factor. As written, `search` can miss a stored
     * point of the search square (see `SpatialHashes.SearchCellsMissEdge`),
     * so the result is nearest among what the search found.
     */
    method GetNearestNeighbor(coord: Coord, exclude: Option<Coord>) returns (r: Result<Option<Coord>, string>)
      requires Valid()
      ensures r.Err? <==> 0.0 <= snapRadiusScale < Zaps.ZoomFactors[Zaps.MinZoomLevel]
      ensures r.Ok? ==>
        NearestAmong(r.value, Found(points.buckets, SearchCells(coord, SearchRadius(), points.bucketWidth), coord, SearchRadius()),
                     coord, exclude)
      ensures r.Ok? && r.value.Some? ==> r.value.value in points.Counts() && Within(r.value.value, coord, SearchRadius())
    {
      assert Zaps.ZoomFactors[Zaps.MinZoomLevel] == 0.2;
      if snapRadiusScale == 0.0 {
        return Err("Radius passed to SpatialHash::search must be no larger than half the bucket width.");
      }
      var qradius := snapRadius as real / snapRadiusScale;
      if snapRadiusScale > 0.0 {
        RadiusFits(snapRadius as real, snapRadiusScale);
      }
      var found := points.Search(coord, qradius);
      if found.Err? {
        return Err(found.error);
      }
      var near := found.value;
      var best := NearestIndex(near, coord, exclude);
      NearestIndexAmong(near, best, coord, exclude);
      if best >= 0 {
        assert near[best] in near;
      }
      r := Ok(if best < 0 then None else Some(near[best]));
    }

    /**
     * `getNearestNeighbor` over the corrected search: the stored point
     * nearest `coord` within the search square, other than `exclude`, or
     * none, with the same failure cases.
     */
    method GetNearestNeighborFixed(coord: Coord, exclude: Option<Coord>) returns (r: Result<Option<Coord>, string>)
      requires Valid()
      ensures r.Err? <==> 0.0 <= snapRadiusScale < Zaps.ZoomFactors[Zaps.MinZoomLevel]
      ensures r.Ok? ==> Nearest(r.value, points.Counts(), coord, SearchRadius(), exclude)
    {
      assert Zaps.ZoomFactors[Zaps.MinZoomLevel] == 0.2;
      if snapRadiusScale == 0.0 {
        return Err("Radius passed to SpatialHash::search must be no larger than half the bucket width.");
      }
      var qradius := snapRadius as real / snapRadiusScale;
      if snapRadiusScale > 0.0 {
        RadiusFits(snapRadius as real, snapRadiusScale);
      }
      var found := points.SearchFixed(coord, qradius);
      if found.Err? {
        return Err(found.error);
      }
      var near := found.value;
      var best := NearestIndex(near, coord, exclude);
      NearestOfFound(near, best, points.Counts(), coord, qradius, exclude);
      if best < 0 {
        r := Ok(None);
      } else {
        r := Ok(Some(near[best]));
      }
    }

    /** `flush`: the queued points leave the hash and the queue empties. */
    method Flush()
      requires Valid()
      modifies this`deletedPoints, points
      ensures Valid() && snapRadiusScale == old(snapRadiusScale)
      ensures points.Counts() == RemoveCounts(old(points.Counts()), old(deletedPoints))
      ensures deletedPoints == []
    {
      points.Remove(deletedPoints);
      deletedPoints := [];
    }

    /** `setSnapRadiusScale`. */
    method SetSnapRadiusScale(scale: real)
      modifies this`snapRadiusScale
      ensures snapRadiusScale == scale
    {
      snapRadiusScale := scale;
    }
  }
}
