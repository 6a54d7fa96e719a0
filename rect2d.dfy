/** Rect2D.js: an axis-aligned rectangle given by left, top, right and bottom. */
module Rect2D {

  datatype Coord2D = Coord2D(x: real, y: real)

  datatype Rect = Rect(left: real, top: real, right: real, bottom: real)
  {
    /** Left is not right of right and top is not below bottom. */
    predicate WellFormed()
    {
      left <= right && top <= bottom
    }

    /** `clone`: a rectangle with the same four sides. */
    function Clone(): (r: Rect)
      ensures r.left == left && r.top == top && r.right == right && r.bottom == bottom
    {
      Rect(left, top, right, bottom)
    }

    /** `intersectsRect`: the two closed rectangles overlap or touch. */
    predicate IntersectsRect(other: Rect)
    {
      !(other.left > right || other.right < left || other.top > bottom || other.bottom < top)
    }

    /** `enclosesRect`: `other` lies strictly inside this rectangle. */
    predicate EnclosesRect(other: Rect)
    {
      left < other.left && right > other.right && top < other.top && bottom > other.bottom
    }
  }

  function Min(a: real, b: real): real { if a <= b then a else b }
  function Max(a: real, b: real): real { if a <= b then b else a }

  /** `Rect2D.fromPoints`: the rectangle with the two points as opposite corners. */
  function FromPoints(p1: Coord2D, p2: Coord2D): (r: Rect)
    ensures r.WellFormed()
    ensures (r.left == p1.x && r.right == p2.x) || (r.left == p2.x && r.right == p1.x)
    ensures (r.top == p1.y && r.bottom == p2.y) || (r.top == p2.y && r.bottom == p1.y)
  {
    Rect(Min(p1.x, p2.x), Min(p1.y, p2.y), Max(p1.x, p2.x), Max(p1.y, p2.y))
  }

  lemma FromPointsSymmetric(p1: Coord2D, p2: Coord2D)
    ensures FromPoints(p1, p2) == FromPoints(p2, p1)
  {
  }

  /** Both corners lie on the boundary of, hence inside, the rectangle. */
  lemma FromPointsContainsCorners(p1: Coord2D, p2: Coord2D)
    ensures var r := FromPoints(p1, p2);
      r.left <= p1.x <= r.right && r.top <= p1.y <= r.bottom &&
      r.left <= p2.x <= r.right && r.top <= p2.y <= r.bottom
  {
  }

  lemma IntersectsSymmetric(a: Rect, b: Rect)
    ensures a.IntersectsRect(b) == b.IntersectsRect(a)
  {
  }

  /** Enclosure is strict, so no rectangle encloses itself. */
  lemma NoSelfEnclosure(a: Rect)
    ensures !a.EnclosesRect(a)
  {
  }

  /** A rectangle that encloses a well-formed one also intersects it. */
  lemma EnclosesImpliesIntersects(a: Rect, b: Rect)
    requires b.WellFormed() && a.EnclosesRect(b)
    ensures a.IntersectsRect(b)
  {
  }

  /** A well-formed rectangle intersects itself. */
  lemma IntersectsSelf(a: Rect)
    requires a.WellFormed()
    ensures a.IntersectsRect(a)
  {
  }
}
