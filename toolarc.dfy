/**
 * ToolArc.js: the clock-direction tracking shared by the arc-drawing tools.
 * The drawing-step machinery of the `Tool` base class is not part of this model.
 */
module ToolArcs {
  import opened Util

  /**
   * `halfPi`, the jump in delta angle that counts as crossing the zero angle
   * (pi / 2 to the precision of a double).
   */
  const HalfPi: real := 1.5707963267948966

  function Abs(x: real): real { if x < 0.0 then -x else x }

  /** The clock direction after seeing `newDelta`, given the direction and the last delta. */
  function NextDirection(direction: int, lastDelta: real, newDelta: real, threshold: real): (d: int)
    requires direction == 1 || direction == -1
    ensures d == 1 || d == -1
    ensures d == -direction <==> Abs(newDelta - lastDelta) > threshold && Sign(newDelta - lastDelta) == direction
    ensures d == direction <==> !(Abs(newDelta - lastDelta) > threshold && Sign(newDelta - lastDelta) == direction)
  {
    var diff := newDelta - lastDelta;
    if Abs(diff) > threshold && Sign(diff) == direction then -direction else direction
  }

  class ToolArc {
    var clockDirection: int
    var lastDeltaAngle: real

    ghost predicate Valid()
      reads this
    {
      clockDirection == 1 || clockDirection == -1
    }

    constructor ()
      ensures Valid()
      ensures clockDirection == 1 && lastDeltaAngle == 0.0
    {
      clockDirection := 1;
      lastDeltaAngle := 0.0;
    }

    /**
     * `getClockDirection`: flips the direction when the delta angle jumps by
     * more than `halfPi` in the direction already being swept, records the
     * new delta angle and returns the direction.
     */
    method GetClockDirection(newDeltaAngle: real) returns (d: int)
      requires Valid()
      modifies this
      ensures Valid()
      ensures clockDirection == NextDirection(old(clockDirection), old(lastDeltaAngle), newDeltaAngle, HalfPi)
      ensures lastDeltaAngle == newDeltaAngle
      ensures d == clockDirection
    {
      var diff := newDeltaAngle - lastDeltaAngle;
      if Abs(diff) > HalfPi && Sign(diff) == clockDirection {
        clockDirection := clockDirection * -1;
      }
      lastDeltaAngle := newDeltaAngle;
      d := clockDirection;
    }
  }

  /** Two successive jumps in the swept direction flip the direction twice, back to where it was. */
  lemma FlipTwiceRestores(direction: int, a: real, b: real, c: real, threshold: real)
    requires direction == 1 || direction == -1
    requires Abs(b - a) > threshold && Sign(b - a) == direction
    requires Abs(c - b) > threshold && Sign(c - b) == -direction
    ensures NextDirection(NextDirection(direction, a, b, threshold), b, c, threshold) == direction
  {
  }

  /** Small movements never change the direction. */
  lemma SmallMoveKeepsDirection(direction: int, a: real, b: real, threshold: real)
    requires direction == 1 || direction == -1
    requires Abs(b - a) <= threshold
    ensures NextDirection(direction, a, b, threshold) == direction
  {
  }
}
