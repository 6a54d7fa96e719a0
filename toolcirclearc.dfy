/**
 * ToolCircleArc.js: the state the circle-arc tool keeps between steps
 * (clock direction, last delta angle, last radius). The shapes it draws and
 * the `Tool` base class are not part of this model.
 */
module ToolCircleArcs {
  import opened ToolArcs

  /** `Util.degToRad(180)`, i.e. pi to the precision of a double. */
  const Pi: real := 3.141592653589793

  /**
   * JavaScript's `a % 2`, which truncates toward zero and so takes the sign
   * of `a` (Dafny's `%` is Euclidean and never negative).
   */
  function JsRemTwo(a: int): (r: int)
    ensures -1 <= r <= 1
    ensures (a - r) % 2 == 0
    ensures a >= 0 ==> r >= 0
    ensures a < 0 ==> r <= 0
  {
    if a >= 0 then a % 2 else -((-a) % 2)
  }

  /** What `executeStep` did with the step. */
  datatype StepOutcome = Advanced | Decremented

  class ToolCircleArc {
    var clockDirection: int
    var lastDeltaAngle: real
    var lastRadius: real

    ghost predicate Valid()
      reads this
    {
      clockDirection == 1 || clockDirection == -1
    }

    constructor ()
      ensures Valid()
      ensures clockDirection == 1 && lastDeltaAngle == 0.0 && lastRadius == 0.0
    {
      clockDirection := 1;
      lastDeltaAngle := 0.0;
      lastRadius := 0.0;
    }

    /**
     * `updateClockDirection`: as in ToolArc, but the jump that flips the
     * direction must exceed 180 degrees rather than `halfPi`.
     */
    method UpdateClockDirection(newDeltaAngle: real)
      requires Valid()
      modifies this
      ensures Valid()
      ensures clockDirection == NextDirection(old(clockDirection), old(lastDeltaAngle), newDeltaAngle, Pi)
      ensures lastDeltaAngle == newDeltaAngle && lastRadius == old(lastRadius)
    {
      var diff := newDeltaAngle - lastDeltaAngle;
      if Abs(diff) > Pi && Util.Sign(diff) == clockDirection {
        clockDirection := clockDirection * -1;
      }
      lastDeltaAngle := newDeltaAngle;
    }

    /**
     * The state-changing part of `executeStep(stepNum)`. `radius` is the
     * radius of the radius circle (read at step 1) and `previousArcDelta` the
     * delta angle of the arc begun at the previous step (read at odd steps
     * from 3 on). Step 1 with a positive radius records it and falls through
     * to the default branch, where `(1 - 2) % 2` is -1 and so matches neither
     * case. From step 2 on, even steps start a new arc (direction back to
     * clockwise, delta angle 0) and odd steps finish it unless its delta
     * angle is 0.
     */
    method ExecuteStep(stepNum: int, radius: real, previousArcDelta: real) returns (outcome: StepOutcome)
      requires Valid()
      modifies this
      ensures Valid()
      ensures stepNum == 1 ==> outcome == (if radius > 0.0 then Advanced else Decremented)
      ensures stepNum == 1 && radius > 0.0 ==> lastRadius == radius
      ensures stepNum != 1 || radius <= 0.0 ==> lastRadius == old(lastRadius)
      ensures stepNum >= 2 && stepNum % 2 == 0 ==>
        outcome == Advanced && clockDirection == 1 && lastDeltaAngle == 0.0
      ensures stepNum >= 2 && stepNum % 2 == 1 ==>
        outcome == (if previousArcDelta != 0.0 then Advanced else Decremented)
      ensures stepNum < 0 && JsRemTwo(stepNum - 2) == 0 ==>
        outcome == Advanced && clockDirection == 1 && lastDeltaAngle == 0.0
      ensures !(stepNum >= 2 && stepNum % 2 == 0) && !(stepNum < 0 && JsRemTwo(stepNum - 2) == 0) ==>
        clockDirection == old(clockDirection) && lastDeltaAngle == old(lastDeltaAngle)
    {
      outcome := Advanced;
      if stepNum == 0 {
        return;
      }
      if stepNum == 1 {
        if radius > 0.0 {
          lastRadius := radius;
        } else {
          outcome := Decremented;
          return;
        }
      }
      var phase := JsRemTwo(stepNum - 2);
      if phase == 0 {
        clockDirection := 1;
        lastDeltaAngle := 0.0;
      } else if phase == 1 {
        if previousArcDelta == 0.0 {
          outcome := Decremented;
        }
      }
    }
  }

  /** Step 1 falls through into the default branch with a phase of -1, not 1. */
  lemma StepOnePhase()
    ensures JsRemTwo(1 - 2) == -1
    ensures (1 - 2) % 2 == 1
  {
  }
}
