/**
 * Zap.js: zoom-level selection from wheel events (with a rate limit) and the
 * panning flag. The zoom animation, the tooltip and the rendering
 * optimisation calls are not part of this model; time is a parameter.
 */
module Zaps {
  import opened Seqs
  import opened Util

  /** `Zap.zoomFactors`. */
  const ZoomFactors: seq<real> := [0.1, 0.125, 0.2, 1.0 / 3.0, 0.5, 0.75, 1.0, 1.5, 2.0, 3.0, 4.0, 6.0, 8.0, 10.0]

  /**
   * The zoom levels are indices into `ZoomFactors`; the source computes them
   * as `indexOf(1/5)`, `indexOf(4)` and `indexOf(1/2)` (see ZoomLevels).
   */
  const MinZoomLevel: int := 2
  const MaxZoomLevel: int := 10
  const DefaultZoomLevel: int := 4

  const MaxWheelEvtPerSec: int := 30
  /** `Math.round(1000 / 30)`. */
  const WheelEvtRefreshMs: int := 33

  /** The minimum level is the first position of 1/5 in `ZoomFactors`. */
  lemma MinZoomLevelIsIndex()
    ensures IndexOf(ZoomFactors, 1.0 / 5.0) == MinZoomLevel
  {
    var z := ZoomFactors;
    assert z[0] == 0.1 && z[1] == 0.125 && z[2] == 0.2;
    FirstIndex(z, 1.0 / 5.0, 2);
  }

  /** The maximum level is the first position of 4 in `ZoomFactors`. */
  lemma MaxZoomLevelIsIndex()
    ensures IndexOf(ZoomFactors, 4.0) == MaxZoomLevel
  {
    var z := ZoomFactors;
    assert z[0] == 0.1 && z[1] == 0.125 && z[2] == 0.2 && z[3] == 1.0 / 3.0 && z[4] == 0.5;
    assert z[5] == 0.75 && z[6] == 1.0 && z[7] == 1.5 && z[8] == 2.0 && z[9] == 3.0 && z[10] == 4.0;
    FirstIndex(z, 4.0, 10);
  }

  /** The default level is the first position of 1/2, between the two bounds. */
  lemma DefaultZoomLevelIsIndex()
    ensures IndexOf(ZoomFactors, 1.0 / 2.0) == DefaultZoomLevel
    ensures MinZoomLevel <= DefaultZoomLevel <= MaxZoomLevel
  {
    var z := ZoomFactors;
    assert z[0] == 0.1 && z[1] == 0.125 && z[2] == 0.2 && z[3] == 1.0 / 3.0 && z[4] == 0.5;
    FirstIndex(z, 1.0 / 2.0, 4);
  }

  lemma FirstIndex(s: seq<real>, x: real, k: nat)
    requires k < |s| && s[k] == x && forall j :: 0 <= j < k ==> s[j] != x
    ensures IndexOf(s, x) == k
  {
    assert x in s;
  }

  /**
   * `WheelEvtRefreshMs` is 1000 / `MaxWheelEvtPerSec` rounded to the nearest
   * integer, as `Math.round` does; for 30 events a second that is also the
   * quotient rounded down.
   */
  lemma WheelRefresh()
    ensures (2 * WheelEvtRefreshMs - 1) * MaxWheelEvtPerSec <= 2 * 1000 < (2 * WheelEvtRefreshMs + 1) * MaxWheelEvtPerSec
    ensures WheelEvtRefreshMs * MaxWheelEvtPerSec <= 1000 < (WheelEvtRefreshMs + 1) * MaxWheelEvtPerSec
  {
  }

  class Zap {
    var zoomLevel: int
    var panningEnabled: bool
    var lastWheelEvent: int

    ghost predicate Valid()
      reads this
    {
      MinZoomLevel <= zoomLevel <= MaxZoomLevel
    }

    constructor ()
      ensures Valid()
      ensures zoomLevel == DefaultZoomLevel && !panningEnabled && lastWheelEvent == 0
    {
      zoomLevel := DefaultZoomLevel;
      panningEnabled := false;
      lastWheelEvent := 0;
    }

    /**
     * `handleWheel`: the new level is the current one moved by `direction`
     * and clamped to the allowed range; `changed` tells whether a zoom
     * (with its animation) starts.
     */
    method HandleWheel(direction: int) returns (changed: bool)
      requires Valid()
      modifies this`zoomLevel
      ensures Valid()
      ensures zoomLevel == MinMax(old(zoomLevel) + direction, MinZoomLevel, MaxZoomLevel)
      ensures changed <==> zoomLevel != old(zoomLevel)
      ensures -1 <= direction <= 1 ==> -1 <= zoomLevel - old(zoomLevel) <= 1
    {
      var newZoomLevel := MinMax(zoomLevel + direction, MinZoomLevel, MaxZoomLevel);
      changed := newZoomLevel != zoomLevel;
      if changed {
        zoomLevel := newZoomLevel;
      }
    }

    /**
     * `mousewheel`: handled only when at least `WheelEvtRefreshMs` have passed
     * since the last handled one; the wheel delta is clamped to one level.
     */
    method MouseWheel(wheelDelta: int, now: int) returns (handled: bool)
      requires Valid()
      modifies this`zoomLevel, this`lastWheelEvent
      ensures Valid()
      ensures handled <==> now - old(lastWheelEvent) >= WheelEvtRefreshMs
      ensures handled ==> lastWheelEvent == now
      ensures handled ==> zoomLevel == MinMax(old(zoomLevel) + MinMax(wheelDelta, -1, 1), MinZoomLevel, MaxZoomLevel)
      ensures !handled ==> lastWheelEvent == old(lastWheelEvent) && zoomLevel == old(zoomLevel)
      ensures -1 <= zoomLevel - old(zoomLevel) <= 1
    {
      handled := now - lastWheelEvent >= WheelEvtRefreshMs;
      if handled {
        lastWheelEvent := now;
        var _ := HandleWheel(MinMax(wheelDelta, -1, 1));
      }
    }

    /**
     * `DOMMouseScroll`: no rate limit, and the clamped `detail` is negated.
     * Its guard `typeof evt.axis === undefined` compares a string with
     * `undefined` and is always false, so only `evt.VERTICAL_AXIS` decides.
     * That is the event interface's constant for the vertical axis (2), not
     * the axis of this event: `verticalAxisConstant` is its truthiness, which
     * is always true, so horizontal scrolls zoom as well.
     */
    method DomMouseScroll(detail: int, verticalAxisConstant: bool) returns (handled: bool)
      requires Valid()
      modifies this`zoomLevel
      ensures Valid()
      ensures handled == verticalAxisConstant
      ensures handled ==> zoomLevel == MinMax(old(zoomLevel) - MinMax(detail, -1, 1), MinZoomLevel, MaxZoomLevel)
      ensures !handled ==> zoomLevel == old(zoomLevel)
    {
      handled := verticalAxisConstant;
      if handled {
        var _ := HandleWheel(-MinMax(detail, -1, 1));
      }
    }

    /** `enablePanning`: has no effect when panning is already enabled. */
    method EnablePanning()
      modifies this`panningEnabled
      ensures panningEnabled
    {
      if !panningEnabled {
        panningEnabled := true;
      }
    }

    /** `disablePanning`: has no effect when panning is already disabled. */
    method DisablePanning()
      modifies this`panningEnabled
      ensures !panningEnabled
    {
      if panningEnabled {
        panningEnabled := false;
      }
    }
  }
}
