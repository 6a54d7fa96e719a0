/**
 * ClipBoard.js: copies of shapes kept for pasting. `copy` replaces the
 * stored shapes with clones of the given ones, `paste` inserts a clone of
 * each stored shape into the current layer of a LayerManager, and `clear`
 * empties the store. Building the shapes' SVG nodes (`generate`) is not
 * part of this model.
 */
module ClipBoards {
  import opened Wrappers
  import opened Seqs
  import opened Shapes
  import opened LayerManagers

  /** The shapes whose insertion succeeded, in order. */
  function Accepted(clones: seq<Shape>, results: seq<Result<string, string>>): seq<Shape>
    requires |clones| == |results|
  {
    if |clones| == 0 then []
    else
      var n := |clones| - 1;
      Accepted(clones[..n], results[..n]) + (if results[n].Ok? then [clones[n]] else [])
  }

  /** The number of successful insertions. */
  function OkCount(results: seq<Result<string, string>>): (n: nat)
    ensures n <= |results|
  {
    if |results| == 0 then 0
    else
      var n := |results| - 1;
      OkCount(results[..n]) + (if results[n].Ok? then 1 else 0)
  }

  /** As many shapes are accepted as insertions succeeded, and no more than were tried. */
  lemma {:induction false} AcceptedCount(clones: seq<Shape>, results: seq<Result<string, string>>)
    requires |clones| == |results|
    ensures |Accepted(clones, results)| == OkCount(results) <= |results|
    decreases |clones|
  {
    if |clones| > 0 {
      var n := |clones| - 1;
      AcceptedCount(clones[..n], results[..n]);
    }
  }

  /** Every accepted shape is one of the clones, and every clone that succeeded is accepted. */
  lemma {:induction false} AcceptedMembers(clones: seq<Shape>, results: seq<Result<string, string>>)
    requires |clones| == |results|
    ensures forall x :: x in Accepted(clones, results) ==> x in clones
    ensures forall i | 0 <= i < |clones| && results[i].Ok? :: clones[i] in Accepted(clones, results)
    decreases |clones|
  {
    if |clones| > 0 {
      var n := |clones| - 1;
      AcceptedMembers(clones[..n], results[..n]);
      forall i | 0 <= i < n && results[i].Ok?
        ensures clones[i] in Accepted(clones, results)
      {
        assert clones[..n][i] == clones[i] && results[..n][i] == results[i];
      }
    }
  }

  /** Accepting one more attempt extends the accepted shapes by that shape when it succeeded. */
  lemma AcceptedAppend(start: seq<Shape>, clones: seq<Shape>, results: seq<Result<string, string>>,
                        c: Shape, r: Result<string, string>)
    requires |clones| == |results|
    ensures start + Accepted(clones + [c], results + [r]) == start + Accepted(clones, results) + (if r.Ok? then [c] else [])
    ensures OkCount(results + [r]) == OkCount(results) + (if r.Ok? then 1 else 0)
  {
    assert (clones + [c])[..|clones|] == clones;
    assert (results + [r])[..|results|] == results;
  }

  /**
   * Where `paste` stands after some attempts, on values: `count` (the
   * shape count) has risen from `count0` by the successes, each clone
   * carries the name of the stored shape it copies, with no current layer
   * (`cur` < 0) no attempt succeeded, and otherwise the current layer's
   * shapes `now` are those it held at the start followed by the accepted
   * clones.
   */
  ghost predicate Pasted(count: int, cur: int, now: seq<Shape>, count0: int, start: seq<Shape>,
                         stored: seq<Shape>, clones: seq<Shape>, results: seq<Result<string, string>>)
    requires |clones| == |results|
  {
    && |clones| <= |stored|
    && (forall j | 0 <= j < |clones| :: clones[j].shapeName == stored[j].shapeName)
    && count == count0 + OkCount(results)
    && (cur < 0 ==> OkCount(results) == 0)
    && (cur >= 0 ==> now == start + Accepted(clones, results))
  }

  /** One more attempt, with the outcome `insertShape` guarantees, keeps `Pasted`. */
  lemma PastedStep(count: int, cur: int, now: seq<Shape>, count0: int, start: seq<Shape>,
                   stored: seq<Shape>, clones: seq<Shape>, results: seq<Result<string, string>>,
                   c: Shape, r: Result<string, string>, count': int, now': seq<Shape>)
    requires |clones| == |results| < |stored| && Pasted(count, cur, now, count0, start, stored, clones, results)
    requires c.shapeName == stored[|clones|].shapeName
    requires count' == count + (if r.Ok? then 1 else 0)
    requires cur < 0 ==> r.Err?
    requires cur >= 0 ==> now' == now + (if r.Ok? then [c] else [])
    ensures Pasted(count', cur, now', count0, start, stored, clones + [c], results + [r])
    ensures OkCount(results + [r]) == OkCount(results) + (if r.Ok? then 1 else 0)
  {
    AcceptedAppend(start, clones, results, c, r);
  }

  /** No success among the attempts means every attempt failed. */
  lemma {:induction false} NoneOk(results: seq<Result<string, string>>)
    requires OkCount(results) == 0
    ensures forall i | 0 <= i < |results| :: results[i].Err?
  {
    if |results| > 0 {
      var n := |results| - 1;
      NoneOk(results[..n]);
      assert forall i | 0 <= i < n :: results[..n][i] == results[i];
    }
  }

  /** As many successes as attempts means every attempt succeeded. */
  lemma {:induction false} AllOk(results: seq<Result<string, string>>)
    requires OkCount(results) == |results|
    ensures forall i | 0 <= i < |results| :: results[i].Ok?
  {
    if |results| > 0 {
      var n := |results| - 1;
      AllOk(results[..n]);
      assert forall i | 0 <= i < n :: results[..n][i] == results[i];
    }
  }

  /**
   * Where `paste` ends, once every stored shape was tried or an attempt
   * failed (`failed`): before the last attempt, all succeeded; an early
   * end follows a failure; with no current layer at most one attempt was
   * made, and it failed.
   */
  lemma PastedEnd(count: int, cur: int, now: seq<Shape>, count0: int, start: seq<Shape>,
                  stored: seq<Shape>, clones: seq<Shape>, results: seq<Result<string, string>>, failed: bool)
    requires |clones| == |results| && Pasted(count, cur, now, count0, start, stored, clones, results)
    requires |results| == OkCount(results) + (if failed then 1 else 0)
    requires failed ==> 0 < |results| && results[|results| - 1].Err?
    requires |results| < |stored| ==> failed
    ensures |results| <= |stored|
    ensures forall i | 0 <= i < |clones| :: clones[i].shapeName == stored[i].shapeName
    ensures forall i | 0 <= i < |results| - 1 :: results[i].Ok?
    ensures |results| < |stored| ==> 0 < |results| && results[|results| - 1].Err?
    ensures count == count0 + OkCount(results)
    ensures cur < 0 ==> |results| <= 1 && forall i | 0 <= i < |results| :: results[i].Err?
    ensures cur >= 0 ==> now == start + Accepted(clones, results)
  {
    if failed {
      var n := |results| - 1;
      assert OkCount(results) == OkCount(results[..n]);
      AllOk(results[..n]);
      assert forall i | 0 <= i < n :: results[..n][i] == results[i];
    } else {
      AllOk(results);
    }
    if cur < 0 {
      NoneOk(results);
    }
  }

  class ClipBoard {
    var shapes: seq<Shape>

    /** `new ClipBoard()`: nothing stored. */
    constructor ()
      ensures shapes == []
    {
      shapes := [];
    }

    /**
     * `copy`: an empty array leaves the store as it was; otherwise the store
     * becomes new, distinct clones of the given shapes, in the same order,
     * none of them carrying an sid yet.
     */
    method Copy(shapeArray: seq<Shape>)
      modifies this`shapes
      ensures |shapeArray| == 0 ==> shapes == old(shapes)
      ensures |shapeArray| > 0 ==>
        |shapes| == |shapeArray| && NoDup(shapes) &&
        forall i | 0 <= i < |shapes| ::
          fresh(shapes[i]) && shapes[i].shapeName == shapeArray[i].shapeName && shapes[i].sid == ""
    {
      if |shapeArray| > 0 {
        shapes := [];
        var i := 0;
        while i < |shapeArray|
          invariant 0 <= i <= |shapeArray| && |shapes| == i && NoDup(shapes)
          invariant forall j | 0 <= j < i ::
            fresh(shapes[j]) && shapes[j].shapeName == shapeArray[j].shapeName && shapes[j].sid == ""
        {
          var c := shapeArray[i].Clone();
          NoDupAppend(shapes, c);
          shapes := shapes + [c];
          i := i + 1;
        }
      }
    }

    /**
     * `paste`: each stored shape, in order, is cloned and the clone is
     * inserted with `insertShape` and no target layer, so into the current
     * layer. The store does not change. A failed insertion throws, which
     * ends `paste`: the attempts stop at the first failure. The clones and
     * the outcomes of the attempts made are returned: every attempt before
     * the last succeeded, fewer attempts than stored shapes means the last
     * one failed, the current layer gains exactly the clones whose
     * insertion succeeded, in order, and the shape count rises by their
     * number; with no current layer the first attempt fails and ends it.
     */
    method Paste(lm: LayerManager) returns (clones: seq<Shape>, results: seq<Result<string, string>>)
      requires lm.Valid() && lm.Indexed() && lm.Tagged() && lm.Counted()
      modifies lm`shapeIndex, lm`shapeCount, lm`sidCounter, lm`contents, lm`sidOf, lm.TargetLayer(None)`shapes
      ensures lm.Valid() && lm.Indexed() && lm.Tagged() && lm.Counted()
      ensures |clones| == |results| <= |shapes|
      ensures forall i | 0 <= i < |clones| :: clones[i].shapeName == shapes[i].shapeName
      ensures forall i | 0 <= i < |results| - 1 :: results[i].Ok?
      ensures |results| < |shapes| ==> 0 < |results| && results[|results| - 1].Err?
      ensures lm.shapeCount == old(lm.shapeCount) + OkCount(results)
      ensures old(lm.currentLayer) < 0 ==> |results| <= 1 && forall i | 0 <= i < |results| :: results[i].Err?
      ensures old(lm.currentLayer) >= 0 ==> lm.CurrentShapes() == old(lm.CurrentShapes()) + Accepted(clones, results)
    {
      ghost var cur := lm.currentLayer;
      ghost var start := lm.CurrentShapes();
      ghost var count0 := lm.shapeCount;
      var failed;
      clones, results, failed := PasteAll(lm, shapes);
      PastedEnd(lm.shapeCount, cur, lm.CurrentShapes(), count0, start, shapes, clones, results, failed);
    }

    /** The loop of `paste` over the shapes `stored`, up to the first failure. */
    method PasteAll(lm: LayerManager, stored: seq<Shape>)
      returns (clones: seq<Shape>, results: seq<Result<string, string>>, failed: bool)
      requires lm.Valid() && lm.Indexed() && lm.Tagged() && lm.Counted()
      modifies lm`shapeIndex, lm`shapeCount, lm`sidCounter, lm`contents, lm`sidOf, lm.TargetLayer(None)`shapes
      ensures lm.Valid() && lm.Indexed() && lm.Tagged() && lm.Counted()
      ensures |clones| == |results| == OkCount(results) + (if failed then 1 else 0)
      ensures failed ==> 0 < |results| && results[|results| - 1].Err?
      ensures |results| < |stored| ==> failed
      ensures Pasted(lm.shapeCount, old(lm.currentLayer), lm.CurrentShapes(),
                     old(lm.shapeCount), old(lm.CurrentShapes()), stored, clones, results)
    {
      ghost var cur := lm.currentLayer;
      ghost var start := lm.CurrentShapes();
      ghost var count0 := lm.shapeCount;
      clones, results := [], [];
      var i := 0;
      failed := false;
      while i < |stored| && !failed
        invariant 0 <= i <= |stored| && |clones| == i && |results| == i
        invariant i == OkCount(results) + (if failed then 1 else 0)
        invariant failed ==> 0 < i && results[i - 1].Err?
        invariant lm.Valid() && lm.Indexed() && lm.Tagged() && lm.Counted()
        invariant lm.layers == old(lm.layers) && lm.currentLayer == cur
        invariant Pasted(lm.shapeCount, cur, lm.CurrentShapes(),
                         count0, start, stored, clones, results)
      {
        var c, r := PasteStep(lm, cur, count0, start, stored, clones, results);
        clones, results := clones + [c], results + [r];
        failed := r.Err?;
        i := i + 1;
      }
    }

    /**
     * One round of `paste`'s loop: a clone of `s` goes through `insertShape`
     * with no target layer, and the current layer gains it when that succeeds.
     */
    method PasteOne(lm: LayerManager, s: Shape) returns (c: Shape, r: Result<string, string>)
      requires lm.Valid() && lm.Indexed() && lm.Tagged() && lm.Counted()
      modifies lm`shapeIndex, lm`shapeCount, lm`sidCounter, lm`contents, lm`sidOf, lm.TargetLayer(None)`shapes
      ensures lm.Valid() && lm.Indexed() && lm.Tagged() && lm.Counted()
      ensures lm.layers == old(lm.layers) && lm.currentLayer == old(lm.currentLayer)
      ensures fresh(c) && c.shapeName == s.shapeName
      ensures lm.shapeCount == old(lm.shapeCount) + (if r.Ok? then 1 else 0)
      ensures old(lm.currentLayer) < 0 ==> r.Err?
      ensures old(lm.currentLayer) >= 0 ==> lm.CurrentShapes() == old(lm.CurrentShapes()) + (if r.Ok? then [c] else [])
    {
      c := s.Clone();
      r := lm.InsertShape(c, None);
    }

    /** One round of `paste`'s loop, with the progress it makes. */
    method PasteStep(lm: LayerManager, ghost cur: int, ghost count0: int, ghost start: seq<Shape>,
                     stored: seq<Shape>, clones: seq<Shape>, ghost results: seq<Result<string, string>>)
      returns (c: Shape, r: Result<string, string>)
      requires lm.Valid() && lm.Indexed() && lm.Tagged() && lm.Counted()
      requires lm.currentLayer == cur && |clones| == |results| < |stored|
      requires Pasted(lm.shapeCount, cur, lm.CurrentShapes(),
                      count0, start, stored, clones, results)
      modifies lm`shapeIndex, lm`shapeCount, lm`sidCounter, lm`contents, lm`sidOf, lm.TargetLayer(None)`shapes
      ensures lm.Valid() && lm.Indexed() && lm.Tagged() && lm.Counted()
      ensures lm.layers == old(lm.layers) && lm.currentLayer == cur
      ensures Pasted(lm.shapeCount, cur, lm.CurrentShapes(),
                     count0, start, stored, clones + [c], results + [r])
      ensures OkCount(results + [r]) == OkCount(results) + (if r.Ok? then 1 else 0)
    {
      ghost var count := lm.shapeCount;
      ghost var now := lm.CurrentShapes();
      c, r := PasteOne(lm, stored[|clones|]);
      PastedStep(count, cur, now, count0, start, stored, clones, results,
                 c, r, lm.shapeCount, lm.CurrentShapes());
    }

    /** `clear`: nothing stored. */
    method Clear()
      modifies this`shapes
      ensures shapes == []
    {
      shapes := [];
    }
  }
}
