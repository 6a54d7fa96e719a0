/**
 * AutoScale.js: the registration lists of shapes and of CSS styles whose
 * scale, line width or dash length is adjusted on zoom, and the stored line
 * width adjustment. `update` (the float arithmetic and the SVG/CSS writes) is
 * not part of this model.
 */
module AutoScales {
  import opened Seqs

  /** Shape flag codes (`AutoScale.scale`, `AutoScale.lineWidth`) and the CSS flag code (`AutoScale.dashArray`). */
  const ScaleFlag: int := 0
  const LineWidthFlag: int := 1
  const DashArrayFlag: int := 2

  /**
   * A registration record: `{shape, default, flag}` for shapes and
   * `{style, default, flag}` for styles; `key` is the shape or the style.
   */
  datatype Record<K> = Record(key: K, defaultVal: real, flag: int)

  /** The registered shapes or styles, in list order: one key per record, at the record's position. */
  function Keys<K>(rs: seq<Record<K>>): (ks: seq<K>)
    ensures |ks| == |rs|
    ensures forall i :: 0 <= i < |rs| ==> ks[i] == rs[i].key
  {
    if |rs| == 0 then [] else Keys(rs[..|rs| - 1]) + [rs[|rs| - 1].key]
  }

  /** The list after a registration: the record is appended only when its key is not registered yet. */
  function Registered<K(==)>(rs: seq<Record<K>>, r: Record<K>): (result: seq<Record<K>>)
    ensures r.key in Keys(result)
    ensures r.key in Keys(rs) ==> result == rs
    ensures r.key !in Keys(rs) ==> result == rs + [r]
    ensures NoDup(Keys(rs)) ==> NoDup(Keys(result))
  {
    if r.key in Keys(rs) then rs
    else
      assert Keys(rs + [r]) == Keys(rs) + [r.key];
      rs + [r]
  }

  /** The list after an unregistration: the record with the key removed, others kept in order. */
  function Unregistered<K(==)>(rs: seq<Record<K>>, k: K): (result: seq<Record<K>>)
    ensures k !in Keys(rs) ==> result == rs
    ensures k in Keys(rs) ==> |result| == |rs| - 1 && result == RemoveAt(rs, IndexOf(Keys(rs), k))
    ensures NoDup(Keys(rs)) ==> NoDup(Keys(result)) && k !in Keys(result)
  {
    var ks := Keys(rs);
    if k in ks then
      var i := IndexOf(ks, k);
      KeysRemoveAt(rs, i);
      if NoDup(ks) then NoDupRemoveAt(ks, i); RemoveAt(rs, i) else RemoveAt(rs, i)
    else rs
  }

  /** Helper: removing a record removes its key at the same place. */
  lemma KeysRemoveAt<K>(rs: seq<Record<K>>, i: nat)
    requires i < |rs|
    ensures Keys(RemoveAt(rs, i)) == RemoveAt(Keys(rs), i)
  {
  }

  /** Registering a fresh key and then unregistering it restores the list. */
  lemma RegisterThenUnregister<K>(rs: seq<Record<K>>, r: Record<K>)
    requires r.key !in Keys(rs)
    ensures Unregistered(Registered(rs, r), r.key) == rs
  {
    var ks := Keys(rs + [r]);
    assert ks[..|rs|] == Keys(rs);
    IndexOfFirstMatch(ks, r.key, |rs|);
    assert RemoveAt(rs + [r], |rs|) == rs;
  }

  class AutoScale<S(==), C(==)> {
    var shapes: seq<Record<S>>
    var styles: seq<Record<C>>
    var lineWidthAdjustment: real

    ghost predicate Valid()
      reads this
    {
      NoDup(Keys(shapes)) && NoDup(Keys(styles))
    }

    constructor ()
      ensures Valid()
      ensures shapes == [] && styles == [] && lineWidthAdjustment == 0.0
    {
      shapes := [];
      styles := [];
      lineWidthAdjustment := 0.0;
    }

    /** `registerObject`: ignored when the shape is already registered, otherwise appends its record. */
    method RegisterObject(shape: S, autoFlag: int, defaultVal: real)
      requires Valid()
      modifies this`shapes
      ensures Valid()
      ensures shapes == Registered(old(shapes), Record(shape, defaultVal, autoFlag))
    {
      var i := 0;
      while i < |shapes|
        invariant 0 <= i <= |shapes|
        invariant forall k :: 0 <= k < i ==> shapes[k].key != shape
      {
        if shapes[i].key == shape {
          return;
        }
        i := i + 1;
      }
      shapes := shapes + [Record(shape, defaultVal, autoFlag)];
    }

    /** `unregisterObject`: removes the shape's record; a no-op when the shape is absent. */
    method UnregisterObject(shape: S)
      requires Valid()
      modifies this`shapes
      ensures Valid()
      ensures shapes == Unregistered(old(shapes), shape)
    {
      var i := 0;
      while i < |shapes|
        invariant 0 <= i <= |shapes|
        invariant shapes == old(shapes)
        invariant forall k :: 0 <= k < i ==> shapes[k].key != shape
      {
        if shapes[i].key == shape {
          assert Keys(shapes)[..i] == Keys(shapes[..i]);
          IndexOfFirstMatch(Keys(shapes), shape, i);
          shapes := SpliceOut(shapes, i);
          assert shapes == Unregistered(old(shapes), shape);
          return;
        }
        i := i + 1;
      }
    }

    /** `registerStyle`: ignored when the style is already registered, otherwise appends its record. */
    method RegisterStyle(style: C, autoFlag: int, defaultVal: real)
      requires Valid()
      modifies this`styles
      ensures Valid()
      ensures styles == Registered(old(styles), Record(style, defaultVal, autoFlag))
    {
      var i := 0;
      while i < |styles|
        invariant 0 <= i <= |styles|
        invariant forall k :: 0 <= k < i ==> styles[k].key != style
      {
        if styles[i].key == style {
          return;
        }
        i := i + 1;
      }
      styles := styles + [Record(style, defaultVal, autoFlag)];
    }

    /**
     * `unregisterStyle` as written: it looks up the `"shape"` entry of each
     * style record, which style records do not have, so the comparison with
     * the style never holds and nothing is removed.
     */
    method UnregisterStyle(style: C)
      requires Valid()
      modifies this`styles
      ensures Valid()
      ensures styles == old(styles)
    {
      var i := 0;
      while i < |styles|
        invariant 0 <= i <= |styles|
        invariant styles == old(styles)
      {
        // `styles[i]["shape"]` is undefined for every style record, so
        // `=== style` is false and the splice is never reached
        i := i + 1;
      }
    }

    /** `unregisterStyle` comparing the `"style"` entry, as the registration intends. */
    method UnregisterStyleByStyle(style: C)
      requires Valid()
      modifies this`styles
      ensures Valid()
      ensures styles == Unregistered(old(styles), style)
    {
      var i := 0;
      while i < |styles|
        invariant 0 <= i <= |styles|
        invariant styles == old(styles)
        invariant forall k :: 0 <= k < i ==> styles[k].key != style
      {
        if styles[i].key == style {
          assert Keys(styles)[..i] == Keys(styles[..i]);
          IndexOfFirstMatch(Keys(styles), style, i);
          styles := SpliceOut(styles, i);
          assert styles == Unregistered(old(styles), style);
          return;
        }
        i := i + 1;
      }
    }

    /** `setLineWidthAdjustment`: stores the delta and changes nothing else. */
    method SetLineWidthAdjustment(delta: real)
      modifies this`lineWidthAdjustment
      ensures lineWidthAdjustment == delta
    {
      lineWidthAdjustment := delta;
    }
  }

  /**
   * With `unregisterStyle` as written, a style stays registered after it is
   * unregistered; with the corrected lookup it is gone.
   */
  method StyleStaysRegistered<S(==), C(==)>(a: AutoScale<S, C>, style: C)
    requires a.Valid()
    modifies a
    ensures style in Keys(a.styles)
  {
    a.RegisterStyle(style, DashArrayFlag, 2.0);
    a.UnregisterStyle(style);
  }

  /** With the corrected lookup, registering a fresh style and unregistering it restores the list. */
  method StyleRemovedWhenFixed<S(==), C(==)>(a: AutoScale<S, C>, style: C)
    requires a.Valid() && style !in Keys(a.styles)
    modifies a
    ensures style !in Keys(a.styles)
    ensures a.styles == old(a.styles)
  {
    a.RegisterStyle(style, DashArrayFlag, 2.0);
    RegisterThenUnregister(old(a.styles), Record(style, 2.0, DashArrayFlag));
    a.UnregisterStyleByStyle(style);
  }
}
