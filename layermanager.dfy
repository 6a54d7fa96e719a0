/**
 * LayerManager.js: the ordered stack of user layers with a current layer and
 * a count of hidden layers, the index from Alberti sids to shape records
 * (shape and holding layer) with its counters, and the selection list.
 *
 * The SVG tree, the undo registrations and the intersection bookkeeping that
 * the source performs alongside each operation are not part of this model.
 */
module LayerManagers {
  import opened Wrappers
  import opened Seqs
  import opened Util
  import opened Shapes
  import opened Layers

  // ---------------------------------------------------------------------
  // Hidden flags of the layer stack, bottom to top

  /** How many layers are hidden. */
  function CountHidden(hs: seq<bool>): (c: nat)
    ensures c <= |hs|
  {
    if hs == [] then 0
    else CountHidden(hs[..|hs| - 1]) + (if hs[|hs| - 1] then 1 else 0)
  }

  /** The count of a concatenation is the sum of the counts. */
  lemma {:induction false} CountHiddenAppend(a: seq<bool>, b: seq<bool>)
    ensures CountHidden(a + b) == CountHidden(a) + CountHidden(b)
    decreases |b|
  {
    if b != [] {
      var last := |b| - 1;
      assert (a + b)[..|a + b| - 1] == a + b[..last];
      CountHiddenAppend(a, b[..last]);
    } else {
      assert a + b == a;
    }
  }

  /** Hiding or showing one layer moves the count by one exactly when its flag changes. */
  lemma {:induction false} CountHiddenUpdate(hs: seq<bool>, n: nat, b: bool)
    requires n < |hs|
    ensures CountHidden(hs[n := b]) == CountHidden(hs) - (if hs[n] then 1 else 0) + (if b then 1 else 0)
  {
    var front, back := hs[..n], hs[n + 1..];
    assert hs == front + [hs[n]] + back;
    assert hs[n := b] == front + [b] + back;
    CountHiddenAppend(front + [hs[n]], back);
    CountHiddenAppend(front, [hs[n]]);
    CountHiddenAppend(front + [b], back);
    CountHiddenAppend(front, [b]);
    assert CountHidden([b]) == (if b then 1 else 0) by {
      assert [b][..0] == [];
    }
    assert CountHidden([hs[n]]) == (if hs[n] then 1 else 0) by {
      assert [hs[n]][..0] == [];
    }
  }

  /** Inserting a layer anywhere with `splice` adds its flag to the count. */
  lemma {:induction false} CountHiddenSpliceIn(hs: seq<bool>, k: int, b: bool)
    ensures CountHidden(SpliceIn(hs, k, b)) == CountHidden(hs) + (if b then 1 else 0)
  {
    var a := SpliceStart(hs, k);
    SpliceInParts(hs, k, b);
    var front, back := hs[..a], hs[a..];
    assert hs == front + back;
    CountHiddenAppend(front, back);
    CountHiddenAppend(front + [b], back);
    CountHiddenAppend(front, [b]);
    assert CountHidden([b]) == (if b then 1 else 0) by {
      assert [b][..0] == [];
    }
  }

  /** Removing a layer takes its flag off the count. */
  lemma {:induction false} CountHiddenRemove(hs: seq<bool>, k: nat)
    requires k < |hs|
    ensures CountHidden(RemoveAt(hs, k)) == CountHidden(hs) - (if hs[k] then 1 else 0)
  {
    var front, back := hs[..k], hs[k + 1..];
    CountHiddenUpdate(hs, k, false);
    assert hs[k := false] == front + [false] + back;
    CountHiddenAppend(front + [false], back);
    CountHiddenAppend(front, [false]);
    assert CountHidden([false]) == 0 by {
      assert [false][..0] == [];
    }
    CountHiddenAppend(front, back);
  }

  /** With fewer hidden layers than layers, some layer is visible. */
  lemma {:induction false} SomeVisible(hs: seq<bool>)
    requires CountHidden(hs) < |hs|
    ensures exists i :: 0 <= i < |hs| && !hs[i]
    decreases |hs|
  {
    var last := |hs| - 1;
    assert hs == hs[..last] + [hs[last]];
    if hs[last] {
      SomeVisible(hs[..last]);
      var i :| 0 <= i < last && !hs[..last][i];
      assert !hs[i];
    }
  }

  /** The lowest visible layer at or above `start`, or -1. */
  function FirstVisible(hs: seq<bool>, start: nat): (i: int)
    ensures -1 <= i < |hs|
    ensures i == -1 <==> forall j :: start <= j < |hs| ==> hs[j]
    ensures i >= 0 ==> start <= i < |hs| && !hs[i] && forall j :: start <= j < i ==> hs[j]
    decreases |hs| - start
  {
    if start >= |hs| then -1
    else if !hs[start] then start
    else FirstVisible(hs, start + 1)
  }

  /** The highest visible layer at or below `start`, or -1. */
  function LastVisible(hs: seq<bool>, start: int): (i: int)
    requires start < |hs|
    ensures -1 <= i
    ensures i == -1 <==> forall j :: 0 <= j <= start ==> hs[j]
    ensures i >= 0 ==> i <= start && !hs[i] && forall j :: i < j <= start ==> hs[j]
    decreases start + 1
  {
    if start < 0 then -1
    else if !hs[start] then start
    else LastVisible(hs, start - 1)
  }

  /**
   * Where hiding the current layer `c` moves the current layer: the nearest
   * visible layer above, else the nearest below, else `c` itself.
   */
  function HideTarget(hs: seq<bool>, c: nat): int
    requires c < |hs|
  {
    var next := FirstVisible(hs, c + 1);
    var prev := LastVisible(hs, c - 1);
    if next >= 0 then next else if prev >= 0 then prev else c
  }

  /**
   * When at least two layers are visible, hiding a visible layer leaves one
   * visible, and hiding the current one moves to a different visible layer.
   */
  lemma {:induction false} HideKeepsVisible(hs: seq<bool>, c: nat)
    requires c < |hs| && !hs[c] && |hs| - CountHidden(hs) > 1
    ensures CountHidden(hs[c := true]) < |hs|
    ensures var t := HideTarget(hs, c); 0 <= t < |hs| && t != c && !hs[t]
  {
    CountHiddenUpdate(hs, c, true);
    SomeVisible(hs[c := true]);
    var i :| 0 <= i < |hs| && !hs[c := true][i];
    assert i != c && !hs[i];
    if FirstVisible(hs, c + 1) < 0 {
      assert 0 <= i <= c - 1 && !hs[i];
    }
  }

  // ---------------------------------------------------------------------
  // Generated sids: "s" followed by the decimal counter

  function DigitChar(d: nat): (c: char)
    requires d < 10
    ensures '0' <= c <= '9' && (c as int) - ('0' as int) == d
  {
    ('0' as int + d) as char
  }

  /** The decimal numeral of `n`, as JavaScript writes a non-negative integer. */
  function Decimal(n: nat): (s: string)
    ensures |s| >= 1 && forall i :: 0 <= i < |s| ==> '0' <= s[i] <= '9'
  {
    if n < 10 then [DigitChar(n)] else Decimal(n / 10) + [DigitChar(n % 10)]
  }

  /** The number a numeral denotes. */
  function NumeralValue(s: string): nat
    requires forall i :: 0 <= i < |s| ==> '0' <= s[i] <= '9'
  {
    if |s| == 0 then 0
    else NumeralValue(s[..|s| - 1]) * 10 + ((s[|s| - 1] as int) - ('0' as int))
  }

  /** Reading a written counter gives the counter back. */
  lemma {:induction false} DecimalRoundTrip(n: nat)
    ensures NumeralValue(Decimal(n)) == n
  {
    if n >= 10 {
      DecimalRoundTrip(n / 10);
      var s := Decimal(n);
      assert s[..|s| - 1] == Decimal(n / 10);
    }
  }

  /** The sid `insertShape` generates from a counter. */
  function GeneratedSid(counter: nat): (sid: string)
    ensures |sid| >= 2 && sid[0] == 's'
  {
    "s" + Decimal(counter)
  }

  /** Different counters generate different sids. */
  lemma GeneratedSidsDiffer(a: nat, b: nat)
    requires a != b
    ensures GeneratedSid(a) != GeneratedSid(b)
  {
    DecimalRoundTrip(a);
    DecimalRoundTrip(b);
    assert GeneratedSid(a)[1..] == Decimal(a);
    assert GeneratedSid(b)[1..] == Decimal(b);
  }

  // ---------------------------------------------------------------------
  // Selections

  /** What `setSelection` and `xorSelection` accept: an array, one shape, or null. */
  datatype ShapeArg = Many(shapes: seq<Shape>) | One(shape: Shape) | NoShapes

  /** The argument as an array (`Array.isArray(s) ? s : s !== null ? [s] : []`). */
  function ArgShapes(arg: ShapeArg): seq<Shape>
  {
    match arg
    case Many(ss) => ss
    case One(s) => [s]
    case NoShapes => []
  }

  /** One step of `xorSelection`: deselect a selected shape, select an unselected one. */
  function XorOne(sel: seq<Shape>, s: Shape): (r: seq<Shape>)
  {
    if s in sel then RemoveAt(sel, IndexOf(sel, s)) else sel + [s]
  }

  /** `xorSelection` over all of `ps`, first to last. */
  function XorAll(sel: seq<Shape>, ps: seq<Shape>): seq<Shape>
  {
    if |ps| == 0 then sel else XorOne(XorAll(sel, ps[..|ps| - 1]), ps[|ps| - 1])
  }

  /**
   * A duplicate-free selection stays duplicate-free, and a shape ends up
   * selected exactly when it was selected or it occurs an odd number of times
   * in `ps`, but not both.
   */
  lemma {:induction false} XorAllMembers(sel: seq<Shape>, ps: seq<Shape>)
    requires NoDup(sel)
    ensures NoDup(XorAll(sel, ps))
    ensures forall x :: x in XorAll(sel, ps) <==> ((x in sel) != (multiset(ps)[x] % 2 == 1))
    decreases |ps|
  {
    if |ps| > 0 {
      var init := ps[..|ps| - 1];
      var s := ps[|ps| - 1];
      assert ps == init + [s];
      XorAllMembers(sel, init);
      var prev := XorAll(sel, init);
      if s in prev {
        NoDupRemoveAt(prev, IndexOf(prev, s));
      } else {
        assert NoDup(prev + [s]) by {
          forall i, j | 0 <= i < j < |prev + [s]| ensures (prev + [s])[i] != (prev + [s])[j] {
            if j == |prev| {
              assert (prev + [s])[i] == prev[i];
            }
          }
        }
      }
    }
  }

  /** `xorSelection` applied twice with the same shapes restores the selected set. */
  lemma XorTwice(sel: seq<Shape>, ps: seq<Shape>)
    requires NoDup(sel)
    ensures NoDup(XorAll(XorAll(sel, ps), ps))
    ensures multiset(XorAll(XorAll(sel, ps), ps)) == multiset(sel)
  {
    XorAllMembers(sel, ps);
    var once := XorAll(sel, ps);
    XorAllMembers(once, ps);
    var twice := XorAll(once, ps);
    assert forall x :: x in twice <==> x in sel;
    NoDupSameMultiset(twice, sel);
  }

  /** Duplicate-free sequences with the same elements are permutations of each other. */
  lemma NoDupSameMultiset<T>(a: seq<T>, b: seq<T>)
    requires NoDup(a) && NoDup(b)
    requires forall x :: x in a <==> x in b
    ensures multiset(a) == multiset(b)
  {
    forall x ensures multiset(a)[x] == multiset(b)[x] {
      NoDupCount(a, x);
      NoDupCount(b, x);
    }
  }

  /** In a duplicate-free sequence an element occurs once or not at all. */
  lemma {:induction false} NoDupCount<T>(s: seq<T>, x: T)
    requires NoDup(s)
    ensures multiset(s)[x] == if x in s then 1 else 0
    decreases |s|
  {
    if |s| > 0 {
      var init := s[..|s| - 1];
      assert s == init + [s[|s| - 1]];
      assert NoDup(init);
      NoDupCount(init, x);
      if x == s[|s| - 1] {
        assert x !in init;
      }
    }
  }

  // ---------------------------------------------------------------------
  // The shape index, stated on values

  /** A shape record: the shape and the layer that holds it. */
  datatype ShapeRecord = ShapeRecord(shape: Shape, layer: Layer)

  /** The shapes `held` lists for layer `l`; none for a layer it does not know. */
  function HeldBy(held: map<Layer, seq<Shape>>, l: Layer): seq<Shape>
  {
    if l in held then held[l] else []
  }

  /**
   * The shape index `index` agrees with the known layers, whose shape lists
   * are `held`, and with `sidOf`, the sid each listed shape carries: every
   * layer lists each shape at most once; every record has a non-empty key,
   * names a known layer that lists the shape, and its shape carries the key;
   * and every listed shape is indexed under its sid with its layer.
   */
  ghost predicate IndexAgrees(index: map<string, ShapeRecord>, held: map<Layer, seq<Shape>>,
                              sidOf: map<Shape, string>)
  {
    (forall l | l in held :: NoDup(held[l])) &&
    (forall k | k in index ::
      k != "" && index[k].layer in held &&
      index[k].shape in held[index[k].layer] &&
      index[k].shape in sidOf && sidOf[index[k].shape] == k) &&
    (forall l, j | l in held && 0 <= j < |held[l]| ::
      held[l][j] in sidOf && sidOf[held[l][j]] in index &&
      index[sidOf[held[l][j]]] == ShapeRecord(held[l][j], l))
  }

  /**
   * Dropping the record under `sid`, which names `target`, from an index
   * that is a part of `index0` holding every record of `index0` naming
   * another layer keeps it so.
   */
  lemma OthersKept(index0: map<string, ShapeRecord>, index: map<string, ShapeRecord>,
                   index': map<string, ShapeRecord>, sid: string, target: Layer)
    requires forall key | key in index :: key in index0 && index[key] == index0[key]
    requires forall key | key in index0 && index0[key].layer != target :: key in index
    requires sid in index && index[sid].layer == target && index' == index - {sid}
    ensures forall key | key in index' :: key in index0 && index'[key] == index0[key]
    ensures forall key | key in index0 && index0[key].layer != target :: key in index'
  {
  }

  /** A shape listed by a known layer is indexed under a non-empty sid, with that layer. */
  lemma ListedIsIndexed(index: map<string, ShapeRecord>, held: map<Layer, seq<Shape>>,
                        sidOf: map<Shape, string>, l: Layer, x: Shape)
    requires IndexAgrees(index, held, sidOf)
    requires l in held && x in held[l]
    ensures x in sidOf && sidOf[x] != "" && sidOf[x] in index && index[sidOf[x]] == ShapeRecord(x, l)
  {
    var j :| 0 <= j < |held[l]| && held[l][j] == x;
  }

  /**
   * Listing a shape that no layer lists at the end of a layer, and indexing
   * it under a fresh non-empty sid, keeps the index in agreement.
   */
  lemma AgreesAddShape(index: map<string, ShapeRecord>, held: map<Layer, seq<Shape>>,
                       sidOf: map<Shape, string>, t: Layer, x: Shape, sid: string,
                       index': map<string, ShapeRecord>, held': map<Layer, seq<Shape>>, sidOf': map<Shape, string>)
    requires IndexAgrees(index, held, sidOf)
    requires sid !in index && sid != ""
    requires forall l | l in held :: x !in held[l]
    requires index' == index[sid := ShapeRecord(x, t)]
    requires held' == held[t := HeldBy(held, t) + [x]] && sidOf' == sidOf[x := sid]
    ensures IndexAgrees(index', held', sidOf')
  {
    var before := HeldBy(held, t);
    assert NoDup(held'[t]) by {
      assert x !in before;
      NoDupAppend(before, x);
    }
    forall k | k in index'
      ensures k != "" && index'[k].layer in held' &&
        index'[k].shape in held'[index'[k].layer] &&
        index'[k].shape in sidOf' && sidOf'[index'[k].shape] == k
    {
      if k == sid {
        assert held'[t][|before|] == x;
      } else {
        assert index'[k] == index[k];
        assert index[k].shape != x;
        if index[k].layer == t {
          var j :| 0 <= j < |held[t]| && held[t][j] == index[k].shape;
          assert held'[t][j] == index[k].shape;
        }
      }
    }
    forall l, j | l in held' && 0 <= j < |held'[l]|
      ensures held'[l][j] in sidOf' && sidOf'[held'[l][j]] in index' &&
        index'[sidOf'[held'[l][j]]] == ShapeRecord(held'[l][j], l)
    {
      if l == t && j == |before| {
      } else {
        assert l in held && held'[l][j] == held[l][j];
        assert held[l][j] != x;
      }
    }
  }

  /**
   * When `x` is the record's own shape, unlisting it from its layer and
   * dropping its record keeps the index in agreement.
   */
  lemma AgreesRemoveShape(index: map<string, ShapeRecord>, held: map<Layer, seq<Shape>>,
                          sidOf: map<Shape, string>, sid: string, x: Shape,
                          index': map<string, ShapeRecord>, held': map<Layer, seq<Shape>>)
    requires IndexAgrees(index, held, sidOf) && sid in index
    requires index' == index - {sid}
    requires var t := index[sid].layer;
      held' == held[t := SpliceOut(held[t], IndexOf(held[t], x))]
    ensures index[sid].shape == x ==> IndexAgrees(index', held', sidOf)
  {
    if index[sid].shape == x {
      var t, s := index[sid].layer, index[sid].shape;
      var i := IndexOf(held[t], s);
      NoDupRemoveAt(held[t], i);
      assert held'[t] == RemoveAt(held[t], i);
      forall k | k in index'
        ensures k != "" && index'[k].layer in held' &&
          index'[k].shape in held'[index'[k].layer] &&
          index'[k].shape in sidOf && sidOf[index'[k].shape] == k
      {
        assert index[k].shape != s;
      }
      forall l, j | l in held' && 0 <= j < |held'[l]|
        ensures held'[l][j] in sidOf && sidOf[held'[l][j]] in index' &&
          index'[sidOf[held'[l][j]]] == ShapeRecord(held'[l][j], l)
      {
        if l == t {
          assert held'[l][j] in held[t];
          var j' :| 0 <= j' < |held[t]| && held[t][j'] == held'[l][j];
        }
      }
    }
  }

  /** Inserting a layer and its flag at the same `splice` position keeps flags and layers in step. */
  lemma MirrorSpliceIn(ls: seq<Layer>, hs: seq<bool>, k: int, x: Layer)
    requires |hs| == |ls|
    requires forall i | 0 <= i < |ls| :: ls[i].hidden == hs[i]
    ensures var ls', hs' := SpliceIn(ls, k, x), SpliceIn(hs, k, x.hidden);
      |hs'| == |ls'| && forall i | 0 <= i < |ls'| :: ls'[i].hidden == hs'[i]
  {
    var a := SpliceStart(ls, k);
    assert SpliceStart(hs, k) == a;
    var ls', hs' := SpliceIn(ls, k, x), SpliceIn(hs, k, x.hidden);
    SpliceInParts(ls, k, x);
    SpliceInParts(hs, k, x.hidden);
    forall i | 0 <= i < |ls'| ensures ls'[i].hidden == hs'[i] {
      if i < a {
        assert ls'[i] == ls[i] && hs'[i] == hs[i];
      } else if i > a {
        assert ls'[i] == ls[i - 1] && hs'[i] == hs[i - 1];
      }
    }
  }

  /** The records of `index` that name a layer other than `t`. */
  function RecordsOutside(index: map<string, ShapeRecord>, t: Layer): map<string, ShapeRecord>
  {
    map k | k in index && index[k].layer != t :: index[k]
  }

  /**
   * A sub-index that keeps every record naming a layer other than `t` and no
   * record naming `t` is exactly the records outside `t`.
   */
  lemma OutsideExactly(index0: map<string, ShapeRecord>, index: map<string, ShapeRecord>, t: Layer)
    requires forall key | key in index :: key in index0 && index[key] == index0[key]
    requires forall key | key in index0 && index0[key].layer != t :: key in index
    requires forall key | key in index :: index[key].layer != t
    ensures index == RecordsOutside(index0, t)
  {
    var r := RecordsOutside(index0, t);
    assert index.Keys == r.Keys;
  }

  /** Removing a layer and its flag at the same index keeps flags and layers in step. */
  lemma MirrorRemoveAt(ls: seq<Layer>, hs: seq<bool>, k: nat)
    requires |hs| == |ls| && k < |ls|
    requires forall i | 0 <= i < |ls| :: ls[i].hidden == hs[i]
    ensures var ls', hs' := RemoveAt(ls, k), RemoveAt(hs, k);
      |hs'| == |ls'| && forall i | 0 <= i < |ls'| :: ls'[i].hidden == hs'[i]
  {
    var ls', hs' := RemoveAt(ls, k), RemoveAt(hs, k);
    forall i | 0 <= i < |ls'| ensures ls'[i].hidden == hs'[i] {
      if i < k {
        assert ls'[i] == ls[i] && hs'[i] == hs[i];
      } else {
        assert ls'[i] == ls[i + 1] && hs'[i] == hs[i + 1];
      }
    }
  }

  /** Adding a new key to a map adds one to its key count. */
  lemma KeysAdded<K, V>(m: map<K, V>, k: K, v: V)
    requires k !in m
    ensures |m[k := v].Keys| == |m.Keys| + 1
  {
    assert m[k := v].Keys == m.Keys + {k};
  }

  /** Removing a key from a map takes one from its key count. */
  lemma KeysRemoved<K, V>(m: map<K, V>, k: K)
    requires k in m
    ensures |(m - {k}).Keys| == |m.Keys| - 1
  {
    assert (m - {k}).Keys == m.Keys - {k};
  }

  // ---------------------------------------------------------------------
  // The manager

  class LayerManager {
    /** The user layers, bottom to top. */
    var layers: seq<Layer>
    /** Index of the current layer, -1 before any layer is current. */
    var currentLayer: int
    var numHiddenLayers: int
    /** Shape records keyed by Alberti sid. */
    var shapeIndex: map<string, ShapeRecord>
    var shapeCount: int
    /** The next number used to generate an sid. */
    var sidCounter: int
    var selections: seq<Shape>
    /** The hidden flag of each layer, bottom to top. */
    ghost var hiddenFlags: seq<bool>
    /** The shape list of each layer that has held a shape, in or out of the stack. */
    ghost var contents: map<Layer, seq<Shape>>
    /** The sid each indexed shape carries. */
    ghost var sidOf: map<Shape, string>

    /**
     * The layer stack: the layers are distinct, the ghost flags mirror their
     * hidden flags, each lists the shapes its mirror holds (none for a layer
     * no mirror knows), and the current index is -1 or a layer.
     */
    ghost predicate Valid()
      reads this`layers, this`hiddenFlags, this`contents, this`currentLayer, layers`hidden, layers`shapes
    {
      NoDup(layers) &&
      |hiddenFlags| == |layers| &&
      (forall i | 0 <= i < |layers| :: layers[i].hidden == hiddenFlags[i]) &&
      (forall l | l in layers :: l.shapes == HeldBy(contents, l)) &&
      -1 <= currentLayer < |layers|
    }

    /** Every layer the mirror knows lists exactly the shapes the mirror holds for it. */
    ghost predicate Mirrored()
      reads this`contents, contents.Keys`shapes
    {
      forall l | l in contents :: l.shapes == contents[l]
    }

    /**
     * The shape bookkeeping: the mirror is exact, the index agrees with it,
     * and the sid counter is positive.
     * None of it depends on the layer stack, so the layer operations keep it
     * unchanged.
     */
    ghost predicate Indexed()
      reads this`shapeIndex, this`sidCounter, this`contents, this`sidOf, contents.Keys`shapes
    {
      Mirrored() &&
      IndexAgrees(shapeIndex, contents, sidOf) &&
      sidCounter >= 1
    }

    /**
     * Every shape the sid map knows carries the non-empty sid recorded for
     * it; with `Indexed`, every indexed shape carries the key it is indexed
     * under.
     */
    ghost predicate Tagged()
      reads this`sidOf, sidOf.Keys`sid
    {
      forall x | x in sidOf :: sidOf[x] != "" && x.sid == sidOf[x]
    }

    /** The shape count is the number of records in the index. */
    ghost predicate Counted()
      reads this`shapeIndex, this`shapeCount
    {
      shapeCount == |shapeIndex.Keys|
    }

    /** `new LayerManager(...)`: no layers, no current layer, no shapes, counter at 1. */
    constructor ()
      ensures Valid() && Indexed() && Tagged() && Counted()
      ensures layers == [] && currentLayer == -1 && numHiddenLayers == 0
      ensures shapeIndex == map[] && shapeCount == 0 && sidCounter == 1 && selections == []
    {
      hiddenFlags := [];
      contents := map[];
      sidOf := map[];
      layers := [];
      currentLayer := -1;
      numHiddenLayers := 0;
      shapeIndex := map[];
      shapeCount := 0;
      sidCounter := 1;
      selections := [];
    }

    /**
     * `switchToLayer`: switching to the current layer does nothing; any other
     * index must name a visible layer, otherwise the assertion fails.
     */
    method SwitchToLayer(n: int) returns (r: Result<(), string>)
      requires Valid()
      modifies this`currentLayer
      ensures Valid()
      ensures old(Indexed()) ==> Indexed()
      ensures old(Tagged()) ==> Tagged()
      ensures old(Counted()) ==> Counted()
      ensures r.Err? <==> n != old(currentLayer) && !(0 <= n < |layers| && !hiddenFlags[n])
      ensures currentLayer == if r.Ok? then n else old(currentLayer)
    {
      var outcome := SwitchOutcome(n);
      if outcome.Err? {
        return Err(outcome.error);
      }
      currentLayer := outcome.value;
      r := Ok(());
    }

    /** What `switchToLayer(n)` does: the new current index, or the assertion that fails. */
    function SwitchOutcome(n: int): Result<int, string>
      reads this`layers, this`currentLayer, layers`hidden
    {
      if n == currentLayer then Ok(n)
      else if !(0 <= n < |layers|) then Err("Invalid layer passed to LayerManager::switchToLayer.")
      else if layers[n].hidden then Err("LayerManager::switchToLayer attempted to switch to a hidden layer.")
      else Ok(n)
    }

    /**
     * `getNextHighestVisibleLayer`: the first visible layer above the given
     * index, or -1. A missing or zero argument (both falsy) means the current
     * layer.
     */
    method GetNextHighestVisibleLayer(from: Option<int>) returns (i: int)
      requires Valid()
      requires from.Some? ==> from.value >= -1
      ensures var start := if from.Some? && from.value != 0 then from.value else currentLayer;
        i == FirstVisible(hiddenFlags, start + 1)
    {
      var start := if from.Some? && from.value != 0 then from.value else currentLayer;
      i := start + 1;
      while i < |layers|
        invariant start + 1 <= i
        invariant FirstVisible(hiddenFlags, start + 1) == FirstVisible(hiddenFlags, i)
        decreases |layers| - i
      {
        if !layers[i].hidden {
          return;
        }
        i := i + 1;
      }
      i := -1;
    }

    /**
     * `getNextLowestVisibleLayer`: the first visible layer below the given
     * index, or -1. A missing or zero argument means the current layer.
     */
    method GetNextLowestVisibleLayer(from: Option<int>) returns (i: int)
      requires Valid()
      requires from.Some? ==> from.value <= |layers|
      ensures var start := if from.Some? && from.value != 0 then from.value else currentLayer;
        i == LastVisible(hiddenFlags, start - 1)
    {
      var start := if from.Some? && from.value != 0 then from.value else currentLayer;
      i := start - 1;
      while i >= 0
        invariant i <= start - 1
        invariant LastVisible(hiddenFlags, start - 1) == LastVisible(hiddenFlags, i)
        decreases i
      {
        if !layers[i].hidden {
          return;
        }
        i := i - 1;
      }
      i := -1;
    }
  
    /**
     * Hides layer `n`, keeping the ghost flags in step and counting it
     * hidden; nothing else changes.
     */
    method HideAt(n: nat)
      requires Valid() && n < |layers|
      modifies this`hiddenFlags, this`numHiddenLayers, layers`hidden
      ensures Valid()
      ensures hiddenFlags == old(hiddenFlags)[n := true]
      ensures numHiddenLayers == old(numHiddenLayers) + 1
    {
      hiddenFlags := hiddenFlags[n := true];
      numHiddenLayers := numHiddenLayers + 1;
      layers[n].Hide();
    }

    /**
     * Shows layer `n`, keeping the ghost flags in step and counting it
     * visible; nothing else changes.
     */
    method ShowAt(n: nat)
      requires Valid() && n < |layers|
      modifies this`hiddenFlags, this`numHiddenLayers, layers`hidden
      ensures Valid()
      ensures hiddenFlags == old(hiddenFlags)[n := false]
      ensures numHiddenLayers == old(numHiddenLayers) - 1
    {
      hiddenFlags := hiddenFlags[n := false];
      numHiddenLayers := numHiddenLayers - 1;
      layers[n].Show();
    }

    /**
     * The move `setLayerVisibility` makes before hiding the current layer:
     * to the nearest visible layer above, else below, else nowhere.
     */
    method LeaveCurrentLayer()
      requires Valid() && 0 <= currentLayer
      modifies this`currentLayer
      ensures Valid()
      ensures currentLayer == HideTarget(hiddenFlags, old(currentLayer))
    {
      var next := GetNextHighestVisibleLayer(None);
      var prev := GetNextLowestVisibleLayer(None);
      var _ := SwitchToLayer(if next >= 0 then next else if prev >= 0 then prev else currentLayer);
    }

    /**
     * `setLayerVisibility`: an index that names no layer fails. Showing a
     * hidden layer, or hiding a visible one, flips its flag and moves the
     * hidden count by one; hiding fails unless more than one layer counts as
     * visible. Hiding the current layer first moves the current layer to the
     * nearest visible layer above, else below, else leaves it.
     */
    method SetLayerVisibility(n: int, makeVisible: bool) returns (r: Result<(), string>)
      requires Valid()
      modifies this`hiddenFlags, this`numHiddenLayers, this`currentLayer, layers`hidden
      ensures Valid()
      ensures r.Err? <==>
        !(0 <= n < |layers|) || (!makeVisible && !old(hiddenFlags[n]) && |layers| - old(numHiddenLayers) <= 1)
      ensures hiddenFlags == if r.Ok? then old(hiddenFlags)[n := !makeVisible] else old(hiddenFlags)
      ensures numHiddenLayers == old(numHiddenLayers) +
        (if r.Err? || old(hiddenFlags[n]) != makeVisible then 0 else if makeVisible then -1 else 1)
      ensures old(numHiddenLayers == CountHidden(hiddenFlags)) ==> numHiddenLayers == CountHidden(hiddenFlags)
      ensures currentLayer ==
        if r.Ok? && !makeVisible && n == old(currentLayer) && !old(hiddenFlags[n])
        then HideTarget(old(hiddenFlags), n) else old(currentLayer)
    {
      if !(0 <= n < |layers|) {
        r := Err("Invalid layer passed to LayerManager::setLayerVisibility.");
        return;
      }
      var hidden := layers[n].hidden;
      assert hidden == hiddenFlags[n];
      if makeVisible != hidden {
        // Already in the requested state.
        r := Ok(());
      } else if !makeVisible && !(|layers| - numHiddenLayers > 1) {
        r := Err("LayerManager::setLayerVisibility attempted to hide only visible layer.");
      } else {
        ghost var flags := hiddenFlags;
        if !makeVisible {
          IndexOfFirstMatch(layers, layers[n], n);
          if IndexOf(layers, layers[n]) == currentLayer {
            LeaveCurrentLayer();
          }
        }
        assert hiddenFlags == flags;
        CountHiddenUpdate(flags, n, !makeVisible);
        if makeVisible {
          ShowAt(n);
        } else {
          HideAt(n);
        }
        r := Ok(());
      }
    }

    /** A new layer object with the given name and hidden flag; nothing else changes. */
    method FreshLayer(name: Option<string>, hidden: bool) returns (l: Layer)
      requires Valid() && Indexed()
      ensures Valid() && Indexed()
      ensures fresh(l)
      ensures layers == old(layers) && hiddenFlags == old(hiddenFlags) && currentLayer == old(currentLayer)
      ensures l.name == name && l.shapes == [] && l.hidden == hidden
    {
      l := new Layer();
      if name.Some? {
        l.SetName(name.value);
      }
      if hidden {
        l.Hide();
      }
    }

    /** The `splice` step of `insertLayer`. */
    method PlaceLayer(layer: Layer, layerIndex: int)
      requires Valid() && Indexed()
      requires layer !in layers && layer.shapes == []
      modifies this`layers, this`hiddenFlags
      ensures Valid() && Indexed()
      ensures layers == SpliceIn(old(layers), layerIndex, layer)
      ensures hiddenFlags == SpliceIn(old(hiddenFlags), layerIndex, layer.hidden)
      ensures layers[SpliceStart(old(layers), layerIndex)] == layer
    {
      var ls' := SpliceIn(layers, layerIndex, layer);
      SpliceInNoDup(layers, layerIndex, layer);
      MirrorSpliceIn(layers, hiddenFlags, layerIndex, layer);
      SpliceInParts(layers, layerIndex, layer);
      layers := ls';
      hiddenFlags := SpliceIn(hiddenFlags, layerIndex, layer.hidden);
    }

    /**
     * `insertLayer`: puts the layer just above the current layer (`before`
     * false) or at the current index (`before` true), then switches to that
     * index. Inserting above makes the new layer current unless it is hidden,
     * in which case the switch fails; inserting before keeps the index, so
     * the new layer is current there. With no current layer (-1) an insertion
     * before goes to `splice(-1, ...)`, one below the top, and nothing becomes current.
     */
    method InsertLayer(layer: Layer, before: bool) returns (r: Result<(), string>)
      requires Valid() && Indexed()
      requires layer !in layers && layer.shapes == []
      modifies this`layers, this`hiddenFlags, this`currentLayer
      ensures Valid() && Indexed()
      ensures layers == SpliceIn(old(layers), if before then old(currentLayer) else old(currentLayer) + 1, layer)
      ensures hiddenFlags == SpliceIn(old(hiddenFlags), if before then old(currentLayer) else old(currentLayer) + 1, layer.hidden)
      ensures r.Err? <==> !before && layer.hidden
      ensures currentLayer == if !before && !layer.hidden then old(currentLayer) + 1 else old(currentLayer)
      ensures r.Ok? && (!before || old(currentLayer) >= 0) ==>
        0 <= currentLayer < |layers| && layers[currentLayer] == layer
    {
      var layerIndex := if before then currentLayer else currentLayer + 1;
      PlaceLayer(layer, layerIndex);
      r := SwitchToLayer(layerIndex);
    }

    /**
     * `newLayer`: a fresh layer named `name`, or "Layer k" (k one more than
     * the number of layers) when the name is missing or empty, inserted above
     * the current layer and made current; the hidden count stays right.
     */
    method NewLayer(name: Option<string>) returns (l: Layer)
      requires Valid() && Indexed()
      modifies this`layers, this`hiddenFlags, this`currentLayer
      ensures Valid() && Indexed() && fresh(l)
      ensures l.name == Some(if name.None? || name.value == "" then "Layer " + Decimal(|old(layers)| + 1) else name.value)
      ensures !l.hidden && l.shapes == []
      ensures layers == SpliceIn(old(layers), old(currentLayer) + 1, l)
      ensures hiddenFlags == SpliceIn(old(hiddenFlags), old(currentLayer) + 1, false)
      ensures currentLayer == old(currentLayer) + 1 && layers[currentLayer] == l
      ensures old(numHiddenLayers == CountHidden(hiddenFlags)) ==> numHiddenLayers == CountHidden(hiddenFlags)
    {
      ghost var flags, at := hiddenFlags, currentLayer + 1;
      l := FreshLayer(Some(if name.None? || name.value == "" then "Layer " + Decimal(|layers| + 1) else name.value), false);
      assert hiddenFlags == flags && currentLayer + 1 == at;
      CountHiddenSpliceIn(flags, at, false);
      var _ := InsertLayer(l, false);
    }

    /**
     * `newLayerFromGroup`: a fresh layer named by the group's title. A group
     * whose visibility is "hidden" gives a hidden layer and counts it hidden;
     * `insertLayer` then places it but cannot switch to it and fails.
     */
    method NewLayerFromGroup(title: Option<string>, visibility: Option<string>) returns (l: Layer, r: Result<(), string>)
      requires Valid() && Indexed()
      modifies this`layers, this`hiddenFlags, this`currentLayer, this`numHiddenLayers
      ensures Valid() && Indexed() && fresh(l)
      ensures l.name == title && l.shapes == []
      ensures l.hidden <==> visibility == Some("hidden")
      ensures r.Err? <==> l.hidden
      ensures layers == SpliceIn(old(layers), old(currentLayer) + 1, l)
      ensures hiddenFlags == SpliceIn(old(hiddenFlags), old(currentLayer) + 1, l.hidden)
      ensures currentLayer == if l.hidden then old(currentLayer) else old(currentLayer) + 1
      ensures numHiddenLayers == old(numHiddenLayers) + (if l.hidden then 1 else 0)
      ensures old(numHiddenLayers == CountHidden(hiddenFlags)) ==> numHiddenLayers == CountHidden(hiddenFlags)
    {
      ghost var flags, at := hiddenFlags, currentLayer + 1;
      l := FreshLayer(title, visibility == Some("hidden"));
      assert hiddenFlags == flags && currentLayer + 1 == at;
      numHiddenLayers := numHiddenLayers + if l.hidden then 1 else 0;
      CountHiddenSpliceIn(flags, at, l.hidden);
      r := InsertLayer(l, false);
      assert hiddenFlags == SpliceIn(flags, at, l.hidden);
    }
    /** The `addShape` call of `insertShape`, on a layer of the stack and on its mirror. */
    method AppendShape(x: Shape, target: Layer)
      requires Valid() && Mirrored() && target in layers
      modifies this`contents, target`shapes
      ensures Valid() && Mirrored()
      ensures contents == old(contents)[target := old(HeldBy(contents, target)) + [x]]
      ensures target.shapes == old(target.shapes) + [x]
    {
      target.AddShape(x);
      contents := contents[target := HeldBy(contents, target) + [x]];
    }

    /**
     * The state change of `deleteShape`: the record goes, the count goes
     * down, and the record's layer runs `removeShape`, on the layer and on
     * its mirror.
     */
    method UnlistRecord(x: Shape, target: Layer, sid: string)
      requires Valid() && Mirrored() && Tagged() && target in contents
      modifies this`shapeIndex, this`shapeCount, this`contents, target`shapes
      ensures Valid() && Mirrored() && Tagged()
      ensures shapeIndex == old(shapeIndex) - {sid} && shapeCount == old(shapeCount) - 1
      ensures contents == old(contents)[target := SpliceOut(old(contents[target]), IndexOf(old(contents[target]), x))]
      ensures target.shapes == SpliceOut(old(target.shapes), IndexOf(old(target.shapes), x))
    {
      shapeIndex, shapeCount := shapeIndex - {sid}, shapeCount - 1;
      target.RemoveShape(x);
      contents := contents[target := target.shapes];
    }

    /**
     * The index half of `insertShape`: record the shape under its sid with
     * its layer and count it. `held'` is the mirror once `x` is appended to
     * `target`; the index agrees with it.
     */
    method IndexShape(x: Shape, target: Layer, sid: string, ghost held': map<Layer, seq<Shape>>)
      requires IndexAgrees(shapeIndex, contents, sidOf) && Tagged() && Counted()
      requires sid !in shapeIndex && sid != "" && x.sid == sid
      requires forall l | l in contents :: x !in contents[l]
      requires held' == contents[target := HeldBy(contents, target) + [x]]
      modifies this`shapeIndex, this`shapeCount, this`sidCounter, this`sidOf
      ensures IndexAgrees(shapeIndex, held', sidOf) && Tagged() && Counted()
      ensures shapeIndex == old(shapeIndex)[sid := ShapeRecord(x, target)]
      ensures shapeCount == old(shapeCount) + 1 && sidCounter == old(sidCounter) + 1
    {
      KeysAdded(shapeIndex, sid, ShapeRecord(x, target));
      AgreesAddShape(shapeIndex, contents, sidOf, target, x, sid,
                     shapeIndex[sid := ShapeRecord(x, target)], held', sidOf[x := sid]);
      sidOf, shapeIndex, shapeCount, sidCounter :=
        sidOf[x := sid], shapeIndex[sid := ShapeRecord(x, target)], shapeCount + 1, sidCounter + 1;
    }

    /** The bookkeeping step of `insertShape`: append the shape to the layer and index it. */
    method AddRecord(x: Shape, target: Layer, sid: string)
      requires Valid() && Indexed() && Tagged() && Counted()
      requires target in layers && sid !in shapeIndex && sid != "" && x.sid == sid
      requires forall l | l in contents :: x !in contents[l]
      modifies this`shapeIndex, this`shapeCount, this`sidCounter, this`contents, this`sidOf, target`shapes
      ensures Valid() && Indexed() && Tagged() && Counted()
      ensures shapeIndex == old(shapeIndex)[sid := ShapeRecord(x, target)]
      ensures shapeCount == old(shapeCount) + 1 && sidCounter == old(sidCounter) + 1
      ensures target.shapes == old(target.shapes) + [x]
    {
      IndexShape(x, target, sid, contents[target := HeldBy(contents, target) + [x]]);
      AppendShape(x, target);
    }

    /** The shapes of the current layer; none when there is no current layer. */
    ghost function CurrentShapes(): seq<Shape>
      reads this`layers, this`currentLayer, layers`shapes
    {
      if 0 <= currentLayer < |layers| then layers[currentLayer].shapes else []
    }

    /** The given layer, else the current one if there is one: the layer `insertShape` appends to. */
    ghost function TargetLayer(layer: Option<Layer>): set<Layer>
      reads this`layers, this`currentLayer
    {
      if layer.Some? then {layer.value}
      else if 0 <= currentLayer < |layers| then {layers[currentLayer]}
      else {}
    }

    /**
     * The sid step of `insertShape`: a shape without an sid gets "s"
     * followed by the sid counter. A shape some layer lists already
     * carries the sid it is indexed under.
     */
    method AssignSid(x: Shape) returns (sid: string)
      requires Valid() && Indexed() && Tagged() && Counted()
      modifies x`sid
      ensures Valid() && Indexed() && Tagged() && Counted()
      ensures CurrentShapes() == old(CurrentShapes())
      ensures sid == x.sid
      ensures sid == if old(x.sid) == "" then GeneratedSid(sidCounter) else old(x.sid)
      ensures sid !in shapeIndex ==> forall l | l in contents :: x !in contents[l]
    {
      sid := x.sid;
      // A listed shape carries the non-empty sid it is indexed under.
      forall l | l in contents && x in contents[l]
        ensures sid != "" && sid in shapeIndex
      {
        ListedIsIndexed(shapeIndex, contents, sidOf, l, x);
      }
      if sid == "" {
        sid := GeneratedSid(sidCounter);
        x.SetSid(sid);
      }
    }

    /**
     * `insertShape`: a shape without an sid gets "s" followed by the sid
     * counter (the sid is stored on the shape even when the call then fails).
     * An sid that is already indexed fails the duplicate assertion; with no
     * target layer and no current layer the append fails. Otherwise the shape
     * is appended to the target layer (the given one, else the current one),
     * indexed under its sid with that layer, and both counters go up by one.
     */
    method InsertShape(newShape: Shape, layer: Option<Layer>) returns (r: Result<string, string>)
      requires Valid() && Indexed() && Tagged() && Counted()
      requires layer.Some? ==> layer.value in layers
      modifies this`shapeIndex, this`shapeCount, this`sidCounter, this`contents, this`sidOf, newShape`sid,
        TargetLayer(layer)`shapes
      ensures Valid() && Indexed() && Tagged() && Counted()
      ensures layers == old(layers) && currentLayer == old(currentLayer)
      ensures newShape.sid == if old(newShape.sid) == "" then GeneratedSid(old(sidCounter)) else old(newShape.sid)
      ensures layer.None? && old(currentLayer) >= 0 ==>
        CurrentShapes() == old(CurrentShapes()) + (if r.Ok? then [newShape] else [])
      ensures r.Err? <==> newShape.sid in old(shapeIndex) || (layer.None? && old(currentLayer) < 0)
      ensures r.Ok? ==> r.value == newShape.sid
      ensures r.Ok? ==>
        var target := if layer.Some? then layer.value else layers[currentLayer];
        shapeIndex == old(shapeIndex)[newShape.sid := ShapeRecord(newShape, target)] &&
        shapeCount == old(shapeCount) + 1 && sidCounter == old(sidCounter) + 1 &&
        target.shapes == old(target.shapes) + [newShape]
      ensures r.Err? ==>
        shapeIndex == old(shapeIndex) && shapeCount == old(shapeCount) && sidCounter == old(sidCounter) &&
        contents == old(contents) && (layer.Some? ==> layer.value.shapes == old(layer.value.shapes)) &&
        CurrentShapes() == old(CurrentShapes())
    {
      var _ := AssignSid(newShape);
      r := PlaceShape(newShape, layer);
    }

    /** The part of `insertShape` after the sid step: the duplicate check and the append. */
    method PlaceShape(x: Shape, layer: Option<Layer>) returns (r: Result<string, string>)
      requires Valid() && Indexed() && Tagged() && Counted()
      requires layer.Some? ==> layer.value in layers
      requires x.sid != "" && (x.sid !in shapeIndex ==> forall l | l in contents :: x !in contents[l])
      modifies this`shapeIndex, this`shapeCount, this`sidCounter, this`contents, this`sidOf, TargetLayer(layer)`shapes
      ensures Valid() && Indexed() && Tagged() && Counted()
      ensures layers == old(layers) && currentLayer == old(currentLayer)
      ensures layer.None? && old(currentLayer) >= 0 ==>
        CurrentShapes() == old(CurrentShapes()) + (if r.Ok? then [x] else [])
      ensures r.Err? <==> x.sid in old(shapeIndex) || (layer.None? && old(currentLayer) < 0)
      ensures r.Ok? ==>
        var target := if layer.Some? then layer.value else layers[currentLayer];
        r.value == x.sid &&
        shapeIndex == old(shapeIndex)[x.sid := ShapeRecord(x, target)] &&
        shapeCount == old(shapeCount) + 1 && sidCounter == old(sidCounter) + 1 &&
        target.shapes == old(target.shapes) + [x]
      ensures r.Err? ==>
        shapeIndex == old(shapeIndex) && shapeCount == old(shapeCount) && sidCounter == old(sidCounter) &&
        contents == old(contents) && (layer.Some? ==> layer.value.shapes == old(layer.value.shapes)) &&
        CurrentShapes() == old(CurrentShapes())
    {
      var sid := x.sid;
      if sid in shapeIndex {
        r := Err("Duplicate shape passed to LayerManager::insertShape (sid '" + sid + "').");
      } else if layer.None? && currentLayer < 0 {
        r := Err("TypeError: the current layer is undefined.");
      } else {
        var target := if layer.Some? then layer.value else layers[currentLayer];
        AddRecord(x, target, sid);
        r := Ok(sid);
      }
    }

    /** The layer whose shapes `deleteShape` changes: the one the sid's record names, if any. */
    ghost function RecordLayer(sid: string): set<Layer>
      reads this`shapeIndex
    {
      if sid in shapeIndex then {shapeIndex[sid].layer} else {}
    }

    /**
     * The known-sid case of `deleteShape`: the record goes, and the
     * record's layer (`layer`) runs `removeShape` on the given shape.
     */
    method RemoveRecord(shape: Shape, sid: string, layer: Layer)
      requires Valid() && Indexed() && Tagged() && Counted() && sid in shapeIndex && shapeIndex[sid].layer == layer
      modifies this`shapeIndex, this`shapeCount, this`contents, layer`shapes
      ensures Valid() && Mirrored() && Tagged() && Counted()
      ensures shapeIndex == old(shapeIndex) - {sid} && shapeCount == old(shapeCount) - 1
      ensures layer in old(contents) && layer.shapes == SpliceOut(old(layer.shapes), IndexOf(old(layer.shapes), shape))
      ensures old(shapeIndex[sid].shape) == shape ==> IndexAgrees(shapeIndex, contents, sidOf)
    {
      ghost var index, held := shapeIndex, contents;
      UnlistRecord(shape, layer, sid);
      KeysRemoved(index, sid);
      AgreesRemoveShape(index, held, sidOf, sid, shape, shapeIndex, contents);
    }

    /**
     * `deleteShape`: the record is looked up by the shape's sid BEFORE the
     * assertion that it exists, so an unknown sid fails with a TypeError and
     * the assertion itself can never fail. A known sid loses its record, the
     * count goes down, and the record's layer runs `removeShape` on the
     * given shape. When the record is the shape's own, the index stays
     * consistent; a different shape object carrying an indexed sid instead
     * makes that layer drop its LAST shape (see `Layer.RemoveShape`).
     */
    method DeleteShape(shape: Shape) returns (r: Result<Shape, string>)
      requires Valid() && Indexed() && Tagged() && Counted()
      modifies this`shapeIndex, this`shapeCount, this`contents, RecordLayer(shape.sid)`shapes
      ensures Valid() && Mirrored() && Tagged() && Counted()
      ensures r.Err? <==> shape.sid !in old(shapeIndex)
      ensures r.Err? ==> shapeIndex == old(shapeIndex) && shapeCount == old(shapeCount) && Indexed()
      ensures r.Ok? ==>
        var t := old(shapeIndex[shape.sid].layer);
        r.value == shape &&
        shapeIndex == old(shapeIndex) - {shape.sid} && shapeCount == old(shapeCount) - 1 &&
        t in old(contents) && t.shapes == SpliceOut(old(t.shapes), IndexOf(old(t.shapes), shape))
      ensures r.Ok? && old(shapeIndex[shape.sid].shape) == shape ==> Indexed()
    {
      var sid := shape.sid;
      if sid !in shapeIndex {
        return Err("TypeError: shapeIndex[sid] is undefined.");
      }
      RemoveRecord(shape, sid, shapeIndex[sid].layer);
      r := Ok(shape);
    }

    /**
     * `deleteCurrentLayer`: fails unless there is more than one layer and a
     * current layer. The current layer (the target) loses every shape and
     * every record, last shape first. Then the current layer switches to the
     * one below (or stays at 0), which fails if that layer is hidden, and
     * `layers.splice(currentLayer, 1)` runs with the NEW current index: at
     * index 0 the target is removed, but above it the layer below the
     * target is removed instead, with its shapes still indexed, and the
     * emptied target stays, now current.
     */
    method DeleteCurrentLayer() returns (r: Result<(), string>)
      requires Valid() && Indexed() && Tagged() && Counted()
      modifies this`layers, this`hiddenFlags, this`currentLayer, this`shapeIndex, this`shapeCount,
        this`contents, TargetLayer(None)`shapes
      ensures Valid() && Indexed() && Tagged() && Counted()
      ensures var k := old(currentLayer);
        r.Err? <==> |old(layers)| <= 1 || k < 0 || (k > 0 && old(hiddenFlags[k - 1]))
      ensures |old(layers)| <= 1 || old(currentLayer) < 0 ==>
        layers == old(layers) && currentLayer == old(currentLayer) && shapeIndex == old(shapeIndex) &&
        (forall l | l in old(layers) :: l.shapes == old(l.shapes))
      ensures |old(layers)| > 1 && old(currentLayer) >= 0 ==>
        var k, target := old(currentLayer), old(layers[currentLayer]);
        target.shapes == [] &&
        shapeIndex == RecordsOutside(old(shapeIndex), target) &&
        (r.Err? ==> layers == old(layers) && currentLayer == k) &&
        (r.Ok? ==>
          currentLayer == (if k > 0 then k - 1 else 0) &&
          layers == RemoveAt(old(layers), currentLayer) &&
          hiddenFlags == RemoveAt(old(hiddenFlags), currentLayer) &&
          (k == 0 ==> target !in layers) &&
          (k > 0 ==> layers[currentLayer] == target && old(layers[k - 1]) !in layers))
    {
      if |layers| <= 1 {
        return Err("LayerManager::deleteCurrentLayer attempted to delete only remaining layer.");
      }
      if currentLayer < 0 {
        return Err("TypeError: the current layer is undefined.");
      }
      r := ClearAndSplice();
    }

    /** The part of `deleteCurrentLayer` past its guards: empty the target, then switch and splice. */
    method ClearAndSplice() returns (r: Result<(), string>)
      requires Valid() && Indexed() && Tagged() && Counted() && |layers| > 1 && currentLayer >= 0
      modifies this`layers, this`hiddenFlags, this`currentLayer, this`shapeIndex, this`shapeCount,
        this`contents, TargetLayer(None)`shapes
      ensures Valid() && Indexed() && Tagged() && Counted()
      ensures var k, target := old(currentLayer), old(layers[currentLayer]);
        (r.Err? <==> k > 0 && old(hiddenFlags[k - 1])) &&
        target.shapes == [] &&
        shapeIndex == RecordsOutside(old(shapeIndex), target) &&
        (r.Err? ==> layers == old(layers) && currentLayer == k) &&
        (r.Ok? ==>
          currentLayer == (if k > 0 then k - 1 else 0) &&
          layers == RemoveAt(old(layers), currentLayer) &&
          hiddenFlags == RemoveAt(old(hiddenFlags), currentLayer) &&
          (k == 0 ==> target !in layers) &&
          (k > 0 ==> layers[currentLayer] == target && old(layers[k - 1]) !in layers))
    {
      ClearLayer(layers[currentLayer]);
      r := SwitchAndSplice();
    }

    /**
     * The end of `deleteCurrentLayer`: switch to the layer below (or stay at
     * 0), then splice out the layer at the NEW current index.
     */
    method SwitchAndSplice() returns (r: Result<(), string>)
      requires Valid() && Indexed() && Tagged() && Counted() && |layers| > 1 && currentLayer >= 0
      modifies this`layers, this`hiddenFlags, this`currentLayer
      ensures Valid() && Indexed() && Tagged() && Counted()
      ensures var k, target := old(currentLayer), old(layers[currentLayer]);
        (r.Err? <==> k > 0 && old(hiddenFlags[k - 1])) &&
        (r.Err? ==> layers == old(layers) && currentLayer == k) &&
        (r.Ok? ==>
          currentLayer == (if k > 0 then k - 1 else 0) &&
          layers == RemoveAt(old(layers), currentLayer) &&
          hiddenFlags == RemoveAt(old(hiddenFlags), currentLayer) &&
          (k == 0 ==> target !in layers) &&
          (k > 0 ==> layers[currentLayer] == target && old(layers[k - 1]) !in layers))
    {
      var sw := SwitchToLayer(if currentLayer > 0 then currentLayer - 1 else currentLayer);
      if sw.Err? {
        return Err(sw.error);
      }
      ghost var stack := layers;
      DropLayer(currentLayer);
      NoDupRemoveAt(stack, currentLayer);
      assert currentLayer + 1 < |stack| ==> layers[currentLayer] == stack[currentLayer + 1];
      r := Ok(());
    }

    /**
     * `deleteCurrentLayer` as its comment promises: the target itself is
     * spliced out, at the index it had, and the current layer becomes the
     * one below it, or, at the bottom, the one above.
     */
    method DeleteCurrentLayerFixed() returns (r: Result<(), string>)
      requires Valid() && Indexed() && Tagged() && Counted()
      modifies this`layers, this`hiddenFlags, this`currentLayer, this`shapeIndex, this`shapeCount,
        this`contents, TargetLayer(None)`shapes
      ensures Valid() && Indexed() && Tagged() && Counted()
      ensures var k := old(currentLayer);
        r.Err? <==> |old(layers)| <= 1 || k < 0 || (k > 0 && old(hiddenFlags[k - 1]))
      ensures |old(layers)| <= 1 || old(currentLayer) < 0 ==>
        layers == old(layers) && currentLayer == old(currentLayer) && shapeIndex == old(shapeIndex) &&
        (forall l | l in old(layers) :: l.shapes == old(l.shapes))
      ensures |old(layers)| > 1 && old(currentLayer) >= 0 && r.Ok? ==>
        var k, target := old(currentLayer), old(layers[currentLayer]);
        target.shapes == [] &&
        shapeIndex == RecordsOutside(old(shapeIndex), target) &&
        layers == RemoveAt(old(layers), k) &&
        hiddenFlags == RemoveAt(old(hiddenFlags), k) &&
        target !in layers &&
        currentLayer == (if k > 0 then k - 1 else 0) &&
        layers[currentLayer] == old(layers[if k > 0 then k - 1 else 1])
    {
      if |layers| <= 1 {
        return Err("LayerManager::deleteCurrentLayer attempted to delete only remaining layer.");
      }
      if currentLayer < 0 {
        return Err("TypeError: the current layer is undefined.");
      }
      r := ClearAndSpliceFixed();
    }

    /** The corrected part of `deleteCurrentLayer` past its guards: empty the target, switch, splice the target. */
    method ClearAndSpliceFixed() returns (r: Result<(), string>)
      requires Valid() && Indexed() && Tagged() && Counted() && |layers| > 1 && currentLayer >= 0
      modifies this`layers, this`hiddenFlags, this`currentLayer, this`shapeIndex, this`shapeCount,
        this`contents, TargetLayer(None)`shapes
      ensures Valid() && Indexed() && Tagged() && Counted()
      ensures var k, target := old(currentLayer), old(layers[currentLayer]);
        (r.Err? <==> k > 0 && old(hiddenFlags[k - 1])) &&
        target.shapes == [] &&
        shapeIndex == RecordsOutside(old(shapeIndex), target) &&
        (r.Ok? ==>
          layers == RemoveAt(old(layers), k) &&
          hiddenFlags == RemoveAt(old(hiddenFlags), k) &&
          target !in layers &&
          currentLayer == (if k > 0 then k - 1 else 0) &&
          layers[currentLayer] == old(layers[if k > 0 then k - 1 else 1]))
    {
      ClearLayer(layers[currentLayer]);
      r := SwitchAndSpliceFixed();
    }

    /** Switch to the layer below (or stay at 0), then splice out the target at its own index. */
    method SwitchAndSpliceFixed() returns (r: Result<(), string>)
      requires Valid() && Indexed() && Tagged() && Counted() && |layers| > 1 && currentLayer >= 0
      modifies this`layers, this`hiddenFlags, this`currentLayer
      ensures Valid() && Indexed() && Tagged() && Counted()
      ensures var k, target := old(currentLayer), old(layers[currentLayer]);
        (r.Err? <==> k > 0 && old(hiddenFlags[k - 1])) &&
        (r.Err? ==> layers == old(layers) && currentLayer == k) &&
        (r.Ok? ==>
          layers == RemoveAt(old(layers), k) &&
          hiddenFlags == RemoveAt(old(hiddenFlags), k) &&
          target !in layers &&
          currentLayer == (if k > 0 then k - 1 else 0) &&
          layers[currentLayer] == old(layers[if k > 0 then k - 1 else 1]))
    {
      var k := currentLayer;
      var sw := SwitchToLayer(if currentLayer > 0 then currentLayer - 1 else currentLayer);
      if sw.Err? {
        return Err(sw.error);
      }
      ghost var stack := layers;
      DropLayer(k);
      NoDupRemoveAt(stack, k);
      r := Ok(());
    }

    /** `layers.splice(n, 1)`, with the flag mirror. */
    method DropLayer(n: int)
      requires Valid() && Indexed() && Tagged() && Counted() && 0 <= n < |layers| && currentLayer < |layers| - 1
      modifies this`layers, this`hiddenFlags
      ensures Valid() && Indexed() && Tagged() && Counted()
      ensures layers == RemoveAt(old(layers), n) && hiddenFlags == RemoveAt(old(hiddenFlags), n)
    {
      NoDupRemoveAt(layers, n);
      MirrorRemoveAt(layers, hiddenFlags, n);
      layers, hiddenFlags := RemoveAt(layers, n), RemoveAt(hiddenFlags, n);
    }

    /**
     * The loop of `deleteCurrentLayer`: `deleteShape` on the target's last
     * shape until it has none. Its records go and every other record stays.
     */
    method ClearLayer(target: Layer)
      requires Valid() && Indexed() && Tagged() && Counted() && target in layers
      modifies this`shapeIndex, this`shapeCount, this`contents, target`shapes
      ensures Valid() && Indexed() && Tagged() && Counted()
      ensures target.shapes == []
      ensures shapeIndex == RecordsOutside(old(shapeIndex), target)
    {
      ghost var index0 := shapeIndex;
      while |target.shapes| > 0
        invariant Valid() && Indexed() && Tagged() && Counted()
        invariant forall key | key in shapeIndex :: key in index0 && shapeIndex[key] == index0[key]
        invariant forall key | key in index0 && index0[key].layer != target :: key in shapeIndex
        decreases |target.shapes|
      {
        DeleteLastShape(target, index0);
      }
      assert forall key | key in shapeIndex :: shapeIndex[key].layer != target;
      OutsideExactly(index0, shapeIndex, target);
    }

    /**
     * One round of `clear`'s loop: the last shape of `target` is deleted,
     * which shortens `target` by one and drops only a record naming `target`.
     */
    method DeleteLastShape(target: Layer, ghost index0: map<string, ShapeRecord>)
      requires Valid() && Indexed() && Tagged() && Counted() && target in layers && |target.shapes| > 0
      requires forall key | key in shapeIndex :: key in index0 && shapeIndex[key] == index0[key]
      requires forall key | key in index0 && index0[key].layer != target :: key in shapeIndex
      modifies this`shapeIndex, this`shapeCount, this`contents, target`shapes
      ensures Valid() && Indexed() && Tagged() && Counted()
      ensures forall key | key in shapeIndex :: key in index0 && shapeIndex[key] == index0[key]
      ensures forall key | key in index0 && index0[key].layer != target :: key in shapeIndex
      ensures |target.shapes| == |old(target.shapes)| - 1
    {
      var shape := target.shapes[|target.shapes| - 1];
      assert target in contents && shape in contents[target];
      ListedIsIndexed(shapeIndex, contents, sidOf, target, shape);
      assert shape.sid in shapeIndex && shapeIndex[shape.sid].layer == target;
      ghost var before, index := target.shapes, shapeIndex;
      var _ := DeleteShape(shape);
      assert target.shapes == RemoveAt(before, IndexOf(before, shape));
      OthersKept(index0, index, shapeIndex, shape.sid, target);
    }

    /** `clearSelections`: nothing is selected. */
    method ClearSelections()
      modifies this`selections
      ensures selections == []
    {
      selections := [];
    }

    /**
     * `setSelection`: the selection becomes the given array itself, the one
     * given shape, or nothing for null (and for an empty array).
     */
    method SetSelection(shapes: ShapeArg)
      modifies this`selections
      ensures selections == ArgShapes(shapes)
      ensures shapes.NoShapes? || shapes == Many([]) ==> selections == []
    {
      ClearSelections();
      selections := ArgShapes(shapes);
    }

    /**
     * `xorSelection`: each given shape, in order, is deselected if selected
     * and appended otherwise.
     */
    method XorSelection(shapes: ShapeArg)
      modifies this`selections
      ensures selections == XorAll(old(selections), ArgShapes(shapes))
    {
      var ps := ArgShapes(shapes);
      var i := 0;
      while i < |ps|
        invariant 0 <= i <= |ps|
        invariant selections == XorAll(old(selections), ps[..i])
      {
        var existingIndex := IndexOf(selections, ps[i]);
        if existingIndex == -1 {
          selections := selections + [ps[i]];
        } else {
          selections := SpliceOut(selections, existingIndex);
        }
        assert ps[..i + 1][..i] == ps[..i];
        i := i + 1;
      }
      assert ps[..i] == ps;
    }

    /**
     * `getVisibleShapes`: the shapes of all records whose layer is not
     * hidden, each once. The order (the insertion order of the sids in the
     * JavaScript object) is not modelled.
     */
    method GetVisibleShapes() returns (shapes: seq<Shape>)
      requires Indexed()
      ensures forall s :: s in shapes <==>
        exists sid :: sid in shapeIndex && shapeIndex[sid].shape == s && !shapeIndex[sid].layer.hidden
      ensures NoDup(shapes)
    {
      shapes := [];
      var todo := shapeIndex.Keys;
      while todo != {}
        invariant todo <= shapeIndex.Keys
        invariant NoDup(shapes)
        invariant forall s :: s in shapes <==>
          exists sid :: sid in shapeIndex - todo && shapeIndex[sid].shape == s && !shapeIndex[sid].layer.hidden
        decreases |todo|
      {
        var sid :| sid in todo;
        var rec := shapeIndex[sid];
        if !rec.layer.hidden {
          assert rec.shape !in shapes;
          NoDupAppend(shapes, rec.shape);
          shapes := shapes + [rec.shape];
        }
        todo := todo - {sid};
      }
    }
  }
}
