/**
 * core/SpatialHash.js: a grid of buckets of points for nearby-point searches,
 * with a lookup table from each distinct point to its instance count and its
 * place (bucket and slot) in the grid.
 *
 * Coordinates are integers: the source keys its lookup table on coordinates
 * rounded to three decimals, so a point is modelled by its position on that
 * grid, and the lookup key of a point is the point itself. Bucket keys are
 * the bucket centres (the source writes them as "x,y" strings).
 */
module SpatialHashes {
  import opened Wrappers
  import opened Util

  datatype Coord = Coord(x: int, y: int)

  /** A grid cell: `nodes` may hold `None` (a JavaScript null) only while `remove` runs. */
  datatype Bucket = Bucket(nodes: seq<Option<Coord>>, dirty: bool)

  /** A lookup entry: how many times the point was inserted, and where it is stored. */
  datatype NodeInfo = NodeInfo(count: nat, bucketIndex: Coord, nodeIndex: nat)

  /**
   * `Util.roundToMultiple(x, w)`, i.e. `Math.round(x / w) * w`: the multiple
   * of `w` nearest to `x`, a tie going to the larger one.
   */
  function RoundToMultiple(x: int, w: int): (r: int)
    requires w > 0
    ensures -w <= 2 * (x - r) < w
  {
    var k := (2 * x + w) / (2 * w);
    assert k * (2 * w) <= 2 * x + w < k * (2 * w) + 2 * w;
    k * w
  }

  /** The result is a multiple of the width. */
  lemma RoundToMultipleIsMultiple(x: int, w: int)
    requires w > 0
    ensures RoundToMultiple(x, w) % w == 0
  {
    MultipleMod((2 * x + w) / (2 * w), w);
  }

  lemma MulNonNegative(a: int, b: int)
    requires a >= 0 && b >= 0
    ensures a * b >= 0
  {
  }

  /** Integer division is determined by the bounds of its quotient. */
  lemma DivUnique(n: int, m: int, k: int)
    requires m > 0 && k * m <= n < k * m + m
    ensures n / m == k
  {
    var j := n / m;
    if j < k {
      MulNonNegative(k - j - 1, m);
    } else if j > k {
      MulNonNegative(j - k - 1, m);
    }
  }

  lemma MultipleMod(k: int, w: int)
    requires w > 0
    ensures (k * w) % w == 0
  {
    DivUnique(k * w, w, k);
  }

  /** There is only one such multiple. */
  lemma RoundToMultipleUnique(x: int, w: int, m: int)
    requires w > 0 && m % w == 0 && -w <= 2 * (x - m) < w
    ensures RoundToMultiple(x, w) == m
  {
    var b := m / w;
    assert m == b * w;
    assert b * (2 * w) == 2 * m;
    DivUnique(2 * x + w, 2 * w, b);
  }

  /** `getBucketIndex`: the centre of the grid cell holding `c`. */
  function BucketIndex(c: Coord, w: int): (b: Coord)
    requires w > 0
    ensures -w <= 2 * (c.x - b.x) < w
    ensures -w <= 2 * (c.y - b.y) < w
  {
    Coord(RoundToMultiple(c.x, w), RoundToMultiple(c.y, w))
  }

  // ---------------------------------------------------------------------
  // Instance counts: what `insert` and `remove` do to the stored multiset

  /** The counts after `insert(c)`. */
  function InsertCount(m: map<Coord, nat>, c: Coord): map<Coord, nat>
  {
    m[c := if c in m then m[c] + 1 else 1]
  }

  /** The counts after removing one instance of `c`: the key goes when its count reaches 0. */
  function RemoveCount(m: map<Coord, nat>, c: Coord): map<Coord, nat>
  {
    if c !in m then m
    else if m[c] <= 1 then m - {c}
    else m[c := m[c] - 1]
  }

  /** The counts after `remove(cs)`, which handles `cs` from first to last. */
  function RemoveCounts(m: map<Coord, nat>, cs: seq<Coord>): (r: map<Coord, nat>)
    ensures r.Keys <= m.Keys
  {
    if |cs| == 0 then m else RemoveCount(RemoveCounts(m, cs[..|cs| - 1]), cs[|cs| - 1])
  }

  /** The counts after `insert` of each point of `cs`, first to last. */
  function InsertAll(m: map<Coord, nat>, cs: seq<Coord>): map<Coord, nat>
  {
    if |cs| == 0 then m else InsertCount(InsertAll(m, cs[..|cs| - 1]), cs[|cs| - 1])
  }

  /** Inserting `a` and then `b` is inserting `a + b`. */
  lemma {:induction false} InsertAllAppend(m: map<Coord, nat>, a: seq<Coord>, b: seq<Coord>)
    ensures InsertAll(m, a + b) == InsertAll(InsertAll(m, a), b)
    decreases |b|
  {
    if |b| > 0 {
      var b' := b[..|b| - 1];
      assert (a + b)[..|a + b| - 1] == a + b';
      InsertAllAppend(m, a, b');
    } else {
      assert a + b == a;
    }
  }

  /** Removing `a` and then `b` is removing `a + b`. */
  lemma {:induction false} RemoveCountsAppend(m: map<Coord, nat>, a: seq<Coord>, b: seq<Coord>)
    ensures RemoveCounts(m, a + b) == RemoveCounts(RemoveCounts(m, a), b)
    decreases |b|
  {
    if |b| > 0 {
      var b' := b[..|b| - 1];
      assert (a + b)[..|a + b| - 1] == a + b';
      RemoveCountsAppend(m, a, b');
    } else {
      assert a + b == a;
    }
  }

  /** How many instances of `d` the counts hold. */
  function Mult(m: map<Coord, nat>, d: Coord): nat
  {
    if d in m then m[d] else 0
  }

  /** `insert` of each point of `cs` adds its number of occurrences in `cs`. */
  lemma {:induction false} MultInsertAll(m: map<Coord, nat>, cs: seq<Coord>, d: Coord)
    ensures Mult(InsertAll(m, cs), d) == Mult(m, d) + multiset(cs)[d]
    decreases |cs|
  {
    if |cs| > 0 {
      var init := cs[..|cs| - 1];
      assert cs == init + [cs[|cs| - 1]];
      MultInsertAll(m, init, d);
    }
  }

  /** `remove(cs)` takes away the occurrences of `d` in `cs`, stopping at 0. */
  lemma {:induction false} MultRemoveCounts(m: map<Coord, nat>, cs: seq<Coord>, d: Coord)
    ensures Mult(RemoveCounts(m, cs), d) == if Mult(m, d) > multiset(cs)[d] then Mult(m, d) - multiset(cs)[d] else 0
    decreases |cs|
  {
    if |cs| > 0 {
      var init := cs[..|cs| - 1];
      assert cs == init + [cs[|cs| - 1]];
      MultRemoveCounts(m, init, d);
    }
  }

  /** Removals keep counts positive. */
  lemma {:induction false} RemoveCountsPositive(m: map<Coord, nat>, cs: seq<Coord>)
    requires Positive(m)
    ensures Positive(RemoveCounts(m, cs))
    decreases |cs|
  {
    if |cs| > 0 {
      RemoveCountsPositive(m, cs[..|cs| - 1]);
    }
  }

  /** Insertions keep counts positive. */
  lemma {:induction false} InsertAllPositive(m: map<Coord, nat>, cs: seq<Coord>)
    requires Positive(m)
    ensures Positive(InsertAll(m, cs))
    decreases |cs|
  {
    if |cs| > 0 {
      InsertAllPositive(m, cs[..|cs| - 1]);
    }
  }

  /** Positive counts are determined by their multiplicities. */
  lemma MultDetermines(m: map<Coord, nat>, n: map<Coord, nat>)
    requires Positive(m) && Positive(n)
    requires forall d :: Mult(m, d) == Mult(n, d)
    ensures m == n
  {
    assert forall d :: d in m <==> Mult(m, d) > 0;
    assert forall d :: d in n <==> Mult(n, d) > 0;
    assert m.Keys == n.Keys;
  }

  /** Removing the points just inserted, in any order, restores the counts. */
  lemma InsertAllRemoveAll(m: map<Coord, nat>, cs: seq<Coord>, ds: seq<Coord>)
    requires Positive(m) && multiset(ds) == multiset(cs)
    ensures RemoveCounts(InsertAll(m, cs), ds) == m
  {
    var all := InsertAll(m, cs);
    forall d ensures Mult(all, d) == Mult(m, d) + multiset(cs)[d] {
      MultInsertAll(m, cs, d);
    }
    InsertAllPositive(m, cs);
    RemoveCountsPositive(all, ds);
    forall d ensures Mult(RemoveCounts(all, ds), d) == Mult(m, d) {
      MultRemoveCounts(all, ds, d);
    }
    MultDetermines(RemoveCounts(all, ds), m);
  }

  /** The counts after `n` calls of `insert(c)`. */
  function InsertCounts(m: map<Coord, nat>, c: Coord, n: nat): map<Coord, nat>
  {
    if n == 0 then m else InsertCount(InsertCounts(m, c, n - 1), c)
  }

  function Repeat(c: Coord, n: nat): (s: seq<Coord>)
    ensures |s| == n && forall i :: 0 <= i < n ==> s[i] == c
  {
    if n == 0 then [] else [c] + Repeat(c, n - 1)
  }

  /** Counts stay positive. */
  ghost predicate Positive(m: map<Coord, nat>)
  {
    forall d :: d in m ==> m[d] >= 1
  }

  /** Removing one instance undoes one insertion. */
  lemma RemoveAfterInsert(m: map<Coord, nat>, c: Coord)
    requires Positive(m)
    ensures RemoveCount(InsertCount(m, c), c) == m
  {
  }

  /** Inserting a point n times and then removing n copies of it restores the counts. */
  lemma InsertNRemoveN(m: map<Coord, nat>, c: Coord, n: nat)
    requires Positive(m)
    ensures RemoveCounts(InsertCounts(m, c, n), Repeat(c, n)) == m
  {
    if n > 0 {
      var base := if c in m then m[c] else 0;
      var all := m[c := base + n];
      assert InsertCounts(m, c, n) == all by { InsertCountsAdd(m, c, n); }
      if c in m {
        assert m[c] >= 1;
        assert RemoveCounts(all, Repeat(c, n)) == all[c := all[c] - n] by { RemoveRepeat(all, c, n); }
        assert all[c := all[c] - n] == m;
      } else {
        assert RemoveCounts(all, Repeat(c, n)) == all - {c} by { RemoveRepeat(all, c, n); }
        assert all - {c} == m;
      }
    }
  }

  /** n insertions of `c` add n to its count (from 0 when it is new). */
  lemma {:induction false} InsertCountsAdd(m: map<Coord, nat>, c: Coord, n: nat)
    ensures n > 0 ==> InsertCounts(m, c, n) == m[c := (if c in m then m[c] else 0) + n]
  {
    if n > 1 {
      InsertCountsAdd(m, c, n - 1);
      var base := if c in m then m[c] else 0;
      assert m[c := base + (n - 1)][c := base + n] == m[c := base + n];
    }
  }

  /** n removals of `c` take n from its count, and drop the key when nothing is left. */
  lemma {:induction false} RemoveRepeat(m: map<Coord, nat>, c: Coord, n: nat)
    requires c in m && 1 <= n <= m[c]
    ensures m[c] == n ==> RemoveCounts(m, Repeat(c, n)) == m - {c}
    ensures m[c] > n ==> RemoveCounts(m, Repeat(c, n)) == m[c := m[c] - n]
  {
    var rs := Repeat(c, n);
    assert rs[..n - 1] == Repeat(c, n - 1) && rs[n - 1] == c;
    assert RemoveCounts(m, rs) == RemoveCount(RemoveCounts(m, Repeat(c, n - 1)), c);
    if n == 1 {
      assert RemoveCounts(m, Repeat(c, 0)) == m;
    } else {
      RemoveRepeat(m, c, n - 1);
      var rest := m[c := m[c] - (n - 1)];
      assert RemoveCounts(m, Repeat(c, n - 1)) == rest;
      if m[c] == n {
        assert rest - {c} == m - {c};
      } else {
        assert rest[c := m[c] - n] == m[c := m[c] - n];
      }
    }
  }

  // ---------------------------------------------------------------------
  // Compaction of a bucket: the non-null nodes in order

  /** The nodes of `ns` that are not null, in order (the `validNodes` of `remove`). */
  function Compact(ns: seq<Option<Coord>>): (r: seq<Option<Coord>>)
    ensures |r| <= |ns|
    ensures forall j :: 0 <= j < |r| ==> r[j].Some?
  {
    if |ns| == 0 then []
    else if ns[|ns| - 1].Some? then Compact(ns[..|ns| - 1]) + [ns[|ns| - 1]]
    else Compact(ns[..|ns| - 1])
  }

  /** A bucket without nulls is left as it is. */
  lemma {:induction false} CompactAllSome(ns: seq<Option<Coord>>)
    requires forall j :: 0 <= j < |ns| ==> ns[j].Some?
    ensures Compact(ns) == ns
  {
    if |ns| > 0 {
      CompactAllSome(ns[..|ns| - 1]);
      assert ns == ns[..|ns| - 1] + [ns[|ns| - 1]];
    }
  }

  /** Compacting a prefix gives a prefix of the compacted bucket. */
  lemma {:induction false} CompactPrefix(ns: seq<Option<Coord>>, p: nat)
    requires p <= |ns|
    ensures |Compact(ns[..p])| <= |Compact(ns)|
    ensures Compact(ns)[..|Compact(ns[..p])|] == Compact(ns[..p])
    decreases |ns| - p
  {
    if p < |ns| {
      CompactPrefix(ns, p + 1);
      assert ns[..p + 1][..p] == ns[..p];
    } else {
      assert ns[..p] == ns;
    }
  }

  /** The node in slot `p` lands in slot `|Compact(ns[..p])|` of the compacted bucket. */
  lemma CompactSlot(ns: seq<Option<Coord>>, p: nat)
    requires p < |ns| && ns[p].Some?
    ensures |Compact(ns[..p])| < |Compact(ns)|
    ensures Compact(ns)[|Compact(ns[..p])|] == ns[p]
  {
    assert ns[..p + 1][..p] == ns[..p];
    CompactPrefix(ns, p + 1);
  }

  /** Every slot of the compacted bucket comes from a non-null slot of the original. */
  lemma {:induction false} CompactSource(ns: seq<Option<Coord>>, q: nat)
    requires q < |Compact(ns)|
    ensures exists p :: 0 <= p < |ns| && ns[p].Some? && |Compact(ns[..p])| == q
  {
    var n := |ns| - 1;
    assert ns[..n + 1] == ns;
    if ns[n].Some? && q == |Compact(ns[..n])| {
      assert ns[n].Some? && |Compact(ns[..n])| == q;
    } else {
      CompactSource(ns[..n], q);
      var p :| 0 <= p < n && ns[..n][p].Some? && |Compact(ns[..n][..p])| == q;
      assert ns[..n][..p] == ns[..p];
    }
  }

  // ---------------------------------------------------------------------
  // The links between the buckets and the lookup table

  /**
   * `c` has a lookup entry. Used as the only trigger of LookupLinked, so
   * that the two link predicates do not instantiate each other endlessly.
   */
  ghost predicate Stored(lookup: map<Coord, NodeInfo>, c: Coord)
  {
    c in lookup
  }

  /** Every lookup entry names its point's bucket and a slot holding the point. */
  ghost predicate LookupLinked(buckets: map<Coord, Bucket>, lookup: map<Coord, NodeInfo>, w: int)
    requires w > 0
  {
    forall c {:trigger Stored(lookup, c)} :: Stored(lookup, c) ==>
      lookup[c].count >= 1 &&
      lookup[c].bucketIndex == BucketIndex(c, w) &&
      lookup[c].bucketIndex in buckets &&
      lookup[c].nodeIndex < |buckets[lookup[c].bucketIndex].nodes| &&
      buckets[lookup[c].bucketIndex].nodes[lookup[c].nodeIndex] == Some(c)
  }

  /** Every stored node has a lookup entry naming its bucket and slot (so no point is stored twice). */
  ghost predicate NodesLinked(buckets: map<Coord, Bucket>, lookup: map<Coord, NodeInfo>)
  {
    forall b, j :: b in buckets && 0 <= j < |buckets[b].nodes| && buckets[b].nodes[j].Some? ==>
      buckets[b].nodes[j].value in lookup &&
      lookup[buckets[b].nodes[j].value].bucketIndex == b &&
      lookup[buckets[b].nodes[j].value].nodeIndex == j
  }

  /** A bucket between calls: clean, not empty, and without nulls. */
  ghost predicate Clean(bucket: Bucket)
  {
    !bucket.dirty && |bucket.nodes| > 0 &&
    forall j :: 0 <= j < |bucket.nodes| ==> bucket.nodes[j].Some?
  }

  ghost predicate Linked(buckets: map<Coord, Bucket>, lookup: map<Coord, NodeInfo>, w: int)
  {
    w > 0 && LookupLinked(buckets, lookup, w) && NodesLinked(buckets, lookup)
  }

  /** Inserting a new point into its bucket keeps the links and the buckets clean. */
  lemma InsertNewLinked(buckets: map<Coord, Bucket>, lookup: map<Coord, NodeInfo>, w: int, c: Coord)
    requires Linked(buckets, lookup, w) && c !in lookup
    requires forall b :: b in buckets ==> Clean(buckets[b])
    ensures
      var b := BucketIndex(c, w);
      var ns := if b in buckets then buckets[b].nodes else [];
      var buckets' := buckets[b := Bucket(ns + [Some(c)], false)];
      Linked(buckets', lookup[c := NodeInfo(1, b, |ns|)], w) &&
      forall b' :: b' in buckets' ==> Clean(buckets'[b'])
  {
    var b := BucketIndex(c, w);
    var ns := if b in buckets then buckets[b].nodes else [];
    var buckets' := buckets[b := Bucket(ns + [Some(c)], false)];
    var lookup' := lookup[c := NodeInfo(1, b, |ns|)];
    forall d | Stored(lookup', d)
      ensures lookup'[d].count >= 1 && lookup'[d].bucketIndex == BucketIndex(d, w)
      ensures lookup'[d].bucketIndex in buckets' && lookup'[d].nodeIndex < |buckets'[lookup'[d].bucketIndex].nodes|
      ensures buckets'[lookup'[d].bucketIndex].nodes[lookup'[d].nodeIndex] == Some(d)
    {
      if d != c {
        assert Stored(lookup, d);
        if lookup[d].bucketIndex == b {
          assert buckets'[b].nodes[lookup[d].nodeIndex] == ns[lookup[d].nodeIndex];
        }
      }
    }
    forall b', j | b' in buckets' && 0 <= j < |buckets'[b'].nodes| && buckets'[b'].nodes[j].Some?
      ensures buckets'[b'].nodes[j].value in lookup'
      ensures lookup'[buckets'[b'].nodes[j].value].bucketIndex == b'
      ensures lookup'[buckets'[b'].nodes[j].value].nodeIndex == j
    {
      if b' == b && j < |ns| {
        assert buckets'[b'].nodes[j] == buckets[b].nodes[j];
      }
    }
  }

  /** Changing a known point's count to another positive count keeps the links. */
  lemma RecountLinked(buckets: map<Coord, Bucket>, lookup: map<Coord, NodeInfo>, w: int, c: Coord, n: nat)
    requires Linked(buckets, lookup, w) && c in lookup && n >= 1
    ensures Linked(buckets, lookup[c := lookup[c].(count := n)], w)
  {
    var lookup' := lookup[c := lookup[c].(count := n)];
    forall d | Stored(lookup', d)
      ensures lookup'[d].count >= 1 && lookup'[d].bucketIndex == BucketIndex(d, w)
      ensures lookup'[d].bucketIndex in buckets && lookup'[d].nodeIndex < |buckets[lookup'[d].bucketIndex].nodes|
      ensures buckets[lookup'[d].bucketIndex].nodes[lookup'[d].nodeIndex] == Some(d)
    {
      assert Stored(lookup, d);
    }
  }

  /** A bucket while `remove` runs: not empty, and nulls only in a dirty bucket. */
  ghost predicate Pending(bucket: Bucket)
  {
    |bucket.nodes| > 0 &&
    (!bucket.dirty ==> forall j :: 0 <= j < |bucket.nodes| ==> bucket.nodes[j].Some?)
  }

  /** Nulling the slot of a point whose count drops to 0, and dropping its entry, keeps the links. */
  lemma RemoveNodeLinked(buckets: map<Coord, Bucket>, lookup: map<Coord, NodeInfo>, w: int, c: Coord)
    requires Linked(buckets, lookup, w) && Stored(lookup, c)
    requires forall b :: b in buckets ==> Pending(buckets[b])
    ensures
      var info := lookup[c];
      var bucket := buckets[info.bucketIndex];
      var buckets' := buckets[info.bucketIndex := Bucket(bucket.nodes[info.nodeIndex := None], true)];
      Linked(buckets', lookup - {c}, w) &&
      forall b :: b in buckets' ==> Pending(buckets'[b])
  {
    assert Stored(lookup, c);
    var info := lookup[c];
    var bi := info.bucketIndex;
    var bucket := buckets[bi];
    var buckets' := buckets[bi := Bucket(bucket.nodes[info.nodeIndex := None], true)];
    var lookup' := lookup - {c};
    forall d | Stored(lookup', d)
      ensures lookup'[d].count >= 1 && lookup'[d].bucketIndex == BucketIndex(d, w)
      ensures lookup'[d].bucketIndex in buckets' && lookup'[d].nodeIndex < |buckets'[lookup'[d].bucketIndex].nodes|
      ensures buckets'[lookup'[d].bucketIndex].nodes[lookup'[d].nodeIndex] == Some(d)
    {
      assert Stored(lookup, d);
    }
    forall b, j | b in buckets' && 0 <= j < |buckets'[b].nodes| && buckets'[b].nodes[j].Some?
      ensures buckets'[b].nodes[j].value in lookup'
      ensures lookup'[buckets'[b].nodes[j].value].bucketIndex == b
      ensures lookup'[buckets'[b].nodes[j].value].nodeIndex == j
    {
      assert buckets'[b].nodes[j] == buckets[b].nodes[j];
    }
  }

  /**
   * The lookup table after the first `j` slots of bucket `b` (holding `ns`)
   * were compacted: entries of points in those slots name their new slot.
   */
  ghost function Relocated(lookup: map<Coord, NodeInfo>, b: Coord, ns: seq<Option<Coord>>, j: nat): (r: map<Coord, NodeInfo>)
    requires j <= |ns|
    ensures r.Keys == lookup.Keys
  {
    map c | c in lookup ::
      if lookup[c].bucketIndex == b && lookup[c].nodeIndex < j
      then lookup[c].(nodeIndex := |Compact(ns[..lookup[c].nodeIndex])|)
      else lookup[c]
  }

  /** One step of the compaction loop: the node in slot `j`, if any, gets the next free slot. */
  lemma RelocateStep(buckets: map<Coord, Bucket>, lookup: map<Coord, NodeInfo>, w: int, b: Coord, j: nat)
    requires Linked(buckets, lookup, w) && b in buckets && j < |buckets[b].nodes|
    ensures
      var ns := buckets[b].nodes;
      var r := Relocated(lookup, b, ns, j);
      Relocated(lookup, b, ns, j + 1) ==
        if ns[j].Some? then r[ns[j].value := r[ns[j].value].(nodeIndex := |Compact(ns[..j])|)] else r
  {
    var ns := buckets[b].nodes;
    var r := Relocated(lookup, b, ns, j);
    var r' := Relocated(lookup, b, ns, j + 1);
    var e := if ns[j].Some? then r[ns[j].value := r[ns[j].value].(nodeIndex := |Compact(ns[..j])|)] else r;
    assert r'.Keys == e.Keys;
    forall d | d in r' ensures r'[d] == e[d] {
      assert Stored(lookup, d);
      if ns[j].Some? && d == ns[j].value {
        assert lookup[d].bucketIndex == b && lookup[d].nodeIndex == j;
      } else if lookup[d].bucketIndex == b {
        assert lookup[d].nodeIndex != j;
      }
    }
  }

  /**
   * Replacing bucket `b` by its compacted nodes, with the relocated lookup
   * table, keeps the links; when nothing is left the bucket can go.
   */
  lemma CompactLinked(buckets: map<Coord, Bucket>, lookup: map<Coord, NodeInfo>, w: int, b: Coord)
    requires Linked(buckets, lookup, w) && b in buckets
    ensures
      var ns := buckets[b].nodes;
      var r := Relocated(lookup, b, ns, |ns|);
      (|Compact(ns)| > 0 ==> Linked(buckets[b := Bucket(Compact(ns), false)], r, w)) &&
      (|Compact(ns)| == 0 ==> Linked(buckets - {b}, r, w))
  {
    var ns := buckets[b].nodes;
    var r := Relocated(lookup, b, ns, |ns|);
    var buckets' := if |Compact(ns)| > 0 then buckets[b := Bucket(Compact(ns), false)] else buckets - {b};
    forall d | Stored(r, d)
      ensures r[d].count >= 1 && r[d].bucketIndex == BucketIndex(d, w)
      ensures r[d].bucketIndex in buckets' && r[d].nodeIndex < |buckets'[r[d].bucketIndex].nodes|
      ensures buckets'[r[d].bucketIndex].nodes[r[d].nodeIndex] == Some(d)
    {
      assert Stored(lookup, d);
      if lookup[d].bucketIndex == b {
        CompactSlot(ns, lookup[d].nodeIndex);
      }
    }
    forall b', q | b' in buckets' && 0 <= q < |buckets'[b'].nodes| && buckets'[b'].nodes[q].Some?
      ensures buckets'[b'].nodes[q].value in r
      ensures r[buckets'[b'].nodes[q].value].bucketIndex == b'
      ensures r[buckets'[b'].nodes[q].value].nodeIndex == q
    {
      if b' == b {
        CompactSource(ns, q);
        var p :| 0 <= p < |ns| && ns[p].Some? && |Compact(ns[..p])| == q;
        CompactSlot(ns, p);
      }
    }
  }

  /** Relocation leaves the counts alone. */
  lemma RelocatedCounts(lookup: map<Coord, NodeInfo>, b: Coord, ns: seq<Option<Coord>>, j: nat)
    requires j <= |ns|
    ensures CountsOf(Relocated(lookup, b, ns, j)) == CountsOf(lookup)
  {
  }

  /** The instance counts recorded in a lookup table. */
  ghost function CountsOf(lookup: map<Coord, NodeInfo>): (m: map<Coord, nat>)
    ensures m.Keys == lookup.Keys
  {
    map c | c in lookup :: lookup[c].count
  }

  lemma CountsOfInsert(lookup: map<Coord, NodeInfo>, c: Coord, info: NodeInfo)
    requires c in lookup ==> info.count == lookup[c].count + 1
    requires c !in lookup ==> info.count == 1
    ensures CountsOf(lookup[c := info]) == InsertCount(CountsOf(lookup), c)
  {
    var l := CountsOf(lookup[c := info]);
    var r := InsertCount(CountsOf(lookup), c);
    assert l.Keys == r.Keys;
    forall d | d in l ensures l[d] == r[d] {}
  }

  lemma CountsOfRemove(lookup: map<Coord, NodeInfo>, c: Coord)
    requires c in lookup && lookup[c].count >= 1
    ensures lookup[c].count == 1 ==> CountsOf(lookup - {c}) == RemoveCount(CountsOf(lookup), c)
    ensures lookup[c].count > 1 ==>
      CountsOf(lookup[c := lookup[c].(count := lookup[c].count - 1)]) == RemoveCount(CountsOf(lookup), c)
  {
    if lookup[c].count == 1 {
      var l := CountsOf(lookup - {c});
      var r := RemoveCount(CountsOf(lookup), c);
      assert l.Keys == r.Keys;
    } else {
      var l := CountsOf(lookup[c := lookup[c].(count := lookup[c].count - 1)]);
      var r := RemoveCount(CountsOf(lookup), c);
      assert l.Keys == r.Keys;
    }
  }

  // ---------------------------------------------------------------------
  // The cells `search` looks in, and what it collects from them

  function Abs(x: int): (r: nat)
    ensures r == x || r == -x
  {
    if x < 0 then -x else x
  }

  /** The search region is a square: both coordinates within `radius` of the query. */
  predicate Within(p: Coord, q: Coord, radius: real)
  {
    Abs(p.x - q.x) as real <= radius && Abs(p.y - q.y) as real <= radius
  }

  /**
   * The home cell `b` followed by the neighbours `search` adds, in its order:
   * (nx, by), then (nx, ny), then (bx, ny).
   */
  function Cells(b: Coord, nx: Option<int>, ny: Option<int>): (cells: seq<Coord>)
    ensures 1 <= |cells| <= 4 && cells[0] == b
    ensures forall c :: c in cells <==> (c.x == b.x || nx == Some(c.x)) && (c.y == b.y || ny == Some(c.y))
  {
    var withX := if nx.Some? then [Coord(nx.value, b.y)] + (if ny.Some? then [Coord(nx.value, ny.value)] else []) else [];
    var withY := if ny.Some? then [Coord(b.x, ny.value)] else [];
    [b] + withX + withY
  }

  /**
   * The neighbour centre on one axis as `search` computes it: when the
   * query is within `radius` of the cell's edge, the next cell in the
   * direction `sign(d)`, where `d` is the query's offset from the centre.
   */
  function Neighbour(centre: int, d: int, radius: real, w: int): (n: Option<int>)
    ensures n.Some? <==> Abs(d) as real + radius >= w as real / 2.0
    ensures n.Some? && d == 0 ==> n.value == centre
    ensures n.Some? && d != 0 ==> n.value == centre + w || n.value == centre - w
  {
    if Abs(d) as real + radius >= w as real / 2.0 then Some(centre + Sign(d as real) * w) else None
  }

  /** The neighbour centre with a query on the centre line counted as leaning up, as the tie in `getBucketIndex` does. */
  function NeighbourFixed(centre: int, d: int, radius: real, w: int): (n: Option<int>)
    ensures n.Some? <==> Abs(d) as real + radius >= w as real / 2.0
    ensures n.Some? ==> n.value == centre + w || n.value == centre - w
  {
    if Abs(d) as real + radius >= w as real / 2.0 then Some(centre + (if d >= 0 then w else -w)) else None
  }

  /** The cells `search` looks in, as written. */
  function SearchCells(q: Coord, radius: real, w: int): (cells: seq<Coord>)
    requires w > 0
    ensures 1 <= |cells| <= 4 && cells[0] == BucketIndex(q, w)
  {
    var b := BucketIndex(q, w);
    Cells(b, Neighbour(b.x, q.x - b.x, radius, w), Neighbour(b.y, q.y - b.y, radius, w))
  }

  /** The cells `search` looks in, with the corrected neighbour choice. */
  function SearchCellsFixed(q: Coord, radius: real, w: int): (cells: seq<Coord>)
    requires w > 0
    ensures 1 <= |cells| <= 4 && cells[0] == BucketIndex(q, w)
  {
    var b := BucketIndex(q, w);
    Cells(b, NeighbourFixed(b.x, q.x - b.x, radius, w), NeighbourFixed(b.y, q.y - b.y, radius, w))
  }

  /** The nodes of one bucket within the search square, in slot order. */
  function Near(ns: seq<Option<Coord>>, q: Coord, radius: real): (r: seq<Coord>)
    ensures forall p :: p in r ==> Some(p) in ns && Within(p, q, radius)
    ensures forall j :: 0 <= j < |ns| && ns[j].Some? && Within(ns[j].value, q, radius) ==> ns[j].value in r
  {
    if |ns| == 0 then []
    else
      var last := ns[|ns| - 1];
      var init := ns[..|ns| - 1];
      assert forall j :: 0 <= j < |ns| - 1 ==> ns[j] == init[j];
      Near(init, q, radius) + (if last.Some? && Within(last.value, q, radius) then [last.value] else [])
  }

  /** What `search` returns when it looks in `cells`: the near nodes of each existing cell, cell by cell. */
  function Found(buckets: map<Coord, Bucket>, cells: seq<Coord>, q: Coord, radius: real): (r: seq<Coord>)
    ensures forall p :: p in r ==> Within(p, q, radius) && exists b :: b in cells && b in buckets && Some(p) in buckets[b].nodes
    ensures forall b, j ::
      (b in cells && b in buckets && 0 <= j < |buckets[b].nodes| && buckets[b].nodes[j].Some? &&
       Within(buckets[b].nodes[j].value, q, radius)) ==> buckets[b].nodes[j].value in r
  {
    if |cells| == 0 then []
    else
      var last := cells[|cells| - 1];
      var init := cells[..|cells| - 1];
      assert forall b :: b in cells <==> b in init || b == last;
      Found(buckets, init, q, radius) + (if last in buckets then Near(buckets[last].nodes, q, radius) else [])
  }

  /** The multiple of `w` one cell up is a multiple too. */
  lemma NextMultiple(x: int, w: int)
    requires w > 0
    ensures (RoundToMultiple(x, w) + w) % w == 0 && (RoundToMultiple(x, w) - w) % w == 0
  {
    var k := (2 * x + w) / (2 * w);
    assert RoundToMultiple(x, w) + w == (k + 1) * w;
    assert RoundToMultiple(x, w) - w == (k - 1) * w;
    MultipleMod(k + 1, w);
    MultipleMod(k - 1, w);
  }

  /**
   * On one axis: a coordinate within `radius <= w/2` of the query lies in
   * the query's cell or in the neighbour the corrected choice adds.
   */
  lemma NeighbourFixedCovers(pc: int, qc: int, radius: real, w: int)
    requires w > 0 && radius <= w as real / 2.0 && Abs(pc - qc) as real <= radius
    ensures
      var b := RoundToMultiple(qc, w);
      RoundToMultiple(pc, w) == b || NeighbourFixed(b, qc - b, radius, w) == Some(RoundToMultiple(pc, w))
  {
    var b := RoundToMultiple(qc, w);
    var d, e := qc - b, pc - qc;
    assert 2 * Abs(e) <= w;
    RoundToMultipleIsMultiple(qc, w);
    NextMultiple(qc, w);
    if 2 * (pc - b) >= w {
      RoundToMultipleUnique(pc, w, b + w);
      assert 2 * d >= 0;
    } else if 2 * (pc - b) < -w {
      RoundToMultipleUnique(pc, w, b - w);
      assert 2 * d < 0;
    } else {
      RoundToMultipleUnique(pc, w, b);
    }
  }

  /** With the corrected neighbours, the cell of every point in the search square is searched. */
  lemma SearchCellsFixedCover(p: Coord, q: Coord, radius: real, w: int)
    requires w > 0 && radius <= w as real / 2.0 && Within(p, q, radius)
    ensures BucketIndex(p, w) in SearchCellsFixed(q, radius, w)
  {
    NeighbourFixedCovers(p.x, q.x, radius, w);
    NeighbourFixedCovers(p.y, q.y, radius, w);
  }

  /**
   * As written, a query on a cell's centre line with `radius` exactly half
   * the width gets `sign(0) = 0` and looks in its own cell again, so a point
   * on the edge of the search square in the next cell is never looked at.
   */
  lemma SearchCellsMissEdge()
    ensures Within(Coord(1, 0), Coord(0, 0), 1.0) && 1.0 <= 2 as real / 2.0
    ensures BucketIndex(Coord(1, 0), 2) == Coord(2, 0)
    ensures SearchCells(Coord(0, 0), 1.0, 2) == [Coord(0, 0), Coord(0, 0), Coord(0, 0), Coord(0, 0)]
  {
    assert BucketIndex(Coord(0, 0), 2) == Coord(0, 0);
  }

  /** The inner loop of `search` over the nodes of one bucket. */
  method CollectBucket(nodes: seq<Option<Coord>>, q: Coord, radius: real) returns (near: seq<Coord>)
    ensures near == Near(nodes, q, radius)
  {
    near := [];
    var j := 0;
    while j < |nodes|
      invariant 0 <= j <= |nodes|
      invariant near == Near(nodes[..j], q, radius)
    {
      assert nodes[..j + 1][..j] == nodes[..j];
      var node := nodes[j];
      // a valid hash has no null nodes between calls
      if node.Some? && Within(node.value, q, radius) {
        near := near + [node.value];
      }
      j := j + 1;
    }
    assert nodes[..j] == nodes;
  }

  /** A map update adds a key exactly when the key is new. */
  lemma UpdateSize<K, V>(m: map<K, V>, k: K, v: V)
    ensures |m[k := v].Keys| == |m.Keys| + (if k in m then 0 else 1)
  {
    if k in m {
      assert m[k := v].Keys == m.Keys;
    } else {
      assert m[k := v].Keys == m.Keys + {k};
    }
  }

  /** The state between calls: links kept, buckets clean, and both counters agreeing with the tables. */
  ghost predicate Consistent(buckets: map<Coord, Bucket>, lookup: map<Coord, NodeInfo>, w: int, bucketCount: int, nodeCount: int)
  {
    Linked(buckets, lookup, w) &&
    bucketCount == |buckets.Keys| && nodeCount == |lookup.Keys| &&
    forall b :: b in buckets ==> Clean(buckets[b])
  }

  /** The tables after `insert` of a point without a lookup entry. */
  lemma InsertNewConsistent(buckets: map<Coord, Bucket>, lookup: map<Coord, NodeInfo>, w: int, bucketCount: int, nodeCount: int,
                            c: Coord, nodes: seq<Option<Coord>>)
    requires Consistent(buckets, lookup, w, bucketCount, nodeCount) && c !in lookup
    requires nodes == if BucketIndex(c, w) in buckets then buckets[BucketIndex(c, w)].nodes else []
    ensures Consistent(buckets[BucketIndex(c, w) := Bucket(nodes + [Some(c)], false)],
                       lookup[c := NodeInfo(1, BucketIndex(c, w), |nodes|)], w,
                       bucketCount + (if BucketIndex(c, w) in buckets then 0 else 1), nodeCount + 1)
    ensures CountsOf(lookup[c := NodeInfo(1, BucketIndex(c, w), |nodes|)]) == InsertCount(CountsOf(lookup), c)
  {
    var index := BucketIndex(c, w);
    var buckets' := buckets[index := Bucket(nodes + [Some(c)], false)];
    var lookup' := lookup[c := NodeInfo(1, index, |nodes|)];
    assert Linked(buckets', lookup', w) && forall b :: b in buckets' ==> Clean(buckets'[b]) by {
      InsertNewLinked(buckets, lookup, w, c);
    }
    UpdateSize(buckets, index, Bucket(nodes + [Some(c)], false));
    UpdateSize(lookup, c, NodeInfo(1, index, |nodes|));
    CountsOfInsert(lookup, c, NodeInfo(1, index, |nodes|));
  }

  // ---------------------------------------------------------------------
  // The hash

  class SpatialHash {
    var buckets: map<Coord, Bucket>
    const bucketWidth: int
    var bucketCount: int
    var nodeCount: int
    var fastLookup: map<Coord, NodeInfo>

    /** The stored points with their instance counts. */
    ghost function Counts(): map<Coord, nat>
      reads this
    {
      CountsOf(fastLookup)
    }

    ghost predicate Valid()
      reads this
    {
      Consistent(buckets, fastLookup, bucketWidth, bucketCount, nodeCount)
    }

    constructor (bucketWidth: int)
      requires bucketWidth > 0
      ensures Valid()
      ensures this.bucketWidth == bucketWidth && Counts() == map[]
      ensures buckets == map[] && fastLookup == map[] && bucketCount == 0 && nodeCount == 0
    {
      buckets := map[];
      this.bucketWidth := bucketWidth;
      bucketCount := 0;
      nodeCount := 0;
      fastLookup := map[];
    }

    /**
     * `insert`: a known point only has its count raised; a new point is
     * appended to its bucket (created if missing) and gets an entry with
     * count 1 and its slot.
     */
    method Insert(coord: Coord)
      requires Valid()
      modifies this
      ensures Valid()
      ensures Counts() == InsertCount(old(Counts()), coord)
      ensures coord in old(fastLookup) ==>
        buckets == old(buckets) && nodeCount == old(nodeCount) && bucketCount == old(bucketCount)
      ensures coord !in old(fastLookup) ==>
        var b := BucketIndex(coord, bucketWidth);
        nodeCount == old(nodeCount) + 1 &&
        buckets == old(buckets)[b := Bucket((if b in old(buckets) then old(buckets[b].nodes) else []) + [Some(coord)], false)] &&
        bucketCount == old(bucketCount) + (if b in old(buckets) then 0 else 1) &&
        fastLookup[coord] == NodeInfo(1, b, |buckets[b].nodes| - 1)
    {
      if coord !in fastLookup {
        InsertNew(coord);
      } else {
        var info := fastLookup[coord];
        var newLookup := fastLookup[coord := info.(count := info.count + 1)];
        RecountLinked(buckets, fastLookup, bucketWidth, coord, info.count + 1);
        CountsOfInsert(fastLookup, coord, info.(count := info.count + 1));
        assert newLookup.Keys == fastLookup.Keys;
        fastLookup := newLookup;
      }
    }

    /** The branch of `insert` for a point without a lookup entry. */
    method InsertNew(coord: Coord)
      requires Valid() && coord !in fastLookup
      modifies this
      ensures Valid()
      ensures Counts() == InsertCount(old(Counts()), coord)
      ensures
        var b := BucketIndex(coord, bucketWidth);
        nodeCount == old(nodeCount) + 1 &&
        buckets == old(buckets)[b := Bucket((if b in old(buckets) then old(buckets[b].nodes) else []) + [Some(coord)], false)] &&
        bucketCount == old(bucketCount) + (if b in old(buckets) then 0 else 1) &&
        fastLookup[coord] == NodeInfo(1, b, |buckets[b].nodes| - 1)
    {
      var index := BucketIndex(coord, bucketWidth);
      // a missing bucket is created holding just this node
      var nodes := if index in buckets then buckets[index].nodes else [];
      InsertNewConsistent(buckets, fastLookup, bucketWidth, bucketCount, nodeCount, coord, nodes);
      nodeCount := nodeCount + 1;
      if index !in buckets {
        bucketCount := bucketCount + 1;
      }
      buckets := buckets[index := Bucket(nodes + [Some(coord)], false)];
      fastLookup := fastLookup[coord := NodeInfo(1, index, |nodes|)];
    }

    /** A valid hash stores every counted point at least once. */
    lemma ValidPositive()
      requires Valid()
      ensures Positive(Counts())
    {
      forall d | d in Counts() ensures Counts()[d] >= 1 {
        assert Stored(fastLookup, d);
      }
    }

    /** The points held in the buckets. */
    ghost function StoredPoints(): set<Coord>
      reads this
    {
      set b, j | b in buckets && 0 <= j < |buckets[b].nodes| && buckets[b].nodes[j].Some? :: buckets[b].nodes[j].value
    }

    /** The buckets hold exactly the points with a positive count. */
    lemma StoredPointsCounted()
      requires Valid()
      ensures StoredPoints() == Counts().Keys
    {
      forall c | c in Counts() ensures c in StoredPoints() {
        assert Stored(fastLookup, c);
        var info := fastLookup[c];
        assert buckets[info.bucketIndex].nodes[info.nodeIndex] == Some(c);
      }
    }

    /** The candidate-collecting loop of `search`: the near nodes of each existing cell, in order. */
    method Collect(cells: seq<Coord>, q: Coord, radius: real) returns (near: seq<Coord>)
      ensures near == Found(buckets, cells, q, radius)
    {
      near := [];
      var i := 0;
      while i < |cells|
        invariant 0 <= i <= |cells|
        invariant near == Found(buckets, cells[..i], q, radius)
      {
        assert cells[..i + 1][..i] == cells[..i];
        if cells[i] in buckets {
          var found := CollectBucket(buckets[cells[i]].nodes, q, radius);
          near := near + found;
        }
        i := i + 1;
      }
      assert cells[..i] == cells;
    }
    /**
     * `search` as written: fails on a radius above half the bucket width,
     * otherwise returns the stored points within the search square found in
     * the home cell and the neighbours it picks.
     */
    method Search(q: Coord, radius: real) returns (r: Result<seq<Coord>, string>)
      requires Valid()
      ensures r.Err? <==> radius > bucketWidth as real / 2.0
      ensures r.Ok? ==> r.value == Found(buckets, SearchCells(q, radius, bucketWidth), q, radius)
      ensures r.Ok? ==> forall p :: p in r.value ==> p in Counts() && Within(p, q, radius)
    {
      if radius > bucketWidth as real / 2.0 {
        return Err("Radius passed to SpatialHash::search must be no larger than half the bucket width.");
      }
      var near := Collect(SearchCells(q, radius, bucketWidth), q, radius);
      FoundStored(SearchCells(q, radius, bucketWidth), q, radius);
      r := Ok(near);
    }

    /** `search` with the corrected neighbours: it finds every stored point in the search square. */
    method SearchFixed(q: Coord, radius: real) returns (r: Result<seq<Coord>, string>)
      requires Valid()
      ensures r.Err? <==> radius > bucketWidth as real / 2.0
      ensures r.Ok? ==> r.value == Found(buckets, SearchCellsFixed(q, radius, bucketWidth), q, radius)
      ensures r.Ok? ==> forall p :: p in r.value <==> p in Counts() && Within(p, q, radius)
    {
      if radius > bucketWidth as real / 2.0 {
        return Err("Radius passed to SpatialHash::search must be no larger than half the bucket width.");
      }
      var cells := SearchCellsFixed(q, radius, bucketWidth);
      var near := Collect(cells, q, radius);
      FoundStored(cells, q, radius);
      forall p | p in Counts() && Within(p, q, radius) ensures p in near {
        assert Stored(fastLookup, p);
        SearchCellsFixedCover(p, q, radius, bucketWidth);
      }
      r := Ok(near);
    }

    /** Everything collected from the buckets is a stored point. */
    lemma FoundStored(cells: seq<Coord>, q: Coord, radius: real)
      requires Valid()
      ensures forall p :: p in Found(buckets, cells, q, radius) ==> p in Counts()
    {
      forall p | p in Found(buckets, cells, q, radius) ensures p in Counts() {
        var b :| b in cells && b in buckets && Some(p) in buckets[b].nodes;
        var j :| 0 <= j < |buckets[b].nodes| && buckets[b].nodes[j] == Some(p);
      }
    }

    /**
     * `remove`: each listed point loses one instance, and a point whose count
     * reaches 0 leaves its bucket and the lookup table; then every bucket
     * that lost a node is compacted, and dropped when it became empty.
     */
    method Remove(coords: seq<Coord>)
      requires Valid()
      modifies this
      ensures Valid()
      ensures Counts() == RemoveCounts(old(Counts()), coords)
    {
      ReleaseAll(coords);
      CompactAll();
    }

    /** Between the two loops of `remove`: links kept, only dirty buckets may hold nulls. */
    ghost predicate Releasing()
      reads this
    {
      Linked(buckets, fastLookup, bucketWidth) &&
      bucketCount == |buckets.Keys| && nodeCount == |fastLookup.Keys| &&
      forall b :: b in buckets ==> Pending(buckets[b])
    }

    /** The first loop of `remove`: one instance of each listed point is released. */
    method ReleaseAll(coords: seq<Coord>)
      requires Valid()
      modifies this`buckets, this`nodeCount, this`fastLookup
      ensures Releasing()
      ensures Counts() == RemoveCounts(old(Counts()), coords)
    {
      var i := 0;
      while i < |coords|
        invariant 0 <= i <= |coords|
        invariant Releasing()
        invariant Counts() == RemoveCounts(old(Counts()), coords[..i])
      {
        var coord := coords[i];
        Release(coord);
        assert coords[..i + 1] == coords[..i] + [coord];
        i := i + 1;
      }
      assert coords[..i] == coords;
    }

    /** One step of the first loop of `remove`. */
    method Release(coord: Coord)
      requires Releasing()
      modifies this`buckets, this`nodeCount, this`fastLookup
      ensures Releasing()
      ensures Counts() == RemoveCount(old(Counts()), coord)
    {
      if coord in fastLookup {
        assert Stored(fastLookup, coord);
        var info := fastLookup[coord];
        CountsOfRemove(fastLookup, coord);
        if info.count - 1 == 0 {
          RemoveNodeLinked(buckets, fastLookup, bucketWidth, coord);
          nodeCount := nodeCount - 1;
          var bucket := buckets[info.bucketIndex];
          buckets := buckets[info.bucketIndex := Bucket(bucket.nodes[info.nodeIndex := None], true)];
          fastLookup := fastLookup - {coord};
          assert buckets.Keys == old(buckets.Keys);
        } else {
          RecountLinked(buckets, fastLookup, bucketWidth, coord, info.count - 1);
          fastLookup := fastLookup[coord := info.(count := info.count - 1)];
          assert fastLookup.Keys == old(fastLookup.Keys);
        }
      }
    }

    /** The second loop of `remove`: every dirty bucket is compacted. */
    method CompactAll()
      requires Releasing()
      modifies this`buckets, this`bucketCount, this`fastLookup
      ensures Valid()
      ensures Counts() == old(Counts())
    {
      var todo := buckets.Keys;
      while todo != {}
        invariant todo <= buckets.Keys
        invariant Releasing()
        invariant forall b :: b in buckets && b !in todo ==> Clean(buckets[b])
        invariant Counts() == old(Counts())
        decreases todo
      {
        var b :| b in todo;
        CompactIfDirty(b);
        todo := todo - {b};
      }
    }

    /** One step of the second loop of `remove`: a dirty bucket is compacted, a clean one left alone. */
    method CompactIfDirty(b: Coord)
      requires Releasing() && b in buckets
      modifies this`buckets, this`bucketCount, this`fastLookup
      ensures Releasing() && Counts() == old(Counts())
      ensures old(buckets.Keys) - {b} <= buckets.Keys <= old(buckets.Keys)
      ensures b in buckets ==> Clean(buckets[b])
      ensures forall b' :: b' in buckets && b' != b ==> buckets[b'] == old(buckets[b'])
    {
      if buckets[b].dirty {
        CompactBucket(b);
      } else {
        assert Pending(buckets[b]);
      }
    }

    /** The compaction of one dirty bucket in the second loop of `remove`. */
    method CompactBucket(b: Coord)
      requires Linked(buckets, fastLookup, bucketWidth) && b in buckets
      requires bucketCount == |buckets.Keys|
      modifies this`buckets, this`bucketCount, this`fastLookup
      ensures Linked(buckets, fastLookup, bucketWidth)
      ensures bucketCount == |buckets.Keys|
      ensures fastLookup == Relocated(old(fastLookup), b, old(buckets[b].nodes), |old(buckets[b].nodes)|)
      ensures |Compact(old(buckets[b].nodes))| > 0 ==> buckets == old(buckets)[b := Bucket(Compact(old(buckets[b].nodes)), false)]
      ensures |Compact(old(buckets[b].nodes))| == 0 ==> buckets == old(buckets) - {b}
      ensures fastLookup.Keys == old(fastLookup.Keys) && CountsOf(fastLookup) == CountsOf(old(fastLookup))
      ensures buckets.Keys <= old(buckets.Keys) && (b in buckets ==> Clean(buckets[b]))
      ensures forall b' :: b' in buckets && b' != b ==> buckets[b'] == old(buckets[b'])
    {
      var ns := buckets[b].nodes;
      ghost var lookup0 := fastLookup;
      var validNodes: seq<Option<Coord>> := [];
      var k := 0;
      var j := 0;
      while j < |ns|
        invariant 0 <= j <= |ns|
        invariant buckets == old(buckets) && bucketCount == old(bucketCount) && fastLookup.Keys == lookup0.Keys
        invariant validNodes == Compact(ns[..j]) && k == |validNodes|
        invariant fastLookup == Relocated(lookup0, b, ns, j)
      {
        var node := ns[j];
        assert ns[..j + 1][..j] == ns[..j];
        RelocateStep(buckets, lookup0, bucketWidth, b, j);
        if node.Some? {
          validNodes := validNodes + [node];
          // the node's entry gets its new slot
          fastLookup := fastLookup[node.value := fastLookup[node.value].(nodeIndex := k)];
          k := k + 1;
        }
        j := j + 1;
      }
      assert ns[..j] == ns;
      assert validNodes == Compact(ns);
      RelocatedCounts(lookup0, b, ns, |ns|);
      if |validNodes| == 0 {
        assert Linked(buckets - {b}, fastLookup, bucketWidth) by {
          CompactLinked(buckets, lookup0, bucketWidth, b);
        }
        bucketCount := bucketCount - 1;
        buckets := buckets - {b};
        assert buckets.Keys == old(buckets).Keys - {b};
      } else {
        assert Linked(buckets[b := Bucket(validNodes, false)], fastLookup, bucketWidth) by {
          CompactLinked(buckets, lookup0, bucketWidth, b);
        }
        buckets := buckets[b := Bucket(validNodes, false)];
        assert buckets.Keys == old(buckets).Keys;
      }
    }
  }

  /** n inserts of a point followed by one `remove` of n copies leave the hash as it was counted. */
  method InsertNThenRemoveN(h: SpatialHash, c: Coord, n: nat)
    requires h.Valid()
    modifies h
    ensures h.Valid()
    ensures h.Counts() == old(h.Counts())
    ensures h.StoredPoints() == old(h.StoredPoints())
  {
    h.StoredPointsCounted();
    h.ValidPositive();
    ghost var m := h.Counts();
    InsertN(h, c, n);
    h.Remove(Repeat(c, n));
    assert h.Counts() == m by { InsertNRemoveN(m, c, n); }
    h.StoredPointsCounted();
  }

  /** n calls of `insert(c)`. */
  method InsertN(h: SpatialHash, c: Coord, n: nat)
    requires h.Valid()
    modifies h
    ensures h.Valid()
    ensures h.Counts() == InsertCounts(old(h.Counts()), c, n)
  {
    ghost var m := h.Counts();
    var i := 0;
    while i < n
      invariant 0 <= i <= n
      invariant h.Valid()
      invariant h.Counts() == InsertCounts(m, c, i)
    {
      ghost var before := h.Counts();
      h.Insert(c);
      assert h.Counts() == InsertCount(before, c);
      assert InsertCounts(m, c, i + 1) == InsertCount(InsertCounts(m, c, i), c);
      i := i + 1;
    }
  }

  /**
   * The hash after `insert` of (1, 0) into an empty hash of width 2: a single
   * bucket centred on (2, 0). As written, `search((0, 0), 1)` collects
   * nothing from it, though (1, 0) is in the search square; with the
   * corrected neighbours it finds (1, 0).
   */
  lemma EdgeMissedAsWritten()
    ensures
      var buckets := map[Coord(2, 0) := Bucket([Some(Coord(1, 0))], false)];
      Within(Coord(1, 0), Coord(0, 0), 1.0) &&
      Found(buckets, SearchCells(Coord(0, 0), 1.0, 2), Coord(0, 0), 1.0) == [] &&
      Coord(1, 0) in Found(buckets, SearchCellsFixed(Coord(0, 0), 1.0, 2), Coord(0, 0), 1.0)
  {
    var buckets := map[Coord(2, 0) := Bucket([Some(Coord(1, 0))], false)];
    var cells := SearchCells(Coord(0, 0), 1.0, 2);
    assert cells == [Coord(0, 0), Coord(0, 0), Coord(0, 0), Coord(0, 0)] by { SearchCellsMissEdge(); }
    assert forall c :: c in cells ==> c == Coord(0, 0);
    assert Coord(0, 0) !in buckets;
    FoundNowhere(buckets, cells, Coord(0, 0), 1.0);
    SearchCellsFixedCover(Coord(1, 0), Coord(0, 0), 1.0, 2);
    assert buckets[Coord(2, 0)].nodes[0] == Some(Coord(1, 0));
  }

  /** Nothing is collected from cells that hold no bucket. */
  lemma {:induction false} FoundNowhere(buckets: map<Coord, Bucket>, cells: seq<Coord>, q: Coord, radius: real)
    requires forall c :: c in cells ==> c !in buckets
    ensures Found(buckets, cells, q, radius) == []
  {
    if |cells| > 0 {
      FoundNowhere(buckets, cells[..|cells| - 1], q, radius);
    }
  }
}
