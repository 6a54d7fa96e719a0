/**
 * The JavaScript array primitives the source relies on (`indexOf`, `splice`,
 * `push`), stated on sequences.
 */
module Seqs {

  /** `Array.prototype.indexOf`: the first index holding `x`, or -1. */
  function IndexOf<T(==)>(s: seq<T>, x: T): (i: int)
    ensures -1 <= i < |s|
    ensures i == -1 <==> x !in s
    ensures 0 <= i ==> s[i] == x && x !in s[..i]
  {
    if |s| == 0 then -1
    else if s[0] == x then 0
    else
      var j := IndexOf(s[1..], x);
      assert s[1..][..if j < 0 then 0 else j] == s[1..if j < 0 then 1 else j + 1];
      if j == -1 then -1 else j + 1
  }

  /** Removes the element at index `i`, keeping the others in order. */
  function RemoveAt<T>(s: seq<T>, i: nat): (r: seq<T>)
    requires i < |s|
    ensures |r| == |s| - 1
  {
    s[..i] + s[i + 1..]
  }

  /**
   * The position `splice(start, ...)` actually starts at: a negative start
   * counts from the end (clamped at 0), a large one is clamped to the length.
   */
  function SpliceStart<T>(s: seq<T>, start: int): (a: nat)
    ensures a <= |s|
    ensures 0 <= start <= |s| ==> a == start
    ensures start < 0 && |s| + start >= 0 ==> a == |s| + start
    ensures start < 0 && |s| + start < 0 ==> a == 0
  {
    if start < 0 then (if |s| + start < 0 then 0 else |s| + start)
    else if start > |s| then |s| else start
  }

  /** `s.splice(start, 1)`: removes the element at the normalised start, if any. */
  function SpliceOut<T>(s: seq<T>, start: int): (r: seq<T>)
    ensures SpliceStart(s, start) < |s| ==> r == RemoveAt(s, SpliceStart(s, start))
    ensures SpliceStart(s, start) == |s| ==> r == s
  {
    var a := SpliceStart(s, start);
    if a < |s| then RemoveAt(s, a) else s
  }

  /** `s` with `x` placed at index `a`, the elements from `a` on moving up by one. */
  function InsertAt<T>(s: seq<T>, a: nat, x: T): (r: seq<T>)
    requires a <= |s|
    ensures |r| == |s| + 1
    decreases a
  {
    if a == 0 then [x] + s else [s[0]] + InsertAt(s[1..], a - 1, x)
  }

  /** `InsertAt` is the prefix, the new element, then the rest. */
  lemma {:induction false} InsertAtParts<T>(s: seq<T>, a: nat, x: T)
    requires a <= |s|
    ensures InsertAt(s, a, x) == s[..a] + [x] + s[a..]
    decreases a
  {
    if a > 0 {
      InsertAtParts(s[1..], a - 1, x);
      assert s[1..][..a - 1] == s[1..a];
      assert s[1..][a - 1..] == s[a..];
      assert s[..a] == [s[0]] + s[1..a];
    }
  }

  /**
   * `s.splice(start, 0, x)`: inserts `x` at the normalised start. The shape of
   * the result is given by `SpliceInParts`.
   */
  function SpliceIn<T>(s: seq<T>, start: int, x: T): (r: seq<T>)
    ensures |r| == |s| + 1
  {
    InsertAt(s, SpliceStart(s, start), x)
  }

  /** The elements of a `splice` insertion: those before the start, `x`, then the rest. */
  lemma SpliceInParts<T>(s: seq<T>, start: int, x: T)
    ensures SpliceIn(s, start, x) == s[..SpliceStart(s, start)] + [x] + s[SpliceStart(s, start)..]
  {
    InsertAtParts(s, SpliceStart(s, start), x);
  }

  /** No element occurs twice. */
  predicate NoDup<T(==)>(s: seq<T>)
  {
    forall i, j :: 0 <= i < j < |s| ==> s[i] != s[j]
  }

  /** The sequence with the first occurrence of `x` deleted (unchanged if absent). */
  function Without<T(==)>(s: seq<T>, x: T): (r: seq<T>)
    ensures x in s ==> r == RemoveAt(s, IndexOf(s, x))
    ensures x !in s ==> r == s
  {
    var i := IndexOf(s, x);
    if i < 0 then s else RemoveAt(s, i)
  }

  lemma NoDupRemoveAt<T>(s: seq<T>, i: nat)
    requires NoDup(s) && i < |s|
    ensures NoDup(RemoveAt(s, i))
    ensures s[i] !in RemoveAt(s, i)
    ensures forall y :: y in RemoveAt(s, i) <==> y in s && y != s[i]
  {
    var r := RemoveAt(s, i);
    forall y | y in s && y != s[i] ensures y in r {
      var k :| 0 <= k < |s| && s[k] == y;
      if k < i { assert r[k] == y; } else { assert r[k - 1] == y; }
    }
  }

  /** Appending an absent element and then deleting it restores the sequence. */
  lemma {:induction false} WithoutAppended<T>(s: seq<T>, x: T)
    requires x !in s
    ensures Without(s + [x], x) == s
  {
    assert (s + [x])[..|s|] == s;
  }

  /** A match at `i` with none before it is the one `IndexOf` finds. */
  lemma IndexOfFirstMatch<T>(s: seq<T>, x: T, i: nat)
    requires i < |s| && s[i] == x && x !in s[..i]
    ensures IndexOf(s, x) == i
  {
    assert x in s;
  }

  /** Inserting an absent element keeps a sequence duplicate-free and adds exactly that element. */
  lemma SpliceInNoDup<T>(s: seq<T>, start: int, x: T)
    requires NoDup(s) && x !in s
    ensures NoDup(SpliceIn(s, start, x))
    ensures forall y :: y in SpliceIn(s, start, x) <==> y in s || y == x
  {
    var a := SpliceStart(s, start);
    var r := SpliceIn(s, start, x);
    SpliceInParts(s, start, x);
    forall i, j | 0 <= i < j < |r| ensures r[i] != r[j] {
      if i < a && j == a {
        assert r[i] == s[i];
      } else if i == a {
        assert r[j] == s[j - 1];
      }
    }
    forall y | y in s ensures y in r {
      var k :| 0 <= k < |s| && s[k] == y;
      if k < a { assert r[k] == y; } else { assert r[k + 1] == y; }
    }
  }

  /** Appending an absent element keeps a sequence duplicate-free. */
  lemma NoDupAppend<T>(s: seq<T>, x: T)
    requires NoDup(s) && x !in s
    ensures NoDup(s + [x])
  {
    forall i, j | 0 <= i < j < |s + [x]| ensures (s + [x])[i] != (s + [x])[j] {
      if j == |s| {
        assert (s + [x])[i] == s[i];
      }
    }
  }
}
