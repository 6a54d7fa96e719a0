/** The pure helpers of Util.js: `peek`, `minMax`, `sign` and `between`. */
module Util {
  import opened Wrappers

  /** `Array.prototype.peek`: the last element, or nothing (`undefined`) for an empty array. */
  function Peek<T>(a: seq<T>): (r: Option<T>)
    ensures r.Some? <==> |a| > 0
    ensures r.Some? ==> r.value == a[|a| - 1]
  {
    if |a| == 0 then None else Some(a[|a| - 1])
  }

  /** Peeking right after a push sees the pushed element. */
  lemma PeekAfterPush<T>(a: seq<T>, x: T)
    ensures Peek(a + [x]) == Some(x)
  {
  }

  /** `minMax(x, min, max)`, i.e. `Math.max(min, Math.min(max, x))`. */
  function MinMax(x: int, lo: int, hi: int): (r: int)
    ensures lo <= hi ==> lo <= r <= hi
    ensures lo <= x <= hi ==> r == x
    ensures x < lo ==> r == lo
    ensures lo <= hi < x ==> r == hi
    ensures hi < lo ==> r == lo
  {
    var m := if hi < x then hi else x;
    if lo < m then m else lo
  }

  /** Clamping an already clamped value changes nothing. */
  lemma MinMaxIdempotent(x: int, lo: int, hi: int)
    requires lo <= hi
    ensures MinMax(MinMax(x, lo, hi), lo, hi) == MinMax(x, lo, hi)
  {
  }

  /** `sign(x)`: 1, 0 or -1. */
  function Sign(x: real): (r: int)
    ensures r == 1 <==> x > 0.0
    ensures r == 0 <==> x == 0.0
    ensures r == -1 <==> x < 0.0
  {
    if x > 0.0 then 1 else if x < 0.0 then -1 else 0
  }

  /**
   * `between(x, u, v)`: x lies between u and v inclusive after all three are
   * rounded to the document's decimal precision. The rounding (floating-point
   * `roundToDecimal`) is the parameter `round`.
   */
  function Between(x: real, u: real, v: real, round: real -> real): (b: bool)
    ensures b <==> (round(u) <= round(x) <= round(v) || round(v) <= round(x) <= round(u))
  {
    var rx, ru, rv := round(x), round(u), round(v);
    var hi := if ru < rv then rv else ru;
    var lo := if ru < rv then ru else rv;
    rx <= hi && rx >= lo
  }

  lemma BetweenSymmetric(x: real, u: real, v: real, round: real -> real)
    ensures Between(x, u, v, round) == Between(x, v, u, round)
  {
  }

  lemma BetweenEndpoint(u: real, v: real, round: real -> real)
    ensures Between(u, u, v, round) && Between(v, u, v, round)
  {
  }

  /** With a monotone rounding, every x in [u, v] is between u and v. */
  lemma BetweenInterval(x: real, u: real, v: real, round: real -> real)
    requires forall a, b :: a <= b ==> round(a) <= round(b)
    requires u <= x <= v
    ensures Between(x, u, v, round)
  {
    assert round(u) <= round(x);
    assert round(x) <= round(v);
  }
}
