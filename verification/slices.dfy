/**
 * The two `Vec` operations the printer compacts its byte buffer with, as
 * functions on sequences.
 */
module Slices {

  /**
   * `slice::rotate_left(mid)`: the element at index `mid` becomes the first
   * one and the first `mid` elements move to the end; panics when `mid`
   * exceeds the length.
   */
  function RotateLeft<T>(s: seq<T>, mid: nat): (r: seq<T>)
    requires mid <= |s|
    ensures |r| == |s|
    ensures forall i :: 0 <= i < |s| - mid ==> r[i] == s[mid + i]
    ensures forall i :: |s| - mid <= i < |s| ==> r[i] == s[i - (|s| - mid)]
  {
    s[mid..] + s[..mid]
  }

  /** `Vec::truncate(len)`: keeps the first `len` elements; no effect when `len` is not below the length. */
  function Truncate<T>(s: seq<T>, len: nat): (r: seq<T>)
    ensures |r| == if len < |s| then len else |s|
    ensures r == s[..|r|]
  {
    if len < |s| then s[..len] else s
  }

  /**
   * Rotating the first `c` elements to the back and cutting them off leaves
   * exactly the old sequence without its first `c` elements, in order.
   */
  lemma {:induction false} CompactionDropsPrefix<T>(s: seq<T>, c: nat)
    requires c <= |s|
    ensures Truncate(RotateLeft(s, c), |s| - c) == s[c..]
  {
    var r := RotateLeft(s, c);
    var t := Truncate(r, |s| - c);
    assert |t| == |s| - c;
    forall i | 0 <= i < |t|
      ensures t[i] == s[c..][i]
    {
    }
  }
}
