/** Python's slice `s[lo:hi]` (step 1) over Dafny sequences. Python adjusts
    each bound before slicing: a negative bound counts from the end, and a
    bound that still falls outside `0..len(s)` is clamped to it; the slice is
    empty when the adjusted lower bound is not below the adjusted upper one. */
module Slicing {

  /** The position a slice bound `i` denotes in a sequence of length `n`. */
  function Bound(i: int, n: nat): (k: nat)
    ensures k <= n
    ensures 0 <= i <= n ==> k == i
    ensures 0 <= n + i && i < 0 ==> k == n + i
    ensures n + i < 0 ==> k == 0
    ensures n < i ==> k == n
  {
    if i < 0 then (if n + i < 0 then 0 else n + i)
    else if n < i then n
    else i
  }

  /** The number of elements `s[lo:hi]` has when `len(s) == n`. */
  function SliceLength(n: nat, lo: int, hi: int): nat
  {
    if Bound(lo, n) < Bound(hi, n) then Bound(hi, n) - Bound(lo, n) else 0
  }

  function Slice<T>(s: seq<T>, lo: int, hi: int): (r: seq<T>)
    ensures |r| == SliceLength(|s|, lo, hi)
    ensures forall k :: 0 <= k < |r| ==> r[k] == s[Bound(lo, |s|) + k]
  {
    var a := Bound(lo, |s|);
    var b := Bound(hi, |s|);
    if a < b then s[a..b] else []
  }

  /** With both bounds inside the sequence and in order, a Python slice is
      the Dafny subsequence. */
  lemma SliceWithin<T>(s: seq<T>, lo: int, hi: int)
    requires 0 <= lo <= hi <= |s|
    ensures Slice(s, lo, hi) == s[lo..hi]
  {
  }

  /** Bounds given in reverse order select nothing. */
  lemma SliceReversed<T>(s: seq<T>, lo: int, hi: int)
    requires 0 <= hi <= lo
    ensures Slice(s, lo, hi) == []
  {
  }
}
