/** Python's slice `s[i:j]` with step 1, which never raises. */
module Slicing {

  /** One bound of a slice over a sequence of length n: a negative bound counts
      from the end, and the result is clamped into [0, n]. */
  function SliceBound(i: int, n: nat): (r: nat)
    ensures r <= n
    ensures 0 <= i <= n ==> r == i
    ensures i > n ==> r == n
    ensures i < 0 ==> r == if i + n < 0 then 0 else i + n
  {
    if i < 0 then (if i + n < 0 then 0 else i + n)
    else if i > n then n
    else i
  }

  /** `s[i:j]`; `s[i:]` is `Slice(s, i, |s|)` and `s[:j]` is `Slice(s, 0, j)`. */
  function Slice<T>(s: seq<T>, i: int, j: int): (r: seq<T>)
    ensures 0 <= i <= j <= |s| ==> r == s[i..j]
    ensures |r| <= |s|
  {
    var lo, hi := SliceBound(i, |s|), SliceBound(j, |s|);
    if lo < hi then s[lo..hi] else []
  }

  /** Splitting at an offset inside the sequence and joining the halves gives it back. */
  lemma PrefixSuffix<T>(s: seq<T>, k: int)
    requires 0 <= k <= |s|
    ensures Slice(s, 0, k) + Slice(s, k, |s|) == s
  {
  }
}
