/** Byte strings and the handful of Python `bytes` operations the codec uses:
    slicing with a clamped end (`s[:n]`), `startswith`, the `in` operator,
    `find`, `rfind` and ASCII `lower()`. A Python `bytes` value is a
    `seq<bv8>`; positions are `nat`s and the `-1` of `find`/`rfind` is `None`. */
module Bytes {
  import opened Wrappers

  /** The byte whose value is the integer `x` in 0..255, counted up from 0. */
  function ByteOf(x: int): (r: bv8)
    requires 0 <= x < 256
    ensures r as int == x
  {
    if x == 0 then 0
    else
      var r := ByteOf(x - 1);
      assert r < 255;
      r + 1
  }

  /** A byte survives the round trip through `int`. */
  lemma ByteAsInt(k: bv8)
    ensures 0 <= k as int < 256
    ensures (k as int) as bv8 == k
  {
  }

  /** Python's `s[:n]` for a non-negative `n`: the first `min(n, |s|)` bytes. */
  function Take(s: seq<bv8>, n: nat): (r: seq<bv8>)
    ensures |r| == if n < |s| then n else |s|
    ensures r == s[..|r|]
  {
    if n < |s| then s[..n] else s
  }

  /** A slice of a slice is a slice of the original. */
  lemma SliceOfSlice(s: seq<bv8>, a: nat, b: nat, i: nat, j: nat)
    requires a <= b <= |s| && i <= j <= b - a
    ensures s[a..b][i..j] == s[a + i..a + j]
  {
    var x := s[a..b][i..j];
    var y := s[a + i..a + j];
    assert forall t :: 0 <= t < |x| ==> x[t] == y[t];
  }

  /** `pat` occurs in `s` starting at position `i`. */
  predicate OccursAt(s: seq<bv8>, pat: seq<bv8>, i: nat) {
    i + |pat| <= |s| && s[i..i + |pat|] == pat
  }

  /** Python's `s.startswith(pat)`. */
  predicate StartsWith(s: seq<bv8>, pat: seq<bv8>) {
    OccursAt(s, pat, 0)
  }

  /** Python's `pat in s` for byte strings. */
  predicate Contains(s: seq<bv8>, pat: seq<bv8>) {
    exists i: nat :: i <= |s| && OccursAt(s, pat, i)
  }

  /** Python's `s.find(pat, start)`: the first occurrence at or after `start`. */
  function IndexFrom(s: seq<bv8>, pat: seq<bv8>, start: nat): (r: Option<nat>)
    ensures r.Some? ==> start <= r.value && OccursAt(s, pat, r.value)
    ensures r.Some? ==> forall j: nat :: start <= j < r.value ==> !OccursAt(s, pat, j)
    ensures r.None? <==> forall j: nat :: start <= j ==> !OccursAt(s, pat, j)
    decreases |s| - start
  {
    if start + |pat| > |s| then None
    else if OccursAt(s, pat, start) then Some(start)
    else IndexFrom(s, pat, start + 1)
  }

  /** The last occurrence of `pat` at a position no greater than `hi`. */
  function LastIndexUpTo(s: seq<bv8>, pat: seq<bv8>, hi: nat): (r: Option<nat>)
    ensures r.Some? ==> r.value <= hi && OccursAt(s, pat, r.value)
    ensures r.Some? ==> forall j: nat :: r.value < j <= hi ==> !OccursAt(s, pat, j)
    ensures r.None? <==> forall j: nat :: j <= hi ==> !OccursAt(s, pat, j)
  {
    if OccursAt(s, pat, hi) then Some(hi)
    else if hi == 0 then None
    else LastIndexUpTo(s, pat, hi - 1)
  }

  /** Python's `s.rfind(pat)`: the last occurrence anywhere in `s`. */
  function LastIndexOf(s: seq<bv8>, pat: seq<bv8>): (r: Option<nat>)
    ensures r.Some? ==> OccursAt(s, pat, r.value)
    ensures r.Some? ==> forall j: nat :: r.value < j ==> !OccursAt(s, pat, j)
    ensures r.None? <==> !Contains(s, pat)
  {
    LastIndexUpTo(s, pat, |s|)
  }

  /** Skips bytes satisfying `p` from position `i`: the end of the maximal run
      starting there (the `while i < len(b) and b[i] in (...)` loops and the
      greedy `*` of the regular expressions). */
  function SkipWhile(s: seq<bv8>, i: nat, p: bv8 -> bool): (j: nat)
    requires i <= |s|
    ensures i <= j <= |s|
    ensures forall k :: i <= k < j ==> p(s[k])
    ensures j < |s| ==> !p(s[j])
    decreases |s| - i
  {
    if i < |s| && p(s[i]) then SkipWhile(s, i + 1, p) else i
  }

  /** ASCII lower-casing of one byte, as Python's `bytes.lower()` does it. */
  function LowerByte(c: bv8): bv8 {
    if 0x41 <= c <= 0x5A then c + 0x20 else c
  }

  /** Python's `bytes.lower()`: only `A`..`Z` change. */
  function Lower(s: seq<bv8>): (r: seq<bv8>)
    ensures |r| == |s|
    ensures forall i :: 0 <= i < |s| ==> r[i] == LowerByte(s[i])
  {
    seq(|s|, i requires 0 <= i < |s| => LowerByte(s[i]))
  }
}
