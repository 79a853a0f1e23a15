/** Python 2.7 sequence semantics the package relies on: indexing that counts
    negative positions from the end, slices that clamp instead of failing, and
    `bytearray.startswith(prefix, start, end)`. */
module PySeq {
  import opened Base

  /** `s[i]`: negative indices count from the end; anything else out of range
      raises IndexError. */
  function Index<T>(s: seq<T>, i: int): (r: Result<T>)
    ensures 0 <= i < |s| ==> r == Ok(s[i])
    ensures -|s| <= i < 0 ==> r == Ok(s[|s| + i])
    ensures r.Err? <==> (i < -|s| || |s| <= i)
  {
    if 0 <= i < |s| then Ok(s[i])
    else if -|s| <= i < 0 then Ok(s[|s| + i])
    else Err(IndexError)
  }

  /** Normalisation of one bound of a slice `s[a:b]` of a sequence of length n. */
  function SliceBound(i: int, n: nat): (r: nat)
    ensures r <= n
  {
    if i < 0 then Max(0, i + n) else Min(i, n)
  }

  /** `s[a:b]`: both bounds are normalised and an empty range gives `[]`. */
  function Slice<T>(s: seq<T>, a: int, b: int): (r: seq<T>)
    ensures 0 <= a <= b <= |s| ==> r == s[a..b]
    ensures |r| <= |s|
  {
    var lo := SliceBound(a, |s|);
    var hi := SliceBound(b, |s|);
    if lo < hi then s[lo..hi] else []
  }

  /** `s[a:b] = v` on a bytearray: both bounds are normalised, an end
      before the start is moved up to the start, and the range is replaced
      by `v`, so the array grows or shrinks when the lengths differ. */
  function SliceAssign<T>(s: seq<T>, a: int, b: int, v: seq<T>): (r: seq<T>)
    ensures 0 <= a <= b <= |s| ==> r == s[..a] + v + s[b..]
    ensures 0 <= b <= a <= |s| ==> r == s[..a] + v + s[a..]
    ensures |r| == |s| - (Max(SliceBound(a, |s|), SliceBound(b, |s|)) - SliceBound(a, |s|)) + |v|
  {
    var lo := SliceBound(a, |s|);
    var hi := Max(lo, SliceBound(b, |s|));
    s[..lo] + v + s[hi..]
  }

  /** Reading back the range a slice assignment wrote gives what was
      written. */
  lemma SliceAssignSlice<T>(s: seq<T>, a: int, b: int, v: seq<T>)
    requires 0 <= a <= |s|
    ensures Slice(SliceAssign(s, a, b, v), a, a + |v|) == v
    ensures SliceAssign(s, a, b, v)[..a] == s[..a]
  {
    var r := SliceAssign(s, a, b, v);
    assert r[a..a + |v|] == v;
  }

  /** Index adjustment of CPython 2.7's `bytearray.startswith`: an end past the
      length is clamped, negative positions count from the end, and a start
      past the length is left as it is. */
  function AdjustEnd(end: int, n: nat): nat
  {
    if end > n then n else if end < 0 then Max(0, end + n) else end
  }

  function AdjustStart(start: int, n: nat): nat
  {
    if start < 0 then Max(0, start + n) else start
  }

  /** `s.startswith(prefix, start, end)` for a bytearray `s`. */
  function StartsWith(s: seq<byte>, prefix: seq<byte>, start: int, end: int): (r: bool)
    ensures 0 <= start && end >= |s| ==>
              (r <==> start + |prefix| <= |s| && s[start..start + |prefix|] == prefix)
    ensures 0 <= start && 0 <= end <= |s| ==>
              (r <==> start + |prefix| <= end && s[start..start + |prefix|] == prefix)
    ensures r ==> AdjustStart(start, |s|) + |prefix| <= AdjustEnd(end, |s|)
  {
    var n := |s|;
    var st := AdjustStart(start, n);
    var e := AdjustEnd(end, n);
    if st + |prefix| > n then false
    else if e - st >= |prefix| then s[st..st + |prefix|] == prefix
    else false
  }

  /** `s.startswith(prefix, start)`: the end defaults to the whole sequence. */
  function StartsWithAt(s: seq<byte>, prefix: seq<byte>, start: nat): (r: bool)
    ensures r <==> start + |prefix| <= |s| && s[start..start + |prefix|] == prefix
  {
    StartsWith(s, prefix, start, |s|)
  }
}
