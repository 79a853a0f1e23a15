/** Bit strings, most significant bit first.  The bit-field codec addresses a
    byte region as one long string of bits: bit 0 is the top bit of the first
    byte, bit 8 the top bit of the second, and so on. */
module Bits {
  import opened Base

  /** The low `w` bits of `v`, most significant first.  For negative `v` these
      are the two's-complement bits, which is what Python's `v & (2**w - 1)`
      keeps. */
  function ToBits(v: int, w: nat): (r: seq<bool>)
    ensures |r| == w
    decreases w
  {
    if w == 0 then [] else ToBits(v / 2, w - 1) + [v % 2 == 1]
  }

  /** The unsigned value of a bit string. */
  function FromBits(s: seq<bool>): (r: nat)
    ensures r < Pow2(|s|)
  {
    if |s| == 0 then 0
    else 2 * FromBits(s[..|s| - 1]) + (if s[|s| - 1] then 1 else 0)
  }

  /** Division by `m` has a unique quotient and remainder. */
  lemma DivModUnique(v: int, m: int, a: int, c: int)
    requires m > 0 && 0 <= c < m && v == m * a + c
    ensures v / m == a && v % m == c
  {
    var q, r := v / m, v % m;
    assert v == m * q + r;
    assert m * (a - q) == r - c;
    MulSmall(m, a - q);
  }

  lemma ModSmall(v: int, m: int)
    requires 0 <= v < m
    ensures v % m == v
  {
    DivModUnique(v, m, 0, v);
  }

  /** A multiple of `m` strictly between `-m` and `m` is zero. */
  lemma MulSmall(m: int, k: int)
    requires m > 0 && -m < m * k < m
    ensures k == 0
  {
  }

  /** Taking the quotient by `d` modulo `p`, and then the remainder by `d`,
      is taking the remainder by `d * p`: the digit split behind every
      positional encoding. */
  lemma ModSplit(v: int, d: nat, p: nat)
    requires d >= 1 && p >= 1
    ensures d * ((v / d) % p) + v % d == v % (d * p)
  {
    var q, b := v / d, v % d;
    var a, c := q / p, q % p;
    assert v == d * q + b;
    assert q == p * a + c;
    assert d * q == (d * p) * a + d * c;
    assert 0 <= d * c + b < d * p by {
      assert d * c <= d * (p - 1);
    }
    DivModUnique(v, d * p, a, d * c + b);
  }

  lemma {:induction false} Pow2Add(a: nat, b: nat)
    ensures Pow2(a + b) == Pow2(a) * Pow2(b)
    decreases a
  {
    if a > 0 {
      Pow2Add(a - 1, b);
    }
  }

  /** Reading back the bits written for `v` gives `v` modulo `2^w`. */
  lemma {:induction false} FromToBits(v: int, w: nat)
    ensures FromBits(ToBits(v, w)) == v % Pow2(w)
    decreases w
  {
    if w > 0 {
      var s := ToBits(v, w);
      assert s[..w - 1] == ToBits(v / 2, w - 1);
      FromToBits(v / 2, w - 1);
      ModSplit(v, 2, Pow2(w - 1));
    }
  }

  /** Writing out the value of a bit string reproduces the string. */
  lemma {:induction false} ToFromBits(s: seq<bool>)
    ensures ToBits(FromBits(s), |s|) == s
  {
    if |s| > 0 {
      var n := |s| - 1;
      var f := FromBits(s);
      var b := if s[n] then 1 else 0;
      assert f == 2 * FromBits(s[..n]) + b;
      assert f / 2 == FromBits(s[..n]) && f % 2 == b;
      ToFromBits(s[..n]);
      assert s == s[..n] + [s[n]];
    }
  }

  /** The eight bits of one byte. */
  function ByteBits(b: byte): (r: seq<bool>)
    ensures |r| == 8
  {
    ToBits(b, 8)
  }

  lemma Pow2Byte()
    ensures Pow2(8) == 256
  {
  }

  lemma ByteBitsValue(b: byte)
    ensures FromBits(ByteBits(b)) == b
  {
    FromToBits(b, 8);
    Pow2Byte();
    ModSmall(b, 256);
  }

  /** A byte region as a bit string. */
  function BytesToBits(bs: seq<byte>): (r: seq<bool>)
    ensures |r| == 8 * |bs|
  {
    if |bs| == 0 then [] else ByteBits(bs[0]) + BytesToBits(bs[1..])
  }

  /** A byte region's bit string is a whole number of bytes long. */
  lemma BytesToBitsAligned(bs: seq<byte>)
    ensures |BytesToBits(bs)| % 8 == 0
  {
    DivModUnique(8 * |bs|, 8, |bs|, 0);
  }

  /** A bit string whose length is a multiple of eight, as bytes. */
  function BitsToBytes(bits: seq<bool>): (r: seq<byte>)
    requires |bits| % 8 == 0
    ensures 8 * |r| == |bits|
  {
    if |bits| == 0 then []
    else
      var b := FromBits(bits[..8]);
      assert b < Pow2(8) == 256;
      [b] + BitsToBytes(bits[8..])
  }

  lemma {:induction false} BytesToBitsAppend(a: seq<byte>, b: seq<byte>)
    ensures BytesToBits(a + b) == BytesToBits(a) + BytesToBits(b)
  {
    if |a| == 0 {
      assert a + b == b;
    } else {
      assert (a + b)[0] == a[0];
      assert (a + b)[1..] == a[1..] + b;
      BytesToBitsAppend(a[1..], b);
    }
  }

  /** Bit `j` of byte `i` of a region is bit `8 * i + j` of its bit string. */
  lemma {:induction false} BytesToBitsIndex(bs: seq<byte>, i: nat, j: nat)
    requires i < |bs| && j < 8
    ensures BytesToBits(bs)[8 * i + j] == ByteBits(bs[i])[j]
  {
    var head, tail := ByteBits(bs[0]), BytesToBits(bs[1..]);
    assert BytesToBits(bs) == head + tail;
    if i > 0 {
      BytesToBitsIndex(bs[1..], i - 1, j);
      assert bs[1..][i - 1] == bs[i];
      assert (head + tail)[8 * i + j] == tail[8 * (i - 1) + j];
    }
  }

  /** The bits of a sub-region are the corresponding slice of the bit string. */
  lemma BytesToBitsSlice(bs: seq<byte>, lo: nat, hi: nat)
    requires lo <= hi <= |bs|
    ensures BytesToBits(bs[lo..hi]) == BytesToBits(bs)[8 * lo .. 8 * hi]
  {
    assert bs == bs[..lo] + bs[lo..hi] + bs[hi..];
    BytesToBitsAppend(bs[..lo] + bs[lo..hi], bs[hi..]);
    BytesToBitsAppend(bs[..lo], bs[lo..hi]);
  }

  /** Packing bits into bytes and reading them back is lossless. */
  lemma {:induction false} BitsBytesRoundTrip(bits: seq<bool>)
    requires |bits| % 8 == 0
    ensures BytesToBits(BitsToBytes(bits)) == bits
  {
    if |bits| > 0 {
      ToFromBits(bits[..8]);
      BitsBytesRoundTrip(bits[8..]);
      assert bits == bits[..8] + bits[8..];
    }
  }

  /** The two parts of a concatenation. */
  lemma ConcatParts(head: seq<bool>, tail: seq<bool>)
    ensures (head + tail)[..|head|] == head && (head + tail)[|head|..] == tail
  {
  }

  /** Reading bytes as bits and packing them again is lossless. */
  lemma {:induction false} BytesBitsRoundTrip(bs: seq<byte>)
    ensures BitsToBytes(BytesToBits(bs)) == bs
  {
    if |bs| > 0 {
      var head, tail := ByteBits(bs[0]), BytesToBits(bs[1..]);
      var bits := head + tail;
      assert BytesToBits(bs) == bits;
      ConcatParts(head, tail);
      DivModUnique(|tail|, 8, |bs| - 1, 0);
      DivModUnique(|bits|, 8, |bs|, 0);
      ByteBitsValue(bs[0]);
      BytesBitsRoundTrip(bs[1..]);
      assert BitsToBytes(bits) == [bs[0]] + BitsToBytes(tail);
      assert bs == [bs[0]] + bs[1..];
    }
  }

  /** `bits` with the string `piece` written over it from position `at`. */
  function Overwrite(bits: seq<bool>, at: nat, piece: seq<bool>): (r: seq<bool>)
    requires at + |piece| <= |bits|
    ensures |r| == |bits|
    ensures r[at .. at + |piece|] == piece
    ensures forall k :: 0 <= k < |bits| && (k < at || at + |piece| <= k) ==> r[k] == bits[k]
  {
    bits[..at] + piece + bits[at + |piece|..]
  }

  /** Dividing by 2 and then by `m` is dividing by `2 * m`. */
  lemma DivDiv2(v: int, m: nat)
    requires m >= 1
    ensures (v / 2) / m == v / (2 * m)
  {
    var q, r := v / 2, v % 2;
    var a, c := q / m, q % m;
    assert v == 2 * (m * a + c) + r;
    assert v == (2 * m) * a + (2 * c + r);
    DivModUnique(v, 2 * m, a, 2 * c + r);
  }

  /** The low `a + k` bits of `v` are the low `a` bits of `v / 2^k`
      followed by the low `k` bits of `v`. */
  lemma {:induction false} ToBitsSplit(v: int, a: nat, k: nat)
    ensures ToBits(v, a + k) == ToBits(v / Pow2(k), a) + ToBits(v, k)
    decreases k
  {
    if k > 0 {
      ToBitsSplit(v / 2, a, k - 1);
      DivDiv2(v, Pow2(k - 1));
      assert ToBits(v, a + k) == ToBits(v / 2, a + k - 1) + [v % 2 == 1];
      assert ToBits(v, k) == ToBits(v / 2, k - 1) + [v % 2 == 1];
    }
  }

  lemma MulTwice(x: int, y: int)
    ensures 2 * (x * y) == x * (2 * y)
  {
  }

  /** The value of a concatenation of bit strings. */
  lemma {:induction false} FromBitsAppend(a: seq<bool>, b: seq<bool>)
    ensures FromBits(a + b) == FromBits(a) * Pow2(|b|) + FromBits(b)
    decreases |b|
  {
    if |b| > 0 {
      var n := |b| - 1;
      var bit := if b[n] then 1 else 0;
      assert (a + b)[..|a + b| - 1] == a + b[..n];
      assert FromBits(a + b) == 2 * FromBits(a + b[..n]) + bit;
      FromBitsAppend(a, b[..n]);
      assert FromBits(b) == 2 * FromBits(b[..n]) + bit;
      assert Pow2(|b|) == 2 * Pow2(n);
      MulTwice(FromBits(a), Pow2(n));
    } else {
      assert a + b == a;
    }
  }

  /** Bits `j .. j + w` of a byte, counted from its top bit, are the value
      `(b >> (8 - j - w)) & (2^w - 1)`. */
  lemma ByteField(b: byte, j: nat, w: nat)
    requires j + w <= 8
    ensures FromBits(ByteBits(b)[j .. j + w]) == (b / Pow2(8 - j - w)) % Pow2(w)
  {
    var low := 8 - j - w;
    ToBitsSplit(b, j + w, low);
    var upper := ToBits(b / Pow2(low), j + w);
    assert ByteBits(b)[j .. j + w] == upper[j..];
    ToBitsSplit(b / Pow2(low), j, w);
    assert upper[j..] == ToBits(b / Pow2(low), w);
    FromToBits(b / Pow2(low), w);
  }

  /** Byte `k` of a region occupies bits `8 * k` to `8 * k + 8`. */
  lemma ByteOfRegion(bs: seq<byte>, k: nat)
    requires k < |bs|
    ensures BytesToBits(bs)[8 * k .. 8 * k + 8] == ByteBits(bs[k])
  {
    BytesToBitsSlice(bs, k, k + 1);
    assert bs[k..k + 1] == [bs[k]];
    assert BytesToBits([bs[k]]) == ByteBits(bs[k]) + BytesToBits([]);
  }

  /** A field inside a byte that sits at `lo` of a bit string. */
  lemma FieldOfByte(bits: seq<bool>, lo: nat, b: byte, j: nat, w: nat)
    requires lo + 8 <= |bits| && j + w <= 8
    requires bits[lo .. lo + 8] == ByteBits(b)
    ensures FromBits(bits[lo + j .. lo + j + w]) == (b / Pow2(8 - j - w)) % Pow2(w)
  {
    SliceOfSlice(bits, lo, lo + 8, j, j + w);
    ByteField(b, j, w);
  }

  /** Bits `8 * k + j .. 8 * k + j + w` of a region lie in byte `k`. */
  lemma RegionByteField(bs: seq<byte>, k: nat, j: nat, w: nat)
    requires k < |bs| && j + w <= 8
    ensures FromBits(BytesToBits(bs)[8 * k + j .. 8 * k + j + w]) == (bs[k] / Pow2(8 - j - w)) % Pow2(w)
  {
    var bits := BytesToBits(bs);
    assert 8 * k + 8 <= |bits|;
    ByteOfRegion(bs, k);
    FieldOfByte(bits, 8 * k, bs[k], j, w);
  }

  /** The first `8 + w` bits of a region: the whole first byte followed by
      the top `w` bits of the second. */
  lemma LeadingBits(bs: seq<byte>, w: nat)
    requires 2 <= |bs| && w <= 8
    ensures FromBits(BytesToBits(bs)[0 .. 8 + w]) == bs[0] * Pow2(w) + bs[1] / Pow2(8 - w)
  {
    var bits := BytesToBits(bs);
    assert bits[0 .. 8 + w] == bits[0..8] + bits[8 .. 8 + w];
    FromBitsAppend(bits[0..8], bits[8 .. 8 + w]);
    FirstByte(bs);
    TopBits(bs, w);
  }

  lemma FirstByte(bs: seq<byte>)
    requires 1 <= |bs|
    ensures FromBits(BytesToBits(bs)[0..8]) == bs[0]
  {
    ByteOfRegion(bs, 0);
    ByteBitsValue(bs[0]);
  }

  lemma TopBits(bs: seq<byte>, w: nat)
    requires 2 <= |bs| && w <= 8
    ensures FromBits(BytesToBits(bs)[8 .. 8 + w]) == bs[1] / Pow2(8 - w)
  {
    var bits := BytesToBits(bs);
    ByteOfRegion(bs, 1);
    SliceOfSlice(bits, 8, 16, 0, w);
    ByteTopBits(bs[1], w);
  }

  /** The top `w` bits of a byte. */
  lemma ByteTopBits(b: byte, w: nat)
    requires w <= 8
    ensures FromBits(ByteBits(b)[0..w]) == b / Pow2(8 - w)
  {
    var d, q := Pow2(8 - w), Pow2(w);
    ByteField(b, 0, w);
    Pow2Complement(w);
    DivBound(b, d, q);
    var v := b / d;
    ModSmall(v, q);
  }

  lemma Pow2Complement(w: nat)
    requires w <= 8
    ensures Pow2(8 - w) * Pow2(w) == 256
  {
    Pow2Add(8 - w, w);
    assert Pow2(8) == 256;
  }

  lemma DivBound(v: nat, d: nat, q: nat)
    requires d >= 1 && v < d * q
    ensures 0 <= v / d < q
  {
  }
}
