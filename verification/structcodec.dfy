/** The few `struct` formats the package uses ('<II', '<IH', '<I', '>H', '>I',
    '>100B'): standard sizes, no alignment, unsigned fields of 1, 2 or 4
    bytes in one byte order. */
module StructCodec {
  import opened Base
  import opened Bits

  /** An unsigned field width in bytes: 'B', 'H' or 'I'. */
  type width = w: nat | w == 1 || w == 2 || w == 4 witness 1

  datatype StructFormat = StructFormat(bigEndian: bool, widths: seq<width>)

  const LeU32Pair := StructFormat(false, [4, 4])     // '<II'
  const LeU32U16 := StructFormat(false, [4, 2])      // '<IH'
  const LeU32 := StructFormat(false, [4])            // '<I'
  const BeU16 := StructFormat(true, [2])             // '>H'
  const BeU32 := StructFormat(true, [4])             // '>I'

  /** `struct.calcsize`. */
  function CalcSize(widths: seq<width>): nat
  {
    if |widths| == 0 then 0 else widths[0] + CalcSize(widths[1..])
  }

  function Pow256(n: nat): (r: nat)
    ensures r >= 1
  {
    Pow2(8 * n)
  }

  lemma Pow256Step(n: nat)
    requires n >= 1
    ensures Pow256(n) == 256 * Pow256(n - 1)
  {
    Pow2Add(8, 8 * (n - 1));
    assert Pow2(8) == 256;
  }

  function DecodeBE(bs: seq<byte>): (r: nat)
    ensures r < Pow256(|bs|)
  {
    if |bs| == 0 then 0
    else
      var r := 256 * DecodeBE(bs[..|bs| - 1]) + bs[|bs| - 1];
      Pow256Step(|bs|);
      r
  }

  function DecodeLE(bs: seq<byte>): (r: nat)
    ensures r < Pow256(|bs|)
  {
    if |bs| == 0 then 0
    else
      var r := bs[0] + 256 * DecodeLE(bs[1..]);
      Pow256Step(|bs|);
      r
  }

  function EncodeBE(v: int, n: nat): (r: seq<byte>)
    ensures |r| == n
    decreases n
  {
    if n == 0 then [] else EncodeBE(v / 256, n - 1) + [v % 256]
  }

  function EncodeLE(v: int, n: nat): (r: seq<byte>)
    ensures |r| == n
    decreases n
  {
    if n == 0 then [] else [v % 256] + EncodeLE(v / 256, n - 1)
  }

  lemma {:induction false} DecodeEncodeBE(v: int, n: nat)
    ensures DecodeBE(EncodeBE(v, n)) == v % Pow256(n)
    decreases n
  {
    if n > 0 {
      var e := EncodeBE(v, n);
      assert e[..n - 1] == EncodeBE(v / 256, n - 1);
      DecodeEncodeBE(v / 256, n - 1);
      Pow256Step(n);
      ModSplit(v, 256, Pow256(n - 1));
    }
  }

  lemma {:induction false} DecodeEncodeLE(v: int, n: nat)
    ensures DecodeLE(EncodeLE(v, n)) == v % Pow256(n)
    decreases n
  {
    if n > 0 {
      var e := EncodeLE(v, n);
      assert e[1..] == EncodeLE(v / 256, n - 1);
      DecodeEncodeLE(v / 256, n - 1);
      Pow256Step(n);
      ModSplit(v, 256, Pow256(n - 1));
    }
  }

  function Decode(bs: seq<byte>, bigEndian: bool): nat
  {
    if bigEndian then DecodeBE(bs) else DecodeLE(bs)
  }

  function Encode(v: int, n: nat, bigEndian: bool): (r: seq<byte>)
    ensures |r| == n
  {
    if bigEndian then EncodeBE(v, n) else EncodeLE(v, n)
  }

  /** The unsigned values of consecutive fields of `bs`. */
  function DecodeFields(widths: seq<width>, bigEndian: bool, bs: seq<byte>): (r: seq<nat>)
    requires CalcSize(widths) <= |bs|
    ensures |r| == |widths|
    ensures forall i :: 0 <= i < |widths| ==> r[i] < Pow256(widths[i])
  {
    if |widths| == 0 then []
    else
      [Decode(bs[..widths[0]], bigEndian)] + DecodeFields(widths[1..], bigEndian, bs[widths[0]..])
  }

  function EncodeFields(widths: seq<width>, bigEndian: bool, vals: seq<int>): (r: seq<byte>)
    requires |vals| == |widths|
    ensures |r| == CalcSize(widths)
  {
    if |widths| == 0 then []
    else Encode(vals[0], widths[0], bigEndian) + EncodeFields(widths[1..], bigEndian, vals[1..])
  }

  predicate InRange(widths: seq<width>, vals: seq<int>)
    requires |vals| == |widths|
  {
    forall i :: 0 <= i < |widths| ==> 0 <= vals[i] < Pow256(widths[i])
  }

  /** The two parts of a prefix cut at `w`. */
  lemma PrefixParts(bs: seq<byte>, n: nat, w: nat)
    requires w <= n <= |bs|
    ensures bs[..n][..w] == bs[..w] && bs[..n][w..] == bs[w..][..n - w]
  {
  }

  /** Decoding reads only the first `CalcSize(widths)` bytes. */
  lemma {:induction false} DecodeFieldsPrefix(widths: seq<width>, bigEndian: bool, bs: seq<byte>, n: nat)
    requires CalcSize(widths) <= n <= |bs|
    ensures DecodeFields(widths, bigEndian, bs) == DecodeFields(widths, bigEndian, bs[..n])
    decreases |widths|
  {
    if |widths| > 0 {
      var w := widths[0];
      PrefixParts(bs, n, w);
      DecodeFieldsPrefix(widths[1..], bigEndian, bs[w..], n - w);
    }
  }

  /** `struct.unpack_from(fmt, buf, offset)`. */
  function UnpackFrom(fmt: StructFormat, buf: seq<byte>, offset: nat): (r: Result<seq<nat>>)
    ensures r.Err? <==> offset + CalcSize(fmt.widths) > |buf|
    ensures r.Err? ==> r.error == StructError
    ensures r.Ok? ==> |r.value| == |fmt.widths|
  {
    if offset + CalcSize(fmt.widths) > |buf| then Err(StructError)
    else Ok(DecodeFields(fmt.widths, fmt.bigEndian, buf[offset..]))
  }

  /** Unpacking depends only on the bytes the format covers. */
  lemma UnpackFromRegion(fmt: StructFormat, a: seq<byte>, i: nat, c: seq<byte>, j: nat)
    requires i + CalcSize(fmt.widths) <= |a| && j + CalcSize(fmt.widths) <= |c|
    requires a[i..i + CalcSize(fmt.widths)] == c[j..j + CalcSize(fmt.widths)]
    ensures UnpackFrom(fmt, a, i) == UnpackFrom(fmt, c, j)
  {
    var n := CalcSize(fmt.widths);
    var x, y := a[i..], c[j..];
    assert x[..n] == y[..n] by {
      assert x[..n] == a[i..i + n];
      assert y[..n] == c[j..j + n];
    }
    DecodeFieldsPrefix(fmt.widths, fmt.bigEndian, x, n);
    DecodeFieldsPrefix(fmt.widths, fmt.bigEndian, y, n);
    var dx := DecodeFields(fmt.widths, fmt.bigEndian, x);
    assert dx == DecodeFields(fmt.widths, fmt.bigEndian, y);
    assert UnpackFrom(fmt, a, i) == Ok(dx);
  }

  /** `struct.pack_into(fmt, buf, offset, *vals)`, returning the new buffer. */
  function PackInto(fmt: StructFormat, buf: seq<byte>, offset: nat, vals: seq<int>): (r: Result<seq<byte>>)
    ensures r.Err? <==> (|vals| != |fmt.widths| || offset + CalcSize(fmt.widths) > |buf|
                         || !InRange(fmt.widths, vals))
    ensures r.Err? ==> r.error == StructError
    ensures r.Ok? ==> |r.value| == |buf|
    ensures r.Ok? ==> r.value[..offset] == buf[..offset]
    ensures r.Ok? ==> r.value[offset + CalcSize(fmt.widths)..] == buf[offset + CalcSize(fmt.widths)..]
  {
    if |vals| != |fmt.widths| || offset + CalcSize(fmt.widths) > |buf| || !InRange(fmt.widths, vals) then
      Err(StructError)
    else
      var n := CalcSize(fmt.widths);
      Ok(buf[..offset] + EncodeFields(fmt.widths, fmt.bigEndian, vals) + buf[offset + n..])
  }

  lemma {:induction false} DecodeEncodeFields(widths: seq<width>, bigEndian: bool, vals: seq<int>, tail: seq<byte>)
    requires |vals| == |widths| && InRange(widths, vals)
    ensures DecodeFields(widths, bigEndian, EncodeFields(widths, bigEndian, vals) + tail) == vals
  {
    if |widths| > 0 {
      var w := widths[0];
      var head := Encode(vals[0], w, bigEndian);
      var rest := EncodeFields(widths[1..], bigEndian, vals[1..]);
      var bs := head + rest + tail;
      DecodeEncodeOne(vals[0], w, bigEndian);
      InRangeTail(widths, vals);
      DecodeEncodeFields(widths[1..], bigEndian, vals[1..], tail);
      DecodeFieldsSplit(widths, bigEndian, head, rest + tail);
      assert bs == head + (rest + tail);
      assert vals == [vals[0]] + vals[1..];
    }
  }

  lemma DecodeFieldsSplit(widths: seq<width>, bigEndian: bool, head: seq<byte>, rest: seq<byte>)
    requires |widths| > 0 && |head| == widths[0] && CalcSize(widths[1..]) <= |rest|
    ensures DecodeFields(widths, bigEndian, head + rest)
         == [Decode(head, bigEndian)] + DecodeFields(widths[1..], bigEndian, rest)
  {
    assert (head + rest)[..widths[0]] == head;
    assert (head + rest)[widths[0]..] == rest;
  }

  lemma DecodeEncodeOne(v: int, n: nat, bigEndian: bool)
    requires 0 <= v < Pow256(n)
    ensures Decode(Encode(v, n, bigEndian), bigEndian) == v
  {
    if bigEndian { DecodeEncodeBE(v, n); } else { DecodeEncodeLE(v, n); }
    DivModUnique(v, Pow256(n), 0, v);
  }

  lemma InRangeTail(widths: seq<width>, vals: seq<int>)
    requires |vals| == |widths| > 0 && InRange(widths, vals)
    ensures InRange(widths[1..], vals[1..])
  {
    forall i | 0 <= i < |widths| - 1
      ensures 0 <= vals[1..][i] < Pow256(widths[1..][i])
    {
      assert vals[1..][i] == vals[i + 1] && widths[1..][i] == widths[i + 1];
    }
  }

  /** Unpacking what `PackInto` wrote at the same offset gives back the packed
      values. */
  lemma PackUnpackRoundTrip(fmt: StructFormat, buf: seq<byte>, offset: nat, vals: seq<int>)
    requires PackInto(fmt, buf, offset, vals).Ok?
    ensures UnpackFrom(fmt, PackInto(fmt, buf, offset, vals).value, offset) == Ok(vals)
  {
    var n := CalcSize(fmt.widths);
    var enc := EncodeFields(fmt.widths, fmt.bigEndian, vals);
    var r := PackInto(fmt, buf, offset, vals).value;
    assert r[offset..] == enc + buf[offset + n..];
    DecodeEncodeFields(fmt.widths, fmt.bigEndian, vals, buf[offset + n..]);
  }
}
