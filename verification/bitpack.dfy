/** The bit-field codec of `_bitpack.py`: a compiled format is a list of
    fields, each an integer (`i:N`) or boolean (`b`, `b:N`) of a fixed bit
    width with an optional expected value.  Fields are packed one after the
    other, most significant bit first, across byte boundaries.

    The source walks each field a byte at a time with shift-and-mask
    arithmetic; here a byte region is read as its bit string (`Bits`) and each
    field's bits are written at the field's bit position, which is what that
    arithmetic achieves. */
module Bitpack {
  import opened Base
  import opened Bits

  /** The two entries of `_BITPACK_TYPES`. */
  datatype FieldType = IntField | BoolField

  datatype Field = Field(kind: FieldType, width: nat, expected: Option<int>)

  /** A compiled `formatstr`: its fields, in order. */
  type Format = seq<Field>

  function TotalWidth(fmt: Format): nat
  {
    if |fmt| == 0 then 0 else fmt[0].width + TotalWidth(fmt[1..])
  }

  /** `formatstr.length`: the number of whole bytes the fields occupy. */
  function ByteLength(fmt: Format): (r: nat)
    ensures TotalWidth(fmt) <= 8 * r
    ensures r == 0 || 8 * (r - 1) < TotalWidth(fmt)
  {
    (TotalWidth(fmt) + 7) / 8
  }

  /** Bit position of field `i` from the start of the packed region. */
  function FieldStart(fmt: Format, i: nat): (r: nat)
    requires i <= |fmt|
    ensures i < |fmt| ==> r + fmt[i].width <= TotalWidth(fmt)
    ensures i == |fmt| ==> r == TotalWidth(fmt)
  {
    if i == 0 then 0 else fmt[0].width + FieldStart(fmt[1..], i - 1)
  }

  /** `type(v)`: `int(v)` keeps the value, `bool(v)` maps it to 0 or 1. */
  function Coerce(f: Field, v: int): int
  {
    match f.kind
    case IntField => v
    case BoolField => if v != 0 then 1 else 0
  }

  /** The value stored for `v`: `type(v) & (2**width - 1)`.  With a positive
      modulus Python's `&` with a low mask and Dafny's `%` agree, negative
      values included. */
  function Masked(f: Field, v: int): (r: nat)
    ensures r < Pow2(f.width)
    ensures f.kind == IntField ==> r == v % Pow2(f.width)
    ensures f.kind == BoolField && f.width >= 1 ==> (r == 1 <==> v != 0) && r <= 1
  {
    var m := Pow2(f.width);
    var c := Coerce(f, v);
    if f.kind == BoolField && f.width >= 1 then
      assert m >= 2;
      ModSmall(c, m);
      c % m
    else
      c % m
  }

  /** The value unpacking yields for the raw field bits `raw`. */
  function Decoded(f: Field, raw: nat): int
  {
    match f.kind
    case IntField => raw
    case BoolField => if raw != 0 then 1 else 0
  }

  /** The field's expected value, if it has one, is met by `v`. */
  predicate Matches(f: Field, v: int)
  {
    f.expected.None? || v == f.expected.value
  }

  /** The value of field `i` read from the bit string `bits` whose packed
      region starts at bit `at`. */
  function FieldValue(fmt: Format, bits: seq<bool>, at: nat, i: nat): int
    requires i < |fmt| && at + TotalWidth(fmt) <= |bits|
  {
    ValueAt(fmt[i], bits, at + FieldStart(fmt, i))
  }

  /** The value field `f` holds when its bits start at `s`. */
  function ValueAt(f: Field, bits: seq<bool>, s: nat): int
    requires s + f.width <= |bits|
  {
    Decoded(f, FromBits(bits[s .. s + f.width]))
  }

  /** Each field starts where the previous one ends. */
  lemma {:induction false} FieldStartNext(fmt: Format, i: nat)
    requires i < |fmt|
    ensures FieldStart(fmt, i + 1) == FieldStart(fmt, i) + fmt[i].width
    decreases i
  {
    if i > 0 {
      FieldStartNext(fmt[1..], i - 1);
    }
  }

  /** A field that lies within byte `k` of the region, from its bit `j`,
      is that byte shifted right and masked to the field's width. */
  lemma FieldInByte(fmt: Format, bs: seq<byte>, i: nat, k: nat, j: nat)
    requires i < |fmt| && k < |bs| && TotalWidth(fmt) <= 8 * |bs|
    requires FieldStart(fmt, i) == 8 * k + j && j + fmt[i].width <= 8
    ensures var w := fmt[i].width;
            FieldValue(fmt, BytesToBits(bs), 0, i) == Decoded(fmt[i], (bs[k] / Pow2(8 - j - w)) % Pow2(w))
  {
    RegionByteField(bs, k, j, fmt[i].width);
  }

  /** The same, for a field whose value is its bits read as a number (an
      integer field, or a one-bit boolean). */
  lemma FieldInByteValue(fmt: Format, bs: seq<byte>, i: nat, k: nat, j: nat, shift: nat, mask: nat)
    requires i < |fmt| && k < |bs| && TotalWidth(fmt) <= 8 * |bs|
    requires FieldStart(fmt, i) == 8 * k + j
    requires j + fmt[i].width <= 8
    requires fmt[i].kind == BoolField ==> fmt[i].width == 1
    requires shift == Pow2(8 - j - fmt[i].width)
    requires mask == Pow2(fmt[i].width)
    ensures FieldValue(fmt, BytesToBits(bs), 0, i) == (bs[k] as int / shift) % mask
  {
    FieldInByte(fmt, bs, i, k, j);
    if fmt[i].kind == BoolField {
      assert mask == 2;
    }
  }

  lemma FieldStartTail(fmt: Format, i: nat)
    requires 1 <= i < |fmt|
    ensures FieldStart(fmt, i) == fmt[0].width + FieldStart(fmt[1..], i - 1)
    ensures fmt[1..][i - 1] == fmt[i]
  {
  }

  /** The bits field `f` occupies once `v` is packed into it. */
  function Piece(f: Field, v: int): (r: seq<bool>)
    ensures |r| == f.width
  {
    ToBits(Masked(f, v), f.width)
  }

  /** Writes every field's masked value at its bit position (the loop of
      `bitpack_into`), leaving every other bit as it was. */
  function WriteFields(fmt: Format, vals: seq<int>, bits: seq<bool>, at: nat): (r: seq<bool>)
    requires |vals| >= |fmt| && at + TotalWidth(fmt) <= |bits|
    ensures |r| == |bits|
  {
    if |fmt| == 0 then bits
    else
      var w := fmt[0].width;
      WriteFields(fmt[1..], vals[1..], Overwrite(bits, at, Piece(fmt[0], vals[0])), at + w)
  }

  /** Only the bits of the packed region change. */
  lemma {:induction false} WriteFieldsFrame(fmt: Format, vals: seq<int>, bits: seq<bool>, at: nat, k: nat)
    requires |vals| >= |fmt| && at + TotalWidth(fmt) <= |bits|
    requires k < |bits| && (k < at || at + TotalWidth(fmt) <= k)
    ensures WriteFields(fmt, vals, bits, at)[k] == bits[k]
    decreases |fmt|
  {
    if |fmt| > 0 {
      var w := fmt[0].width;
      var next := Overwrite(bits, at, Piece(fmt[0], vals[0]));
      WriteFieldsFrame(fmt[1..], vals[1..], next, at + w, k);
    }
  }

  /** Field `i` of `fmt`, placed from bit `at` of `r`, holds the packed
      value of `vals[i]`. */
  predicate FieldHolds(fmt: Format, vals: seq<int>, r: seq<bool>, at: nat, i: nat)
    requires i < |fmt| && i < |vals| && at + TotalWidth(fmt) <= |r|
  {
    var s := at + FieldStart(fmt, i);
    r[s .. s + fmt[i].width] == Piece(fmt[i], vals[i])
  }

  /** Field `i` holds its masked value after packing: later fields do not
      disturb earlier ones. */
  lemma {:induction false} WriteFieldsField(fmt: Format, vals: seq<int>, bits: seq<bool>, at: nat, i: nat)
    requires |vals| >= |fmt| && at + TotalWidth(fmt) <= |bits| && i < |fmt|
    ensures FieldHolds(fmt, vals, WriteFields(fmt, vals, bits, at), at, i)
    decreases |fmt|
  {
    if i == 0 {
      WriteFieldsHead(fmt, vals, bits, at);
    } else {
      var w := fmt[0].width;
      var next := Overwrite(bits, at, Piece(fmt[0], vals[0]));
      var r := WriteFields(fmt[1..], vals[1..], next, at + w);
      assert WriteFields(fmt, vals, bits, at) == r;
      WriteFieldsField(fmt[1..], vals[1..], next, at + w, i - 1);
      FieldShift(fmt, vals, r, at, i);
    }
  }

  /** Field `i - 1` of `fmt[1..]` placed after the first field is field `i`
      of `fmt`. */
  lemma FieldShift(fmt: Format, vals: seq<int>, r: seq<bool>, at: nat, i: nat)
    requires 1 <= i < |fmt| && |vals| >= |fmt|
    requires at + TotalWidth(fmt) <= |r|
    requires FieldHolds(fmt[1..], vals[1..], r, at + fmt[0].width, i - 1)
    ensures FieldHolds(fmt, vals, r, at, i)
  {
    FieldStartTail(fmt, i);
    assert vals[1..][i - 1] == vals[i];
  }

  /** The first field holds its masked value after packing. */
  lemma WriteFieldsHead(fmt: Format, vals: seq<int>, bits: seq<bool>, at: nat)
    requires |vals| >= |fmt| && at + TotalWidth(fmt) <= |bits| && 0 < |fmt|
    ensures WriteFields(fmt, vals, bits, at)[at .. at + fmt[0].width] == Piece(fmt[0], vals[0])
  {
    var w := fmt[0].width;
    var piece := Piece(fmt[0], vals[0]);
    var next := Overwrite(bits, at, piece);
    var r := WriteFields(fmt, vals, bits, at);
    assert r == WriteFields(fmt[1..], vals[1..], next, at + w);
    forall k | at <= k < at + w
      ensures r[k] == piece[k - at]
    {
      WriteFieldsFrame(fmt[1..], vals[1..], next, at + w, k);
    }
  }

  /** The loop of `bitunpack_from`: reads each field in order and stops at
      the first one whose expected value is not met.  `index` is the
      position of `fmt[0]` in the whole format, reported in the error. */
  function ReadFields(fmt: Format, bits: seq<bool>, at: nat, index: nat): (r: Result<seq<int>>)
    requires at + TotalWidth(fmt) <= |bits|
    ensures r.Ok? ==> |r.value| == |fmt|
    ensures r.Err? ==> r.error.InvalidInputError? && index <= r.error.field < index + |fmt|
    decreases |fmt|
  {
    if |fmt| == 0 then Ok([])
    else
      var w := fmt[0].width;
      var v := Decoded(fmt[0], FromBits(bits[at .. at + w]));
      if !Matches(fmt[0], v) then Err(InvalidInputError(index))
      else
        match ReadFields(fmt[1..], bits, at + w, index + 1)
        case Err(e) => Err(e)
        case Ok(vs) => Ok([v] + vs)
  }

  lemma FieldValueTail(fmt: Format, bits: seq<bool>, at: nat, i: nat)
    requires 1 <= i < |fmt| && at + TotalWidth(fmt) <= |bits|
    ensures FieldValue(fmt, bits, at, i) == FieldValue(fmt[1..], bits, at + fmt[0].width, i - 1)
  {
    FieldStartTail(fmt, i);
  }

  /** A successful unpack yields every field's value in order, each of
      which meets its expected value. */
  lemma {:induction false} ReadFieldsValues(fmt: Format, bits: seq<bool>, at: nat, index: nat)
    requires at + TotalWidth(fmt) <= |bits|
    requires ReadFields(fmt, bits, at, index).Ok?
    ensures var r := ReadFields(fmt, bits, at, index);
            forall i :: 0 <= i < |fmt| ==> r.value[i] == FieldValue(fmt, bits, at, i) && Matches(fmt[i], r.value[i])
    decreases |fmt|
  {
    if |fmt| > 0 {
      var w := fmt[0].width;
      var v := FieldValue(fmt, bits, at, 0);
      assert v == Decoded(fmt[0], FromBits(bits[at .. at + w]));
      var rest := ReadFields(fmt[1..], bits, at + w, index + 1);
      assert ReadFields(fmt, bits, at, index) == Ok([v] + rest.value);
      ReadFieldsValues(fmt[1..], bits, at + w, index + 1);
      forall i | 1 <= i < |fmt|
        ensures FieldValue(fmt, bits, at, i) == FieldValue(fmt[1..], bits, at + w, i - 1)
      {
        FieldValueTail(fmt, bits, at, i);
      }
    }
  }

  /** Unpacking succeeds exactly when every field meets its expected value,
      and then yields every field's value in order. */
  lemma ReadFieldsOk(fmt: Format, bits: seq<bool>, at: nat, index: nat)
    requires at + TotalWidth(fmt) <= |bits|
    ensures var r := ReadFields(fmt, bits, at, index);
            && (r.Ok? <==> forall i :: 0 <= i < |fmt| ==> Matches(fmt[i], FieldValue(fmt, bits, at, i)))
            && (r.Ok? ==> forall i :: 0 <= i < |fmt| ==> r.value[i] == FieldValue(fmt, bits, at, i))
  {
    if ReadFields(fmt, bits, at, index).Ok? {
      ReadFieldsValues(fmt, bits, at, index);
    } else {
      ReadFieldsErr(fmt, bits, at, index);
    }
  }

  /** Field `j` is the first one whose expected value is not met. */
  predicate FirstMismatch(fmt: Format, bits: seq<bool>, at: nat, j: int)
    requires at + TotalWidth(fmt) <= |bits|
  {
    && 0 <= j < |fmt|
    && !Matches(fmt[j], FieldValue(fmt, bits, at, j))
    && forall i :: 0 <= i < j ==> Matches(fmt[i], FieldValue(fmt, bits, at, i))
  }

  /** A first mismatch in the tail, after a matching head field, is the
      next field's first mismatch in the whole format. */
  lemma MismatchShift(fmt: Format, bits: seq<bool>, at: nat, j: nat)
    requires |fmt| > 0 && at + TotalWidth(fmt) <= |bits|
    requires Matches(fmt[0], FieldValue(fmt, bits, at, 0))
    requires FirstMismatch(fmt[1..], bits, at + fmt[0].width, j)
    ensures FirstMismatch(fmt, bits, at, j + 1)
  {
    var tail, start := fmt[1..], at + fmt[0].width;
    assert !Matches(fmt[j + 1], FieldValue(fmt, bits, at, j + 1)) by {
      FieldValueTail(fmt, bits, at, j + 1);
      assert fmt[j + 1] == tail[j];
    }
    forall i | 1 <= i < j + 1
      ensures Matches(fmt[i], FieldValue(fmt, bits, at, i))
    {
      FieldValueTail(fmt, bits, at, i);
      assert fmt[i] == tail[i - 1];
      assert Matches(tail[i - 1], FieldValue(tail, bits, start, i - 1));
    }
  }

  /** A failed unpack names the first field whose expected value is not met. */
  lemma {:induction false} ReadFieldsErr(fmt: Format, bits: seq<bool>, at: nat, index: nat)
    requires at + TotalWidth(fmt) <= |bits|
    requires ReadFields(fmt, bits, at, index).Err?
    ensures FirstMismatch(fmt, bits, at, ReadFields(fmt, bits, at, index).error.field - index)
    decreases |fmt|
  {
    var w := fmt[0].width;
    var v := Decoded(fmt[0], FromBits(bits[at .. at + w]));
    assert v == FieldValue(fmt, bits, at, 0);
    if Matches(fmt[0], v) {
      var rest := ReadFields(fmt[1..], bits, at + w, index + 1);
      assert ReadFields(fmt, bits, at, index) == rest;
      ReadFieldsErr(fmt[1..], bits, at + w, index + 1);
      MismatchShift(fmt, bits, at, rest.error.field - (index + 1));
    } else {
      assert ReadFields(fmt, bits, at, index) == Err(InvalidInputError(index));
    }
  }

  /** The packed region's new bytes: every field written into the region's
      bit string. */
  function PackRegion(fmt: Format, region: seq<byte>, vals: seq<int>): (r: seq<byte>)
    requires |region| == ByteLength(fmt) && |vals| >= |fmt|
    ensures |r| == |region|
  {
    var bits := BytesToBits(region);
    BytesToBitsAligned(region);
    BitsToBytes(WriteFields(fmt, vals, bits, 0))
  }

  /** `bitpack_into(fmt, buffer, offset, *values)`, returning the updated
      buffer. */
  function BitpackInto(fmt: Format, buf: seq<byte>, offset: nat, vals: seq<int>): (r: Result<seq<byte>>)
    ensures r == Err(BitpackError) <==> ByteLength(fmt) > |buf| - offset
    ensures r.Err? && ByteLength(fmt) <= |buf| - offset ==> r.error == IndexError && |vals| < |fmt|
    ensures r.Ok? <==> ByteLength(fmt) <= |buf| - offset && |vals| >= |fmt|
    ensures r.Ok? ==> |r.value| == |buf|
    ensures r.Ok? ==> r.value[..offset] == buf[..offset]
    ensures r.Ok? ==> r.value[offset + ByteLength(fmt)..] == buf[offset + ByteLength(fmt)..]
  {
    var n := ByteLength(fmt);
    if n > |buf| - offset then Err(BitpackError)
    else if |vals| < |fmt| then Err(IndexError)
    else
      Ok(buf[..offset] + PackRegion(fmt, buf[offset .. offset + n], vals) + buf[offset + n..])
  }

  /** `bitpack_into` rewrites exactly its region, with the region packed
      on its own. */
  lemma BitpackIntoSplice(fmt: Format, buf: seq<byte>, offset: nat, vals: seq<int>)
    requires ByteLength(fmt) <= |buf| - offset && |vals| >= |fmt|
    ensures var n := ByteLength(fmt);
            BitpackInto(fmt, buf, offset, vals)
              == Ok(buf[..offset] + PackRegion(fmt, buf[offset .. offset + n], vals) + buf[offset + n..])
  {
  }

  /** The bit string of the packed region after `bitpack_into`. */
  lemma BitpackIntoRegion(fmt: Format, buf: seq<byte>, offset: nat, vals: seq<int>)
    requires BitpackInto(fmt, buf, offset, vals).Ok?
    ensures var n := ByteLength(fmt);
            BytesToBits(BitpackInto(fmt, buf, offset, vals).value[offset .. offset + n])
              == WriteFields(fmt, vals, BytesToBits(buf[offset .. offset + n]), 0)
  {
    var n := ByteLength(fmt);
    var region := buf[offset .. offset + n];
    var written := WriteFields(fmt, vals, BytesToBits(region), 0);
    var out := BitpackInto(fmt, buf, offset, vals).value;
    var piece := PackRegion(fmt, region, vals);
    assert out == buf[..offset] + piece + buf[offset + n..];
    MiddleSlice(buf[..offset], piece, buf[offset + n..]);
    BytesToBitsAligned(region);
    assert piece == BitsToBytes(written);
    BitsBytesRoundTrip(written);
  }

  /** A field written with `ToBits` of its masked value reads back as the
      normalised value. */
  lemma WrittenFieldValue(fmt: Format, vals: seq<int>, bits: seq<bool>, i: nat)
    requires |vals| >= |fmt| && TotalWidth(fmt) <= |bits| && i < |fmt|
    ensures FieldValue(fmt, WriteFields(fmt, vals, bits, 0), 0, i) == Normalized(fmt[i], vals[i])
  {
    var w := fmt[i].width;
    var st := FieldStart(fmt, i);
    var m := Masked(fmt[i], vals[i]);
    var written := WriteFields(fmt, vals, bits, 0);
    WriteFieldsField(fmt, vals, bits, 0, i);
    assert written[st .. st + w] == Piece(fmt[i], vals[i]);
    assert written[st .. st + w] == ToBits(m, w);
    assert FromBits(ToBits(m, w)) == m by {
      FromToBits(m, w);
      ModSmall(m, Pow2(w));
    }
  }

  /** After packing, field `i` of the region reads back as the masked value. */
  lemma BitpackIntoFields(fmt: Format, buf: seq<byte>, offset: nat, vals: seq<int>)
    requires BitpackInto(fmt, buf, offset, vals).Ok?
    ensures var out := BitpackInto(fmt, buf, offset, vals).value;
            forall i :: 0 <= i < |fmt| ==>
              FieldValue(fmt, BytesToBits(out[offset .. offset + ByteLength(fmt)]), 0, i) == Normalized(fmt[i], vals[i])
  {
    var region := BytesToBits(buf[offset .. offset + ByteLength(fmt)]);
    BitpackIntoRegion(fmt, buf, offset, vals);
    forall i | 0 <= i < |fmt|
      ensures FieldValue(fmt, WriteFields(fmt, vals, region, 0), 0, i) == Normalized(fmt[i], vals[i])
    {
      WrittenFieldValue(fmt, vals, region, i);
    }
  }

  /** The pad bits after the last field keep their old values. */
  lemma BitpackIntoPadding(fmt: Format, buf: seq<byte>, offset: nat, vals: seq<int>)
    requires BitpackInto(fmt, buf, offset, vals).Ok?
    ensures var out := BitpackInto(fmt, buf, offset, vals).value;
            var n := ByteLength(fmt);
            BytesToBits(out[offset .. offset + n])[TotalWidth(fmt)..]
              == BytesToBits(buf[offset .. offset + n])[TotalWidth(fmt)..]
  {
    var region := BytesToBits(buf[offset .. offset + ByteLength(fmt)]);
    var written := WriteFields(fmt, vals, region, 0);
    BitpackIntoRegion(fmt, buf, offset, vals);
    WriteFieldsPadding(fmt, vals, region);
  }

  /** The bits after the last field keep their old values. */
  lemma WriteFieldsPadding(fmt: Format, vals: seq<int>, bits: seq<bool>)
    requires |vals| >= |fmt| && TotalWidth(fmt) <= |bits|
    ensures WriteFields(fmt, vals, bits, 0)[TotalWidth(fmt)..] == bits[TotalWidth(fmt)..]
  {
    var t := TotalWidth(fmt);
    var written := WriteFields(fmt, vals, bits, 0);
    forall k | t <= k < |bits|
      ensures written[k] == bits[k]
    {
      WriteFieldsFrame(fmt, vals, bits, 0, k);
    }
  }

  /** `bitunpack_from(fmt, buffer, offset)`. */
  function BitunpackFrom(fmt: Format, buf: seq<byte>, offset: nat): (r: Result<seq<int>>)
    ensures r == Err(BitpackError) <==> ByteLength(fmt) > |buf| - offset
    ensures r.Err? && ByteLength(fmt) <= |buf| - offset ==> r.error.InvalidInputError? && r.error.field < |fmt|
    ensures r.Ok? ==> |r.value| == |fmt|
  {
    var n := ByteLength(fmt);
    if n > |buf| - offset then Err(BitpackError)
    else ReadFields(fmt, BytesToBits(buf[offset .. offset + n]), 0, 0)
  }

  /** Unpacking depends only on the bytes the format covers. */
  lemma BitunpackFromRegion(fmt: Format, a: seq<byte>, i: nat, c: seq<byte>, j: nat)
    requires ByteLength(fmt) <= |a| - i && ByteLength(fmt) <= |c| - j
    requires a[i..i + ByteLength(fmt)] == c[j..j + ByteLength(fmt)]
    ensures BitunpackFrom(fmt, a, i) == BitunpackFrom(fmt, c, j)
  {
    var n := ByteLength(fmt);
    var bits := BytesToBits(a[i..i + n]);
    assert BitunpackFrom(fmt, a, i) == ReadFields(fmt, bits, 0, 0);
  }

  /** Unpacking yields each field's bits, decoded, and fails with the first
      field whose expected value is not met. */
  lemma BitunpackFromFields(fmt: Format, buf: seq<byte>, offset: nat)
    requires ByteLength(fmt) <= |buf| - offset
    ensures var bits := BytesToBits(buf[offset .. offset + ByteLength(fmt)]);
            var r := BitunpackFrom(fmt, buf, offset);
            && (r.Ok? <==> forall i :: 0 <= i < |fmt| ==> Matches(fmt[i], FieldValue(fmt, bits, 0, i)))
            && (r.Ok? ==> forall i :: 0 <= i < |fmt| ==> r.value[i] == FieldValue(fmt, bits, 0, i))
            && (r.Err? ==> !Matches(fmt[r.error.field], FieldValue(fmt, bits, 0, r.error.field))
                           && forall i :: 0 <= i < r.error.field ==> Matches(fmt[i], FieldValue(fmt, bits, 0, i)))
  {
    var bits := BytesToBits(buf[offset .. offset + ByteLength(fmt)]);
    ReadFieldsOk(fmt, bits, 0, 0);
    if BitunpackFrom(fmt, buf, offset).Err? {
      ReadFieldsErr(fmt, bits, 0, 0);
    }
  }

  /** What a packed value reads back as: the masked value for an integer
      field, 0 or 1 for a boolean one. */
  function Normalized(f: Field, v: int): int
  {
    Decoded(f, Masked(f, v))
  }

  /** The values a round trip through a format gives back. */
  function NormalizedValues(fmt: Format, vals: seq<int>): (r: seq<int>)
    requires |vals| >= |fmt|
    ensures |r| == |fmt|
  {
    seq(|fmt|, i requires 0 <= i < |fmt| => Normalized(fmt[i], vals[i]))
  }

  lemma NormalizedValue(f: Field, v: int)
    ensures f.kind == IntField ==> Normalized(f, v) == v % Pow2(f.width)
    ensures f.kind == BoolField && f.width >= 1 ==> Normalized(f, v) == (if v != 0 then 1 else 0)
    ensures f.kind == BoolField && f.width == 0 ==> Normalized(f, v) == 0
  {
  }

  /** Unpacking at the offset `bitpack_into` wrote to gives back every value
      masked to its width, unless a field's expected value is not met, in
      which case the first such field is reported. */
  lemma PackUnpackRoundTrip(fmt: Format, buf: seq<byte>, offset: nat, vals: seq<int>)
    requires BitpackInto(fmt, buf, offset, vals).Ok?
    ensures var u := BitunpackFrom(fmt, BitpackInto(fmt, buf, offset, vals).value, offset);
            && (u.Ok? <==> forall i :: 0 <= i < |fmt| ==> Matches(fmt[i], Normalized(fmt[i], vals[i])))
            && (u.Ok? ==> u.value == NormalizedValues(fmt, vals))
            && (u.Err? ==> u.error.InvalidInputError? && u.error.field < |fmt|
                           && !Matches(fmt[u.error.field], Normalized(fmt[u.error.field], vals[u.error.field]))
                           && forall i :: 0 <= i < u.error.field ==> Matches(fmt[i], Normalized(fmt[i], vals[i])))
  {
    var out := BitpackInto(fmt, buf, offset, vals).value;
    BitpackIntoFields(fmt, buf, offset, vals);
    BitunpackFromFields(fmt, out, offset);
  }
}
