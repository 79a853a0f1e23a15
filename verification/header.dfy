/** `Header2`: the four-byte MPEG audio frame header, decoded with the
    bit-field codec, validated through its accessors, and extended with the
    CRC and the side information that follow it. */
module Mp3Header {
  import opened Base
  import opened Bitpack
  import Bits
  import StructCodec
  import FormatParse

  /** The chunks of `Header2._HEADER`, in order. */
  const HeaderChunks: seq<string> :=
    ["i:11", "i:2", "i:2", "b", "i:4", "i:2", "b", "b", "i:2", "i:2", "b", "b", "i:2"]

  /** `Header2._FORMAT`: sync, version, layer, crc, bitrate, samplingrate,
      padding, private, channelmode, modeextension, copyright, original,
      emphasis. */
  const HeaderFormat: Format := [
    Field(IntField, 11, None), Field(IntField, 2, None), Field(IntField, 2, None), Field(BoolField, 1, None),
    Field(IntField, 4, None), Field(IntField, 2, None), Field(BoolField, 1, None), Field(BoolField, 1, None),
    Field(IntField, 2, None), Field(IntField, 2, None), Field(BoolField, 1, None), Field(BoolField, 1, None),
    Field(IntField, 2, None)]

  lemma Pow2Small()
    ensures Pow2(0) == 1 && Pow2(1) == 2 && Pow2(2) == 4 && Pow2(3) == 8 && Pow2(4) == 16
    ensures Pow2(5) == 32 && Pow2(6) == 64 && Pow2(7) == 128 && Pow2(8) == 256
    ensures Pow2(11) == 2048 && Pow2(16) == 65536
  {
    assert Pow2(8) == 256;
    assert Pow2(11) == 2048;
    assert Pow2(16) == 65536;
  }

  lemma IntChunkParses(w: nat, text: string)
    requires text == "i:" + FormatParse.DecimalString(w)
    ensures FormatParse.ParseChunk(text) == Ok(Field(IntField, w, None))
  {
    FormatParse.RenderParse(Field(IntField, w, None));
  }

  /** The four distinct chunks of the header format parse to their fields. */
  lemma HeaderChunksParse()
    ensures FormatParse.ParseChunk("i:11") == Ok(Field(IntField, 11, None))
    ensures FormatParse.ParseChunk("i:2") == Ok(Field(IntField, 2, None))
    ensures FormatParse.ParseChunk("i:4") == Ok(Field(IntField, 4, None))
    ensures FormatParse.ParseChunk("b") == Ok(Field(BoolField, 1, None))
  {
    assert FormatParse.DecimalString(1) == "1";
    assert FormatParse.DecimalString(11) == "11";
    IntChunkParses(11, "i:11");
    assert FormatParse.DecimalString(2) == "2";
    IntChunkParses(2, "i:2");
    assert FormatParse.DecimalString(4) == "4";
    IntChunkParses(4, "i:4");
    FormatParse.RenderParse(Field(BoolField, 1, None));
  }

  /** The textual header format compiles to `HeaderFormat`, whose 32 bits
      fill four bytes. */
  lemma HeaderFormatCompiles()
    ensures FormatParse.Compile(HeaderChunks) == Ok(HeaderFormat)
    ensures TotalWidth(HeaderFormat) == 32 && ByteLength(HeaderFormat) == 4
  {
    HeaderChunkFields();
    FormatParse.CompileEach(HeaderChunks, HeaderFormat);
    HeaderFormatShape();
    ShapeStarts(HeaderFormat);
  }

  lemma HeaderLength()
    ensures ByteLength(HeaderFormat) == 4
  {
    HeaderFormatShape();
    ShapeStarts(HeaderFormat);
  }

  lemma HeaderChunkFields()
    ensures |HeaderChunks| == |HeaderFormat| == 13
    ensures forall i :: 0 <= i < 13 ==> FormatParse.ParseChunk(HeaderChunks[i]) == Ok(HeaderFormat[i])
  {
    HeaderChunksParse();
  }

  /** The raw field values of a header, as unpacked: booleans are 0 or 1. */
  datatype Raw = Raw(sync: int, versionCode: int, layerCode: int, crcBit: int, bitrateCode: int,
                     samplingCode: int, padding: int, private: int, channelmode: int,
                     modeextension: int, copyright: int, original: int, emphasis: int)

  /** Every raw value fits its field's width. */
  predicate InRange(r: Raw)
  {
    && 0 <= r.sync < 2048 && 0 <= r.versionCode < 4 && 0 <= r.layerCode < 4 && 0 <= r.crcBit < 2
    && 0 <= r.bitrateCode < 16 && 0 <= r.samplingCode < 4 && 0 <= r.padding < 2 && 0 <= r.private < 2
    && 0 <= r.channelmode < 4 && 0 <= r.modeextension < 4 && 0 <= r.copyright < 2 && 0 <= r.original < 2
    && 0 <= r.emphasis < 4
  }

  /** The values the header fields can take once unpacked. */
  type RawHeader = r: Raw | InRange(r) witness Raw(0, 0, 0, 0, 0, 0, 0, 0, 0, 0, 0, 0, 0)

  /** `zip(_FIELDS, values)`. */
  function RawOf(vals: seq<int>): Raw
    requires |vals| == 13
  {
    Raw(vals[0], vals[1], vals[2], vals[3], vals[4], vals[5], vals[6], vals[7], vals[8], vals[9],
        vals[10], vals[11], vals[12])
  }

  /** `[self.__dict__[k] for k in _FIELDS]`. */
  function ValuesOf(r: Raw): (vals: seq<int>)
    ensures |vals| == 13 && RawOf(vals) == r
  {
    [r.sync, r.versionCode, r.layerCode, r.crcBit, r.bitrateCode, r.samplingCode, r.padding, r.private,
     r.channelmode, r.modeextension, r.copyright, r.original, r.emphasis]
  }

  /** The fields as the module's older `frameheader` extracts them from four
      bytes with shifts and masks; the sync word is the top eleven bits. */
  function MaskedFields(b: seq<byte>): (r: RawHeader)
    requires |b| == 4
  {
    var b0, b1, b2, b3 := b[0] as int, b[1] as int, b[2] as int, b[3] as int;
    Raw(b0 * 8 + b1 / 32, (b1 / 8) % 4, (b1 / 2) % 4, b1 % 2, b2 / 16, (b2 / 4) % 4,
        (b2 / 2) % 2, b2 % 2, b3 / 64, (b3 / 16) % 4, (b3 / 8) % 2, (b3 / 4) % 2, b3 % 4)
  }

  /** The layout of `HeaderFormat`, stated field by field so that proofs
      about it need not take the sequence display apart. */
  predicate HeaderShape(fmt: Format)
  {
    && FieldLayout(fmt)
    && forall i :: 0 <= i < |fmt| ==> fmt[i].expected.None?
  }

  /** The kinds and widths of the thirteen header fields. */
  predicate FieldLayout(fmt: Format)
  {
    && |fmt| == 13
    && fmt[0] == Field(IntField, 11, None) && fmt[1] == Field(IntField, 2, None)
    && fmt[2] == Field(IntField, 2, None) && fmt[3] == Field(BoolField, 1, None)
    && fmt[4] == Field(IntField, 4, None) && fmt[5] == Field(IntField, 2, None)
    && fmt[6] == Field(BoolField, 1, None) && fmt[7] == Field(BoolField, 1, None)
    && fmt[8] == Field(IntField, 2, None) && fmt[9] == Field(IntField, 2, None)
    && fmt[10] == Field(BoolField, 1, None) && fmt[11] == Field(BoolField, 1, None)
    && fmt[12] == Field(IntField, 2, None)
  }

  lemma HeaderFormatShape()
    ensures HeaderShape(HeaderFormat)
  {
  }

  /** Where each header field starts; the fields fill 32 bits. */
  lemma ShapeStarts(fmt: Format)
    requires FieldLayout(fmt)
    ensures TotalWidth(fmt) == 32
    ensures FieldStart(fmt, 0) == 0 && FieldStart(fmt, 1) == 11
    ensures FieldStart(fmt, 2) == 13 && FieldStart(fmt, 3) == 15
    ensures FieldStart(fmt, 4) == 16 && FieldStart(fmt, 5) == 20
    ensures FieldStart(fmt, 6) == 22 && FieldStart(fmt, 7) == 23
    ensures FieldStart(fmt, 8) == 24 && FieldStart(fmt, 9) == 26
    ensures FieldStart(fmt, 10) == 28 && FieldStart(fmt, 11) == 29
    ensures FieldStart(fmt, 12) == 30
  {
    FieldStartNext(fmt, 0); assert FieldStart(fmt, 1) == 11;
    FieldStartNext(fmt, 1); assert FieldStart(fmt, 2) == 13;
    FieldStartNext(fmt, 2); assert FieldStart(fmt, 3) == 15;
    FieldStartNext(fmt, 3); assert FieldStart(fmt, 4) == 16;
    FieldStartNext(fmt, 4); assert FieldStart(fmt, 5) == 20;
    FieldStartNext(fmt, 5); assert FieldStart(fmt, 6) == 22;
    FieldStartNext(fmt, 6); assert FieldStart(fmt, 7) == 23;
    FieldStartNext(fmt, 7); assert FieldStart(fmt, 8) == 24;
    FieldStartNext(fmt, 8); assert FieldStart(fmt, 9) == 26;
    FieldStartNext(fmt, 9); assert FieldStart(fmt, 10) == 28;
    FieldStartNext(fmt, 10); assert FieldStart(fmt, 11) == 29;
    FieldStartNext(fmt, 11); assert FieldStart(fmt, 12) == 30;
    FieldStartNext(fmt, 12); assert FieldStart(fmt, 13) == 32;
  }

  lemma VersionBits(fmt: Format, bs: seq<byte>)
    requires HeaderShape(fmt) && |bs| == 4
    ensures TotalWidth(fmt) <= |Bits.BytesToBits(bs)|
    ensures var b1 := bs[1] as int; FieldValue(fmt, Bits.BytesToBits(bs), 0, 1) == (b1 / 8) % 4
  {
    ShapeStarts(fmt);
    Pow2Small();
    FieldInByteValue(fmt, bs, 1, 1, 3, 8, 4);
  }

  lemma LayerBits(fmt: Format, bs: seq<byte>)
    requires HeaderShape(fmt) && |bs| == 4
    ensures TotalWidth(fmt) <= |Bits.BytesToBits(bs)|
    ensures var b1 := bs[1] as int; FieldValue(fmt, Bits.BytesToBits(bs), 0, 2) == (b1 / 2) % 4
  {
    ShapeStarts(fmt);
    Pow2Small();
    FieldInByteValue(fmt, bs, 2, 1, 5, 2, 4);
  }

  lemma CrcBits(fmt: Format, bs: seq<byte>)
    requires HeaderShape(fmt) && |bs| == 4
    ensures TotalWidth(fmt) <= |Bits.BytesToBits(bs)|
    ensures var b1 := bs[1] as int; FieldValue(fmt, Bits.BytesToBits(bs), 0, 3) == b1 % 2
  {
    ShapeStarts(fmt);
    Pow2Small();
    FieldInByteValue(fmt, bs, 3, 1, 7, 1, 2);
  }

  lemma BitrateBits(fmt: Format, bs: seq<byte>)
    requires HeaderShape(fmt) && |bs| == 4
    ensures TotalWidth(fmt) <= |Bits.BytesToBits(bs)|
    ensures var b2 := bs[2] as int; FieldValue(fmt, Bits.BytesToBits(bs), 0, 4) == b2 / 16
  {
    ShapeStarts(fmt);
    Pow2Small();
    FieldInByteValue(fmt, bs, 4, 2, 0, 16, 16);
  }

  lemma SamplingBits(fmt: Format, bs: seq<byte>)
    requires HeaderShape(fmt) && |bs| == 4
    ensures TotalWidth(fmt) <= |Bits.BytesToBits(bs)|
    ensures var b2 := bs[2] as int; FieldValue(fmt, Bits.BytesToBits(bs), 0, 5) == (b2 / 4) % 4
  {
    ShapeStarts(fmt);
    Pow2Small();
    FieldInByteValue(fmt, bs, 5, 2, 4, 4, 4);
  }

  lemma PaddingBits(fmt: Format, bs: seq<byte>)
    requires HeaderShape(fmt) && |bs| == 4
    ensures TotalWidth(fmt) <= |Bits.BytesToBits(bs)|
    ensures var b2 := bs[2] as int; FieldValue(fmt, Bits.BytesToBits(bs), 0, 6) == (b2 / 2) % 2
  {
    ShapeStarts(fmt);
    Pow2Small();
    FieldInByteValue(fmt, bs, 6, 2, 6, 2, 2);
  }

  lemma PrivateBits(fmt: Format, bs: seq<byte>)
    requires HeaderShape(fmt) && |bs| == 4
    ensures TotalWidth(fmt) <= |Bits.BytesToBits(bs)|
    ensures var b2 := bs[2] as int; FieldValue(fmt, Bits.BytesToBits(bs), 0, 7) == b2 % 2
  {
    ShapeStarts(fmt);
    Pow2Small();
    FieldInByteValue(fmt, bs, 7, 2, 7, 1, 2);
  }

  lemma ChannelBits(fmt: Format, bs: seq<byte>)
    requires HeaderShape(fmt) && |bs| == 4
    ensures TotalWidth(fmt) <= |Bits.BytesToBits(bs)|
    ensures var b3 := bs[3] as int; FieldValue(fmt, Bits.BytesToBits(bs), 0, 8) == b3 / 64
  {
    ShapeStarts(fmt);
    Pow2Small();
    FieldInByteValue(fmt, bs, 8, 3, 0, 64, 4);
  }

  lemma ModeExtBits(fmt: Format, bs: seq<byte>)
    requires HeaderShape(fmt) && |bs| == 4
    ensures TotalWidth(fmt) <= |Bits.BytesToBits(bs)|
    ensures var b3 := bs[3] as int; FieldValue(fmt, Bits.BytesToBits(bs), 0, 9) == (b3 / 16) % 4
  {
    ShapeStarts(fmt);
    Pow2Small();
    FieldInByteValue(fmt, bs, 9, 3, 2, 16, 4);
  }

  lemma CopyrightBits(fmt: Format, bs: seq<byte>)
    requires HeaderShape(fmt) && |bs| == 4
    ensures TotalWidth(fmt) <= |Bits.BytesToBits(bs)|
    ensures var b3 := bs[3] as int; FieldValue(fmt, Bits.BytesToBits(bs), 0, 10) == (b3 / 8) % 2
  {
    ShapeStarts(fmt);
    Pow2Small();
    FieldInByteValue(fmt, bs, 10, 3, 4, 8, 2);
  }

  lemma OriginalBits(fmt: Format, bs: seq<byte>)
    requires HeaderShape(fmt) && |bs| == 4
    ensures TotalWidth(fmt) <= |Bits.BytesToBits(bs)|
    ensures var b3 := bs[3] as int; FieldValue(fmt, Bits.BytesToBits(bs), 0, 11) == (b3 / 4) % 2
  {
    ShapeStarts(fmt);
    Pow2Small();
    FieldInByteValue(fmt, bs, 11, 3, 5, 4, 2);
  }

  lemma EmphasisBits(fmt: Format, bs: seq<byte>)
    requires HeaderShape(fmt) && |bs| == 4
    ensures TotalWidth(fmt) <= |Bits.BytesToBits(bs)|
    ensures var b3 := bs[3] as int; FieldValue(fmt, Bits.BytesToBits(bs), 0, 12) == b3 % 4
  {
    ShapeStarts(fmt);
    Pow2Small();
    FieldInByteValue(fmt, bs, 12, 3, 6, 1, 4);
  }

  lemma SyncBits(fmt: Format, bs: seq<byte>)
    requires HeaderShape(fmt) && |bs| == 4
    ensures TotalWidth(fmt) <= |Bits.BytesToBits(bs)|
    ensures FieldValue(fmt, Bits.BytesToBits(bs), 0, 0) == (bs[0] as int) * 8 + bs[1] as int / 32
  {
    ShapeStarts(fmt);
    Pow2Small();
    Bits.LeadingBits(bs, 3);
  }

  lemma ValuesOfRawOf(vals: seq<int>)
    requires |vals| == 13
    ensures ValuesOf(RawOf(vals)) == vals
  {
  }

  /** The decoded values of all fields of `fmt`, read from `bits`. */
  function FieldValues(fmt: Format, bits: seq<bool>): (vals: seq<int>)
    requires TotalWidth(fmt) <= |bits|
    ensures |vals| == |fmt|
    ensures forall i :: 0 <= i < |fmt| ==> vals[i] == FieldValue(fmt, bits, 0, i)
  {
    seq(|fmt|, i requires 0 <= i < |fmt| => FieldValue(fmt, bits, 0, i))
  }

  /** Every field read from four header bytes is the field `frameheader`
      masks out of them. */
  lemma ShapeFieldValues(fmt: Format, bs: seq<byte>)
    requires HeaderShape(fmt) && |bs| == 4
    ensures TotalWidth(fmt) <= |Bits.BytesToBits(bs)|
    ensures FieldValues(fmt, Bits.BytesToBits(bs)) == ValuesOf(MaskedFields(bs))
  {
    ShapeStarts(fmt);
    var v := FieldValues(fmt, Bits.BytesToBits(bs));
    SyncBits(fmt, bs);
    VersionBits(fmt, bs); LayerBits(fmt, bs); CrcBits(fmt, bs); BitrateBits(fmt, bs);
    SamplingBits(fmt, bs); PaddingBits(fmt, bs); PrivateBits(fmt, bs); ChannelBits(fmt, bs);
    ModeExtBits(fmt, bs); CopyrightBits(fmt, bs); OriginalBits(fmt, bs); EmphasisBits(fmt, bs);
    assert RawOf(v) == MaskedFields(bs);
    ValuesOfRawOf(v);
  }

  lemma ShapeUnpack(fmt: Format, buf: seq<byte>, offset: nat)
    requires HeaderShape(fmt) && offset + 4 <= |buf|
    ensures BitunpackFrom(fmt, buf, offset) == Ok(ValuesOf(MaskedFields(buf[offset..offset + 4])))
  {
    var bs := buf[offset..offset + 4];
    var bits := Bits.BytesToBits(bs);
    ShapeUnpackOk(fmt, buf, offset);
    assert BitunpackFrom(fmt, buf, offset).value == FieldValues(fmt, bits) by {
      BitunpackFromFields(fmt, buf, offset);
    }
    ShapeFieldValues(fmt, bs);
  }

  /** No header field has an expected value, so unpacking four bytes
      succeeds. */
  lemma ShapeUnpackOk(fmt: Format, buf: seq<byte>, offset: nat)
    requires HeaderShape(fmt) && offset + 4 <= |buf|
    ensures ByteLength(fmt) == 4 && BitunpackFrom(fmt, buf, offset).Ok?
  {
    ShapeStarts(fmt);
    BitunpackFromFields(fmt, buf, offset);
    var bits := Bits.BytesToBits(buf[offset..offset + 4]);
    forall i | 0 <= i < |fmt|
      ensures Matches(fmt[i], FieldValue(fmt, bits, 0, i))
    {
    }
  }

  /** Unpacking a header yields the values the shift-and-mask extraction of
      `frameheader` gives for the same four bytes. */
  lemma UnpackMatchesMasks(buf: seq<byte>, offset: nat)
    requires offset + 4 <= |buf|
    ensures BitunpackFrom(HeaderFormat, buf, offset) == Ok(ValuesOf(MaskedFields(buf[offset..offset + 4])))
  {
    HeaderFormatShape();
    ShapeUnpack(HeaderFormat, buf, offset);
  }

  // ---------------------------------------------------------------------
  // Tables and accessors

  /** The MPEG audio versions the `version` property reports: 1, 2 and the
      unofficial 2.5. */
  datatype MpegVersion = V1 | V2 | V25

  /** The two-bit code of each version: `4 - version`, and 0 for 2.5. */
  function VersionCode(v: MpegVersion): (code: nat)
    ensures code < 4 && code != 1
  {
    match v
    case V1 => 3
    case V2 => 2
    case V25 => 0
  }

  /** `int(version) - 1`: the table row, which version 2.5 shares with 2. */
  function VersionRow(v: MpegVersion): (row: nat)
    ensures row < 2 && (row == 0 <==> v == V1)
  {
    if v == V1 then 0 else 1
  }

  /** The `version` property: code 1 is reserved. */
  function Version(r: RawHeader): (res: Result<MpegVersion>)
    ensures res.Err? <==> r.versionCode == 1
    ensures res.Err? ==> res.error == HeaderError(BadVersion)
    ensures res.Ok? ==> VersionCode(res.value) == r.versionCode
  {
    if r.versionCode == 0 then Ok(V25)
    else if r.versionCode == 1 then Err(HeaderError(BadVersion))
    else if r.versionCode == 2 then Ok(V2)
    else Ok(V1)
  }

  /** The `layer` property, `4 - layer`: code 0 is reserved. */
  function Layer(r: RawHeader): (res: Result<nat>)
    ensures res.Err? <==> r.layerCode == 0
    ensures res.Err? ==> res.error == HeaderError(BadLayer)
    ensures res.Ok? ==> 1 <= res.value <= 3 && res.value + r.layerCode == 4
  {
    if r.layerCode == 0 then Err(HeaderError(BadLayer)) else Ok(4 - r.layerCode)
  }

  /** The `crc` property: a frame carries a CRC when the protection bit is
      clear. */
  predicate Protected(r: RawHeader)
  {
    r.crcBit == 0
  }

  /** On the wire, the `crc` getter reads the fourth field of the header
      layout, the last bit of the second byte: a frame carries a CRC when
      that bit is clear. */
  lemma ProtectedBit(b: seq<byte>)
    requires |b| == 4
    ensures Protected(MaskedFields(b)) <==> b[1] % 2 == 0
    ensures !Protected(MaskedFields(b)) <==> b[1] % 2 == 1
  {
  }

  /** The `crc` setter: stores the negation of `val`. */
  function SetProtected(r: RawHeader, val: bool): (s: RawHeader)
    ensures Protected(s) == val
    ensures s.(crcBit := r.crcBit) == r
  {
    r.(crcBit := if val then 0 else 1)
  }

  /** A row of `_BITRATES`, in kbit/s, for bitrate codes 1 to 14.  The second
      version row gains its Layer III entry by appending its Layer II row. */
  function BitrateRow(row: nat, layer: nat): (rates: seq<nat>)
    requires row < 2 && 1 <= layer <= 3
    ensures |rates| == 14
  {
    if row == 0 then
      if layer == 1 then [32, 64, 96, 128, 160, 192, 224, 256, 288, 320, 352, 384, 416, 448]
      else if layer == 2 then [32, 48, 56, 64, 80, 96, 112, 128, 160, 192, 224, 256, 320, 384]
      else [32, 40, 48, 56, 64, 80, 96, 112, 128, 160, 192, 224, 256, 320]
    else
      if layer == 1 then [32, 48, 56, 64, 80, 96, 112, 128, 144, 160, 176, 192, 224, 256]
      else LowRates()
  }

  /** `_BITRATES[1][1]`, which serves Layers II and III of versions 2 and 2.5. */
  function LowRates(): (rates: seq<nat>)
    ensures |rates| == 14
  {
    [8, 16, 24, 32, 40, 48, 56, 64, 80, 96, 112, 128, 144, 160]
  }

  /** Every row of the table grows strictly with the code and stays within
      8 to 448 kbit/s. */
  lemma BitrateRowIncreasing(row: nat, layer: nat)
    requires row < 2 && 1 <= layer <= 3
    ensures Increasing(BitrateRow(row, layer))
    ensures 8 <= BitrateRow(row, layer)[0] && BitrateRow(row, layer)[13] <= 448
  {
    var s := BitrateRow(row, layer);
    forall i | 0 <= i < 13
      ensures s[i] < s[i + 1]
    {
      if row == 0 && layer == 1 {
      } else if row == 0 && layer == 2 {
      } else if row == 0 {
      } else if layer == 1 {
      } else {
      }
    }
  }

  predicate Increasing(s: seq<nat>)
  {
    forall i :: 0 <= i < |s| - 1 ==> s[i] < s[i + 1]
  }

  /** The `bitrate` property, in kbit/s: codes 0 ("free") and 15 are
      refused before the version and layer are looked at. */
  function BitrateKbps(r: RawHeader): (res: Result<nat>)
    ensures res.Err? <==> r.bitrateCode == 0 || r.bitrateCode == 15 || Version(r).Err? || Layer(r).Err?
    ensures (r.bitrateCode == 0 || r.bitrateCode == 15) ==> res == Err(HeaderError(BadBitrate))
    ensures res.Ok? ==> res.value == BitrateRow(VersionRow(Version(r).value), Layer(r).value)[r.bitrateCode - 1]
  {
    var code := r.bitrateCode;
    if code == 0xF || code == 0x0 then Err(HeaderError(BadBitrate))
    else
      match Version(r)
      case Err(e) => Err(e)
      case Ok(v) =>
        match Layer(r)
        case Err(e) => Err(e)
        case Ok(l) => Ok(BitrateRow(VersionRow(v), l)[code - 1])
  }

  /** A row of `_SAMPLINGRATES`, in Hz, for sampling codes 0 to 2. */
  function SamplingRow(row: nat): (rates: seq<nat>)
    requires row < 2
    ensures |rates| == 3
  {
    if row == 0 then [44100, 48000, 32000] else [22050, 24000, 16000]
  }

  /** The `samplingrate` property, in Hz: the version is checked before the
      reserved code 3, and version 2.5 halves the version 2 rate. */
  function SamplingRateHz(r: RawHeader): (res: Result<nat>)
    ensures res.Err? <==> Version(r).Err? || r.samplingCode == 3
    ensures Version(r).Err? ==> res == Err(HeaderError(BadVersion))
    ensures Version(r).Ok? && r.samplingCode == 3 ==> res == Err(HeaderError(BadSamplingRate))
    ensures res.Ok? ==> 8000 <= res.value <= 48000
    ensures res.Ok? && Version(r).value == V1 ==> res.value == [44100, 48000, 32000][r.samplingCode]
    ensures res.Ok? && Version(r).value == V2 ==> res.value == [22050, 24000, 16000][r.samplingCode]
    ensures res.Ok? && Version(r).value == V25 ==> res.value == [11025, 12000, 8000][r.samplingCode]
  {
    match Version(r)
    case Err(e) => Err(e)
    case Ok(v) =>
      if r.samplingCode == 3 then Err(HeaderError(BadSamplingRate))
      else if v == V25 then Ok(SamplingRow(VersionRow(v))[r.samplingCode] / 2)
      else Ok(SamplingRow(VersionRow(v))[r.samplingCode])
  }

  /** Each step down in version halves the sampling rate for the same code. */
  lemma SamplingRateHalves(r: RawHeader)
    requires r.samplingCode != 3
    ensures SamplingRateHz(r.(versionCode := 3)).value == 2 * SamplingRateHz(r.(versionCode := 2)).value
    ensures SamplingRateHz(r.(versionCode := 2)).value == 2 * SamplingRateHz(r.(versionCode := 0)).value
  {
  }

  /** The fields a well-formed header has: every accessor `__init__` reads
      succeeds. */
  predicate WellFormed(r: RawHeader)
  {
    && r.sync == 0x7FF && r.versionCode != 1 && r.layerCode != 0
    && r.bitrateCode != 0 && r.bitrateCode != 15 && r.samplingCode != 3
  }

  /** `for key in _FIELDS: getattr(self, key)`: the accessors in field order,
      reporting the first one that raises. */
  function Validate(r: RawHeader): (fault: Option<HeaderFault>)
    ensures fault.None? <==> WellFormed(r)
    ensures fault == Some(BadSync) <==> r.sync != 0x7FF
    ensures fault == Some(BadVersion) <==> r.sync == 0x7FF && r.versionCode == 1
    ensures fault == Some(BadLayer) <==> r.sync == 0x7FF && r.versionCode != 1 && r.layerCode == 0
    ensures fault == Some(BadBitrate) <==>
              r.sync == 0x7FF && r.versionCode != 1 && r.layerCode != 0 && (r.bitrateCode == 0 || r.bitrateCode == 15)
    ensures fault == Some(BadSamplingRate) <==>
              r.sync == 0x7FF && r.versionCode != 1 && r.layerCode != 0 && r.bitrateCode != 0
              && r.bitrateCode != 15 && r.samplingCode == 3
  {
    if r.sync != 0x7FF then Some(BadSync)
    else if Version(r).Err? then Some(Version(r).error.fault)
    else if Layer(r).Err? then Some(Layer(r).error.fault)
    else if BitrateKbps(r).Err? then Some(BitrateKbps(r).error.fault)
    else if SamplingRateHz(r).Err? then Some(SamplingRateHz(r).error.fault)
    else None
  }

  /** The header fields of a `Header2` object: they passed validation. */
  type HeaderFields = r: RawHeader | WellFormed(r) witness Raw(0x7FF, 3, 1, 1, 9, 0, 0, 0, 0, 0, 0, 0, 0)

  function VersionOf(f: HeaderFields): MpegVersion { Version(f).value }

  function LayerOf(f: HeaderFields): nat { Layer(f).value }

  function BitrateOf(f: HeaderFields): nat { BitrateKbps(f).value }

  function SamplingRateOf(f: HeaderFields): nat { SamplingRateHz(f).value }

  /** `side_info_size`: indexed by `version > 1` and `channelmode == MONO`. */
  function SideInfoSize(f: HeaderFields): (size: nat)
    ensures size == 9 || size == 17 || size == 32
    ensures size == 32 <==> VersionOf(f) == V1 && f.channelmode != 3
    ensures size == 9 <==> VersionOf(f) != V1 && f.channelmode == 3
  {
    var table := [[32, 17], [17, 9]];
    table[if VersionOf(f) != V1 then 1 else 0][if f.channelmode == 3 then 1 else 0]
  }

  /** `length(include_crc)`: header, optional CRC and side information. */
  function Length(f: HeaderFields, includeCrc: bool): (n: nat)
    ensures n == 4 + (if includeCrc && Protected(f) then 2 else 0) + SideInfoSize(f)
  {
    4 + (if includeCrc then 1 else 0) * (if Protected(f) then 1 else 0) * 2 + SideInfoSize(f)
  }

  // ---------------------------------------------------------------------
  // Frame length

  /** Every entry of the bitrate table lies between 8 and 448 kbit/s. */
  lemma BitrateBounds(row: nat, layer: nat, i: nat)
    requires row < 2 && 1 <= layer <= 3 && i < 14
    ensures 8 <= BitrateRow(row, layer)[i] <= 448
    ensures row == 0 ==> 32 <= BitrateRow(row, layer)[i]
  {
  }

  /** The `(mul, slot)` pair of `MPEGFrame`: slots of four bytes for
      Layer I, single bytes otherwise. */
  function FrameFactors(f: HeaderFields): (factors: (nat, nat))
    ensures factors.1 == (if LayerOf(f) == 1 then 4 else 1)
    ensures factors.0 >= 12
  {
    if VersionOf(f) == V1 then
      if LayerOf(f) == 1 then (12, 4) else (144, 1)
    else
      if LayerOf(f) == 1 then (240, 4) else (72, 1)
  }

  /** The bytes of audio data a frame's duration carries at its bitrate,
      before padding: `mul * bitrate * 1000 / samplingrate`. */
  function FrameSlots(f: HeaderFields): nat
  {
    SlotCount(FrameFactors(f).0, BitrateOf(f), SamplingRateOf(f))
  }

  function SlotCount(mul: nat, rate: nat, sr: nat): nat
  {
    MulMono(0, mul, 0, rate * 1000);
    if sr == 0 then 0 else mul * rate * 1000 / sr
  }

  lemma FrameSlotsPositive(f: HeaderFields)
    ensures FrameSlots(f) >= 1
  {
    var mul := FrameFactors(f).0;
    var rate := BitrateOf(f);
    BitrateBounds(VersionRow(VersionOf(f)), LayerOf(f), f.bitrateCode - 1);
    assert mul * rate >= 48 by {
      assert mul >= 12 && rate >= 8;
      MulMono(12, mul, 8, rate);
    }
    DivAtLeastOne(mul * rate * 1000, SamplingRateOf(f));
  }

  lemma MulMono(a: nat, b: nat, c: nat, d: nat)
    requires a <= b && c <= d
    ensures a * c <= b * d
  {
    assert a * c <= b * c;
  }

  lemma DivAtLeastOne(x: nat, d: nat)
    requires 1 <= d <= x
    ensures x / d >= 1
  {
  }

  /** `MPEGFrame.length`: `((mul * bitrate * 1000 / samplingrate) +
      padding * slot) * slot`, with Python 2 floor division. */
  function FrameLength(f: HeaderFields): (n: nat)
    ensures n >= 1
    ensures n % FrameFactors(f).1 == 0
  {
    var slot := FrameFactors(f).1;
    FrameSlotsPositive(f);
    (FrameSlots(f) + f.padding * slot) * slot
  }

  /** The frame length of section 2.4.3.1 of ISO/IEC 11172-3 (and of ISO/IEC
      13818-3 for the lower sampling rates): 12, 144 or, for Layer III at
      the lower rates, 72 bytes per kbit/s and kHz, Layer I counted in
      four-byte slots, and one slot of padding. */
  function StandardFrameLength(f: HeaderFields): nat
  {
    var perRate := if LayerOf(f) == 1 then 12 else if LayerOf(f) == 2 || VersionOf(f) == V1 then 144 else 72;
    var slot := if LayerOf(f) == 1 then 4 else 1;
    (SlotCount(perRate, BitrateOf(f), SamplingRateOf(f)) + f.padding) * slot
  }

  /** The length computed agrees with the standard exactly for the MPEG-1
      frames and the Layer III frames at the lower rates, save a padded
      Layer I frame, whose padding is counted as a full slot of slots. */
  lemma FrameLengthStandard(f: HeaderFields)
    ensures FrameLength(f) == StandardFrameLength(f) <==>
              (VersionOf(f) == V1 || LayerOf(f) == 3) && (LayerOf(f) != 1 || f.padding == 0)
  {
    var b := BitrateOf(f) * 1000;
    var sr := SamplingRateOf(f);
    BitrateBounds(VersionRow(VersionOf(f)), LayerOf(f), f.bitrateCode - 1);
    assert b >= 8000 && sr <= 48000;
    if VersionOf(f) != V1 && LayerOf(f) == 1 {
      assert FrameSlots(f) == 240 * b / sr;
      DivGap(240 * b, 12 * b, sr);
    } else if VersionOf(f) != V1 && LayerOf(f) == 2 {
      assert FrameSlots(f) == 72 * b / sr;
      DivGap(144 * b, 72 * b, sr);
    } else if LayerOf(f) == 1 && f.padding == 1 {
      assert FrameLength(f) == (FrameSlots(f) + 4) * 4;
    }
  }

  lemma DivGap(a: nat, c: nat, d: nat)
    requires d >= 1 && a >= c + d
    ensures a / d >= c / d + 1
  {
    Bits.DivModUnique(a - d, d, a / d - 1, a % d);
    DivMonotone(c, a - d, d);
  }

  lemma {:induction false} DivMonotone(x: nat, y: nat, d: nat)
    requires d >= 1 && x <= y
    ensures x / d <= y / d
    decreases y - x
  {
    if x < y {
      DivMonotone(x, y - 1, d);
      if y % d == 0 {
        Bits.DivModUnique(y - 1, d, y / d - 1, d - 1);
      } else {
        Bits.DivModUnique(y - 1, d, y / d, y % d - 1);
      }
    }
  }

  /** A padded Layer I frame is sixteen bytes longer than the same frame
      unpadded; at the other layers padding adds one byte. */
  lemma PaddingAdds(f: HeaderFields)
    ensures var g := f.(padding := 1); var h := f.(padding := 0);
            FrameLength(g) - FrameLength(h) == (if LayerOf(f) == 1 then 16 else 1)
  {
  }

  /** A 128 kbit/s MPEG-1 Layer III frame at 44.1 kHz is 417 bytes long,
      418 when padded. */
  lemma FrameLengthExample()
    ensures FrameLength(Raw(0x7FF, 3, 1, 1, 9, 0, 0, 0, 0, 0, 0, 0, 0)) == 417
    ensures FrameLength(Raw(0x7FF, 3, 1, 1, 9, 0, 1, 0, 0, 0, 0, 0, 0)) == 418
  {
    assert BitrateRow(0, 3)[8] == 128;
  }

  // ---------------------------------------------------------------------
  // The header object

  /** A `Header2` object: its validated fields, the CRC read after a
      protected header (`_crc16`) and the side information that follows
      (`_side_info`), each absent until the buffer held them. */
  datatype Header = Header(fields: HeaderFields, storedCrc: Option<u16>, sideInfo: Option<seq<byte>>)

  /** `not self._crc16`: no CRC, or a CRC of zero. */
  predicate CrcMissing(c: Option<u16>)
  {
    c.None? || c.value == 0
  }

  /** `not self._side_info`: no side information, or an empty one. */
  predicate SideMissing(s: Option<seq<byte>>)
  {
    s.None? || |s.value| == 0
  }

  /** Where the side information of the header at `offset` starts. */
  function SideOffset(f: HeaderFields, offset: nat): nat
  {
    offset + Length(f, true) - SideInfoSize(f)
  }

  /** `update(buffer, offset)`: reads the CRC and the side information that
      follow the header at `offset`, when they are still missing and the
      buffer already holds them. */
  function Update(h: Header, buf: seq<byte>, offset: nat): (u: Header)
    ensures u.fields == h.fields
    ensures !CrcMissing(h.storedCrc) || !Protected(h.fields) ==> u.storedCrc == h.storedCrc
    ensures !SideMissing(h.sideInfo) ==> u.sideInfo == h.sideInfo
    ensures Protected(h.fields) && CrcMissing(h.storedCrc) && offset + 6 <= |buf| ==>
              u.storedCrc == Some(StructCodec.DecodeBE(buf[offset + 4 .. offset + 6]))
    ensures SideMissing(h.sideInfo) && offset + Length(h.fields, true) <= |buf| ==>
              u.sideInfo == Some(buf[SideOffset(h.fields, offset) .. offset + Length(h.fields, true)])
    ensures u.storedCrc != h.storedCrc ==> offset + 6 <= |buf|
    ensures u.sideInfo != h.sideInfo ==> offset + Length(h.fields, true) <= |buf|
  {
    var off := offset + 4;
    var withCrc :=
      if Protected(h.fields) && CrcMissing(h.storedCrc) && |buf| >= off + 2 then
        h.(storedCrc := Some(StructCodec.DecodeBE(buf[off .. off + 2])))
      else h;
    var sideAt := if Protected(h.fields) then off + 2 else off;
    var size := SideInfoSize(h.fields);
    if SideMissing(withCrc.sideInfo) && |buf| >= sideAt + size then
      withCrc.(sideInfo := Some(buf[sideAt .. sideAt + size]))
    else withCrc
  }

  /** Updating twice from the same buffer is updating once. */
  lemma UpdateIdempotent(h: Header, buf: seq<byte>, offset: nat)
    ensures Update(Update(h, buf, offset), buf, offset) == Update(h, buf, offset)
  {
  }

  /** Updating from a longer buffer after a shorter one, both holding the same
      bytes where they overlap, ends where a single update from the longer
      one would, unless a zero CRC was read (which `update` reads again). */
  lemma UpdateGrowing(h: Header, short: seq<byte>, long: seq<byte>, offset: nat)
    requires |short| <= |long| && short == long[..|short|]
    requires Update(h, short, offset).storedCrc != Some(0)
    requires h.storedCrc != Some(0)
    ensures Update(Update(h, short, offset), long, offset) == Update(h, long, offset)
  {
    var n := Length(h.fields, true);
    if offset + 6 <= |short| {
      assert short[offset + 4 .. offset + 6] == long[offset + 4 .. offset + 6];
    }
    if offset + n <= |short| {
      assert short[SideOffset(h.fields, offset) .. offset + n] == long[SideOffset(h.fields, offset) .. offset + n];
    }
  }

  // ---------------------------------------------------------------------
  // Decoding and encoding

  /** `Header2(buffer, offset)`: unpacks the four header bytes, validates
      every field through its accessor, and reads what follows. */
  function Decode(buf: seq<byte>, offset: nat): (res: Result<Header>)
    ensures res == Err(BitpackError) <==> |buf| < offset + 4
    ensures offset + 4 <= |buf| ==>
              var fault := Validate(MaskedFields(buf[offset .. offset + 4]));
              && (res.Err? <==> fault.Some?)
              && (fault.Some? ==> res == Err(HeaderError(fault.value)))
    ensures res.Ok? ==> res.value == Update(Header(MaskedFields(buf[offset .. offset + 4]), None, None), buf, offset)
  {
    UnpackHeader(buf, offset);
    match BitunpackFrom(HeaderFormat, buf, offset)
    case Err(e) => Err(e)
    case Ok(vals) =>
      var r: RawHeader := RawOf(vals);
      match Validate(r)
      case Some(fault) => Err(HeaderError(fault))
      case None => Ok(Update(Header(r, None, None), buf, offset))
  }

  /** `_HEADER.unpack(buffer, offset)`: too few bytes is the codec's error,
      otherwise the masked field values. */
  lemma UnpackHeader(buf: seq<byte>, offset: nat)
    ensures |buf| < offset + 4 ==> BitunpackFrom(HeaderFormat, buf, offset) == Err(BitpackError)
    ensures offset + 4 <= |buf| ==>
              BitunpackFrom(HeaderFormat, buf, offset) == Ok(ValuesOf(MaskedFields(buf[offset .. offset + 4])))
  {
    HeaderLength();
    if offset + 4 <= |buf| {
      UnpackMatchesMasks(buf, offset);
    }
  }

  /** The four header bytes `bytes()` packs from the raw field values. */
  function PackedHeader(f: RawHeader): (b: seq<byte>)
    ensures |b| == 4
    ensures MaskedFields(b) == f
  {
    HeaderFormatShape();
    ShapePacked(HeaderFormat, f);
    BitpackInto(HeaderFormat, [0, 0, 0, 0], 0, ValuesOf(f)).value
  }

  lemma NormalizedInRange(fld: Field, v: int)
    requires fld.kind == IntField ==> 0 <= v < Pow2(fld.width)
    requires fld.kind == BoolField ==> 0 <= v <= 1 && fld.width >= 1
    ensures Normalized(fld, v) == v
  {
    NormalizedValue(fld, v);
    if fld.kind == IntField {
      Bits.ModSmall(v, Pow2(fld.width));
    }
  }

  /** Packing raw values that fit their fields and reading the bytes back
      with shifts and masks gives the same values. */
  lemma ShapePacked(fmt: Format, f: RawHeader)
    requires HeaderShape(fmt)
    ensures BitpackInto(fmt, [0, 0, 0, 0], 0, ValuesOf(f)).Ok?
    ensures var b := BitpackInto(fmt, [0, 0, 0, 0], 0, ValuesOf(f)).value;
            |b| == 4 && MaskedFields(b) == f
  {
    ShapeStarts(fmt);
    assert ByteLength(fmt) == 4;
    var vals := ValuesOf(f);
    var out := BitpackInto(fmt, [0, 0, 0, 0], 0, vals).value;
    PackUnpackRoundTrip(fmt, [0, 0, 0, 0], 0, vals);
    assert forall i :: 0 <= i < |fmt| ==> Matches(fmt[i], Normalized(fmt[i], vals[i]));
    ShapeUnpack(fmt, out, 0);
    assert out[0..4] == out;
    var norm := NormalizedValues(fmt, vals);
    assert ValuesOf(MaskedFields(out)) == norm;
    ShapeNormalized(fmt, f);
    assert RawOf(ValuesOf(MaskedFields(out))) == MaskedFields(out);
  }

  lemma ShapeNormalized(fmt: Format, f: RawHeader)
    requires HeaderShape(fmt)
    ensures var vals := ValuesOf(f);
            RawOf(NormalizedValues(fmt, vals)) == f
  {
    Pow2Small();
    NormalizedInRange(fmt[0], f.sync);
    NormalizedInRange(fmt[1], f.versionCode);
    NormalizedInRange(fmt[2], f.layerCode);
    NormalizedInRange(fmt[3], f.crcBit);
    NormalizedInRange(fmt[4], f.bitrateCode);
    NormalizedInRange(fmt[5], f.samplingCode);
    NormalizedInRange(fmt[6], f.padding);
    NormalizedInRange(fmt[7], f.private);
    NormalizedInRange(fmt[8], f.channelmode);
    NormalizedInRange(fmt[9], f.modeextension);
    NormalizedInRange(fmt[10], f.copyright);
    NormalizedInRange(fmt[11], f.original);
    NormalizedInRange(fmt[12], f.emphasis);
  }

  /** `bytes(include_crc)` as written: the packed header followed by the
      side information.  Without side information `extend(None)` raises
      `TypeError`.  For a protected header with `include_crc` the CRC is
      computed, and then `buffer[pos:pos] = 2` assigns an integer to a
      bytearray slice, which Python 2.7 refuses with `TypeError` as well. */
  function Bytes(h: Header, includeCrc: bool, crc16: seq<byte> -> u16): (res: Result<seq<byte>>)
    ensures res.Err? <==> h.sideInfo.None? || (includeCrc && Protected(h.fields))
    ensures res.Err? ==> res.error == TypeError
    ensures res.Ok? ==> && |res.value| == Length(h.fields, includeCrc) - SideInfoSize(h.fields) + |h.sideInfo.value|
                         && |res.value| == 4 + |h.sideInfo.value|
                         && MaskedFields(res.value[..4]) == h.fields
                         && res.value[4..] == h.sideInfo.value
  {
    match h.sideInfo
    case None => Err(TypeError)
    case Some(side) =>
      if includeCrc && Protected(h.fields) then Err(TypeError)
      else
        var body := PackedHeader(h.fields) + side;
        assert body[..4] == PackedHeader(h.fields) && body[4..] == side;
        Ok(body)
  }

  /** `bytes(include_crc)` as the comment on the slice assignment evidently
      intends: for a protected header with `include_crc`, two bytes are
      inserted after the header and hold the CRC of everything after the
      first two bytes, big-endian. */
  function BytesIntended(h: Header, includeCrc: bool, crc16: seq<byte> -> u16): (res: Result<seq<byte>>)
    ensures res.Err? <==> h.sideInfo.None?
    ensures res.Err? ==> res.error == TypeError
    ensures res.Ok? ==> var b := res.value; var at := Length(h.fields, includeCrc) - SideInfoSize(h.fields);
              && |b| == at + |h.sideInfo.value|
              && MaskedFields(b[..4]) == h.fields
              && b[at..] == h.sideInfo.value
              && (includeCrc && Protected(h.fields) ==>
                    StructCodec.UnpackFrom(StructCodec.BeU16, b, 4)
                      == Ok([crc16(PackedHeader(h.fields)[2..] + h.sideInfo.value)]))
  {
    match h.sideInfo
    case None => Err(TypeError)
    case Some(side) =>
      var body := PackedHeader(h.fields) + side;
      assert body[..4] == PackedHeader(h.fields) && body[4..] == side;
      if includeCrc && Protected(h.fields) then
        DropAppend(PackedHeader(h.fields), side, 2);
        Ok(InsertCrc(body, crc16(body[2..])))
      else
        Ok(body)
  }

  /** A protected header with side information cannot be turned into bytes
      with its CRC as written, while the intended version writes them. */
  lemma BytesProtectedRaises(h: Header, crc16: seq<byte> -> u16)
    requires h.sideInfo.Some? && Protected(h.fields)
    ensures Bytes(h, true, crc16) == Err(TypeError)
    ensures BytesIntended(h, true, crc16).Ok?
    ensures |BytesIntended(h, true, crc16).value| == 6 + |h.sideInfo.value|
  {
  }

  /** Without the CRC insertion the two versions agree. */
  lemma BytesAgreesElsewhere(h: Header, includeCrc: bool, crc16: seq<byte> -> u16)
    ensures (Bytes(h, includeCrc, crc16) == BytesIntended(h, includeCrc, crc16))
              <==> (!(includeCrc && Protected(h.fields)) || h.sideInfo.None?)
  {
  }

  /** `buffer[pos:pos] = 2` followed by `pack_into('>H', buffer, pos, crc)`
      with `pos` the end of the four header bytes. */
  function InsertCrc(body: seq<byte>, crc: u16): (b: seq<byte>)
    requires |body| >= 4
    ensures |b| == |body| + 2 && b[..4] == body[..4] && b[6..] == body[4..]
    ensures StructCodec.UnpackFrom(StructCodec.BeU16, b, 4) == Ok([crc])
  {
    var spaced := body[..4] + [0, 0] + body[4..];
    CrcPacks(spaced, crc);
    var b := StructCodec.PackInto(StructCodec.BeU16, spaced, 4, [crc]).value;
    assert b[..4] == spaced[..4] && b[6..] == spaced[6..];
    b
  }

  lemma DropAppend(a: seq<byte>, b: seq<byte>, k: nat)
    requires k <= |a|
    ensures (a + b)[k..] == a[k..] + b
  {
  }

  lemma CrcPacks(buf: seq<byte>, crc: u16)
    requires |buf| >= 6
    ensures StructCodec.PackInto(StructCodec.BeU16, buf, 4, [crc]).Ok?
    ensures StructCodec.UnpackFrom(StructCodec.BeU16, StructCodec.PackInto(StructCodec.BeU16, buf, 4, [crc]).value, 4)
              == Ok([crc])
  {
    Pow2Small();
    assert StructCodec.CalcSize([2]) == 2;
    assert StructCodec.InRange([2], [crc]);
    StructCodec.PackUnpackRoundTrip(StructCodec.BeU16, buf, 4, [crc]);
  }

  /** `calculate_crc()`: the CRC of `bytes(include_crc=False)` after its
      first two bytes. */
  function CalculateCrc(h: Header, crc16: seq<byte> -> u16): (res: Result<u16>)
    ensures res.Err? <==> h.sideInfo.None?
    ensures res.Ok? ==> res.value == crc16(PackedHeader(h.fields)[2..] + h.sideInfo.value)
  {
    match Bytes(h, false, crc16)
    case Err(e) => Err(e)
    case Ok(b) =>
      DropAppend(PackedHeader(h.fields), h.sideInfo.value, 2);
      Ok(crc16(b[2..]))
  }

  /** `valid()`: an unprotected header is valid; a protected one when the CRC
      read from the stream is the one calculated. */
  function Valid(h: Header, crc16: seq<byte> -> u16): (res: Result<bool>)
    ensures res.Err? <==> Protected(h.fields) && h.sideInfo.None?
    ensures res == Ok(true) <==>
              !Protected(h.fields)
              || (h.sideInfo.Some? && h.storedCrc == Some(crc16(PackedHeader(h.fields)[2..] + h.sideInfo.value)))
  {
    if !Protected(h.fields) then Ok(true)
    else
      match CalculateCrc(h, crc16)
      case Err(e) => Err(e)
      case Ok(c) => Ok(h.storedCrc == Some(c))
  }

  /** Decoding the bytes of a header with its full side information gives
      back its fields and side information, with the CRC that `bytes()`
      wrote, so that the decoded header is valid. */
  lemma BytesDecodeRoundTrip(h: Header, crc16: seq<byte> -> u16)
    requires h.sideInfo.Some? && |h.sideInfo.value| == SideInfoSize(h.fields)
    ensures BytesIntended(h, true, crc16).Ok?
    ensures var b := BytesIntended(h, true, crc16).value;
            && |b| == Length(h.fields, true)
            && Decode(b, 0).Ok?
            && Decode(b, 0).value.fields == h.fields
            && Decode(b, 0).value.sideInfo == h.sideInfo
            && (Protected(h.fields) ==> Decode(b, 0).value.storedCrc == Some(CalculateCrc(h, crc16).value))
            && Valid(Decode(b, 0).value, crc16) == Ok(true)
    ensures !Protected(h.fields) ==> Bytes(h, true, crc16) == BytesIntended(h, true, crc16)
  {
    var b := BytesIntended(h, true, crc16).value;
    var d := Update(Header(h.fields, None, None), b, 0);
    DecodeOwnBytes(h, crc16);
    UpdateOwnBytes(h, crc16);
    assert Decode(b, 0).value == d;
  }

  /** The bytes of a header decode to a fresh header with its fields. */
  lemma DecodeOwnBytes(h: Header, crc16: seq<byte> -> u16)
    requires h.sideInfo.Some? && |h.sideInfo.value| == SideInfoSize(h.fields)
    ensures BytesIntended(h, true, crc16).Ok?
    ensures var b := BytesIntended(h, true, crc16).value;
            && |b| == Length(h.fields, true)
            && Decode(b, 0) == Ok(Update(Header(h.fields, None, None), b, 0))
  {
    var b := BytesIntended(h, true, crc16).value;
    assert b[0..4] == b[..4];
    assert Validate(h.fields).None?;
  }

  /** Reading the bytes of a header back recovers its side information and,
      when protected, the CRC that was written. */
  lemma UpdateOwnBytes(h: Header, crc16: seq<byte> -> u16)
    requires h.sideInfo.Some? && |h.sideInfo.value| == SideInfoSize(h.fields)
    ensures BytesIntended(h, true, crc16).Ok?
    ensures var b := BytesIntended(h, true, crc16).value;
            var d := Update(Header(h.fields, None, None), b, 0);
            && d.sideInfo == h.sideInfo
            && (Protected(h.fields) ==> d.storedCrc == Some(CalculateCrc(h, crc16).value))
  {
    OwnSideInfo(h, crc16);
    if Protected(h.fields) {
      var b := BytesIntended(h, true, crc16).value;
      var crc := crc16(PackedHeader(h.fields)[2..] + h.sideInfo.value);
      StoredCrc(b, crc);
    }
  }

  lemma OwnSideInfo(h: Header, crc16: seq<byte> -> u16)
    requires h.sideInfo.Some? && |h.sideInfo.value| == SideInfoSize(h.fields)
    ensures BytesIntended(h, true, crc16).Ok?
    ensures var b := BytesIntended(h, true, crc16).value;
            Update(Header(h.fields, None, None), b, 0).sideInfo == h.sideInfo
  {
    var b := BytesIntended(h, true, crc16).value;
    SideAtEnd(h.fields, b, h.sideInfo.value);
  }

  lemma SideAtEnd(f: HeaderFields, b: seq<byte>, side: seq<byte>)
    requires |side| == SideInfoSize(f) && |b| == Length(f, true) - SideInfoSize(f) + |side|
    requires b[Length(f, true) - SideInfoSize(f)..] == side
    ensures Update(Header(f, None, None), b, 0).sideInfo == Some(side)
  {
    var n := Length(f, true);
    UpdateFresh(f, b, 0);
    assert b[SideOffset(f, 0) .. n] == b[n - SideInfoSize(f)..];
  }

  /** A header just unpacked from a buffer holding its whole length takes
      the CRC and the side information from the bytes that follow it. */
  lemma UpdateFresh(f: HeaderFields, buf: seq<byte>, offset: nat)
    requires offset + Length(f, true) <= |buf|
    ensures Update(Header(f, None, None), buf, offset)
              == Header(f, if Protected(f) then Some(StructCodec.DecodeBE(buf[offset + 4 .. offset + 6])) else None,
                        Some(buf[SideOffset(f, offset) .. offset + Length(f, true)]))
  {
  }

  /** The big-endian value `struct` unpacks at offset 4 is the one `update`
      reads there. */
  lemma StoredCrc(b: seq<byte>, crc: u16)
    requires StructCodec.UnpackFrom(StructCodec.BeU16, b, 4) == Ok([crc])
    ensures |b| >= 6 && StructCodec.DecodeBE(b[4..6]) == crc
  {
    assert StructCodec.CalcSize([2]) == 2;
    assert StructCodec.DecodeFields([2], true, b[4..])[0] == StructCodec.Decode(b[4..][..2], true);
    assert b[4..][..2] == b[4..6];
  }
}
