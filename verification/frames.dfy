/** The frame classes of the package (`ID3Frame`, `APEFrame`, `RIFFFrame`,
    `MPEGFrame`, `XingFrame`).  Each one looks at the buffered bytes at an
    offset and either recognises its kind of frame, together with the frame's
    byte length, declines with `_InvalidFrame`, or raises.  The flags the
    classes leave on the reader object are the explicit `Session`. */
module Frames {
  import opened Base
  import PySeq
  import Bits
  import StructCodec
  import Mp3Header

  // ---------------------------------------------------------------------
  // Tags

  const TagV1: seq<byte> := [0x54, 0x41, 0x47]                                 // 'TAG'
  const TagV2: seq<byte> := [0x49, 0x44, 0x33]                                 // 'ID3'
  const ApeTag: seq<byte> := [0x41, 0x50, 0x45, 0x54, 0x41, 0x47, 0x45, 0x58]  // 'APETAGEX'
  const RiffTag: seq<byte> := [0x52, 0x49, 0x46, 0x46]                         // 'RIFF'
  const WaveTag: seq<byte> := [0x57, 0x41, 0x56, 0x45]                         // 'WAVE'
  const DataTag: seq<byte> := [0x64, 0x61, 0x74, 0x61]                         // 'data'
  const FmtTag: seq<byte> := [0x66, 0x6D, 0x74, 0x20]                          // 'fmt '
  const FactTag: seq<byte> := [0x66, 0x61, 0x63, 0x74]                         // 'fact'
  const XingTag: seq<byte> := [0x58, 0x69, 0x6E, 0x67]                         // 'Xing'
  const InfoTag: seq<byte> := [0x49, 0x6E, 0x66, 0x6F]                         // 'Info'

  /** `WAVE_FORMAT_MPEGLAYER3`, the only codec accepted inside a RIFF file. */
  const MpegLayer3Format := 0x55

  // ---------------------------------------------------------------------
  // Frames and probe outcomes

  /** The reader attributes the frame classes read and write:
      `_has_riff_header` and `_has_xing_header`. */
  datatype Session = Session(hasRiff: bool, hasXing: Option<bool>)

  /** A fresh `Reader`: no RIFF header seen, Xing framing not yet known. */
  const InitialSession := Session(false, None)

  datatype Id3Version = Id3V1 | Id3V2

  datatype RiffChunk = RiffHeader | DataChunk | FormatChunk | FactChunk

  /** Bits 3 to 0 of the Xing flag byte. */
  datatype XingFlags = XingFlags(vbrQuality: bool, toc: bool, totalSize: bool, totalFrames: bool)

  /** A recognised frame with its byte length.  The APE version is `None`
      unless the tag declares version 2000 or 1000. */
  datatype Frame =
    | Id3(id3Version: Id3Version, length: nat)
    | Ape(apeVersion: Option<nat>, length: nat)
    | Riff(chunk: RiffChunk, length: nat)
    | Mpeg(header: Mp3Header.Header, length: nat)
    | Xing(header: Mp3Header.Header, length: nat, flags: XingFlags, xingLength: nat)

  /** `isinstance(frame, MetaFrame)`. */
  predicate IsMeta(f: Frame)
  {
    f.Id3? || f.Ape?
  }

  /** The outcome of constructing one frame class: a frame, `_InvalidFrame`,
      or any other exception, which the reader lets escape. */
  datatype Probe = Found(frame: Frame) | Invalid | Raised(error: Exc)

  predicate At(buf: seq<byte>, tag: seq<byte>, offset: nat)
  {
    PySeq.StartsWithAt(buf, tag, offset)
  }

  // ---------------------------------------------------------------------
  // ID3

  /** The tag size of an ID3v2 header, bytes 6 to 9 shifted by 21, 14, 7
      and 0 bits.  The bytes are not masked to seven bits. */
  function Id3Size(b: seq<byte>): nat
    requires |b| == 4
  {
    b[0] as int * 0x20_0000 + b[1] as int * 0x4000 + b[2] as int * 0x80 + b[3] as int
  }

  /** The four-byte "synchsafe" encoding of a 28-bit size that an ID3v2
      header carries: seven bits per byte, most significant first. */
  function Synchsafe(n: nat): (b: seq<byte>)
    requires n < 0x1000_0000
    ensures |b| == 4 && forall i :: 0 <= i < 4 ==> b[i] < 0x80
  {
    [n / 0x20_0000, (n / 0x4000) % 0x80, (n / 0x80) % 0x80, n % 0x80]
  }

  /** `ID3Frame(buffer, fileobj, offset)`. */
  function Id3Probe(buf: seq<byte>, offset: nat): (p: Probe)
    ensures p == Found(Id3(Id3V1, 128)) <==> At(buf, TagV1, offset)
    ensures p.Found? && p.frame.Id3? && p.frame.id3Version == Id3V2 ==>
              At(buf, TagV2, offset) && offset + 10 <= |buf|
              && p.frame.length == Id3Size(buf[offset + 6 .. offset + 10]) + 10
    ensures p == Raised(Mp3Error(Id3TooShort)) <==> !At(buf, TagV1, offset) && At(buf, TagV2, offset) && |buf| < 10
    ensures !At(buf, TagV1, offset) && At(buf, TagV2, offset) && 10 <= |buf| ==>
              p == (if offset + 10 <= |buf| then Found(Id3(Id3V2, Id3Size(buf[offset + 6 .. offset + 10]) + 10))
                    else Raised(IndexError))
    ensures p == Invalid <==> !At(buf, TagV1, offset) && !At(buf, TagV2, offset)
    ensures p.Found? ==> p.frame.Id3? && p.frame.length >= 10
  {
    if At(buf, TagV1, offset) then Found(Id3(Id3V1, 128))
    else if At(buf, TagV2, offset) then
      if |buf| < 10 then Raised(Mp3Error(Id3TooShort))
      else if |buf| < offset + 10 then Raised(IndexError)
      else Found(Id3(Id3V2, Id3Size(buf[offset + 6 .. offset + 10]) + 10))
    else Invalid
  }

  lemma Id3SizeSynchsafe(n: nat)
    requires n < 0x1000_0000
    ensures Id3Size(Synchsafe(n)) == n
  {
    var b := Synchsafe(n);
    assert n % 0x80 + 0x80 * (n / 0x80) == n;
    assert (n / 0x80) % 0x80 + 0x80 * ((n / 0x80) / 0x80) == n / 0x80;
    assert (n / 0x80) / 0x80 == n / 0x4000;
    assert (n / 0x4000) % 0x80 + 0x80 * ((n / 0x4000) / 0x80) == n / 0x4000;
    assert (n / 0x4000) / 0x80 == n / 0x20_0000;
  }

  lemma SynchsafeId3Size(b: seq<byte>)
    requires |b| == 4 && forall i :: 0 <= i < 4 ==> b[i] < 0x80
    ensures Id3Size(b) < 0x1000_0000
    ensures Synchsafe(Id3Size(b)) == b
  {
    var n := Id3Size(b);
    var lo := b[1] as int * 0x4000 + b[2] as int * 0x80 + b[3] as int;
    var mid := b[2] as int * 0x80 + b[3] as int;
    Bits.DivModUnique(n, 0x20_0000, b[0] as int, lo);
    Bits.DivModUnique(n, 0x4000, b[0] as int * 0x80 + b[1] as int, mid);
    Bits.DivModUnique(b[0] as int * 0x80 + b[1] as int, 0x80, b[0] as int, b[1] as int);
    Bits.DivModUnique(n, 0x80, b[0] as int * 0x4000 + b[1] as int * 0x80 + b[2] as int, b[3] as int);
    Bits.DivModUnique(b[0] as int * 0x4000 + b[1] as int * 0x80 + b[2] as int, 0x80,
                      b[0] as int * 0x80 + b[1] as int, b[2] as int);
    Bits.DivModUnique(n, 0x80, b[0] as int * 0x4000 + b[1] as int * 0x80 + b[2] as int, b[3] as int);
  }

  /** An ID3v2 header whose size field holds the synchsafe encoding of `n`
      is recognised as a tag of `n` bytes plus its 10-byte header. */
  lemma Id3V2Length(buf: seq<byte>, offset: nat, n: nat)
    requires n < 0x1000_0000 && 10 <= offset + 10 <= |buf|
    requires buf[offset .. offset + 3] == TagV2
    requires buf[offset + 6 .. offset + 10] == Synchsafe(n)
    ensures Id3Probe(buf, offset) == Found(Id3(Id3V2, n + 10))
  {
    Id3SizeSynchsafe(n);
    assert buf[offset .. offset + 3] != TagV1 by {
      assert buf[offset .. offset + 3][0] == 0x49;
    }
  }

  // ---------------------------------------------------------------------
  // APE

  /** `APEFrame(buffer, fileobj, offset)` as written: a version-1000 tag
      refers to the attribute `CV1`, which the class does not define. */
  function ApeProbe(buf: seq<byte>, offset: nat): (p: Probe)
    ensures !At(buf, ApeTag, offset) ==> p == Invalid
    ensures At(buf, ApeTag, offset) ==> (p == Raised(StructError) <==> |buf| < offset + 16)
    ensures p.Raised? ==> p.error == StructError || p.error == AttributeError
    ensures p.Found? ==> p.frame.Ape? && p.frame.length >= 32
  {
    if !At(buf, ApeTag, offset) then Invalid
    else match StructCodec.UnpackFrom(StructCodec.LeU32Pair, buf, offset + 8)
      case Err(e) => Raised(e)
      case Ok(vals) =>
        if vals[0] == 2000 then Found(Ape(Some(1), vals[1] + 32))
        else if vals[0] == 1000 then Raised(AttributeError)
        else Found(Ape(None, vals[1] + 32))
  }

  /** `APEFrame` with `self.V1` in place of the undefined `self.CV1`. */
  function ApeProbeIntended(buf: seq<byte>, offset: nat): (p: Probe)
    ensures !At(buf, ApeTag, offset) ==> p == Invalid
    ensures At(buf, ApeTag, offset) ==> (p == Raised(StructError) <==> |buf| < offset + 16)
    ensures p.Raised? ==> p.error == StructError
    ensures p.Found? ==> p.frame.Ape? && p.frame.length >= 32
  {
    if !At(buf, ApeTag, offset) then Invalid
    else match StructCodec.UnpackFrom(StructCodec.LeU32Pair, buf, offset + 8)
      case Err(e) => Raised(e)
      case Ok(vals) =>
        if vals[0] == 2000 then Found(Ape(Some(1), vals[1] + 32))
        else if vals[0] == 1000 then Found(Ape(Some(0), vals[1] + 32))
        else Found(Ape(None, vals[1] + 32))
  }

  /** The APE tag whose header `pack_into('<II', ...)` wrote after the
      preamble, as read back by the corrected class: version 2000 is V2,
      version 1000 is V1, and the length counts the 32-byte header. */
  lemma ApeRoundTrip(buf: seq<byte>, offset: nat, version: nat, size: nat)
    requires At(buf, ApeTag, offset)
    requires StructCodec.PackInto(StructCodec.LeU32Pair, buf, offset + 8, [version, size]).Ok?
    ensures var tagged := StructCodec.PackInto(StructCodec.LeU32Pair, buf, offset + 8, [version, size]).value;
            ApeProbeIntended(tagged, offset)
              == Found(Ape(if version == 2000 then Some(1) else if version == 1000 then Some(0) else None, size + 32))
  {
    var tagged := StructCodec.PackInto(StructCodec.LeU32Pair, buf, offset + 8, [version, size]).value;
    StructCodec.PackUnpackRoundTrip(StructCodec.LeU32Pair, buf, offset + 8, [version, size]);
    assert tagged[..offset + 8] == buf[..offset + 8];
    assert tagged[offset .. offset + 8] == buf[offset .. offset + 8];
  }

  /** A version-1000 APE tag makes the class as written raise
      `AttributeError` where the corrected one recognises an APEv1 tag. */
  lemma ApeV1Raises(buf: seq<byte>, offset: nat, size: nat)
    requires At(buf, ApeTag, offset)
    requires StructCodec.PackInto(StructCodec.LeU32Pair, buf, offset + 8, [1000, size]).Ok?
    ensures var tagged := StructCodec.PackInto(StructCodec.LeU32Pair, buf, offset + 8, [1000, size]).value;
            && ApeProbe(tagged, offset) == Raised(AttributeError)
            && ApeProbeIntended(tagged, offset) == Found(Ape(Some(0), size + 32))
  {
    var tagged := StructCodec.PackInto(StructCodec.LeU32Pair, buf, offset + 8, [1000, size]).value;
    ApeRoundTrip(buf, offset, 1000, size);
    StructCodec.PackUnpackRoundTrip(StructCodec.LeU32Pair, buf, offset + 8, [1000, size]);
  }

  /** The two classes differ on version 1000 only. */
  lemma ApeAgreesElsewhere(buf: seq<byte>, offset: nat)
    ensures ApeProbe(buf, offset) != ApeProbeIntended(buf, offset) <==>
              && At(buf, ApeTag, offset) && offset + 16 <= |buf|
              && StructCodec.UnpackFrom(StructCodec.LeU32Pair, buf, offset + 8).value[0] == 1000
  {
  }

  // ---------------------------------------------------------------------
  // RIFF

  /** `RIFFFrame(buffer, fileobj, offset)`: a RIFF/WAVE header sets the
      session's RIFF flag; the chunks `data`, `fmt ` and `fact` are only
      recognised once the flag is set. */
  function RiffProbe(buf: seq<byte>, s: Session, offset: nat): (r: (Probe, Session))
    ensures r.1.hasXing == s.hasXing
    ensures r.1.hasRiff <==> s.hasRiff || (At(buf, RiffTag, offset) && At(buf, WaveTag, offset + 8))
    ensures At(buf, RiffTag, offset) && At(buf, WaveTag, offset + 8) ==> r.0 == Found(Riff(RiffHeader, 12))
    ensures s.hasRiff && At(buf, DataTag, offset) ==> r.0 == Found(Riff(DataChunk, 8))
    ensures r.0.Found? ==> r.0.frame.Riff? && r.0.frame.length >= 8
    ensures r.0.Raised? ==> s.hasRiff && (r.0.error == StructError || r.0.error.Mp3Error?)
  {
    if At(buf, RiffTag, offset) && At(buf, WaveTag, offset + 8) then
      (Found(Riff(RiffHeader, 12)), s.(hasRiff := true))
    else if !s.hasRiff then (Invalid, s)
    else if At(buf, DataTag, offset) then (Found(Riff(DataChunk, 8)), s)
    else if At(buf, FmtTag, offset) then
      match StructCodec.UnpackFrom(StructCodec.LeU32U16, buf, offset + 4)
      case Err(e) => (Raised(e), s)
      case Ok(vals) =>
        if vals[1] != MpegLayer3Format then (Raised(Mp3Error(RiffCodec(vals[1]))), s)
        else (Found(Riff(FormatChunk, vals[0] + 8)), s)
    else if At(buf, FactTag, offset) then
      match StructCodec.UnpackFrom(StructCodec.LeU32, buf, offset + 4)
      case Err(e) => (Raised(e), s)
      case Ok(vals) => (Found(Riff(FactChunk, vals[0] + 8)), s)
    else (Invalid, s)
  }

  /** Before a RIFF/WAVE header has been seen, nothing but such a header is
      recognised, whatever chunk names the bytes spell. */
  lemma RiffChunksNeedHeader(buf: seq<byte>, s: Session, offset: nat)
    requires !s.hasRiff
    ensures RiffProbe(buf, s, offset).0 != Invalid <==> At(buf, RiffTag, offset) && At(buf, WaveTag, offset + 8)
    ensures RiffProbe(buf, s, offset).0 != Invalid ==> RiffProbe(buf, s, offset).0 == Found(Riff(RiffHeader, 12))
  {
  }

  /** A `fmt ` chunk whose header `pack_into('<IH', ...)` wrote: with the
      MPEG Layer III format tag it is a chunk of `size + 8` bytes, with any
      other tag the read fails with the tag in the error. */
  lemma RiffFormatRoundTrip(buf: seq<byte>, s: Session, offset: nat, size: nat, format: nat)
    requires s.hasRiff && At(buf, FmtTag, offset)
    requires StructCodec.PackInto(StructCodec.LeU32U16, buf, offset + 4, [size, format]).Ok?
    ensures var chunk := StructCodec.PackInto(StructCodec.LeU32U16, buf, offset + 4, [size, format]).value;
            RiffProbe(chunk, s, offset).0
              == if format == MpegLayer3Format then Found(Riff(FormatChunk, size + 8))
                 else Raised(Mp3Error(RiffCodec(format)))
  {
    var chunk := StructCodec.PackInto(StructCodec.LeU32U16, buf, offset + 4, [size, format]).value;
    StructCodec.PackUnpackRoundTrip(StructCodec.LeU32U16, buf, offset + 4, [size, format]);
    assert chunk[..offset + 4] == buf[..offset + 4];
    assert chunk[offset .. offset + 4] == buf[offset .. offset + 4] == FmtTag;
    assert chunk[offset] == 0x66 by { assert chunk[offset .. offset + 4][0] == chunk[offset]; }
    FirstByteDiffers(chunk, offset, RiffTag);
    FirstByteDiffers(chunk, offset, DataTag);
  }

  /** A `fact` chunk whose header `pack_into('<I', ...)` wrote is a chunk of
      `size + 8` bytes. */
  lemma RiffFactRoundTrip(buf: seq<byte>, s: Session, offset: nat, size: nat)
    requires s.hasRiff && At(buf, FactTag, offset)
    requires StructCodec.PackInto(StructCodec.LeU32, buf, offset + 4, [size]).Ok?
    ensures var chunk := StructCodec.PackInto(StructCodec.LeU32, buf, offset + 4, [size]).value;
            RiffProbe(chunk, s, offset).0 == Found(Riff(FactChunk, size + 8))
  {
    var chunk := StructCodec.PackInto(StructCodec.LeU32, buf, offset + 4, [size]).value;
    StructCodec.PackUnpackRoundTrip(StructCodec.LeU32, buf, offset + 4, [size]);
    assert chunk[..offset + 4] == buf[..offset + 4];
    assert chunk[offset .. offset + 4] == buf[offset .. offset + 4] == FactTag;
    assert chunk[offset] == 0x66 by { assert chunk[offset .. offset + 4][0] == chunk[offset]; }
    assert chunk[offset + 1] == 0x61 by { assert chunk[offset .. offset + 4][1] == chunk[offset + 1]; }
    FirstByteDiffers(chunk, offset, RiffTag);
    FirstByteDiffers(chunk, offset, DataTag);
    ByteDiffers(chunk, offset, FmtTag, 1);
  }

  // ---------------------------------------------------------------------
  // MPEG

  /** `MPEGFrame(buffer, fileobj, offset)`: a refused header is not an MPEG
      frame, a buffer too short for the four header bytes raises.  The
      strict check compares against `_mpeg_version` and `_mpeg_layer`,
      which the reader never sets, so it never refuses a frame. */
  function MpegProbe(buf: seq<byte>, offset: nat): (p: Probe)
    ensures p == Raised(BitpackError) <==> |buf| < offset + 4
    ensures p.Raised? ==> p.error == BitpackError
    ensures p.Found? <==> offset + 4 <= |buf| && Mp3Header.Validate(Mp3Header.MaskedFields(buf[offset .. offset + 4])).None?
    ensures p.Found? ==> && p.frame.Mpeg?
                         && p.frame.header.fields == Mp3Header.MaskedFields(buf[offset .. offset + 4])
                         && p.frame.length == Mp3Header.FrameLength(p.frame.header.fields)
                         && p.frame.length >= 1
  {
    match Mp3Header.Decode(buf, offset)
    case Err(e) => if e.HeaderError? then Invalid else Raised(e)
    case Ok(h) => Found(Mpeg(h, Mp3Header.FrameLength(h.fields)))
  }

  /** The bytes `Header2.bytes()` is meant to produce for a header with its
      side information, which it does produce for an unprotected header, are
      recognised as an MPEG frame with the same fields and
      the length the header's bit rate, sampling rate and padding give. */
  lemma MpegOwnHeader(h: Mp3Header.Header, crc16: seq<byte> -> u16)
    requires h.sideInfo.Some? && |h.sideInfo.value| == Mp3Header.SideInfoSize(h.fields)
    ensures var b := Mp3Header.BytesIntended(h, true, crc16).value;
            && MpegProbe(b, 0).Found?
            && MpegProbe(b, 0).frame.header.fields == h.fields
            && MpegProbe(b, 0).frame.length == Mp3Header.FrameLength(h.fields)
    ensures !Mp3Header.Protected(h.fields) ==> Mp3Header.Bytes(h, true, crc16) == Mp3Header.BytesIntended(h, true, crc16)
  {
    Mp3Header.BytesDecodeRoundTrip(h, crc16);
  }

  // ---------------------------------------------------------------------
  // Xing

  /** `bool(buffer[offset + 7] & 1 << 3 - i)` for i = 0 .. 3: bit 3 is the
      VBR quality, bit 2 the table of contents, bit 1 the total size and
      bit 0 the total frame count. */
  function FlagsOf(b: byte): XingFlags
  {
    XingFlags((b / 8) % 2 == 1, (b / 4) % 2 == 1, (b / 2) % 2 == 1, b % 2 == 1)
  }

  /** The flag byte an encoder writes for a set of flags. */
  function FlagsByte(fl: XingFlags): (b: byte)
    ensures b < 16
  {
    (if fl.vbrQuality then 8 else 0) + (if fl.toc then 4 else 0)
    + (if fl.totalSize then 2 else 0) + (if fl.totalFrames then 1 else 0)
  }

  lemma FlagsRoundTrip(fl: XingFlags)
    ensures FlagsOf(FlagsByte(fl)) == fl
  {
  }

  /** Only the low four bits of the flag byte matter. */
  lemma FlagsLowNibble(b: byte)
    ensures FlagsOf(b) == FlagsOf(b % 16)
    ensures FlagsByte(FlagsOf(b)) == b % 16
  {
    var q, l := b / 16, b % 16;
    var l8, l4, l2 := l / 8, (l / 4) % 2, (l / 2) % 2;
    assert l == 8 * l8 + 4 * l4 + 2 * l2 + l % 2;
    Bits.DivModUnique(b, 8, 2 * q + l8, l % 8);
    Bits.DivModUnique(2 * q + l8, 2, q, l8);
    Bits.DivModUnique(b, 4, 4 * q + l / 4, l % 4);
    Bits.DivModUnique(4 * q + l / 4, 2, 2 * q + l8, l4);
    Bits.DivModUnique(b, 2, 8 * q + l / 2, l % 2);
    Bits.DivModUnique(8 * q + l / 2, 2, 4 * q + l / 4, l2);
    Bits.DivModUnique(b, 2, 8 * q + l / 2, l % 2);
    assert (b / 8) % 2 == l8 && (b / 4) % 2 == l4 && (b / 2) % 2 == l2 && b % 2 == l % 2;
    assert FlagsOf(b) == XingFlags(l8 == 1, l4 == 1, l2 == 1, l % 2 == 1);
  }

  /** `xing_length`: the header with CRC and side information, the eight
      bytes of tag and flags, and four bytes for each 32-bit field and 100
      for the table of contents that the flags announce. */
  function XingLength(f: Mp3Header.HeaderFields, fl: XingFlags): (n: nat)
    ensures Mp3Header.Length(f, true) + 8 <= n <= Mp3Header.Length(f, true) + 120
    ensures n == Mp3Header.Length(f, true) + 8 <==> fl == XingFlags(false, false, false, false)
  {
    Mp3Header.Length(f, true) + 8
    + (if fl.vbrQuality then 4 else 0) + (if fl.toc then 100 else 0)
    + (if fl.totalSize then 4 else 0) + (if fl.totalFrames then 4 else 0)
  }

  /** `XingFrame(buffer, fileobj, offset)` as written: it is skipped once
      the session knows the stream has no Xing header; otherwise it runs the
      MPEG constructor and takes that constructor's return value, which is
      always `None`, for the frame length, so a valid MPEG header marks the
      session as having no Xing header and the frame as invalid. */
  function XingProbe(buf: seq<byte>, s: Session, offset: nat): (r: (Probe, Session))
    ensures r.1.hasRiff == s.hasRiff
    ensures r.0.Raised? <==> s.hasXing != Some(false) && |buf| < offset + 4
    ensures r.1 != s ==> r.1.hasXing == Some(false)
  {
    if s.hasXing == Some(false) then (Invalid, s)
    else match MpegProbe(buf, offset)
      case Raised(e) => (Raised(e), s)
      case Invalid => (Invalid, s)
      case Found(_) => (Invalid, s.(hasXing := Some(false)))
  }

  /** The class as written never yields a frame; after its first look at a
      valid MPEG header it is not tried again. */
  lemma XingNeverFound(buf: seq<byte>, s: Session, offset: nat)
    ensures !XingProbe(buf, s, offset).0.Found?
    ensures MpegProbe(buf, offset).Found? ==> XingProbe(buf, s, offset).1.hasXing == Some(false)
    ensures s.hasXing == Some(false) ==> XingProbe(buf, s, offset) == (Invalid, s)
  {
  }

  /** `XingFrame` with the MPEG frame length in place of the constructor's
      return value: after the header, or two bytes further when the frame
      has a CRC, it looks for `Xing` or `Info`, reads the flag byte at seven
      bytes past the unshifted position, and asserts that the Xing data fits
      in the MPEG frame. */
  function XingProbeIntended(buf: seq<byte>, s: Session, offset: nat): (r: (Probe, Session))
    ensures r.1.hasRiff == s.hasRiff
    ensures r.0.Found? ==> var m := MpegProbe(buf, offset);
              && m.Found?
              && r == XingTail(buf, s, offset, m.frame)
  {
    if s.hasXing == Some(false) then (Invalid, s)
    else match MpegProbe(buf, offset)
      case Raised(e) => (Raised(e), s)
      case Invalid => (Invalid, s)
      case Found(m) => XingTail(buf, s, offset, m)
  }

  /** Whether `Xing` or `Info` follows the header at `at`, or two bytes
      later in a frame with a CRC. */
  predicate XingTagged(buf: seq<byte>, at: nat, protected: bool)
  {
    At(buf, XingTag, at) || At(buf, InfoTag, at)
    || (protected && (At(buf, XingTag, at + 2) || At(buf, InfoTag, at + 2)))
  }

  /** What the corrected `XingFrame` does once the MPEG frame `m` at
      `offset` is known. */
  function XingTail(buf: seq<byte>, s: Session, offset: nat, m: Frame): (r: (Probe, Session))
    requires m.Mpeg?
    ensures r.1 == s.(hasXing := r.1.hasXing)
    ensures r.1.hasXing == Some(true) <==> XingTagged(buf, offset + Mp3Header.Length(m.header.fields, true), Mp3Header.Protected(m.header.fields))
    ensures r.0.Found? ==> var at := offset + Mp3Header.Length(m.header.fields, true);
              && at + 7 < |buf|
              && r.0.frame.Xing? && r.0.frame.header == m.header && r.0.frame.length == m.length
              && r.0.frame.flags == FlagsOf(buf[at + 7])
              && r.0.frame.xingLength == XingLength(m.header.fields, r.0.frame.flags) <= m.length
    ensures r.0.Raised? ==> r.0.error == IndexError || r.0.error == AssertionError
  {
    var at := offset + Mp3Header.Length(m.header.fields, true);
    if !XingTagged(buf, at, Mp3Header.Protected(m.header.fields)) then (Invalid, s.(hasXing := Some(false)))
    else if |buf| <= at + 7 then (Raised(IndexError), s.(hasXing := Some(true)))
    else
      var fl := FlagsOf(buf[at + 7]);
      var xl := XingLength(m.header.fields, fl);
      if m.length < xl then (Raised(AssertionError), s.(hasXing := Some(true)))
      else (Found(Xing(m.header, m.length, fl, xl)), s.(hasXing := Some(true)))
  }

  /** On a stream with a Xing tag after its first header, the class as
      written declines where the corrected one yields the Xing frame. */
  lemma XingMissed(buf: seq<byte>, s: Session, offset: nat)
    ensures XingProbeIntended(buf, s, offset).0.Found? ==>
              && XingProbe(buf, s, offset).0 == Invalid
              && XingProbe(buf, s, offset).1.hasXing == Some(false)
  {
  }

  // ---------------------------------------------------------------------
  // Trying every class

  /** Every MPEG frame starts with a 0xFF byte, the top of its sync word:
      bytes that start otherwise are never an MPEG frame. */
  lemma MpegStartsWithSync(buf: seq<byte>, offset: nat)
    ensures MpegProbe(buf, offset).Found? ==> offset < |buf| && buf[offset] == 0xFF
  {
    if offset + 4 <= |buf| {
      var b := buf[offset .. offset + 4];
      assert b[0] == buf[offset];
      assert Mp3Header.MaskedFields(b).sync == b[0] as int * 8 + b[1] as int / 32;
    }
  }

  /** `Reader._FRAME_TYPES`: Xing, MPEG, RIFF, ID3, APE, tried in this
      order until one does not decline; each leaves its session changes
      behind even when it declines.  APE tags are read by the class as
      written, so a version-1000 tag ends the cascade with AttributeError. */
  function TryAll(buf: seq<byte>, s: Session, offset: nat): (r: (Probe, Session))
    ensures r.0.Found? ==> r.0.frame.length >= 1 && !r.0.frame.Xing?
    ensures r.1.hasRiff <==> s.hasRiff || (At(buf, RiffTag, offset) && At(buf, WaveTag, offset + 8))
    ensures r.1.hasXing == s.hasXing || r.1.hasXing == Some(false)
    ensures MpegProbe(buf, offset).Found? ==> r.0 == MpegProbe(buf, offset)
    ensures offset + 4 <= |buf| && r.0.Raised? ==>
              r.0.error == StructError || r.0.error.Mp3Error? || r.0.error == IndexError
              || r.0.error == AttributeError
  {
    var (x, s1) := XingProbe(buf, s, offset);
    XingNeverFound(buf, s, offset);
    if !x.Invalid? then (x, s1) else TryFromMpeg(buf, s1, offset)
  }

  /** The classes after Xing: MPEG, then the tag and container classes. */
  function TryFromMpeg(buf: seq<byte>, s: Session, offset: nat): (r: (Probe, Session))
    ensures r.0.Found? ==> r.0.frame.length >= 1 && !r.0.frame.Xing?
    ensures r.1.hasRiff <==> s.hasRiff || (At(buf, RiffTag, offset) && At(buf, WaveTag, offset + 8))
    ensures r.1.hasXing == s.hasXing
    ensures MpegProbe(buf, offset).Found? ==> r.0 == MpegProbe(buf, offset)
    ensures offset + 4 <= |buf| && r.0.Raised? ==>
              r.0.error == StructError || r.0.error.Mp3Error? || r.0.error == IndexError
              || r.0.error == AttributeError
  {
    var m := MpegProbe(buf, offset);
    if m.Found? then
      MpegNotRiff(buf, offset);
      (m, s)
    else if m.Raised? then (m, s)
    else TryTags(buf, s, offset)
  }

  /** The classes for non-audio data: RIFF, ID3, APE. */
  function TryTags(buf: seq<byte>, s: Session, offset: nat): (r: (Probe, Session))
    ensures r.0.Found? ==> r.0.frame.length >= 1 && (r.0.frame.Riff? || r.0.frame.Id3? || r.0.frame.Ape?)
    ensures r == (r.0, RiffProbe(buf, s, offset).1)
    ensures r.0.Raised? ==>
              r.0.error == StructError || r.0.error.Mp3Error? || r.0.error == IndexError
              || r.0.error == AttributeError
  {
    var (rf, s2) := RiffProbe(buf, s, offset);
    if !rf.Invalid? then (rf, s2)
    else
      var i := Id3Probe(buf, offset);
      if !i.Invalid? then (i, s2)
      else (ApeProbe(buf, offset), s2)
  }

  /** Where an MPEG header does not validate, a RIFF/WAVE header is
      recognised as such. */
  lemma TryAllRiff(buf: seq<byte>, s: Session, offset: nat)
    requires At(buf, RiffTag, offset) && At(buf, WaveTag, offset + 8)
    ensures TryAll(buf, s, offset).0 == Found(Riff(RiffHeader, 12))
    ensures TryAll(buf, s, offset).1.hasRiff
  {
    assert buf[offset .. offset + 4][0] == 0x52;
    MpegStartsWithSync(buf, offset);
  }

  /** A version-1000 APE tag makes the cascade raise the AttributeError of
      the APE class as written, which `Reader.frames` does not catch. */
  lemma TryAllApeV1Raises(buf: seq<byte>, s: Session, offset: nat, size: nat)
    requires At(buf, ApeTag, offset)
    requires StructCodec.PackInto(StructCodec.LeU32Pair, buf, offset + 8, [1000, size]).Ok?
    ensures var tagged := StructCodec.PackInto(StructCodec.LeU32Pair, buf, offset + 8, [1000, size]).value;
            TryAll(tagged, s, offset).0 == Raised(AttributeError)
  {
    var tagged := StructCodec.PackInto(StructCodec.LeU32Pair, buf, offset + 8, [1000, size]).value;
    ApeV1Raises(buf, offset, size);
    assert At(tagged, ApeTag, offset);
    assert tagged[offset] == 0x41 by { assert tagged[offset .. offset + 8][0] == tagged[offset]; }
    CascadeReachesApe(tagged, s, offset);
  }

  /** Four or more bytes starting with 'A' are no MPEG header, no RIFF
      chunk and no ID3 tag, so the cascade ends with the APE class. */
  lemma CascadeReachesApe(buf: seq<byte>, s: Session, offset: nat)
    requires offset + 4 <= |buf| && buf[offset] == 0x41
    ensures TryAll(buf, s, offset).0 == ApeProbe(buf, offset)
  {
    assert MpegProbe(buf, offset) == Invalid by { MpegStartsWithSync(buf, offset); }
    var s1 := XingProbe(buf, s, offset).1;
    assert XingProbe(buf, s, offset).0 == Invalid;
    assert RiffProbe(buf, s1, offset).0 == Invalid by {
      FirstByteDiffers(buf, offset, RiffTag);
      FirstByteDiffers(buf, offset, DataTag);
      FirstByteDiffers(buf, offset, FmtTag);
      FirstByteDiffers(buf, offset, FactTag);
    }
    assert Id3Probe(buf, offset) == Invalid by {
      FirstByteDiffers(buf, offset, TagV1);
      FirstByteDiffers(buf, offset, TagV2);
    }
    assert TryTags(buf, s1, offset).0 == ApeProbe(buf, offset);
  }

  /** An MPEG header starts with 0xFF, so it is never a RIFF header. */
  lemma MpegNotRiff(buf: seq<byte>, offset: nat)
    requires MpegProbe(buf, offset).Found?
    ensures !At(buf, RiffTag, offset)
  {
    MpegStartsWithSync(buf, offset);
    FirstByteDiffers(buf, offset, RiffTag);
  }

  /** A tag whose first byte is not the buffer's byte at `offset` is not
      there. */
  lemma FirstByteDiffers(buf: seq<byte>, offset: nat, tag: seq<byte>)
    requires offset < |buf| && |tag| > 0 && tag[0] != buf[offset]
    ensures !At(buf, tag, offset)
  {
    if offset + |tag| <= |buf| {
      assert buf[offset .. offset + |tag|][0] == buf[offset];
    }
  }

  /** A tag that differs from the buffer in its byte `k` does not start at
      the offset. */
  lemma ByteDiffers(buf: seq<byte>, offset: nat, tag: seq<byte>, k: nat)
    requires offset + k < |buf| && k < |tag| && tag[k] != buf[offset + k]
    ensures !At(buf, tag, offset)
  {
    if offset + |tag| <= |buf| {
      assert buf[offset .. offset + |tag|][k] == buf[offset + k];
    }
  }

  // ---------------------------------------------------------------------
  // Assembly

  /** `Frame.append(view)`: the frame keeps the first `length` bytes of the
      view; an MPEG frame then re-reads its CRC and side information from
      them. */
  function Assemble(fr: Frame, view: seq<byte>): (r: (Frame, seq<byte>))
    ensures r.1 == view[..Min(fr.length, |view|)]
    ensures r.0.length == fr.length
    ensures !fr.Mpeg? ==> r.0 == fr
    ensures fr.Mpeg? ==> r.0.Mpeg? && r.0.header.fields == fr.header.fields
    ensures fr.Mpeg? && fr.header.storedCrc.Some? && fr.header.storedCrc.value != 0 ==>
              r.0.header.storedCrc == fr.header.storedCrc
  {
    var bytes := view[..Min(fr.length, |view|)];
    if fr.Mpeg? then (Mpeg(Mp3Header.Update(fr.header, bytes, 0), fr.length), bytes)
    else (fr, bytes)
  }

  /** The frame keeps only its first `length` bytes of the view. */
  lemma AssemblePrefix(fr: Frame, a: seq<byte>, b: seq<byte>)
    requires fr.length <= |a| && fr.length <= |b| && a[..fr.length] == b[..fr.length]
    ensures Assemble(fr, a) == Assemble(fr, b)
  {
  }
}
