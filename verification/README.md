# python-mp3 core, modelled in Dafny

This project models the core of the `mp3` Python package. The package reads
an MPEG audio stream from a file and cuts it into frames. The core has three
parts:

- `_bitpack.py` is a bit-field codec. A format such as `"i:11,i:2,b"` compiles
  to a list of fields. Values are packed into a byte region most significant
  bit first, across byte boundaries, and unpacked from it. A field may carry
  an expected value that unpacking checks.
- `_buffer.py` is `ZeroCopyBuffer`, an array created with a given size and
  a live window `[pos, len)`. It supports views, fills from a reader, appends, deletes,
  replaces, `struct` and bit-field (un)packing at window offsets, and
  `startswith`.
- `__init__.py` holds the frame classes and the reader:
  - `Header2` is the four-byte frame header, with its tables, accessors,
    side information, CRC and byte encoding.
  - The frame classes are `ID3Frame`, `APEFrame`, `RIFFFrame`, `MPEGFrame`
    and `XingFrame`.
  - `Reader.frames` is the generator that loses and regains sync on data
    that is not a frame.

Modules, one per file:

| module | file | models |
|---|---|---|
| `Base` | `base.dfy` | bytes, `Option`, the exceptions the package raises, `Result` |
| `PySeq` | `pyseq.dfy` | Python 2.7 indexing, slicing and `bytearray.startswith` |
| `Bits` | `bits.dfy` | MSB-first bit strings of byte regions |
| `StructCodec` | `structcodec.dfy` | the `struct` formats used (`'<II'`, `'<IH'`, `'<I'`, `'>H'`, `'>I'`) |
| `Bitpack` | `bitpack.dfy` | `bitpack_into` / `bitunpack_from` on compiled formats |
| `FormatParse` | `formatparse.dfy` | `formatstr`: parsing the textual format |
| `ZeroCopy` | `zerocopy.dfy` | `ZeroCopyBuffer` |
| `Mp3Header` | `header.dfy` | `Header2` and the MPEG frame length |
| `Frames` | `frames.dfy` | the frame classes, with the reader's flags as an explicit `Session` |
| `Reader` | `reader.dfy` | `Reader.frames` and `_fill_buffer` |

Everything is a pure function over immutable values:

- A mutable buffer becomes a function that returns the new buffer.
- A raised exception becomes `Err` of the `Exc` datatype.
- The input file is the sequence of its unread bytes. `read(8192)` takes the
  next block of it.
- The reader returns a trace of events: a frame yielded, a meta frame taken
  without being yielded, or a byte dropped. It also returns the state it
  ended in, or the exception that ended it.
- `crc16` is a function parameter.

Bit packing is modelled on bit strings. The source walks each field a byte
at a time with shifts and masks. The model writes each field's bits at the
field's bit position in the region's bit string. Lemmas tie the two views
together. For example, `Mp3Header.ShapeFieldValues` shows that each header
field the codec reads is the field the module's shift-and-mask
`frameheader` extracts.

In these places the model follows the code as written:

- When the reader is out of sync and the look-ahead bytes for confirmation
  run out, `_fill_buffer` raises. The candidate is not discarded.
- `view` does not check its range against the window.
- A field width of 0 (`"i:0"`) is accepted.
- With `ignore_invalid_data=False`, the reader yields the first 500 buffered
  bytes and then raises.
- The frame length formula departs from the MPEG standard for padded Layer I
  frames and for Layer I and II frames at the lower sampling rates.
  `Mp3Header.FrameLengthStandard` states exactly where.

## Model

| member | source | states |
|---|---|---|
| PySeq.Index | src/mp3/_buffer.py:53 | `s[i]` on a bytearray: non-negative indices read directly, negative ones count from the end, anything else is IndexError |
| PySeq.Slice | src/mp3/_buffer.py:91 | a slice within bounds is the plain subsequence; no slice is longer than the sequence |
| PySeq.SliceAssign | src/mp3/_buffer.py:138 | `s[a:b] = v` on a bytearray replaces the normalised range by `v`, inserting when the end is before the start, and changes the length by the difference |
| PySeq.SliceAssignSlice | src/mp3/_buffer.py:138 | the range written by a slice assignment reads back as what was written, and the bytes before it stay |
| PySeq.StartsWith | src/mp3/_buffer.py:218 | with a non-negative start and the end at or past the length, `startswith` holds exactly when the prefix fits and the bytes match; with an end inside the array the prefix must also end by that end; a match implies the prefix fits in the range after Python's index adjustment |
| PySeq.StartsWithAt | src/mp3/__init__.py:118 | `startswith(prefix, offset)` holds exactly when the prefix fits at `offset` and the bytes there equal it |
| Bits.FromToBits | src/mp3/_bitpack.py:88-104 | reading back the `w` bits written for `v` gives `v` modulo `2^w`, negative `v` included |
| Bits.ToFromBits | src/mp3/_bitpack.py:130-145 | writing out the value of a bit string reproduces the string |
| Bits.BitsBytesRoundTrip | src/mp3/_bitpack.py:112 | packing a whole number of bytes' worth of bits into bytes and reading them back is lossless |
| Bits.BytesBitsRoundTrip | src/mp3/_bitpack.py:142 | reading bytes as bits and packing them again gives the same bytes |
| Bits.BytesToBitsSlice | src/mp3/_bitpack.py:114-115 | the bits of a sub-region are the matching slice of the region's bit string (the cursor moves to the next byte every 8 bits) |
| Bits.BytesToBitsAppend | src/mp3/_bitpack.py:114-115 | the bit string of a concatenation is the concatenation of the bit strings |
| Bits.Overwrite | src/mp3/_bitpack.py:106-112 | writing a piece leaves the piece at its position and every other bit unchanged |
| Bits.ToBitsSplit | src/mp3/_bitpack.py:99-102 | the low `a + k` bits of `v` are the low `a` bits of `v >> k` followed by its low `k` bits |
| Bits.FromBitsAppend | src/mp3/_bitpack.py:145 | the value of a concatenation is the first part shifted by the second's length, plus the second, as the loop shifts the value left before adding the next bits |
| Bits.ByteField | src/mp3/_bitpack.py:139-142 | bits `j .. j + w` of a byte, from the top, are `(b >> (8 - j - w)) & (2^w - 1)` |
| Bits.RegionByteField | src/mp3/_bitpack.py:131-149 | a field inside byte `k` of a region reads as that byte shifted and masked |
| Bits.LeadingBits | src/mp3/_bitpack.py:131-149 | a field spanning the first byte and the top of the second reads as the first byte shifted up plus the second's top bits |
| StructCodec.DecodeEncodeBE | src/mp3/__init__.py:60-61 | big-endian decoding of the `n`-byte encoding of `v` gives `v` modulo `256^n` |
| StructCodec.DecodeEncodeLE | src/mp3/__init__.py:60-61 | the same for little-endian |
| StructCodec.DecodeFields | src/mp3/__init__.py:57-58 | one value per field, each below `256^width` |
| StructCodec.UnpackFrom | src/mp3/__init__.py:57-58 | `struct.error` exactly when the buffer is too short from the offset; otherwise one value per field |
| StructCodec.DecodeFieldsPrefix | src/mp3/__init__.py:57-58 | decoding reads only the first `calcsize` bytes |
| StructCodec.UnpackFromRegion | src/mp3/__init__.py:57-58 | unpacking depends only on the bytes the format covers |
| StructCodec.PackInto | src/mp3/__init__.py:60-61 | `struct.error` exactly when the value count is wrong, the region does not fit or a value is out of range; otherwise the length and the bytes outside the region are unchanged |
| StructCodec.DecodeEncodeFields | src/mp3/__init__.py:57-61 | decoding the encoding of in-range values, whatever follows, gives the values |
| StructCodec.PackUnpackRoundTrip | src/mp3/_buffer.py:167-173 | unpacking at the offset `pack_into` wrote to gives back the packed values |
| Bitpack.ByteLength | src/mp3/_bitpack.py:45-46 | the least number of whole bytes that hold all the field bits |
| Bitpack.FieldStart | src/mp3/_bitpack.py:86-118 | each field lies within the total width; the position after the last field is the total width |
| Bitpack.FieldStartNext | src/mp3/_bitpack.py:114-116 | each field starts where the previous one ends |
| Bitpack.Masked | src/mp3/_bitpack.py:88-89 | the stored value is below `2^width`: an integer is `v mod 2^width` (Python's `&` with a low mask), a boolean of width at least 1 is 1 exactly when `v` is non-zero |
| Bitpack.WriteFieldsFrame | src/mp3/_bitpack.py:106-112 | packing changes no bit outside the fields' bits |
| Bitpack.WriteFieldsHead | src/mp3/_bitpack.py:91-116 | the first field holds its masked value after all fields are written |
| Bitpack.WriteFieldsField | src/mp3/_bitpack.py:87-118 | every field holds its masked value after packing: later fields do not disturb earlier ones |
| Bitpack.WriteFieldsPadding | src/mp3/_bitpack.py:107-109 | the bits after the last field keep their old values |
| Bitpack.ReadFields | src/mp3/_bitpack.py:127-157 | a success has one value per field; a failure is `invalid_input_error` naming a field of this format |
| Bitpack.ReadFieldsValues | src/mp3/_bitpack.py:129-157 | each value of a success is its field's decoded bits and meets the field's expected value |
| Bitpack.ReadFieldsOk | src/mp3/_bitpack.py:129-157 | unpacking succeeds exactly when every field meets its expected value, and then yields every field's value in order |
| Bitpack.ReadFieldsErr | src/mp3/_bitpack.py:154-155 | a failure names the first field whose expected value is not met |
| Bitpack.MismatchShift | src/mp3/_bitpack.py:129-155 | a first mismatch in the fields after a matching first field is the first mismatch of the whole format |
| Bitpack.BitpackInto | src/mp3/_bitpack.py:80-118 | the codec's error exactly when the region does not fit, IndexError exactly when values are missing; otherwise the length and the bytes outside the region are unchanged |
| Bitpack.BitpackIntoSplice | src/mp3/_bitpack.py:80-118 | `bitpack_into` rewrites exactly its region, as the region packed on its own |
| Bitpack.BitpackIntoRegion | src/mp3/_bitpack.py:86-118 | the region's new bits are the fields written over its old bits |
| Bitpack.WrittenFieldValue | src/mp3/_bitpack.py:87-89 | a written field reads back as its value masked to the width and coerced to its type |
| Bitpack.BitpackIntoFields | src/mp3/_bitpack.py:80-118 | after packing, every field of the region reads back as its normalised value |
| Bitpack.BitpackIntoPadding | src/mp3/_bitpack.py:106-109 | the pad bits after the last field keep their old values |
| Bitpack.BitunpackFrom | src/mp3/_bitpack.py:121-157 | the codec's error exactly when the region does not fit; any other failure names a field of the format; a success has one value per field |
| Bitpack.BitunpackFromRegion | src/mp3/_bitpack.py:121-149 | unpacking depends only on the bytes the format covers |
| Bitpack.BitunpackFromFields | src/mp3/_bitpack.py:121-157 | success exactly when every field meets its expected value, with each field's bits decoded; a failure names the first mismatch |
| Bitpack.FieldInByte | src/mp3/_bitpack.py:131-145 | a field inside one byte reads as that byte shifted right and masked to the width, then coerced |
| Bitpack.FieldInByteValue | src/mp3/_bitpack.py:139-142 | the same for integer and one-bit boolean fields, as `(byte >> shift) & mask` |
| Bitpack.NormalizedValue | src/mp3/_bitpack.py:89 | an integer reads back as `v mod 2^width`; a boolean as 1 exactly when `v` is non-zero (0 at width 0) |
| Bitpack.PackUnpackRoundTrip | src/mp3/_bitpack.py:80-157 | unpacking what `bitpack_into` wrote gives every value masked to its width and coerced to its type, unless a field's expected value is not met, and then the first such field is named |
| FormatParse.ParseInt | src/mp3/_bitpack.py:63 | `int(s)` succeeds exactly on digits with an optional sign, giving the decimal value negated after `-`; otherwise ValueError |
| FormatParse.DecimalRoundTrip | src/mp3/_bitpack.py:70-73 | the decimal digits of `n` read back as `n` |
| FormatParse.ParseExpected | src/mp3/_bitpack.py:62-63 | a literal without the `0x` prefix is read by `int()`; a `0x` literal is its hexadecimal value when that is non-zero, and ValueError otherwise |
| FormatParse.HexExpected | src/mp3/_bitpack.py:62-63 | a non-zero `0x` literal is read as hexadecimal; a zero one is falsy, falls through to `int()` and fails with ValueError |
| FormatParse.SignedParse | src/mp3/_bitpack.py:62-63 | `str(v)` of any integer contains no `=` and is read back as `v` |
| FormatParse.DigitsParse | src/mp3/_bitpack.py:62-63 | digits, alone or after a minus sign, contain no `=` and are read as their value or its negation |
| FormatParse.FirstIndex | src/mp3/_bitpack.py:68 | the first occurrence of a character, where `split(':', 1)` cuts; none exactly when absent |
| FormatParse.LastIndex | src/mp3/_bitpack.py:61 | the last occurrence, where `rsplit('=', 1)` cuts; none exactly when absent |
| FormatParse.ParseBody | src/mp3/_bitpack.py:65-78 | a body fails only with ValueError (no `:`) or the codec's error, and carries the given expected value |
| FormatParse.RenderBodyParse | src/mp3/_bitpack.py:65-78 | `"b"`, `"i:W"` and `"b:W"` parse to the field they render, with no `=` in them |
| FormatParse.ParseChunk | src/mp3/_bitpack.py:58-78 | a chunk fails only with ValueError or the codec's error |
| FormatParse.RenderParse | src/mp3/_bitpack.py:57-78 | rendering a field, with its expected value if any, and parsing it back gives the field |
| FormatParse.BadWidthRefused | src/mp3/_bitpack.py:70-71 | a width that is not a base-10 integer is refused with the codec's error |
| FormatParse.BadTypeRefused | src/mp3/_bitpack.py:75-76 | a type other than `i` and `b` is refused with the codec's error |
| FormatParse.Compile | src/mp3/_bitpack.py:38-50 | compiling succeeds exactly when every chunk parses, and then gives one field per chunk, in order |
| FormatParse.CompileEach | src/mp3/_bitpack.py:44 | chunks that each parse to a field compile to that list of fields |
| FormatParse.Split | src/mp3/_bitpack.py:39-40 | `split(',')` gives at least one piece and no piece contains the separator |
| FormatParse.SplitJoin | src/mp3/_bitpack.py:39-40 | joining the pieces of `split` with the separator gives the string back |
| ZeroCopy.New | src/mp3/_buffer.py:31-42 | a new buffer records the requested size, has an array of that size and an empty window |
| ZeroCopy.Len | src/mp3/_buffer.py:44-45 | `len(buffer)` is the length of the live data |
| ZeroCopy.GetItem | src/mp3/_buffer.py:47-53 | in-window keys read the window and negative keys count from its end, unless the clamp lands on 0: at the start of the array such a key indexes the whole array from its end; keys past the window read the byte just after it, IndexError when the array is full; a key before an empty window that does not start the array reads the byte at `pos` |
| ZeroCopy.GetItemIntended | src/mp3/_buffer.py:47-53 | a negative key is clamped into the window, counting from its end, so it always reads a byte of the window; other keys read as in the source |
| ZeroCopy.GetItemNegativeDiscrepancy | src/mp3/_buffer.py:51-52 | for window `[7]` at the start of array `[7, 0]`, key -1 reads 0 where the clamped read gives 7 |
| ZeroCopy.GetItemNegativeMisses | src/mp3/_buffer.py:51-52 | with the window at the start and the array not full, key `-len` reads the array from its end, not the window's first byte |
| ZeroCopy.View | src/mp3/_buffer.py:81-91 | the view is the window from `offset`, to `offset + length` when a positive length fits, and otherwise to the end; the end is not checked against the window |
| ZeroCopy.WindowSlices | src/mp3/_buffer.py:91 | slices of the window are the matching slices of the array |
| ZeroCopy.Shift | src/mp3/_buffer.py:194-208 | `_shift_buffer` keeps the live data, moves it to the array's start and keeps the size |
| ZeroCopy.AppendAfter | src/mp3/_buffer.py:138-139 | writing after the window grows it by exactly the written bytes |
| ZeroCopy.Fill | src/mp3/_buffer.py:93-120 | no byte is lost or invented; as many bytes as fit in the array are taken; EOFError exactly when `completely` finds the window not ending at the buffer's size or `at_least` is not reached; nothing happens when `at_least` is already met |
| ZeroCopy.Extend | src/mp3/_buffer.py:122-141 | `extend` returns `min(len(buf), size - len(buffer))`; when that is not negative it appends exactly that many bytes of `buf` and keeps the array's length; when the window already ends past the size it is cut back to the first `size` bytes |
| ZeroCopy.AssignAfterWindow | src/mp3/_buffer.py:138-139 | the slice assignment after the window overwrites for a positive count and otherwise inserts, leaving the first `len + count` bytes alone |
| ZeroCopy.ExtendWithinSize | src/mp3/_buffer.py:129-139 | a window within the size is extended by what fits and stays within the size, reaching it when `buf` does not fit |
| ZeroCopy.ExtendFromBuffer | src/mp3/_buffer.py:130-141 | with another buffer as the source the count is as for `extend`; a positive count appends that buffer's first bytes; a zero count keeps the window but inserts the other's whole window into the array; a negative one cuts the window back to the size |
| ZeroCopy.ExtendFromBufferGrows | src/mp3/_buffer.py:133-138 | a full buffer extended from a non-empty buffer copies nothing, yet its array grows by the other's whole window, where the corrected version leaves the array alone |
| ZeroCopy.ExtendFromBufferIntended | src/mp3/_buffer.py:122-141 | extending from another buffer appends the first bytes of its window that fit and keeps the array's length and size |
| ZeroCopy.Delete | src/mp3/_buffer.py:143-144 | `delete(n)` drops `min(n, len)` bytes from the front of the window; a negative `n` re-exposes the `-n` bytes before the window; nothing else changes |
| ZeroCopy.DeleteUndo | src/mp3/_buffer.py:143-144 | deleting `n` bytes of the window and then `-n` restores the buffer |
| ZeroCopy.Replace | src/mp3/_buffer.py:146-157 | TypeError for a negative offset, the buffer's error for a source that does not fit, ValueError for an empty source before the window's end; otherwise the window's bytes from `offset` are the source and everything else is unchanged |
| ZeroCopy.ReplaceView | src/mp3/_buffer.py:146-157 | viewing the replaced range gives the source back |
| ZeroCopy.Unpack | src/mp3/_buffer.py:159-173 | `struct.error` for a negative offset; otherwise unpacking from the window at the offset |
| ZeroCopy.Pack | src/mp3/_buffer.py:159-169 | `struct.error` for a negative offset; otherwise it succeeds exactly when packing into the window does, the window becomes that result, and the bytes outside it stay |
| ZeroCopy.PackIntoWindow | src/mp3/_buffer.py:167-169 | packing at `pos + offset` of the array is packing at `offset` of the window, with the rest of the array unchanged |
| ZeroCopy.PackUnpackRoundTrip | src/mp3/_buffer.py:167-173 | unpacking what `pack` wrote at the same offset gives back the values |
| ZeroCopy.UnpackBits | src/mp3/_buffer.py:175-186 | the codec's error for a negative offset; otherwise `bitunpack_from` on the window |
| ZeroCopy.PackBits | src/mp3/_buffer.py:175-192 | the codec's error for a negative offset; otherwise the same outcome as `bitpack_into` on the window, with the bytes outside the window unchanged |
| ZeroCopy.BitpackIntoWindow | src/mp3/_buffer.py:188-192 | `bitpack_into` at `pos + offset` of the array is `bitpack_into` at `offset` of the window, with the rest of the array unchanged |
| ZeroCopy.BitpackRoundTrip | src/mp3/_buffer.py:182-192 | `bitpack` succeeds whenever the region fits the window and no value is missing, and unpacking what it wrote gives every value normalised, or fails exactly when an expected value is not met |
| ZeroCopy.StartsWith | src/mp3/_buffer.py:210-218 | within the window, true exactly when the prefix fits at the offset and matches; past the window only the empty prefix matches; a negative offset reaching back no further than the array's start tests the bytes before the window, and one reaching further counts from the end of the array as `bytearray.startswith` does, both ending at the window's end |
| Mp3Header.HeaderFormatCompiles | src/mp3/__init__.py:395-412 | the textual header format compiles to the thirteen header fields, which fill 32 bits and 4 bytes |
| Mp3Header.HeaderChunksParse | src/mp3/__init__.py:396-408 | `i:11`, `i:2`, `i:4` and `b` parse to their fields |
| Mp3Header.HeaderChunkFields | src/mp3/__init__.py:396-408 | each of the thirteen chunks parses to its field |
| Mp3Header.HeaderLength | src/mp3/__init__.py:412 | the header format is four bytes long |
| Mp3Header.ShapeStarts | src/mp3/__init__.py:395-409 | the bit positions of the header fields: 0, 11, 13, 15, 16, 20, 22, 23, 24, 26, 28, 29, 30, in 32 bits |
| Mp3Header.SyncBits | src/mp3/__init__.py:396 | the sync field is the first byte and the top three bits of the second |
| Mp3Header.VersionBits | src/mp3/__init__.py:582 | the version field is `(b1 & 24) >> 3`, as `frameheader` extracts it |
| Mp3Header.LayerBits | src/mp3/__init__.py:591 | the layer field is `(b1 & 6) >> 1` |
| Mp3Header.CrcBits | src/mp3/__init__.py:598 | the protection bit is `b1 & 1` |
| Mp3Header.BitrateBits | src/mp3/__init__.py:601 | the bitrate field is `b2 >> 4` |
| Mp3Header.SamplingBits | src/mp3/__init__.py:608 | the sampling field is `(b2 & 12) >> 2` |
| Mp3Header.PaddingBits | src/mp3/__init__.py:617 | the padding bit is `(b2 & 2) >> 1` |
| Mp3Header.PrivateBits | src/mp3/__init__.py:620 | the private bit is `b2 & 1` |
| Mp3Header.ChannelBits | src/mp3/__init__.py:623 | the channel mode is `b3 >> 6` |
| Mp3Header.ModeExtBits | src/mp3/__init__.py:626 | the mode extension is `(b3 & 48) >> 4` |
| Mp3Header.CopyrightBits | src/mp3/__init__.py:629 | the copyright bit is `(b3 & 8) >> 3` |
| Mp3Header.OriginalBits | src/mp3/__init__.py:632 | the original bit is `(b3 & 4) >> 2` |
| Mp3Header.EmphasisBits | src/mp3/__init__.py:635 | the emphasis is `b3 & 3` |
| Mp3Header.FieldValues | src/mp3/__init__.py:418-419 | one value per field, each the field's decoded bits |
| Mp3Header.ShapeFieldValues | src/mp3/__init__.py:575-637 | every field the codec reads from four header bytes is the field `frameheader` masks out of them |
| Mp3Header.ShapeUnpackOk | src/mp3/__init__.py:418-419 | no header field has an expected value, so unpacking four bytes succeeds |
| Mp3Header.ShapeUnpack | src/mp3/__init__.py:418-419 | unpacking four bytes yields the shift-and-mask values |
| Mp3Header.UnpackMatchesMasks | src/mp3/__init__.py:418-419 | the same for `_FORMAT` itself |
| Mp3Header.ValuesOf | src/mp3/__init__.py:444 | listing the fields in `_FIELDS` order and zipping them back with the names gives the same header |
| Mp3Header.ValuesOfRawOf | src/mp3/__init__.py:418-419 | zipping 13 values with the names and listing them again gives the values |
| Mp3Header.VersionCode | src/mp3/__init__.py:487-496 | the version codes are 3, 2 and 0; code 1 is never a version |
| Mp3Header.VersionRow | src/mp3/__init__.py:522 | `int(version) - 1` is row 0 exactly for version 1 |
| Mp3Header.Version | src/mp3/__init__.py:487-496 | `version` fails exactly on code 1, with a bad-version fault; otherwise it is the version with that code (3 for 1, 2 for 2, 0 for 2.5) |
| Mp3Header.Layer | src/mp3/__init__.py:498-505 | `layer` fails exactly on code 0; otherwise it is `4 - code`, from 1 to 3 |
| Mp3Header.ProtectedBit | src/mp3/__init__.py:507-509 | the `crc` getter, on a decoded header, reports a CRC exactly when the protection bit, the last bit of the second byte, is clear |
| Mp3Header.SetProtected | src/mp3/__init__.py:507-513 | after the `crc` setter, the `crc` getter returns the value set and no other field changes |
| Mp3Header.LowRates | src/mp3/__init__.py:380-383 | the shared Layer II/III row of the lower versions has 14 entries |
| Mp3Header.BitrateRowIncreasing | src/mp3/__init__.py:372-383 | every bitrate row increases strictly and lies between 8 and 448 kbit/s |
| Mp3Header.BitrateBounds | src/mp3/__init__.py:372-383 | every entry is between 8 and 448 kbit/s, and at least 32 for version 1 |
| Mp3Header.BitrateKbps | src/mp3/__init__.py:515-522 | `bitrate` fails exactly on codes 0 and 15 (checked first) or a bad version or layer; otherwise it is the table entry for the version row, layer and code |
| Mp3Header.SamplingRateHz | src/mp3/__init__.py:524-535 | `samplingrate` fails exactly on a bad version (checked first) or code 3; otherwise codes 0, 1, 2 give 44100, 48000, 32000 Hz at version 1, 22050, 24000, 16000 Hz at version 2 and 11025, 12000, 8000 Hz at version 2.5, always between 8000 and 48000 Hz |
| Mp3Header.SamplingRateHalves | src/mp3/__init__.py:385-388 | for the same code, version 1 doubles version 2, which doubles version 2.5 |
| Mp3Header.Validate | src/mp3/__init__.py:421-423 | the accessors in field order: the first fault raised, exactly as each field's condition says, and none exactly for a well-formed header |
| Mp3Header.SideInfoSize | src/mp3/__init__.py:460-461 | 32 bytes exactly for version 1 stereo, 9 exactly for mono at the lower versions, 17 otherwise |
| Mp3Header.Length | src/mp3/__init__.py:463-464 | four header bytes, two CRC bytes when included and protected, then the side information |
| Mp3Header.FrameFactors | src/mp3/__init__.py:192-201 | slots are four bytes for Layer I and one byte otherwise; the multiplier is at least 12 |
| Mp3Header.FrameSlotsPositive | src/mp3/__init__.py:203 | a frame carries at least one slot of data |
| Mp3Header.FrameLength | src/mp3/__init__.py:203 | `MPEGFrame.length` is at least 1 and a whole number of slots |
| Mp3Header.FrameLengthStandard | src/mp3/__init__.py:192-203 | the length equals the length of section 2.4.3.1 of ISO/IEC 11172-3 exactly for MPEG-1 frames and Layer III frames, except padded Layer I frames |
| Mp3Header.PaddingAdds | src/mp3/__init__.py:203 | padding adds 16 bytes to a Layer I frame and 1 byte otherwise |
| Mp3Header.FrameLengthExample | src/mp3/__init__.py:670-686 | a 128 kbit/s MPEG-1 Layer III frame at 44.1 kHz is 417 bytes, 418 when padded |
| Mp3Header.Update | src/mp3/__init__.py:427-439 | `update` reads the big-endian CRC after a protected header and the side information after that when each is missing and present in the buffer, and keeps whatever it already had |
| Mp3Header.UpdateIdempotent | src/mp3/__init__.py:427-439 | updating twice from the same buffer is updating once |
| Mp3Header.UpdateGrowing | src/mp3/__init__.py:427-439 | updating from a buffer and then from a longer one with the same prefix is one update from the longer, unless a zero CRC was read |
| Mp3Header.UpdateFresh | src/mp3/__init__.py:427-439 | a fresh header over a buffer holding its whole length takes the CRC and the side information from the bytes after it |
| Mp3Header.Decode | src/mp3/__init__.py:417-425 | the codec's error exactly when fewer than four bytes remain; otherwise the header error of the first failing accessor, or the fresh header updated from the buffer |
| Mp3Header.UnpackHeader | src/mp3/__init__.py:418-419 | unpacking the header fails exactly when four bytes are not there, and otherwise gives the masked fields |
| Mp3Header.PackedHeader | src/mp3/__init__.py:443-444 | four bytes whose masked fields are the header's fields |
| Mp3Header.ShapePacked | src/mp3/__init__.py:443-444 | packing in-range header values into four zero bytes succeeds and reads back, with masks, as the same values |
| Mp3Header.NormalizedInRange | src/mp3/_bitpack.py:88-89 | a value that fits its field packs and unpacks to itself |
| Mp3Header.Bytes | src/mp3/__init__.py:442-454 | `bytes()` as written is TypeError exactly without side information or for a protected header asked for its CRC, because `buffer[pos:pos] = 2` assigns an integer to a bytearray slice; otherwise the packed header followed by the side information |
| Mp3Header.BytesIntended | src/mp3/__init__.py:442-454 | `bytes()` as intended is TypeError exactly without side information; otherwise the packed header, then for a protected header asked for its CRC the big-endian CRC of the packed header after its first two bytes followed by the side information, then the side information |
| Mp3Header.InsertCrc | src/mp3/__init__.py:451-452 | the insertion the comment at line 451 describes: two bytes after the header hold the CRC big-endian and the other bytes are kept |
| Mp3Header.BytesProtectedRaises | src/mp3/__init__.py:449-452 | a protected header with side information raises TypeError as written, while the intended version gives its 6 + side-information bytes |
| Mp3Header.BytesAgreesElsewhere | src/mp3/__init__.py:442-454 | the two versions of `bytes()` agree exactly when no CRC is inserted or there is no side information |
| Mp3Header.CrcPacks | src/mp3/__init__.py:452 | `pack_into('>H', ...)` of a 16-bit CRC succeeds and reads back as the CRC |
| Mp3Header.CalculateCrc | src/mp3/__init__.py:472-476 | `calculate_crc` fails exactly without side information, and is the CRC of the packed header after its first two bytes followed by the side information |
| Mp3Header.Valid | src/mp3/__init__.py:466-470 | an unprotected header is valid; a protected one exactly when the stored CRC is the calculated one |
| Mp3Header.BytesDecodeRoundTrip | src/mp3/__init__.py:417-476 | decoding the intended bytes of a header with its side information gives back its fields, its side information and the CRC written, so the decoded header is valid; for an unprotected header these are the bytes as written |
| Mp3Header.DecodeOwnBytes | src/mp3/__init__.py:417-454 | the intended bytes of a header decode to a fresh header with its fields |
| Mp3Header.UpdateOwnBytes | src/mp3/__init__.py:427-454 | updating from a header's intended bytes recovers its side information and, when protected, the CRC written |
| Mp3Header.OwnSideInfo | src/mp3/__init__.py:438-447 | the side information read back from a header's intended bytes is its own |
| Mp3Header.SideAtEnd | src/mp3/__init__.py:438-439 | a buffer that ends with the side information gives that side information to a fresh header |
| Mp3Header.StoredCrc | src/mp3/__init__.py:434 | the big-endian value unpacked at offset 4 is the one `update` reads there |
| Frames.Id3Probe | src/mp3/__init__.py:117-130 | `TAG` is a 128-byte ID3v1 tag; otherwise `ID3` raises MP3Error when the buffer holds fewer than 10 bytes, IndexError when the header runs past the buffer, and else is a tag whose length is the unmasked size from bytes 6 to 9 plus 10; anything else is declined |
| Frames.Id3SizeSynchsafe | src/mp3/__init__.py:127-128 | the size read from a synchsafe encoding is the encoded size |
| Frames.SynchsafeId3Size | src/mp3/__init__.py:127-128 | four bytes below 0x80 are the synchsafe encoding of the size read from them |
| Frames.Id3V2Length | src/mp3/__init__.py:121-128 | an ID3v2 header holding the synchsafe size `n` is a tag of `n + 10` bytes |
| Frames.ApeProbe | src/mp3/__init__.py:138-146 | declined without `APETAGEX`; `struct.error` exactly when the version and length are missing; otherwise it raises only AttributeError; a found tag is at least 32 bytes long |
| Frames.ApeProbeIntended | src/mp3/__init__.py:138-146 | the same, and it raises nothing but `struct.error` |
| Frames.ApeRoundTrip | src/mp3/__init__.py:142-146 | a tag whose version and size `pack_into('<II')` wrote is read back with its version and `size + 32` |
| Frames.ApeV1Raises | src/mp3/__init__.py:144 | a version-1000 tag makes the class as written raise AttributeError, where the corrected one finds an APEv1 tag |
| Frames.ApeAgreesElsewhere | src/mp3/__init__.py:143-144 | the two classes differ exactly on tags that declare version 1000 |
| Frames.RiffProbe | src/mp3/__init__.py:149-172 | RIFF/WAVE is a 12-byte header and sets the flag; chunks are recognised only after that; once it is set a `data` chunk is 8 bytes; only the MPEG Layer III format is accepted |
| Frames.RiffChunksNeedHeader | src/mp3/__init__.py:150-172 | before a RIFF/WAVE header, nothing but such a header is recognised |
| Frames.RiffFormatRoundTrip | src/mp3/__init__.py:158-163 | a `fmt ` chunk written with `pack_into('<IH')` is `size + 8` bytes with format 0x55 and an MP3Error carrying the format otherwise |
| Frames.RiffFactRoundTrip | src/mp3/__init__.py:164-167 | a `fact` chunk written with `pack_into('<I')` is `size + 8` bytes |
| Frames.MpegProbe | src/mp3/__init__.py:175-203 | the codec's error exactly when four bytes are not there; found exactly when the header validates, with the masked fields and the frame length |
| Frames.MpegOwnHeader | src/mp3/__init__.py:175-203 | the bytes `Header2.bytes()` is meant to produce are an MPEG frame with the same fields and their frame length; for an unprotected header they are the bytes it produces as written |
| Frames.FlagsRoundTrip | src/mp3/__init__.py:237-238 | the flags read from the byte an encoder writes for them are those flags |
| Frames.FlagsLowNibble | src/mp3/__init__.py:238 | only the low four bits of the flag byte matter |
| Frames.XingLength | src/mp3/__init__.py:240-244 | the Xing length is the header length plus 8, plus up to 120 bytes; exactly plus 8 when no flag is set |
| Frames.XingProbe | src/mp3/__init__.py:214-223 | as written: raises only on a buffer too short for a header, and only ever changes the flag to "no Xing header" |
| Frames.XingNeverFound | src/mp3/__init__.py:218-223 | as written it never yields a frame, and after a valid MPEG header it is not tried again |
| Frames.XingProbeIntended | src/mp3/__init__.py:214-253 | with the MPEG length in place of the constructor's return value, a found Xing frame is the MPEG frame's tail analysis |
| Frames.XingTail | src/mp3/__init__.py:225-253 | the flag becomes true exactly when `Xing` or `Info` follows the side information; a found frame reads its flags 7 bytes past that point and its Xing data fits within the frame; it raises only IndexError or the length assertion |
| Frames.XingMissed | src/mp3/__init__.py:218-253 | where the corrected class finds a Xing frame, the class as written declines and marks the stream as having none |
| Frames.MpegStartsWithSync | src/mp3/__init__.py:482-483 | every MPEG frame starts with 0xFF, so bytes that start otherwise are never one |
| Frames.TryAll | src/mp3/__init__.py:294 | the classes in order: a found frame has a positive length and is never a Xing frame, a valid MPEG header is always the MPEG frame, the session changes only by the RIFF flag or "no Xing", and with the four header bytes present the only errors are `struct.error`, MP3Error, IndexError and the APE class's AttributeError |
| Frames.TryFromMpeg | src/mp3/__init__.py:294 | the classes after Xing: MPEG first, then the tag classes, with the same errors |
| Frames.TryTags | src/mp3/__init__.py:294 | RIFF, ID3, APE as written: only RIFF changes the session; the errors are `struct.error`, MP3Error, IndexError and AttributeError |
| Frames.TryAllApeV1Raises | src/mp3/__init__.py:138-146 | a version-1000 APE tag makes the whole cascade raise AttributeError |
| Frames.TryAllRiff | src/mp3/__init__.py:149-152 | a RIFF/WAVE header is recognised as such and sets the flag |
| Frames.CascadeReachesApe | src/mp3/__init__.py:294 | four or more bytes starting with `A` are declined by every class before APE, so the APE class decides |
| Frames.MpegNotRiff | src/mp3/__init__.py:149-152 | a valid MPEG header is never a RIFF header |
| Frames.FirstByteDiffers | src/mp3/__init__.py:118 | a tag whose first byte differs from the buffer's byte at the offset does not match there |
| Frames.ByteDiffers | src/mp3/__init__.py:118 | a tag that differs from the buffer in any one of its bytes does not match at the offset |
| Frames.Assemble | src/mp3/__init__.py:105-107 | `append` keeps the first `length` bytes of the view; an MPEG frame keeps its fields and re-reads CRC and side information from them |
| Frames.AssemblePrefix | src/mp3/__init__.py:106 | only the first `length` bytes of the view matter |
| Reader.Read | src/mp3/__init__.py:314 | `read(8192)` takes the next block and loses nothing; input is left only after a full block |
| Reader.FillBuffer | src/mp3/__init__.py:362-369 | `_fill_buffer` succeeds exactly when the buffer and the input together hold `want` bytes, reading whole blocks onto the end; otherwise it raises "Unexpected end of input file" |
| Reader.Refill | src/mp3/__init__.py:360 | reading the next block moves bytes from the input to the buffer and leaves input only behind a full block |
| Reader.Consume | src/mp3/__init__.py:342-349 | an accepted frame takes exactly its length from the front of the stream and is yielded unless it is an unwanted meta frame; too short a stream raises |
| Reader.Skip | src/mp3/__init__.py:350-358 | out of sync: either the first 500 bytes are yielded and MP3Error follows, or exactly one byte is dropped |
| Reader.FrameTypesSound | src/mp3/__init__.py:294 | every frame the five classes recognise takes at least one byte |
| Reader.Resync | src/mp3/__init__.py:326-340 | out of sync, sync is regained only when another frame is found right after the candidate |
| Reader.Step | src/mp3/__init__.py:316-358 | one pass takes at least one byte from the front of the stream or raises having taken nothing, and does only what the configuration allows |
| Reader.ResyncNeedsConfirmation | src/mp3/__init__.py:326-340 | a pass that regains sync has found a frame and then a second one right after it |
| Reader.Run | src/mp3/__init__.py:316-360 | every event is one the configuration allows and garbage is only the last, right before MP3Error; a normal end has read the whole input, leaves at most 4 bytes, and the stream is exactly what the passes took followed by them; a raised end has taken a prefix of the stream |
| Reader.ReadFrames | src/mp3/__init__.py:310-360 | `frames()` on a whole file yields only what the configuration allows, garbage only last and right before MP3Error, and a normal end leaves at most 4 bytes and no unread input |
| Reader.ReadFramesTakesFile | src/mp3/__init__.py:310-360 | a read that ends normally takes the whole file in order, save at most 4 trailing bytes; one that raises has taken a prefix |
| Reader.ReadFramesItems | src/mp3/__init__.py:342-356 | every yielded frame carries exactly its length in bytes; meta frames are yielded only when wanted; skipping invalid data yields no garbage, and not skipping it drops no byte |
| Reader.InSyncTakesFrame | src/mp3/__init__.py:342-346 | in sync, a frame at the start of the buffer is taken whole and yielded, and sync is kept |
| Reader.NoFrameDropsByte | src/mp3/__init__.py:350-358 | where nothing is recognised, sync is lost and exactly the first byte is dropped |

## Left out

- Negative offsets to `bitpack_into` and `bitunpack_from`, which Python would count from the buffer's end. Offsets are natural numbers; `ZeroCopyBuffer` refuses negative ones before calling them.
- Bitpack.BitpackInto: when values run out, the source has already written the earlier fields before IndexError; the model returns the error without that partial buffer.
- `formatstr` given something that is neither a string nor iterable (`_bitpack.py` lines 41-42): the model's formats are always strings or lists of chunks.
- FormatParse.ParseInt: does not accept whitespace before the sign, between the sign and the digits, or after the digits, all of which Python 2's `int()` allows.
- FormatParse.ParseExpected: the same whitespace is refused on both paths, after `int(d)` and after `int(d, 16)`; Python would accept it.
- The `_buffer` and `fileobj` constructor arguments of `ZeroCopyBuffer`. The array is always `bytearray(size)`, and `fill` takes its source explicitly, so its TypeError for a missing file object is not modelled.
- `ZeroCopyBuffer.__eq__` and `bytes()`, which compare or copy `view()`.
- ZeroCopy.Delete: a length below `-pos` would make the window start negative; the model requires `pos + n >= 0` and leaves that state out.
- The `fileobj` side effects of the frame classes are the explicit `Session`. `MPEGFrame`'s `strict` check compares against `_mpeg_version` and `_mpeg_layer`, which are never set, so it never refuses a frame and is dropped.
- `XingFrame._frame_assembled` and `seekpoint`: the first refers to names that do not exist; the second is floating point.
- `MPEGFrame.commit_header`, `Frame.bytes`, `__repr__` and `Header2.totuple`.
- The module's older functions (`framecrc`, `frameheader`, `time`, `is_mono`, `side_info_size`, `framedata`, `framelen`, `frames`, `good_data`). `frameheader`'s masks and `framelen`'s formula appear only as references for the header fields and the frame length.
- `crc16` is a parameter. The `_crc16` module is not part of this model.
- The `print` statements and `@profile` of `Reader.frames`.
- Mp3Header.SlotCount: its branch for a sampling rate of 0 cannot be reached, since every rate is at least 8000 Hz.
- Reader.Read: `read(8192)` is modelled as returning a full block unless the input is exhausted. A file object that returns short reads could leave at most 4 bytes buffered while input remains, and `frames()` would then end early; ReadFramesTakesFile holds only for full reads.
- Reader.Run: the generator is modelled as the finite trace of one whole run. Its laziness is not modelled: a consumer that stops early sees only a prefix of that trace.

## Findings

| source | as written | input that shows it | evidently intended | confidence | as-written member | corrected member |
|---|---|---|---|---|---|---|
| src/mp3/_buffer.py:51-52 | `key < 0 and max(pos, len + key) or min(len, pos + key)` falls to the `or` branch when the clamped position is 0, indexing the array with the negative key | array `[7, 0]`, window `[0, 1)`, key -1: reads 0, the array's last byte | clamp the key into the window: read 7 | not executed | ZeroCopy.GetItem, ZeroCopy.GetItemNegativeDiscrepancy, ZeroCopy.GetItemNegativeMisses | ZeroCopy.GetItemIntended |
| src/mp3/_buffer.py:133-138 | `buf.view(0, length)` with `length == 0` is the other buffer's whole window, and the slice assignment inserts it | a full buffer extended from a non-empty buffer | copy nothing when there is no space | not executed | ZeroCopy.ExtendFromBuffer, ZeroCopy.ExtendFromBufferGrows | ZeroCopy.ExtendFromBufferIntended |
| src/mp3/__init__.py:144 | `self.CV1` is not an attribute of `APEFrame` | `APETAGEX` followed by `'<II'` (1000, n) | `self.V1` | not executed | Frames.ApeProbe, Frames.ApeV1Raises | Frames.ApeProbeIntended, Frames.ApeRoundTrip |
| src/mp3/__init__.py:451 | `buffer[pos:pos] = 2` assigns an integer to a bytearray slice, which Python 2.7 refuses with TypeError | any header with its protection bit clear (so `crc` is true), with side information, and `include_crc=True`, the default | insert two bytes at `pos` to hold the CRC, as the comment says | not executed | Mp3Header.Bytes, Mp3Header.BytesProtectedRaises | Mp3Header.BytesIntended, Mp3Header.InsertCrc, Mp3Header.BytesDecodeRoundTrip |
| src/mp3/__init__.py:218-223 | `mpeg_length` is the return value of `MPEGFrame.__init__`, always `None`, so every Xing frame is declined | any valid MPEG header followed by `Xing` after its side information | the MPEG frame's `length` | not executed | Frames.XingProbe, Frames.XingNeverFound, Frames.XingMissed | Frames.XingProbeIntended, Frames.XingTail |

The reader never calls `bytes()`, so the CRC insertion does not affect it. The reader uses the APE and Xing classes as written: a version-1000 APE tag ends the
reader with AttributeError, and no Xing frame is ever found. The corrected Xing path ends in `XingFrame._frame_assembled`, which refers
to names that do not exist, so assembling a Xing frame would fail either way.
