/** Shared vocabulary of the model: bytes, optional values, the exceptions the
    Python package raises, and results that carry one of them. */
module Base {

  /** One element of a Python `bytearray`. */
  type byte = b: int | 0 <= b < 256

  /** An unsigned 16-bit value, as produced by `crc16` and stored big-endian
      after a protected header. */
  type u16 = x: int | 0 <= x < 0x1_0000

  datatype Option<+T> = None | Some(value: T)

  /** Why a 4-byte MPEG audio header is refused (MP3FrameHeaderError). */
  datatype HeaderFault = BadSync | BadVersion | BadLayer | BadBitrate | BadSamplingRate

  /** Why the package raises its generic MP3Error. */
  datatype Mp3Fault =
    | Id3TooShort                  // 'need at least 10 bytes of data'
    | RiffCodec(formatTag: int)    // RIFF 'fmt ' chunk that is not MPEG Layer III
    | InvalidData                  // Reader configured not to skip invalid data

  /** Every exception the modelled code can raise. */
  datatype Exc =
    | BitpackError                          // _bitpack.error
    | InvalidInputError(field: nat)         // _bitpack.invalid_input_error, with the field index
    | ValueError                            // int() of a malformed literal, tuple unpacking, memoryview size
    | TypeError
    | IndexError
    | StructError                           // struct.error
    | BufferError                           // _buffer.Error
    | EOFError
    | HeaderError(fault: HeaderFault)       // MP3FrameHeaderError
    | Mp3Error(reason: Mp3Fault)            // MP3Error
    | AttributeError                        // reference to a missing attribute
    | AssertionError
    | UnexpectedEndOfInput                  // Exception('Unexpected end of input file')

  datatype Result<+T> = Ok(value: T) | Err(error: Exc)

  function Pow2(n: nat): (r: nat)
    ensures r >= 1
  {
    if n == 0 then 1 else 2 * Pow2(n - 1)
  }

  /** The middle part of a three-part concatenation. */
  lemma MiddleSlice<T>(a: seq<T>, m: seq<T>, c: seq<T>)
    ensures (a + m + c)[|a| .. |a| + |m|] == m
  {
  }

  /** A slice of a slice is a slice of the whole. */
  lemma SliceOfSlice<T>(s: seq<T>, lo: nat, hi: nat, i: nat, j: nat)
    requires i <= j && lo + j <= hi <= |s|
    ensures s[lo..hi][i..j] == s[lo + i..lo + j]
  {
    var a, b := s[lo..hi][i..j], s[lo + i..lo + j];
    assert |a| == |b|;
    forall t | 0 <= t < |a|
      ensures a[t] == b[t]
    {
    }
  }

  /** A suffix of a slice is a slice of the whole. */
  lemma SuffixOfSlice<T>(s: seq<T>, lo: nat, hi: nat, i: nat)
    requires lo + i <= hi <= |s|
    ensures s[lo..hi][i..] == s[lo + i..hi]
  {
    var a, b := s[lo..hi][i..], s[lo + i..hi];
    assert |a| == |b|;
    forall t | 0 <= t < |a|
      ensures a[t] == b[t]
    {
    }
  }

  function Min(a: int, b: int): int { if a <= b then a else b }

  function Max(a: int, b: int): int { if a >= b then a else b }
}
