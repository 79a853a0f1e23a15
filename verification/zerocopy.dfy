/** `ZeroCopyBuffer`: a fixed-size byte array with a window `[pos, len)` of
    live data.  Reads and writes address the window, data is appended after
    it, consumed data is dropped from its front, and the window is moved back
    to the start of the array before new data is appended. */
module ZeroCopy {
  import opened Base
  import PySeq
  import StructCodec
  import Bitpack
  import Bits

  /** The array, the start of the live data, the end of the live data and
      the size the buffer was created with.  The array starts out `size`
      bytes long and can only grow: extending from another buffer can insert
      bytes instead of overwriting them.  The window can therefore end past
      `size`. */
  datatype Buffer = Buffer(data: seq<byte>, pos: nat, len: nat, size: nat)

  type ZeroCopyBuffer = b: Buffer | b.pos <= b.len <= |b.data| && b.size <= |b.data| witness Buffer([], 0, 0, 0)

  /** The live data. */
  function Contents(b: ZeroCopyBuffer): seq<byte>
  {
    b.data[b.pos..b.len]
  }

  /** `ZeroCopyBuffer(size)`: a zeroed array and an empty window. */
  function New(size: nat): (r: ZeroCopyBuffer)
    ensures |r.data| == size && r.size == size && Contents(r) == []
  {
    Buffer(seq(size, _ => 0), 0, 0, size)
  }

  /** `len(buffer)`. */
  function Len(b: ZeroCopyBuffer): (r: nat)
    ensures r == |Contents(b)|
    ensures r <= |b.data|
  {
    b.len - b.pos
  }

  /** `buffer[key]`: the index is clamped into the window with the
      `key < 0 and max(...) or min(...)` idiom, then used on the array. When
      the clamped negative position is 0 the `or` branch is taken instead
      and the key itself indexes the whole array. */
  function GetItem(b: ZeroCopyBuffer, key: int): (r: Result<byte>)
    ensures 0 <= key < Len(b) ==> r == Ok(Contents(b)[key])
    ensures key < 0 && Len(b) + key >= 0 && b.len + key > 0 ==> r == Ok(Contents(b)[Len(b) + key])
    ensures Len(b) + key < 0 && b.pos > 0 && Len(b) > 0 ==> r == Ok(Contents(b)[0])
    ensures key < 0 && Len(b) + key < 0 && b.pos > 0 ==> r == PySeq.Index(b.data, b.pos)
    ensures key < 0 && b.pos == 0 && b.len + key <= 0 ==> r == PySeq.Index(b.data, key)
    ensures key >= Len(b) ==> (r.Err? <==> b.len == |b.data|) && (r.Ok? ==> r.value == b.data[b.len])
  {
    var p := if key < 0 && Max(b.pos, b.len + key) != 0 then Max(b.pos, b.len + key)
             else Min(b.len, b.pos + key);
    PySeq.Index(b.data, p)
  }

  /** `buffer[key]` as the clamping evidently intends: negative keys count
      from the end of the window and every key is clamped into it. */
  function GetItemIntended(b: ZeroCopyBuffer, key: int): (r: Result<byte>)
    ensures 0 <= key < Len(b) ==> r == Ok(Contents(b)[key])
    ensures key < 0 && Len(b) + key >= 0 ==> r == Ok(Contents(b)[Len(b) + key])
    ensures Len(b) + key < 0 && Len(b) > 0 ==> r == Ok(Contents(b)[0])
    ensures key >= Len(b) ==> (r.Err? <==> b.len == |b.data|) && (r.Ok? ==> r.value == b.data[b.len])
  {
    var p := if key < 0 then Max(b.pos, b.len + key) else Min(b.len, b.pos + key);
    PySeq.Index(b.data, p)
  }

  /** With the window at the start of the array, the key `-len(buffer)`
      reads the array from its end rather than the window's first byte. */
  lemma GetItemNegativeDiscrepancy()
    ensures var b: ZeroCopyBuffer := Buffer([7, 0], 0, 1, 2);
            GetItem(b, -1) == Ok(0) && GetItemIntended(b, -1) == Ok(7) && Contents(b) == [7]
  {
  }

  /** Whenever the window starts the array and does not fill it, the key
      `-len(buffer)` misses the window. */
  lemma GetItemNegativeMisses(b: ZeroCopyBuffer)
    requires b.pos == 0 && 0 < b.len < |b.data|
    ensures GetItem(b, -(b.len as int)) == Ok(b.data[|b.data| - b.len])
    ensures GetItemIntended(b, -(b.len as int)) == Ok(Contents(b)[0])
  {
  }

  /** `buffer.view(offset, length)`: from `pos + max(0, offset)` to
      `pos + offset + length`, or to the end of the window when the length
      is None or 0.  The end is not checked against the window. */
  function View(b: ZeroCopyBuffer, offset: int, length: Option<int>): (r: seq<byte>)
    ensures 0 <= offset <= Len(b) && (length.None? || length == Some(0)) ==> r == Contents(b)[offset..]
    ensures 0 <= offset && length.Some? && length.value > 0 && offset + length.value <= Len(b) ==>
              r == Contents(b)[offset..offset + length.value]
    ensures 0 <= offset && length.Some? && length.value > 0 && b.pos + offset + length.value <= |b.data| ==>
              r == b.data[b.pos + offset .. b.pos + offset + length.value]
  {
    var start := b.pos + Max(0, offset);
    var end := if length.Some? && length.value != 0 && start + length.value != 0 then start + length.value
               else b.len;
    WindowSlices(b, offset, length);
    PySeq.Slice(b.data, start, end)
  }

  /** The window's slices as slices of the array. */
  lemma WindowSlices(b: ZeroCopyBuffer, offset: int, length: Option<int>)
    ensures 0 <= offset <= Len(b) ==> Contents(b)[offset..] == b.data[b.pos + offset..b.len]
    ensures 0 <= offset && length.Some? && length.value > 0 && offset + length.value <= Len(b) ==>
              Contents(b)[offset..offset + length.value] == b.data[b.pos + offset..b.pos + offset + length.value]
  {
    if 0 <= offset <= Len(b) {
      SuffixOfSlice(b.data, b.pos, b.len, offset);
    }
    if 0 <= offset && length.Some? && length.value > 0 && offset + length.value <= Len(b) {
      SliceOfSlice(b.data, b.pos, b.len, offset, offset + length.value);
    }
  }

  /** `_shift_buffer`: move the window to the start of the array. */
  function Shift(b: ZeroCopyBuffer): (r: ZeroCopyBuffer)
    ensures Contents(r) == Contents(b) && r.pos == 0 && |r.data| == |b.data| && r.size == b.size
    ensures b.pos == 0 && Len(b) > 0 ==> r == b
  {
    if Len(b) == 0 then b.(pos := 0, len := 0)
    else if b.pos == 0 then b
    else
      var live := Contents(b);
      var r := b.(data := live + b.data[|live|..], pos := 0, len := |live|);
      assert Contents(r) == live;
      r
  }

  /** Writing `piece` just after the window and growing the window over it. */
  function AppendAfter(b: ZeroCopyBuffer, piece: seq<byte>): (r: ZeroCopyBuffer)
    requires b.len + |piece| <= |b.data|
    ensures Contents(r) == Contents(b) + piece
    ensures r.pos == b.pos && |r.data| == |b.data| && r.size == b.size
    ensures r.data[..b.pos] == b.data[..b.pos]
  {
    var d := b.data[..b.len] + piece + b.data[b.len + |piece|..];
    var r := b.(data := d, len := b.len + |piece|);
    assert d[b.pos..b.len + |piece|] == b.data[b.pos..b.len] + piece;
    assert d[..b.pos] == b.data[..b.pos];
    r
  }

  /** The buffer after `fill`, the input it did not consume, and the
      EOFError it raised, if any (the state change persists when it
      raises). */
  datatype FillOutcome = FillOutcome(buf: ZeroCopyBuffer, rest: seq<byte>, error: Option<Exc>)

  /** `buffer.fill(fileobj, completely, at_least)`, reading from `src`, whose
      `readinto` delivers as many bytes as fit in the array after the window.
      `completely` asks for the window to end exactly at the buffer's size. */
  function Fill(b: ZeroCopyBuffer, src: seq<byte>, completely: bool, atLeast: Option<int>): (r: FillOutcome)
    ensures Contents(r.buf) + r.rest == Contents(b) + src
    ensures |r.buf.data| == |b.data| && r.buf.size == b.size
    ensures atLeast.Some? && Len(b) >= atLeast.value ==> r == FillOutcome(b, src, None)
    ensures !(atLeast.Some? && Len(b) >= atLeast.value) ==>
              && Len(r.buf) == Min(Len(b) + |src|, |b.data|)
              && (r.error.Some? <==>
                    || (completely && Min(Len(b) + |src|, |b.data|) != b.size)
                    || (atLeast.Some? && Min(Len(b) + |src|, |b.data|) < atLeast.value))
    ensures r.error.Some? ==> r.error == Some(EOFError)
  {
    if atLeast.Some? && Len(b) >= atLeast.value then FillOutcome(b, src, None)
    else
      var s := Shift(b);
      var n := Min(|src|, |s.data| - s.len);
      var f := AppendAfter(s, src[..n]);
      assert src == src[..n] + src[n..];
      var error :=
        if completely && f.len != f.size then Some(EOFError)
        else if atLeast.Some? && Len(f) < atLeast.value then Some(EOFError)
        else None;
      FillOutcome(f, src[n..], error)
  }

  /** `buffer.extend(buf)` for a string-like `buf`: `length` is what fits
      between the window and the buffer's size, and that much of `buf` is
      assigned over the array after the window.  When the window already
      ends past the size, `length` is negative: `buf[0:length]` then counts
      from the end of `buf`, the empty range `[len, size)` takes it as an
      insertion, and the window is cut back to end at the size.  The result
      carries `length`. */
  function Extend(b: ZeroCopyBuffer, src: seq<byte>): (r: (ZeroCopyBuffer, int))
    ensures r.1 == Min(|src|, b.size - Len(b))
    ensures r.0.pos == 0 && r.0.size == b.size
    ensures r.1 >= 0 ==> Contents(r.0) == Contents(b) + src[..r.1] && |r.0.data| == |b.data|
    ensures r.1 < 0 ==> Contents(r.0) == Contents(b)[..b.size]
  {
    var s := Shift(b);
    var n := Min(|src|, s.size - s.len);
    var v := PySeq.Slice(src, 0, n);
    assert n >= 0 ==> v == src[..n];
    AssignAfterWindow(s, n, v);
    (s.(data := PySeq.SliceAssign(s.data, s.len, s.len + n, v), len := s.len + n), n)
  }

  /** `self._buffer[len:len + n] = v; self._len += n` on a shifted buffer
      whose `n` is what `extend` computes: a positive `n` overwrites the `n`
      bytes after the window with `v`, any other `n` leaves the first
      `len + n` bytes alone and inserts `v` after the window. */
  lemma AssignAfterWindow(s: ZeroCopyBuffer, n: int, v: seq<byte>)
    requires s.pos == 0 && n <= s.size - s.len && (n < 0 ==> n == s.size - s.len)
    requires n > 0 ==> |v| == n
    ensures var d := PySeq.SliceAssign(s.data, s.len, s.len + n, v);
            && 0 <= s.len + n <= |d| && s.size <= |d|
            && (n > 0 ==> |d| == |s.data| && d[..s.len + n] == s.data[..s.len] + v)
            && (n <= 0 ==> |d| == |s.data| + |v| && d[..s.len + n] == s.data[..s.len + n])
  {
    var d := PySeq.SliceAssign(s.data, s.len, s.len + n, v);
    if n > 0 {
      assert d == s.data[..s.len] + v + s.data[s.len + n..];
      assert d[..s.len + n] == s.data[..s.len] + v;
    } else {
      assert d == s.data[..s.len] + v + s.data[s.len..];
      assert d[..s.len + n] == s.data[..s.len][..s.len + n];
    }
  }

  /** `buffer.extend(other)` for another ZeroCopyBuffer, as written: the
      source is taken as `other.view(0, length)`, which is the whole of
      `other`'s window when `length` is 0, and the slice assignment then
      inserts it instead of copying nothing. */
  function ExtendFromBuffer(b: ZeroCopyBuffer, other: ZeroCopyBuffer): (r: (ZeroCopyBuffer, int))
    ensures r.1 == Min(Len(other), b.size - Len(b))
    ensures r.0.pos == 0 && r.0.size == b.size
    ensures r.1 > 0 ==> Contents(r.0) == Contents(b) + Contents(other)[..r.1] && |r.0.data| == |b.data|
    ensures r.1 == 0 ==> Contents(r.0) == Contents(b) && |r.0.data| == |b.data| + Len(other)
    ensures r.1 < 0 ==> Contents(r.0) == Contents(b)[..b.size]
  {
    var s := Shift(b);
    var n := Min(Len(other), s.size - s.len);
    var v := View(other, 0, Some(n));
    assert n > 0 ==> v == Contents(other)[..n];
    assert n == 0 ==> v == Contents(other);
    AssignAfterWindow(s, n, v);
    (s.(data := PySeq.SliceAssign(s.data, s.len, s.len + n, v), len := s.len + n), n)
  }

  /** A full buffer that is extended from a non-empty ZeroCopyBuffer copies
      nothing but grows its array by the other buffer's live data. */
  lemma ExtendFromBufferGrows(b: ZeroCopyBuffer, other: ZeroCopyBuffer)
    requires Len(b) == b.size && Len(other) > 0
    ensures ExtendFromBuffer(b, other).1 == 0
    ensures |ExtendFromBuffer(b, other).0.data| == |b.data| + Len(other)
    ensures ExtendFromBufferIntended(b, other).0 == Shift(b)
  {
    var s := Shift(b);
    assert Contents(other)[..0] == [];
    assert AppendAfter(s, []).data == s.data;
  }

  /** `buffer.extend(other)` as evidently intended: the same as extending
      with `other`'s live data. */
  function ExtendFromBufferIntended(b: ZeroCopyBuffer, other: ZeroCopyBuffer): (r: (ZeroCopyBuffer, int))
    ensures r.1 == Min(Len(other), b.size - Len(b))
    ensures r.0.size == b.size
    ensures r.1 >= 0 ==> Contents(r.0) == Contents(b) + Contents(other)[..r.1] && |r.0.data| == |b.data|
  {
    Extend(b, Contents(other))
  }

  /** A window that does not end past the size is extended by exactly what
      fits, and stays within the size. */
  lemma ExtendWithinSize(b: ZeroCopyBuffer, src: seq<byte>)
    requires b.len <= b.size
    ensures var (r, n) := Extend(b, src);
            && n >= 0 && r.len <= r.size
            && (n < |src| ==> r.len == r.size)
  {
  }

  /** `buffer.delete(length)`: move the start of the window forward by
      `length`, but not past its end.  A negative length moves it back
      and exposes the bytes before the window again. */
  function Delete(b: ZeroCopyBuffer, n: int): (r: ZeroCopyBuffer)
    requires b.pos + n >= 0
    ensures n >= 0 ==> Contents(r) == Contents(b)[Min(n, Len(b))..]
    ensures n < 0 ==> Contents(r) == b.data[b.pos + n .. b.pos] + Contents(b)
    ensures r.data == b.data && r.len == b.len && r.size == b.size
  {
    var r := b.(pos := Min(b.pos + n, b.len));
    assert n < 0 ==> Contents(r) == b.data[b.pos + n .. b.pos] + Contents(b);
    r
  }

  /** Deleting bytes that are in the window and then deleting the negated
      length restores the buffer. */
  lemma DeleteUndo(b: ZeroCopyBuffer, n: nat)
    requires n <= Len(b)
    ensures Delete(Delete(b, n), -(n as int)) == b
  {
  }

  /** `buffer.replace(src, offset)`: overwrite the window from `offset`.
      A negative offset is a TypeError, a source that does not fit is the
      buffer's own error, and an empty source before the end of the window
      is refused by the memoryview assignment, because `view(offset, 0)`
      is the rest of the window. */
  function Replace(b: ZeroCopyBuffer, src: seq<byte>, offset: int): (r: Result<ZeroCopyBuffer>)
    ensures offset < 0 ==> r == Err(TypeError)
    ensures offset >= 0 && |src| + offset > Len(b) ==> r == Err(BufferError)
    ensures offset >= 0 && |src| + offset <= Len(b) && |src| == 0 && offset < Len(b) ==> r == Err(ValueError)
    ensures r.Ok? <==> 0 <= offset && offset + |src| <= Len(b) && (|src| > 0 || offset == Len(b))
    ensures r.Ok? ==> Contents(r.value) == Contents(b)[..offset] + src + Contents(b)[offset + |src|..]
    ensures r.Ok? ==> r.value.pos == b.pos && r.value.len == b.len && |r.value.data| == |b.data|
    ensures r.Ok? ==> r.value.data[..b.pos] == b.data[..b.pos] && r.value.data[b.len..] == b.data[b.len..]
  {
    if offset < 0 then Err(TypeError)
    else if |src| + offset > Len(b) then Err(BufferError)
    else
      var target := View(b, offset, Some(|src|));
      if |target| != |src| then Err(ValueError)
      else
        var at := b.pos + offset;
        var d := b.data[..at] + src + b.data[at + |src|..];
        var r := b.(data := d);
        assert Contents(r) == Contents(b)[..offset] + src + Contents(b)[offset + |src|..] by {
          assert Contents(b)[..offset] == b.data[b.pos..at];
          assert Contents(b)[offset + |src|..] == b.data[at + |src|..b.len];
        }
        assert d[..b.pos] == b.data[..b.pos];
        assert d[b.len..] == b.data[b.len..];
        Ok(r)
  }

  /** Replacing and then viewing the same range gives the source back. */
  lemma ReplaceView(b: ZeroCopyBuffer, src: seq<byte>, offset: int)
    requires Replace(b, src, offset).Ok? && |src| > 0
    ensures View(Replace(b, src, offset).value, offset, Some(|src|)) == src
  {
    var r := Replace(b, src, offset).value;
    assert Contents(r)[offset..offset + |src|] == src;
  }

  /** `_struct_check_length` followed by `struct.unpack_from` at `pos + offset`. */
  function Unpack(b: ZeroCopyBuffer, fmt: StructCodec.StructFormat, offset: int): (r: Result<seq<nat>>)
    ensures offset < 0 ==> r == Err(StructError)
    ensures offset >= 0 ==> r == StructCodec.UnpackFrom(fmt, Contents(b), offset)
  {
    var size := StructCodec.CalcSize(fmt.widths);
    if offset < 0 || size > Len(b) - offset then Err(StructError)
    else
      var at := b.pos + offset;
      assert b.data[at..at + size] == Contents(b)[offset..offset + size];
      StructCodec.UnpackFromRegion(fmt, b.data, at, Contents(b), offset);
      StructCodec.UnpackFrom(fmt, b.data, at)
  }

  /** `_struct_check_length` followed by `struct.pack_into` at `pos + offset`. */
  function Pack(b: ZeroCopyBuffer, fmt: StructCodec.StructFormat, offset: int, vals: seq<int>): (r: Result<ZeroCopyBuffer>)
    ensures offset < 0 ==> r == Err(StructError)
    ensures offset >= 0 ==> (r.Ok? <==> StructCodec.PackInto(fmt, Contents(b), offset, vals).Ok?)
    ensures r.Err? ==> r.error == StructError
    ensures r.Ok? ==> Contents(r.value) == StructCodec.PackInto(fmt, Contents(b), offset, vals).value
    ensures r.Ok? ==> r.value.pos == b.pos && r.value.len == b.len && |r.value.data| == |b.data|
    ensures r.Ok? ==> r.value.data[..b.pos] == b.data[..b.pos] && r.value.data[b.len..] == b.data[b.len..]
  {
    var size := StructCodec.CalcSize(fmt.widths);
    if offset < 0 || size > Len(b) - offset then Err(StructError)
    else
      PackIntoWindow(fmt, b.data, b.pos, offset, b.len, vals);
      match StructCodec.PackInto(fmt, b.data, b.pos + offset, vals)
      case Err(e) => Err(e)
      case Ok(d) => Ok(b.(data := d))
  }

  /** `struct.pack_into` at `lo + offset` of an array, seen through the
      window `[lo, hi)`, is `struct.pack_into` at `offset` of the window. */
  lemma PackIntoWindow(fmt: StructCodec.StructFormat, data: seq<byte>, lo: nat, offset: nat, hi: nat, vals: seq<int>)
    requires lo + offset + StructCodec.CalcSize(fmt.widths) <= hi <= |data|
    ensures var w := StructCodec.PackInto(fmt, data[lo..hi], offset, vals);
            var r := StructCodec.PackInto(fmt, data, lo + offset, vals);
            && (r.Ok? <==> w.Ok?)
            && (r.Ok? ==> r.value[lo..hi] == w.value && r.value[..lo] == data[..lo] && r.value[hi..] == data[hi..])
  {
    var n := StructCodec.CalcSize(fmt.widths);
    if |vals| == |fmt.widths| && StructCodec.InRange(fmt.widths, vals) {
      var piece := StructCodec.EncodeFields(fmt.widths, fmt.bigEndian, vals);
      var window := data[lo..hi];
      var at := lo + offset;
      var d := data[..at] + piece + data[at + n..];
      assert StructCodec.PackInto(fmt, data, at, vals) == Ok(d);
      assert StructCodec.PackInto(fmt, window, offset, vals) == Ok(window[..offset] + piece + window[offset + n..]);
      WindowWrite(data, d, lo, offset, n, hi, piece);
    }
  }

  /** A write of `piece` at `lo + offset` of an array, seen through the
      window `[lo, hi)`, is the same write at `offset` of the window. */
  lemma WindowWrite(data: seq<byte>, d: seq<byte>, lo: nat, offset: nat, n: nat, hi: nat, piece: seq<byte>)
    requires lo + offset + n <= hi <= |data| && |piece| == n
    requires d == data[..lo + offset] + piece + data[lo + offset + n..]
    ensures d[lo..hi] == data[lo..hi][..offset] + piece + data[lo..hi][offset + n..]
    ensures d[..lo] == data[..lo] && d[hi..] == data[hi..] && |d| == |data|
  {
    assert data[lo..hi][..offset] == data[lo..lo + offset];
    assert data[lo..hi][offset + n..] == data[lo + offset + n..hi];
  }

  /** Unpacking what `Pack` wrote at the same offset gives back the values. */
  lemma PackUnpackRoundTrip(b: ZeroCopyBuffer, fmt: StructCodec.StructFormat, offset: int, vals: seq<int>)
    requires Pack(b, fmt, offset, vals).Ok?
    ensures Unpack(Pack(b, fmt, offset, vals).value, fmt, offset) == Ok(vals)
  {
    StructCodec.PackUnpackRoundTrip(fmt, Contents(b), offset, vals);
  }

  /** `_bitpack_check_length` followed by `bitunpack_from` at `pos + offset`. */
  function UnpackBits(b: ZeroCopyBuffer, fmt: Bitpack.Format, offset: int): (r: Result<seq<int>>)
    ensures offset < 0 ==> r == Err(BitpackError)
    ensures offset >= 0 ==> r == Bitpack.BitunpackFrom(fmt, Contents(b), offset)
  {
    var n := Bitpack.ByteLength(fmt);
    if offset < 0 || n > Len(b) - offset then Err(BitpackError)
    else
      var at := b.pos + offset;
      assert b.data[at..at + n] == Contents(b)[offset..offset + n];
      Bitpack.BitunpackFromRegion(fmt, b.data, at, Contents(b), offset);
      Bitpack.BitunpackFrom(fmt, b.data, at)
  }

  /** `_bitpack_check_length` followed by `bitpack_into` at `pos + offset`. */
  function PackBits(b: ZeroCopyBuffer, fmt: Bitpack.Format, offset: int, vals: seq<int>): (r: Result<ZeroCopyBuffer>)
    ensures offset < 0 ==> r == Err(BitpackError)
    ensures offset >= 0 ==> (r.Ok? <==> Bitpack.BitpackInto(fmt, Contents(b), offset, vals).Ok?)
    ensures offset >= 0 && r.Err? ==> r.error == Bitpack.BitpackInto(fmt, Contents(b), offset, vals).error
    ensures r.Ok? ==> Contents(r.value) == Bitpack.BitpackInto(fmt, Contents(b), offset, vals).value
    ensures r.Ok? ==> r.value.pos == b.pos && r.value.len == b.len && |r.value.data| == |b.data|
    ensures r.Ok? ==> r.value.data[..b.pos] == b.data[..b.pos] && r.value.data[b.len..] == b.data[b.len..]
  {
    var n := Bitpack.ByteLength(fmt);
    if offset < 0 then Err(BitpackError)
    else if n > Len(b) - offset then Err(BitpackError)
    else if |vals| < |fmt| then Err(IndexError)
    else
      BitpackIntoWindow(fmt, b.data, b.pos, offset, b.len, vals);
      Ok(b.(data := Bitpack.BitpackInto(fmt, b.data, b.pos + offset, vals).value))
  }

  /** `bitpack_into` at `lo + offset` of an array, seen through the window
      `[lo, hi)`, is `bitpack_into` at `offset` of the window. */
  lemma BitpackIntoWindow(fmt: Bitpack.Format, data: seq<byte>, lo: nat, offset: nat, hi: nat, vals: seq<int>)
    requires lo + offset + Bitpack.ByteLength(fmt) <= hi <= |data| && |vals| >= |fmt|
    ensures Bitpack.BitpackInto(fmt, data, lo + offset, vals).Ok?
    ensures Bitpack.BitpackInto(fmt, data[lo..hi], offset, vals).Ok?
    ensures var d := Bitpack.BitpackInto(fmt, data, lo + offset, vals).value;
            && d[lo..hi] == Bitpack.BitpackInto(fmt, data[lo..hi], offset, vals).value
            && d[..lo] == data[..lo] && d[hi..] == data[hi..]
  {
    var n := Bitpack.ByteLength(fmt);
    var at := lo + offset;
    var window := data[lo..hi];
    var region := data[at..at + n];
    assert window[offset .. offset + n] == region by {
      SliceOfSlice(data, lo, hi, offset, offset + n);
    }
    var piece := Bitpack.PackRegion(fmt, region, vals);
    var d := data[..at] + piece + data[at + n..];
    var w := window[..offset] + piece + window[offset + n..];
    assert Bitpack.BitpackInto(fmt, data, at, vals) == Ok(d) by {
      Bitpack.BitpackIntoSplice(fmt, data, at, vals);
    }
    assert Bitpack.BitpackInto(fmt, window, offset, vals) == Ok(w) by {
      Bitpack.BitpackIntoSplice(fmt, window, offset, vals);
    }
    WindowWrite(data, d, lo, offset, n, hi, piece);
    assert d[lo..hi] == w;
  }

  /** Unpacking what `PackBits` wrote at the same offset gives back each
      value as its field stores it, or stops at the first field whose
      expected value the stored value does not match. */
  lemma BitpackRoundTrip(b: ZeroCopyBuffer, fmt: Bitpack.Format, offset: int, vals: seq<int>)
    requires 0 <= offset && Bitpack.ByteLength(fmt) <= Len(b) - offset && |vals| >= |fmt|
    ensures PackBits(b, fmt, offset, vals).Ok?
    ensures var u := UnpackBits(PackBits(b, fmt, offset, vals).value, fmt, offset);
            && (u.Ok? <==> forall i :: 0 <= i < |fmt| ==> Bitpack.Matches(fmt[i], Bitpack.Normalized(fmt[i], vals[i])))
            && (u.Ok? ==> u.value == Bitpack.NormalizedValues(fmt, vals))
  {
    Bitpack.PackUnpackRoundTrip(fmt, Contents(b), offset, vals);
  }

  /** `buffer.startswith(prefix, offset)`: bytearray's `startswith` from
      `min(len, pos + offset)` to `len`. */
  function StartsWith(b: ZeroCopyBuffer, prefix: seq<byte>, offset: int): (r: bool)
    ensures 0 <= offset <= Len(b) ==>
              (r <==> offset + |prefix| <= Len(b) && Contents(b)[offset..offset + |prefix|] == prefix)
    ensures offset > Len(b) ==> (r <==> |prefix| == 0)
    ensures -(b.pos as int) <= offset < 0 ==>
              (r <==> offset + |prefix| <= Len(b) && b.data[b.pos + offset .. b.pos + offset + |prefix|] == prefix)
    ensures b.pos + offset < 0 ==>
              var st := Max(0, |b.data| + b.pos + offset);
              (r <==> st + |prefix| <= b.len && b.data[st..st + |prefix|] == prefix)
  {
    var start := Min(b.len, b.pos + offset);
    assert 0 <= offset && offset + |prefix| <= Len(b) ==>
             b.data[start..start + |prefix|] == Contents(b)[offset..offset + |prefix|];
    PySeq.StartsWith(b.data, prefix, start, b.len)
  }
}
