/** Compilation of a textual bit format such as "i:11,i:2,b,i:4=0x7" into the
    fields of `Bitpack` (`formatstr.__init__` and `formatstr._parse`). */
module FormatParse {
  import opened Base
  import opened Bitpack

  predicate IsDigit(c: char) { '0' <= c <= '9' }

  /** `str.isdigit()` on an ASCII string: non-empty and all decimal digits. */
  predicate AllDigits(s: string)
  {
    |s| > 0 && forall k :: 0 <= k < |s| ==> IsDigit(s[k])
  }

  function DigitValue(c: char): nat
    requires IsDigit(c)
  {
    (c as int) - ('0' as int)
  }

  /** The value of a string of decimal digits. */
  function DecimalValue(s: string): nat
    requires forall k :: 0 <= k < |s| ==> IsDigit(s[k])
  {
    if |s| == 0 then 0 else 10 * DecimalValue(s[..|s| - 1]) + DigitValue(s[|s| - 1])
  }

  function HexDigitValue(c: char): Option<nat>
  {
    if '0' <= c <= '9' then Some(((c as int) - ('0' as int)) as nat)
    else if 'a' <= c <= 'f' then Some(((c as int) - ('a' as int) + 10) as nat)
    else if 'A' <= c <= 'F' then Some(((c as int) - ('A' as int) + 10) as nat)
    else None
  }

  /** The value of a string of hexadecimal digits, if it is one. */
  function HexValue(s: string): Option<nat>
  {
    if |s| == 0 then Some(0)
    else
      match (HexValue(s[..|s| - 1]), HexDigitValue(s[|s| - 1]))
      case (Some(hi), Some(d)) => Some(16 * hi + d)
      case _ => None
  }

  /** `int(s)`: an optional sign followed by decimal digits (surrounding
      whitespace, which Python also accepts, is not modelled). */
  function ParseInt(s: string): (r: Result<int>)
    ensures r.Err? ==> r.error == ValueError
    ensures r.Ok? <==> AllDigits(s) || (|s| > 0 && (s[0] == '-' || s[0] == '+') && AllDigits(s[1..]))
    ensures AllDigits(s) ==> r == Ok(DecimalValue(s))
    ensures |s| > 0 && s[0] == '+' && AllDigits(s[1..]) ==> r == Ok(DecimalValue(s[1..]))
    ensures |s| > 0 && s[0] == '-' && AllDigits(s[1..]) ==> r == Ok(-(DecimalValue(s[1..]) as int))
  {
    if |s| > 0 && (s[0] == '-' || s[0] == '+') then
      if AllDigits(s[1..]) then
        var magnitude: int := DecimalValue(s[1..]);
        Ok(if s[0] == '-' then -magnitude else magnitude)
      else Err(ValueError)
    else if AllDigits(s) then Ok(DecimalValue(s))
    else Err(ValueError)
  }

  /** `int(s, 16)` for a string that starts with "0x": the prefix is accepted
      and at least one hex digit must follow. */
  function ParseHex0x(s: string): (r: Result<int>)
    requires |s| >= 2 && s[..2] == "0x"
  {
    var digits := s[2..];
    if |digits| > 0 && HexValue(digits).Some? then Ok(HexValue(digits).value) else Err(ValueError)
  }

  /** The expected value after '=': `d.startswith('0x') and int(d, 16) or
      int(d)`.  A hex literal whose value is 0 is falsy, so it falls through
      to `int(d)`, which rejects the "0x" prefix. */
  function ParseExpected(d: string): (r: Result<int>)
    ensures r.Err? ==> r.error == ValueError
    ensures !(|d| >= 2 && d[..2] == "0x") ==> r == ParseInt(d)
    ensures |d| > 2 && d[..2] == "0x" && HexValue(d[2..]).Some? && HexValue(d[2..]).value != 0 ==>
              r == Ok(HexValue(d[2..]).value)
    ensures |d| >= 2 && d[..2] == "0x" && !(HexValue(d[2..]).Some? && HexValue(d[2..]).value != 0) ==>
              r == Err(ValueError)
  {
    if |d| >= 2 && d[..2] == "0x" then
      match ParseHex0x(d)
      case Err(e) => Err(e)
      case Ok(v) =>
        if v != 0 then Ok(v)
        else
          assert !IsDigit(d[..2][1]);
          ParseInt(d)
    else ParseInt(d)
  }

  function FirstIndex(s: string, c: char): (r: Option<nat>)
    ensures r.Some? ==> r.value < |s| && s[r.value] == c && c !in s[..r.value]
    ensures r.None? <==> c !in s
  {
    if |s| == 0 then None
    else if s[0] == c then Some(0)
    else
      match FirstIndex(s[1..], c)
      case None => None
      case Some(i) =>
        assert s[..i + 1] == [s[0]] + s[1..][..i];
        Some(i + 1)
  }

  function LastIndex(s: string, c: char): (r: Option<nat>)
    ensures r.Some? ==> r.value < |s| && s[r.value] == c && c !in s[r.value + 1..]
    ensures r.None? <==> c !in s
  {
    if |s| == 0 then None
    else if s[|s| - 1] == c then Some(|s| - 1)
    else
      var r := LastIndex(s[..|s| - 1], c);
      if r.Some? then
        assert s[r.value + 1..] == s[..|s| - 1][r.value + 1..] + [s[|s| - 1]];
        r
      else
        assert s == s[..|s| - 1] + [s[|s| - 1]];
        r
  }

  /** The part of a chunk before any '=': "b", or `type:width`. */
  function ParseBody(body: string, expected: Option<int>): (r: Result<Field>)
    ensures r.Err? ==> r.error == ValueError || r.error == BitpackError
    ensures r.Ok? ==> r.value.expected == expected
  {
    if body == "b" then Ok(Field(BoolField, 1, expected))
    else
      match FirstIndex(body, ':')
      case None => Err(ValueError)     // `type, length = chunk.split(':', 1)` has one part
      case Some(k) =>
        var tag, digits := body[..k], body[k + 1..];
        if !AllDigits(digits) then Err(BitpackError)
        else if tag == "i" then Ok(Field(IntField, DecimalValue(digits), expected))
        else if tag == "b" then Ok(Field(BoolField, DecimalValue(digits), expected))
        else Err(BitpackError)
  }

  /** One chunk of a format: `[type:]width[=expected]`, or just "b". The
      expected value is split off at the last '=' and parsed first. */
  function ParseChunk(chunk: string): (r: Result<Field>)
    ensures r.Err? ==> r.error == ValueError || r.error == BitpackError
  {
    match LastIndex(chunk, '=')
    case None => ParseBody(chunk, None)
    case Some(j) =>
      match ParseExpected(chunk[j + 1..])
      case Err(e) => Err(e)
      case Ok(v) => ParseBody(chunk[..j], Some(v))
  }

  /** `formatstr(list_of_chunks)`: the first malformed chunk stops it. */
  function Compile(chunks: seq<string>): (r: Result<Format>)
    ensures r.Ok? <==> forall i :: 0 <= i < |chunks| ==> ParseChunk(chunks[i]).Ok?
    ensures r.Ok? ==> |r.value| == |chunks|
                      && forall i :: 0 <= i < |chunks| ==> r.value[i] == ParseChunk(chunks[i]).value
  {
    if |chunks| == 0 then Ok([])
    else
      match ParseChunk(chunks[0])
      case Err(e) => Err(e)
      case Ok(f) =>
        var rest := Compile(chunks[1..]);
        assert forall i :: 1 <= i < |chunks| ==> chunks[1..][i - 1] == chunks[i];
        match rest
        case Err(e) => Err(e)
        case Ok(fs) => Ok([f] + fs)
  }

  /** `s.split(',')`. */
  function Split(s: string, sep: char): (r: seq<string>)
    ensures |r| >= 1
    ensures forall i :: 0 <= i < |r| ==> sep !in r[i]
  {
    match FirstIndex(s, sep)
    case None => [s]
    case Some(i) => [s[..i]] + Split(s[i + 1..], sep)
  }

  /** Joining pieces with a separator, the inverse of `Split`. */
  function Join(pieces: seq<string>, sep: char): string
    requires |pieces| >= 1
  {
    if |pieces| == 1 then pieces[0] else pieces[0] + [sep] + Join(pieces[1..], sep)
  }

  lemma {:induction false} SplitJoin(s: string, sep: char)
    ensures Join(Split(s, sep), sep) == s
    decreases |s|
  {
    match FirstIndex(s, sep)
    case None =>
    case Some(i) =>
      var rest := Split(s[i + 1..], sep);
      var pieces := [s[..i]] + rest;
      assert Split(s, sep) == pieces;
      assert pieces[1..] == rest;
      assert Join(pieces, sep) == s[..i] + [sep] + Join(rest, sep);
      SplitJoin(s[i + 1..], sep);
      assert s == s[..i] + [sep] + s[i + 1..];
  }

  /** `formatstr("i:11,i:2,b")`. */
  function CompileString(s: string): Result<Format>
  {
    Compile(Split(s, ','))
  }

  /** Decimal digits of `n`. */
  function DecimalString(n: nat): (r: string)
    ensures |r| >= 1 && forall k :: 0 <= k < |r| ==> IsDigit(r[k])
  {
    var d := ['0' + ((n % 10) as char)];
    if n < 10 then d else DecimalString(n / 10) + d
  }

  lemma {:induction false} DecimalRoundTrip(n: nat)
    ensures DecimalValue(DecimalString(n)) == n
  {
    var s := DecimalString(n);
    assert s[..|s| - 1] == (if n < 10 then [] else DecimalString(n / 10));
    if n >= 10 {
      DecimalRoundTrip(n / 10);
    }
  }

  /** The textual form of a field without its expected value: "b" for a
      one-bit boolean, otherwise "i:W" or "b:W". */
  function RenderBody(f: Field): string
  {
    if f.kind == BoolField && f.width == 1 then "b"
    else (if f.kind == IntField then "i:" else "b:") + DecimalString(f.width)
  }

  /** `str(v)` for an integer: a minus sign for a negative value, then the
      decimal digits of its magnitude. */
  function SignedString(v: int): string
  {
    if v < 0 then "-" + DecimalString(-v) else DecimalString(v)
  }

  /** The textual form of a field: its body followed by "=V" when an
      expected value is set. */
  function Render(f: Field): string
  {
    if f.expected.Some? then RenderBody(f) + "=" + SignedString(f.expected.value) else RenderBody(f)
  }

  lemma RenderBodyParse(f: Field, e: Option<int>)
    ensures '=' !in RenderBody(f)
    ensures ParseBody(RenderBody(f), e) == Ok(Field(f.kind, f.width, e))
  {
    var body := RenderBody(f);
    if body != "b" {
      var w := DecimalString(f.width);
      var tag := if f.kind == IntField then "i" else "b";
      assert forall k :: 0 <= k < |w| ==> IsDigit(w[k]);
      assert body == tag + [':'] + w;
      assert FirstIndex(body, ':') == Some(1) by {
        assert body[1] == ':' && body[0] != ':';
        assert body[..1] == [body[0]];
      }
      assert body[..1] == tag && body[2..] == w;
      DecimalRoundTrip(f.width);
    }
  }

  /** A decimal literal, with a minus sign when negative, contains no '='
      and is read back as its value. */
  lemma SignedParse(v: int)
    ensures '=' !in SignedString(v)
    ensures ParseExpected(SignedString(v)) == Ok(v)
  {
    var m: nat := if v < 0 then -v else v;
    DecimalRoundTrip(m);
    DigitsParse(DecimalString(m));
  }

  /** Digits, alone or after a minus sign, contain no '=' and are read as
      their value or its negation. */
  lemma DigitsParse(digits: string)
    requires AllDigits(digits)
    ensures '=' !in digits && '=' !in "-" + digits
    ensures ParseExpected(digits) == Ok(DecimalValue(digits))
    ensures ParseExpected("-" + digits) == Ok(-(DecimalValue(digits) as int))
  {
    var neg := "-" + digits;
    assert neg[1..] == digits;
    assert neg[0] == '-';
    assert !(|digits| >= 2 && digits[..2] == "0x") by {
      if |digits| >= 2 { assert IsDigit(digits[..2][1]); }
    }
    assert !(|neg| >= 2 && neg[..2] == "0x") by {
      if |neg| >= 2 { assert neg[..2][0] == '-'; }
    }
    assert '=' !in digits by {
      forall k | 0 <= k < |digits| ensures digits[k] != '=' { assert IsDigit(digits[k]); }
    }
  }

  lemma RenderParse(f: Field)
    ensures ParseChunk(Render(f)) == Ok(f)
  {
    var body := RenderBody(f);
    RenderBodyParse(f, f.expected);
    if f.expected.Some? {
      var e := SignedString(f.expected.value);
      var chunk := body + "=" + e;
      SignedParse(f.expected.value);
      assert chunk[|body| + 1..] == e;
      assert chunk[..|body|] == body;
      LastIndexUnique(chunk, '=', |body|);
    }
  }

  lemma LastIndexUnique(s: string, c: char, i: nat)
    requires i < |s| && s[i] == c && c !in s[i + 1..]
    ensures LastIndex(s, c) == Some(i)
  {
  }

  /** A width that is not a base-10 integer is refused with the package's
      own error. */
  lemma BadWidthRefused(tag: string, width: string)
    requires tag == "i" || tag == "b"
    requires '=' !in width && !AllDigits(width)
    ensures ParseChunk(tag + ":" + width) == Err(BitpackError)
  {
    var chunk := tag + ":" + width;
    assert '=' !in chunk;
    assert FirstIndex(chunk, ':') == Some(1) by {
      assert chunk[..1] == tag;
    }
    assert chunk[2..] == width;
  }

  /** A type tag other than 'i' and 'b' is refused with the package's own
      error once the width is well formed. */
  lemma BadTypeRefused(tag: string, width: nat)
    requires tag != "i" && tag != "b" && ':' !in tag && '=' !in tag
    ensures ParseChunk(tag + ":" + DecimalString(width)) == Err(BitpackError)
  {
    var w := DecimalString(width);
    var chunk := tag + ":" + w;
    assert forall k :: 0 <= k < |w| ==> IsDigit(w[k]);
    assert '=' !in chunk by {
      assert forall k :: 0 <= k < |chunk| ==> chunk[k] == (if k < |tag| then tag[k] else if k == |tag| then ':' else w[k - |tag| - 1]);
    }
    assert |chunk| >= 2;
    assert FirstIndex(chunk, ':') == Some(|tag|) by {
      FirstIndexUnique(chunk, ':', |tag|);
    }
    assert chunk[..|tag|] == tag && chunk[|tag| + 1..] == w;
  }

  lemma FirstIndexUnique(s: string, c: char, i: nat)
    requires i < |s| && s[i] == c && c !in s[..i]
    ensures FirstIndex(s, c) == Some(i)
  {
  }

  /** A hexadecimal expected value is read as such, except that a zero value
      is refused with ValueError. */
  lemma HexExpected(h: string)
    requires |h| > 0 && HexValue(h).Some?
    ensures HexValue(h).value != 0 ==> ParseExpected("0x" + h) == Ok(HexValue(h).value)
    ensures HexValue(h).value == 0 ==> ParseExpected("0x" + h) == Err(ValueError)
  {
    var d := "0x" + h;
    assert d[..2] == "0x" && d[2..] == h;
    if HexValue(h).value == 0 {
      assert !AllDigits(d) by { assert !IsDigit(d[1]); }
    }
  }

  /** A list of chunks each of which parses to the corresponding field
      compiles to that format. */
  lemma {:induction false} CompileEach(chunks: seq<string>, fmt: Format)
    requires |chunks| == |fmt|
    requires forall i :: 0 <= i < |chunks| ==> ParseChunk(chunks[i]) == Ok(fmt[i])
    ensures Compile(chunks) == Ok(fmt)
  {
    if |chunks| > 0 {
      assert forall i :: 0 <= i < |chunks| - 1 ==> chunks[1..][i] == chunks[i + 1] && fmt[1..][i] == fmt[i + 1];
      CompileEach(chunks[1..], fmt[1..]);
      assert ParseChunk(chunks[0]) == Ok(fmt[0]);
      assert fmt == [fmt[0]] + fmt[1..];
    }
  }
}
