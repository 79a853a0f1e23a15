/** `Reader.frames()`: the loop that cuts an input stream into frames,
    losing and regaining synchronisation on data that is not a frame.  The
    input file is the sequence of its unread bytes; `read(8192)` takes the
    next block of it. */
module Reader {
  import opened Base
  import Frames

  /** `Reader._blocksize`. */
  const BlockSize := 8192

  /** How much of the buffer is handed out before the reader gives up on
      invalid data. */
  const GarbageLimit := 500

  /** `self._inobj.read(self._blocksize)`: the next block and what is left. */
  function Read(input: seq<byte>): (r: (seq<byte>, seq<byte>))
    ensures r.0 + r.1 == input
    ensures |r.0| == Min(BlockSize, |input|)
    ensures r.1 != [] ==> |r.0| == BlockSize
  {
    var n := Min(BlockSize, |input|);
    (input[..n], input[n..])
  }

  /** `_fill_buffer(buffer, want_length)`: reads whole blocks until the
      buffer holds `want` bytes, and raises when the input ends first. */
  function FillBuffer(buffer: seq<byte>, input: seq<byte>, want: int): (r: Result<(seq<byte>, seq<byte>)>)
    ensures r.Ok? <==> |buffer| + |input| >= want
    ensures r.Err? ==> r.error == UnexpectedEndOfInput
    ensures r.Ok? ==> && r.value.0 + r.value.1 == buffer + input
                      && |r.value.0| >= want
                      && |buffer| <= |r.value.0|
                      && r.value.0[..|buffer|] == buffer
    ensures r.Ok? && |buffer| >= want ==> r.value == (buffer, input)
    ensures r.Ok? && |buffer| < want ==> |r.value.0| < want + BlockSize
    decreases |input|
  {
    if |buffer| >= want then Ok((buffer, input))
    else
      var (chunk, rest) := Read(input);
      if |chunk| == 0 then Err(UnexpectedEndOfInput)
      else
        assert (buffer + chunk) + rest == buffer + input;
        var r := FillBuffer(buffer + chunk, rest, want);
        assert r.Ok? ==> r.value.0[..|buffer|] == (buffer + chunk)[..|buffer|];
        r
  }

  // ---------------------------------------------------------------------
  // The loop

  /** The locals of `frames()` that survive an iteration, and the reader's
      session flags. */
  datatype State = State(session: Frames.Session, inSync: bool, buffer: seq<byte>, input: seq<byte>)

  /** What `frames()` yields: a frame with its bytes, or, when invalid data
      is not to be skipped, the first 500 bytes of the buffer. */
  datatype Item = FrameItem(frame: Frames.Frame, bytes: seq<byte>) | Garbage(bytes: seq<byte>)

  /** What one pass does with the front of the stream: yield an item, take
      a meta frame without yielding it, or drop one byte of invalid data. */
  datatype Event = Yield(item: Item) | Withhold(frame: Frames.Frame, bytes: seq<byte>) | Drop(b: byte)

  /** The keyword arguments `ignore_invalid_data` and `emit_meta_frames`. */
  datatype Config = Config(ignoreInvalid: bool, emitMeta: bool)

  const Defaults := Config(true, true)

  /** The items the generator yields. */
  function Yielded(events: seq<Event>): seq<Item>
  {
    if events == [] then []
    else (if events[0].Yield? then [events[0].item] else []) + Yielded(events[1..])
  }

  /** The bytes the events take off the front of the stream. */
  function Consumed(events: seq<Event>): seq<byte>
  {
    if events == [] then []
    else
      var head := match events[0]
        case Yield(item) => if item.FrameItem? then item.bytes else []
        case Withhold(_, bytes) => bytes
        case Drop(b) => [b];
      head + Consumed(events[1..])
  }

  lemma {:induction false} ConsumedAppend(a: seq<Event>, b: seq<Event>)
    ensures Consumed(a + b) == Consumed(a) + Consumed(b)
  {
    if a != [] {
      assert (a + b)[1..] == a[1..] + b;
      ConsumedAppend(a[1..], b);
    } else {
      assert a + b == b;
    }
  }

  lemma {:induction false} YieldedAppend(a: seq<Event>, b: seq<Event>)
    ensures Yielded(a + b) == Yielded(a) + Yielded(b)
  {
    if a != [] {
      assert (a + b)[1..] == a[1..] + b;
      YieldedAppend(a[1..], b);
    } else {
      assert a + b == b;
    }
  }

  /** An event the configuration allows: frames carry exactly their length
      in bytes, meta frames are yielded exactly when wanted, bytes are
      dropped only when invalid data is ignored, and garbage is handed out
      only when it is not. */
  predicate Allowed(e: Event, cfg: Config)
  {
    match e
    case Yield(FrameItem(fr, bytes)) => |bytes| == fr.length >= 1 && (Frames.IsMeta(fr) ==> cfg.emitMeta)
    case Yield(Garbage(bytes)) => !cfg.ignoreInvalid && |bytes| <= GarbageLimit
    case Withhold(fr, bytes) => |bytes| == fr.length >= 1 && Frames.IsMeta(fr) && !cfg.emitMeta
    case Drop(_) => cfg.ignoreInvalid
  }

  /** Every byte not yet handed out: the buffer, then the unread input. */
  function Stream(st: State): seq<byte>
  {
    st.buffer + st.input
  }

  /** The reader reads in whole blocks, so input is left unread only
      behind a buffer of at least one block. */
  predicate BlockAligned(st: State)
  {
    st.input != [] ==> |st.buffer| >= BlockSize
  }

  /** `buffer.extend(self._inobj.read(self._blocksize))`. */
  function Refill(st: State): (r: State)
    ensures Stream(r) == Stream(st)
    ensures BlockAligned(r)
    ensures r.session == st.session && r.inSync == st.inSync
  {
    var (chunk, rest) := Read(st.input);
    assert (st.buffer + chunk) + rest == st.buffer + st.input;
    st.(buffer := st.buffer + chunk, input := rest)
  }

  /** The result of a pass: what it did, and the next state or the
      exception that ends the generator. */
  type Pass = (seq<Event>, Result<State>)

  /** What every pass guarantees: a continuing pass takes at least one
      byte, and what it takes is exactly the front of the stream; a pass
      that raises takes nothing; a pass does at most one thing, and only
      what the configuration allows; garbage is followed by
      `MP3Error('encountered invalid data')`. */
  predicate StepOutcome(stream: seq<byte>, cfg: Config, r: Pass)
  {
    && |r.0| <= 1
    && (forall i :: 0 <= i < |r.0| ==> Allowed(r.0[i], cfg))
    && (r.1.Ok? ==> && |r.0| == 1 && !(r.0[0].Yield? && r.0[0].item.Garbage?)
                    && stream == Consumed(r.0) + Stream(r.1.value)
                    && |Consumed(r.0)| >= 1
                    && BlockAligned(r.1.value))
    && (r.1.Err? ==> Consumed(r.0) == [])
    && (|r.0| == 1 && r.0[0].Yield? && r.0[0].item.Garbage? ==> r.1 == Err(Mp3Error(InvalidData)))
  }

  /** The accepted-frame branch: fill the buffer to the frame's length,
      let the frame keep its bytes, drop them from the buffer, yield the
      frame unless it is a meta frame and those are not wanted, then read
      the next block. */
  function Consume(fr: Frames.Frame, st: State, cfg: Config): (r: Pass)
    requires fr.length >= 1
    ensures r.1.Err? <==> |Stream(st)| < fr.length
    ensures r.1.Err? ==> r == ([], Err(UnexpectedEndOfInput))
    ensures r.1.Ok? ==> && Stream(r.1.value) == Stream(st)[fr.length..]
                        && r.1.value.session == st.session && r.1.value.inSync == st.inSync
    ensures r.1.Ok? ==> var taken := Frames.Assemble(fr, Stream(st));
              r.0 == [if !Frames.IsMeta(fr) || cfg.emitMeta then Yield(FrameItem(taken.0, taken.1))
                      else Withhold(taken.0, taken.1)]
    ensures StepOutcome(Stream(st), cfg, r)
  {
    match FillBuffer(st.buffer, st.input, fr.length)
    case Err(e) => ([], Err(e))
    case Ok((buf, inp)) =>
      assert buf + inp == Stream(st);
      assert buf[..fr.length] == Stream(st)[..fr.length];
      assert buf[fr.length..] + inp == Stream(st)[fr.length..];
      assert Stream(st) == Stream(st)[..fr.length] + Stream(st)[fr.length..];
      Frames.AssemblePrefix(fr, buf, Stream(st));
      var (assembled, bytes) := Frames.Assemble(fr, buf);
      var e := if !Frames.IsMeta(fr) || cfg.emitMeta then Yield(FrameItem(assembled, bytes)) else Withhold(assembled, bytes);
      assert Consumed([e]) == bytes;
      ([e], Ok(Refill(State(st.session, st.inSync, buf[fr.length..], inp))))
  }

  /** The no-frame branch: the reader is out of sync; it either yields the
      first 500 buffered bytes and raises, or drops one byte and reads the
      next block. */
  function Skip(st: State, cfg: Config): (r: Pass)
    requires |st.buffer| >= 1
    ensures !cfg.ignoreInvalid ==>
              r == ([Yield(Garbage(st.buffer[..Min(GarbageLimit, |st.buffer|)]))], Err(Mp3Error(InvalidData)))
    ensures cfg.ignoreInvalid ==> && r.0 == [Drop(st.buffer[0])] && r.1.Ok?
                                  && Stream(r.1.value) == Stream(st)[1..]
                                  && r.1.value.session == st.session && r.1.value.inSync == st.inSync
    ensures StepOutcome(Stream(st), cfg, r)
  {
    if !cfg.ignoreInvalid then
      var e := Yield(Garbage(st.buffer[..Min(GarbageLimit, |st.buffer|)]));
      assert Consumed([e]) == [];
      ([e], Err(Mp3Error(InvalidData)))
    else
      assert st.buffer[1..] + st.input == Stream(st)[1..];
      assert Consumed([Drop(st.buffer[0])]) == [st.buffer[0]];
      ([Drop(st.buffer[0])], Ok(Refill(st.(buffer := st.buffer[1..]))))
  }

  /** `Reader._FRAME_TYPES` as one function: what the frame classes,
      tried in order, make of the buffer at an offset, and the session they
      leave behind. */
  type Classes = (seq<byte>, Frames.Session, nat) -> (Frames.Probe, Frames.Session)

  /** Every frame the classes recognise takes at least one byte. */
  ghost predicate Sound(classes: Classes)
  {
    forall buf, s, offset :: classes(buf, s, offset).0.Found? ==> classes(buf, s, offset).0.frame.length >= 1
  }

  /** XingFrame, MPEGFrame, RIFFFrame, ID3Frame, APEFrame. */
  const FrameTypes: Classes := (buf: seq<byte>, s: Frames.Session, offset: nat) => Frames.TryAll(buf, s, offset)

  lemma FrameTypesSound()
    ensures Sound(FrameTypes)
  {
    forall buf, s, offset | FrameTypes(buf, s, offset).0.Found?
      ensures FrameTypes(buf, s, offset).0.frame.length >= 1
    {
      assert FrameTypes(buf, s, offset) == Frames.TryAll(buf, s, offset);
    }
  }

  /** Out of sync, the candidate `fr` is accepted only when, with the buffer
      filled to its length plus 12 bytes, another frame is recognised right
      after it; otherwise it is treated as invalid data. */
  function Resync(fr: Frames.Frame, st: State, cfg: Config, classes: Classes): (r: Pass)
    requires fr.length >= 1 && |st.buffer| > 4
    ensures StepOutcome(Stream(st), cfg, r)
    ensures r.1.Ok? && r.1.value.inSync ==>
              var fill := FillBuffer(st.buffer, st.input, fr.length + 12);
              fill.Ok? && classes(fill.value.0, st.session, fr.length).0.Found?
  {
    match FillBuffer(st.buffer, st.input, fr.length + 12)
    case Err(e) => ([], Err(e))
    case Ok((buf, inp)) =>
      var (q, s2) := classes(buf, st.session, fr.length);
      match q
      case Raised(e) => ([], Err(e))
      case Found(_) => Consume(fr, State(s2, true, buf, inp), cfg)
      case Invalid => Skip(State(s2, false, buf, inp), cfg)
  }

  /** One pass of the `while len(buffer) > 4` loop: every class is tried at
      the start of the buffer; in sync the first frame found is taken, out
      of sync it must be confirmed by the frame after it. */
  function Step(st: State, cfg: Config, classes: Classes): (r: Pass)
    requires |st.buffer| > 4 && Sound(classes)
    ensures StepOutcome(Stream(st), cfg, r)
  {
    var (p, s1) := classes(st.buffer, st.session, 0);
    match p
    case Raised(e) => ([], Err(e))
    case Invalid => Skip(st.(session := s1, inSync := false), cfg)
    case Found(fr) =>
      if st.inSync then Consume(fr, st.(session := s1), cfg)
      else Resync(fr, st.(session := s1), cfg, classes)
  }

  /** Out of sync, a pass that regains sync has found a frame at the start
      of the buffer and, with the buffer filled to that frame's length plus
      12 bytes, another frame right after it. */
  lemma ResyncNeedsConfirmation(st: State, cfg: Config, classes: Classes)
    requires |st.buffer| > 4 && !st.inSync && Sound(classes)
    requires Step(st, cfg, classes).1.Ok? && Step(st, cfg, classes).1.value.inSync
    ensures var (p, s1) := classes(st.buffer, st.session, 0);
            && p.Found?
            && var fill := FillBuffer(st.buffer, st.input, p.frame.length + 12);
               fill.Ok? && classes(fill.value.0, s1, p.frame.length).0.Found?
  {
  }

  /** The `while len(buffer) > 4` loop from `st`: passes until the buffer
      holds four bytes or fewer, or until a pass raises.  On a normal end
      the whole input has been read and the stream is exactly the bytes the
      passes took, in order, followed by at most four bytes left over. */
  function Run(st: State, cfg: Config, classes: Classes): (r: Pass)
    requires BlockAligned(st) && Sound(classes)
    ensures AllAllowed(r.0, cfg) && GarbageLast(r)
    ensures r.1.Ok? ==> && r.1.value.input == [] && |r.1.value.buffer| <= 4
                        && Stream(st) == Consumed(r.0) + r.1.value.buffer
    ensures r.1.Err? ==> |Consumed(r.0)| <= |Stream(st)| && Stream(st)[..|Consumed(r.0)|] == Consumed(r.0)
    decreases |Stream(st)|
  {
    if |st.buffer| <= 4 then
      assert st.buffer + st.input == st.buffer;
      ([], Ok(st))
    else
      var (ev, out) := Step(st, cfg, classes);
      if out.Err? then
        StepEvents((ev, out), Stream(st), cfg);
        (ev, out)
      else
        var (more, fin) := Run(out.value, cfg, classes);
        StepEvents((ev, out), Stream(st), cfg);
        AppendEvents(ev, more, fin, cfg);
        ConsumedAppend(ev, more);
        if fin.Ok? then
          RunDone(Stream(st), Consumed(ev), Stream(out.value), Consumed(more), fin.value.buffer);
          (ev + more, fin)
        else
          RunTail(Stream(st), Consumed(ev), Stream(out.value), Consumed(more));
          (ev + more, fin)
  }

  predicate AllAllowed(ev: seq<Event>, cfg: Config)
  {
    forall i :: 0 <= i < |ev| ==> Allowed(ev[i], cfg)
  }

  /** Garbage is only ever the last thing handed out, right before
      `MP3Error('encountered invalid data')`. */
  predicate GarbageLast(r: Pass)
  {
    forall i :: 0 <= i < |r.0| && r.0[i].Yield? && r.0[i].item.Garbage? ==>
      i == |r.0| - 1 && r.1 == Err(Mp3Error(InvalidData))
  }

  lemma StepEvents(r: Pass, stream: seq<byte>, cfg: Config)
    requires StepOutcome(stream, cfg, r)
    ensures AllAllowed(r.0, cfg) && GarbageLast(r)
  {
  }

  lemma AppendEvents(ev: seq<Event>, more: seq<Event>, fin: Result<State>, cfg: Config)
    requires |ev| == 1 && !(ev[0].Yield? && ev[0].item.Garbage?)
    requires AllAllowed(ev, cfg) && AllAllowed(more, cfg) && GarbageLast((more, fin))
    ensures AllAllowed(ev + more, cfg) && GarbageLast((ev + more, fin))
  {
    forall i | 0 <= i < |ev + more|
      ensures Allowed((ev + more)[i], cfg)
    {
      if i >= 1 { assert (ev + more)[i] == more[i - 1]; }
    }
    forall i | 0 <= i < |ev + more| && (ev + more)[i].Yield? && (ev + more)[i].item.Garbage?
      ensures i == |ev + more| - 1 && fin == Err(Mp3Error(InvalidData))
    {
      assert i >= 1;
      assert (ev + more)[i] == more[i - 1];
    }
  }

  lemma RunDone(stream: seq<byte>, head: seq<byte>, rest: seq<byte>, taken: seq<byte>, left: seq<byte>)
    requires stream == head + rest && rest == taken + left
    ensures stream == (head + taken) + left
  {
  }

  lemma RunTail(stream: seq<byte>, head: seq<byte>, rest: seq<byte>, taken: seq<byte>)
    requires stream == head + rest
    requires |taken| <= |rest| && rest[..|taken|] == taken
    ensures |head + taken| <= |stream| && stream[..|head + taken|] == head + taken
  {
    assert stream[..|head + taken|] == head + rest[..|taken|];
  }

  /** `Reader(inobj).frames(ignore_invalid_data, emit_meta_frames)` on a
      file holding `file`: the first block is read before the loop. */
  function ReadFrames(file: seq<byte>, cfg: Config): (r: Pass)
    ensures AllAllowed(r.0, cfg) && GarbageLast(r)
    ensures r.1.Ok? ==> r.1.value.input == [] && |r.1.value.buffer| <= 4
  {
    var (chunk, rest) := Read(file);
    FrameTypesSound();
    Run(State(Frames.InitialSession, true, chunk, rest), cfg, FrameTypes)
  }

  /** A read that ends normally has taken the whole file, in order, except
      for at most four trailing bytes; the items it yields are among what it
      took. */
  lemma ReadFramesTakesFile(file: seq<byte>, cfg: Config)
    ensures var r := ReadFrames(file, cfg);
            r.1.Ok? ==> && |r.1.value.buffer| <= 4 && r.1.value.input == []
                        && file == Consumed(r.0) + r.1.value.buffer
    ensures var r := ReadFrames(file, cfg);
            r.1.Err? ==> file[..|Consumed(r.0)|] == Consumed(r.0)
  {
    var (chunk, rest) := Read(file);
    assert Stream(State(Frames.InitialSession, true, chunk, rest)) == file;
  }

  /** Meta frames are yielded exactly when wanted; every yielded frame
      carries exactly its length in bytes; skipping invalid data yields no
      garbage, and not skipping it never drops a byte. */
  lemma ReadFramesItems(file: seq<byte>, cfg: Config)
    ensures var items := Yielded(ReadFrames(file, cfg).0);
            forall i :: 0 <= i < |items| && items[i].FrameItem? ==>
              |items[i].bytes| == items[i].frame.length >= 1 && (Frames.IsMeta(items[i].frame) ==> cfg.emitMeta)
    ensures var items := Yielded(ReadFrames(file, cfg).0);
            cfg.ignoreInvalid ==> forall i :: 0 <= i < |items| ==> items[i].FrameItem?
    ensures var ev := ReadFrames(file, cfg).0;
            !cfg.ignoreInvalid ==> forall i :: 0 <= i < |ev| ==> !ev[i].Drop?
  {
    var ev := ReadFrames(file, cfg).0;
    YieldedAllowed(ev, cfg);
  }

  lemma {:induction false} YieldedAllowed(ev: seq<Event>, cfg: Config)
    requires AllAllowed(ev, cfg)
    ensures forall i :: 0 <= i < |Yielded(ev)| ==> Allowed(Yield(Yielded(ev)[i]), cfg)
  {
    if ev != [] {
      YieldedAllowed(ev[1..], cfg);
      assert forall i :: 0 <= i < |ev[1..]| ==> ev[1..][i] == ev[i + 1];
    }
  }

  /** In sync, a frame recognised at the start of the buffer is taken whole
      and the reader stays in sync. */
  lemma InSyncTakesFrame(st: State, cfg: Config, classes: Classes)
    requires |st.buffer| > 4 && st.inSync && Sound(classes)
    requires classes(st.buffer, st.session, 0).0.Found?
    requires classes(st.buffer, st.session, 0).0.frame.length <= |Stream(st)|
    ensures var fr := classes(st.buffer, st.session, 0).0.frame;
            var r := Step(st, cfg, classes);
            && r.1.Ok? && r.1.value.inSync
            && Consumed(r.0) == Stream(st)[..fr.length]
            && (!Frames.IsMeta(fr) || cfg.emitMeta ==> Yielded(r.0) == [FrameItem(Frames.Assemble(fr, Stream(st)).0, Stream(st)[..fr.length])])
  {
    var (p, s1) := classes(st.buffer, st.session, 0);
    var fr := p.frame;
    assert Stream(st.(session := s1)) == Stream(st);
    var r := Consume(fr, st.(session := s1), cfg);
    assert Yielded(r.0) == (if r.0[0].Yield? then [r.0[0].item] else []) + Yielded([]);
  }

  /** Where no class recognises the start of the buffer, the reader loses
      sync and, skipping invalid data, drops exactly the first byte. */
  lemma NoFrameDropsByte(st: State, cfg: Config, classes: Classes)
    requires |st.buffer| > 4 && cfg.ignoreInvalid && Sound(classes)
    requires classes(st.buffer, st.session, 0).0.Invalid?
    ensures var r := Step(st, cfg, classes);
            && r.0 == [Drop(st.buffer[0])]
            && r.1.Ok? && !r.1.value.inSync
            && Stream(r.1.value) == Stream(st)[1..]
  {
  }
}
