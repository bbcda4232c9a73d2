/** What the demultiplexer guarantees over whole byte streams. */
module DemuxLaws {
  import opened Bytes
  import opened Framing
  import opened Demultiplexer
  import Cobs
  import Lines

  /** Buffer sizes of a Demux<FrameMax, LineMax>. */
  datatype Sizes = Sizes(frameMax: nat, lineMax: nat)

  function After(s: State, bytes: seq<byte>, z: Sizes): State
    decreases |bytes|
  {
    if bytes == [] then s else After(Feed(s, bytes[0], z.frameMax, z.lineMax).0, bytes[1..], z)
  }

  /** The event of every byte, in step with the stream. */
  function Trace(s: State, bytes: seq<byte>, z: Sizes): (events: seq<Event>)
    ensures |events| == |bytes|
    decreases |bytes|
  {
    if bytes == [] then []
    else
      var (s', ev) := Feed(s, bytes[0], z.frameMax, z.lineMax);
      [ev] + Trace(s', bytes[1..], z)
  }

  function Frames(events: seq<Event>): seq<seq<byte>> {
    if events == [] then []
    else (if events[0].FrameEvent? then [events[0].payload] else []) + Frames(events[1..])
  }

  function TextLines(events: seq<Event>): seq<Lines.Line> {
    if events == [] then []
    else (if events[0].TextLine? then [events[0].line] else []) + TextLines(events[1..])
  }

  lemma {:induction false} TraceConcat(s: State, a: seq<byte>, b: seq<byte>, z: Sizes)
    ensures After(s, a + b, z) == After(After(s, a, z), b, z)
    ensures Trace(s, a + b, z) == Trace(s, a, z) + Trace(After(s, a, z), b, z)
    decreases |a|
  {
    if a == [] {
      assert a + b == b;
    } else {
      assert (a + b)[1..] == a[1..] + b;
      TraceConcat(Feed(s, a[0], z.frameMax, z.lineMax).0, a[1..], b, z);
    }
  }

  lemma {:induction false} EventsConcat(a: seq<Event>, b: seq<Event>)
    ensures Frames(a + b) == Frames(a) + Frames(b)
    ensures TextLines(a + b) == TextLines(a) + TextLines(b)
  {
    if a == [] {
      assert a + b == b;
    } else {
      assert (a + b)[1..] == a[1..] + b;
      EventsConcat(a[1..], b);
    }
  }

  // --- stretches of the stream -------------------------------------------

  /** What a stretch of bytes does to a state. */
  datatype Effect = Effect(after: State, frames: seq<seq<byte>>, lines: seq<Lines.Line>)

  function Run(s: State, bytes: seq<byte>, z: Sizes): Effect {
    Effect(After(s, bytes, z), Frames(Trace(s, bytes, z)), TextLines(Trace(s, bytes, z)))
  }

  function Then(a: Effect, b: Effect): Effect {
    Effect(b.after, a.frames + b.frames, a.lines + b.lines)
  }

  lemma RunConcat(s: State, a: seq<byte>, b: seq<byte>, z: Sizes)
    ensures Run(s, a + b, z) == Then(Run(s, a, z), Run(Run(s, a, z).after, b, z))
  {
    TraceConcat(s, a, b, z);
    EventsConcat(Trace(s, a, z), Trace(After(s, a, z), b, z));
  }

  lemma RunByte(s: State, b: byte, z: Sizes)
    ensures var (s', ev) := Feed(s, b, z.frameMax, z.lineMax);
      Run(s, [b], z) == Effect(s', if ev.FrameEvent? then [ev.payload] else [], if ev.TextLine? then [ev.line] else [])
  {
    hide Feed;
    var (s', ev) := Feed(s, b, z.frameMax, z.lineMax);
    assert [b][1..] == [];
    assert After(s, [b], z) == After(s', [], z) == s';
    assert Trace(s, [b], z) == [ev] + Trace(s', [], z) == [ev];
    OneEvent(ev);
  }

  lemma OneEvent(ev: Event)
    ensures Frames([ev]) == if ev.FrameEvent? then [ev.payload] else []
    ensures TextLines([ev]) == if ev.TextLine? then [ev.line] else []
  {
    assert [ev][1..] == [];
  }

  /** In TEXT, bytes that are not the delimiter drive the line machine and nothing else. */
  lemma {:induction false} RunText(s: State, t: seq<byte>, z: Sizes)
    requires !s.inFrame && ZeroFree(t)
    ensures Run(s, t, z) ==
      Effect(s.(text := Lines.After(s.text, t, z.lineMax)), [], Lines.Emitted(s.text, t, z.lineMax))
    decreases |t|
  {
    if t != [] {
      assert t == [t[0]] + t[1..];
      RunByte(s, t[0], z);
      RunConcat(s, [t[0]], t[1..], z);
      RunText(Feed(s, t[0], z.frameMax, z.lineMax).0, t[1..], z);
    }
  }

  /** In FRAME, bytes that fit are collected silently. */
  lemma {:induction false} RunCollect(s: State, y: seq<byte>, z: Sizes)
    requires s.inFrame && ZeroFree(y) && |s.collected| + |y| <= z.frameMax
    ensures Run(s, y, z) == Effect(s.(collected := s.collected + y), [], [])
    decreases |y|
  {
    if y == [] {
      assert s.collected + y == s.collected;
    } else {
      assert y == [y[0]] + y[1..];
      RunByte(s, y[0], z);
      RunConcat(s, [y[0]], y[1..], z);
      var s' := s.(collected := s.collected + [y[0]]);
      RunCollect(s', y[1..], z);
      assert s.collected + [y[0]] + y[1..] == s.collected + y;
    }
  }

  /** From the start of a frame, a body and its delimiter. */
  lemma RunBlock(s: State, y: seq<byte>, z: Sizes)
    requires s.inFrame && s.collected == [] && ZeroFree(y) && |y| <= z.frameMax
    ensures var (s', ev) := FeedFrame(s.(collected := y), 0, z.frameMax, z.lineMax);
      Run(s, y + [0], z) == Effect(s', if ev.FrameEvent? then [ev.payload] else [], [])
  {
    hide Validate, Lines.Append;
    RunCollect(s, y, z);
    assert [] + y == y;
    RunByte(s.(collected := y), 0, z);
    RunConcat(s, y, [0], z);
  }

  /** From the start of a frame, a well-formed body is delivered. */
  lemma RunBody(s: State, p: seq<byte>, z: Sizes)
    requires s.inFrame && s.collected == [] && |Body(p)| <= z.frameMax
    ensures Run(s, Body(p) + [0], z) == Effect(s.(inFrame := false), [p], [])
  {
    hide Body, Run, Validate;
    BodyZeroFree(p);
    ValidateBody(p);
    RunBlock(s, Body(p), z);
  }

  /** A delimiter in TEXT, or right after another one, starts a frame. */
  lemma RunOpen(s: State, z: Sizes)
    requires s.inFrame ==> s.collected == []
    ensures Run(s, [0], z) == Effect(s.(inFrame := true, collected := []), [], [])
  {
    RunByte(s, 0, z);
  }

  /** A frame that meets TEXT, or the very start of a frame, is delivered and leaves TEXT. */
  lemma RunFrame(s: State, p: seq<byte>, z: Sizes)
    requires s.inFrame ==> s.collected == []
    requires |Body(p)| <= z.frameMax
    ensures Run(s, Frame(p), z) == Effect(s.(inFrame := false, collected := []), [p], [])
  {
    hide Body, Run;
    RunOpen(s, z);
    RunBody(s.(inFrame := true, collected := []), p, z);
    assert Frame(p) == [0] + (Body(p) + [0]);
    RunConcat(s, [0], Body(p) + [0], z);
  }

  // --- frames and text separate ------------------------------------------

  datatype Segment = Plain(text: seq<byte>) | Packet(payload: seq<byte>)

  predicate Deliverable(segments: seq<Segment>, z: Sizes) {
    forall i :: 0 <= i < |segments| ==>
      match segments[i]
      case Plain(t) => ZeroFree(t)
      case Packet(p) => |Body(p)| <= z.frameMax
  }

  function Wire(segments: seq<Segment>): seq<byte> {
    if segments == [] then []
    else (match segments[0] case Plain(t) => t case Packet(p) => Frame(p)) + Wire(segments[1..])
  }

  function Payloads(segments: seq<Segment>): seq<seq<byte>> {
    if segments == [] then []
    else (match segments[0] case Plain(_) => [] case Packet(p) => [p]) + Payloads(segments[1..])
  }

  function PlainText(segments: seq<Segment>): seq<byte> {
    if segments == [] then []
    else (match segments[0] case Plain(t) => t case Packet(_) => []) + PlainText(segments[1..])
  }

  /**
   Frames come out in order, and the lines are those of the text alone, wherever frames
   were spliced into it.
   */
  lemma {:induction false} FramesAndTextSeparate(s: State, segments: seq<Segment>, z: Sizes)
    requires !s.inFrame && s.collected == [] && Deliverable(segments, z)
    ensures Run(s, Wire(segments), z) ==
      Effect(s.(text := Lines.After(s.text, PlainText(segments), z.lineMax)),
             Payloads(segments), Lines.Emitted(s.text, PlainText(segments), z.lineMax))
    decreases |segments|, 0
  {
    if segments != [] {
      var rest := segments[1..];
      assert Deliverable(rest, z) by {
        assert forall i :: 0 <= i < |rest| ==> rest[i] == segments[i + 1];
      }
      match segments[0] {
        case Plain(t) =>
          SeparateText(s, t, rest, z);
        case Packet(p) =>
          SeparateFrame(s, p, rest, z);
      }
    }
  }

  lemma SeparateText(s: State, t: seq<byte>, rest: seq<Segment>, z: Sizes)
    requires !s.inFrame && s.collected == [] && Deliverable(rest, z) && ZeroFree(t)
    ensures Run(s, t + Wire(rest), z) ==
      Effect(s.(text := Lines.After(s.text, t + PlainText(rest), z.lineMax)),
             Payloads(rest), Lines.Emitted(s.text, t + PlainText(rest), z.lineMax))
    decreases |rest|, 1
  {
    hide Run, Wire, PlainText, Payloads, Lines.After, Lines.Emitted;
    var s' := s.(text := Lines.After(s.text, t, z.lineMax));
    RunText(s, t, z);
    RunConcat(s, t, Wire(rest), z);
    FramesAndTextSeparate(s', rest, z);
    Lines.EmittedConcat(s.text, t, PlainText(rest), z.lineMax);
    assert [] + Payloads(rest) == Payloads(rest);
  }

  lemma SeparateFrame(s: State, p: seq<byte>, rest: seq<Segment>, z: Sizes)
    requires !s.inFrame && s.collected == [] && Deliverable(rest, z) && |Body(p)| <= z.frameMax
    ensures Run(s, Frame(p) + Wire(rest), z) ==
      Effect(s.(text := Lines.After(s.text, [] + PlainText(rest), z.lineMax)),
             [p] + Payloads(rest), Lines.Emitted(s.text, [] + PlainText(rest), z.lineMax))
    decreases |rest|, 1
  {
    hide Run, Wire, PlainText, Payloads, Lines.After, Lines.Emitted, Frame;
    RunFrame(s, p, z);
    assert s.(inFrame := false, collected := []) == s;
    RunConcat(s, Frame(p), Wire(rest), z);
    FramesAndTextSeparate(s, rest, z);
    assert [] + PlainText(rest) == PlainText(rest);
    assert [] + Lines.Emitted(s.text, PlainText(rest), z.lineMax) == Lines.Emitted(s.text, PlainText(rest), z.lineMax);
  }

  /** On a stream without delimiters the lines are those of the host's buffered reader. */
  lemma LinesOfReader(bytes: seq<byte>, z: Sizes)
    requires ZeroFree(bytes) && z.lineMax > 0
    ensures Run(INITIAL, bytes, z).lines == Lines.All(false, bytes, z.lineMax - 1)
  {
    hide Run, Lines.All, Lines.Emitted;
    RunText(INITIAL, bytes, z);
    Lines.LinesAgree(false, bytes, z.lineMax);
  }

  // --- resynchronisation -------------------------------------------------

  /** Two delimiters in a row reach the start of a frame from any state. */
  lemma TwoDelimiters(s: State, z: Sizes)
    ensures Run(s, [0, 0], z).after.inFrame && Run(s, [0, 0], z).after.collected == []
  {
    hide Run, Validate, Lines.Append;
    var s' := Feed(s, 0, z.frameMax, z.lineMax).0;
    RunByte(s, 0, z);
    RunByte(s', 0, z);
    assert [0, 0] == [0] + [0];
    RunConcat(s, [0], [0], z);
    assert Validate([]) == Empty by { EmptyBlock(); }
  }

  lemma EmptyBlock()
    ensures Validate([]) == Empty
  {}

  /** The bytes collected so far, if any, do not happen to form a valid frame of their own. */
  predicate Clear(s: State) {
    !(s.inFrame && Validate(s.collected).Ready?)
  }

  /**
   A frame that fits is delivered whatever came before it, in TEXT, after noise, after a damaged
   frame or in the middle of one, unless the bytes collected before it form a valid frame of
   their own; that frame is delivered in its place, and the body is read as text.
   */
  lemma FrameArrives(s: State, p: seq<byte>, z: Sizes)
    requires |Body(p)| <= z.frameMax
    ensures var e := Run(s, Frame(p), z);
      e.after.collected == [] &&
      if Clear(s) then !e.after.inFrame && e.frames == [p] && e.lines == []
      else e.after.inFrame && e.frames == [Validate(s.collected).payload]
  {
    hide Run, Validate, Body, Lines.After, Lines.Emitted, Lines.Append;
    var body, s' := Body(p) + [0], Feed(s, 0, z.frameMax, z.lineMax).0;
    assert Frame(p) == [0] + body;
    assert Validate([]) == Empty by { EmptyBlock(); }
    RunByte(s, 0, z);
    RunConcat(s, [0], body, z);
    if Clear(s) {
      RunBody(s', p, z);
    } else {
      FrameReadAsText(s', p, z);
    }
  }

  /** Nothing is delivered of a frame that breaks off before its last byte. */
  lemma PartOfFrame(s: State, p: seq<byte>, n: nat, z: Sizes)
    requires Clear(s) && n < |Frame(p)| && |Body(p)| <= z.frameMax
    ensures Run(s, Frame(p)[..n], z).frames == []
  {
    hide Run, Body, Validate;
    if n == 0 {
      assert Frame(p)[..0] == [];
      RunNothing(s, z);
    } else {
      var part := Body(p)[..n - 1];
      BodyZeroFree(p);
      assert ZeroFree(part);
      assert Frame(p)[..n] == [0] + part;
      DelimiterOpens(s, z);
      var open := Run(s, [0], z).after;
      RunCollect(open, part, z);
      RunConcat(s, [0], part, z);
    }
  }

  lemma RunNothing(s: State, z: Sizes)
    ensures Run(s, [], z) == Effect(s, [], [])
  {}

  /** A body met in TEXT is text, and its delimiter opens a frame. */
  lemma FrameReadAsText(s: State, p: seq<byte>, z: Sizes)
    requires !s.inFrame
    ensures var e := Run(s, Body(p) + [0], z);
      e.frames == [] && e.after.inFrame && e.after.collected == []
  {
    hide Run, Body, Lines.After, Lines.Emitted;
    BodyZeroFree(p);
    RunText(s, Body(p), z);
    RunByte(s.(text := Lines.After(s.text, Body(p), z.lineMax)), 0, z);
    RunConcat(s, Body(p), [0], z);
  }

  /**
   Two frames that fit, sent back to back into any state at all: the second is always
   delivered, and the first too unless the bytes collected before it happened to form a
   valid frame of their own, which is delivered in its place.
   */
  lemma SecondFrameArrives(s: State, p: seq<byte>, q: seq<byte>, z: Sizes)
    requires |Body(p)| <= z.frameMax && |Body(q)| <= z.frameMax
    ensures var e := Run(s, Frame(p) + Frame(q), z);
      !e.after.inFrame &&
      e.frames == if Clear(s) then [p, q] else [Validate(s.collected).payload, q]
  {
    hide Run, Validate, Body, Frame;
    assert Validate([]) == Empty by { EmptyBlock(); }
    FrameArrives(s, p, z);
    FrameArrives(Run(s, Frame(p), z).after, q, z);
    RunConcat(s, Frame(p), Frame(q), z);
  }

  // --- damage ------------------------------------------------------------

  /**
   A frame with one data byte changed to another non-zero value is dropped, counted once as
   a CRC error, and the next frame is delivered.
   */
  lemma DamagedFrameDropped(s: State, p: seq<byte>, i: nat, b: byte, q: seq<byte>, z: Sizes)
    requires s.inFrame ==> s.collected == []
    requires |Body(p)| <= z.frameMax && |Body(q)| <= z.frameMax
    requires Cobs.IsData(Body(p), i) && b != 0 && b != Body(p)[i]
    ensures var e := Run(s, [0] + Body(p)[i := b] + [0], z);
      e.frames == [] && e.lines == [] && e.after.inFrame && e.after.collected == [] &&
      e.after.errors == s.errors.(crc := Bump(s.errors.crc)) &&
      Run(e.after, Frame(q), z).frames == [q] && !Run(e.after, Frame(q), z).after.inFrame
  {
    hide Run, Body, Cobs.IsData;
    var y, open := Body(p)[i := b], s.(inFrame := true, collected := []);
    RunOpen(s, z);
    DamagedBody(open, p, i, b, z);
    RunConcat(s, [0], y + [0], z);
    assert [0] + y + [0] == [0] + (y + [0]);
    RunFrame(Run(open, y + [0], z).after, q, z);
  }

  lemma DamagedBody(s: State, p: seq<byte>, i: nat, b: byte, z: Sizes)
    requires s.inFrame && s.collected == [] && |Body(p)| <= z.frameMax
    requires Cobs.IsData(Body(p), i) && b != 0 && b != Body(p)[i]
    ensures var e := Run(s, Body(p)[i := b] + [0], z);
      e.frames == [] && e.lines == [] && e.after.inFrame && e.after.collected == [] &&
      e.after.errors == s.errors.(crc := Bump(s.errors.crc))
  {
    hide Run, Body, Validate, Cobs.IsData, Lines.Append;
    BodyZeroFree(p);
    assert ZeroFree(Body(p)[i := b]);
    CorruptedDataRefused(p, i, b);
    RunBlock(s, Body(p)[i := b], z);
  }

  /** A lone delimiter met in a clear state opens a frame and delivers nothing. */
  lemma DelimiterOpens(s: State, z: Sizes)
    requires Clear(s)
    ensures var e := Run(s, [0], z);
      e.frames == [] && e.lines == [] && e.after.inFrame && e.after.collected == []
  {
    hide Run, Validate, Lines.Append;
    RunByte(s, 0, z);
  }

  /** The state a damaged frame leaves, in FRAME with nothing collected, is no obstacle to the next. */
  lemma EmptyIsClear(s: State)
    requires s.collected == []
    ensures Clear(s)
  {
    EmptyBlock();
  }

  /**
   What a rejected block puts back joins the pending line, and the next CR or LF shows it, except
   an LF when a CR was pending before the block: that LF is taken for the rest of the pair, and
   the line stays pending.
   */
  lemma RejectedShown(s: State, p: seq<byte>, b: byte, z: Sizes)
    requires s.inFrame && (Validate(s.collected).CobsError? || Validate(s.collected).CrcError?)
    requires |Body(p)| <= z.frameMax && (b == Lines.CR || b == Lines.LF)
    ensures var t := Lines.Append(s.text, Validate(s.collected).text, z.lineMax);
      var shown := b == Lines.CR || !s.text.pendingCr;
      var e := Run(s, Frame(p) + [b], z);
      e.frames == [p] &&
      e.after.errors == (if Validate(s.collected).CobsError? then s.errors.(cobs := Bump(s.errors.cobs))
                         else s.errors.(crc := Bump(s.errors.crc))) &&
      e.lines == (if shown then [Lines.Line(t.line, t.truncated)] else []) &&
      e.after.text == if shown then Lines.Text([], false, b == Lines.CR) else t.(pendingCr := false)
  {
    hide Run, Validate, Body, Lines.Append;
    var s', t := Feed(s, 0, z.frameMax, z.lineMax).0, Lines.Append(s.text, Validate(s.collected).text, z.lineMax);
    var body := Body(p) + [0];
    assert Frame(p) == [0] + body;
    assert t.pendingCr == s.text.pendingCr by { AppendKeepsCr(s.text, Validate(s.collected).text, z.lineMax); }
    RunByte(s, 0, z);
    RunBody(s', p, z);
    RunConcat(s, [0], body, z);
    RunByte(s'.(inFrame := false), b, z);
    RunConcat(s, Frame(p), [b], z);
  }

  /**
   Text after a stray delimiter is not lost: bytes that overfill the collector join the pending line
   in order, the byte that overflows is read as text, and the overflow is counted.
   */
  lemma OverflowIsText(s: State, x: seq<byte>, b: byte, z: Sizes)
    requires (s.inFrame ==> s.collected == []) && ZeroFree(x) && |x| == z.frameMax && b != 0
    ensures var e, t := Run(s, [0] + x + [b], z), Lines.Append(s.text, x, z.lineMax);
      var ends := b == Lines.CR || (b == Lines.LF && !s.text.pendingCr);
      e.frames == [] && !e.after.inFrame && e.after.collected == [] &&
      e.after.errors == s.errors.(overflow := Bump(s.errors.overflow)) &&
      e.lines == (if ends then [Lines.Line(t.line, t.truncated)] else []) &&
      e.after.text ==
        if ends then Lines.Text([], false, b == Lines.CR)
        else if b == Lines.LF then t.(pendingCr := false)
        else Lines.Append(s.text, x + [b], z.lineMax).(pendingCr := false)
  {
    hide Run, Validate, Lines.Append, Lines.AppendByte;
    var open, t := s.(inFrame := true, collected := []), Lines.Append(s.text, x, z.lineMax);
    RunOpen(s, z);
    RunCollect(open, x, z);
    assert [] + x == x;
    RunByte(open.(collected := x), b, z);
    RunConcat(open, x, [b], z);
    RunConcat(s, [0], x + [b], z);
    assert [0] + x + [b] == [0] + (x + [b]);
    AppendKeepsCr(s.text, x, z.lineMax);
    AppendLast(s.text, x, b, z.lineMax);
    AppendIgnoresCr(t, b, z.lineMax);
  }

  lemma {:induction false} AppendLast(t: Lines.Text, x: seq<byte>, b: byte, lineMax: nat)
    ensures Lines.Append(t, x + [b], lineMax) == Lines.AppendByte(Lines.Append(t, x, lineMax), b, lineMax)
    decreases |x|
  {
    if x == [] {
      assert x + [b] == [b] && [b][1..] == [];
    } else {
      assert (x + [b])[1..] == x[1..] + [b];
      AppendLast(Lines.AppendByte(t, x[0], lineMax), x[1..], b, lineMax);
    }
  }

  lemma AppendIgnoresCr(t: Lines.Text, b: byte, lineMax: nat)
    ensures Lines.AppendByte(t.(pendingCr := false), b, lineMax) ==
      Lines.AppendByte(t, b, lineMax).(pendingCr := false)
  {}

  lemma {:induction false} AppendKeepsCr(t: Lines.Text, x: seq<byte>, lineMax: nat)
    ensures Lines.Append(t, x, lineMax).pendingCr == t.pendingCr
    decreases |x|
  {
    if x != [] {
      AppendKeepsCr(Lines.AppendByte(t, x[0], lineMax), x[1..], lineMax);
    }
  }

  // --- the variant without text ------------------------------------------

  function AfterOnly(s: FrameState, bytes: seq<byte>, frameMax: nat): FrameState
    decreases |bytes|
  {
    if bytes == [] then s else AfterOnly(FeedFrameOnly(s, bytes[0], frameMax).0, bytes[1..], frameMax)
  }

  function TraceOnly(s: FrameState, bytes: seq<byte>, frameMax: nat): (out: seq<Option<seq<byte>>>)
    ensures |out| == |bytes|
    decreases |bytes|
  {
    if bytes == [] then []
    else
      var (s', ev) := FeedFrameOnly(s, bytes[0], frameMax);
      [ev] + TraceOnly(s', bytes[1..], frameMax)
  }

  function WithoutText(s: State): FrameState {
    FrameState(s.inFrame, s.collected, s.errors)
  }

  function FrameOf(ev: Event): Option<seq<byte>> {
    if ev.FrameEvent? then Some(ev.payload) else None
  }

  /** Dropping the text changes no frame, no position and no counter, whatever the stream. */
  lemma {:induction false} TextIsIrrelevant(s: State, bytes: seq<byte>, z: Sizes)
    requires !s.inFrame ==> s.collected == []
    ensures WithoutText(After(s, bytes, z)) == AfterOnly(WithoutText(s), bytes, z.frameMax)
    ensures forall i :: 0 <= i < |bytes| ==>
      FrameOf(Trace(s, bytes, z)[i]) == TraceOnly(WithoutText(s), bytes, z.frameMax)[i]
    decreases |bytes|
  {
    if bytes != [] {
      SameStep(s, bytes[0], z);
      hide Feed, FeedFrameOnly, WithoutText;
      TextIsIrrelevant(Feed(s, bytes[0], z.frameMax, z.lineMax).0, bytes[1..], z);
    }
  }

  lemma SameStep(s: State, b: byte, z: Sizes)
    requires !s.inFrame ==> s.collected == []
    ensures var (s', ev) := Feed(s, b, z.frameMax, z.lineMax);
      FeedFrameOnly(WithoutText(s), b, z.frameMax) == (WithoutText(s'), FrameOf(ev)) &&
      (!s'.inFrame ==> s'.collected == [])
  {
    hide Validate, Lines.Step, Lines.Append;
  }
}
