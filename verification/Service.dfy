/** One poll of the device: bytes in, frames dispatched as they complete, bytes and text lines out. */
module Service {
  import opened Bytes
  import opened Framing
  import opened Device
  import Demux = Demultiplexer
  import opened DemuxLaws
  import Lines

  /** The responses to a series of valid frames, and the state they leave. */
  datatype Served = Served(device: Device.State, out: seq<byte>)

  function Answer(s: Device.State, payload: seq<byte>, now: nat, bufSize: nat): Served {
    var (s', response) := HandleFrame(s, payload, now, bufSize);
    Served(s', if response.Some? then Frame(response.value) else [])
  }

  /** What the clock reads as each frame of a poll is served, from the first frame on. */
  type Clock = nat -> nat

  /** Serves the frames of a poll from number `k` on. */
  function Serve(s: Device.State, payloads: seq<seq<byte>>, clock: Clock, k: nat, bufSize: nat): Served
    decreases |payloads|
  {
    if payloads == [] then Served(s, [])
    else
      var first := Answer(s, payloads[0], clock(k), bufSize);
      var rest := Serve(first.device, payloads[1..], clock, k + 1, bufSize);
      Served(rest.device, first.out + rest.out)
  }

  /** Bytes and lines that came out, and how many frames were served. */
  datatype Polled =
    Polled(demux: Demux.State, device: Device.State, out: seq<byte>, lines: seq<Lines.Line>, frames: nat)

  /** What one byte read from the stream does. */
  function PollByte(d: Demux.State, s: Device.State, b: byte, now: nat, bufSize: nat, z: Sizes): Polled {
    var (d', ev) := Demux.Feed(d, b, z.frameMax, z.lineMax);
    match ev
    case Nothing => Polled(d', s, [], [], 0)
    case TextLine(l) => Polled(d', s, [], [l], 0)
    case FrameEvent(p) =>
      var a := Answer(s, p, now, bufSize);
      Polled(d', a.device, a.out, [], 1)
  }

  /** A poll that has served `k` frames already. */
  function PollBytes(d: Demux.State, s: Device.State, bytes: seq<byte>, clock: Clock, k: nat, bufSize: nat, z: Sizes)
    : Polled
    decreases |bytes|
  {
    if bytes == [] then Polled(d, s, [], [], 0)
    else
      var first := PollByte(d, s, bytes[0], clock(k), bufSize, z);
      var rest := PollBytes(first.demux, first.device, bytes[1..], clock, k + first.frames, bufSize, z);
      AfterPolled(first, rest)
  }

  /** The buffers of a Server<BufSize>. */
  function ServerSizes(bufSize: nat): Sizes {
    Sizes(CobsMaxEncodedSize(bufSize + 2), 64)
  }

  /** One part of a poll in front of the rest of it. */
  function AfterPolled(first: Polled, rest: Polled): Polled {
    rest.(out := first.out + rest.out, lines := first.lines + rest.lines, frames := first.frames + rest.frames)
  }

  lemma FirstPolled(sofar: Polled, rest: Polled)
    requires sofar.out == [] && sofar.lines == [] && sofar.frames == 0
    ensures AfterPolled(sofar, rest) == rest
  {}

  lemma PartsPolled(first: Polled, rest: Polled)
    ensures var p := AfterPolled(first, rest);
      p.demux == rest.demux && p.device == rest.device && p.out == first.out + rest.out &&
      p.lines == first.lines + rest.lines && p.frames == first.frames + rest.frames
  {}

  /** A poll so far, seen as the whole poll of the bytes that led to it. */
  lemma NextPolled(sofar: Polled, bytes: seq<byte>, clock: Clock, bufSize: nat, z: Sizes)
    requires bytes != []
    ensures var first := PollByte(sofar.demux, sofar.device, bytes[0], clock(sofar.frames), bufSize, z);
      AfterPolled(sofar, PollBytes(sofar.demux, sofar.device, bytes, clock, sofar.frames, bufSize, z)) ==
        var sofar' := AfterPolled(sofar, first);
        AfterPolled(sofar', PollBytes(first.demux, first.device, bytes[1..], clock, sofar'.frames, bufSize, z))
  {
    hide PollByte;
    var first := PollByte(sofar.demux, sofar.device, bytes[0], clock(sofar.frames), bufSize, z);
    var rest := PollBytes(first.demux, first.device, bytes[1..], clock, sofar.frames + first.frames, bufSize, z);
    assert sofar.out + (first.out + rest.out) == sofar.out + first.out + rest.out;
    assert sofar.lines + (first.lines + rest.lines) == sofar.lines + first.lines + rest.lines;
  }

  lemma NothingPolled(sofar: Polled, clock: Clock, bufSize: nat, z: Sizes)
    ensures AfterPolled(sofar, PollBytes(sofar.demux, sofar.device, [], clock, sofar.frames, bufSize, z)) == sofar
  {}

  // --- polling is demultiplexing, then serving ---------------------------

  /** Polling byte by byte is the same as cutting the stream into frames and serving them. */
  lemma {:induction false} PollServesFrames(d: Demux.State, s: Device.State, bytes: seq<byte>,
                                            clock: Clock, k: nat, bufSize: nat, z: Sizes)
    ensures var e, served := Run(d, bytes, z), Serve(s, Run(d, bytes, z).frames, clock, k, bufSize);
      PollBytes(d, s, bytes, clock, k, bufSize, z) ==
        Polled(e.after, served.device, served.out, e.lines, |e.frames|)
    decreases |bytes|
  {
    hide Run, PollByte, PollBytes, Serve, AfterPolled;
    if bytes == [] {
      NothingServed(d, s, clock, k, bufSize, z);
    } else {
      var first, rest := PollByte(d, s, bytes[0], clock(k), bufSize, z), bytes[1..];
      BytesPolled(d, s, bytes, clock, k, bufSize, z);
      BytePolled(d, s, bytes[0], Run(first.demux, rest, z).frames, clock, k, bufSize, z);
      RunConcat(d, [bytes[0]], rest, z);
      assert [bytes[0]] + rest == bytes;
      PollServesFrames(first.demux, first.device, rest, clock, k + first.frames, bufSize, z);
      PartsPolled(first, PollBytes(first.demux, first.device, rest, clock, k + first.frames, bufSize, z));
      assert Run(d, bytes, z) == Then(Run(d, [bytes[0]], z), Run(first.demux, rest, z));
    }
  }

  lemma NothingServed(d: Demux.State, s: Device.State, clock: Clock, k: nat, bufSize: nat, z: Sizes)
    ensures Run(d, [], z) == Effect(d, [], []) && Serve(s, [], clock, k, bufSize) == Served(s, [])
    ensures PollBytes(d, s, [], clock, k, bufSize, z) == Polled(d, s, [], [], 0)
  {}

  lemma BytesPolled(d: Demux.State, s: Device.State, bytes: seq<byte>, clock: Clock, k: nat, bufSize: nat, z: Sizes)
    requires bytes != []
    ensures var first := PollByte(d, s, bytes[0], clock(k), bufSize, z);
      PollBytes(d, s, bytes, clock, k, bufSize, z) ==
        AfterPolled(first, PollBytes(first.demux, first.device, bytes[1..], clock, k + first.frames, bufSize, z))
  {
    hide PollByte, AfterPolled;
  }

  /** One byte serves the frame it completes, in front of those still to come. */
  lemma BytePolled(d: Demux.State, s: Device.State, b: byte, frames: seq<seq<byte>>,
                   clock: Clock, k: nat, bufSize: nat, z: Sizes)
    ensures var e, first := Run(d, [b], z), PollByte(d, s, b, clock(k), bufSize, z);
      var rest := Serve(first.device, frames, clock, k + first.frames, bufSize);
      first.demux == e.after && first.lines == e.lines && first.frames == |e.frames| &&
      Serve(s, e.frames + frames, clock, k, bufSize) == Served(rest.device, first.out + rest.out)
  {
    hide Run, Answer, Demux.Feed, Serve;
    RunByte(d, b, z);
    FirstServed(s, frames, Run(d, [b], z).frames, clock, k, bufSize);
    var e, first := Run(d, [b], z), PollByte(d, s, b, clock(k), bufSize, z);
    var ev := Demux.Feed(d, b, z.frameMax, z.lineMax).1;
    assert e.frames == (if ev.FrameEvent? then [ev.payload] else []);
    assert first.frames == if ev.FrameEvent? then 1 else 0;
    if e.frames == [] {
      assert first.device == s && first.out == [];
      assert [] + Serve(s, frames, clock, k, bufSize).out == Serve(s, frames, clock, k, bufSize).out;
    } else {
      assert Answer(s, e.frames[0], clock(k), bufSize) == Served(first.device, first.out);
    }
  }

  lemma FirstServed(s: Device.State, frames: seq<seq<byte>>, head: seq<seq<byte>>,
                    clock: Clock, k: nat, bufSize: nat)
    requires |head| <= 1
    ensures head == [] ==> Serve(s, head + frames, clock, k, bufSize) == Serve(s, frames, clock, k, bufSize)
    ensures head != [] ==>
      var first := Answer(s, head[0], clock(k), bufSize);
      var rest := Serve(first.device, frames, clock, k + 1, bufSize);
      Serve(s, head + frames, clock, k, bufSize) == Served(rest.device, first.out + rest.out)
  {
    hide Answer;
    if head == [] {
      assert head + frames == frames;
    } else {
      assert (head + frames)[1..] == frames;
    }
  }

  /**
   Text and frames sent by a host, in any mixture: each request is answered once and in
   order, each line reaches the text hook, and the demultiplexer is back in TEXT.
   */
  lemma PollServesHost(d: Demux.State, s: Device.State, segments: seq<Segment>, clock: Clock, bufSize: nat)
    requires !d.inFrame && d.collected == [] && Deliverable(segments, ServerSizes(bufSize))
    ensures var served := Serve(s, Payloads(segments), clock, 0, bufSize);
      PollBytes(d, s, Wire(segments), clock, 0, bufSize, ServerSizes(bufSize)) ==
        Polled(d.(text := Lines.After(d.text, PlainText(segments), 64)), served.device, served.out,
               Lines.Emitted(d.text, PlainText(segments), 64), |Payloads(segments)|)
  {
    hide Run, PollBytes, Serve, Wire;
    FramesAndTextSeparate(d, segments, ServerSizes(bufSize));
    PollServesFrames(d, s, Wire(segments), clock, 0, bufSize, ServerSizes(bufSize));
  }

  /** Every payload of up to BufSize bytes has a frame that the device can receive. */
  lemma PayloadsFit(p: seq<byte>, bufSize: nat)
    requires |p| <= bufSize
    ensures |Body(p)| <= ServerSizes(bufSize).frameMax
  {
    FrameFits(p);
  }

  // --- and back to the host ----------------------------------------------

  function Responses(s: Device.State, payloads: seq<seq<byte>>, clock: Clock, k: nat, bufSize: nat): seq<seq<byte>>
    decreases |payloads|
  {
    if payloads == [] then []
    else
      var (s', response) := HandleFrame(s, payloads[0], clock(k), bufSize);
      (if response.Some? then [response.value] else []) + Responses(s', payloads[1..], clock, k + 1, bufSize)
  }

  lemma ResponseBounded(s: Device.State, payload: seq<byte>, now: nat, bufSize: nat)
    ensures var r := HandleFrame(s, payload, now, bufSize).1;
      r.Some? ==> |r.value| <= bufSize
  {
    hide Dispatch, ParseMessage, ErrorResponse, ResponseHeader;
  }

  /**
   A host whose buffer takes the device's largest frame receives exactly the responses, in
   order, unless what it had collected before is itself a valid frame; a host that stood
   between frames does so again.
   */
  lemma {:induction false} HostReceives(h: Demux.State, s: Device.State, payloads: seq<seq<byte>>,
                                        clock: Clock, k: nat, bufSize: nat, z: Sizes)
    requires Clear(h) && ServerSizes(bufSize).frameMax <= z.frameMax
    ensures var e := Run(h, Serve(s, payloads, clock, k, bufSize).out, z);
      e.frames == Responses(s, payloads, clock, k, bufSize) && e.lines == [] && Clear(e.after) &&
      (!h.inFrame && h.collected == [] ==> !e.after.inFrame && e.after.collected == [])
    decreases |payloads|
  {
    if payloads == [] {
      RunNothing(h, z);
    } else {
      hide Run, HandleFrame, Frame, Body, Validate;
      var (s', response) := HandleFrame(s, payloads[0], clock(k), bufSize);
      var rest := Serve(s', payloads[1..], clock, k + 1, bufSize).out;
      ResponseBounded(s, payloads[0], clock(k), bufSize);
      if response.Some? {
        PayloadsFit(response.value, bufSize);
        FrameArrives(h, response.value, z);
        HostReceives(Run(h, Frame(response.value), z).after, s', payloads[1..], clock, k + 1, bufSize, z);
        RunConcat(h, Frame(response.value), rest, z);
      } else {
        HostReceives(h, s', payloads[1..], clock, k + 1, bufSize, z);
        assert [] + rest == rest;
      }
    }
  }
}
