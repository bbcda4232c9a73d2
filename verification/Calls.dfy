/** A call waiting on the host for its answer, and the whole path of a call through bytes. */
module Calls {
  import opened Bytes
  import opened Framing
  import opened MsgPack
  import opened Values
  import opened Device
  import opened Messages
  import opened Host
  import opened RpcList
  import opened RpcListHost
  import opened Service
  import opened DemuxLaws
  import Demux = Demultiplexer
  import Cobs
  import DeviceRuns
  import Exchange

  /** The client after some bytes; an exception out of a frame abandons the bytes behind it. */
  datatype Pumped = Pumped(demux: Demux.State, client: Client, threw: bool)

  function PumpByte(d: Demux.State, c: Client, b: byte, z: Sizes): Pumped {
    var (d', ev) := Demux.Feed(d, b, z.frameMax, z.lineMax);
    if ev.FrameEvent? then
      var m := ParseIncoming(ev.payload);
      Pumped(d', Host.Take(c, m), m.Throws?)
    else Pumped(d', c, false)
  }

  function PumpBytes(d: Demux.State, c: Client, bytes: seq<byte>, z: Sizes): Pumped
    decreases |bytes|
  {
    if bytes == [] then Pumped(d, c, false)
    else
      var p := PumpByte(d, c, bytes[0], z);
      if p.threw then p else PumpBytes(p.demux, p.client, bytes[1..], z)
  }

  /**
   How a call ends: Thrown is the ProtocolError of a frame that does not decode, PortFailed the
   IoError of a read or write that fails.
   */
  datatype Ending = Returned(value: Value) | RemoteError(error: Value) | TimedOut | Thrown | PortFailed

  function EndingOf(a: Answer): Ending {
    if a.isError then RemoteError(a.value) else Returned(a.value)
  }

  /** A waiting call, given what each read brings until its time is up. */
  function Await(d: Demux.State, c: Client, chunks: seq<seq<byte>>, z: Sizes): (Pumped, Ending)
    decreases |chunks|
  {
    if chunks == [] then (Pumped(d, c, false), TimedOut)
    else
      var p := PumpBytes(d, c, chunks[0], z);
      if p.threw then (p, Thrown)
      else if p.client.waiting.Some? && p.client.waiting.value.answer.Some? then
        (p, EndingOf(p.client.waiting.value.answer.value))
      else Await(p.demux, p.client, chunks[1..], z)
  }

  lemma AwaitNext(d: Demux.State, c: Client, chunks: seq<seq<byte>>, z: Sizes)
    requires chunks != []
    ensures var p := PumpBytes(d, c, chunks[0], z);
      Await(d, c, chunks, z) ==
        if p.threw then (p, Thrown)
        else if p.client.waiting.Some? && p.client.waiting.value.answer.Some? then
          (p, EndingOf(p.client.waiting.value.answer.value))
        else Await(p.demux, p.client, chunks[1..], z)
  {
    hide PumpBytes;
  }

  lemma AwaitNothing(d: Demux.State, c: Client, z: Sizes)
    ensures Await(d, c, [], z) == (Pumped(d, c, false), TimedOut)
  {}

  // --- pumping is demultiplexing, then hearing each frame ----------------

  function Hear(c: Client, frames: seq<seq<byte>>): (Client, bool)
    decreases |frames|
  {
    if frames == [] then (c, false)
    else
      var m := ParseIncoming(frames[0]);
      if m.Throws? then (c, true) else Hear(Host.Take(c, m), frames[1..])
  }

  lemma {:induction false} PumpHears(d: Demux.State, c: Client, bytes: seq<byte>, z: Sizes)
    ensures var e, p := Run(d, bytes, z), PumpBytes(d, c, bytes, z);
      (p.client, p.threw) == Hear(c, e.frames) && (!p.threw ==> p.demux == e.after)
    decreases |bytes|
  {
    if bytes != [] {
      var first, rest := PumpByte(d, c, bytes[0], z), bytes[1..];
      RunByte(d, bytes[0], z);
      RunConcat(d, [bytes[0]], rest, z);
      assert bytes == [bytes[0]] + rest;
      HearFirst(c, Run(d, [bytes[0]], z).frames, Run(first.demux, rest, z).frames);
      if !first.threw {
        PumpHears(first.demux, first.client, rest, z);
      }
      hide Run, Hear, ParseIncoming, Demux.Feed, Host.Take;
    }
  }

  lemma HearFirst(c: Client, head: seq<seq<byte>>, frames: seq<seq<byte>>)
    requires |head| <= 1
    ensures head == [] ==> Hear(c, head + frames) == Hear(c, frames)
    ensures head != [] ==>
      var m := ParseIncoming(head[0]);
      Hear(c, head + frames) == if m.Throws? then (c, true) else Hear(Host.Take(c, m), frames)
  {
    hide ParseIncoming, Host.Take;
    if head == [] {
      assert head + frames == frames;
    } else {
      assert (head + frames)[1..] == frames;
    }
  }

  /** What an incoming frame is to a host that waits for the id, if for any. */
  datatype Kind = Noise | LogLine | OtherNotice | OwnReply | StrayReply | Undecodable

  function KindOf(frame: seq<byte>, awaited: Option<nat>): Kind {
    match ParseIncoming(frame)
    case Garbled => Noise
    case Throws => Undecodable
    case Notice(name, _) => if name == DeviceRuns.LOG then LogLine else OtherNotice
    case Reply(id, _, _) => if awaited == Some(id) then OwnReply else StrayReply
  }

  function Tally(frames: seq<seq<byte>>, awaited: Option<nat>, kind: Kind): nat {
    if frames == [] then 0
    else (if KindOf(frames[0], awaited) == kind then 1 else 0) + Tally(frames[1..], awaited, kind)
  }

  function Awaited(c: Client): Option<nat> {
    if c.waiting.None? then None else Some(c.waiting.value.msgid)
  }

  /** Every frame heard is counted under its kind and no other, and only an own reply answers. */
  lemma {:induction false} HearTallies(c: Client, frames: seq<seq<byte>>)
    requires !Hear(c, frames).1
    ensures var h, id := Hear(c, frames).0, Awaited(c);
      Awaited(h) == id && h.nextId == c.nextId && Tally(frames, id, Undecodable) == 0 &&
      h.stats == Stats(c.stats.notices + Tally(frames, id, OtherNotice), c.stats.logs + Tally(frames, id, LogLine),
                       c.stats.strays + Tally(frames, id, StrayReply), c.stats.malformed + Tally(frames, id, Noise)) &&
      (Tally(frames, id, OwnReply) == 0 ==> h.waiting == c.waiting)
    decreases |frames|
  {
    hide ParseIncoming;
    if frames != [] {
      HearTallies(Host.Take(c, ParseIncoming(frames[0])), frames[1..]);
    }
  }

  function Flatten(chunks: seq<seq<byte>>): seq<byte> {
    if chunks == [] then [] else chunks[0] + Flatten(chunks[1..])
  }

  // --- one reply among other frames --------------------------------------

  /** A frame that neither throws nor answers the request: a stray, a notice, a log line, noise. */
  predicate Quiet(frame: seq<byte>, msgid: nat) {
    var m := ParseIncoming(frame);
    !m.Throws? && !(m.Reply? && m.msgid == msgid)
  }

  predicate AllQuiet(frames: seq<seq<byte>>, msgid: nat) {
    forall i :: 0 <= i < |frames| ==> Quiet(frames[i], msgid)
  }

  /** Frame `k` answers the request, and no other frame throws or answers it. */
  predicate OneAnswer(frames: seq<seq<byte>>, k: nat, msgid: nat, a: Answer) {
    && k < |frames| && ParseIncoming(frames[k]) == Reply(msgid, a.isError, a.value)
    && AllQuiet(frames[..k], msgid) && AllQuiet(frames[k + 1..], msgid)
  }

  lemma {:induction false} HearQuiet(c: Client, frames: seq<seq<byte>>)
    requires c.waiting.Some? && AllQuiet(frames, c.waiting.value.msgid)
    ensures !Hear(c, frames).1 && Hear(c, frames).0.waiting == c.waiting
    decreases |frames|
  {
    hide ParseIncoming;
    if frames != [] {
      assert Quiet(frames[0], c.waiting.value.msgid);
      assert forall i :: 0 <= i < |frames[1..]| ==> frames[1..][i] == frames[i + 1];
      HearQuiet(Host.Take(c, ParseIncoming(frames[0])), frames[1..]);
    }
  }

  lemma {:induction false} HearAnswer(c: Client, frames: seq<seq<byte>>, k: nat, a: Answer)
    requires c.waiting.Some? && OneAnswer(frames, k, c.waiting.value.msgid, a)
    ensures !Hear(c, frames).1
    ensures Hear(c, frames).0.waiting == Some(Waiting(c.waiting.value.msgid, Some(a)))
    decreases |frames|
  {
    hide ParseIncoming;
    var id, c' := c.waiting.value.msgid, Host.Take(c, ParseIncoming(frames[0]));
    if k == 0 {
      HearQuiet(c', frames[1..]);
    } else {
      assert Quiet(frames[..k][0], id);
      OneAnswerLater(frames, k, id, a);
      HearAnswer(c', frames[1..], k - 1, a);
    }
  }

  lemma OneAnswerLater(frames: seq<seq<byte>>, k: nat, msgid: nat, a: Answer)
    requires k > 0 && OneAnswer(frames, k, msgid, a)
    ensures OneAnswer(frames[1..], k - 1, msgid, a)
  {
    hide ParseIncoming;
    var head := frames[..k];
    assert frames[1..][..k - 1] == head[1..] && forall i :: 0 <= i < |head[1..]| ==> head[1..][i] == head[i + 1];
    assert frames[1..][k..] == frames[k + 1..];
  }

  /** The answer lies in the first part of the frames, or the first part is quiet and the rest has it. */
  lemma OneAnswerSplits(head: seq<seq<byte>>, tail: seq<seq<byte>>, k: nat, msgid: nat, a: Answer)
    requires OneAnswer(head + tail, k, msgid, a)
    ensures k < |head| ==> OneAnswer(head, k, msgid, a)
    ensures k >= |head| ==> AllQuiet(head, msgid) && OneAnswer(tail, k - |head|, msgid, a)
  {
    hide ParseIncoming, Quiet;
    var frames := head + tail;
    assert forall i :: 0 <= i < k ==> frames[i] == frames[..k][i];
    assert forall i :: k < i < |frames| ==> frames[i] == frames[k + 1..][i - k - 1];
    if k < |head| {
      assert forall i :: 0 <= i < |head| ==> head[i] == frames[i];
    } else {
      assert forall i :: 0 <= i < |head| ==> head[i] == frames[..k][i];
      assert forall i :: 0 <= i < |tail| ==> tail[i] == frames[|head| + i];
    }
  }

  /**
   However the bytes are spread over reads, and whatever strays, notices and noise come
   before or after it, the reply to the waiting request ends the call.
   */
  lemma {:induction false} AwaitFinds(d: Demux.State, c: Client, chunks: seq<seq<byte>>, z: Sizes, k: nat, a: Answer)
    requires c.waiting.Some? && c.waiting.value.answer.None?
    requires OneAnswer(Run(d, Flatten(chunks), z).frames, k, c.waiting.value.msgid, a)
    ensures Await(d, c, chunks, z).1 == EndingOf(a)
    decreases |chunks|
  {
    hide Run, ParseIncoming, PumpBytes, Hear, AllQuiet, Await;
    if chunks == [] {
      RunNothing(d, z);
      assert false;
    } else {
      hide OneAnswer;
      var rest, first := Flatten(chunks[1..]), Run(d, chunks[0], z);
      RunConcat(d, chunks[0], rest, z);
      PumpHears(d, c, chunks[0], z);
      AwaitNext(d, c, chunks, z);
      OneAnswerSplits(first.frames, Run(first.after, rest, z).frames, k, c.waiting.value.msgid, a);
      if k < |first.frames| {
        HearAnswer(c, first.frames, k, a);
      } else {
        HearQuiet(c, first.frames);
        AwaitFinds(first.after, Hear(c, first.frames).0, chunks[1..], z, k - |first.frames|, a);
      }
    }
  }

  /** Frame `k` throws, and no frame before it throws or answers the request. */
  predicate FirstThrow(frames: seq<seq<byte>>, k: nat, msgid: nat) {
    k < |frames| && ParseIncoming(frames[k]).Throws? && AllQuiet(frames[..k], msgid)
  }

  lemma {:induction false} HearThrow(c: Client, frames: seq<seq<byte>>, k: nat)
    requires c.waiting.Some? && FirstThrow(frames, k, c.waiting.value.msgid)
    ensures Hear(c, frames).1
    decreases |frames|
  {
    hide ParseIncoming;
    if k > 0 {
      var head := frames[..k];
      assert Quiet(head[0], c.waiting.value.msgid);
      assert frames[1..][..k - 1] == head[1..] && forall i :: 0 <= i < |head[1..]| ==> head[1..][i] == head[i + 1];
      HearThrow(Host.Take(c, ParseIncoming(frames[0])), frames[1..], k - 1);
    }
  }

  lemma FirstThrowSplits(head: seq<seq<byte>>, tail: seq<seq<byte>>, k: nat, msgid: nat)
    requires FirstThrow(head + tail, k, msgid)
    ensures k < |head| ==> FirstThrow(head, k, msgid)
    ensures k >= |head| ==> AllQuiet(head, msgid) && FirstThrow(tail, k - |head|, msgid)
  {
    hide ParseIncoming, Quiet;
    var frames := head + tail;
    assert forall i :: 0 <= i < k ==> frames[i] == frames[..k][i];
    if k < |head| {
      assert frames[..k] == head[..k];
    } else {
      assert frames[..k] == head + tail[..k - |head|];
      assert forall i :: 0 <= i < |head| ==> head[i] == frames[..k][i];
      assert forall i :: 0 <= i < k - |head| ==> tail[i] == frames[|head| + i];
    }
  }

  /** A frame that does not decode ends the call with an exception, whatever else arrives. */
  lemma {:induction false} AwaitThrows(d: Demux.State, c: Client, chunks: seq<seq<byte>>, z: Sizes, k: nat)
    requires c.waiting.Some? && c.waiting.value.answer.None?
    requires FirstThrow(Run(d, Flatten(chunks), z).frames, k, c.waiting.value.msgid)
    ensures Await(d, c, chunks, z).1 == Thrown
    decreases |chunks|
  {
    hide Run, ParseIncoming, PumpBytes, Hear, AllQuiet, Await;
    if chunks == [] {
      RunNothing(d, z);
      assert false;
    } else {
      hide FirstThrow;
      var rest, first := Flatten(chunks[1..]), Run(d, chunks[0], z);
      RunConcat(d, chunks[0], rest, z);
      PumpHears(d, c, chunks[0], z);
      AwaitNext(d, c, chunks, z);
      FirstThrowSplits(first.frames, Run(first.after, rest, z).frames, k, c.waiting.value.msgid);
      if k < |first.frames| {
        HearThrow(c, first.frames, k);
      } else {
        HearQuiet(c, first.frames);
        AwaitThrows(first.after, Hear(c, first.frames).0, chunks[1..], z, k - |first.frames|);
      }
    }
  }

  /** A call that no frame answers waits until its time is up, whatever else arrives. */
  lemma {:induction false} AwaitTimesOut(d: Demux.State, c: Client, chunks: seq<seq<byte>>, z: Sizes)
    requires c.waiting.Some? && c.waiting.value.answer.None?
    requires AllQuiet(Run(d, Flatten(chunks), z).frames, c.waiting.value.msgid)
    ensures Await(d, c, chunks, z).1 == TimedOut
    decreases |chunks|
  {
    if chunks != [] {
      hide Run, ParseIncoming, PumpBytes, Hear, AllQuiet;
      var rest, first := Flatten(chunks[1..]), Run(d, chunks[0], z);
      RunConcat(d, chunks[0], rest, z);
      PumpHears(d, c, chunks[0], z);
      QuietSplits(first.frames, Run(first.after, rest, z).frames, c.waiting.value.msgid);
      HearQuiet(c, first.frames);
      AwaitTimesOut(first.after, Hear(c, first.frames).0, chunks[1..], z);
    }
  }

  lemma QuietSplits(head: seq<seq<byte>>, tail: seq<seq<byte>>, msgid: nat)
    ensures AllQuiet(head + tail, msgid) <==> AllQuiet(head, msgid) && AllQuiet(tail, msgid)
  {
    hide Quiet;
    var frames := head + tail;
    assert forall i :: 0 <= i < |head| ==> head[i] == frames[i];
    assert forall i :: 0 <= i < |tail| ==> tail[i] == frames[|head| + i];
  }

  // --- a call, from bytes to bytes ---------------------------------------

  /** How a call ends whose outcome at the device was `o`. */
  function Concluded(msgid: nat, o: Outcome, bufSize: nat): Ending
    requires msgid <= U32
  {
    if !Fits(msgid, o, bufSize) then RemoteError(Str(TOO_LARGE))
    else
      match o
      case Failed(message) => RemoteError(Str(message))
      case Wrote(r) =>
        if r == [] then Returned(Null)
        else if Decode(r, 0).None? then Thrown
        else Returned(Decode(r, 0).value.value)
  }

  /** Bytes in which the host hears nothing of note, and behind which a frame can be received. */
  predicate Uneventful(d: Demux.State, bytes: seq<byte>, msgid: nat, z: Sizes) {
    var e := Run(d, bytes, z);
    Clear(e.after) && AllQuiet(e.frames, msgid)
  }

  /**
   A call on its way: what host and device have collected so far, the client that waits, the
   device, its clock, and the pieces in which the host reads the device's output with the
   bytes before and after it.
   */
  datatype Trip = Trip(host: Demux.State, client: Client, device: Demux.State, moment: Exchange.Moment, clock: Clock,
                       before: seq<byte>, later: seq<byte>, chunks: seq<seq<byte>>)

  /** What the device writes when it polls the request frame. */
  function Output(t: Trip, name: seq<byte>, args: seq<Value>, bufSize: nat): seq<byte>
    requires t.moment.msgid <= U32 && Messages.Sendable(args)
  {
    var request := Frame(RequestPayload(t.moment.msgid, name, args));
    PollBytes(t.device, t.moment.device, request, t.clock, 0, bufSize, ServerSizes(bufSize)).out
  }

  /**
   The request fits, the host waits for its id, and what comes before and after the output
   neither throws nor answers it. What either end has collected when a frame reaches it may be
   anything but a valid frame.
   */
  ghost predicate UnderWay(t: Trip, name: seq<byte>, args: seq<Value>, bufSize: nat, z: Sizes) {
    && ServerSizes(bufSize).frameMax <= z.frameMax && bufSize >= MIN_BUF
    && t.moment.msgid <= U32 && t.moment.now == t.clock(0) && t.client.waiting == Some(Waiting(t.moment.msgid, None))
    && Messages.Sendable(args) && |name| <= U32 && |RequestPayload(t.moment.msgid, name, args)| <= bufSize
    && Clear(t.device) && Uneventful(t.host, t.before, t.moment.msgid, z)
    && var read := t.before + Output(t, name, args, bufSize);
       Flatten(t.chunks) == read + t.later
       && AllQuiet(Run(Run(t.host, read, z).after, t.later, z).frames, t.moment.msgid)
  }

  /**
   The host writes a request frame; the device polls it and writes its output; the host reads
   that output in pieces of any size, behind whatever was still on the line and before
   whatever follows: late replies, notices, log lines, text, noise and damaged frames. The call
   ends with what the device's dispatch made of the arguments, with "response too large" when
   that does not fit, or with an exception exactly when the handler's bytes do not decode.
   */
  lemma CallCompletes(t: Trip, name: seq<byte>, args: seq<Value>, bufSize: nat, z: Sizes)
    requires UnderWay(t, name, args, bufSize, z) && Polite(t.moment.device.handlers)
    ensures var o := Exchange.Served(t.moment, name, args, bufSize);
      (Exchange.Serviceable(t.moment.device) ==> Faithful(o)) &&
      Await(t.host, t.client, t.chunks, z).1 == Concluded(t.moment.msgid, o, bufSize)
  {
    hide Run, PollBytes, HandleFrame, RequestPayload, Frame, Body, Exchange.Served, Exchange.Serviceable, Fits,
      Await, Decode, ParseIncoming, Flatten, OneAnswer, AllQuiet, FirstThrow, Clear, Polite, Faithful;
    var m, id := t.moment, t.moment.msgid;
    var out, o := Output(t, name, args, bufSize), Exchange.Served(m, name, args, bufSize);
    Exchange.CallHeard(m, name, args, bufSize);
    if Exchange.Serviceable(m.device) {
      Exchange.CallAnswered(m, name, args, bufSize);
    }
    var q := HandleFrame(m.device, RequestPayload(id, name, args), m.now, bufSize).1.value;
    OutputHeard(t, name, args, bufSize, z);
    RunConcat(t.host, t.before, out, z);
    RunConcat(t.host, t.before + out, t.later, z);
    var reply := if Fits(id, o, bufSize) then Meaning(id, o) else Reply(id, true, Str(TOO_LARGE));
    var head, tail := Run(t.host, t.before, z).frames, Run(Run(t.host, t.before + out, z).after, t.later, z).frames;
    if reply.Throws? {
      ThrowsFirst(head, q, tail, id);
      AwaitThrows(t.host, t.client, t.chunks, z, |head|);
    } else {
      Surrounded(head, q, tail, id, Answer(reply.isError, reply.value));
      AwaitFinds(t.host, t.client, t.chunks, z, |head|, Answer(reply.isError, reply.value));
    }
  }

  /** The one frame the host hears in the device's output is the response. */
  lemma OutputHeard(t: Trip, name: seq<byte>, args: seq<Value>, bufSize: nat, z: Sizes)
    requires UnderWay(t, name, args, bufSize, z)
    ensures var response :=
        HandleFrame(t.moment.device, RequestPayload(t.moment.msgid, name, args), t.moment.now, bufSize).1;
      response.Some? ==>
        Run(Run(t.host, t.before, z).after, Output(t, name, args, bufSize), z).frames == [response.value]
  {
    hide Run, PollBytes, HandleFrame, RequestPayload, Frame, Body, Flatten, AllQuiet, Clear;
    var p, m := RequestPayload(t.moment.msgid, name, args), t.moment;
    PayloadsFit(p, bufSize);
    FrameArrives(t.device, p, ServerSizes(bufSize));
    PollServesFrames(t.device, m.device, Frame(p), t.clock, 0, bufSize, ServerSizes(bufSize));
    HostReceives(Run(t.host, t.before, z).after, m.device, [p], t.clock, 0, bufSize, z);
    OneResponse(m.device, p, t.clock, bufSize);
  }

  /** A call between fresh ends, with nothing else on the line and one read that brings the output. */
  function Undisturbed(m: Exchange.Moment, c: Client, name: seq<byte>, args: seq<Value>, bufSize: nat): Trip
    requires m.msgid <= U32 && Messages.Sendable(args)
  {
    var t := Trip(Demux.INITIAL, c, Demux.INITIAL, m, (k: nat) => m.now, [], [], []);
    t.(chunks := [Output(t, name, args, bufSize)])
  }

  /** Every call whose request fits can be under way. */
  lemma UndisturbedUnderWay(m: Exchange.Moment, c: Client, name: seq<byte>, args: seq<Value>, bufSize: nat, z: Sizes)
    requires ServerSizes(bufSize).frameMax <= z.frameMax && bufSize >= MIN_BUF
    requires m.msgid <= U32 && c.waiting == Some(Waiting(m.msgid, None))
    requires Messages.Sendable(args) && |name| <= U32 && |RequestPayload(m.msgid, name, args)| <= bufSize
    ensures UnderWay(Undisturbed(m, c, name, args, bufSize), name, args, bufSize, z)
  {
    hide Run, PollBytes, RequestPayload, Frame;
    var t := Undisturbed(m, c, name, args, bufSize);
    var out := Output(t, name, args, bufSize);
    RunNothing(Demux.INITIAL, z);
    RunNothing(Run(Demux.INITIAL, [] + out, z).after, z);
    assert Flatten([out]) == out + Flatten([]) == [] + out + [];
  }

  /** A ping answers with the protocol version, whatever else is on the line. */
  lemma PingCompletes(t: Trip, bufSize: nat, z: Sizes)
    requires UnderWay(t, PING, [], bufSize, z) && Polite(t.moment.device.handlers)
    ensures Await(t.host, t.client, t.chunks, z).1 == Returned(Uint(1))
  {
    hide UnderWay, Await, Run, Decode, EncodeInt, ResponseHeader, Polite;
    CallBasics(t, PING, [], bufSize, z);
    CallCompletes(t, PING, [], bufSize, z);
    Exchange.IntIsWhole(PROTOCOL_VERSION);
    HeaderBound(t.moment.msgid);
    OneByte();
  }

  // --- list(), from bytes to bytes ---------------------------------------

  /** What `list()` makes of a call of `rpc.list`; None is an exception. */
  function PageFrom(e: Ending): Option<seq<Method>> {
    if e.Returned? then ParseList(e.value) else None
  }

  lemma PageArrives(t: Trip, start: nat, bufSize: nat, z: Sizes)
    requires start <= U32 && UnderWay(t, LIST, [Int(start)], bufSize, z) && Exchange.Serviceable(t.moment.device)
    ensures PageFrom(Await(t.host, t.client, t.chunks, z).1) ==
      Fetch(Listing(t.moment.device.handlers), ResultScratch(bufSize), start)
  {
    hide UnderWay, Await, Run, Decode, Page, Listing, Listable, ParseList, ResponseHeader, Exchange.Served,
      Exchange.WellBehaved;
    var o := Exchange.Served(t.moment, LIST, [Int(start)], bufSize);
    CallBasics(t, LIST, [Int(start)], bufSize, z);
    Exchange.ServiceableIsPolite(t.moment.device);
    CallCompletes(t, LIST, [Int(start)], bufSize, z);
    Exchange.ServedList(t.moment, start, bufSize);
    Exchange.PageIsWhole(Listing(t.moment.device.handlers), start, ResultScratch(bufSize));
    HeaderBound(t.moment.msgid);
  }

  lemma CallBasics(t: Trip, name: seq<byte>, args: seq<Value>, bufSize: nat, z: Sizes)
    requires UnderWay(t, name, args, bufSize, z)
    ensures t.moment.msgid <= U32 && bufSize >= MIN_BUF && Messages.Sendable(args)
  {}

  /**
   `list()` against a device whose table stands still, through the bytes of every frame and
   both demultiplexers, with any ids, clock readings, noise and reads: the host obtains the
   whole table in order exactly when each entry fits a page and at most 256 pages are needed.
   */
  lemma ListCompletes(handlers: seq<Handler>, trips: nat -> Trip, bufSize: nat, z: Sizes,
                      fetch: nat -> Option<seq<Method>>)
    requires forall k: nat :: k <= |handlers| ==>
      && trips(k).moment.device.handlers == handlers && UnderWay(trips(k), LIST, [Int(k)], bufSize, z)
      && fetch(k) == PageFrom(Await(trips(k).host, trips(k).client, trips(k).chunks, z).1)
    requires Exchange.Serviceable(trips(0).moment.device) && DistinctNames(handlers)
    ensures var table, scratch := Listing(handlers), ResultScratch(bufSize);
      Collect(fetch, [], MAX_LIST_PAGES) == Some(table) <==>
        (forall i :: 0 <= i < |table| ==> ARRAY_HEADER_LEN + |EncodeMethod(table[i])| <= scratch) &&
        PagesFrom(table, scratch, 0).Some? && PagesFrom(table, scratch, 0).value <= MAX_LIST_PAGES
  {
    hide UnderWay, Await, Fetch, EncodeMethod, Collect, PageFrom, Listable;
    var table, scratch := Listing(handlers), ResultScratch(bufSize);
    forall k: nat | k <= |table|
      ensures fetch(k) == Fetch(table, scratch, k)
    {
      Exchange.AliveServes(trips(0).moment.device, trips(k).moment.device);
      PageArrives(trips(k), k, bufSize, z);
    }
    ListFetched(table, scratch, fetch);
  }

  lemma Surrounded(head: seq<seq<byte>>, q: seq<byte>, tail: seq<seq<byte>>, msgid: nat, a: Answer)
    requires AllQuiet(head, msgid) && AllQuiet(tail, msgid)
    requires ParseIncoming(q) == Reply(msgid, a.isError, a.value)
    ensures OneAnswer(head + [q] + tail, |head|, msgid, a)
  {
    hide ParseIncoming, AllQuiet;
    var frames := head + [q] + tail;
    assert frames[..|head|] == head && frames[|head| + 1..] == tail && frames[|head|] == q;
  }

  lemma ThrowsFirst(head: seq<seq<byte>>, q: seq<byte>, tail: seq<seq<byte>>, msgid: nat)
    requires AllQuiet(head, msgid) && ParseIncoming(q).Throws?
    ensures FirstThrow(head + [q] + tail, |head|, msgid)
  {
    hide ParseIncoming, AllQuiet;
    var frames := head + [q] + tail;
    assert frames[..|head|] == head && frames[|head|] == q;
  }

  lemma OneResponse(s: State, p: seq<byte>, clock: Clock, bufSize: nat)
    ensures var r := HandleFrame(s, p, clock(0), bufSize).1;
      r.Some? ==> Responses(s, [p], clock, 0, bufSize) == [r.value]
  {
    hide HandleFrame;
    assert [p][1..] == [];
  }

  // --- what the device may have sent before ------------------------------

  /** A response to any other request is a stray. */
  lemma OtherResponseQuiet(s: State, payload: seq<byte>, now: nat, bufSize: nat, msgid: nat)
    requires Exchange.Serviceable(s) && bufSize >= MIN_BUF
    requires ParseMessage(payload).Request? && ParseMessage(payload).msgid != msgid
    ensures HandleFrame(s, payload, now, bufSize).1.Some?
    ensures Quiet(HandleFrame(s, payload, now, bufSize).1.value, msgid)
  {
    hide HandleFrame, ParseMessage, ParseIncoming, Exchange.Serviceable, Exchange.OutcomeOf, Slots, SlotsFor, Fits,
      Faithful, Meaning;
    Exchange.RequestAnswered(s, payload, now, bufSize);
    MeaningThrows(ParseMessage(payload).msgid, Exchange.OutcomeOf(s, payload, now, bufSize));
  }

  /** So is a notification of the device, whatever its name, if the host can decode its arguments. */
  lemma NoticeQuiet(name: seq<byte>, args: seq<Value>, msgid: nat)
    requires Messages.Sendable(args) && |name| <= U32 && WithinDepth(Arr(args), 0)
    ensures Quiet(NoticePayload(name, args), msgid)
  {
    hide NoticePayload, ParseIncoming;
    NoticeReads(name, args);
  }

  /** Any mixture of such frames and of text is uneventful. */
  lemma TrafficUneventful(d: Demux.State, segments: seq<Segment>, msgid: nat, z: Sizes)
    requires !d.inFrame && d.collected == [] && Deliverable(segments, z)
    requires forall i :: 0 <= i < |segments| && segments[i].Packet? ==> Quiet(segments[i].payload, msgid)
    ensures Uneventful(d, Wire(segments), msgid, z)
  {
    hide Run, Quiet;
    FramesAndTextSeparate(d, segments, z);
    PayloadsQuiet(segments, msgid);
  }

  /** A frame damaged in one data byte is uneventful too, so the next call completes. */
  lemma DamageUneventful(d: Demux.State, p: seq<byte>, i: nat, b: byte, msgid: nat, z: Sizes)
    requires Clear(d) && |Body(p)| <= z.frameMax
    requires Cobs.IsData(Body(p), i) && b != 0 && b != Body(p)[i]
    ensures Uneventful(d, [0] + (Body(p)[i := b] + [0]), msgid, z)
  {
    hide Run, Body, Cobs.IsData, Quiet;
    DelimiterUneventful(d, msgid, z);
    var open := Run(d, [0], z).after;
    DelimiterOpens(d, z);
    DamagedBody(open, p, i, b, z);
    EmptyIsClear(Run(open, Body(p)[i := b] + [0], z).after);
    UneventfulConcat(d, [0], Body(p)[i := b] + [0], msgid, z);
  }

  lemma DelimiterUneventful(d: Demux.State, msgid: nat, z: Sizes)
    requires Clear(d)
    ensures Uneventful(d, [0], msgid, z)
  {
    hide Run, Quiet;
    DelimiterOpens(d, z);
    EmptyIsClear(Run(d, [0], z).after);
  }

  /** One uneventful stretch after another is uneventful. */
  lemma UneventfulConcat(d: Demux.State, a: seq<byte>, b: seq<byte>, msgid: nat, z: Sizes)
    requires Uneventful(d, a, msgid, z) && Uneventful(Run(d, a, z).after, b, msgid, z)
    ensures Uneventful(d, a + b, msgid, z)
  {
    hide Run, Quiet;
    RunConcat(d, a, b, z);
    QuietSplits(Run(d, a, z).frames, Run(Run(d, a, z).after, b, z).frames, msgid);
  }

  lemma {:induction false} PayloadsQuiet(segments: seq<Segment>, msgid: nat)
    requires forall i :: 0 <= i < |segments| && segments[i].Packet? ==> Quiet(segments[i].payload, msgid)
    ensures AllQuiet(Payloads(segments), msgid)
  {
    hide Quiet;
    if segments != [] {
      assert forall i :: 0 <= i < |segments[1..]| ==> segments[1..][i] == segments[i + 1];
      PayloadsQuiet(segments[1..], msgid);
      var head := match segments[0] case Plain(_) => [] case Packet(p) => [p];
      QuietSplits(head, Payloads(segments[1..]), msgid);
    }
  }
}
