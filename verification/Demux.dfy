/** The demultiplexer of framing.h: its step, and the two classes that implement it in place. */
module Demultiplexer {
  import opened Bytes
  import opened Framing
  import opened Lines

  datatype Errors = Errors(crc: nat, cobs: nat, overflow: nat)

  /** `collected` holds the bytes of a frame in progress and is empty between frames. */
  datatype State = State(inFrame: bool, collected: seq<byte>, text: Text, errors: Errors)

  datatype Event = Nothing | TextLine(line: Line) | FrameEvent(payload: seq<byte>)

  function FeedText(s: State, b: byte, lineMax: nat): (State, Event) {
    if b == 0 then (s.(inFrame := true, collected := []), Nothing)
    else
      var (t, line) := Lines.Step(s.text, b, lineMax);
      (s.(text := t), if line.Some? then TextLine(line.value) else Nothing)
  }

  /** A rejected block goes back to the pending line and the collector starts again. */
  function Reject(s: State, block: seq<byte>, errors: Errors, lineMax: nat): State {
    s.(collected := [], text := Append(s.text, block, lineMax), errors := errors)
  }

  function FeedFrame(s: State, b: byte, frameMax: nat, lineMax: nat): (State, Event) {
    if b != 0 then
      if |s.collected| >= frameMax then
        var r := Reject(s, s.collected, s.errors.(overflow := Bump(s.errors.overflow)), lineMax);
        FeedText(r.(inFrame := false), b, lineMax)
      else (s.(collected := s.collected + [b]), Nothing)
    else
      match Validate(s.collected)
      case Empty => (s.(collected := []), Nothing)
      case Ready(p) => (s.(inFrame := false, collected := []), FrameEvent(p))
      case CobsError(t) => (Reject(s, t, s.errors.(cobs := Bump(s.errors.cobs)), lineMax), Nothing)
      case CrcError(t) => (Reject(s, t, s.errors.(crc := Bump(s.errors.crc)), lineMax), Nothing)
  }

  function Feed(s: State, b: byte, frameMax: nat, lineMax: nat): (State, Event) {
    if s.inFrame then FeedFrame(s, b, frameMax, lineMax) else FeedText(s, b, lineMax)
  }

  const INITIAL: State := State(false, [], Text([], false, false), Errors(0, 0, 0))

  datatype DemuxEvent = EvNone | EvTextLine | EvFrame

  class Demux {
    const frameMax: nat
    const lineMax: nat
    var inFrame: bool
    const frameBuf: array<byte>
    var frameLen: nat
    var frameSize: nat
    const lineBuf: array<byte>
    var lineLen: nat
    var lastLineLen: nat
    var lineTruncated: bool
    var lastLineTruncated: bool
    var pendingCr: bool
    var lastWasFrame: bool
    var crcErrors: nat
    var cobsErrors: nat
    var overflowErrors: nat

    ghost predicate Valid()
      reads this, frameBuf, lineBuf
    {
      && frameMax > 0 && lineMax > 0 && frameBuf != lineBuf
      && frameBuf.Length == frameMax && lineBuf.Length == lineMax
      && frameLen <= frameMax && frameSize <= frameMax && lineLen < lineMax && lastLineLen < lineMax
    }

    ghost function Abstract(): State
      requires Valid()
      reads this, frameBuf, lineBuf
    {
      State(inFrame, if inFrame then frameBuf[..frameLen] else [],
            Text(lineBuf[..lineLen], lineTruncated, pendingCr), Errors(crcErrors, cobsErrors, overflowErrors))
    }

    /** What data(), size(), line() and truncated() show after an event. */
    ghost predicate Shows(code: DemuxEvent, ev: Event)
      requires Valid()
      reads this, frameBuf, lineBuf
    {
      match ev
      case Nothing => code == EvNone
      case FrameEvent(p) => code == EvFrame && lastWasFrame && frameBuf[..frameSize] == p
      case TextLine(l) =>
        code == EvTextLine && !lastWasFrame && lastLineTruncated == l.truncated &&
        lineBuf[..lastLineLen] == l.text && lineBuf[lastLineLen] == 0
    }

    constructor (frameMax: nat, lineMax: nat)
      requires frameMax > 0 && lineMax > 0
      ensures Valid() && Abstract() == INITIAL
      ensures this.frameMax == frameMax && this.lineMax == lineMax
      ensures fresh(frameBuf) && fresh(lineBuf)
    {
      this.frameMax, this.lineMax := frameMax, lineMax;
      frameBuf := new byte[frameMax](_ => 0);
      lineBuf := new byte[lineMax](_ => 0);
      inFrame, frameLen, frameSize := false, 0, 0;
      lineLen, lastLineLen, lineTruncated, lastLineTruncated := 0, 0, false, false;
      pendingCr, lastWasFrame := false, false;
      crcErrors, cobsErrors, overflowErrors := 0, 0, 0;
    }

    /** Back to TEXT with nothing pending; the error counters stay. */
    method Reset()
      requires Valid()
      modifies this, lineBuf
      ensures Valid() && Abstract() == State(false, [], Text([], false, false), old(Abstract().errors))
    {
      lineBuf[0] := 0;
      inFrame, frameLen, frameSize := false, 0, 0;
      lineLen, lastLineLen, lineTruncated, lastLineTruncated := 0, 0, false, false;
      pendingCr, lastWasFrame := false, false;
    }

    method FeedByte(b: byte) returns (ev: DemuxEvent)
      requires Valid()
      modifies this, frameBuf, lineBuf
      ensures Valid() && Abstract() == Feed(old(Abstract()), b, frameMax, lineMax).0
      ensures Shows(ev, Feed(old(Abstract()), b, frameMax, lineMax).1)
    {
      if !inFrame {
        ev := FeedTextByte(b);
      } else {
        ev := FeedFrameByte(b);
      }
    }

    method FeedTextByte(b: byte) returns (ev: DemuxEvent)
      requires Valid() && !inFrame
      modifies this, lineBuf
      ensures Valid() && Abstract() == FeedText(old(Abstract()), b, lineMax).0
      ensures Shows(ev, FeedText(old(Abstract()), b, lineMax).1)
    {
      if b == 0 {
        inFrame := true;
        frameLen := 0;
        return EvNone;
      }
      if b == CR {
        ev := EmitLine();
        pendingCr := true;
        return ev;
      }
      if b == LF {
        if pendingCr {
          pendingCr := false;
          return EvNone;
        }
        ev := EmitLine();
        return ev;
      }
      pendingCr := false;
      AppendLineByte(b);
      return EvNone;
    }

    method FeedFrameByte(b: byte) returns (ev: DemuxEvent)
      requires Valid() && inFrame
      modifies this, frameBuf, lineBuf
      ensures Valid() && Abstract() == FeedFrame(old(Abstract()), b, frameMax, lineMax).0
      ensures Shows(ev, FeedFrame(old(Abstract()), b, frameMax, lineMax).1)
    {
      hide Validate, Append, FeedFrame;
      if b != 0 {
        ev := Collect(b);
      } else {
        ev := EndFrame();
      }
    }

    /** A byte inside a frame. */
    method Collect(b: byte) returns (ev: DemuxEvent)
      requires Valid() && inFrame && b != 0
      modifies this, frameBuf, lineBuf
      ensures Valid() && Abstract() == FeedFrame(old(Abstract()), b, frameMax, lineMax).0
      ensures Shows(ev, FeedFrame(old(Abstract()), b, frameMax, lineMax).1)
    {
      hide Validate, Append, FeedText;
      if frameLen >= frameMax {
        overflowErrors := Bump(overflowErrors);
        PushBackFrameAsText(frameLen);
        inFrame := false;
        frameLen := 0;
        ev := FeedTextByte(b);
        return ev;
      }
      frameBuf[frameLen] := b;
      frameLen := frameLen + 1;
      assert frameBuf[..frameLen] == old(frameBuf[..frameLen]) + [b];
      return EvNone;
    }

    /** The delimiter that ends a frame. */
    method EndFrame() returns (ev: DemuxEvent)
      requires Valid() && inFrame
      modifies this, frameBuf, lineBuf
      ensures Valid() && Abstract() == FeedFrame(old(Abstract()), 0, frameMax, lineMax).0
      ensures Shows(ev, FeedFrame(old(Abstract()), 0, frameMax, lineMax).1)
    {
      hide Validate, Append, FeedText;
      var outcome, outLen := DecodeAndValidateFrame(frameBuf, frameLen, frameMax);
      match outcome {
        case OutEmpty =>
          frameLen := 0;
          return EvNone;
        case OutReady =>
          frameSize := outLen;
          lastWasFrame := true;
          inFrame := false;
          return EvFrame;
        case OutCobsError =>
          cobsErrors := Bump(cobsErrors);
        case OutCrcError =>
          crcErrors := Bump(crcErrors);
      }
      PushBackFrameAsText(outLen);
      frameLen := 0;
      return EvNone;
    }

    method AppendLineByte(b: byte)
      requires Valid()
      modifies this`lineTruncated, this`lineLen, lineBuf
      ensures Valid()
      ensures Text(lineBuf[..lineLen], lineTruncated, pendingCr)
           == old(AppendByte(Text(lineBuf[..lineLen], lineTruncated, pendingCr), b, lineMax))
    {
      if lineLen + 1 >= lineMax {
        lineTruncated := true;
        return;
      }
      lineBuf[lineLen] := b;
      lineLen := lineLen + 1;
      assert lineBuf[..lineLen] == old(lineBuf[..lineLen]) + [b];
    }

    method EmitLine() returns (ev: DemuxEvent)
      requires Valid()
      modifies this`lineLen, this`lastLineLen, this`lineTruncated, this`lastLineTruncated, this`lastWasFrame, lineBuf
      ensures Valid() && lineLen == 0 && !lineTruncated
      ensures Shows(ev, TextLine(Line(old(lineBuf[..lineLen]), old(lineTruncated))))
    {
      lineBuf[lineLen] := 0;
      lastLineLen := lineLen;
      lastLineTruncated := lineTruncated;
      lineLen := 0;
      lineTruncated := false;
      lastWasFrame := false;
      return EvTextLine;
    }

    method PushBackFrameAsText(len: nat)
      requires Valid() && len <= frameMax
      modifies this`lineTruncated, this`lineLen, lineBuf
      ensures Valid()
      ensures Text(lineBuf[..lineLen], lineTruncated, pendingCr)
           == old(Append(Text(lineBuf[..lineLen], lineTruncated, pendingCr), frameBuf[..len], lineMax))
    {
      ghost var start, block := Text(lineBuf[..lineLen], lineTruncated, pendingCr), frameBuf[..len];
      var i := 0;
      while i < len
        invariant i <= len && Valid()
        invariant frameBuf[..len] == block
        invariant Append(start, block, lineMax)
               == Append(Text(lineBuf[..lineLen], lineTruncated, pendingCr), block[i..], lineMax)
      {
        assert block[i..][1..] == block[i + 1..];
        AppendLineByte(frameBuf[i]);
        i := i + 1;
      }
    }
  }

  // --- Demux<FrameMax, 0> ------------------------------------------------

  /** State of the variant that keeps no text. */
  datatype FrameState = FrameState(inFrame: bool, collected: seq<byte>, errors: Errors)

  function FeedFrameOnly(s: FrameState, b: byte, frameMax: nat): (FrameState, Option<seq<byte>>) {
    if !s.inFrame then (if b == 0 then FrameState(true, [], s.errors) else s, None)
    else if b != 0 then
      if |s.collected| >= frameMax then
        (FrameState(false, [], s.errors.(overflow := Bump(s.errors.overflow))), None)
      else (s.(collected := s.collected + [b]), None)
    else
      match Validate(s.collected)
      case Empty => (s.(collected := []), None)
      case Ready(p) => (FrameState(false, [], s.errors), Some(p))
      case CobsError(_) => (FrameState(true, [], s.errors.(cobs := Bump(s.errors.cobs))), None)
      case CrcError(_) => (FrameState(true, [], s.errors.(crc := Bump(s.errors.crc))), None)
  }

  class FrameOnlyDemux {
    const frameMax: nat
    var inFrame: bool
    const frameBuf: array<byte>
    var frameLen: nat
    var frameSize: nat
    var crcErrors: nat
    var cobsErrors: nat
    var overflowErrors: nat

    ghost predicate Valid()
      reads this, frameBuf
    {
      frameMax > 0 && frameBuf.Length == frameMax && frameLen <= frameMax && frameSize <= frameMax
    }

    ghost function Abstract(): FrameState
      requires Valid()
      reads this, frameBuf
    {
      FrameState(inFrame, if inFrame then frameBuf[..frameLen] else [],
                 Errors(crcErrors, cobsErrors, overflowErrors))
    }

    constructor (frameMax: nat)
      requires frameMax > 0
      ensures Valid() && Abstract() == FrameState(false, [], Errors(0, 0, 0))
      ensures this.frameMax == frameMax && fresh(frameBuf)
    {
      this.frameMax := frameMax;
      frameBuf := new byte[frameMax](_ => 0);
      inFrame, frameLen, frameSize := false, 0, 0;
      crcErrors, cobsErrors, overflowErrors := 0, 0, 0;
    }

    method FeedByte(b: byte) returns (ev: DemuxEvent)
      requires Valid()
      modifies this, frameBuf
      ensures Valid() && Abstract() == FeedFrameOnly(old(Abstract()), b, frameMax).0
      ensures var out := FeedFrameOnly(old(Abstract()), b, frameMax).1;
        if out.Some? then ev == EvFrame && frameBuf[..frameSize] == out.value else ev == EvNone
    {
      hide Validate;
      if !inFrame {
        FeedTextByte(b);
        return EvNone;
      }
      if b != 0 {
        if frameLen >= frameMax {
          overflowErrors := Bump(overflowErrors);
          inFrame := false;
          frameLen := 0;
          FeedTextByte(b);
          return EvNone;
        }
        frameBuf[frameLen] := b;
        frameLen := frameLen + 1;
        assert frameBuf[..frameLen] == old(frameBuf[..frameLen]) + [b];
        return EvNone;
      }
      var outcome, outLen := DecodeAndValidateFrame(frameBuf, frameLen, frameMax);
      match outcome {
        case OutEmpty =>
          frameLen := 0;
          return EvNone;
        case OutReady =>
          frameSize := outLen;
          inFrame := false;
          return EvFrame;
        case OutCobsError =>
          cobsErrors := Bump(cobsErrors);
        case OutCrcError =>
          crcErrors := Bump(crcErrors);
      }
      frameLen := 0;
      return EvNone;
    }

    method FeedTextByte(b: byte)
      requires Valid() && !inFrame
      modifies this`inFrame, this`frameLen
      ensures Valid() && inFrame == (b == 0) && (inFrame ==> frameLen == 0)
    {
      if b == 0 {
        inFrame := true;
        frameLen := 0;
      }
    }
  }
}
