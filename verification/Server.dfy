/** The Server class of server.h, over fixed buffers, proved against the steps of Device. */
module RpcServer {
  import opened Bytes
  import opened Framing
  import opened MsgPack
  import opened MsgPackCodec
  import opened Values
  import opened RpcList
  import opened Device
  import opened Messages
  import opened DeviceRuns
  import opened Service
  import Lines
  import Demultiplexer

  /** Where a handler leaves its result or its error; `rpc.list` fills the buffer directly. */
  class ReplySlot {
    const writer: Writer
    var failure: Option<seq<byte>>
    var rawLen: Option<nat>

    ghost predicate Valid()
      reads this, writer, writer.buf
    {
      && writer.Valid() && writer.base == 0
      && (rawLen.Some? ==> 0 < rawLen.value <= writer.cap && writer.full == [])
    }

    ghost function Left(): Outcome
      requires Valid()
      reads this, writer, writer.buf
    {
      if failure.Some? then Failed(failure.value)
      else if rawLen.Some? then Wrote(writer.buf[..rawLen.value])
      else Wrote(writer.full)
    }

    ghost predicate Untouched()
      reads this, writer, writer.buf
    {
      Valid() && failure.None? && rawLen.None? && writer.full == []
    }

    constructor (writer: Writer)
      requires writer.Valid() && writer.base == 0 && writer.full == []
      ensures Untouched() && this.writer == writer
    {
      this.writer, failure, rawLen := writer, None, None;
    }

    method Error(message: seq<byte>)
      requires Valid()
      modifies this
      ensures Valid() && Left() == Failed(message)
    {
      failure := Some(message);
    }

    method SetRawResult(len: nat)
      requires Untouched() && 0 < len <= writer.cap
      modifies this
      ensures Valid() && Left() == Wrote(writer.buf[..len])
    {
      rawLen := Some(len);
    }
  }

  /** The text hook is given each line as a NUL-terminated string. */
  function Shown(lines: seq<Lines.Line>): (texts: seq<seq<byte>>)
    ensures |texts| == |lines|
    ensures forall i :: 0 <= i < |lines| ==> texts[i] == CString(lines[i].text)
  {
    seq(|lines|, i requires 0 <= i < |lines| => CString(lines[i].text))
  }

  lemma ShownAdds(a: seq<Lines.Line>, b: seq<Lines.Line>)
    ensures Shown(a + b) == Shown(a) + Shown(b)
  {
    hide CString;
  }

  class Server {
    const bufSize: nat
    const maxHandlers: nat
    var handlers: seq<Handler>
    var attached: bool
    var attachHasTimeout: bool
    var attachTimeoutMs: nat
    var lastFrameMs: nat
    var unknownMethodErrors: nat
    var handlerErrors: nat
    var malformedErrors: nat
    var responseOverflowErrors: nat
    const demux: Demultiplexer.Demux
    const payloadBuf: array<byte>
    const txBuf: array<byte>
    var texts: seq<seq<byte>> // strings handed to the on_text callback
    var attachCalls: nat // calls of the on_attach callback
    var detachCalls: nat
    var runs: nat        // handlers run
    var stream: seq<byte> // every byte written to the stream

    ghost predicate Valid()
      reads this
    {
      && RESPONSE_HEADER_MAX <= bufSize <= U32
      && payloadBuf.Length == bufSize && txBuf.Length == FrameMaxSize(bufSize) && payloadBuf != txBuf
      && |handlers| <= U32 && Packable(Listing(handlers)) && Polite(handlers)
    }

    /** The demultiplexer has the server's sizes and buffers of its own. */
    ghost predicate Ready()
      reads this, demux, demux.frameBuf, demux.lineBuf
    {
      && Valid() && demux.Valid()
      && demux.frameMax == ServerSizes(bufSize).frameMax && demux.lineMax == ServerSizes(bufSize).lineMax
      && demux.frameBuf != payloadBuf && demux.frameBuf != txBuf
      && demux.lineBuf != payloadBuf && demux.lineBuf != txBuf
    }

    ghost function Abstract(): State
      reads this
    {
      State(handlers, Link(attached, attachHasTimeout, attachTimeoutMs, lastFrameMs, attachCalls, detachCalls),
            Counters(unknownMethodErrors, handlerErrors, malformedErrors, responseOverflowErrors), runs)
    }

    constructor (bufSize: nat, maxHandlers: nat)
      requires RESPONSE_HEADER_MAX <= bufSize <= U32
      ensures Ready() && Abstract() == FRESH && demux.Abstract() == Demultiplexer.INITIAL
      ensures stream == [] && texts == []
      ensures this.bufSize == bufSize && this.maxHandlers == maxHandlers
      ensures fresh(payloadBuf) && fresh(txBuf) && fresh(demux) && fresh(demux.frameBuf) && fresh(demux.lineBuf)
    {
      this.bufSize, this.maxHandlers := bufSize, maxHandlers;
      demux := new Demultiplexer.Demux(ServerSizes(bufSize).frameMax, ServerSizes(bufSize).lineMax);
      handlers := [];
      attached, attachHasTimeout, attachTimeoutMs, lastFrameMs := false, false, 0, 0;
      unknownMethodErrors, handlerErrors, malformedErrors, responseOverflowErrors := 0, 0, 0, 0;
      payloadBuf := new byte[bufSize](_ => 0);
      txBuf := new byte[FrameMaxSize(bufSize)](_ => 0);
      attachCalls, detachCalls, runs, stream, texts := 0, 0, 0, [], [];
    }

    // --- setup and main loop ---------------------------------------------

    method Begin()
      requires Ready()
      modifies this`attached, this`attachHasTimeout, this`stream, demux, demux.lineBuf
      ensures Ready()
      ensures var (s, out) := Take(old(Abstract()), DeviceRuns.Begin, 0, Limits(bufSize, maxHandlers));
        Abstract() == s && stream == old(stream) + Written(out)
      ensures demux.Abstract() == Demultiplexer.INITIAL.(errors := old(demux.Abstract().errors))
    {
      hide Listing, Packable, Polite;
      demux.Reset();
      attached := false;
      attachHasTimeout := false;
      stream := stream + READY;
    }

    /**
     Drains `input`, the bytes available on the stream, and checks the attach timeout; the clock
     is read as each frame is served and once more at the end.
     */
    method Poll(input: seq<byte>, clock: Clock)
      requires Ready()
      modifies this, payloadBuf, txBuf, demux, demux.frameBuf, demux.lineBuf
      ensures Ready()
      ensures var p :=
          PollBytes(old(demux.Abstract()), old(Abstract()), input, clock, 0, bufSize, ServerSizes(bufSize));
        demux.Abstract() == p.demux && Abstract() == p.device.(link := CheckTimeout(p.device.link, clock(p.frames))) &&
        stream == old(stream) + p.out && texts == old(texts) + Shown(p.lines)
    {
      hide PollBytes, PollByte, AfterPolled, CString, Listing, Packable, Polite;
      ghost var z := ServerSizes(bufSize);
      ghost var goal := PollBytes(demux.Abstract(), Abstract(), input, clock, 0, bufSize, z);
      ghost var sofar := Polled(demux.Abstract(), Abstract(), [], [], 0);
      var i, frames := 0, 0;
      assert input[0..] == input;
      FirstPolled(sofar, goal);
      while i < |input|
        invariant i <= |input| && Ready() && frames == sofar.frames
        invariant demux.Abstract() == sofar.demux && Abstract() == sofar.device
        invariant stream == old(stream) + sofar.out && texts == old(texts) + Shown(sofar.lines)
        invariant goal == AfterPolled(sofar,
          PollBytes(sofar.demux, sofar.device, input[i..], clock, frames, bufSize, z))
      {
        NextPolled(sofar, input[i..], clock, bufSize, z);
        assert input[i..][1..] == input[i + 1..];
        ghost var step := PollByte(sofar.demux, sofar.device, input[i], clock(frames), bufSize, z);
        var served := PollOne(input[i], clock(frames));
        PartsPolled(sofar, step);
        ShownAdds(sofar.lines, step.lines);
        sofar := AfterPolled(sofar, step);
        frames := frames + served;
        i := i + 1;
      }
      assert input[i..] == [];
      NothingPolled(sofar, clock, bufSize, z);
      CheckAttachTimeout(clock(frames));
    }

    /** Tells how many frames the byte completed. */
    method PollOne(b: byte, now: nat) returns (served: nat)
      requires Ready()
      modifies this, payloadBuf, txBuf, demux, demux.frameBuf, demux.lineBuf
      ensures Ready()
      ensures var p := PollByte(old(demux.Abstract()), old(Abstract()), b, now, bufSize, ServerSizes(bufSize));
        demux.Abstract() == p.demux && Abstract() == p.device && served == p.frames &&
        stream == old(stream) + p.out && texts == old(texts) + Shown(p.lines)
    {
      hide Listing, Packable, Polite, Demultiplexer.Feed, Device.HandleFrame, Frame, CString;
      var ev := demux.FeedByte(b);
      match ev {
        case EvFrame =>
          HandleFrame(demux.frameBuf, demux.frameSize, now);
          return 1;
        case EvTextLine =>
          texts := texts + [CString(demux.lineBuf[..demux.lastLineLen])];
          return 0;
        case EvNone =>
          return 0;
      }
    }

    // --- binding ---------------------------------------------------------

    method AddHandler(h: Handler)
      requires Valid() && maxHandlers <= U32
      requires |h.name| <= U32 && |h.signature| <= U32 && Polite([h])
      requires |handlers| <= maxHandlers
      modifies this`handlers, this`responseOverflowErrors
      ensures Valid() && |handlers| <= maxHandlers
      ensures Abstract() == Device.AddHandler(old(Abstract()), h, maxHandlers)
    {
      var i := 0;
      while i < |handlers|
        invariant i <= |handlers|
        invariant forall k :: 0 <= k < i ==> handlers[k].name != h.name
      {
        if h.name == handlers[i].name {
          IndexIsFirst(handlers, h.name, i);
          handlers := handlers[i := h];
          return;
        }
        i := i + 1;
      }
      IndexIsFirst(handlers, h.name, i);
      if |handlers| < maxHandlers {
        handlers := handlers + [h];
      } else {
        responseOverflowErrors := Bump(responseOverflowErrors);
      }
    }

    // --- dispatch --------------------------------------------------------

    /** One valid frame, held in `data[..len]`. */
    method HandleFrame(data: array<byte>, len: nat, now: nat)
      requires Valid() && len <= data.Length && data != payloadBuf && data != txBuf
      modifies this, payloadBuf, txBuf
      ensures Valid()
      ensures var (s, response) := Device.HandleFrame(old(Abstract()), old(data[..len]), now, bufSize);
        Abstract() == s && stream == old(stream) + (if response.Some? then Frame(response.value) else [])
      ensures texts == old(texts)
    {
      hide Dispatch, ParseMessage, Fits, ResponseTo, Frame, Packable, Listing, Polite;
      lastFrameMs := now;
      var m := ReadMessage(data, len);
      RequestId(data[..len]);
      match m {
        case Malformed =>
          malformedErrors := Bump(malformedErrors);
        case Request(msgid, name, count, params) =>
          var reply := NewReply();
          DispatchCall(name, count, params, now, reply);
          SendResponse(msgid, reply);
        case Notification(name, count, params) =>
          var reply := NewReply();
          DispatchCall(name, count, params, now, reply);
      }
    }

    method NewReply() returns (reply: ReplySlot)
      requires Valid()
      ensures reply.Untouched() && reply.writer.cap == ResultScratch(bufSize) == reply.writer.buf.Length
      ensures fresh(reply) && fresh(reply.writer) && fresh(reply.writer.buf)
    {
      var resultBuf := new byte[ResultScratch(bufSize)](_ => 0);
      var w := new Writer(resultBuf, 0, ResultScratch(bufSize));
      reply := new ReplySlot(w);
    }

    static method ReadMessage(data: array<byte>, len: nat) returns (m: Message)
      requires len <= data.Length
      ensures m == ParseMessage(data[..len])
    {
      hide Preamble, ParseRequest, ParseNotification;
      var r := new Reader(data, len);
      assert r.Left() == data[..len];
      var n, kind := ReadPreamble(r);
      if r.error {
        return Malformed;
      }
      if kind == 0 {
        if n != 4 {
          return Malformed;
        }
        m := ReadRequest(r);
      } else if kind == 2 {
        if n != 3 {
          return Malformed;
        }
        m := ReadNotification(r);
      } else {
        return Malformed;
      }
    }

    /** After a failed read the others are still tried; the sticky flag decides at the end. */
    static method ReadRequest(r: Reader) returns (m: Message)
      requires r.Valid() && !r.error
      modifies r
      ensures m == ParseRequest(old(r.Left()))
    {
      hide ReadInt, Target;
      ghost var s := r.Left();
      var msgid := r.ReadUnsigned(0, U32);
      assert !r.error ==> r.Left() == s[ReadIn(s, 0, U32).value.size..];
      var name, count := ReadTarget(r);
      return if r.error then Malformed else Request(msgid, name, count, r.buf[r.pos..r.size]);
    }

    static method ReadNotification(r: Reader) returns (m: Message)
      requires r.Valid() && !r.error
      modifies r
      ensures m == ParseNotification(old(r.Left()))
    {
      hide Target;
      var name, count := ReadTarget(r);
      return if r.error then Malformed else Notification(name, count, r.buf[r.pos..r.size]);
    }

    static method ReadTarget(r: Reader) returns (name: seq<byte>, count: nat)
      requires r.Valid()
      modifies r
      ensures r.Valid()
      ensures var t := Target(old(r.Left()));
        r.error == (old(r.error) || t.None?) && (!r.error ==> t.value == (name, count, r.Left()))
    {
      hide ReadStrHeader, ReadArrayHeader;
      ghost var s := r.Left();
      var ok, at, n := r.ReadChunk(StrType);
      name := if ok then r.buf[at..at + n] else [];
      assert ok ==> r.Left() == s[ReadStr(s).value.size..];
      ghost var after := r.Left();
      count := r.ReadArray(0);
      if ok && ReadArrayHeader(after).Some? {
        SliceOfDrop(s, ReadStr(s).value.size, ReadArrayHeader(after).value.size, ReadArrayHeader(after).value.size);
        assert r.Left() == after[ReadArrayHeader(after).value.size..];
      }
    }

    /** Built-ins first, then the handler table, then "unknown method". */
    method DispatchCall(name: seq<byte>, count: nat, params: seq<byte>, now: nat, reply: ReplySlot)
      requires Valid() && Scratch(reply)
      modifies this, reply, reply.writer, reply.writer.buf
      ensures Valid() && reply.Valid() && stream == old(stream) && texts == old(texts)
      ensures Dispatch(old(Abstract()), name, count, params, now, bufSize) == (Abstract(), reply.Left())
      ensures reply.failure.Some? ==> |reply.failure.value| <= U32
    {
      hide DispatchBuiltin, DispatchUser, Listing, Packable, Polite;
      var handled := BuiltinCall(name, count, params, now, reply);
      if !handled {
        handled := UserCall(name, count, params, reply);
      }
      if !handled {
        reply.Error(UNKNOWN_METHOD);
        unknownMethodErrors := Bump(unknownMethodErrors);
      } else if reply.failure.Some? {
        handlerErrors := Bump(handlerErrors);
      }
    }

    /** A reply nothing has been written to, over a scratch buffer apart from the server's own. */
    ghost predicate Scratch(reply: ReplySlot)
      reads reply, reply.writer, reply.writer.buf
    {
      && reply.Untouched() && reply.writer.cap == ResultScratch(bufSize) == reply.writer.buf.Length
      && reply.writer.buf != payloadBuf && reply.writer.buf != txBuf
    }

    method BuiltinCall(name: seq<byte>, count: nat, params: seq<byte>, now: nat, reply: ReplySlot)
        returns (handled: bool)
      requires Valid() && Scratch(reply)
      modifies this, reply, reply.writer, reply.writer.buf
      ensures Valid() && stream == old(stream) && texts == old(texts)
      ensures var d := DispatchBuiltin(old(Abstract()), name, count, params, now, bufSize);
        if handled then reply.Valid() && d == Some((Abstract(), reply.Left()))
        else d == None && Abstract() == old(Abstract()) && Scratch(reply)
      ensures reply.failure.Some? ==> |reply.failure.value| <= U32
    {
      hide EncodeInt, ArrayHeader, Page, Listing, Packable, Polite, ReadInt;
      if name == PING {
        reply.writer.PackInt(PROTOCOL_VERSION);
        assert [] + EncodeInt(PROTOCOL_VERSION) == EncodeInt(PROTOCOL_VERSION);
        return true;
      }
      if name == LIST {
        var start := ReadOptionalU32(count, params);
        if start.None? {
          reply.Error(BAD_ARGS);
        } else {
          ListCall(start.value, reply);
        }
        return true;
      }
      if name == ATTACH {
        var timeout := ReadOptionalU32(count, params);
        if timeout.None? {
          reply.Error(BAD_ARGS);
          return true;
        }
        AttachCall(timeout.value, now, reply.writer);
        return true;
      }
      if name == DETACH {
        var wasAttached := attached;
        attached := false;
        attachHasTimeout := false;
        if wasAttached {
          detachCalls := detachCalls + 1;
        }
        return true;
      }
      return false;
    }

    method AttachCall(timeoutMs: nat, now: nat, w: Writer)
      requires w.Valid() && w.full == []
      modifies this`attached, this`attachHasTimeout, this`attachTimeoutMs, this`lastFrameMs, this`attachCalls, w, w.buf
      ensures Abstract() == old(Abstract()).(link := Attach(old(Abstract()).link, timeoutMs, now))
      ensures w.Valid() && w.full ==
        ArrayHeader(2) + EncodeInt(PROTOCOL_VERSION) + EncodeInt(|handlers| % 0x1_0000_0000)
    {
      hide EncodeInt, ArrayHeader;
      attached := true;
      attachHasTimeout := timeoutMs > 0;
      attachTimeoutMs := timeoutMs;
      lastFrameMs := now;
      attachCalls := attachCalls + 1;
      w.PackArray(2);
      w.PackInt(PROTOCOL_VERSION);
      w.PackInt(|handlers| % 0x1_0000_0000);
      assert [] + ArrayHeader(2) == ArrayHeader(2);
    }

    static method ReadOptionalU32(count: nat, params: seq<byte>) returns (v: Option<nat>)
      ensures v == OptionalU32(count, params)
    {
      hide ReadInt;
      if count == 0 {
        return Some(0);
      }
      var buf := new byte[|params|](i requires 0 <= i < |params| => params[i]);
      assert buf[..] == params;
      var r := new Reader(buf, |params|);
      assert r.Left() == params;
      var u := r.ReadUnsigned(0, U32);
      return if r.error then None else Some(u);
    }

    method ListCall(start: nat, reply: ReplySlot)
      requires Valid() && Scratch(reply)
      modifies this`responseOverflowErrors, reply, reply.writer, reply.writer.buf
      ensures Valid() && reply.Valid()
      ensures var page := Page(Listing(old(handlers)), start, ResultScratch(bufSize));
        if page.Some? then Abstract() == old(Abstract()) && reply.Left() == Wrote(page.value)
        else Abstract() == CountOverflow(old(Abstract())) && reply.Left() == Failed(TOO_LARGE)
      ensures reply.failure.Some? ==> |reply.failure.value| <= U32
    {
      hide Page, Listing, Packable, Polite;
      var raw := reply.writer.buf;
      var written := PackRpcListResult(Listing(handlers), start, raw, ResultScratch(bufSize));
      PageIsSome(Listing(handlers), start, ResultScratch(bufSize));
      if written.None? {
        reply.Error(TOO_LARGE);
        responseOverflowErrors := Bump(responseOverflowErrors);
      } else {
        reply.SetRawResult(written.value);
      }
    }

    static lemma PageIsSome(ms: seq<Method>, start: nat, scratch: nat)
      ensures Page(ms, start, scratch).Some? ==> Page(ms, start, scratch).value != []
    {}

    method UserCall(name: seq<byte>, count: nat, params: seq<byte>, reply: ReplySlot) returns (handled: bool)
      requires Valid() && Scratch(reply)
      modifies this`runs, reply, reply.writer, reply.writer.buf
      ensures Valid() && reply.Valid()
      ensures var d := DispatchUser(old(Abstract()), name, count, params);
        if handled then d == Some((Abstract(), reply.Left())) else d == None && Abstract() == old(Abstract())
      ensures reply.failure.Some? ==> |reply.failure.value| <= U32
    {
      hide Listing, Packable;
      var i := 0;
      while i < |handlers|
        invariant i <= |handlers|
        invariant forall k :: 0 <= k < i ==> handlers[k].name != name
      {
        if handlers[i].name == name {
          IndexIsFirst(handlers, name, i);
          RunHandler(handlers[i], count, params, reply);
          return true;
        }
        i := i + 1;
      }
      IndexIsFirst(handlers, name, i);
      return false;
    }

    /** Stands for the bound callable: it fails, or packs its result through the writer. */
    method RunHandler(h: Handler, count: nat, params: seq<byte>, reply: ReplySlot)
      requires reply.Untouched()
      modifies this`runs, reply, reply.writer, reply.writer.buf
      ensures reply.Valid() && reply.Left() == h.run(count, params, old(runs)) && runs == old(runs) + 1
    {
      match h.run(count, params, runs) {
        case Failed(message) =>
          reply.Error(message);
        case Wrote(result) =>
          reply.writer.PutBytes(result);
          assert [] + result == result;
      }
      runs := runs + 1;
    }

    // --- responses and frames --------------------------------------------

    /** Splices the handler's bytes behind a response header, or falls back to "response too large". */
    method SendResponse(msgid: nat, reply: ReplySlot)
      requires Valid() && reply.Valid() && msgid <= U32
      requires reply.writer.cap == ResultScratch(bufSize)
      requires reply.writer.buf != payloadBuf && reply.writer.buf != txBuf
      requires reply.failure.Some? ==> |reply.failure.value| <= U32
      modifies this`responseOverflowErrors, this`stream, payloadBuf, txBuf
      ensures Valid()
      ensures var o := old(reply.Left());
        Abstract() == (if Fits(msgid, o, bufSize) then old(Abstract()) else CountOverflow(old(Abstract()))) &&
        stream == old(stream) + Frame(ResponseTo(msgid, o, bufSize))
    {
      hide ErrorResponse, ResponseHeader, Frame, Listing, Packable, Polite;
      ghost var o := reply.Left();
      var overflowed, total := true, 0;
      if reply.failure.Some? {
        overflowed, total := PackError(msgid, reply.failure.value);
      } else if !reply.writer.overflow {
        overflowed, total := SpliceResult(msgid, reply);
      }
      if overflowed {
        responseOverflowErrors := Bump(responseOverflowErrors);
        overflowed, total := PackError(msgid, TOO_LARGE);
      }
      assert payloadBuf[..total] == ResponseTo(msgid, o, bufSize);
      SendFrame(total);
    }

    method PackError(msgid: nat, message: seq<byte>) returns (overflow: bool, total: nat)
      requires Valid() && msgid <= U32 && |message| <= U32
      modifies payloadBuf
      ensures var r := ErrorResponse(msgid, message);
        overflow == (|r| > bufSize) && total == Min(|r|, bufSize) && payloadBuf[..total] == r[..total]
    {
      hide EncodeInt, ArrayHeader, EncodeStr;
      var w := new Writer(payloadBuf, 0, bufSize);
      w.PackArray(4);
      w.PackInt(1);
      w.PackInt(msgid);
      w.PackStr(message);
      w.PackNil();
      assert [] + ArrayHeader(4) == ArrayHeader(4);
      w.Holds();
      return w.overflow, w.size;
    }

    method SpliceResult(msgid: nat, reply: ReplySlot) returns (overflow: bool, total: nat)
      requires Valid() && reply.Valid() && msgid <= U32 && reply.failure.None?
      requires reply.writer.buf != payloadBuf && !reply.writer.overflow
      modifies payloadBuf
      ensures var r := reply.Left().result;
        var p := ResponseHeader(msgid) + if r == [] then NIL else r;
        overflow == (|p| > bufSize) && (!overflow ==> total == |p| && payloadBuf[..total] == p)
    {
      hide EncodeInt, ArrayHeader, ResponseHeader;
      ghost var header, r := ResponseHeader(msgid), reply.Left().result;
      total := PackHeader(msgid);
      var resultLen := if reply.rawLen.Some? then reply.rawLen.value else reply.writer.size;
      assert resultLen == |r| && reply.writer.buf[..resultLen] == r;
      if resultLen == 0 {
        if total == bufSize {
          return true, total;
        }
        payloadBuf[total] := 0xc0;
        total := total + 1;
        assert payloadBuf[..total] == header + NIL;
      } else if total + resultLen <= bufSize {
        CopyBytes(reply.writer.buf, resultLen, payloadBuf, total);
        assert payloadBuf[..total + resultLen] == payloadBuf[..total] + payloadBuf[total..total + resultLen];
        total := total + resultLen;
      } else {
        return true, total;
      }
      return false, total;
    }

    method PackHeader(msgid: nat) returns (total: nat)
      requires Valid() && msgid <= U32
      modifies payloadBuf
      ensures total == |ResponseHeader(msgid)| <= bufSize && payloadBuf[..total] == ResponseHeader(msgid)
    {
      hide EncodeInt, ArrayHeader;
      var hdr := new byte[RESPONSE_HEADER_MAX](_ => 0);
      var w := new Writer(hdr, 0, RESPONSE_HEADER_MAX);
      w.PackArray(4);
      w.PackInt(1);
      w.PackInt(msgid);
      w.PackNil();
      assert w.full == ResponseHeader(msgid) by { assert [] + ArrayHeader(4) == ArrayHeader(4); }
      HeaderBound(msgid);
      CopyBytes(hdr, w.size, payloadBuf, 0);
      total := w.size;
      assert payloadBuf[..total] == payloadBuf[0..total];
    }

    static method CopyBytes(src: array<byte>, n: nat, dst: array<byte>, at: nat)
      requires n <= src.Length && at + n <= dst.Length && src != dst
      modifies dst
      ensures dst[at..at + n] == src[..n] && dst[..at] == old(dst[..at])
    {
      forall k | 0 <= k < n {
        dst[at + k] := src[k];
      }
    }

    /** Frames the payload buffer; `txBuf` is sized so that this cannot fail. */
    method SendFrame(len: nat)
      requires Valid() && len <= bufSize
      modifies this`stream, txBuf
      ensures Valid() && Abstract() == old(Abstract())
      ensures stream == old(stream) + Frame(payloadBuf[..len])
    {
      hide Frame, Listing, Packable, Polite;
      FrameFitsIn(payloadBuf[..len], bufSize);
      var n := FrameEncode(payloadBuf, len, txBuf, txBuf.Length);
      if n == 0 {
        // the source counts an overflow here and sends nothing
        assert false;
      }
      stream := stream + txBuf[..n];
    }

    // --- what the device sends unasked -----------------------------------

    method Notify(name: seq<byte>, args: seq<Value>) returns (sent: bool)
      requires Valid() && |name| <= U32 && Messages.Sendable(args)
      modifies this`responseOverflowErrors, this`stream, payloadBuf, txBuf
      ensures Valid()
      ensures var (s, out) := Announce(old(Abstract()), name, args, bufSize);
        Abstract() == s && sent == out.Framed? && stream == old(stream) + Written(out)
    {
      hide Frame, NoticePayload, Listing, Packable, Polite;
      if !attached {
        return false;
      }
      var w := new Writer(payloadBuf, 0, bufSize);
      PackNotice(w, name, args);
      w.Holds();
      if w.overflow {
        responseOverflowErrors := Bump(responseOverflowErrors);
        return false;
      }
      SendFrame(w.size);
      return true;
    }

    method EmitLogLine(level: nat, line: seq<byte>)
      requires Valid() && level <= 0xff && |line| <= U32
      modifies this`responseOverflowErrors, this`stream, payloadBuf, txBuf
      ensures Valid()
      ensures var (s, out) := EmitLog(old(Abstract()), level, line, bufSize);
        Abstract() == s && stream == old(stream) + Written(out)
    {
      hide Announce, Frame, Listing, Packable, Polite;
      if attached {
        var sent := Notify(LOG, [Int(level), Str(CString(line))]);
      } else {
        stream := stream + line;
        stream := stream + [NEWLINE];
        assert old(stream) + line + [NEWLINE] == old(stream) + (line + [NEWLINE]);
      }
    }

    // --- attach timeout --------------------------------------------------

    method CheckAttachTimeout(now: nat)
      requires Valid()
      modifies this`attached, this`attachHasTimeout, this`detachCalls
      ensures Valid() && Abstract() == old(Abstract()).(link := CheckTimeout(old(Abstract()).link, now))
    {
      if attached && attachHasTimeout {
        if (now - lastFrameMs) % 0x1_0000_0000 >= attachTimeoutMs {
          attached := false;
          attachHasTimeout := false;
          detachCalls := detachCalls + 1;
        }
      }
    }
  }
}
