/**
 The RPC class of serial_rpc.hpp. What the port does is given in advance: how many bytes it
 takes of a frame, what each read returns, and whether the read after those fails.
 */
module RpcClient {
  import opened Bytes
  import opened Framing
  import opened MsgPack
  import opened MsgPackCodec
  import opened Values
  import opened ValueCodec
  import opened Device
  import opened Messages
  import opened Host
  import opened Calls
  import DeviceRuns
  import DemuxLaws
  import Service
  import Demux = Demultiplexer

  const HOST_SIZES: DemuxLaws.Sizes := DemuxLaws.Sizes(4096, 1024)

  /** The host can receive every frame of a device whose buffer is at most 4077 bytes, and of no other. */
  lemma HostTakesDevices(bufSize: nat)
    ensures Service.ServerSizes(bufSize).frameMax <= HOST_SIZES.frameMax <==> bufSize <= 4077
    ensures HOST_SIZES.lineMax == 1024
  {}

  /** Unpackable is a ProtocolError, Unwritten an IoError. */
  datatype Sending = Sent | Unpackable | Unwritten

  /** What becomes of a payload when the port takes `room` bytes of its frame. */
  function SendingOf(p: seq<byte>, maxFrame: nat, room: nat): Sending {
    if |p| > maxFrame then Unpackable else if room < |Frame(p)| then Unwritten else Sent
  }

  function BytesSent(p: seq<byte>, maxFrame: nat, room: nat): seq<byte> {
    if |p| > maxFrame then [] else Frame(p)[..Min(room, |Frame(p)|)]
  }

  /**
   What is reported as sent is what arrives: a device between frames, or holding anything but a
   valid frame, receives the payload exactly when the send succeeds, and otherwise nothing.
   A payload that fits is sent whenever the port takes the largest frame of its length.
   */
  lemma SentArrives(p: seq<byte>, maxFrame: nat, room: nat, d: Demux.State, z: DemuxLaws.Sizes)
    requires DemuxLaws.Clear(d) && |Body(p)| <= z.frameMax
    ensures DemuxLaws.Run(d, BytesSent(p, maxFrame, room), z).frames ==
      if SendingOf(p, maxFrame, room).Sent? then [p] else []
    ensures SendingOf(p, maxFrame, room).Unpackable? <==> |p| > maxFrame
    ensures |p| <= maxFrame && room >= FrameMaxSize(|p|) ==> SendingOf(p, maxFrame, room).Sent?
  {
    hide Body, DemuxLaws.Run, DemuxLaws.Clear;
    FrameFits(p);
    DemuxLaws.FrameArrives(d, p, z);
    DemuxLaws.RunNothing(d, z);
    if room < |Frame(p)| {
      DemuxLaws.PartOfFrame(d, p, room, z);
    } else {
      assert Frame(p)[..|Frame(p)|] == Frame(p);
    }
  }

  class Rpc {
    const maxFrame: nat
    const demux: Demux.Demux
    const txPayload: array<byte>
    const txFrame: array<byte>
    var nextMsgid: MsgId
    var pendingMsgid: Option<nat>
    var pendingResponseReady: bool
    var pendingResponseIsError: bool
    var pendingResponseValue: Value
    var calls: nat
    var notificationsSent: nat
    var notificationsRecv: nat
    var logsRecv: nat
    var textRecv: nat
    var strayResponses: nat
    var timeouts: nat
    var malformedFrames: nat
    var stream: seq<byte> // every byte written to the port

    ghost predicate Valid()
      reads this, demux, demux.frameBuf, demux.lineBuf
    {
      && maxFrame <= U32 && txPayload.Length == maxFrame && txFrame.Length == FrameMaxSize(maxFrame)
      && demux.Valid() && demux.frameMax == HOST_SIZES.frameMax && demux.lineMax == HOST_SIZES.lineMax
      && txPayload != txFrame && demux.frameBuf != txPayload && demux.frameBuf != txFrame
      && demux.lineBuf != txPayload && demux.lineBuf != txFrame
    }

    ghost function Abstract(): Client
      reads this
    {
      var answer := if pendingResponseReady then Some(Answer(pendingResponseIsError, pendingResponseValue)) else None;
      Client(nextMsgid, if pendingMsgid.Some? then Some(Waiting(pendingMsgid.value, answer)) else None,
             Stats(notificationsRecv, logsRecv, strayResponses, malformedFrames))
    }

    constructor (maxFrame: nat)
      requires maxFrame <= U32
      ensures Valid() && Abstract() == IDLE && demux.Abstract() == Demux.INITIAL && stream == []
      ensures fresh(demux) && fresh(demux.frameBuf) && fresh(demux.lineBuf) && fresh(txPayload) && fresh(txFrame)
    {
      this.maxFrame := maxFrame;
      demux := new Demux.Demux(HOST_SIZES.frameMax, HOST_SIZES.lineMax);
      txPayload := new byte[maxFrame](_ => 0);
      txFrame := new byte[FrameMaxSize(maxFrame)](_ => 0);
      nextMsgid, pendingMsgid := 1, None;
      pendingResponseReady, pendingResponseIsError, pendingResponseValue := false, false, Null;
      calls, notificationsSent, notificationsRecv, logsRecv := 0, 0, 0, 0;
      textRecv, strayResponses, timeouts, malformedFrames, stream := 0, 0, 0, 0, [];
    }

    // --- calls -----------------------------------------------------------

    /**
     One call. The port takes `room` bytes of the request; `chunks` is what its reads bring
     before the deadline or, when `fails` holds, before a read that fails.
     */
    method CallValues(name: seq<byte>, args: seq<Value>, room: nat, chunks: seq<seq<byte>>, fails: bool)
        returns (v: Ending)
      requires Valid() && pendingMsgid.None? && |name| <= U32 && Messages.Sendable(args)
      modifies this, txPayload, txFrame, demux, demux.frameBuf, demux.lineBuf
      ensures Valid() && pendingMsgid.None?
      ensures var before, d := old(Abstract()), old(demux.Abstract());
        var p := RequestPayload(before.nextId, name, args);
        var c := before.(nextId := Bump(before.nextId), waiting := Some(Waiting(before.nextId, None)));
        var sent := SendingOf(p, maxFrame, room);
        stream == old(stream) + BytesSent(p, maxFrame, room) &&
        if !sent.Sent? then
          v == (if sent.Unpackable? then Thrown else PortFailed) &&
          Abstract() == c.(waiting := None) && demux.Abstract() == d
        else
          var a := Await(d, c, chunks, HOST_SIZES);
          v == (if a.1 == TimedOut && fails then PortFailed else a.1) &&
          Abstract() == a.0.client.(waiting := None) && demux.Abstract() == a.0.demux
      ensures timeouts == old(timeouts) + if v == TimedOut then 1 else 0
      ensures calls == old(calls) +
        if SendingOf(RequestPayload(old(nextMsgid), name, args), maxFrame, room).Sent? then 1 else 0
    {
      hide SendingOf, BytesSent, RequestPayload, Messages.Sendable, Await;
      var msgid := NextMsgid();
      var sent := SendRequest(msgid, name, args, room);
      match sent {
        case Unpackable => return Thrown;
        case Unwritten => return PortFailed;
        case Sent =>
      }
      pendingMsgid := Some(msgid);
      pendingResponseReady := false;
      calls := calls + 1;
      v := AwaitResponse(chunks, fails);
    }

    /** Pumps until the answer is there or the time is up; the pending id is cleared either way. */
    method AwaitResponse(chunks: seq<seq<byte>>, fails: bool) returns (v: Ending)
      requires Valid() && pendingMsgid.Some? && !pendingResponseReady
      modifies this, demux, demux.frameBuf, demux.lineBuf
      ensures Valid() && pendingMsgid.None? && stream == old(stream)
      ensures var a := Await(old(demux.Abstract()), old(Abstract()), chunks, HOST_SIZES);
        v == (if a.1 == TimedOut && fails then PortFailed else a.1) &&
        Abstract() == a.0.client.(waiting := None) && demux.Abstract() == a.0.demux
      ensures timeouts == old(timeouts) + (if v == TimedOut then 1 else 0) && calls == old(calls)
    {
      hide Calls.PumpBytes, Await;
      ghost var goal := Await(demux.Abstract(), Abstract(), chunks, HOST_SIZES);
      var i := 0;
      assert chunks[0..] == chunks;
      while i < |chunks|
        invariant i <= |chunks| && Valid() && stream == old(stream)
        invariant timeouts == old(timeouts) && calls == old(calls)
        invariant pendingMsgid.Some? && !pendingResponseReady
        invariant goal == Await(demux.Abstract(), Abstract(), chunks[i..], HOST_SIZES)
      {
        AwaitNext(demux.Abstract(), Abstract(), chunks[i..], HOST_SIZES);
        assert chunks[i..][1..] == chunks[i + 1..];
        var threw := PumpChunk(chunks[i]);
        if threw {
          pendingMsgid := None;
          return Thrown;
        }
        if pendingResponseReady {
          pendingMsgid := None;
          return if pendingResponseIsError then RemoteError(pendingResponseValue) else Returned(pendingResponseValue);
        }
        i := i + 1;
      }
      AwaitNothing(demux.Abstract(), Abstract(), HOST_SIZES);
      assert chunks[i..] == [];
      pendingMsgid := None;
      if fails {
        return PortFailed;
      }
      timeouts := timeouts + 1;
      return TimedOut;
    }

    method NextMsgid() returns (id: nat)
      modifies this`nextMsgid
      ensures id == old(nextMsgid) && nextMsgid == Bump(id)
    {
      id := nextMsgid;
      nextMsgid := (nextMsgid + 1) % 0x1_0000_0000;
    }

    /** Nothing is written of a request that does not fit the payload buffer. */
    method SendRequest(msgid: nat, name: seq<byte>, args: seq<Value>, room: nat) returns (r: Sending)
      requires Valid() && msgid <= U32 && |name| <= U32 && Messages.Sendable(args)
      modifies this`stream, txPayload, txFrame
      ensures Valid() && demux.Abstract() == old(demux.Abstract())
      ensures var p := RequestPayload(msgid, name, args);
        r == SendingOf(p, maxFrame, room) && stream == old(stream) + BytesSent(p, maxFrame, room)
    {
      hide Frame, RequestPayload;
      var overflow, size := PackRequest(msgid, name, args);
      if overflow {
        return Unpackable;
      }
      r := WriteFrame(size, room);
    }

    method PackRequest(msgid: nat, name: seq<byte>, args: seq<Value>) returns (overflow: bool, size: nat)
      requires Valid() && msgid <= U32 && |name| <= U32 && Messages.Sendable(args)
      modifies txPayload
      ensures overflow == (|RequestPayload(msgid, name, args)| > maxFrame)
      ensures !overflow ==> size <= maxFrame && txPayload[..size] == RequestPayload(msgid, name, args)
    {
      hide EncodeInt, ArrayHeader, EncodeStr, EncodeItems;
      var w := new Writer(txPayload, 0, maxFrame);
      w.PackArray(4);
      w.PackInt(0);
      w.PackInt(msgid);
      w.PackStr(name);
      w.PackArray(|args|);
      PackItems(args, w);
      assert [] + ArrayHeader(4) == ArrayHeader(4);
      w.Holds();
      return w.overflow, w.size;
    }

    method NotifyValues(name: seq<byte>, args: seq<Value>, room: nat) returns (r: Sending)
      requires Valid() && |name| <= U32 && Messages.Sendable(args)
      modifies this`stream, this`notificationsSent, txPayload, txFrame
      ensures Valid() && demux.Abstract() == old(demux.Abstract()) && Abstract() == old(Abstract())
      ensures var p := NoticePayload(name, args);
        r == SendingOf(p, maxFrame, room) && stream == old(stream) + BytesSent(p, maxFrame, room)
      ensures notificationsSent == old(notificationsSent) + if r.Sent? then 1 else 0
    {
      hide Frame, NoticePayload;
      var w := new Writer(txPayload, 0, maxFrame);
      PackNotice(w, name, args);
      w.Holds();
      if w.overflow {
        return Unpackable;
      }
      r := WriteFrame(w.size, room);
      if r.Sent? {
        notificationsSent := notificationsSent + 1;
      }
    }

    /** The frame buffer is sized so that encoding cannot fail; the port takes at most `room` bytes. */
    method WriteFrame(len: nat, room: nat) returns (r: Sending)
      requires Valid() && len <= maxFrame
      modifies this`stream, txFrame
      ensures Valid() && demux.Abstract() == old(demux.Abstract())
      ensures var p := txPayload[..len];
        r == SendingOf(p, maxFrame, room) && stream == old(stream) + BytesSent(p, maxFrame, room)
    {
      hide Frame;
      FrameFitsIn(txPayload[..len], maxFrame);
      var n := FrameEncode(txPayload, len, txFrame, txFrame.Length);
      if n == 0 {
        assert false;
      }
      ghost var frame := txFrame[..n];
      var written := Min(n, room);
      stream := stream + txFrame[..written];
      assert txFrame[..written] == frame[..written];
      return if written == n then Sent else Unwritten;
    }

    // --- incoming bytes --------------------------------------------------

    method PumpChunk(chunk: seq<byte>) returns (threw: bool)
      requires Valid()
      modifies this, demux, demux.frameBuf, demux.lineBuf
      ensures Valid() && stream == old(stream) && pendingMsgid == old(pendingMsgid)
      ensures timeouts == old(timeouts) && calls == old(calls)
      ensures var p := Calls.PumpBytes(old(demux.Abstract()), old(Abstract()), chunk, HOST_SIZES);
        demux.Abstract() == p.demux && Abstract() == p.client && threw == p.threw
    {
      hide Calls.PumpByte;
      ghost var goal := Calls.PumpBytes(demux.Abstract(), Abstract(), chunk, HOST_SIZES);
      var i := 0;
      assert chunk[0..] == chunk;
      while i < |chunk|
        invariant i <= |chunk| && Valid()
        invariant stream == old(stream) && pendingMsgid == old(pendingMsgid)
        invariant timeouts == old(timeouts) && calls == old(calls)
        invariant goal == Calls.PumpBytes(demux.Abstract(), Abstract(), chunk[i..], HOST_SIZES)
      {
        assert chunk[i..][1..] == chunk[i + 1..];
        threw := PumpOne(chunk[i]);
        if threw {
          return true;
        }
        i := i + 1;
      }
      return false;
    }

    method PumpOne(b: byte) returns (threw: bool)
      requires Valid()
      modifies this, demux, demux.frameBuf, demux.lineBuf
      ensures Valid() && stream == old(stream) && pendingMsgid == old(pendingMsgid)
      ensures timeouts == old(timeouts) && calls == old(calls)
      ensures var p := PumpByte(old(demux.Abstract()), old(Abstract()), b, HOST_SIZES);
        demux.Abstract() == p.demux && Abstract() == p.client && threw == p.threw
      ensures textRecv == old(textRecv) +
        if Demux.Feed(old(demux.Abstract()), b, HOST_SIZES.frameMax, HOST_SIZES.lineMax).1.TextLine? then 1 else 0
    {
      hide ParseIncoming, Host.Take, Demux.Feed;
      var ev := demux.FeedByte(b);
      match ev {
        case EvFrame =>
          threw := HandleFrame(demux.frameBuf, demux.frameSize);
        case EvTextLine =>
          textRecv := textRecv + 1;
          return false;
        case EvNone =>
          return false;
      }
    }

    method HandleFrame(data: array<byte>, len: nat) returns (threw: bool)
      requires len <= data.Length
      modifies this
      ensures var m := ParseIncoming(data[..len]);
        Abstract() == Host.Take(old(Abstract()), m) && threw == m.Throws?
      ensures stream == old(stream) && pendingMsgid == old(pendingMsgid)
      ensures timeouts == old(timeouts) && calls == old(calls)
      ensures textRecv == old(textRecv)
    {
      hide ParseIncoming;
      var m := ReadIncoming(data, len);
      match m {
        case Reply(msgid, isError, value) =>
          if pendingMsgid.Some? && msgid == pendingMsgid.value {
            pendingResponseReady := true;
            pendingResponseIsError := isError;
            pendingResponseValue := value;
          } else {
            strayResponses := strayResponses + 1;
          }
        case Notice(name, args) =>
          if name == DeviceRuns.LOG {
            logsRecv := logsRecv + 1;
          } else {
            notificationsRecv := notificationsRecv + 1;
          }
        case Garbled =>
          malformedFrames := malformedFrames + 1;
        case Throws =>
      }
      return m.Throws?;
    }

    static method ReadIncoming(data: array<byte>, len: nat) returns (m: Incoming)
      requires len <= data.Length
      ensures m == ParseIncoming(data[..len])
    {
      hide Preamble, ParseReply, ParseNotice;
      ghost var s := data[..len];
      var r := new Reader(data, len);
      assert r.Left() == s;
      var n, kind := ReadPreamble(r);
      if r.error {
        return Garbled;
      }
      if kind == 1 {
        if n != 4 {
          return Garbled;
        }
        m := ReadReply(r);
      } else if kind == 2 {
        if n != 3 {
          return Garbled;
        }
        m := ReadNotice(r);
      } else {
        return Garbled;
      }
    }

    static method ReadReply(r: Reader) returns (m: Incoming)
      requires r.Valid() && !r.error
      modifies r
      ensures m == ParseReply(old(r.Left()))
    {
      hide ReplyBody, ReadInt;
      ghost var s := r.Left();
      var msgid := r.ReadUnsigned(0, U32);
      if r.error {
        return Garbled;
      }
      assert r.Left() == s[ReadIn(s, 0, U32).value.size..];
      m := ReadReplyBody(msgid, r);
    }

    static method ReadNotice(r: Reader) returns (m: Incoming)
      requires r.Valid() && !r.error
      modifies r
      ensures m == ParseNotice(old(r.Left()))
    {
      hide ReadStrHeader, Decode;
      ghost var s := r.Left();
      var ok, at, size := r.ReadChunk(StrType);
      if !ok {
        return Garbled;
      }
      assert r.Left() == s[ReadStr(s).value.size..];
      var args := DecodeValue(r, 0);
      return if args.None? then Throws else Notice(r.buf[at..at + size], args.value);
    }

    static method ReadReplyBody(msgid: nat, r: Reader) returns (m: Incoming)
      requires r.Valid() && !r.error
      modifies r
      ensures m == ReplyBody(msgid, old(r.Left()))
    {
      hide Decode, TypeOf;
      ghost var s := r.Left();
      var t := r.NextType();
      var isError := t != NilType;
      var errValue := None;
      if isError {
        errValue := DecodeValue(r, 0);
        if errValue.None? {
          return Throws;
        }
      } else {
        NilByte(s);
        r.ReadNil();
      }
      assert r.Left() == s[r.pos - old(r.pos)..];
      var result := DecodeValue(r, 0);
      if result.None? {
        return Throws;
      }
      return Reply(msgid, isError, if isError then errValue.value else result.value);
    }

    static lemma NilByte(s: seq<byte>)
      requires s != [] && TypeOf(s[0]) == NilType
      ensures s[0] == 0xc0
    {}
  }
}
