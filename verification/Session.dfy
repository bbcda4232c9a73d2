/** The two classes at the ends of one line: a call of the client, polled by the server. */
module Session {
  import opened Bytes
  import opened Framing
  import opened MsgPack
  import opened Values
  import opened Device
  import opened Messages
  import opened Host
  import opened Service
  import opened Calls
  import opened RpcClient
  import opened RpcServer
  import Exchange

  /** The two ends share no buffer. */
  ghost predicate Apart(client: Rpc, server: Server)
    reads client, server, client.demux, server.demux
  {
    && client.demux != server.demux
    && {client.txPayload, client.txFrame, client.demux.frameBuf, client.demux.lineBuf} !!
         {server.payloadBuf, server.txBuf, server.demux.frameBuf, server.demux.lineBuf}
  }

  /** The client, with the call's id spent and its answer awaited. */
  function Calling(c: Client): Client {
    c.(nextId := Bump(c.nextId), waiting := Some(Waiting(c.nextId, None)))
  }

  /**
   A call over the bytes the client puts on the line: the server polls exactly those, and when
   the client's reads bring what the server then wrote, behind and before bytes that neither
   throw nor answer the id, the call ends with what the server's dispatch made of the
   arguments. `chunks` foretells those reads.
   */
  method CallThrough(client: Rpc, server: Server, name: seq<byte>, args: seq<Value>, room: nat,
                     chunks: seq<seq<byte>>, clock: Clock, ghost before: seq<byte>, ghost later: seq<byte>)
      returns (v: Ending)
    requires client.Valid() && client.pendingMsgid.None? && server.Ready() && Apart(client, server)
    requires |name| <= U32 && Messages.Sendable(args)
    requires |RequestPayload(client.nextMsgid, name, args)| <= client.maxFrame && room >= FrameMaxSize(client.maxFrame)
    modifies client, client.txPayload, client.txFrame, client.demux, client.demux.frameBuf, client.demux.lineBuf
    modifies server, server.payloadBuf, server.txBuf, server.demux, server.demux.frameBuf, server.demux.lineBuf
    ensures client.Valid() && server.Ready()
    ensures var m := Exchange.Moment(old(server.Abstract()), old(client.nextMsgid), clock(0));
      var t := Trip(old(client.demux.Abstract()), Calling(old(client.Abstract())), old(server.demux.Abstract()),
                    m, clock, before, later, chunks);
      UnderWay(t, name, args, server.bufSize, HOST_SIZES) ==>
        server.stream == old(server.stream) + Output(t, name, args, server.bufSize) &&
        v == Concluded(m.msgid, Exchange.Served(m, name, args, server.bufSize), server.bufSize)
  {
    hide UnderWay, Concluded, Exchange.Served, Await, PollBytes, RequestPayload, Messages.Sendable;
    ghost var m := Exchange.Moment(server.Abstract(), client.nextMsgid, clock(0));
    ghost var t := Trip(client.demux.Abstract(), Calling(client.Abstract()), server.demux.Abstract(),
                        m, clock, before, later, chunks);
    var sentBefore := client.stream;
    AllSent(RequestPayload(client.nextMsgid, name, args), client.maxFrame, room);
    v := client.CallValues(name, args, room, chunks, false);
    server.Poll(client.stream[|sentBefore|..], clock);
    if UnderWay(t, name, args, server.bufSize, HOST_SIZES) {
      CallCompletes(t, name, args, server.bufSize, HOST_SIZES);
    }
  }

  lemma AllSent(p: seq<byte>, maxFrame: nat, room: nat)
    requires |p| <= maxFrame && room >= FrameMaxSize(maxFrame)
    ensures SendingOf(p, maxFrame, room).Sent? && BytesSent(p, maxFrame, room) == Frame(p)
  {
    FrameFitsIn(p, maxFrame);
  }
}
