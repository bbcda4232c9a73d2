/**
 One call from end to end, through bytes: the host's request, the device's dispatch, the
 response, and what the host reads out of it.
 */
module Exchange {
  import opened Bytes
  import opened MsgPack
  import opened Values
  import opened RpcList
  import opened RpcListHost
  import opened Device
  import opened Messages

  /** Every handler fails with a message, writes nothing, or writes one complete object. */
  ghost predicate WellBehaved(handlers: seq<Handler>) {
    forall h, count: nat, params, runs: nat :: h in handlers ==> Faithful(h.run(count, params, runs))
  }

  ghost predicate Serviceable(s: State) {
    WellBehaved(s.handlers) && Listable(Listing(s.handlers)) && |s.handlers| < 65536
  }

  lemma IntIsWhole(v: nat)
    requires v <= U64
    ensures Decode(EncodeInt(v), 0) == Some(Decoded(Uint(v), |EncodeInt(v)|))
  {
    hide Decode, EncodeInt;
    DecodesInteger(v, [], 0);
    assert EncodeInt(v) + [] == EncodeInt(v);
  }

  lemma PairIsWhole(a: nat, b: nat)
    requires a <= U64 && b <= U64
    ensures var r := ArrayHeader(2) + EncodeInt(a) + EncodeInt(b);
      Decode(r, 0) == Some(Decoded(Arr([Uint(a), Uint(b)]), |r|))
  {
    hide Decode, EncodeInt, ArrayHeader;
    var x, y := Uint(a), Uint(b);
    var v, r := Arr([x, y]), ArrayHeader(2) + EncodeInt(a) + EncodeInt(b);
    assert [x, y][1..] == [y] && [y][1..] == [];
    assert EncodeItems([y]) == Encode(y) + EncodeItems([]) == Encode(y);
    assert EncodeItems([x, y]) == Encode(x) + Encode(y);
    assert NormalItems([y]) == [y] + NormalItems([]) == [y];
    assert NormalItems([x, y]) == [x] + [y] == [x, y];
    assert Encode(v) == r;
    DecodesEncoding(v, [], 0);
    assert r + [] == r;
  }

  lemma PageIsWhole(table: seq<Method>, start: nat, scratch: nat)
    requires Listable(table) && |table| < 65536 && scratch >= 1
    ensures var page := Page(table, start, scratch);
      page.Some? ==>
        && |page.value| <= scratch && page.value != []
        && Decode(page.value, 0).Some? && Decode(page.value, 0).value.size == |page.value|
  {
    hide Decode, Fitting, Tried, EncodeMethods, Listable;
    if start >= |table| {
      EmptyPage();
    } else if scratch >= ARRAY_HEADER_LEN {
      PageIsFitting(table, start, scratch);
      var rest, room := table[start..], scratch - ARRAY_HEADER_LEN;
      var ms := rest[..Fitting(rest, room)];
      FittingIsMaximal(rest, room);
      assert Listable(ms) by { ListableSlice(table, start, Fitting(rest, room)); }
      PageDecodes(ms, []);
      assert PageBytes(ms) + [] == PageBytes(ms);
    }
  }

  lemma ListableSlice(table: seq<Method>, start: nat, n: nat)
    requires Listable(table) && start + n <= |table|
    ensures Listable(table[start..][..n])
  {}

  /** The built-in methods answer with one complete object, or nothing, like any handler. */
  lemma DispatchFaithful(s: State, name: seq<byte>, count: nat, params: seq<byte>, now: nat, bufSize: nat)
    requires Serviceable(s)
    ensures Faithful(Dispatch(s, name, count, params, now, bufSize).1)
  {
    hide Decode, EncodeInt, ArrayHeader, Page, OptionalU32, Listing, Listable;
    if name == PING {
      IntIsWhole(PROTOCOL_VERSION);
    } else if name == LIST {
      var start := OptionalU32(count, params);
      if start.Some? {
        PageIsWhole(Listing(s.handlers), start.value, ResultScratch(bufSize));
      }
    } else if name == ATTACH {
      PairIsWhole(PROTOCOL_VERSION, |s.handlers| % 0x1_0000_0000);
    }
  }

  // --- every request is answered -----------------------------------------

  /** The outcome of a well-formed request at the device. */
  function OutcomeOf(s: State, payload: seq<byte>, now: nat, bufSize: nat): Outcome
    requires ParseMessage(payload).Request?
  {
    var m := ParseMessage(payload);
    Dispatch(s.(link := s.link.(lastFrameMs := now)), m.name, m.count, m.params, now, bufSize).1
  }

  lemma DispatchPolite(s: State, name: seq<byte>, count: nat, params: seq<byte>, now: nat, bufSize: nat)
    requires Polite(s.handlers)
    ensures var o := Dispatch(s, name, count, params, now, bufSize).1;
      o.Failed? ==> |o.message| <= U32
  {
    hide EncodeInt, ArrayHeader, Page, OptionalU32, Listing;
  }

  /**
   Every well-formed request, however it is encoded and whatever handlers write, brings back
   exactly one response that fits the buffer. The host reads the id of the request and the
   outcome of its dispatch in it, or throws exactly when the handler's bytes do not decode.
   */
  lemma RequestHeard(s: State, payload: seq<byte>, now: nat, bufSize: nat)
    requires Polite(s.handlers) && bufSize >= MIN_BUF && ParseMessage(payload).Request?
    ensures var id, o := ParseMessage(payload).msgid, OutcomeOf(s, payload, now, bufSize);
      var response := HandleFrame(s, payload, now, bufSize).1;
      id <= U32 && response.Some? && |response.value| <= bufSize &&
      ParseIncoming(response.value) ==
        if Fits(id, o, bufSize) then Meaning(id, o) else Reply(id, true, Str(TOO_LARGE))
  {
    hide Dispatch, ParseMessage, ParseIncoming, ResponseTo, Fits, Meaning, Polite;
    var m := ParseMessage(payload);
    RequestId(payload);
    DispatchPolite(s.(link := s.link.(lastFrameMs := now)), m.name, m.count, m.params, now, bufSize);
    ResponseMeans(m.msgid, OutcomeOf(s, payload, now, bufSize), bufSize);
  }

  lemma ServiceableIsPolite(s: State)
    requires Serviceable(s)
    ensures Polite(s.handlers)
  {
    hide Listable, Decode;
  }

  /**
   For handlers that each leave one object the host can decode, the response is
   `[1, msgid, error, result]` and nothing more.
   */
  lemma RequestAnswered(s: State, payload: seq<byte>, now: nat, bufSize: nat)
    requires Serviceable(s) && bufSize >= MIN_BUF && ParseMessage(payload).Request?
    ensures var id, o := ParseMessage(payload).msgid, OutcomeOf(s, payload, now, bufSize);
      var response := HandleFrame(s, payload, now, bufSize).1;
      id <= U32 && Faithful(o) && response.Some? && |response.value| <= bufSize &&
      Slots(response.value) == Some(SlotsFor(id, o, bufSize)) &&
      ParseIncoming(response.value) ==
        if Fits(id, o, bufSize) then Meaning(id, o) else Reply(id, true, Str(TOO_LARGE))
  {
    hide Dispatch, ParseMessage, ParseIncoming, ResponseTo, Fits, Faithful, Slots, SlotsFor, Meaning,
      Serviceable, Polite;
    var m := ParseMessage(payload);
    ServiceableIsPolite(s);
    RequestHeard(s, payload, now, bufSize);
    AliveServes(s, s.(link := s.link.(lastFrameMs := now)));
    DispatchFaithful(s.(link := s.link.(lastFrameMs := now)), m.name, m.count, m.params, now, bufSize);
    ResponseSlots(m.msgid, OutcomeOf(s, payload, now, bufSize), bufSize);
  }

  lemma AliveServes(s: State, t: State)
    requires Serviceable(s) && t.handlers == s.handlers
    ensures Serviceable(t)
  {}

  /** The device at the moment a call reaches it. */
  datatype Moment = Moment(device: State, msgid: nat, now: nat)

  function Alive(m: Moment): State {
    m.device.(link := m.device.link.(lastFrameMs := m.now))
  }

  /** The outcome at the device of the host's call. */
  function Served(m: Moment, name: seq<byte>, args: seq<Value>, bufSize: nat): Outcome
    requires Messages.Sendable(args)
  {
    Dispatch(Alive(m), name, |args|, EncodeItems(args), m.now, bufSize).1
  }

  /**
   The host's own requests are among them, and the outcome is that of the call: the named
   method on the given arguments.
   */
  lemma CallHeard(m: Moment, name: seq<byte>, args: seq<Value>, bufSize: nat)
    requires Polite(m.device.handlers) && bufSize >= MIN_BUF
    requires m.msgid <= U32 && Messages.Sendable(args) && |name| <= U32
    ensures var response := HandleFrame(m.device, RequestPayload(m.msgid, name, args), m.now, bufSize).1;
      var o := Served(m, name, args, bufSize);
      response.Some? && |response.value| <= bufSize &&
      ParseIncoming(response.value) ==
        if Fits(m.msgid, o, bufSize) then Meaning(m.msgid, o) else Reply(m.msgid, true, Str(TOO_LARGE))
  {
    hide HandleFrame, Dispatch, ParseMessage, RequestPayload, ParseIncoming, Fits, EncodeItems, Meaning, Polite;
    RequestArrives(m.msgid, name, args);
    RequestHeard(m.device, RequestPayload(m.msgid, name, args), m.now, bufSize);
  }

  lemma CallAnswered(m: Moment, name: seq<byte>, args: seq<Value>, bufSize: nat)
    requires Serviceable(m.device) && bufSize >= MIN_BUF
    requires m.msgid <= U32 && Messages.Sendable(args) && |name| <= U32
    ensures var response := HandleFrame(m.device, RequestPayload(m.msgid, name, args), m.now, bufSize).1;
      var o := Served(m, name, args, bufSize);
      Faithful(o) && response.Some? && |response.value| <= bufSize &&
      ParseIncoming(response.value) ==
        if Fits(m.msgid, o, bufSize) then Meaning(m.msgid, o) else Reply(m.msgid, true, Str(TOO_LARGE))
  {
    hide HandleFrame, Dispatch, RequestPayload, ParseIncoming, Fits, Faithful, EncodeItems, Meaning,
      Serviceable, Polite;
    ServiceableIsPolite(m.device);
    CallHeard(m, name, args, bufSize);
    AliveServes(m.device, Alive(m));
    DispatchFaithful(Alive(m), name, |args|, EncodeItems(args), m.now, bufSize);
  }

  /** Notifications and everything malformed are answered by silence. */
  lemma OnlyRequestsAnswered(s: State, payload: seq<byte>, now: nat, bufSize: nat)
    ensures HandleFrame(s, payload, now, bufSize).1.Some? <==> ParseMessage(payload).Request?
    ensures ParseMessage(payload).Malformed? ==>
      HandleFrame(s, payload, now, bufSize).0 ==
        s.(link := s.link.(lastFrameMs := now), counters := s.counters.(malformed := Bump(s.counters.malformed)))
  {
    hide ParseMessage, Dispatch, Fits, ResponseTo;
  }

  // --- what each method means to the host --------------------------------

  /** The state and the reply of a call at the device, as the host sees them. */
  function Call(m: Moment, name: seq<byte>, args: seq<Value>, bufSize: nat): (State, Incoming)
    requires m.msgid <= U32 && Messages.Sendable(args)
  {
    var (s, response) := HandleFrame(m.device, RequestPayload(m.msgid, name, args), m.now, bufSize);
    (s, if response.None? then Garbled else ParseIncoming(response.value))
  }

  lemma CallDispatches(m: Moment, name: seq<byte>, args: seq<Value>, bufSize: nat)
    requires Serviceable(m.device) && bufSize >= MIN_BUF
    requires m.msgid <= U32 && Messages.Sendable(args) && |name| <= U32
    ensures var (s, o) := Dispatch(Alive(m), name, |args|, EncodeItems(args), m.now, bufSize);
      Faithful(o) &&
      Call(m, name, args, bufSize) ==
        if Fits(m.msgid, o, bufSize) then (s, Meaning(m.msgid, o))
        else (CountOverflow(s), Reply(m.msgid, true, Str(TOO_LARGE)))
  {
    hide Dispatch, ParseMessage, RequestPayload, ParseIncoming, ResponseTo, Fits, Faithful, EncodeItems;
    RequestArrives(m.msgid, name, args);
    CallAnswered(m, name, args, bufSize);
  }

  /** `rpc.ping` returns the protocol version and changes nothing but the time of the last frame. */
  lemma PingOverTheWire(m: Moment, args: seq<Value>, bufSize: nat)
    requires Serviceable(m.device) && bufSize >= MIN_BUF && m.msgid <= U32 && Messages.Sendable(args)
    ensures Call(m, PING, args, bufSize) == (Alive(m), Reply(m.msgid, false, Uint(PROTOCOL_VERSION)))
  {
    hide Call, ResponseHeader, Decode, EncodeItems;
    BuiltinNames();
    CallDispatches(m, PING, args, bufSize);
    HeaderBound(m.msgid);
    IntIsWhole(PROTOCOL_VERSION);
    assert EncodeInt(PROTOCOL_VERSION) == [1] by { OneByte(); }
  }

  /** The optional first parameter of `rpc.list` and `rpc.attach`; None is not a 32-bit unsigned number. */
  function LeadingU32(args: seq<Value>): (r: Option<nat>)
    ensures r.Some? ==> r.value <= U32
  {
    if args == [] then Some(0)
    else
      match args[0]
      case Int(i) => (if 0 <= i <= U32 then Some(i) else None)
      case Uint(u) => (if u <= U32 then Some(u) else None)
      case _ => None
  }

  lemma LeadingParameter(args: seq<Value>)
    requires Messages.Sendable(args)
    ensures OptionalU32(|args|, EncodeItems(args)) == LeadingU32(args)
  {
    hide Encode, ReadInt;
    if args != [] {
      var rest := EncodeItems(args[1..]);
      assert EncodeItems(args) == Encode(args[0]) + rest;
      FirstParameter(args[0], rest);
      hide EncodeItems;
    }
  }

  lemma FirstParameter(v: Value, rest: seq<byte>)
    requires Encodable(v)
    ensures var r := ReadInt(Encode(v) + rest);
      match v
      case Int(i) => r.Some? && r.value.value == i
      case Uint(u) => r.Some? && r.value.value == u
      case _ => r.None?
  {
    match v {
      case Int(i) => ReadsInt(i, rest);
      case Uint(u) => ReadsInt(u, rest);
      case _ => NotAnInteger(v, rest);
    }
  }

  lemma NotAnInteger(v: Value, rest: seq<byte>)
    requires Encodable(v) && !v.Int? && !v.Uint?
    ensures ReadInt(Encode(v) + rest) == None
  {
    hide Be, EncodeItems, EncodeEntries;
    match v {
      case Null =>
      case Bool(_) =>
      case Float(bits) =>
        assert Encode(v)[0] == 0xcb;
      case Str(t) =>
        StrStarts(t, rest);
      case Bin(t) =>
        assert 0xc4 <= Encode(v)[0] <= 0xc6;
      case Arr(items) =>
        assert 0x90 <= Encode(v)[0] <= 0x9f || 0xdc <= Encode(v)[0] <= 0xdd;
      case Map(entries) =>
        assert 0x80 <= Encode(v)[0] <= 0x8f || 0xde <= Encode(v)[0] <= 0xdf;
    }
  }

  /** `rpc.attach`, with a timeout or without, leaves the device attached from this moment on. */
  lemma AttachOverTheWire(m: Moment, args: seq<Value>, bufSize: nat)
    requires Serviceable(m.device) && bufSize >= MIN_BUF && m.msgid <= U32
    requires Messages.Sendable(args) && LeadingU32(args).Some?
    ensures var l, timeoutMs := m.device.link, LeadingU32(args).value;
      Call(m, ATTACH, args, bufSize) ==
        (m.device.(link := Link(true, timeoutMs > 0, timeoutMs, m.now, l.attachCalls + 1, l.detachCalls)),
         Reply(m.msgid, false, Arr([Uint(PROTOCOL_VERSION), Uint(|m.device.handlers|)])))
  {
    hide Call, Dispatch, ResponseHeader, Decode, EncodeItems, EncodeInt, ArrayHeader, ReadInt, OptionalU32, LeadingU32;
    CallDispatches(m, ATTACH, args, bufSize);
    DispatchAttaches(Alive(m), args, m.now, bufSize);
    HeaderBound(m.msgid);
    PairIsWhole(PROTOCOL_VERSION, |m.device.handlers|);
    PairIsShort(|m.device.handlers|);
  }

  lemma DispatchAttaches(s: State, args: seq<Value>, now: nat, bufSize: nat)
    requires Messages.Sendable(args) && LeadingU32(args).Some?
    ensures Dispatch(s, ATTACH, |args|, EncodeItems(args), now, bufSize) ==
      (s.(link := Attach(s.link, LeadingU32(args).value, now)),
       Wrote(ArrayHeader(2) + EncodeInt(PROTOCOL_VERSION) + EncodeInt(|s.handlers| % 0x1_0000_0000)))
  {
    hide EncodeItems, EncodeInt, ArrayHeader, OptionalU32, LeadingU32;
    BuiltinNames();
    LeadingParameter(args);
  }

  /** Anything else as first parameter is "bad args", counted, and changes nothing. */
  lemma BadArgsOverTheWire(m: Moment, name: seq<byte>, args: seq<Value>, bufSize: nat)
    requires Serviceable(m.device) && bufSize >= MIN_BUF && m.msgid <= U32
    requires Messages.Sendable(args) && LeadingU32(args).None? && (name == LIST || name == ATTACH)
    ensures Call(m, name, args, bufSize) ==
      (Alive(m).(counters := m.device.counters.(handler := Bump(m.device.counters.handler))),
       Reply(m.msgid, true, Str(BAD_ARGS)))
  {
    hide Call, ErrorResponse, Decode, EncodeItems, OptionalU32, LeadingU32, Page;
    BuiltinNames();
    CallDispatches(m, name, args, bufSize);
    LeadingParameter(args);
    ShortErrorFits(m.msgid, BAD_ARGS);
  }

  lemma PairIsShort(n: nat)
    requires n < 65536
    ensures |ArrayHeader(2)| + |EncodeInt(PROTOCOL_VERSION)| + |EncodeInt(n)| <= 7
  {
    hide Be;
  }

  /** `rpc.detach` answers nil, detaches, and fires the callback only if a host was attached. */
  lemma DetachOverTheWire(m: Moment, args: seq<Value>, bufSize: nat)
    requires Serviceable(m.device) && bufSize >= MIN_BUF && m.msgid <= U32 && Messages.Sendable(args)
    ensures var l := m.device.link;
      Call(m, DETACH, args, bufSize) ==
        (m.device.(link := Link(false, false, l.timeoutMs, m.now, l.attachCalls,
                                if l.attached then l.detachCalls + 1 else l.detachCalls)),
         Reply(m.msgid, false, Null))
  {
    hide Call, ResponseHeader, Decode, EncodeItems;
    BuiltinNames();
    CallDispatches(m, DETACH, args, bufSize);
    HeaderBound(m.msgid);
  }

  /**
   Any other name runs the handler bound under it, once, on the undecoded arguments, and the
   host gets what the handler left.
   */
  lemma HandlerOverTheWire(m: Moment, h: Handler, args: seq<Value>, bufSize: nat)
    requires Serviceable(m.device) && DistinctNames(m.device.handlers) && bufSize >= MIN_BUF
    requires m.msgid <= U32 && Messages.Sendable(args) && |h.name| <= U32
    requires h in m.device.handlers && h.name !in {PING, LIST, ATTACH, DETACH}
    ensures var o := h.run(|args|, EncodeItems(args), m.device.runs);
      var fits := Fits(m.msgid, o, bufSize);
      Served(m, h.name, args, bufSize) == o && Faithful(o) &&
      Call(m, h.name, args, bufSize) ==
        (AfterRun(Alive(m), o, fits),
         if fits then Meaning(m.msgid, o) else Reply(m.msgid, true, Str(TOO_LARGE)))
  {
    hide Call, Dispatch, DistinctNames, Serviceable, EncodeItems, Faithful, Fits, Meaning, CountFailure, CountOverflow,
      AfterRun, Bump;
    var o := h.run(|args|, EncodeItems(args), m.device.runs);
    var s := Alive(m);
    assert s.handlers == m.device.handlers && s.runs == m.device.runs;
    CallDispatches(m, h.name, args, bufSize);
    DispatchRuns(s, h, |args|, EncodeItems(args), m.now, bufSize);
    Counted(s, o, Fits(m.msgid, o, bufSize));
  }

  /** One more handler has run, its failure is counted, and so is a response that did not fit. */
  function AfterRun(s: State, o: Outcome, fits: bool): State {
    var c := s.counters;
    s.(runs := s.runs + 1,
       counters := c.(handler := if o.Failed? then Bump(c.handler) else c.handler,
                      overflow := if fits then c.overflow else Bump(c.overflow)))
  }

  lemma Counted(s: State, o: Outcome, fits: bool)
    ensures var t := CountFailure(s.(runs := s.runs + 1), o);
      (if fits then t else CountOverflow(t)) == AfterRun(s, o, fits)
  {}

  lemma DispatchRuns(s: State, h: Handler, count: nat, params: seq<byte>, now: nat, bufSize: nat)
    requires DistinctNames(s.handlers) && h in s.handlers && h.name !in {PING, LIST, ATTACH, DETACH}
    ensures var o := h.run(count, params, s.runs);
      Dispatch(s, h.name, count, params, now, bufSize) == (CountFailure(s.(runs := s.runs + 1), o), o)
  {
    hide OptionalU32, Page, DistinctNames, IndexOf;
    OnlyIndex(s.handlers, h, IndexOf(s.handlers, h.name));
  }

  /** A name that is neither built in nor bound is "unknown method", and counted. */
  lemma UnknownOverTheWire(m: Moment, name: seq<byte>, args: seq<Value>, bufSize: nat)
    requires Serviceable(m.device) && bufSize >= MIN_BUF
    requires m.msgid <= U32 && Messages.Sendable(args) && |name| <= U32
    requires name !in {PING, LIST, ATTACH, DETACH} && forall h :: h in m.device.handlers ==> h.name != name
    ensures Call(m, name, args, bufSize) ==
      (Alive(m).(counters := m.device.counters.(unknown := Bump(m.device.counters.unknown))),
       Reply(m.msgid, true, Str(UNKNOWN_METHOD)))
  {
    hide Call, ErrorResponse, ResponseHeader, Decode, EncodeItems, Faithful;
    CallDispatches(m, name, args, bufSize);
    ShortErrorFits(m.msgid, UNKNOWN_METHOD);
  }

  lemma OnlyIndex(handlers: seq<Handler>, h: Handler, i: nat)
    requires h in handlers && DistinctNames(handlers) && i == IndexOf(handlers, h.name)
    ensures i < |handlers| && handlers[i] == h
  {
    var k :| 0 <= k < |handlers| && handlers[k] == h;
    assert i <= k;
  }

  lemma ShortErrorFits(msgid: nat, message: seq<byte>)
    requires msgid <= U32 && |message| <= 18
    ensures |ErrorResponse(msgid, message)| <= MIN_BUF
  {
    HeaderBound(msgid);
    hide EncodeInt;
    assert |EncodeInt(1)| == 1 by { OneByte(); }
  }

  // --- notifications act too, and are never answered ---------------------

  function WithoutOverflows(s: State): State {
    s.(counters := s.counters.(overflow := 0))
  }

  /**
   A notification does to the device whatever a request of the same method and parameters does,
   short of counting a response that does not fit; it is not answered.
   */
  lemma NoticeActs(s: State, notice: seq<byte>, request: seq<byte>, now: nat, bufSize: nat)
    requires ParseMessage(notice).Notification? && ParseMessage(request).Request?
    requires var n, r := ParseMessage(notice), ParseMessage(request);
      n.name == r.name && n.count == r.count && n.params == r.params
    ensures HandleFrame(s, notice, now, bufSize).1 == None
    ensures WithoutOverflows(HandleFrame(s, notice, now, bufSize).0) ==
      WithoutOverflows(HandleFrame(s, request, now, bufSize).0)
  {
    hide ParseMessage, Dispatch, Fits, ResponseTo;
  }

  /** In particular a bound method runs once on the host's arguments, and its failure is counted. */
  lemma NoticeRuns(m: Moment, h: Handler, args: seq<Value>, bufSize: nat)
    requires DistinctNames(m.device.handlers) && Messages.Sendable(args) && |h.name| <= U32
    requires h in m.device.handlers && h.name !in {PING, LIST, ATTACH, DETACH}
    ensures HandleFrame(m.device, NoticePayload(h.name, args), m.now, bufSize) ==
      (AfterRun(Alive(m), h.run(|args|, EncodeItems(args), m.device.runs), true), None)
  {
    hide ParseMessage, NoticePayload, Dispatch, DistinctNames, EncodeItems, CountFailure, CountOverflow, AfterRun, Bump;
    var s := Alive(m);
    assert s.handlers == m.device.handlers && s.runs == m.device.runs;
    NoticeArrives(h.name, args);
    NoticeDispatches(m, h.name, args, bufSize);
    DispatchRuns(s, h, |args|, EncodeItems(args), m.now, bufSize);
    Counted(s, h.run(|args|, EncodeItems(args), s.runs), true);
  }

  lemma NoticeDispatches(m: Moment, name: seq<byte>, args: seq<Value>, bufSize: nat)
    requires Messages.Sendable(args) && |name| <= U32
    ensures HandleFrame(m.device, NoticePayload(name, args), m.now, bufSize) ==
      (Dispatch(Alive(m), name, |args|, EncodeItems(args), m.now, bufSize).0, None)
  {
    hide ParseMessage, NoticePayload, Dispatch, EncodeItems;
    NoticeArrives(name, args);
  }

  /** One of an unknown name is counted and nothing else. */
  lemma NoticeUnknown(m: Moment, name: seq<byte>, args: seq<Value>, bufSize: nat)
    requires Messages.Sendable(args) && |name| <= U32
    requires name !in {PING, LIST, ATTACH, DETACH} && forall h :: h in m.device.handlers ==> h.name != name
    ensures HandleFrame(m.device, NoticePayload(name, args), m.now, bufSize) ==
      (Alive(m).(counters := m.device.counters.(unknown := Bump(m.device.counters.unknown))), None)
  {
    hide ParseMessage, NoticePayload, EncodeItems, Bump;
    NoticeArrives(name, args);
  }

  /** And `rpc.detach`, which the host sends in this form, detaches. */
  lemma NoticeDetaches(m: Moment, bufSize: nat)
    ensures HandleFrame(m.device, NoticePayload(DETACH, []), m.now, bufSize) ==
      (Alive(m).(link := Detach(Alive(m).link)), None)
  {
    hide ParseMessage, NoticePayload;
    BuiltinNames();
    NoticeArrives(DETACH, []);
    assert EncodeItems([]) == [];
  }

  // --- rpc.list over the wire --------------------------------------------

  /** The entries the host reads from the response to `rpc.list start`; None is an exception. */
  function WireFetch(m: Moment, start: nat, bufSize: nat): Option<seq<Method>>
    requires start <= I64_MAX && m.msgid <= U32
  {
    var args := [Int(start)];
    var response := HandleFrame(m.device, RequestPayload(m.msgid, LIST, args), m.now, bufSize).1;
    if response.None? then None
    else
      match ParseIncoming(response.value)
      case Reply(id, isError, v) => (if isError || id != m.msgid then None else ParseList(v))
      case _ => None
  }

  lemma ServedList(m: Moment, start: nat, bufSize: nat)
    requires start <= U32
    ensures Served(m, LIST, [Int(start)], bufSize) ==
      var page := Page(Listing(m.device.handlers), start, ResultScratch(bufSize));
      if page.Some? then Wrote(page.value) else Failed(TOO_LARGE)
  {
    hide Page, EncodeItems, OptionalU32;
    LeadingParameter([Int(start)]);
    BuiltinNames();
  }

  /** Through request and response bytes, a page of the list is the page the device built. */
  lemma WireFetches(m: Moment, start: nat, bufSize: nat)
    requires Serviceable(m.device) && bufSize >= MIN_BUF && m.msgid <= U32 && start <= U32
    ensures WireFetch(m, start, bufSize) == Fetch(Listing(m.device.handlers), ResultScratch(bufSize), start)
  {
    hide HandleFrame, RequestPayload, ParseIncoming, Decode, Page, Listing, Dispatch, ParseList, ResponseHeader,
      Listable, Faithful;
    var o := Served(m, LIST, [Int(start)], bufSize);
    var table, scratch := Listing(m.device.handlers), ResultScratch(bufSize);
    CallAnswered(m, LIST, [Int(start)], bufSize);
    ServedList(m, start, bufSize);
    PageIsWhole(table, start, scratch);
    HeaderBound(m.msgid);
    assert Page(table, start, scratch).Some? ==> Fits(m.msgid, o, bufSize);
    if Fits(m.msgid, o, bufSize) {
      assert WireFetch(m, start, bufSize) ==
        match Meaning(m.msgid, o) case Reply(_, isError, v) => if isError then None else ParseList(v) case _ => None;
    }
  }

  /**
   `list()` against a device whose table stands still: through the bytes of every request
   and response, and with any message ids and clock readings, the host obtains the whole
   table in order exactly when each entry fits a page and at most 256 pages are needed.
   */
  lemma ListOverTheWire(handlers: seq<Handler>, moments: nat -> Moment, bufSize: nat,
                        fetch: nat -> Option<seq<Method>>)
    requires forall k: nat :: moments(k).device.handlers == handlers && moments(k).msgid <= U32
    requires Serviceable(moments(0).device) && DistinctNames(handlers) && bufSize >= MIN_BUF
    requires forall k: nat :: k <= U32 ==> fetch(k) == WireFetch(moments(k), k, bufSize)
    ensures var table, scratch := Listing(handlers), ResultScratch(bufSize);
      Collect(fetch, [], MAX_LIST_PAGES) == Some(table) <==>
        (forall i :: 0 <= i < |table| ==> ARRAY_HEADER_LEN + |EncodeMethod(table[i])| <= scratch) &&
        PagesFrom(table, scratch, 0).Some? && PagesFrom(table, scratch, 0).value <= MAX_LIST_PAGES
  {
    hide WireFetch, Fetch, EncodeMethod, Collect;
    var table, scratch := Listing(handlers), ResultScratch(bufSize);
    forall k: nat | k <= |table|
      ensures fetch(k) == Fetch(table, scratch, k)
    {
      WireFetches(moments(k), k, bufSize);
    }
    ListFetched(table, scratch, fetch);
  }
}
