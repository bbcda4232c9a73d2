/**
 The dispatcher of server.h as a state machine: what one valid frame, one poll of the clock
 and one outgoing notification do to the device.
 */
module Device {
  import opened Bytes
  import opened MsgPack
  import opened RpcList

  // --- messages ----------------------------------------------------------

  datatype Message =
    | Request(msgid: nat, name: seq<byte>, count: nat, params: seq<byte>)
    | Notification(name: seq<byte>, count: nat, params: seq<byte>)
    | Malformed

  const INT_MIN: int := -0x8000_0000
  const INT_MAX: int := 0x7fff_ffff

  /** The array header and the message type that start every message. */
  function Preamble(s: seq<byte>): (r: Option<(nat, int, nat)>)
    ensures r.Some? ==> r.value.2 <= |s|
  {
    var n := ReadArrayHeader(s);
    if n.None? then None
    else
      var t := ReadIn(s[n.value.size..], INT_MIN, INT_MAX);
      if t.None? then None else Some((n.value.value, t.value.value, n.value.size + t.value.size))
  }

  /** A method name and the header of its parameter array. */
  function Target(s: seq<byte>): Option<(seq<byte>, nat, seq<byte>)> {
    var m := ReadStr(s);
    if m.None? then None
    else
      var n := ReadArrayHeader(s[m.value.size..]);
      if n.None? then None
      else Some((m.value.bytes, n.value.value, s[m.value.size + n.value.size..]))
  }

  function ParseRequest(s: seq<byte>): Message {
    var id := ReadIn(s, 0, U32);
    if id.None? then Malformed
    else
      var t := Target(s[id.value.size..]);
      if t.None? then Malformed else Request(id.value.value, t.value.0, t.value.1, t.value.2)
  }

  function ParseNotification(s: seq<byte>): Message {
    var t := Target(s);
    if t.None? then Malformed else Notification(t.value.0, t.value.1, t.value.2)
  }

  /** Bytes after the parameter header are left to the handler; only headers are checked here. */
  function ParseMessage(s: seq<byte>): Message {
    var p := Preamble(s);
    if p.None? then Malformed
    else if p.value.1 == 0 && p.value.0 == 4 then ParseRequest(s[p.value.2..])
    else if p.value.1 == 2 && p.value.0 == 3 then ParseNotification(s[p.value.2..])
    else Malformed
  }

  // --- handlers and replies ----------------------------------------------

  /** What a handler leaves in its Reply: an error string, or whatever it packed. */
  datatype Outcome = Failed(message: seq<byte>) | Wrote(result: seq<byte>)

  /**
   A bound method. `run` sees the parameter count and the undecoded parameters; since the
   callable may keep state of its own, its outcome also depends on how many came before it.
   */
  datatype Handler = Handler(name: seq<byte>, signature: seq<byte>, run: (nat, seq<byte>, nat) -> Outcome)

  const PING: seq<byte> := Ascii("rpc.ping")
  const LIST: seq<byte> := Ascii("rpc.list")
  const ATTACH: seq<byte> := Ascii("rpc.attach")
  const DETACH: seq<byte> := Ascii("rpc.detach")
  const BAD_ARGS: seq<byte> := Ascii("bad args")
  const UNKNOWN_METHOD: seq<byte> := Ascii("unknown method")
  const TOO_LARGE: seq<byte> := Ascii("response too large")

  lemma BuiltinNames()
    ensures PING != LIST && PING != ATTACH && PING != DETACH
    ensures LIST != ATTACH && LIST != DETACH && ATTACH != DETACH
    ensures |PING| == 8 && |LIST| == 8 && |ATTACH| == 10 && |DETACH| == 10
  {
    assert LIST[4] as int == 'l' as int && PING[4] as int == 'p' as int;
    assert ATTACH[4] as int == 'a' as int && DETACH[4] as int == 'd' as int;
  }

  const PROTOCOL_VERSION: nat := 1
  const RESPONSE_HEADER_MAX: nat := 8

  /** Room for a handler's packed result. */
  function ResultScratch(bufSize: nat): (n: nat)
    ensures n >= 1
  {
    if bufSize > RESPONSE_HEADER_MAX then bufSize - RESPONSE_HEADER_MAX else 1
  }

  function ErrorResponse(msgid: nat, message: seq<byte>): seq<byte>
    requires msgid <= U32
  {
    ArrayHeader(4) + EncodeInt(1) + EncodeInt(msgid) + EncodeStr(message) + NIL
  }

  function ResponseHeader(msgid: nat): seq<byte>
    requires msgid <= U32
  {
    ArrayHeader(4) + EncodeInt(1) + EncodeInt(msgid) + NIL
  }

  /** Array, type, at most five bytes of id and the nil of the error slot. */
  lemma HeaderBound(msgid: nat)
    requires msgid <= U32
    ensures |ResponseHeader(msgid)| <= RESPONSE_HEADER_MAX
    ensures |EncodeInt(msgid)| <= 5
  {
    hide Be;
  }

  /** The response too large for the buffer becomes this one, itself cut to the buffer. */
  function TooLarge(msgid: nat, bufSize: nat): seq<byte>
    requires msgid <= U32
  {
    var r := ErrorResponse(msgid, TOO_LARGE);
    r[..Min(|r|, bufSize)]
  }

  /** Whether the outcome fits the buffers: the scratch first, then the payload. */
  predicate Fits(msgid: nat, o: Outcome, bufSize: nat)
    requires msgid <= U32
  {
    match o
    case Failed(m) => |ErrorResponse(msgid, m)| <= bufSize
    case Wrote(r) =>
      |r| <= ResultScratch(bufSize) && |ResponseHeader(msgid)| + (if r == [] then 1 else |r|) <= bufSize
  }

  /** The payload of the one response to a request. */
  function ResponseTo(msgid: nat, o: Outcome, bufSize: nat): seq<byte>
    requires msgid <= U32
  {
    if !Fits(msgid, o, bufSize) then TooLarge(msgid, bufSize)
    else
      match o
      case Failed(m) => ErrorResponse(msgid, m)
      case Wrote(r) => ResponseHeader(msgid) + if r == [] then NIL else r
  }

  // --- the device --------------------------------------------------------

  datatype Counters = Counters(unknown: nat, handler: nat, malformed: nat, overflow: nat)

  /** Attachment to a host, and how often the two callbacks have fired. */
  datatype Link = Link(attached: bool, hasTimeout: bool, timeoutMs: nat, lastFrameMs: nat,
                       attachCalls: nat, detachCalls: nat)

  /** `runs` counts the handlers run so far. */
  datatype State = State(handlers: seq<Handler>, link: Link, counters: Counters, runs: nat)

  function Listing(handlers: seq<Handler>): (ms: seq<Method>)
    ensures |ms| == |handlers|
    ensures forall i :: 0 <= i < |handlers| ==> ms[i] == Method(handlers[i].name, handlers[i].signature)
  {
    seq(|handlers|, i requires 0 <= i < |handlers| => Method(handlers[i].name, handlers[i].signature))
  }

  /** Index of the handler bound under `name`, or the table's length. */
  function IndexOf(handlers: seq<Handler>, name: seq<byte>): (i: nat)
    ensures i <= |handlers|
    ensures i < |handlers| ==> handlers[i].name == name
    ensures forall k :: 0 <= k < i ==> handlers[k].name != name
  {
    FirstWith(handlers, (h: Handler) => h.name, name)
  }

  lemma {:induction false} IndexIsFirst(handlers: seq<Handler>, name: seq<byte>, i: nat)
    requires i <= |handlers| && (i < |handlers| ==> handlers[i].name == name)
    requires forall k :: 0 <= k < i ==> handlers[k].name != name
    ensures IndexOf(handlers, name) == i
  {}

  /** Error messages are C strings shorter than 2^32. */
  ghost predicate Polite(handlers: seq<Handler>) {
    forall h, count: nat, params, runs: nat :: h in handlers && h.run(count, params, runs).Failed? ==>
      |h.run(count, params, runs).message| <= U32
  }

  /** An optional leading unsigned parameter, zero when absent; None is "bad args". */
  function OptionalU32(count: nat, params: seq<byte>): (r: Option<nat>)
    ensures r.Some? ==> r.value <= U32
  {
    if count == 0 then Some(0)
    else
      var v := ReadIn(params, 0, U32);
      if v.None? then None else Some(v.value.value)
  }

  function Attach(l: Link, timeoutMs: nat, now: nat): Link {
    Link(true, timeoutMs > 0, timeoutMs, now, l.attachCalls + 1, l.detachCalls)
  }

  /** Leaves the link detached; the callback fires only if it was attached. */
  function Detach(l: Link): Link {
    l.(attached := false, hasTimeout := false, detachCalls := l.detachCalls + if l.attached then 1 else 0)
  }

  function CountFailure(s: State, o: Outcome): State {
    if o.Failed? then s.(counters := s.counters.(handler := Bump(s.counters.handler))) else s
  }

  function CountOverflow(s: State): State {
    s.(counters := s.counters.(overflow := Bump(s.counters.overflow)))
  }

  /** The four methods of the protocol itself; None is any other name. */
  function DispatchBuiltin(s: State, name: seq<byte>, count: nat, params: seq<byte>, now: nat, bufSize: nat)
    : Option<(State, Outcome)>
  {
    if name == PING then Some((s, Wrote(EncodeInt(PROTOCOL_VERSION))))
    else if name == LIST then
      var start := OptionalU32(count, params);
      if start.None? then Some((s, Failed(BAD_ARGS)))
      else
        var page := Page(Listing(s.handlers), start.value, ResultScratch(bufSize));
        Some(if page.Some? then (s, Wrote(page.value)) else (CountOverflow(s), Failed(TOO_LARGE)))
    else if name == ATTACH then
      var timeout := OptionalU32(count, params);
      if timeout.None? then Some((s, Failed(BAD_ARGS)))
      else
        Some((s.(link := Attach(s.link, timeout.value, now)),
              Wrote(ArrayHeader(2) + EncodeInt(PROTOCOL_VERSION) + EncodeInt(|s.handlers| % 0x1_0000_0000))))
    else if name == DETACH then Some((s.(link := Detach(s.link)), Wrote([])))
    else None
  }

  /** The handler bound under the name, if there is one. */
  function DispatchUser(s: State, name: seq<byte>, count: nat, params: seq<byte>): Option<(State, Outcome)> {
    var i := IndexOf(s.handlers, name);
    if i < |s.handlers| then Some((s.(runs := s.runs + 1), s.handlers[i].run(count, params, s.runs))) else None
  }

  function Dispatch(s: State, name: seq<byte>, count: nat, params: seq<byte>, now: nat, bufSize: nat)
    : (State, Outcome)
  {
    var builtin := DispatchBuiltin(s, name, count, params, now, bufSize);
    if builtin.Some? then (CountFailure(builtin.value.0, builtin.value.1), builtin.value.1)
    else
      var user := DispatchUser(s, name, count, params);
      if user.Some? then (CountFailure(user.value.0, user.value.1), user.value.1)
      else (s.(counters := s.counters.(unknown := Bump(s.counters.unknown))), Failed(UNKNOWN_METHOD))
  }

  /** One valid frame: the new state, and the payload of the response if there is one. */
  function HandleFrame(s: State, payload: seq<byte>, now: nat, bufSize: nat): (State, Option<seq<byte>>) {
    var alive := s.(link := s.link.(lastFrameMs := now));
    match ParseMessage(payload)
    case Malformed => (alive.(counters := alive.counters.(malformed := Bump(alive.counters.malformed))), None)
    case Notification(name, count, params) =>
      (Dispatch(alive, name, count, params, now, bufSize).0, None)
    case Request(msgid, name, count, params) =>
      assert msgid <= U32 by { RequestId(payload); }
      var (s', o) := Dispatch(alive, name, count, params, now, bufSize);
      (if Fits(msgid, o, bufSize) then s' else CountOverflow(s'), Some(ResponseTo(msgid, o, bufSize)))
  }

  lemma RequestId(payload: seq<byte>)
    ensures ParseMessage(payload).Request? ==> ParseMessage(payload).msgid <= U32
  {}

  /** The periodic check; clocks are 32-bit and the subtraction wraps. */
  function CheckTimeout(l: Link, now: nat): Link {
    if l.attached && l.hasTimeout && (now - l.lastFrameMs) % 0x1_0000_0000 >= l.timeoutMs then Detach(l) else l
  }

  /** Binding replaces a handler of the same name, appends while there is room, and is dropped otherwise. */
  function AddHandler(s: State, h: Handler, maxHandlers: nat): State {
    var i := IndexOf(s.handlers, h.name);
    if i < |s.handlers| then s.(handlers := s.handlers[i := h])
    else if |s.handlers| < maxHandlers then s.(handlers := s.handlers + [h])
    else CountOverflow(s)
  }

  ghost predicate DistinctNames(handlers: seq<Handler>) {
    forall i, j :: 0 <= i < j < |handlers| ==> handlers[i].name != handlers[j].name
  }

  /** Names stay distinct however methods are bound, and the table never outgrows its limit. */
  lemma AddHandlerKeepsDistinct(s: State, h: Handler, maxHandlers: nat)
    requires DistinctNames(s.handlers) && |s.handlers| <= maxHandlers
    ensures var t := AddHandler(s, h, maxHandlers);
      DistinctNames(t.handlers) && |t.handlers| <= maxHandlers &&
      (forall i :: 0 <= i < |s.handlers| ==> i < |t.handlers| && t.handlers[i].name == s.handlers[i].name)
  {}

  /** The handler is bound unless its name is new and the table full; only that case is counted. */
  lemma AddHandlerBinds(s: State, h: Handler, maxHandlers: nat)
    requires DistinctNames(s.handlers) && |s.handlers| <= maxHandlers
    ensures var t := AddHandler(s, h, maxHandlers);
      var dropped := |s.handlers| == maxHandlers && forall g :: g in s.handlers ==> g.name != h.name;
      (h in t.handlers || dropped) &&
      (forall i :: 0 <= i < |s.handlers| && s.handlers[i].name != h.name ==> t.handlers[i] == s.handlers[i]) &&
      t.link == s.link && t.runs == s.runs &&
      t.counters == (if dropped then s.counters.(overflow := Bump(s.counters.overflow)) else s.counters)
  {
    var i := IndexOf(s.handlers, h.name);
    if i < |s.handlers| {
      assert s.handlers[i] in s.handlers;
      assert AddHandler(s, h, maxHandlers).handlers[i] == h;
    } else if |s.handlers| < maxHandlers {
      assert AddHandler(s, h, maxHandlers).handlers[|s.handlers|] == h;
    }
  }
}
