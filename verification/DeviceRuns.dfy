/**
 Whole runs of the device: frames that arrive, notifications and log lines that leave, and
 the attach timeout against a clock that wraps every 2^32 milliseconds.
 */
module DeviceRuns {
  import opened Bytes
  import opened MsgPack
  import opened Values
  import opened Device
  import opened Messages
  import Exchange
  import RpcList
  import Framing

  /** Buffer size and handler table size of a Server. */
  datatype Limits = Limits(bufSize: nat, maxHandlers: nat)

  datatype Output = Silent | Framed(payload: seq<byte>) | Plain(text: seq<byte>)

  /** The bytes an output puts on the stream. */
  function Written(out: Output): seq<byte> {
    match out
    case Silent => []
    case Framed(p) => Framing.Frame(p)
    case Plain(t) => t
  }

  /** What drives the device; `Receive` is a frame that passed validation. */
  datatype Step =
    | Begin
    | Bind(handler: Handler)
    | Receive(payload: seq<byte>)
    | Check
    | Notify(name: seq<byte>, args: seq<Value>)
    | Log(level: nat, line: seq<byte>)

  const LOG: seq<byte> := Ascii("log")
  const READY: seq<byte> := Ascii("#serial_rpc ready v1\n")
  const NEWLINE: byte := 10

  /** A line as a NUL-terminated string. */
  function CString(s: seq<byte>): (t: seq<byte>)
    ensures t <= s && ZeroFree(t)
    ensures |t| < |s| ==> s[|t|] == 0
  {
    if s == [] || s[0] == 0 then [] else [s[0]] + CString(s[1..])
  }

  predicate Allowed(step: Step) {
    match step
    case Notify(name, args) => |name| <= U32 && Messages.Sendable(args)
    case Log(level, line) => level <= 0xff && |line| <= U32
    case _ => true
  }

  /** Sent only while attached, and only if it fits the payload buffer. */
  function Announce(s: State, name: seq<byte>, args: seq<Value>, bufSize: nat): (State, Output)
    requires Messages.Sendable(args)
  {
    if !s.link.attached then (s, Silent)
    else
      var p := NoticePayload(name, args);
      if |p| > bufSize then (CountOverflow(s), Silent)
      else (s, Framed(p))
  }

  /** A log line is a notification while attached and plain text otherwise. */
  function EmitLog(s: State, level: nat, line: seq<byte>, bufSize: nat): (State, Output)
    requires level <= 0xff && |line| <= U32
  {
    if s.link.attached then Announce(s, LOG, [Int(level), Str(CString(line))], bufSize)
    else (s, Plain(line + [NEWLINE]))
  }

  /** One step, at the 32-bit clock reading `now`. */
  function Take(s: State, step: Step, now: nat, limits: Limits): (State, Output)
    requires Allowed(step)
  {
    match step
    case Begin => (s.(link := s.link.(attached := false, hasTimeout := false)), Plain(READY))
    case Bind(h) => (AddHandler(s, h, limits.maxHandlers), Silent)
    case Receive(p) =>
      var (s', response) := HandleFrame(s, p, now, limits.bufSize);
      (s', if response.None? then Silent else Framed(response.value))
    case Check => (s.(link := CheckTimeout(s.link, now)), Silent)
    case Notify(name, args) => Announce(s, name, args, limits.bufSize)
    case Log(level, line) => EmitLog(s, level, line, limits.bufSize)
  }

  // --- a run against the true clock --------------------------------------

  const WRAP: nat := 0x1_0000_0000

  /** A step and the milliseconds since the device started, never wrapped. */
  datatype Timed = Timed(step: Step, time: nat)

  ghost predicate Run(steps: seq<Timed>) {
    && (forall i :: 0 <= i < |steps| ==> Allowed(steps[i].step))
    && (forall i, j :: 0 <= i < j < |steps| ==> steps[i].time <= steps[j].time)
  }

  /** The state after the first `n` steps. */
  ghost function At(s: State, steps: seq<Timed>, n: nat, limits: Limits): State
    requires Run(steps) && n <= |steps|
  {
    if n == 0 then s
    else Take(At(s, steps, n - 1, limits), steps[n - 1].step, steps[n - 1].time % WRAP, limits).0
  }

  ghost function Emits(s: State, steps: seq<Timed>, i: nat, limits: Limits): Output
    requires Run(steps) && i < |steps|
  {
    Take(At(s, steps, i, limits), steps[i].step, steps[i].time % WRAP, limits).1
  }

  /** The true time of the last valid frame among the first `n` steps. */
  ghost function LastFrame(steps: seq<Timed>, n: nat): nat
    requires n <= |steps|
  {
    if n == 0 then 0 else if steps[n - 1].step.Receive? then steps[n - 1].time else LastFrame(steps, n - 1)
  }

  const FRESH: State := State([], Link(false, false, 0, 0, 0, 0), Counters(0, 0, 0, 0), 0)

  // --- what one step does to the link ------------------------------------

  /** Method, parameter count and parameters of a well-formed payload. */
  function Invoked(payload: seq<byte>): Option<(seq<byte>, nat, seq<byte>)> {
    match ParseMessage(payload)
    case Request(_, name, count, params) => Some((name, count, params))
    case Notification(name, count, params) => Some((name, count, params))
    case Malformed => None
  }

  predicate Calls(payload: seq<byte>, name: seq<byte>) {
    Invoked(payload).Some? && Invoked(payload).value.0 == name
  }

  /** The timeout of an `rpc.attach` that is accepted. */
  function Attaches(step: Step): (r: Option<nat>)
    ensures r.Some? ==> r.value <= U32
  {
    if step.Receive? && Calls(step.payload, ATTACH) then
      OptionalU32(Invoked(step.payload).value.1, Invoked(step.payload).value.2)
    else None
  }

  /** Whether the step ends an attachment in the way that fires the callback. */
  predicate Detaches(before: State, step: Step, now: nat) {
    before.link.attached &&
    match step
    case Receive(p) => Calls(p, DETACH)
    case Check => !CheckTimeout(before.link, now).attached
    case _ => false
  }

  lemma DispatchLink(s: State, name: seq<byte>, count: nat, params: seq<byte>, now: nat, bufSize: nat)
    ensures var link := Dispatch(s, name, count, params, now, bufSize).0.link;
      var timeout := if name == ATTACH then OptionalU32(count, params) else None;
      link.detachCalls == s.link.detachCalls + (if name == DETACH && s.link.attached then 1 else 0) &&
      link.attached == (timeout.Some? || (name != DETACH && s.link.attached)) &&
      link.timeoutMs == (if timeout.Some? then timeout.value else s.link.timeoutMs) &&
      link.attachCalls == s.link.attachCalls + (if timeout.Some? then 1 else 0) &&
      link.hasTimeout == (if timeout.Some? then timeout.value > 0 else name != DETACH && s.link.hasTimeout) &&
      (link.lastFrameMs == s.link.lastFrameMs || link.lastFrameMs == now)
  {
    BuiltinNames();
    hide RpcList.Page, OptionalU32, IndexOf;
  }

  /** Attachment, timeout and time of the last frame after one step. */
  lemma StepLink(s: State, step: Step, now: nat, limits: Limits)
    requires Allowed(step)
    ensures var t, timeout := Take(s, step, now, limits).0.link, Attaches(step);
      t.detachCalls == s.link.detachCalls + (if Detaches(s, step, now) then 1 else 0) &&
      t.attached == (timeout.Some? || (s.link.attached && !Detaches(s, step, now) && !step.Begin?)) &&
      t.timeoutMs == (if timeout.Some? then timeout.value else s.link.timeoutMs) &&
      t.attachCalls == s.link.attachCalls + (if timeout.Some? then 1 else 0) &&
      (timeout.Some? ==> t.hasTimeout == (timeout.value > 0)) &&
      (timeout.None? && t.attached ==> t.hasTimeout == s.link.hasTimeout) &&
      ((s.link.hasTimeout ==> s.link.attached) ==> t.hasTimeout ==> t.attached) &&
      t.lastFrameMs == (if step.Receive? then now else s.link.lastFrameMs)
  {
    hide Dispatch, ParseMessage, Fits, ResponseTo, NoticePayload, IndexOf, OptionalU32;
    BuiltinNames();
    match step {
      case Receive(p) =>
        var alive := s.(link := s.link.(lastFrameMs := now));
        var m := ParseMessage(p);
        if !m.Malformed? {
          DispatchLink(alive, m.name, m.count, m.params, now, limits.bufSize);
        }
      case _ =>
    }
  }

  /** Only binding touches the table, only a frame runs handlers or counts anything but an overflow. */
  lemma StepKeepsRest(s: State, step: Step, now: nat, limits: Limits)
    requires Allowed(step)
    ensures var t := Take(s, step, now, limits).0;
      (!step.Bind? ==> t.handlers == s.handlers) && (step.Bind? ==> t.link == s.link) &&
      (!step.Receive? ==> t.runs == s.runs && t.counters.(overflow := s.counters.overflow) == s.counters) &&
      (step.Receive? ==> s.runs <= t.runs <= s.runs + 1) &&
      (step.Begin? || step.Check? ==> t.counters == s.counters)
  {
    hide ParseMessage, Dispatch, Fits, ResponseTo, NoticePayload, IndexOf, OptionalU32;
    if step.Receive? && !ParseMessage(step.payload).Malformed? {
      var m := ParseMessage(step.payload);
      DispatchKeepsTable(s.(link := s.link.(lastFrameMs := now)), m.name, m.count, m.params, now, limits.bufSize);
    }
  }

  lemma DispatchKeepsTable(s: State, name: seq<byte>, count: nat, params: seq<byte>, now: nat, bufSize: nat)
    ensures var t := Dispatch(s, name, count, params, now, bufSize).0;
      t.handlers == s.handlers && s.runs <= t.runs <= s.runs + 1
  {
    hide RpcList.Page, OptionalU32, IndexOf;
  }

  /** Over any run the table is what the bindings alone make of it. */
  ghost function Bindings(handlers: seq<Handler>, steps: seq<Timed>, n: nat, maxHandlers: nat): seq<Handler>
    requires n <= |steps|
  {
    if n == 0 then handlers
    else
      var before := Bindings(handlers, steps, n - 1, maxHandlers);
      match steps[n - 1].step
      case Bind(h) =>
        var i := IndexOf(before, h.name);
        if i < |before| then before[i := h] else if |before| < maxHandlers then before + [h] else before
      case _ => before
  }

  lemma {:induction false} TableIsBindings(s: State, steps: seq<Timed>, n: nat, limits: Limits)
    requires Run(steps) && n <= |steps|
    ensures At(s, steps, n, limits).handlers == Bindings(s.handlers, steps, n, limits.maxHandlers)
  {
    if n > 0 {
      hide HandleFrame, Announce, EmitLog, CheckTimeout, IndexOf;
      TableIsBindings(s, steps, n - 1, limits);
      StepKeepsRest(At(s, steps, n - 1, limits), steps[n - 1].step, steps[n - 1].time % WRAP, limits);
    }
  }

  // --- the detach callback -----------------------------------------------

  ghost function Detachments(s: State, steps: seq<Timed>, n: nat, limits: Limits): nat
    requires Run(steps) && n <= |steps|
  {
    if n == 0 then 0
    else
      Detachments(s, steps, n - 1, limits) +
      if Detaches(At(s, steps, n - 1, limits), steps[n - 1].step, steps[n - 1].time % WRAP) then 1 else 0
  }

  /** Over any run the callback has fired once per detachment. */
  lemma {:induction false} DetachCallsCount(s: State, steps: seq<Timed>, n: nat, limits: Limits)
    requires Run(steps) && n <= |steps|
    ensures At(s, steps, n, limits).link.detachCalls == s.link.detachCalls + Detachments(s, steps, n, limits)
  {
    hide Take, Detaches, Attaches;
    if n > 0 {
      DetachCallsCount(s, steps, n - 1, limits);
      StepLink(At(s, steps, n - 1, limits), steps[n - 1].step, steps[n - 1].time % WRAP, limits);
    }
  }

  // --- what being attached means over a run ------------------------------

  /** The timeout given by the last accepted `rpc.attach` among the first `n` steps. */
  ghost function TimeoutSet(steps: seq<Timed>, n: nat): (t: nat)
    requires n <= |steps|
    ensures t <= U32
  {
    if n == 0 then 0
    else if Attaches(steps[n - 1].step).Some? then Attaches(steps[n - 1].step).value
    else TimeoutSet(steps, n - 1)
  }

  /** True time since the last valid frame at step `i`. */
  ghost function Elapsed(steps: seq<Timed>, i: nat): (e: nat)
    requires Run(steps) && i < |steps|
  {
    LastFrameBefore(steps, i);
    steps[i].time - LastFrame(steps, i)
  }

  lemma {:induction false} LastFrameBefore(steps: seq<Timed>, n: nat)
    requires Run(steps) && n <= |steps|
    ensures forall i :: n <= i < |steps| ==> LastFrame(steps, n) <= steps[i].time
  {
    if n > 0 {
      LastFrameBefore(steps, n - 1);
    }
  }

  /** Step `i` ends any attachment: a restart, `rpc.detach`, or a check that finds the timeout passed. */
  ghost predicate Ends(steps: seq<Timed>, i: nat)
    requires Run(steps) && i < |steps|
  {
    match steps[i].step
    case Begin => true
    case Receive(p) => Calls(p, DETACH)
    case Check => TimeoutSet(steps, i) > 0 && Elapsed(steps, i) % WRAP >= TimeoutSet(steps, i)
    case _ => false
  }

  /** Some `rpc.attach` among the first `n` steps was accepted, and no later one of them ended it. */
  ghost predicate InAttachment(steps: seq<Timed>, n: nat)
    requires Run(steps) && n <= |steps|
  {
    exists k :: 0 <= k < n && Attaches(steps[k].step).Some? && forall i :: k < i < n ==> !Ends(steps, i)
  }

  lemma InAttachmentNext(steps: seq<Timed>, n: nat)
    requires Run(steps) && n < |steps|
    ensures InAttachment(steps, n + 1) <==>
      Attaches(steps[n].step).Some? || (InAttachment(steps, n) && !Ends(steps, n))
  {
    hide Attaches, Ends;
    if InAttachment(steps, n) && !Ends(steps, n) {
      var k :| 0 <= k < n && Attaches(steps[k].step).Some? && forall i :: k < i < n ==> !Ends(steps, i);
      assert forall i :: k < i < n + 1 ==> !Ends(steps, i);
    }
    if InAttachment(steps, n + 1) && Attaches(steps[n].step).None? {
      var k :| 0 <= k < n + 1 && Attaches(steps[k].step).Some? && forall i :: k < i < n + 1 ==> !Ends(steps, i);
      assert k < n;
    }
  }

  /** Clock readings wrap, and so does their difference. */
  lemma WrappedDifference(now: nat, last: nat)
    requires last <= now
    ensures (now % WRAP - last % WRAP) % WRAP == (now - last) % WRAP
  {
    var q := now / WRAP - last / WRAP;
    assert now - last == q * WRAP + (now % WRAP - last % WRAP);
    AddWraps(now % WRAP - last % WRAP, q);
  }

  lemma AddWraps(x: int, q: int)
    ensures (q * WRAP + x) % WRAP == x % WRAP
  {
    var k := x / WRAP;
    assert q * WRAP + x == (q + k) * WRAP + x % WRAP;
  }

  /**
   Over any run the device is attached exactly while an accepted `rpc.attach` has not been
   ended, and it keeps the timeout of the last one and the time of the last frame.
   */
  lemma {:induction false} AttachedMeans(steps: seq<Timed>, n: nat, limits: Limits)
    requires Run(steps) && n <= |steps|
    ensures var link := At(FRESH, steps, n, limits).link;
      link.attached == InAttachment(steps, n) && link.timeoutMs == TimeoutSet(steps, n) &&
      link.hasTimeout == (link.attached && TimeoutSet(steps, n) > 0) &&
      link.lastFrameMs == LastFrame(steps, n) % WRAP
  {
    hide Take, Ends, Attaches;
    if n > 0 {
      hide At, InAttachment;
      AttachedMeans(steps, n - 1, limits);
      InAttachmentNext(steps, n - 1);
      AttachedStep(steps, n - 1, limits);
    }
  }

  lemma AttachedStep(steps: seq<Timed>, i: nat, limits: Limits)
    requires Run(steps) && i < |steps|
    requires var link := At(FRESH, steps, i, limits).link;
      link.timeoutMs == TimeoutSet(steps, i) && link.lastFrameMs == LastFrame(steps, i) % WRAP &&
      link.hasTimeout == (link.attached && TimeoutSet(steps, i) > 0)
    ensures var before, after := At(FRESH, steps, i, limits).link, At(FRESH, steps, i + 1, limits).link;
      var timeout := Attaches(steps[i].step);
      after.attached == (timeout.Some? || (before.attached && !Ends(steps, i))) &&
      after.timeoutMs == (if timeout.Some? then timeout.value else before.timeoutMs) &&
      after.hasTimeout == (after.attached && after.timeoutMs > 0) &&
      after.lastFrameMs == (if steps[i].step.Receive? then steps[i].time % WRAP else before.lastFrameMs)
  {
    hide Take, LastFrame, TimeoutSet, Attaches, Calls;
    var s, now := At(FRESH, steps, i, limits), steps[i].time % WRAP;
    StepLink(s, steps[i].step, now, limits);
    LastFrameBefore(steps, i);
    WrappedDifference(steps[i].time, LastFrame(steps, i));
  }

  // --- nothing unsolicited leaves a detached device ----------------------

  /**
   Over any run, a frame leaves the device exactly as the response to a request, or as a
   notification or log line that fits, taken while an accepted `rpc.attach` is in force.
   */
  lemma DetachedStaysQuiet(steps: seq<Timed>, i: nat, limits: Limits)
    requires Run(steps) && i < |steps|
    ensures Emits(FRESH, steps, i, limits).Framed? <==>
      match steps[i].step
      case Receive(p) => ParseMessage(p).Request?
      case Notify(name, args) => InAttachment(steps, i) && |NoticePayload(name, args)| <= limits.bufSize
      case Log(level, line) =>
        InAttachment(steps, i) && |NoticePayload(LOG, [Int(level), Str(CString(line))])| <= limits.bufSize
      case _ => false
  {
    hide At, InAttachment, Dispatch, ParseMessage, ResponseTo, Fits, NoticePayload, CString;
    AttachedMeans(steps, i, limits);
  }

  /** A framed log line reaches the host under its level, up to the first NUL. */
  lemma LogReachesHost(s: State, level: nat, line: seq<byte>, bufSize: nat)
    requires level <= 0xff && |line| <= U32
    ensures var out := EmitLog(s, level, line, bufSize).1;
      out.Framed? ==> ParseIncoming(out.payload) == Notice(LOG, Arr([Uint(level), Str(CString(line))]))
  {
    hide ParseIncoming, NoticePayload, CString;
    var args := [Int(level), Str(CString(line))];
    assert Messages.Sendable(args) && |LOG| == 3;
    NoticeReads(LOG, args);
    LogArguments(level, CString(line));
  }

  lemma LogArguments(level: nat, text: seq<byte>)
    ensures WithinDepth(Arr([Int(level), Str(text)]), 0)
    ensures Normal(Arr([Int(level), Str(text)])) == Arr([Uint(level), Str(text)])
  {
    var a, b := Int(level), Str(text);
    assert [a, b][1..] == [b] && [b][1..] == [];
    assert NormalItems([b]) == [b] + NormalItems([]) == [b];
    assert NormalItems([a, b]) == [Uint(level)] + [b] == [Uint(level), b];
  }

  // --- the timeout -------------------------------------------------------

  /**
   A check of an attached device with a timeout decides rightly, that is, keeps it attached
   exactly while less than the timeout has truly passed since the last valid frame, if and
   only if it comes within 2^32 ms of that frame or the elapsed time, wrapped, still reaches
   the timeout. Without a timeout it changes nothing.
   */
  lemma TimesOutOnTime(steps: seq<Timed>, i: nat, limits: Limits)
    requires Run(steps) && i < |steps| && steps[i].step.Check?
    ensures var timeout, elapsed := TimeoutSet(steps, i), Elapsed(steps, i);
      var after := At(FRESH, steps, i + 1, limits).link.attached;
      if InAttachment(steps, i) && timeout > 0 then
        (after <==> elapsed < timeout) <==> elapsed < WRAP || elapsed % WRAP >= timeout
      else after == InAttachment(steps, i)
  {
    hide At, InAttachment, LastFrame, TimeoutSet;
    AttachedMeans(steps, i, limits);
    AttachedStep(steps, i, limits);
  }

  /**
   The other case occurs: attached once with a timeout and checked one wrap later, the
   device takes no time to have passed and stays attached.
   */
  lemma LateCheckMisses(timeoutMs: nat, start: nat, limits: Limits)
    requires 0 < timeoutMs <= U32
    ensures var attach := Receive(RequestPayload(1, ATTACH, [Uint(timeoutMs)]));
      var steps := [Timed(attach, start), Timed(Check, start + WRAP)];
      Run(steps) && Elapsed(steps, 1) == WRAP > timeoutMs && At(FRESH, steps, 2, limits).link.attached
  {
    hide ParseMessage, RequestPayload, OptionalU32, At, Ends;
    var args := [Uint(timeoutMs)];
    var attach := Receive(RequestPayload(1, ATTACH, args));
    var steps := [Timed(attach, start), Timed(Check, start + WRAP)];
    BuiltinNames();
    RequestArrives(1, ATTACH, args);
    Exchange.LeadingParameter(args);
    assert Attaches(steps[0].step) == Some(timeoutMs);
    assert LastFrame(steps, 1) == start && TimeoutSet(steps, 1) == timeoutMs;
    assert !Ends(steps, 1) by { NotEndedAfterWrap(steps); }
    assert InAttachment(steps, 2);
    AttachedMeans(steps, 2, limits);
  }

  lemma NotEndedAfterWrap(steps: seq<Timed>)
    requires Run(steps) && |steps| == 2 && steps[1].step.Check? && Elapsed(steps, 1) == WRAP
    ensures !Ends(steps, 1)
  {
    hide TimeoutSet, LastFrame;
  }
}
