/**
 Host and device joined by a lossy line: frames may be dropped, delayed and reordered, calls
 may time out, and the device may speak unasked. Frames are taken after validation.
 */
module Protocol {
  import opened Bytes
  import opened MsgPack
  import opened Values
  import opened Device
  import opened Messages
  import opened Host
  import DeviceRuns
  import Exchange

  /** One request served by the device: its state before, and the response it produced. */
  datatype Record = Record(msgid: nat, request: seq<byte>, before: State, now: nat, response: seq<byte>)

  /** An answer handed back to the caller of request `msgid`. */
  datatype Result = Result(msgid: nat, answer: Answer)

  datatype System = System(
    client: Client,
    device: State,
    toDevice: seq<seq<byte>>,
    toHost: seq<seq<byte>>,
    issued: nat,                // ids handed out so far
    sent: map<nat, seq<byte>>,  // request payloads by id
    served: seq<Record>,
    results: seq<Result>)

  datatype Action =
    | Call(name: seq<byte>, args: seq<Value>)
    | CallFails                        // the id is spent but nothing reaches the line
    | HostNotifies(name: seq<byte>, args: seq<Value>)
    | LoseToDevice(i: nat)
    | LoseToHost(i: nat)
    | DeviceTakes(i: nat, now: nat)
    | DeviceActs(step: DeviceRuns.Step, now: nat)
    | HostTakes(i: nat)
    | Return
    | TimeOut

  const START: System := System(IDLE, DeviceRuns.FRESH, [], [], 0, map[], [], [])

  function Without(s: seq<seq<byte>>, i: nat): (r: seq<seq<byte>>)
    requires i < |s|
    ensures forall p :: p in r ==> p in s
  {
    s[..i] + s[i + 1..]
  }

  predicate Enabled(g: System, a: Action) {
    match a
    case Call(name, args) => g.client.waiting.None? && |name| <= U32 && Messages.Sendable(args)
    case CallFails => g.client.waiting.None?
    case HostNotifies(name, args) => |name| <= U32 && Messages.Sendable(args)
    case LoseToDevice(i) => i < |g.toDevice|
    case LoseToHost(i) => i < |g.toHost|
    case DeviceTakes(i, _) => i < |g.toDevice|
    case DeviceActs(step, _) => !step.Receive? && DeviceRuns.Allowed(step)
    case HostTakes(i) => i < |g.toHost|
    case Return => g.client.waiting.Some? && g.client.waiting.value.answer.Some?
    case TimeOut => g.client.waiting.Some? && g.client.waiting.value.answer.None?
  }

  function Next(g: System, a: Action, limits: DeviceRuns.Limits): System
    requires Enabled(g, a)
  {
    match a
    case Call(name, args) =>
      var id := g.client.nextId;
      var p := RequestPayload(id, name, args);
      g.(client := g.client.(nextId := Bump(id), waiting := Some(Waiting(id, None))),
         toDevice := g.toDevice + [p], issued := g.issued + 1, sent := g.sent[id := p])
    case CallFails => g.(client := g.client.(nextId := Bump(g.client.nextId)), issued := g.issued + 1)
    case HostNotifies(name, args) => g.(toDevice := g.toDevice + [NoticePayload(name, args)])
    case LoseToDevice(i) => g.(toDevice := Without(g.toDevice, i))
    case LoseToHost(i) => g.(toHost := Without(g.toHost, i))
    case DeviceTakes(i, now) =>
      var p := g.toDevice[i];
      var (s, response) := HandleFrame(g.device, p, now, limits.bufSize);
      var g' := g.(device := s, toDevice := Without(g.toDevice, i));
      if response.None? then g'
      else
        g'.(toHost := g.toHost + [response.value],
            served := g.served + [Record(IdOf(p), p, g.device, now, response.value)])
    case DeviceActs(step, now) =>
      var (s, out) := DeviceRuns.Take(g.device, step, now, limits);
      g.(device := s, toHost := if out.Framed? then g.toHost + [out.payload] else g.toHost)
    case HostTakes(i) =>
      var m := ParseIncoming(g.toHost[i]);
      // an exception out of a frame ends the call that was waiting
      var c := if m.Throws? then g.client.(waiting := None) else Host.Take(g.client, m);
      g.(client := c, toHost := Without(g.toHost, i))
    case Return =>
      var w := g.client.waiting.value;
      g.(client := g.client.(waiting := None), results := g.results + [Result(w.msgid, w.answer.value)])
    case TimeOut => g.(client := g.client.(waiting := None))
  }

  function IdOf(payload: seq<byte>): nat {
    var m := ParseMessage(payload);
    if m.Request? then m.msgid else 0
  }

  predicate IsRequest(payload: seq<byte>) {
    ParseMessage(payload).Request?
  }

  /** The reply the host would read in a frame. */
  predicate Answers(payload: seq<byte>, msgid: nat, a: Answer) {
    ParseIncoming(payload) == Reply(msgid, a.isError, a.value)
  }

  // --- the invariant -----------------------------------------------------

  /** Requests under way are as sent, each id at most once. */
  ghost predicate RequestsUnderWay(g: System) {
    && (forall p :: p in g.toDevice && IsRequest(p) ==> IdOf(p) in g.sent && g.sent[IdOf(p)] == p)
    && (forall i, j :: 0 <= i < j < |g.toDevice| && IsRequest(g.toDevice[i]) && IsRequest(g.toDevice[j]) ==>
         IdOf(g.toDevice[i]) != IdOf(g.toDevice[j]))
    && (forall p, r :: p in g.toDevice && IsRequest(p) && r in g.served ==> r.msgid != IdOf(p))
  }

  /** What the device served was sent, under that id, and served once. */
  ghost predicate ServedOnce(g: System, bufSize: nat) {
    && (forall r :: r in g.served ==>
         r.msgid in g.sent && g.sent[r.msgid] == r.request && IsRequest(r.request) && IdOf(r.request) == r.msgid &&
         HandleFrame(r.before, r.request, r.now, bufSize).1 == Some(r.response))
    && (forall i, j :: 0 <= i < j < |g.served| ==> g.served[i].msgid != g.served[j].msgid)
  }

  /** A reply on the line, accepted or returned is the response of a record with its id. */
  ghost predicate RepliesAreResponses(g: System) {
    && (forall q, id, a :: q in g.toHost && Answers(q, id, a) ==> HasRecord(g, id, a))
    && (g.client.waiting.Some? && g.client.waiting.value.answer.Some? ==>
         HasRecord(g, g.client.waiting.value.msgid, g.client.waiting.value.answer.value))
    && (forall t :: t in g.results ==> HasRecord(g, t.msgid, t.answer))
  }

  ghost predicate HasRecord(g: System, id: nat, a: Answer) {
    exists r :: r in g.served && r.msgid == id && Answers(r.response, id, a)
  }

  ghost predicate IdsInOrder(g: System) {
    && g.client.nextId == (g.issued + 1) % DeviceRuns.WRAP
    && (forall id :: id in g.sent ==> id <= g.issued && id <= U32 && (id == 0 ==> g.issued == DeviceRuns.WRAP))
    && (g.client.waiting.Some? ==> g.client.waiting.value.msgid in g.sent)
  }

  ghost predicate ResultsOnce(g: System) {
    && (forall t :: t in g.results ==> g.client.waiting.Some? ==> t.msgid != g.client.waiting.value.msgid)
    && (forall t :: t in g.results ==> t.msgid in g.sent)
    && (forall i, j :: 0 <= i < j < |g.results| ==> g.results[i].msgid != g.results[j].msgid)
  }

  ghost predicate Inv(g: System, bufSize: nat) {
    IdsInOrder(g) && RequestsUnderWay(g) && ServedOnce(g, bufSize) && RepliesAreResponses(g) && ResultsOnce(g)
  }

  // --- facts about single frames -----------------------------------------

  lemma RequestFacts(id: nat, name: seq<byte>, args: seq<Value>)
    requires id <= U32 && Messages.Sendable(args) && |name| <= U32
    ensures IsRequest(RequestPayload(id, name, args)) && IdOf(RequestPayload(id, name, args)) == id
  {
    hide ParseMessage, RequestPayload;
    RequestArrives(id, name, args);
  }

  lemma NoticeFacts(name: seq<byte>, args: seq<Value>)
    requires Messages.Sendable(args) && |name| <= U32
    ensures !IsRequest(NoticePayload(name, args))
    ensures forall id, a :: !Answers(NoticePayload(name, args), id, a)
  {
    hide NoticePayload, ParseMessage, ParseIncoming;
    NoticeArrives(name, args);
    NoticeIsNoReply(name, args);
  }

  lemma ResponseFacts(s: State, p: seq<byte>, now: nat, bufSize: nat)
    requires bufSize >= RESPONSE_HEADER_MAX
    ensures var r := HandleFrame(s, p, now, bufSize).1;
      r.Some? <==> IsRequest(p)
    ensures var r := HandleFrame(s, p, now, bufSize).1;
      r.Some? ==> forall id, a :: Answers(r.value, id, a) ==> id == IdOf(p)
  {
    hide ParseMessage, Dispatch, ParseIncoming, ResponseTo, Fits;
    var m := ParseMessage(p);
    if m.Request? {
      RequestId(p);
      var alive := s.(link := s.link.(lastFrameMs := now));
      ResponseNamesRequest(m.msgid, Dispatch(alive, m.name, m.count, m.params, now, bufSize).1, bufSize);
    }
  }

  lemma ActsFacts(s: State, step: DeviceRuns.Step, now: nat, limits: DeviceRuns.Limits)
    requires !step.Receive? && DeviceRuns.Allowed(step)
    ensures var out := DeviceRuns.Take(s, step, now, limits).1;
      out.Framed? ==> forall id, a :: !Answers(out.payload, id, a)
  {
    hide NoticePayload, Answers, DeviceRuns.CString;
    match step {
      case Notify(name, args) =>
        NoticeFacts(name, args);
      case Log(level, line) =>
        var args := [Int(level), Str(DeviceRuns.CString(line))];
        assert Messages.Sendable(args) && |DeviceRuns.LOG| == 3;
        NoticeFacts(DeviceRuns.LOG, args);
      case _ =>
    }
  }

  // --- every action keeps the invariant ----------------------------------

  lemma RecordsStay(g: System, h: System)
    requires forall r :: r in g.served ==> r in h.served
    ensures forall id, a :: HasRecord(g, id, a) ==> HasRecord(h, id, a)
  {
    hide Answers;
  }

  lemma CallKeeps(g: System, name: seq<byte>, args: seq<Value>, limits: DeviceRuns.Limits)
    requires Inv(g, limits.bufSize) && Enabled(g, Call(name, args)) && g.issued + 1 <= DeviceRuns.WRAP
    ensures Inv(Next(g, Call(name, args), limits), limits.bufSize)
  {
    hide ParseMessage, ParseIncoming, RequestPayload, HandleFrame, Answers, IsRequest, IdOf, Messages.Sendable;
    var h := Next(g, Call(name, args), limits);
    var id := g.client.nextId;
    assert id == (if g.issued + 1 == DeviceRuns.WRAP then 0 else g.issued + 1) && id !in g.sent;
    RequestFacts(id, name, args);
    RecordsStay(g, h);
    hide HasRecord;
  }

  lemma HostNotifiesKeeps(g: System, name: seq<byte>, args: seq<Value>, limits: DeviceRuns.Limits)
    requires Inv(g, limits.bufSize) && Enabled(g, HostNotifies(name, args))
    ensures Inv(Next(g, HostNotifies(name, args), limits), limits.bufSize)
  {
    hide ParseMessage, ParseIncoming, NoticePayload, HandleFrame, Answers, IsRequest, IdOf, Messages.Sendable;
    var h := Next(g, HostNotifies(name, args), limits);
    NoticeFacts(name, args);
    RecordsStay(g, h);
    hide HasRecord;
  }

  lemma LosesKeep(g: System, i: nat, limits: DeviceRuns.Limits)
    requires Inv(g, limits.bufSize)
    ensures i < |g.toDevice| ==> Inv(Next(g, LoseToDevice(i), limits), limits.bufSize)
    ensures i < |g.toHost| ==> Inv(Next(g, LoseToHost(i), limits), limits.bufSize)
  {
    hide ParseMessage, ParseIncoming, HandleFrame, Answers, IsRequest, IdOf;
    if i < |g.toDevice| {
      RecordsStay(g, Next(g, LoseToDevice(i), limits));
    }
    if i < |g.toHost| {
      RecordsStay(g, Next(g, LoseToHost(i), limits));
    }
    hide HasRecord;
  }

  lemma DeviceTakesKeeps(g: System, i: nat, now: nat, limits: DeviceRuns.Limits)
    requires Inv(g, limits.bufSize) && i < |g.toDevice| && limits.bufSize >= RESPONSE_HEADER_MAX
    ensures Inv(Next(g, DeviceTakes(i, now), limits), limits.bufSize)
  {
    hide ParseMessage, ParseIncoming, HandleFrame, Answers, IsRequest, IdOf;
    var p := g.toDevice[i];
    var h := Next(g, DeviceTakes(i, now), limits);
    ResponseFacts(g.device, p, now, limits.bufSize);
    RecordsStay(g, h);
    var response := HandleFrame(g.device, p, now, limits.bufSize).1;
    if response.Some? {
      assert Record(IdOf(p), p, g.device, now, response.value) in h.served;
      assert forall id, a :: Answers(response.value, id, a) ==> HasRecord(h, id, a);
    }
    hide HasRecord;
  }

  lemma DeviceActsKeeps(g: System, step: DeviceRuns.Step, now: nat, limits: DeviceRuns.Limits)
    requires Inv(g, limits.bufSize) && Enabled(g, DeviceActs(step, now))
    ensures Inv(Next(g, DeviceActs(step, now), limits), limits.bufSize)
  {
    hide ParseMessage, ParseIncoming, HandleFrame, Answers, IsRequest, IdOf, DeviceRuns.Take, DeviceRuns.Allowed;
    ActsFacts(g.device, step, now, limits);
    RecordsStay(g, Next(g, DeviceActs(step, now), limits));
    hide HasRecord;
  }

  lemma HostTakesKeeps(g: System, i: nat, limits: DeviceRuns.Limits)
    requires Inv(g, limits.bufSize) && i < |g.toHost|
    ensures Inv(Next(g, HostTakes(i), limits), limits.bufSize)
  {
    hide ParseMessage, ParseIncoming, HandleFrame, IsRequest, IdOf;
    var q := g.toHost[i];
    var h := Next(g, HostTakes(i), limits);
    RecordsStay(g, h);
    var m := ParseIncoming(q);
    if m.Reply? {
      assert Answers(q, m.msgid, Answer(m.isError, m.value));
    }
    hide HasRecord;
  }

  lemma CallEndsKeeps(g: System, a: Action, limits: DeviceRuns.Limits)
    requires Inv(g, limits.bufSize) && Enabled(g, a) && (a.Return? || a.TimeOut?)
    ensures Inv(Next(g, a, limits), limits.bufSize)
  {
    hide ParseMessage, ParseIncoming, HandleFrame, Answers, IsRequest, IdOf;
    RecordsStay(g, Next(g, a, limits));
    hide HasRecord;
  }

  lemma CallFailsKeeps(g: System, limits: DeviceRuns.Limits)
    requires Inv(g, limits.bufSize) && Enabled(g, CallFails) && g.issued + 1 <= DeviceRuns.WRAP
    ensures Inv(Next(g, CallFails, limits), limits.bufSize)
  {
    hide ParseMessage, ParseIncoming, HandleFrame, Answers, IsRequest, IdOf;
    RecordsStay(g, Next(g, CallFails, limits));
    hide HasRecord;
  }

  lemma StepKeeps(g: System, a: Action, limits: DeviceRuns.Limits)
    requires Inv(g, limits.bufSize) && Enabled(g, a) && limits.bufSize >= RESPONSE_HEADER_MAX
    requires Next(g, a, limits).issued <= DeviceRuns.WRAP
    ensures Inv(Next(g, a, limits), limits.bufSize)
  {
    hide Inv, HandleFrame, RequestPayload, NoticePayload, ParseIncoming, DeviceRuns.Take, IdOf, Without;
    match a {
      case Call(name, args) => CallKeeps(g, name, args, limits);
      case CallFails => CallFailsKeeps(g, limits);
      case HostNotifies(name, args) => HostNotifiesKeeps(g, name, args, limits);
      case LoseToDevice(i) => LosesKeep(g, i, limits);
      case LoseToHost(i) => LosesKeep(g, i, limits);
      case DeviceTakes(i, now) => DeviceTakesKeeps(g, i, now, limits);
      case DeviceActs(step, now) => DeviceActsKeeps(g, step, now, limits);
      case HostTakes(i) => HostTakesKeeps(g, i, limits);
      case _ => CallEndsKeeps(g, a, limits);
    }
  }

  // --- runs --------------------------------------------------------------

  /** The actions, each enabled in turn, lead from `g` to `h`. */
  ghost predicate Leads(g: System, actions: seq<Action>, h: System, limits: DeviceRuns.Limits)
    decreases |actions|
  {
    if actions == [] then g == h
    else Enabled(g, actions[0]) && Leads(Next(g, actions[0], limits), actions[1..], h, limits)
  }

  lemma {:induction false} IssuedGrows(g: System, actions: seq<Action>, h: System, limits: DeviceRuns.Limits)
    requires Leads(g, actions, h, limits)
    ensures g.issued <= h.issued
    decreases |actions|
  {
    if actions != [] {
      IssuedGrows(Next(g, actions[0], limits), actions[1..], h, limits);
      hide HandleFrame, RequestPayload, NoticePayload, ParseIncoming, DeviceRuns.Take, IdOf, Without;
    }
  }

  lemma {:induction false} RunKeeps(g: System, actions: seq<Action>, h: System, limits: DeviceRuns.Limits)
    requires Inv(g, limits.bufSize) && Leads(g, actions, h, limits)
    requires h.issued <= DeviceRuns.WRAP && limits.bufSize >= RESPONSE_HEADER_MAX
    ensures Inv(h, limits.bufSize)
    decreases |actions|
  {
    hide Inv, Next, Enabled;
    if actions != [] {
      IssuedGrows(Next(g, actions[0], limits), actions[1..], h, limits);
      StepKeeps(g, actions[0], limits);
      RunKeeps(Next(g, actions[0], limits), actions[1..], h, limits);
    }
  }

  lemma StartHolds(bufSize: nat)
    ensures Inv(START, bufSize)
  {}

  /**
   No request is executed twice, nothing is executed that was not sent, and every answer a
   call hands back is the device's response to that very request.
   */
  ghost predicate OwnAnswers(h: System, bufSize: nat) {
    && (forall i, j :: 0 <= i < j < |h.served| ==> h.served[i].msgid != h.served[j].msgid)
    && (forall r :: r in h.served ==>
         && r.msgid in h.sent && h.sent[r.msgid] == r.request
         && HandleFrame(r.before, r.request, r.now, bufSize).1 == Some(r.response))
    && (forall i, j :: 0 <= i < j < |h.results| ==> h.results[i].msgid != h.results[j].msgid)
    && (forall t :: t in h.results ==> HasRecord(h, t.msgid, t.answer))
  }

  /** Over every run that spends at most 2^32 ids, whatever is lost, delayed or reordered. */
  lemma AnswersAreTheirOwn(actions: seq<Action>, h: System, limits: DeviceRuns.Limits)
    requires Leads(START, actions, h, limits) && h.issued <= DeviceRuns.WRAP
    requires limits.bufSize >= RESPONSE_HEADER_MAX
    ensures OwnAnswers(h, limits.bufSize)
  {
    hide Leads, HandleFrame, Answers;
    RunKeeps(START, actions, h, limits);
  }

  /** The answer carries the outcome of the call at the device, or "response too large". */
  predicate AnswersCall(r: Record, t: Result, name: seq<byte>, args: seq<Value>, bufSize: nat)
    requires Messages.Sendable(args) && t.msgid <= U32
  {
    var o := Exchange.Served(Exchange.Moment(r.before, t.msgid, r.now), name, args, bufSize);
    Faithful(o) && Reply(t.msgid, t.answer.isError, t.answer.value) ==
      if Fits(t.msgid, o, bufSize) then Meaning(t.msgid, o) else Reply(t.msgid, true, Str(TOO_LARGE))
  }

  /** For a device of well-behaved handlers, the answer is what the handler made of the arguments. */
  lemma AnswerMeans(actions: seq<Action>, h: System, limits: DeviceRuns.Limits, t: Result,
                    name: seq<byte>, args: seq<Value>)
    requires Leads(START, actions, h, limits) && h.issued <= DeviceRuns.WRAP && limits.bufSize >= MIN_BUF
    requires forall r :: r in h.served ==> Exchange.Serviceable(r.before)
    requires t in h.results && Messages.Sendable(args) && |name| <= U32
    requires t.msgid in h.sent && t.msgid <= U32 && h.sent[t.msgid] == RequestPayload(t.msgid, name, args)
    ensures exists r :: r in h.served && r.msgid == t.msgid && AnswersCall(r, t, name, args, limits.bufSize)
  {
    hide Leads, HandleFrame, ParseIncoming, RequestPayload, Exchange.Serviceable, Exchange.Served, Fits, Meaning,
      Faithful;
    RunKeeps(START, actions, h, limits);
    var r :| r in h.served && r.msgid == t.msgid && Answers(r.response, t.msgid, t.answer);
    Exchange.CallAnswered(Exchange.Moment(r.before, t.msgid, r.now), name, args, limits.bufSize);
  }

  // --- late replies ------------------------------------------------------

  /** The id has been handed out, and its call is over without an answer. */
  ghost predicate GivenUp(g: System, id: nat) {
    && id in g.sent
    && (g.client.waiting.Some? ==> g.client.waiting.value.msgid != id)
    && (forall t :: t in g.results ==> t.msgid != id)
  }

  lemma TimeOutGivesUp(g: System, limits: DeviceRuns.Limits)
    requires Inv(g, limits.bufSize) && Enabled(g, TimeOut)
    ensures GivenUp(Next(g, TimeOut, limits), g.client.waiting.value.msgid)
  {}

  lemma GivenUpStays(g: System, a: Action, id: nat, limits: DeviceRuns.Limits)
    requires Inv(g, limits.bufSize) && GivenUp(g, id) && Enabled(g, a)
    requires Next(g, a, limits).issued <= DeviceRuns.WRAP
    ensures GivenUp(Next(g, a, limits), id)
  {
    hide HandleFrame, RequestPayload, NoticePayload, ParseIncoming, DeviceRuns.Take, IdOf, Without;
    hide RequestsUnderWay, ServedOnce, RepliesAreResponses;
  }

  /** A call that has timed out is never answered afterwards: its reply, if any, is a stray. */
  lemma {:induction false} TimedOutForGood(g: System, actions: seq<Action>, h: System, id: nat,
                                           limits: DeviceRuns.Limits)
    requires Inv(g, limits.bufSize) && GivenUp(g, id) && Leads(g, actions, h, limits)
    requires h.issued <= DeviceRuns.WRAP && limits.bufSize >= RESPONSE_HEADER_MAX
    ensures GivenUp(h, id)
    decreases |actions|
  {
    hide Inv, Next, Enabled, GivenUp;
    if actions != [] {
      IssuedGrows(Next(g, actions[0], limits), actions[1..], h, limits);
      StepKeeps(g, actions[0], limits);
      GivenUpStays(g, actions[0], id, limits);
      TimedOutForGood(Next(g, actions[0], limits), actions[1..], h, id, limits);
    }
  }

  /** Over any run: once the waiting call has timed out, no result ever carries its id. */
  lemma TimedOutNeverAnswered(before: seq<Action>, g: System, after: seq<Action>, h: System, limits: DeviceRuns.Limits)
    requires Leads(START, before, g, limits) && Enabled(g, TimeOut)
    requires Leads(Next(g, TimeOut, limits), after, h, limits)
    requires h.issued <= DeviceRuns.WRAP && limits.bufSize >= RESPONSE_HEADER_MAX
    ensures forall t :: t in h.results ==> t.msgid != g.client.waiting.value.msgid
  {
    hide Leads, Inv;
    var id, g' := g.client.waiting.value.msgid, Next(g, TimeOut, limits);
    IssuedGrows(g', after, h, limits);
    assert g'.issued == g.issued;
    StartHolds(limits.bufSize);
    RunKeeps(START, before, g, limits);
    TimeOutGivesUp(g, limits);
    StepKeeps(g, TimeOut, limits);
    TimedOutForGood(g', after, h, id, limits);
  }

  /** Timing out gives up the waiting id; a frame that answers it later only counts a stray. */
  lemma LateReplyIsStray(g: System, id: nat, i: nat, a: Answer, limits: DeviceRuns.Limits)
    requires GivenUp(g, id) && i < |g.toHost| && Answers(g.toHost[i], id, a)
    ensures var h := Next(g, HostTakes(i), limits);
      h.client.waiting == g.client.waiting && h.results == g.results &&
      h.client.stats == g.client.stats.(strays := g.client.stats.strays + 1)
  {
    hide ParseIncoming;
  }

  // --- one id too many ---------------------------------------------------

  function Fails(n: nat): (actions: seq<Action>)
    ensures |actions| == n
  {
    if n == 0 then [] else [CallFails] + Fails(n - 1)
  }

  /** The system after `n` calls that spend an id and send nothing. */
  function Spent(g: System, n: nat): System {
    g.(client := g.client.(nextId := (g.client.nextId + n) % DeviceRuns.WRAP), issued := g.issued + n)
  }

  lemma {:induction false} FailsLead(g: System, n: nat, rest: seq<Action>, h: System, limits: DeviceRuns.Limits)
    requires g.client.waiting.None? && Leads(Spent(g, n), rest, h, limits)
    ensures Leads(g, Fails(n) + rest, h, limits)
    decreases n
  {
    hide Next, Enabled, Leads;
    if n == 0 {
      assert Spent(g, 0) == g && Fails(0) + rest == rest;
    } else {
      SpendsOne(g, n, limits);
      hide Spent;
      FailsLead(Next(g, CallFails, limits), n - 1, rest, h, limits);
      LeadsNext(g, CallFails, Fails(n - 1) + rest, h, limits);
      assert Fails(n) + rest == [CallFails] + (Fails(n - 1) + rest);
    }
  }

  lemma SpendsOne(g: System, n: nat, limits: DeviceRuns.Limits)
    requires g.client.waiting.None? && n > 0
    ensures Enabled(g, CallFails) && Next(g, CallFails, limits).client.waiting.None?
    ensures Spent(Next(g, CallFails, limits), n - 1) == Spent(g, n)
  {
    var m := g.client.nextId;
    assert ((m + 1) % DeviceRuns.WRAP + (n - 1)) % DeviceRuns.WRAP == (m + n) % DeviceRuns.WRAP by {
      if m + 1 == DeviceRuns.WRAP {
        DeviceRuns.AddWraps(n - 1, 1);
      }
    }
  }

  lemma LeadsNext(g: System, a: Action, rest: seq<Action>, h: System, limits: DeviceRuns.Limits)
    requires Enabled(g, a) && Leads(Next(g, a, limits), rest, h, limits)
    ensures Leads(g, [a] + rest, h, limits)
  {
    hide Enabled, Next;
    assert ([a] + rest)[1..] == rest;
  }

  /** A ping is served, its reply is held up, and its call times out. */
  function HeldUp(limits: DeviceRuns.Limits): (g: System) {
    var p := RequestPayload(1, PING, []);
    var (s, r) := HandleFrame(DeviceRuns.FRESH, p, 0, limits.bufSize);
    var reply := if r.Some? then r.value else [];
    System(Client(2, None, IDLE.stats), s, [], [reply], 1, map[1 := p], [Record(1, p, DeviceRuns.FRESH, 0, reply)], [])
  }

  /** What a ping answers. */
  const PONG: Answer := Answer(false, Uint(PROTOCOL_VERSION))

  lemma PingReply(limits: DeviceRuns.Limits)
    requires limits.bufSize >= RESPONSE_HEADER_MAX
    ensures var p := RequestPayload(1, PING, []);
      var r := HandleFrame(DeviceRuns.FRESH, p, 0, limits.bufSize).1;
      IsRequest(p) && IdOf(p) == 1 && r.Some? && Answers(r.value, 1, PONG)
  {
    var p, result := RequestPayload(1, PING, []), EncodeInt(PROTOCOL_VERSION);
    assert EncodeItems([]) == [];
    BuiltinNames();
    RequestFacts(1, PING, []);
    RequestArrives(1, PING, []);
    hide RequestPayload, ParseMessage, ParseIncoming, Decode, ResponseHeader;
    assert |ResponseHeader(1)| == 4 by { PingHeader(); }
    assert result == [1] by { OneByte(); }
    Exchange.IntIsWhole(PROTOCOL_VERSION);
    ResultReads(1, result);
  }

  lemma PingHeader()
    ensures |ResponseHeader(1)| == 4
  {
    OneByte();
  }

  lemma HeldUpIsReached(rest: seq<Action>, h: System, limits: DeviceRuns.Limits)
    requires limits.bufSize >= RESPONSE_HEADER_MAX && Leads(HeldUp(limits), rest, h, limits)
    ensures Leads(START, [Call(PING, []), DeviceTakes(0, 0), TimeOut] + rest, h, limits)
  {
    hide RequestPayload, ParseMessage, HandleFrame, Leads, PING, Answers;
    var p := RequestPayload(1, PING, []);
    BuiltinNames();
    PingReply(limits);
    var g1 := Next(START, Call(PING, []), limits);
    assert g1.toDevice == [] + [p] == [p];
    var g2 := Next(g1, DeviceTakes(0, 0), limits);
    assert Without([p], 0) == [];
    var g3 := Next(g2, TimeOut, limits);
    assert g3 == HeldUp(limits);
    LeadsNext(g2, TimeOut, rest, h, limits);
    LeadsNext(g1, DeviceTakes(0, 0), [TimeOut] + rest, h, limits);
    LeadsNext(START, Call(PING, []), [DeviceTakes(0, 0)] + ([TimeOut] + rest), h, limits);
    assert [Call(PING, []), DeviceTakes(0, 0), TimeOut] + rest ==
      [Call(PING, [])] + ([DeviceTakes(0, 0)] + ([TimeOut] + rest));
  }

  /** A new call under the recycled id takes the reply held up for the ping as its own answer. */
  lemma TakesHeldUp(g: System, limits: DeviceRuns.Limits) returns (h: System)
    requires limits.bufSize >= RESPONSE_HEADER_MAX && g == Spent(HeldUp(limits), DeviceRuns.WRAP - 1)
    ensures Leads(g, [Call(LIST, []), HostTakes(0), Return], h, limits)
    ensures h.issued == DeviceRuns.WRAP + 1 && h.results == [Result(1, PONG)]
    ensures h.sent == map[1 := RequestPayload(1, LIST, [])] && h.served == HeldUp(limits).served
  {
    hide RequestPayload, ParseMessage, HandleFrame, Leads, LIST, PING, ParseIncoming;
    BuiltinNames();
    PingReply(limits);
    assert g.client.nextId == 1 && g.issued == DeviceRuns.WRAP;
    var g1 := Next(g, Call(LIST, []), limits);
    assert g1.toHost[0] == HeldUp(limits).toHost[0];
    var g2 := Next(g1, HostTakes(0), limits);
    assert g2.client.waiting == Some(Waiting(1, Some(PONG)));
    h := Next(g2, Return, limits);
    assert [] + [Result(1, PONG)] == [Result(1, PONG)];
    assert Leads(h, [], h, limits) by { LeadsNowhere(h, limits); }
    LeadsNext(g2, Return, [], h, limits);
    LeadsNext(g1, HostTakes(0), [Return] + [], h, limits);
    LeadsNext(g, Call(LIST, []), [HostTakes(0)] + ([Return] + []), h, limits);
    assert [Call(LIST, []), HostTakes(0), Return] == [Call(LIST, [])] + ([HostTakes(0)] + ([Return] + []));
  }

  lemma LeadsNowhere(h: System, limits: DeviceRuns.Limits)
    ensures Leads(h, [], h, limits)
  {}

  /**
   One id more, and a reply delayed by a whole round of ids answers the wrong call: the
   caller of `rpc.list` is handed the answer to a ping, and its own request was never served.
   */
  lemma OneIdTooMany(limits: DeviceRuns.Limits) returns (actions: seq<Action>, h: System)
    requires limits.bufSize >= RESPONSE_HEADER_MAX
    ensures Leads(START, actions, h, limits) && h.issued == DeviceRuns.WRAP + 1
    ensures h.results == [Result(1, PONG)] && h.sent == map[1 := RequestPayload(1, LIST, [])]
    ensures forall r :: r in h.served ==> r.request != h.sent[1]
    ensures !OwnAnswers(h, limits.bufSize)
  {
    hide RequestPayload, HandleFrame, Leads, Next, Enabled, ParseMessage;
    var tail := [Call(LIST, []), HostTakes(0), Return];
    h := TakesHeldUp(Spent(HeldUp(limits), DeviceRuns.WRAP - 1), limits);
    FailsLead(HeldUp(limits), DeviceRuns.WRAP - 1, tail, h, limits);
    HeldUpIsReached(Fails(DeviceRuns.WRAP - 1) + tail, h, limits);
    actions := [Call(PING, []), DeviceTakes(0, 0), TimeOut] + (Fails(DeviceRuns.WRAP - 1) + tail);
    BuiltinNames();
    RequestArrives(1, PING, []);
    RequestArrives(1, LIST, []);
    assert h.served[0] in h.served;
  }

  /** Answers are their own over all runs of at most `n` ids exactly when `n` is at most 2^32. */
  lemma OwnAnswersUpTo(n: nat, limits: DeviceRuns.Limits)
    requires limits.bufSize >= RESPONSE_HEADER_MAX
    ensures (forall actions, h :: Leads(START, actions, h, limits) && h.issued <= n ==> OwnAnswers(h, limits.bufSize))
      <==> n <= DeviceRuns.WRAP
  {
    hide Leads, OwnAnswers;
    if n <= DeviceRuns.WRAP {
      forall actions, h | Leads(START, actions, h, limits) && h.issued <= n
        ensures OwnAnswers(h, limits.bufSize)
      {
        AnswersAreTheirOwn(actions, h, limits);
      }
    } else {
      var actions, h := OneIdTooMany(limits);
      assert Leads(START, actions, h, limits) && h.issued <= n && !OwnAnswers(h, limits.bufSize);
    }
  }
}
