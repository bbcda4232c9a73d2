/**
 Messages on the wire from both ends: what the host sends and how the device reads it, what
 the device answers and what the host makes of it.
 */
module Messages {
  import opened Bytes
  import opened MsgPack
  import opened MsgPackCodec
  import opened Values
  import opened ValueCodec
  import opened Device

  predicate Sendable(args: seq<Value>) {
    |args| <= U32 && forall a :: a in args ==> Encodable(a)
  }

  /** The start of `handle_frame_` at either end. */
  method ReadPreamble(r: Reader) returns (n: nat, kind: int)
    requires r.Valid() && !r.error
    modifies r
    ensures r.Valid()
    ensures var p := Preamble(old(r.Left()));
      r.error == p.None? &&
      (!r.error ==> p.value == (n, kind, r.pos - old(r.pos)) && r.Left() == old(r.Left())[p.value.2..])
  {
    hide ReadInt, ReadArrayHeader;
    ghost var s := r.Left();
    kind := 0;
    n := r.ReadArray(0);
    if r.error {
      return;
    }
    assert r.Left() == s[r.pos - old(r.pos)..];
    kind := r.ReadSigned(0, INT_MAX);
    assert r.Left() == s[r.pos - old(r.pos)..];
  }

  // --- written by the host -----------------------------------------------

  function RequestPayload(msgid: nat, name: seq<byte>, args: seq<Value>): seq<byte>
    requires msgid <= U32 && Sendable(args)
  {
    ArrayHeader(4) + EncodeInt(0) + EncodeInt(msgid) + EncodeStr(name) + ArrayHeader(|args|) + EncodeItems(args)
  }

  /** A notification, from either side. */
  function NoticePayload(name: seq<byte>, args: seq<Value>): seq<byte>
    requires Sendable(args)
  {
    ArrayHeader(3) + EncodeInt(2) + EncodeStr(name) + ArrayHeader(|args|) + EncodeItems(args)
  }

  /** Packed the same way by both ends. */
  method PackNotice(w: Writer, name: seq<byte>, args: seq<Value>)
    requires w.Valid() && w.full == [] && |name| <= U32 && Sendable(args)
    modifies w, w.buf
    ensures w.Valid() && w.full == NoticePayload(name, args)
    ensures forall k :: 0 <= k < w.base || w.base + w.cap <= k < w.buf.Length ==> w.buf[k] == old(w.buf[k])
  {
    hide EncodeInt, ArrayHeader, EncodeStr, EncodeItems;
    w.PackArray(3);
    w.PackInt(2);
    w.PackStr(name);
    w.PackArray(|args|);
    PackItems(args, w);
    assert [] + ArrayHeader(3) == ArrayHeader(3);
  }

  lemma PreambleReads(n: nat, t: nat, rest: seq<byte>)
    requires n < 16 && t < 0x80
    ensures var s := ArrayHeader(n) + EncodeInt(t) + rest;
      Preamble(s) == Some((n, t, 2)) && s[2..] == rest
  {
    var s := ArrayHeader(n) + EncodeInt(t) + rest;
    assert ArrayHeader(n) == [(0x90 + n) as byte] && EncodeInt(t) == [t as byte];
    assert s[1..] == EncodeInt(t) + rest;
    ReadsInt(t, rest);
  }

  lemma TargetReads(name: seq<byte>, n: nat, params: seq<byte>)
    requires |name| <= U32 && n <= U32
    ensures Target(EncodeStr(name) + (ArrayHeader(n) + params)) == Some((name, n, params))
  {
    hide EncodeStr, ArrayHeader, ReadStr, ReadArrayHeader;
    var a, b := EncodeStr(name), ArrayHeader(n);
    var s := a + (b + params);
    ReadsStr(name, b + params);
    ReadsArrayHeader(n, params);
    assert s[|a|..] == b + params;
    assert s[|a| + |b|..] == params;
  }

  /** The device reads back the id, the method, the parameter count and the parameters' bytes. */
  lemma RequestArrives(msgid: nat, name: seq<byte>, args: seq<Value>)
    requires msgid <= U32 && Sendable(args) && |name| <= U32
    ensures ParseMessage(RequestPayload(msgid, name, args)) == Request(msgid, name, |args|, EncodeItems(args))
  {
    hide EncodeItems, EncodeStr, ArrayHeader, EncodeInt, ReadInt, Target, Preamble, RequestPayload;
    var id, target := EncodeInt(msgid), EncodeStr(name) + (ArrayHeader(|args|) + EncodeItems(args));
    RequestParts(msgid, name, args);
    PreambleReads(4, 0, id + target);
    ReadsInt(msgid, target);
    assert (id + target)[|id|..] == target;
    TargetReads(name, |args|, EncodeItems(args));
  }

  lemma RequestParts(msgid: nat, name: seq<byte>, args: seq<Value>)
    requires msgid <= U32 && Sendable(args)
    ensures RequestPayload(msgid, name, args) == ArrayHeader(4) + EncodeInt(0) +
      (EncodeInt(msgid) + (EncodeStr(name) + (ArrayHeader(|args|) + EncodeItems(args))))
  {
    hide EncodeItems, EncodeStr, ArrayHeader, EncodeInt;
  }

  lemma NoticeArrives(name: seq<byte>, args: seq<Value>)
    requires Sendable(args) && |name| <= U32
    ensures ParseMessage(NoticePayload(name, args)) == Notification(name, |args|, EncodeItems(args))
  {
    hide EncodeItems, EncodeStr, ArrayHeader, EncodeInt, ReadInt, Target, Preamble;
    var target := EncodeStr(name) + (ArrayHeader(|args|) + EncodeItems(args));
    assert NoticePayload(name, args) == ArrayHeader(3) + EncodeInt(2) + target;
    PreambleReads(3, 2, target);
    TargetReads(name, |args|, EncodeItems(args));
  }

  // --- read by the host --------------------------------------------------

  /** What the host makes of a frame; Throws is the ProtocolError of a value that does not decode. */
  datatype Incoming =
    | Reply(msgid: nat, isError: bool, value: Value)
    | Notice(name: seq<byte>, args: Value)
    | Garbled
    | Throws

  /** The error and result slots of a response. */
  function ReplyBody(msgid: nat, s: seq<byte>): Incoming {
    if s != [] && TypeOf(s[0]) == NilType then
      var result := Decode(s[1..], 0);
      if result.None? then Throws else Reply(msgid, false, result.value.value)
    else
      var error := Decode(s, 0);
      if error.None? then Throws
      else if Decode(s[error.value.size..], 0).None? then Throws
      else Reply(msgid, true, error.value.value)
  }

  function ParseReply(s: seq<byte>): Incoming {
    var id := ReadIn(s, 0, U32);
    if id.None? then Garbled else ReplyBody(id.value.value, s[id.value.size..])
  }

  function ParseNotice(s: seq<byte>): Incoming {
    var name := ReadStr(s);
    if name.None? then Garbled
    else
      var args := Decode(s[name.value.size..], 0);
      if args.None? then Throws else Notice(name.value.bytes, args.value.value)
  }

  function ParseIncoming(s: seq<byte>): Incoming {
    var p := Preamble(s);
    if p.None? then Garbled
    else
      var rest := s[p.value.2..];
      if p.value.1 == 1 && p.value.0 == 4 then ParseReply(rest)
      else if p.value.1 == 2 && p.value.0 == 3 then ParseNotice(rest)
      else Garbled
  }

  /** A message of any other length or type than its kind demands is noise at either end. */
  lemma OtherShapesRefused(n: nat, kind: int, rest: seq<byte>)
    requires n <= U32 && IsInteger(kind)
    ensures var s := ArrayHeader(n) + EncodeInt(kind) + rest;
      ((n, kind) !in {(4, 0), (3, 2)} ==> ParseMessage(s).Malformed?) &&
      ((n, kind) !in {(4, 1), (3, 2)} ==> ParseIncoming(s).Garbled?)
  {
    hide ParseRequest, ParseNotification, ParseReply, ParseNotice, Preamble, ArrayHeader, EncodeInt;
    var s := ArrayHeader(n) + EncodeInt(kind) + rest;
    PreambleOf(n, kind, rest);
  }

  lemma PreambleOf(n: nat, kind: int, rest: seq<byte>)
    requires n <= U32 && IsInteger(kind)
    ensures Preamble(ArrayHeader(n) + EncodeInt(kind) + rest) ==
      if INT_MIN <= kind <= INT_MAX then Some((n, kind, |ArrayHeader(n)| + |EncodeInt(kind)|)) else None
  {
    hide ArrayHeader, EncodeInt, ReadInt, ReadArrayHeader;
    ReadsArrayHeader(n, EncodeInt(kind) + rest);
    assert ArrayHeader(n) + EncodeInt(kind) + rest == ArrayHeader(n) + (EncodeInt(kind) + rest);
    ReadsInt(kind, rest);
  }

  /** A notification reaches the other end with its arguments, integers normalised. */
  lemma NoticeReads(name: seq<byte>, args: seq<Value>)
    requires Sendable(args) && |name| <= U32 && WithinDepth(Arr(args), 0)
    ensures ParseIncoming(NoticePayload(name, args)) == Notice(name, Normal(Arr(args)))
  {
    hide EncodeItems, EncodeStr, ArrayHeader, EncodeInt, ReadInt, Preamble, ReadStr, Decode, Encode, Normal;
    var packed := ArrayHeader(|args|) + EncodeItems(args);
    assert Encode(Arr(args)) == packed by { EncodesArray(args); }
    assert NoticePayload(name, args) == ArrayHeader(3) + EncodeInt(2) + (EncodeStr(name) + packed);
    PreambleReads(3, 2, EncodeStr(name) + packed);
    ReadsStr(name, packed);
    assert (EncodeStr(name) + packed)[|EncodeStr(name)|..] == packed;
    DecodesEncoding(Arr(args), [], 0);
    assert packed + [] == packed;
  }

  /** Even one whose arguments nest too deeply for the host is never taken for a reply. */
  lemma NoticeIsNoReply(name: seq<byte>, args: seq<Value>)
    requires Sendable(args) && |name| <= U32
    ensures !ParseIncoming(NoticePayload(name, args)).Reply?
  {
    hide EncodeItems, EncodeStr, ArrayHeader, EncodeInt, ReadInt, Preamble, ReadStr, Decode;
    var packed := ArrayHeader(|args|) + EncodeItems(args);
    assert NoticePayload(name, args) == ArrayHeader(3) + EncodeInt(2) + (EncodeStr(name) + packed);
    PreambleReads(3, 2, EncodeStr(name) + packed);
  }

  lemma EncodesArray(args: seq<Value>)
    requires Sendable(args)
    ensures Encodable(Arr(args)) && Encode(Arr(args)) == ArrayHeader(|args|) + EncodeItems(args)
  {}

  // --- responses ---------------------------------------------------------

  /** The start every response shares: it names the request and nothing else can be read into it. */
  function ResponseStart(msgid: nat): seq<byte>
    requires msgid <= U32
  {
    ArrayHeader(4) + EncodeInt(1) + EncodeInt(msgid)
  }

  lemma StartNamesRequest(msgid: nat, rest: seq<byte>)
    requires msgid <= U32
    ensures ParseIncoming(ResponseStart(msgid) + rest) == ReplyBody(msgid, rest)
  {
    hide EncodeInt, ArrayHeader, ReadInt, Preamble, ReplyBody;
    var id := EncodeInt(msgid);
    assert ResponseStart(msgid) + rest == ArrayHeader(4) + EncodeInt(1) + (id + rest);
    PreambleReads(4, 1, id + rest);
    ReadsInt(msgid, rest);
    assert (id + rest)[|id|..] == rest;
  }

  lemma ErrorReads(msgid: nat, message: seq<byte>)
    requires msgid <= U32 && |message| <= U32
    ensures ParseIncoming(ErrorResponse(msgid, message)) == Reply(msgid, true, Str(message))
  {
    hide EncodeInt, ArrayHeader, ParseIncoming, Decode, EncodeStr;
    var body := EncodeStr(message) + NIL;
    assert ErrorResponse(msgid, message) == ResponseStart(msgid) + body;
    StartNamesRequest(msgid, body);
    StrStarts(message, NIL);
    DecodesStr(message, NIL, 0);
    assert body[|EncodeStr(message)|..] == NIL;
    assert Decode(NIL, 0).Some? by { NilDecodes(); }
  }

  lemma StrStarts(t: seq<byte>, rest: seq<byte>)
    ensures EncodeStr(t) + rest != [] && TypeOf((EncodeStr(t) + rest)[0]) == StrType
  {
    hide Be;
  }

  lemma NilDecodes()
    ensures Decode(NIL, 0) == Some(Decoded(Null, 1))
  {}

  lemma ResultReads(msgid: nat, r: seq<byte>)
    requires msgid <= U32
    ensures ParseIncoming(ResponseHeader(msgid) + r) ==
      if Decode(r, 0).None? then Throws else Reply(msgid, false, Decode(r, 0).value.value)
  {
    hide EncodeInt, ArrayHeader, ParseIncoming, Decode;
    assert ResponseHeader(msgid) + r == ResponseStart(msgid) + (NIL + r);
    StartNamesRequest(msgid, NIL + r);
    assert (NIL + r)[1..] == r;
  }

  /** Room for the largest "response too large" response: five bytes of id, nineteen of message. */
  const MIN_BUF: nat := 27

  lemma TooLargeFits(msgid: nat)
    requires msgid <= U32
    ensures |ErrorResponse(msgid, TOO_LARGE)| == 22 + |EncodeInt(msgid)| <= MIN_BUF
    ensures TooLarge(msgid, MIN_BUF) == ErrorResponse(msgid, TOO_LARGE)
  {
    HeaderBound(msgid);
    hide EncodeInt;
    assert |EncodeInt(1)| == 1 by { OneByte(); }
  }

  lemma OneByte()
    ensures EncodeInt(1) == [1]
  {}

  /** What a handler's outcome means to the caller when buffers are no obstacle. */
  predicate Faithful(o: Outcome) {
    match o
    case Failed(m) => |m| <= U32
    case Wrote(r) => r == [] || (Decode(r, 0).Some? && Decode(r, 0).value.size == |r|)
  }

  function Meaning(msgid: nat, o: Outcome): Incoming {
    match o
    case Failed(m) => Reply(msgid, true, Str(m))
    case Wrote(r) =>
      if r == [] then Reply(msgid, false, Null)
      else if Decode(r, 0).None? then Throws
      else Reply(msgid, false, Decode(r, 0).value.value)
  }

  /**
   What fits, by the lengths: an error of array, type, id, string and nil within the buffer, or
   a result that leaves eight bytes of it for the header.
   */
  lemma FitsIff(msgid: nat, o: Outcome, bufSize: nat)
    requires msgid <= U32 && bufSize >= MIN_BUF
    ensures Fits(msgid, o, bufSize) <==>
      match o
      case Failed(m) => |EncodeInt(msgid)| + |EncodeStr(m)| <= bufSize - 3
      case Wrote(r) => |r| <= bufSize - 8
  {
    HeaderBound(msgid);
    hide EncodeInt, EncodeStr;
    assert EncodeInt(1) == [1] by { OneByte(); }
  }

  /** A buffer of eight bytes or fewer holds a nil result at most after a short id, and nothing of two bytes. */
  lemma SmallBuffers(msgid: nat, r: seq<byte>, bufSize: nat)
    requires msgid <= U32 && bufSize <= 8
    ensures Fits(msgid, Wrote([]), bufSize) <==> |EncodeInt(msgid)| + 4 <= bufSize
    ensures |r| >= 2 ==> !Fits(msgid, Wrote(r), bufSize)
    ensures |r| == 1 ==> (Fits(msgid, Wrote(r), bufSize) <==> |EncodeInt(msgid)| + 4 <= bufSize)
  {
    hide EncodeInt;
    assert EncodeInt(1) == [1] by { OneByte(); }
  }

  /** The host throws exactly when it cannot decode what the handler wrote. */
  lemma MeaningThrows(msgid: nat, o: Outcome)
    ensures Meaning(msgid, o).Throws? <==> o.Wrote? && o.result != [] && Decode(o.result, 0).None?
    ensures Faithful(o) ==> Meaning(msgid, o).Reply? && Meaning(msgid, o).msgid == msgid
  {
    hide Decode;
  }

  /**
   Every response names its own request and carries the handler's error or result, or
   "response too large" exactly when that does not fit. A result that the host cannot decode,
   nested too deeply or an extension, is sent all the same and throws at the host.
   */
  lemma ResponseMeans(msgid: nat, o: Outcome, bufSize: nat)
    requires msgid <= U32 && (o.Failed? ==> |o.message| <= U32) && bufSize >= MIN_BUF
    ensures |ResponseTo(msgid, o, bufSize)| <= bufSize
    ensures ParseIncoming(ResponseTo(msgid, o, bufSize)) ==
      if Fits(msgid, o, bufSize) then Meaning(msgid, o) else Reply(msgid, true, Str(TOO_LARGE))
  {
    hide ParseIncoming, ErrorResponse, ResponseHeader, Decode;
    if !Fits(msgid, o, bufSize) {
      TooLargeFits(msgid);
      ErrorReads(msgid, TOO_LARGE);
    } else if o.Failed? {
      ErrorReads(msgid, o.message);
    } else {
      NilDecodes();
      ResultReads(msgid, if o.result == [] then NIL else o.result);
    }
  }

  /** Both slots of a response that ends where its result ends. */
  function Slots(s: seq<byte>): Option<(nat, Value, Value)> {
    var p := Preamble(s);
    if p.None? || p.value.0 != 4 || p.value.1 != 1 then None
    else
      var rest := s[p.value.2..];
      var id := ReadIn(rest, 0, U32);
      if id.None? then None
      else
        var slots := SlotsAfter(rest[id.value.size..]);
        if slots.None? then None else Some((id.value.value, slots.value.0, slots.value.1))
  }

  function SlotsAfter(s: seq<byte>): Option<(Value, Value)> {
    var error := Decode(s, 0);
    if error.None? then None
    else
      var result := Decode(s[error.value.size..], 0);
      if result.None? || error.value.size + result.value.size != |s| then None
      else Some((error.value.value, result.value.value))
  }

  /** The error and result an outcome puts into its response. */
  function SlotsFor(msgid: nat, o: Outcome, bufSize: nat): (nat, Value, Value)
    requires msgid <= U32 && Faithful(o)
  {
    if !Fits(msgid, o, bufSize) then (msgid, Str(TOO_LARGE), Null)
    else
      match o
      case Failed(m) => (msgid, Str(m), Null)
      case Wrote(r) => (msgid, Null, if r == [] then Null else Decode(r, 0).value.value)
  }

  /** A response is `[1, msgid, error, result]` and nothing else, with one of the two slots nil. */
  lemma ResponseSlots(msgid: nat, o: Outcome, bufSize: nat)
    requires msgid <= U32 && Faithful(o) && bufSize >= MIN_BUF
    ensures Slots(ResponseTo(msgid, o, bufSize)) == Some(SlotsFor(msgid, o, bufSize))
  {
    hide Slots, ErrorResponse, ResponseHeader, Decode;
    if !Fits(msgid, o, bufSize) {
      TooLargeFits(msgid);
      ErrorSlots(msgid, TOO_LARGE);
    } else if o.Failed? {
      ErrorSlots(msgid, o.message);
    } else {
      NilDecodes();
      ResultSlots(msgid, if o.result == [] then NIL else o.result);
    }
  }

  lemma SlotsAfterStart(msgid: nat, rest: seq<byte>)
    requires msgid <= U32
    ensures Slots(ResponseStart(msgid) + rest) ==
      var slots := SlotsAfter(rest);
      if slots.None? then None else Some((msgid, slots.value.0, slots.value.1))
  {
    hide EncodeInt, ArrayHeader, ReadInt, Preamble, SlotsAfter;
    var id := EncodeInt(msgid);
    assert ResponseStart(msgid) + rest == ArrayHeader(4) + EncodeInt(1) + (id + rest);
    PreambleReads(4, 1, id + rest);
    ReadsInt(msgid, rest);
    assert (id + rest)[|id|..] == rest;
  }

  lemma ErrorSlots(msgid: nat, message: seq<byte>)
    requires msgid <= U32 && |message| <= U32
    ensures Slots(ErrorResponse(msgid, message)) == Some((msgid, Str(message), Null))
  {
    hide EncodeInt, ArrayHeader, Slots, Decode, EncodeStr;
    var body := EncodeStr(message) + NIL;
    assert ErrorResponse(msgid, message) == ResponseStart(msgid) + body;
    SlotsAfterStart(msgid, body);
    DecodesStr(message, NIL, 0);
    assert body[|EncodeStr(message)|..] == NIL;
    NilDecodes();
  }

  lemma ResultSlots(msgid: nat, r: seq<byte>)
    requires msgid <= U32 && Decode(r, 0).Some? && Decode(r, 0).value.size == |r|
    ensures Slots(ResponseHeader(msgid) + r) == Some((msgid, Null, Decode(r, 0).value.value))
  {
    hide EncodeInt, ArrayHeader, Slots, Decode;
    assert ResponseHeader(msgid) + r == ResponseStart(msgid) + (NIL + r);
    SlotsAfterStart(msgid, NIL + r);
    NilThen(r);
    assert (NIL + r)[1..] == r;
  }

  lemma NilThen(rest: seq<byte>)
    ensures Decode(NIL + rest, 0) == Some(Decoded(Null, 1))
  {}

  /** Whatever handlers write and however small the buffer, a response is never read as another's. */
  lemma ResponseNamesRequest(msgid: nat, o: Outcome, bufSize: nat)
    requires msgid <= U32 && bufSize >= RESPONSE_HEADER_MAX
    ensures var m := ParseIncoming(ResponseTo(msgid, o, bufSize));
      m.Throws? || (m.Reply? && m.msgid == msgid)
  {
    hide ParseIncoming, EncodeInt, ArrayHeader, EncodeStr;
    var start, r := ResponseStart(msgid), ResponseTo(msgid, o, bufSize);
    assert |start| <= RESPONSE_HEADER_MAX by { HeaderBound(msgid); }
    assert r == start + r[|start|..];
    StartNamesRequest(msgid, r[|start|..]);
  }
}
