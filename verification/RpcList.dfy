/**
 rpc.list from both ends: the device fills one reply with as many `[name, signature]` pairs
 as fit, and the host asks page after page until the list ends.
 */
module RpcList {
  import opened Bytes
  import opened MsgPack
  import opened MsgPackCodec

  datatype Method = Method(name: seq<byte>, signature: seq<byte>)

  // --- one page ----------------------------------------------------------

  function EncodeMethod(m: Method): seq<byte> {
    ArrayHeader(2) + EncodeStr(m.name) + EncodeStr(m.signature)
  }

  function EncodeMethods(ms: seq<Method>): seq<byte> {
    if ms == [] then [] else EncodeMethod(ms[0]) + EncodeMethods(ms[1..])
  }

  function StrHeaderLen(len: nat): nat {
    if len < 32 then 1 else if len < 256 then 2 else 3
  }

  /** The size predicted before anything is written. */
  function ListEntrySize(nameLen: nat, sigLen: nat): nat {
    1 + StrHeaderLen(nameLen) + nameLen + StrHeaderLen(sigLen) + sigLen
  }

  /** The prediction is exact for strings below 65536 bytes, and only for those. */
  lemma PredictionExact(m: Method)
    ensures ListEntrySize(|m.name|, |m.signature|) <= |EncodeMethod(m)|
    ensures ListEntrySize(|m.name|, |m.signature|) == |EncodeMethod(m)|
      <==> |m.name| < 65536 && |m.signature| < 65536
  {
    hide Be;
  }

  predicate Listable(ms: seq<Method>) {
    forall m :: m in ms ==> |m.name| < 65536 && |m.signature| < 65536
  }

  /** How many leading entries fit into `room` bytes. */
  function Fitting(ms: seq<Method>, room: nat): (n: nat)
    ensures n <= |ms|
  {
    if ms == [] || |EncodeMethod(ms[0])| > room then 0
    else 1 + Fitting(ms[1..], room - |EncodeMethod(ms[0])|)
  }

  /** A page is the longest run of entries that fits, and no shorter one. */
  lemma {:induction false} FittingIsMaximal(ms: seq<Method>, room: nat)
    ensures |EncodeMethods(ms[..Fitting(ms, room)])| <= room
    ensures Fitting(ms, room) < |ms| ==> |EncodeMethods(ms[..Fitting(ms, room) + 1])| > room
  {
    hide EncodeMethod;
    if ms != [] {
      var size, n := |EncodeMethod(ms[0])|, Fitting(ms, room);
      if size <= room {
        FittingIsMaximal(ms[1..], room - size);
        assert ms[..n][1..] == ms[1..][..n - 1];
        if n < |ms| {
          assert ms[..n + 1][1..] == ms[1..][..n];
        }
      } else {
        assert ms[..1][1..] == [];
      }
    }
  }

  function PageBytes(ms: seq<Method>): seq<byte> {
    Tagged(0xdc, |ms|, 2) + EncodeMethods(ms)
  }

  const ARRAY_HEADER_LEN: nat := 3

  /**
   How many leading entries are put into `room` bytes: as long as the predicted size of the next
   one fits. An entry longer than predicted is cut where the room ends.
   */
  function Tried(ms: seq<Method>, room: nat): (n: nat)
    ensures n <= |ms|
  {
    if ms == [] || ListEntrySize(|ms[0].name|, |ms[0].signature|) > room then 0
    else 1 + Tried(ms[1..], room - Min(room, |EncodeMethod(ms[0])|))
  }

  function CutTo(s: seq<byte>, room: nat): (t: seq<byte>)
    ensures t <= s && |t| == Min(|s|, room)
  {
    s[..Min(|s|, room)]
  }

  /** The result of rpc.list from `start`, or None for "response too large". */
  function Page(ms: seq<Method>, start: nat, scratch: nat): Option<seq<byte>> {
    if start >= |ms| then Some(ArrayHeader(0))
    else if scratch < ARRAY_HEADER_LEN then None
    else
      var n, room := Tried(ms[start..], scratch - ARRAY_HEADER_LEN), scratch - ARRAY_HEADER_LEN;
      if n == 0 then None else Some(Tagged(0xdc, n, 2) + CutTo(EncodeMethods(ms[start..][..n]), room))
  }

  lemma {:induction false} TriedFits(ms: seq<Method>, room: nat)
    requires Listable(ms)
    ensures Tried(ms, room) == Fitting(ms, room)
  {
    if ms != [] {
      PredictionExact(ms[0]);
      hide EncodeMethod, ListEntrySize;
      if |EncodeMethod(ms[0])| <= room {
        TriedFits(ms[1..], room - |EncodeMethod(ms[0])|);
      }
    }
  }

  /** With strings shorter than 65536 bytes nothing is cut: a page holds whole entries, as many as fit. */
  lemma PageIsFitting(ms: seq<Method>, start: nat, scratch: nat)
    requires Listable(ms) && start < |ms| && scratch >= ARRAY_HEADER_LEN
    ensures var n := Fitting(ms[start..], scratch - ARRAY_HEADER_LEN);
      Page(ms, start, scratch) == if n == 0 then None else Some(PageBytes(ms[start..][..n]))
  {
    hide EncodeMethods, Fitting, Tried;
    var rest, room := ms[start..], scratch - ARRAY_HEADER_LEN;
    assert Listable(rest);
    TriedFits(rest, room);
    FittingIsMaximal(rest, room);
    var body := EncodeMethods(rest[..Fitting(rest, room)]);
    assert CutTo(body, room) == body;
  }

  /**
   A single entry that is longer than predicted and just too long for the page is cut short: the
   page claims one entry and ends inside it.
   */
  lemma LongEntryCut(m: Method, scratch: nat)
    requires |m.name| <= U32 && |m.signature| <= U32
    requires var size := ListEntrySize(|m.name|, |m.signature|);
      ARRAY_HEADER_LEN + size <= scratch < ARRAY_HEADER_LEN + |EncodeMethod(m)|
    ensures |m.name| >= 65536 || |m.signature| >= 65536
    ensures Page([m], 0, scratch) == Some(PageBytes([m])[..scratch]) && scratch < |PageBytes([m])|
  {
    PredictionExact(m);
    hide EncodeMethod, ListEntrySize;
    assert [m][0..] == [m] && [m][..1] == [m] && [m][1..] == [];
    var room, body := scratch - ARRAY_HEADER_LEN, EncodeMethod(m);
    assert EncodeMethods([m]) == body + EncodeMethods([]) == body;
    assert Tried([m], room) == 1 + Tried([], room - Min(room, |body|)) == 1;
    assert (Tagged(0xdc, 1, 2) + body)[..scratch] == Tagged(0xdc, 1, 2) + CutTo(body, room);
  }

  lemma {:induction false} EncodeMethodsAppend(ms: seq<Method>, m: Method)
    ensures EncodeMethods(ms + [m]) == EncodeMethods(ms) + EncodeMethod(m)
  {
    hide EncodeMethod;
    if ms == [] {
      assert [m][1..] == [];
      assert EncodeMethods([m]) == EncodeMethod(m) + EncodeMethods([]);
      assert [] + [m] == [m];
    } else {
      assert (ms + [m])[1..] == ms[1..] + [m];
      EncodeMethodsAppend(ms[1..], m);
    }
  }

  /** Strings that a 32-bit length can describe. */
  predicate Packable(ms: seq<Method>) {
    forall m :: m in ms ==> |m.name| <= U32 && |m.signature| <= U32
  }

  /**
   Fills `raw` with a page: a three-byte array header is reserved, each entry is written only
   once its predicted size is known to fit, and the header is patched with the true count.
   None is "response too large".
   */
  method PackRpcListResult(ms: seq<Method>, start: nat, raw: array<byte>, scratch: nat)
    returns (written: Option<nat>)
    requires Packable(ms) && 1 <= scratch <= raw.Length
    modifies raw
    ensures match Page(ms, start, scratch)
      case None => written == None
      case Some(page) => written == Some(|page|) && |page| <= scratch && raw[..|page|] == page
  {
    hide EncodeMethod, EncodeMethods, Tried, ListEntrySize, Tagged, Be;
    var total := |ms|;
    var startIdx := if start < total then start else total;
    if startIdx >= total {
      raw[0] := 0x90;
      assert raw[..1] == ArrayHeader(0);
      return Some(1);
    }
    if scratch < ARRAY_HEADER_LEN {
      return None;
    }
    ghost var rest, room := ms[startIdx..], scratch - ARRAY_HEADER_LEN;
    var at := ARRAY_HEADER_LEN;
    var count := 0;
    var i := startIdx;
    NothingListed(rest, room);
    while i < total
      invariant startIdx <= i <= total && count == i - startIdx && ARRAY_HEADER_LEN <= at <= scratch
      invariant raw[3..at] == CutTo(EncodeMethods(rest[..count]), room)
      invariant Tried(rest, room) == count + Tried(rest[count..], scratch - at)
    {
      var m := ms[i];
      TriedNext(rest[count..], scratch - at);
      assert rest[count..][0] == m;
      var entryLen := ListEntrySize(|m.name|, |m.signature|);
      if at + entryLen > scratch {
        if count == 0 {
          return None;
        }
        break;
      }
      assert rest[..count + 1] == rest[..count] + [m] && rest[count..][1..] == rest[count + 1..];
      EncodeMethodsAppend(rest[..count], m);
      ghost var before := raw[3..at];
      var size := PackEntry(raw, at, scratch, m);
      assert raw[3..at + size] == before + CutTo(EncodeMethod(m), scratch - at);
      CutAppended(EncodeMethods(rest[..count]), EncodeMethod(m), room);
      at := at + size;
      count := count + 1;
      i := i + 1;
    }
    if i == total {
      TriedNext(rest[count..], scratch - at);
    }
    PatchHeader(raw, at, count);
    return Some(at);
  }

  /** The true count goes into the reserved header. */
  method PatchHeader(raw: array<byte>, at: nat, count: nat)
    requires ARRAY_HEADER_LEN <= at <= raw.Length
    modifies raw
    ensures raw[..at] == Tagged(0xdc, count, 2) + old(raw[3..at])
  {
    ghost var body := raw[3..at];
    Be2(count);
    raw[0] := 0xdc;
    raw[1] := (count / 0x100 % 0x100) as byte;
    raw[2] := (count % 0x100) as byte;
    assert raw[3..at] == body;
    assert raw[..at] == Tagged(0xdc, count, 2) + raw[3..at];
  }

  lemma NothingListed(ms: seq<Method>, room: nat)
    ensures ms[..0] == [] && ms[0..] == ms && CutTo(EncodeMethods([]), room) == []
  {}

  lemma TriedNext(ms: seq<Method>, room: nat)
    ensures Tried(ms, room) ==
      if ms == [] || ListEntrySize(|ms[0].name|, |ms[0].signature|) > room then 0
      else 1 + Tried(ms[1..], room - Min(room, |EncodeMethod(ms[0])|))
    ensures ms != [] ==> ListEntrySize(|ms[0].name|, |ms[0].signature|) > 0
  {
    hide EncodeMethod;
  }

  /** What is cut to the room stays cut when the room was not yet full. */
  lemma CutAppended(a: seq<byte>, b: seq<byte>, room: nat)
    requires |CutTo(a, room)| < room
    ensures CutTo(a + b, room) == CutTo(a, room) + CutTo(b, room - |CutTo(a, room)|)
  {}

  /** One entry through a Writer over the remaining span, cut where the span ends. */
  method PackEntry(raw: array<byte>, at: nat, scratch: nat, m: Method) returns (size: nat)
    requires |m.name| <= U32 && |m.signature| <= U32 && at <= scratch <= raw.Length
    modifies raw
    ensures size == Min(|EncodeMethod(m)|, scratch - at) && raw[at..at + size] == CutTo(EncodeMethod(m), scratch - at)
    ensures forall k :: 0 <= k < at ==> raw[k] == old(raw[k])
  {
    hide EncodeStr, ArrayHeader;
    var w := new Writer(raw, at, scratch - at);
    w.PackArray(2);
    w.PackStr(m.name);
    w.PackStr(m.signature);
    assert w.full == [] + ArrayHeader(2) + EncodeStr(m.name) + EncodeStr(m.signature) == EncodeMethod(m);
    w.Holds();
    return w.size;
  }
}
