/** framing.h up to the demultiplexer: the streaming encoder, the in-place decoder, whole frames. */
module Framing {
  import opened Bytes
  import Cobs
  import opened Crc16

  function CobsMaxEncodedSize(n: nat): nat {
    n + n / 254 + 1
  }

  function FrameMaxSize(n: nat): nat {
    CobsMaxEncodedSize(n + 2) + 2
  }

  /** The COBS body of the frame carrying `payload`. */
  function Body(payload: seq<byte>): seq<byte> {
    Cobs.Encode(payload + Trailer(payload))
  }

  /** What goes on the wire. */
  function Frame(payload: seq<byte>): seq<byte> {
    [0] + Body(payload) + [0]
  }

  // --- streaming encoder -------------------------------------------------

  /**
   After `message`, the groups in `closed` are final and `run` is the data of the open one.
   When another byte is `owed`, nothing is claimed of a message that stops here.
   */
  ghost predicate Splits(message: seq<byte>, closed: seq<byte>, run: seq<byte>, owed: bool) {
    forall rest: seq<byte> :: rest != [] || !owed ==>
      Cobs.Encode(message + rest) == closed + Cobs.Encode(run + rest)
  }

  /** Whatever follows, the encoding of `message` outgrows `cap`. */
  ghost predicate Outgrows(message: seq<byte>, owed: bool, cap: nat) {
    forall rest: seq<byte> :: rest != [] || !owed ==> cap < |Cobs.Encode(message + rest)|
  }

  lemma SplitsAtStart()
    ensures Splits([], [], [], false)
  {
    forall rest: seq<byte>
      ensures Cobs.Encode([] + rest) == [] + Cobs.Encode([] + rest)
    {
    }
  }

  lemma SplitsAfterZero(m: seq<byte>, closed: seq<byte>, run: seq<byte>, owed: bool, more: bool)
    requires Splits(m, closed, run, owed) && ZeroFree(run) && |run| < Cobs.MAX_RUN
    ensures Splits(m + [0], closed + Cobs.Group(run), [], more)
  {
    hide Cobs.Encode, Cobs.Group;
    forall rest: seq<byte>
      ensures Cobs.Encode(m + [0] + rest) == closed + Cobs.Group(run) + Cobs.Encode([] + rest)
    {
      assert m + [0] + rest == m + ([0] + rest) && [] + rest == rest;
      Cobs.CloseAtZero(run, rest);
    }
  }

  lemma SplitsAfterData(m: seq<byte>, closed: seq<byte>, run: seq<byte>, owed: bool, b: byte, more: bool)
    requires Splits(m, closed, run, owed)
    ensures Splits(m + [b], closed, run + [b], more)
  {
    hide Cobs.Encode;
    forall rest: seq<byte>
      ensures Cobs.Encode(m + [b] + rest) == closed + Cobs.Encode(run + [b] + rest)
    {
      assert m + [b] + rest == m + ([b] + rest) && run + [b] + rest == run + ([b] + rest);
    }
  }

  lemma SplitsWhenFull(m: seq<byte>, closed: seq<byte>, run: seq<byte>, owed: bool)
    requires Splits(m, closed, run, owed) && ZeroFree(run) && |run| == Cobs.MAX_RUN
    ensures owed ==> Splits(m, closed + Cobs.Group(run), [], owed)
    ensures !owed ==> Cobs.Encode(m) == closed + Cobs.Group(run)
  {
    hide Cobs.Encode, Cobs.Group;
    forall rest: seq<byte> | rest != []
      ensures Cobs.Encode(m + rest) == closed + Cobs.Group(run) + Cobs.Encode([] + rest)
    {
      assert [] + rest == rest;
      ClosedWhenFull(m, closed, run, rest);
    }
    if !owed {
      assert m + [] == m;
      ClosedWhenFull(m, closed, run, []);
      assert closed + Cobs.Group(run) + [] == closed + Cobs.Group(run);
    }
  }

  /** What one continuation of the message makes of a full run. */
  lemma ClosedWhenFull(m: seq<byte>, closed: seq<byte>, run: seq<byte>, rest: seq<byte>)
    requires Cobs.Encode(m + rest) == closed + Cobs.Encode(run + rest) && ZeroFree(run) && |run| == Cobs.MAX_RUN
    ensures Cobs.Encode(m + rest) == closed + Cobs.Group(run) + if rest == [] then [] else Cobs.Encode(rest)
  {
    hide Cobs.Encode, Cobs.Group;
    var group, tail := Cobs.Group(run), if rest == [] then [] else Cobs.Encode(rest);
    Cobs.CloseWhenFull(run, rest);
    assert closed + (group + tail) == closed + group + tail;
  }

  lemma OutgrowsWhenSplit(m: seq<byte>, closed: seq<byte>, run: seq<byte>, owed: bool, cap: nat)
    requires Splits(m, closed, run, owed)
    requires cap <= |closed| + |run|
    ensures Outgrows(m, owed, cap)
  {
    hide Cobs.Encode;
    forall rest: seq<byte> | rest != [] || !owed
      ensures cap < |Cobs.Encode(m + rest)|
    {
      Cobs.EncodeLength(run + rest);
    }
  }

  lemma OutgrowsExtended(m: seq<byte>, owed: bool, cap: nat, data: seq<byte>, more: bool)
    requires Outgrows(m, owed, cap) && data != []
    ensures Outgrows(m + data, more, cap)
  {
    hide Cobs.Encode;
    forall rest: seq<byte>
      ensures cap < |Cobs.Encode(m + data + rest)|
    {
      assert m + data + rest == m + (data + rest);
    }
  }

  class CobsStreamEncoder {
    const out: array<byte>
    const base: nat // the source's `out` pointer is out + base
    const cap: nat
    var encode: nat
    var codep: nat
    var code: byte
    var ok: bool

    ghost var message: seq<byte> // every byte fed
    ghost var owed: bool         // the last byte fed was announced as not the last
    ghost var closed: seq<byte>
    ghost var run: seq<byte>

    /** Layout of the output while no capacity check has failed. */
    ghost predicate Layout()
      reads this, out
    {
      && base + cap <= out.Length
      && ZeroFree(run) && code as int == |run| + 1
      && codep == |closed| <= cap
      && encode == codep + 1 + |run|
      && (run != [] ==> encode <= cap)
      && (forall k :: 0 <= k < |closed| ==> out[base + k] == closed[k])
      && (forall k :: 0 <= k < |run| ==> out[base + codep + 1 + k] == run[k])
    }

    /** A group is open: its code byte is still to be written at `codep`. */
    ghost predicate Open()
      reads this, out
    {
      Layout() && |run| < Cobs.MAX_RUN && Splits(message, closed, run, owed)
    }

    /** The message ended with a full group, so no further code byte is reserved. */
    ghost predicate Elided()
      reads this, out
    {
      && base + cap <= out.Length
      && encode == codep == |closed| <= cap
      && (forall k :: 0 <= k < |closed| ==> out[base + k] == closed[k])
      && !owed && message != [] && Cobs.Encode(message) == closed
    }

    ghost predicate Valid()
      reads this, out
    {
      base + cap <= out.Length && if ok then Open() || Elided() else Outgrows(message, owed, cap)
    }

    constructor (out: array<byte>, base: nat, cap: nat)
      requires base + cap <= out.Length
      ensures Valid() && message == [] && !owed
      ensures this.out == out && this.base == base && this.cap == cap
    {
      this.out, this.base, this.cap := out, base, cap;
      encode, codep, code, ok := 1, 0, 1, true;
      message, owed, closed, run := [], false, [], [];
      new;
      SplitsAtStart();
    }

    /**
     Feeds `n` bytes. A call may only supply bytes that the previous one announced with
     `moreFollows`.
     */
    method Feed(data: array<byte>, from: nat, n: nat, moreFollows: bool) returns (r: bool)
      requires Valid() && data != out && from + n <= data.Length
      requires n > 0 ==> owed || message == []
      modifies this, out
      ensures Valid() && r == ok
      ensures message == old(message) + data[from..from + n]
      ensures owed == if n == 0 then old(owed) else moreFollows
      ensures forall k :: 0 <= k < base || base + cap <= k < out.Length ==> out[k] == old(out[k])
    {
      hide Cobs.Encode, Splits, Outgrows;
      ghost var fed := data[from..from + n];
      if !ok {
        if n > 0 {
          OutgrowsExtended(message, owed, cap, fed, moreFollows);
          message, owed := message + fed, moreFollows;
        }
        return false;
      }
      var i := 0;
      while i < n
        invariant i <= n && Valid() && ok
        invariant i < n ==> owed || message == []
        invariant message == old(message) + fed[..i]
        invariant owed == if i == 0 then old(owed) else moreFollows || i < n
        invariant forall k :: 0 <= k < base || base + cap <= k < out.Length ==> out[k] == old(out[k])
      {
        var moreRemaining := moreFollows || i + 1 < n;
        assert fed[..i + 1] == fed[..i] + [data[from + i]];
        var done := PutOne(data[from + i], moreRemaining);
        i := i + 1;
        if !done {
          if i < n {
            OutgrowsExtended(message, owed, cap, fed[i..], moreFollows);
            message, owed := message + fed[i..], moreFollows;
          }
          assert fed == fed[..i] + fed[i..];
          return false;
        }
      }
      return true;
    }

    method PutOne(b: byte, more: bool) returns (r: bool)
      requires Valid() && ok && (owed || message == [])
      modifies this, out
      ensures Valid() && r == ok
      ensures message == old(message) + [b] && owed == more
      ensures forall k :: 0 <= k < base || base + cap <= k < out.Length ==> out[k] == old(out[k])
    {
      hide Cobs.Encode, Splits, Outgrows, Cobs.Group;
      assert Open();
      if b != 0 {
        if encode >= cap {
          SplitsAfterData(message, closed, run, owed, b, more);
          OutgrowsWhenSplit(message + [b], closed, run + [b], more, cap);
          ok, message, owed := false, message + [b], more;
          return false;
        }
        StoreData(b, more);
      }
      if b == 0 || code == 0xff {
        if codep >= cap {
          OutgrowsWhenSplit(message, closed, run, owed, cap);
          OutgrowsExtended(message, owed, cap, [b], more);
          ok, message, owed := false, message + [b], more;
          return false;
        }
        CloseGroup(b, more);
      }
      return true;
    }

    /** Appends a data byte to the open group. */
    method StoreData(b: byte, more: bool)
      requires Open() && encode < cap && b != 0
      modifies this`encode, this`code, this`run, this`message, this`owed, out
      ensures Layout() && Splits(message, closed, run, owed) && run == old(run) + [b]
      ensures message == old(message) + [b] && owed == more
      ensures forall k :: 0 <= k < base || base + cap <= k < out.Length ==> out[k] == old(out[k])
    {
      hide Cobs.Encode, Splits;
      SplitsAfterData(message, closed, run, owed, b, more);
      out[base + encode] := b;
      encode := encode + 1;
      code := code + 1;
      run, message, owed := run + [b], message + [b], more;
    }

    /**
     Writes the pending code byte, because of a zero or because the group is full, and
     reserves the next one unless the message ends here with a full group.
     */
    method CloseGroup(b: byte, more: bool)
      requires Layout() && codep < cap && Splits(message, closed, run, owed)
      requires if b == 0 then |run| < Cobs.MAX_RUN else |run| == Cobs.MAX_RUN && owed == more && message != []
      modifies this`encode, this`codep, this`code, this`closed, this`run, this`message, this`owed, out
      ensures message == (if b == 0 then old(message) + [0] else old(message)) && owed == more
      ensures if b == 0 || more then Open() else Elided()
      ensures forall k :: 0 <= k < base || base + cap <= k < out.Length ==> out[k] == old(out[k])
    {
      hide Cobs.Encode, Splits;
      if b == 0 {
        SplitsAfterZero(message, closed, run, owed, more);
        message, owed := message + [0], more;
      } else {
        SplitsWhenFull(message, closed, run, more);
      }
      out[base + codep] := code;
      code := 1;
      codep := encode;
      closed, run := closed + Cobs.Group(run), [];
      if b == 0 || more {
        encode := encode + 1;
      }
    }

    /** The encoded length, or 0 when the encoding does not fit. */
    method Finish() returns (n: nat)
      requires Valid() && !owed
      modifies this`ok, out
      ensures n == if cap < |Cobs.Encode(message)| then 0 else |Cobs.Encode(message)|
      ensures n != 0 ==> out[base..base + n] == Cobs.Encode(message)
      ensures forall k :: 0 <= k < base || base + cap <= k < out.Length ==> out[k] == old(out[k])
    {
      hide Cobs.Encode;
      assert message + [] == message;
      if !ok {
        return 0;
      }
      if codep < encode {
        assert run + [] == run;
        Cobs.CloseAtEnd(run);
        if codep >= cap {
          ok := false;
          return 0;
        }
        out[base + codep] := code;
      }
      return encode;
    }
  }

  method CobsEncode(src: array<byte>, len: nat, out: array<byte>, cap: nat) returns (n: nat)
    requires len <= src.Length && cap <= out.Length && src != out
    modifies out
    ensures n == if cap < |Cobs.Encode(src[..len])| then 0 else |Cobs.Encode(src[..len])|
    ensures n != 0 ==> out[..n] == Cobs.Encode(src[..len])
  {
    hide Cobs.Encode;
    var enc := new CobsStreamEncoder(out, 0, cap);
    var fed := enc.Feed(src, 0, len, false);
    assert enc.message == src[..len];
    n := enc.Finish();
  }

  // --- in-place decoder --------------------------------------------------

  /**
   Decodes `src[..len]` into `dst`, which may be the same array: the bytes read are those
   held on entry, and beyond the bytes written `dst` keeps its old contents.
   */
  method CobsDecode(src: array<byte>, len: nat, dst: array<byte>, cap: nat)
    returns (ok: bool, written: nat)
    requires len <= src.Length && cap <= dst.Length
    modifies dst
    ensures written <= dst.Length
    ensures Cobs.Clip(Cobs.Decode(old(src[..len])), cap) == Cobs.Block(dst[..written], ok)
    ensures forall k :: written <= k < dst.Length ==> dst[k] == old(dst[k])
  {
    hide Cobs.Decode, Cobs.Prepend;
    ghost var input := src[..len];
    ghost var goal := Cobs.Decode(input);
    var read := 0;
    written := 0;
    Cobs.PrependNothing(goal);
    assert input[0..] == input && dst[..0] == [];
    while read < len
      invariant written <= read <= len && written <= cap
      invariant forall k :: read <= k < len ==> src[k] == input[k]
      invariant forall k :: written <= k < dst.Length ==> dst[k] == old(dst[k])
      invariant goal == Cobs.Prepend(dst[..written], Cobs.Decode(input[read..]))
    {
      ok, read, written := DecodeOneGroup(src, read, len, dst, written, cap, input, goal);
      if !ok {
        return false, written;
      }
    }
    assert input[read..] == [];
    Cobs.PrependEmpty(dst[..written]);
    return true, written;
  }

  /** One pass of the decoding loop. */
  method DecodeOneGroup(src: array<byte>, from: nat, len: nat, dst: array<byte>, start: nat, cap: nat,
                        ghost input: seq<byte>, ghost goal: Cobs.Block)
    returns (ok: bool, read: nat, written: nat)
    requires start <= from < len == |input| <= src.Length && start <= cap <= dst.Length
    requires forall k :: from <= k < len ==> src[k] == input[k]
    requires goal == Cobs.Prepend(dst[..start], Cobs.Decode(input[from..]))
    modifies dst
    ensures start <= written <= cap && from <= read <= len
    ensures if ok then goal == Cobs.Prepend(dst[..written], Cobs.Decode(input[read..]))
      else Cobs.Clip(goal, cap) == Cobs.Block(dst[..written], false)
    ensures ok ==> from < read && written <= read && forall k :: read <= k < len ==> src[k] == input[k]
    ensures forall k :: written <= k < dst.Length ==> dst[k] == old(dst[k])
  {
    hide Cobs.Decode, Cobs.Prepend, Cobs.HasGroup, Cobs.Data, Cobs.Rest, Cobs.Clip;
    ghost var before, y := dst[..start], input[from..];
    Cobs.GroupAt(input, from);
    read, written := from, start;
    var code := src[read] as int;
    if code == 0 {
      Cobs.PrependStopped(before, y, cap);
      return false, read, written;
    }
    read := read + 1;
    var dataLen := code - 1;
    if dataLen > len - read {
      Cobs.PrependStopped(before, y, cap);
      return false, read, written;
    }
    ghost var data := input[read..read + dataLen];
    ok, written := CopyData(src, read, data, dataLen, dst, written, cap, len);
    if !ok {
      Cobs.ClipInside(before, y, written - start, cap);
      return false, read, written;
    }
    assert data[..dataLen] == data;
    Cobs.PrependGroup(before, y);
    read := read + dataLen;
    ok, written := WriteGap(code == 0xff, read == len, dst, written, cap, goal, Cobs.Decode(Cobs.Rest(y)));
  }

  /** The zero a group stands for is written unless the group is full or the last. */
  method WriteGap(full: bool, last: bool, dst: array<byte>, start: nat, cap: nat,
                  ghost goal: Cobs.Block, ghost rest: Cobs.Block)
    returns (ok: bool, written: nat)
    requires start <= cap <= dst.Length
    requires goal == Cobs.Prepend(dst[..start] + Cobs.Gap(full, last), rest)
    modifies dst
    ensures start <= written <= cap && written <= start + |Cobs.Gap(full, last)|
    ensures if ok then goal == Cobs.Prepend(dst[..written], rest)
      else Cobs.Clip(goal, cap) == Cobs.Block(dst[..written], false)
    ensures forall k :: written <= k < dst.Length ==> dst[k] == old(dst[k])
    ensures forall k :: start + |Cobs.Gap(full, last)| <= k < dst.Length ==> dst[k] == old(dst[k])
  {
    if full || last {
      assert dst[..start] + [] == dst[..start];
      return true, start;
    }
    if start >= cap {
      Cobs.PrependLonger(dst[..start], [0], rest);
      return false, start;
    }
    dst[start] := 0;
    assert dst[..start + 1] == dst[..start] + [0];
    return true, start + 1;
  }

  /** The inner loop: copies the `n` bytes `data`, stopping at a zero or when `dst` is full. */
  method CopyData(src: array<byte>, read: nat, ghost data: seq<byte>, n: nat,
                  dst: array<byte>, start: nat, cap: nat, ghost len: nat)
    returns (done: bool, written: nat)
    requires read + n <= len <= src.Length && start <= cap <= dst.Length && start <= read
    requires |data| == n && forall k :: 0 <= k < n ==> src[read + k] == data[k]
    modifies dst
    ensures start <= written <= start + n && written <= cap
    ensures if done then written == start + n
      else written < start + n && (data[written - start] == 0 || written == cap)
    ensures ZeroFree(data[..written - start]) && dst[..written] == old(dst[..start]) + data[..written - start]
    ensures forall k :: written <= k < dst.Length ==> dst[k] == old(dst[k])
    ensures forall k :: read + n <= k < len ==> src[k] == old(src[k])
  {
    var i := 0;
    assert dst[..start] == dst[..start] + data[..0];
    while i < n
      invariant i <= n && start + i <= cap
      invariant ZeroFree(data[..i])
      invariant dst[..start + i] == old(dst[..start]) + data[..i]
      invariant forall k :: i <= k < n ==> src[read + k] == data[k]
      invariant forall k :: start + i <= k < dst.Length ==> dst[k] == old(dst[k])
      invariant forall k :: read + n <= k < len ==> src[k] == old(src[k])
    {
      var b := src[read + i];
      if b == 0 || start + i >= cap {
        return false, start + i;
      }
      dst[start + i] := b;
      i := i + 1;
      assert dst[..start + i] == dst[..start + i - 1] + [b];
    }
    return true, start + n;
  }

  // --- frames ------------------------------------------------------------

  method FrameEncode(payload: array<byte>, len: nat, out: array<byte>, cap: nat) returns (n: nat)
    requires len <= payload.Length && cap <= out.Length && payload != out
    modifies out
    ensures n == if cap < |Frame(payload[..len])| then 0 else |Frame(payload[..len])|
    ensures n != 0 ==> out[..n] == Frame(payload[..len])
  {
    hide Cobs.Encode, Crc, Hi, Lo;
    ghost var p := payload[..len];
    ghost var body := Body(p);
    if cap < 2 {
      return 0;
    }
    out[0] := 0;
    var crc := Crc16Ccitt(payload, 0, len, 0xFFFF);
    var trailer := new byte[2];
    trailer[0], trailer[1] := Hi(crc), Lo(crc);
    assert payload[0..0 + len] == p && trailer[..] == Trailer(p);
    var enc := new CobsStreamEncoder(out, 1, cap - 2);
    var fed := enc.Feed(payload, 0, len, true);
    fed := enc.Feed(trailer, 0, 2, false);
    assert enc.message == p + Trailer(p);
    var cobsLen := enc.Finish();
    if cobsLen == 0 {
      return 0;
    }
    assert out[1..1 + cobsLen] == body;
    out[1 + cobsLen] := 0;
    assert out[1..1 + cobsLen] == body && out[0] == out[1 + cobsLen] == 0;
    return cobsLen + 2;
  }

  /** A buffer of `FrameMaxSize(n)` bytes always holds the frame of an n-byte payload. */
  lemma FrameFits(payload: seq<byte>)
    ensures |Body(payload)| <= CobsMaxEncodedSize(|payload| + 2)
    ensures |Frame(payload)| <= FrameMaxSize(|payload|)
  {
    Cobs.EncodeLength(payload + Trailer(payload));
  }

  /** The size is no larger than it must be: every frame of a payload up to 251 bytes long has it exactly. */
  lemma FrameSizeExact(payload: seq<byte>)
    requires |payload| <= 251
    ensures |Frame(payload)| == FrameMaxSize(|payload|) == |payload| + 5
  {
    hide Cobs.Encode;
    Cobs.EncodeLength(payload + Trailer(payload));
  }

  lemma FrameFitsIn(payload: seq<byte>, n: nat)
    requires |payload| <= n
    ensures 2 <= |Frame(payload)| <= FrameMaxSize(n)
  {
    hide Body;
    FrameFits(payload);
  }

  /** Verdict on the bytes collected between two delimiters; rejected bytes go back to the text. */
  datatype Verdict =
    | Empty
    | Ready(payload: seq<byte>)
    | CobsError(text: seq<byte>)
    | CrcError(text: seq<byte>)

  function Validate(y: seq<byte>): Verdict {
    if y == [] then Empty
    else
      var b := Cobs.Decode(y);
      if !b.ok then
        CobsError(b.written + if |b.written| <= |y| then y[|b.written|..] else [])
      else if |b.written| < 2 then CrcError(b.written)
      else
        var n := |b.written| - 2;
        if Join(b.written[n], b.written[n + 1]) == Checksum(b.written[..n]) then Ready(b.written[..n])
        else CrcError(b.written)
  }

  datatype FrameOutcome = OutEmpty | OutReady | OutCobsError | OutCrcError

  method DecodeAndValidateFrame(buf: array<byte>, len: nat, cap: nat) returns (outcome: FrameOutcome, outLen: nat)
    requires len <= cap <= buf.Length
    modifies buf
    ensures outLen <= len
    ensures match Validate(old(buf[..len]))
      case Empty => outcome == OutEmpty && outLen == 0 && buf[..] == old(buf[..])
      case Ready(p) => outcome == OutReady && buf[..outLen] == p
      case CobsError(t) => outcome == OutCobsError && buf[..outLen] == t
      case CrcError(t) => outcome == OutCrcError && buf[..outLen] == t
  {
    hide Cobs.Decode, Crc, Join;
    if len == 0 {
      return OutEmpty, 0;
    }
    ghost var y := buf[..len];
    Cobs.DecodeShrinks(y);
    var ok, decoded := CobsDecode(buf, len, buf, cap);
    ghost var w := buf[..decoded];
    if !ok {
      assert buf[..len] == w + y[decoded..];
      return OutCobsError, len;
    }
    if decoded < 2 {
      return OutCrcError, decoded;
    }
    var n := decoded - 2;
    var received := Join(buf[n], buf[n + 1]);
    var computed := Crc16Ccitt(buf, 0, n, 0xFFFF);
    assert buf[0..0 + n] == w[..n];
    if computed != received {
      return OutCrcError, decoded;
    }
    return OutReady, n;
  }

  /** Bytes are accepted exactly when they decode to a block whose register runs to zero. */
  lemma ReadyIff(y: seq<byte>)
    ensures Validate(y).Ready? <==>
      y != [] && Cobs.Decode(y).ok && |Cobs.Decode(y).written| >= 2 && Checksum(Cobs.Decode(y).written) == 0
  {
    hide Cobs.Decode, Crc, Join, Hi, Lo;
    var w := Cobs.Decode(y).written;
    if |w| >= 2 {
      var n := |w| - 2;
      assert w == w[..n] + [w[n], w[n + 1]];
      Residue(w[..n], w[n], w[n + 1]);
      JoinIsTrailer(w[n], w[n + 1], Checksum(w[..n]));
    }
  }

  /** The body of a frame is accepted and yields the payload. */
  lemma ValidateBody(payload: seq<byte>)
    ensures Validate(Body(payload)) == Ready(payload)
  {
    hide Cobs.Decode, Cobs.Encode, Crc, Join, Hi, Lo;
    var block := payload + Trailer(payload);
    Cobs.DecodeEncode(block);
    JoinIsTrailer(Trailer(payload)[0], Trailer(payload)[1], Checksum(payload));
    assert block[..|payload|] == payload;
  }

  /** A message is decoded into any room that holds it, and cut and refused in any smaller. */
  lemma DecodeFits(m: seq<byte>, cap: nat)
    ensures Cobs.Clip(Cobs.Decode(Cobs.Encode(m)), cap) ==
      if |m| <= cap then Cobs.Block(m, true) else Cobs.Block(m[..cap], false)
  {
    hide Cobs.Decode, Cobs.Encode;
    Cobs.DecodeEncode(m);
  }

  /** The encoding of any message is judged by the checksum of the message, and a rejected one comes back decoded. */
  lemma ValidateEncoding(m: seq<byte>)
    ensures Validate(Cobs.Encode(m)) ==
      if |m| >= 2 && Checksum(m) == 0 then Ready(m[..|m| - 2]) else CrcError(m)
  {
    hide Cobs.Decode, Cobs.Encode, Crc, Join, Hi, Lo;
    Cobs.DecodeEncode(m);
    ReadyIff(Cobs.Encode(m));
  }

  /**
   Bytes whose last group points past the end go back as they lie in the buffer: what the
   groups before it decoded to, over the front of what was collected.
   */
  lemma ValidateTruncated(m: seq<byte>, broken: seq<byte>)
    requires (m != [] ==> m[|m| - 1] == 0) && broken != [] && broken[0] as int > |broken|
    ensures var y := Cobs.Groups(m) + broken;
      |m| <= |y| && Validate(y) == CobsError(m + y[|m|..])
  {
    hide Cobs.Decode, Cobs.Encode, Crc, Join;
    Cobs.EncodeLength(m);
    Cobs.DecodeBroken(m, broken);
  }

  /** Text that no frame was meant by, from a code that points past its end, goes back verbatim. */
  lemma ValidateText(y: seq<byte>)
    requires y != [] && y[0] as int > |y|
    ensures Validate(y) == CobsError(y)
  {
    hide Crc, Join;
  }

  lemma BodyZeroFree(payload: seq<byte>)
    ensures ZeroFree(Body(payload)) && Body(payload) != []
  {
    Cobs.EncodeZeroFree(payload + Trailer(payload));
  }

  // --- damaged frames ----------------------------------------------------

  /** One data byte of a body changed to another non-zero value: decoded, but refused by the CRC. */
  lemma CorruptedDataRefused(payload: seq<byte>, i: nat, b: byte)
    requires Cobs.IsData(Body(payload), i) && b != 0 && b != Body(payload)[i]
    ensures Validate(Body(payload)[i := b]).CrcError?
  {
    hide Cobs.Decode, Cobs.Encode, Cobs.IsData, Cobs.DataIndex, Crc, Join, Hi, Lo;
    var y, block := Body(payload), payload + Trailer(payload);
    Cobs.DecodeEncode(block);
    Cobs.SubstituteData(y, i, b);
    OneByteDetected(block, Cobs.DataIndex(y, i), b);
    Residue(payload, Trailer(payload)[0], Trailer(payload)[1]);
    ReadyIff(y[i := b]);
  }

  /** An accepted block changed only at two neighbouring decoded bytes is refused, however it is encoded. */
  lemma CorruptedPairRefused(y: seq<byte>, z: seq<byte>, i: nat, a: byte, b: byte)
    requires Validate(y).Ready?
    requires var w := Cobs.Decode(y).written;
      i + 1 < |w| && (a != w[i] || b != w[i + 1]) &&
      Cobs.Decode(z) == Cobs.Block(w[i := a][i + 1 := b], true)
    ensures Validate(z).CrcError?
  {
    hide Crc, Join;
    ReadyIff(y);
    ReadyIff(z);
    TwoBytesDetected(Cobs.Decode(y).written, i, a, b);
  }
}
