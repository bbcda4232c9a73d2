/** The recursive members `Value::encode` and `Value::decode_`, over a Writer and a Reader. */
module ValueCodec {
  import opened Bytes
  import opened MsgPack
  import opened MsgPackCodec
  import opened Values
  import Floats

  method EncodeValue(v: Value, w: Writer)
    requires Encodable(v) && w.Valid()
    modifies w, w.buf
    ensures w.Valid() && w.full == old(w.full) + Encode(v)
    ensures forall k :: 0 <= k < w.base || w.base + w.cap <= k < w.buf.Length ==> w.buf[k] == old(w.buf[k])
    decreases v
  {
    hide EncodeItems, EncodeEntries, EncodeInt, EncodeStr, EncodeBin, EncodeFloat64, ArrayHeader, MapHeader;
    match v {
      case Null => w.PackNil();
      case Bool(b) => w.PackBool(b);
      case Int(i) => w.PackInt(i);
      case Uint(u) => w.PackInt(u);
      case Float(bits) => w.PackDouble(bits);
      case Str(s) => w.PackStr(s);
      case Bin(s) => w.PackBin(s);
      case Arr(items) =>
        w.PackArray(|items|);
        PackItems(items, w);
      case Map(entries) =>
        w.PackMap(|entries|);
        PackEntries(entries, w);
    }
  }

  method PackItems(items: seq<Value>, w: Writer)
    requires (forall e :: e in items ==> Encodable(e)) && w.Valid()
    modifies w, w.buf
    ensures w.Valid() && w.full == old(w.full) + EncodeItems(items)
    ensures forall k :: 0 <= k < w.base || w.base + w.cap <= k < w.buf.Length ==> w.buf[k] == old(w.buf[k])
    decreases items
  {
    hide Encode, Encodable;
    var i := 0;
    assert items[0..] == items;
    while i < |items|
      invariant i <= |items| && w.Valid()
      invariant w.full + EncodeItems(items[i..]) == old(w.full) + EncodeItems(items)
      invariant forall k :: 0 <= k < w.base || w.base + w.cap <= k < w.buf.Length ==> w.buf[k] == old(w.buf[k])
    {
      assert items[i..][1..] == items[i + 1..] && items[i..][0] == items[i];
      ghost var before := w.full;
      EncodeValue(items[i], w);
      i := i + 1;
      assert before + (Encode(items[i - 1]) + EncodeItems(items[i..])) == w.full + EncodeItems(items[i..]);
    }
    assert w.full + [] == w.full;
  }

  method PackEntries(entries: seq<Entry>, w: Writer)
    requires (forall e :: e in entries ==> Encodable(e.key) && Encodable(e.value)) && w.Valid()
    modifies w, w.buf
    ensures w.Valid() && w.full == old(w.full) + EncodeEntries(entries)
    ensures forall k :: 0 <= k < w.base || w.base + w.cap <= k < w.buf.Length ==> w.buf[k] == old(w.buf[k])
    decreases entries
  {
    hide Encode, Encodable;
    var i := 0;
    assert entries[0..] == entries;
    while i < |entries|
      invariant i <= |entries| && w.Valid()
      invariant w.full + EncodeEntries(entries[i..]) == old(w.full) + EncodeEntries(entries)
      invariant forall k :: 0 <= k < w.base || w.base + w.cap <= k < w.buf.Length ==> w.buf[k] == old(w.buf[k])
    {
      assert entries[i..][1..] == entries[i + 1..] && entries[i..][0] == entries[i];
      ghost var before := w.full;
      PackEntry(entries[i], w);
      i := i + 1;
      assert before + (EncodeEntry(entries[i - 1]) + EncodeEntries(entries[i..])) ==
        w.full + EncodeEntries(entries[i..]);
    }
    assert w.full + [] == w.full;
  }

  method PackEntry(e: Entry, w: Writer)
    requires Encodable(e.key) && Encodable(e.value) && w.Valid()
    modifies w, w.buf
    ensures w.Valid() && w.full == old(w.full) + EncodeEntry(e)
    ensures forall k :: 0 <= k < w.base || w.base + w.cap <= k < w.buf.Length ==> w.buf[k] == old(w.buf[k])
    decreases e
  {
    hide Encode, Encodable;
    EncodeValue(e.key, w);
    EncodeValue(e.value, w);
  }

  /** None stands for the exceptions the source throws. */
  method DecodeValue(r: Reader, depth: nat) returns (out: Option<Value>)
    requires r.Valid() && depth <= MAX_DEPTH + 1
    modifies r
    ensures r.Valid()
    ensures var d := Decode(old(r.Left()), depth);
      if old(r.error) || d.None? then out == None
      else out == Some(d.value.value) && !r.error && r.pos == old(r.pos) + d.value.size
    decreases MAX_DEPTH + 1 - depth, 0
  {
    hide ReadIn, ReadStrHeader, ReadBinHeader, DecodeItems, DecodeEntries, ReadArrayHeader, ReadMapHeader, Floats.Widen;
    ghost var s := r.Left();
    if r.error || depth > MAX_DEPTH {
      return None;
    }
    var t := r.NextType();
    match t {
      case NilType =>
        r.ReadNil();
        return Some(Null);
      case BooleanType =>
        var b := r.ReadBool(false);
        return Some(Bool(b));
      case IntType =>
        var i := r.ReadSigned(0, I64_MAX);
        return if r.error then None else Some(Int(i));
      case UintType =>
        var u := r.ReadUnsigned(0, U64);
        return if r.error then None else Some(Uint(u));
      case FloatType =>
        var ok, f := r.ReadFloating();
        if !ok {
          return None;
        }
        match f {
          case Single(bits) =>
            return if bits <= U32 then Some(Float(Floats.Widen(bits))) else None;
          case Double(bits) =>
            return Some(Float(bits));
          case Integer(_) =>
            return None;
        }
      case StrType =>
        var ok, at, len := r.ReadChunk(StrType);
        return if ok then Some(Str(r.buf[at..at + len])) else None;
      case BinType =>
        var ok, at, len := r.ReadChunk(BinType);
        return if ok then Some(Bin(r.buf[at..at + len])) else None;
      case ArrayType =>
        DecodeDispatch(s, depth);
        out := DecodeArrayValue(r, depth);
      case MapType =>
        DecodeDispatch(s, depth);
        out := DecodeMapValue(r, depth);
      case _ =>
        return None;
    }
  }

  method DecodeArrayValue(r: Reader, depth: nat) returns (out: Option<Value>)
    requires r.Valid() && !r.error && depth <= MAX_DEPTH
    modifies r
    ensures r.Valid()
    ensures var d := DecodeArray(old(r.Left()), depth);
      if d.None? then out == None
      else out == Some(d.value.value) && !r.error && r.pos == old(r.pos) + d.value.size
    decreases MAX_DEPTH - depth, 2
  {
    hide DecodeItems, ReadArrayHeader;
    ghost var s := r.Left();
    var n := r.ReadArray(0);
    if r.error {
      return None;
    }
    assert r.Left() == s[ReadArrayHeader(s).value.size..];
    var items := DecodeItemsLoop(r, n, depth + 1);
    return if items.None? then None else Some(Arr(items.value));
  }

  method DecodeItemsLoop(r: Reader, n: nat, depth: nat) returns (out: Option<seq<Value>>)
    requires r.Valid() && !r.error && depth <= MAX_DEPTH + 1
    modifies r
    ensures r.Valid()
    ensures var d := DecodeItems(old(r.Left()), n, depth);
      if d.None? then out == None
      else out == Some(d.value.value) && !r.error && r.pos == old(r.pos) + d.value.size
    decreases MAX_DEPTH + 1 - depth, 1
  {
    hide Decode, DecodeItems, Joined;
    ghost var start, goal := r.pos, DecodeItems(r.Left(), n, depth);
    JoinedNone(goal);
    var items := [];
    var i := 0;
    while i < n
      invariant i <= n && r.Valid() && !r.error && start <= r.pos
      invariant goal == Joined(items, r.pos - start, DecodeItems(r.Left(), n - i, depth))
    {
      ghost var left := r.Left();
      NextItem(items, r.pos - start, left, n - i, depth);
      var v := DecodeValue(r, depth);
      if v.None? {
        return None;
      }
      assert r.Left() == left[Decode(left, depth).value.size..];
      items := items + [v.value];
      i := i + 1;
    }
    NoItems(items, r.pos - start, r.Left(), depth);
    return Some(items);
  }

  /** Values already decoded, in front of the outcome for the rest. */
  function Joined<T>(done: seq<T>, size: nat, rest: Option<Decoded<seq<T>>>): Option<Decoded<seq<T>>> {
    if rest.None? then None else Some(Decoded(done + rest.value.value, size + rest.value.size))
  }

  lemma JoinedNone<T>(rest: Option<Decoded<seq<T>>>)
    ensures Joined([], 0, rest) == rest
  {
    if rest.Some? {
      assert [] + rest.value.value == rest.value.value;
    }
  }

  lemma NextItem(done: seq<Value>, size: nat, s: seq<byte>, n: nat, depth: nat)
    requires n > 0
    ensures Joined(done, size, DecodeItems(s, n, depth)) ==
      var d := Decode(s, depth);
      if d.None? then None
      else Joined(done + [d.value.value], size + d.value.size, DecodeItems(s[d.value.size..], n - 1, depth))
  {
    hide Decode;
    var d := Decode(s, depth);
    if d.Some? {
      var rest := DecodeItems(s[d.value.size..], n - 1, depth);
      if rest.Some? {
        assert done + ([d.value.value] + rest.value.value) == done + [d.value.value] + rest.value.value;
      }
    }
  }

  method DecodeMapValue(r: Reader, depth: nat) returns (out: Option<Value>)
    requires r.Valid() && !r.error && depth <= MAX_DEPTH
    modifies r
    ensures r.Valid()
    ensures var d := DecodeMap(old(r.Left()), depth);
      if d.None? then out == None
      else out == Some(d.value.value) && !r.error && r.pos == old(r.pos) + d.value.size
    decreases MAX_DEPTH - depth, 2
  {
    hide DecodeEntries, ReadMapHeader;
    ghost var s := r.Left();
    var n := r.ReadMap(0);
    if r.error {
      return None;
    }
    assert r.Left() == s[ReadMapHeader(s).value.size..];
    var entries := DecodeEntriesLoop(r, n, depth + 1);
    return if entries.None? then None else Some(Map(entries.value));
  }

  method DecodeEntriesLoop(r: Reader, n: nat, depth: nat) returns (out: Option<seq<Entry>>)
    requires r.Valid() && !r.error && depth <= MAX_DEPTH + 1
    modifies r
    ensures r.Valid()
    ensures var d := DecodeEntries(old(r.Left()), n, depth);
      if d.None? then out == None
      else out == Some(d.value.value) && !r.error && r.pos == old(r.pos) + d.value.size
    decreases MAX_DEPTH + 1 - depth, 1
  {
    hide Decode, DecodeEntries, Joined;
    ghost var start, goal := r.pos, DecodeEntries(r.Left(), n, depth);
    JoinedNone(goal);
    var entries := [];
    var i := 0;
    while i < n
      invariant i <= n && r.Valid() && !r.error && start <= r.pos
      invariant goal == Joined(entries, r.pos - start, DecodeEntries(r.Left(), n - i, depth))
    {
      ghost var left, before := r.Left(), r.pos;
      NextEntry(entries, r.pos - start, left, n - i, depth);
      var k := DecodeValue(r, depth);
      if k.None? {
        return None;
      }
      assert r.Left() == left[Decode(left, depth).value.size..];
      var v := DecodeValue(r, depth);
      if v.None? {
        return None;
      }
      assert r.Left() == left[r.pos - before..];
      entries := entries + [Entry(k.value, v.value)];
      i := i + 1;
    }
    NoEntries(entries, r.pos - start, r.Left(), depth);
    return Some(entries);
  }

  lemma NoItems(done: seq<Value>, size: nat, s: seq<byte>, depth: nat)
    ensures Joined(done, size, DecodeItems(s, 0, depth)) == Some(Decoded(done, size))
  {
    assert done + [] == done;
  }

  lemma NoEntries(done: seq<Entry>, size: nat, s: seq<byte>, depth: nat)
    ensures Joined(done, size, DecodeEntries(s, 0, depth)) == Some(Decoded(done, size))
  {
    assert done + [] == done;
  }

  lemma NextEntry(done: seq<Entry>, size: nat, s: seq<byte>, n: nat, depth: nat)
    requires n > 0
    ensures Joined(done, size, DecodeEntries(s, n, depth)) ==
      var k := Decode(s, depth);
      if k.None? then None
      else
        var v := Decode(s[k.value.size..], depth);
        if v.None? then None
        else
          var both := k.value.size + v.value.size;
          Joined(done + [Entry(k.value.value, v.value.value)], size + both, DecodeEntries(s[both..], n - 1, depth))
  {
    hide Decode;
    var k := Decode(s, depth);
    if k.Some? && Decode(s[k.value.size..], depth).Some? {
      var v := Decode(s[k.value.size..], depth);
      var e := Entry(k.value.value, v.value.value);
      var rest := DecodeEntries(s[k.value.size + v.value.size..], n - 1, depth);
      if rest.Some? {
        assert done + ([e] + rest.value.value) == done + [e] + rest.value.value;
      }
    }
  }
}
