/** The host's dynamically typed Value (serial_rpc.hpp), its encoding and its decoding. */
module Values {
  import opened Bytes
  import opened MsgPack
  import opened MsgPackCodec
  import Floats

  /** A double is its bit pattern; a map keeps its entries in order, whatever their keys. */
  datatype Value =
    | Null
    | Bool(flag: bool)
    | Int(i: int)
    | Uint(u: nat)
    | Float(bits: nat)
    | Str(text: seq<byte>)
    | Bin(blob: seq<byte>)
    | Arr(items: seq<Value>)
    | Map(entries: seq<Entry>)

  datatype Entry = Entry(key: Value, value: Value)

  const I64_MAX: int := 0x7fff_ffff_ffff_ffff
  const MAX_DEPTH: nat := 32

  /** Within the C++ types, with every length below 2^32. */
  predicate Encodable(v: Value)
    decreases v
  {
    match v
    case Int(i) => I64_MIN <= i <= I64_MAX
    case Uint(u) => u <= U64
    case Float(bits) => bits <= U64
    case Str(s) => |s| <= U32
    case Bin(s) => |s| <= U32
    case Arr(items) => |items| <= U32 && forall e :: e in items ==> Encodable(e)
    case Map(entries) => |entries| <= U32 && forall e :: e in entries ==> Encodable(e.key) && Encodable(e.value)
    case _ => true
  }

  /** Nesting stays within the decoder's limit when `v` itself sits at `depth`. */
  predicate WithinDepth(v: Value, depth: nat)
    decreases v
  {
    depth <= MAX_DEPTH &&
    match v
    case Arr(items) => forall e :: e in items ==> WithinDepth(e, depth + 1)
    case Map(entries) =>
      forall e :: e in entries ==> WithinDepth(e.key, depth + 1) && WithinDepth(e.value, depth + 1)
    case _ => true
  }

  function Encode(v: Value): seq<byte>
    requires Encodable(v)
    decreases v, 1
  {
    match v
    case Null => NIL
    case Bool(b) => EncodeBool(b)
    case Int(i) => EncodeInt(i)
    case Uint(u) => EncodeInt(u)
    case Float(bits) => EncodeFloat64(bits)
    case Str(s) => EncodeStr(s)
    case Bin(s) => EncodeBin(s)
    case Arr(items) => ArrayHeader(|items|) + EncodeItems(items)
    case Map(entries) => MapHeader(|entries|) + EncodeEntries(entries)
  }

  function EncodeItems(items: seq<Value>): seq<byte>
    requires forall e :: e in items ==> Encodable(e)
    decreases items, 0
  {
    if items == [] then [] else Encode(items[0]) + EncodeItems(items[1..])
  }

  function EncodeEntries(entries: seq<Entry>): seq<byte>
    requires forall e :: e in entries ==> Encodable(e.key) && Encodable(e.value)
    decreases entries, 0
  {
    if entries == [] then [] else EncodeEntry(entries[0]) + EncodeEntries(entries[1..])
  }

  function EncodeEntry(e: Entry): seq<byte>
    requires Encodable(e.key) && Encodable(e.value)
    decreases e, 2
  {
    Encode(e.key) + Encode(e.value)
  }

  /** What decoding an encoding yields: a non-negative int64 comes back unsigned. */
  function Normal(v: Value): Value
    decreases v, 1
  {
    match v
    case Int(i) => if i >= 0 then Uint(i) else v
    case Arr(items) => Arr(NormalItems(items))
    case Map(entries) => Map(NormalEntries(entries))
    case _ => v
  }

  function NormalItems(items: seq<Value>): (r: seq<Value>)
    ensures |r| == |items|
    decreases items, 0
  {
    if items == [] then [] else [Normal(items[0])] + NormalItems(items[1..])
  }

  function NormalEntries(entries: seq<Entry>): (r: seq<Entry>)
    ensures |r| == |entries|
    decreases entries, 0
  {
    if entries == [] then [] else [NormalEntry(entries[0])] + NormalEntries(entries[1..])
  }

  function NormalEntry(e: Entry): Entry
    decreases e, 2
  {
    Entry(Normal(e.key), Normal(e.value))
  }

  // --- decoding ----------------------------------------------------------

  datatype Decoded<T> = Decoded(value: T, size: nat)

  /** One value at nesting level `depth`; None is the source's ProtocolError. */
  function Decode(s: seq<byte>, depth: nat): (r: Option<Decoded<Value>>)
    ensures r.Some? ==> 1 <= r.value.size <= |s|
    decreases |s|, 0, 1
  {
    if depth > MAX_DEPTH || s == [] then None
    else
      match TypeOf(s[0])
      case NilType => Some(Decoded(Null, 1))
      case BooleanType => Some(Decoded(Bool(s[0] == 0xc3), 1))
      case IntType =>
        var r := ReadIn(s, I64_MIN, I64_MAX);
        if r.None? then None else Some(Decoded(Int(r.value.value), r.value.size))
      case UintType =>
        var r := ReadIn(s, 0, U64);
        if r.None? then None else Some(Decoded(Uint(r.value.value), r.value.size))
      case FloatType => DecodeFloat(s)
      case StrType =>
        var c := ReadStr(s);
        if c.None? then None else Some(Decoded(Str(c.value.bytes), c.value.size))
      case BinType =>
        var c := ReadBin(s);
        if c.None? then None else Some(Decoded(Bin(c.value.bytes), c.value.size))
      case ArrayType => DecodeArray(s, depth)
      case MapType => DecodeMap(s, depth)
      case _ => None
  }

  function DecodeFloat(s: seq<byte>): (r: Option<Decoded<Value>>)
    requires s != [] && TypeOf(s[0]) == FloatType
    ensures r.Some? ==> 1 <= r.value.size <= |s|
  {
    var f := ReadFloat(s);
    if f.None? then None
    else
      match f.value.0
      case Single(bits) => (if bits <= U32 then Some(Decoded(Float(Floats.Widen(bits)), 5)) else None)
      case Double(bits) => Some(Decoded(Float(bits), 9))
      case Integer(_) => None
  }

  function DecodeArray(s: seq<byte>, depth: nat): (r: Option<Decoded<Value>>)
    ensures r.Some? ==> 1 <= r.value.size <= |s|
    decreases |s|, 0, 0
  {
    var h := ReadArrayHeader(s);
    if h.None? then None
    else
      var d := DecodeItems(s[h.value.size..], h.value.value, depth + 1);
      if d.None? then None else Some(Decoded(Arr(d.value.value), h.value.size + d.value.size))
  }

  function DecodeMap(s: seq<byte>, depth: nat): (r: Option<Decoded<Value>>)
    ensures r.Some? ==> 1 <= r.value.size <= |s|
    decreases |s|, 0, 0
  {
    var h := ReadMapHeader(s);
    if h.None? then None
    else
      var d := DecodeEntries(s[h.value.size..], h.value.value, depth + 1);
      if d.None? then None else Some(Decoded(Map(d.value.value), h.value.size + d.value.size))
  }

  function DecodeItems(s: seq<byte>, n: nat, depth: nat): (r: Option<Decoded<seq<Value>>>)
    ensures r.Some? ==> r.value.size <= |s| && |r.value.value| == n
    decreases |s|, n, 1
  {
    if n == 0 then Some(Decoded([], 0))
    else
      var first := Decode(s, depth);
      if first.None? then None
      else
        var rest := DecodeItems(s[first.value.size..], n - 1, depth);
        if rest.None? then None
        else Some(Decoded([first.value.value] + rest.value.value, first.value.size + rest.value.size))
  }

  function DecodeEntries(s: seq<byte>, n: nat, depth: nat): (r: Option<Decoded<seq<Entry>>>)
    ensures r.Some? ==> r.value.size <= |s| && |r.value.value| == n
    decreases |s|, n, 1
  {
    if n == 0 then Some(Decoded([], 0))
    else
      var key := Decode(s, depth);
      if key.None? then None
      else
        var value := Decode(s[key.value.size..], depth);
        if value.None? then None
        else
          var size := key.value.size + value.value.size;
          var rest := DecodeEntries(s[size..], n - 1, depth);
          if rest.None? then None
          else Some(Decoded([Entry(key.value.value, value.value.value)] + rest.value.value, size + rest.value.size))
  }

  // --- decoding inverts encoding -----------------------------------------

  /** Decoding an encoding, whatever follows it, yields the normal form and stops right after. */
  lemma {:induction false} DecodesEncoding(v: Value, rest: seq<byte>, depth: nat)
    requires Encodable(v) && WithinDepth(v, depth)
    ensures Decode(Encode(v) + rest, depth) == Some(Decoded(Normal(v), |Encode(v)|))
    decreases v, 1
  {
    match v {
      case Arr(items) =>
        DecodesItems(items, rest, depth + 1);
        DecodesArray(items, rest, depth);
      case Map(entries) =>
        DecodesEntries(entries, rest, depth + 1);
        DecodesMap(entries, rest, depth);
      case _ =>
        DecodesScalar(v, rest, depth);
    }
  }

  lemma DecodesScalar(v: Value, rest: seq<byte>, depth: nat)
    requires Encodable(v) && depth <= MAX_DEPTH && !v.Arr? && !v.Map?
    ensures Decode(Encode(v) + rest, depth) == Some(Decoded(Normal(v), |Encode(v)|))
  {
    match v {
      case Null =>
      case Bool(_) =>
      case Int(i) =>
        DecodesInteger(i, rest, depth);
      case Uint(u) =>
        DecodesInteger(u, rest, depth);
      case Float(bits) =>
        DecodesDouble(bits, rest, depth);
      case Str(t) =>
        DecodesStr(t, rest, depth);
      case Bin(b) =>
        DecodesBin(b, rest, depth);
    }
  }

  lemma DecodesInteger(v: int, rest: seq<byte>, depth: nat)
    requires IsInteger(v) && depth <= MAX_DEPTH
    ensures Decode(EncodeInt(v) + rest, depth) ==
      Some(Decoded(if v >= 0 then Uint(v) else Int(v), |EncodeInt(v)|))
  {
    IntStarts(v, rest);
    hide ReadInt, EncodeInt, TypeOf;
    ReadsInt(v, rest);
  }

  lemma IntStarts(v: int, rest: seq<byte>)
    requires IsInteger(v)
    ensures EncodeInt(v) != []
    ensures TypeOf((EncodeInt(v) + rest)[0]) == if v >= 0 then UintType else IntType
  {
    hide Be;
  }

  lemma DecodesDouble(bits: nat, rest: seq<byte>, depth: nat)
    requires bits <= U64 && depth <= MAX_DEPTH
    ensures Decode(EncodeFloat64(bits) + rest, depth) == Some(Decoded(Float(bits), 9))
  {
    hide After, ReadInt;
    Powers();
    AfterTagged(0xcb, bits, 8, rest);
  }

  /**
   A single-precision float, which the host never writes but a device does, arrives as the
   double of the same sign and value, an infinity as an infinity and a NaN with its payload.
   */
  lemma DecodesSingle(bits: nat, rest: seq<byte>, depth: nat)
    requires bits <= U32 && depth <= MAX_DEPTH
    ensures var d := Decode(Tagged(0xca, bits, 4) + rest, depth);
      d.Some? && d.value.size == 5 && d.value.value.Float? && d.value.value.bits <= U64 &&
      var f, r := Floats.Fields32(bits), Floats.Fields64(d.value.value.bits);
      r.sign == f.sign &&
      if f.exponent == 0xff then r.exponent == 0x7ff && r.mantissa == f.mantissa * 0x2000_0000
      else r.exponent != 0x7ff && Floats.Size64(r) == Floats.Size32(f)
  {
    hide After, ReadInt, Floats.Size32, Floats.Size64, Floats.Normalised, Floats.Pow2;
    Powers();
    AfterTagged(0xca, bits, 4, rest);
    if Floats.Fields32(bits).exponent == 0xff {
      Floats.FieldsOfBits64(Floats.WidenFields(Floats.Fields32(bits)));
    } else {
      Floats.WidenExact(bits);
    }
  }

  lemma DecodesStr(t: seq<byte>, rest: seq<byte>, depth: nat)
    requires |t| <= U32 && depth <= MAX_DEPTH
    ensures Decode(EncodeStr(t) + rest, depth) == Some(Decoded(Str(t), |EncodeStr(t)|))
  {
    var s := EncodeStr(t) + rest;
    ReadsStr(t, rest);
    assert TypeOf(s[0]) == StrType;
    hide EncodeStr, ReadStr;
  }

  lemma DecodesBin(b: seq<byte>, rest: seq<byte>, depth: nat)
    requires |b| <= U32 && depth <= MAX_DEPTH
    ensures Decode(EncodeBin(b) + rest, depth) == Some(Decoded(Bin(b), |EncodeBin(b)|))
  {
    var s := EncodeBin(b) + rest;
    ReadsBin(b, rest);
    assert TypeOf(s[0]) == BinType;
    hide EncodeBin, ReadBin;
  }

  lemma HeaderFirst(header: seq<byte>, body: seq<byte>, rest: seq<byte>)
    ensures header + body + rest == header + (body + rest)
    ensures (header + (body + rest))[|header|..] == body + rest
    ensures header != [] ==> (header + (body + rest))[0] == header[0]
  {}

  lemma DecodesArray(items: seq<Value>, rest: seq<byte>, depth: nat)
    requires Encodable(Arr(items)) && depth <= MAX_DEPTH
    requires DecodeItems(EncodeItems(items) + rest, |items|, depth + 1) ==
      Some(Decoded(NormalItems(items), |EncodeItems(items)|))
    ensures Decode(Encode(Arr(items)) + rest, depth) == Some(Decoded(Normal(Arr(items)), |Encode(Arr(items))|))
  {
    hide EncodeItems, DecodeItems, NormalItems, ReadArrayHeader;
    var header, body := ArrayHeader(|items|), EncodeItems(items) + rest;
    ReadsArrayHeader(|items|, body);
    HeaderFirst(header, EncodeItems(items), rest);
    assert DecodeArray(header + body, depth) == Some(Decoded(Arr(NormalItems(items)), |header| + |EncodeItems(items)|));
    DecodeDispatch(header + body, depth);
  }

  lemma DecodesMap(entries: seq<Entry>, rest: seq<byte>, depth: nat)
    requires Encodable(Map(entries)) && depth <= MAX_DEPTH
    requires DecodeEntries(EncodeEntries(entries) + rest, |entries|, depth + 1) ==
      Some(Decoded(NormalEntries(entries), |EncodeEntries(entries)|))
    ensures Decode(Encode(Map(entries)) + rest, depth) == Some(Decoded(Normal(Map(entries)), |Encode(Map(entries))|))
  {
    hide EncodeEntries, DecodeEntries, NormalEntries, ReadMapHeader;
    var header, body := MapHeader(|entries|), EncodeEntries(entries) + rest;
    ReadsMapHeader(|entries|, body);
    HeaderFirst(header, EncodeEntries(entries), rest);
    assert DecodeMap(header + body, depth) ==
      Some(Decoded(Map(NormalEntries(entries)), |header| + |EncodeEntries(entries)|));
    DecodeDispatch(header + body, depth);
  }

  lemma DecodeDispatch(s: seq<byte>, depth: nat)
    requires s != [] && depth <= MAX_DEPTH
    ensures TypeOf(s[0]) == ArrayType ==> Decode(s, depth) == DecodeArray(s, depth)
    ensures TypeOf(s[0]) == MapType ==> Decode(s, depth) == DecodeMap(s, depth)
  {
    hide DecodeArray, DecodeMap, TypeOf;
  }

  lemma {:induction false} DecodesItems(items: seq<Value>, rest: seq<byte>, depth: nat)
    requires forall e :: e in items ==> Encodable(e) && WithinDepth(e, depth)
    ensures DecodeItems(EncodeItems(items) + rest, |items|, depth) ==
      Some(Decoded(NormalItems(items), |EncodeItems(items)|))
    decreases items, 0
  {
    if items != [] {
      hide Decode, Encode, Normal, Encodable, WithinDepth, DecodeItems;
      var first, others := Encode(items[0]), EncodeItems(items[1..]);
      DecodesEncoding(items[0], others + rest, depth);
      DecodesItems(items[1..], rest, depth);
      HeaderFirst(first, others, rest);
      FirstItem(first, others + rest, |items|, depth);
      assert EncodeItems(items) == first + others;
      assert NormalItems(items) == [Normal(items[0])] + NormalItems(items[1..]);
      hide EncodeItems, NormalItems;
    }
  }

  lemma FirstItem(first: seq<byte>, rest: seq<byte>, n: nat, depth: nat)
    requires n > 0
    requires Decode(first + rest, depth).Some? && Decode(first + rest, depth).value.size == |first|
    requires DecodeItems(rest, n - 1, depth).Some?
    ensures DecodeItems(first + rest, n, depth) ==
      Some(Decoded([Decode(first + rest, depth).value.value] + DecodeItems(rest, n - 1, depth).value.value,
                   |first| + DecodeItems(rest, n - 1, depth).value.size))
  {
    hide Decode;
    assert (first + rest)[|first|..] == rest;
  }

  lemma {:induction false} DecodesEntries(entries: seq<Entry>, rest: seq<byte>, depth: nat)
    requires forall e :: e in entries ==>
      Encodable(e.key) && Encodable(e.value) && WithinDepth(e.key, depth) && WithinDepth(e.value, depth)
    ensures DecodeEntries(EncodeEntries(entries) + rest, |entries|, depth) ==
      Some(Decoded(NormalEntries(entries), |EncodeEntries(entries)|))
    decreases entries, 0
  {
    hide Decode, Encode, Normal, Encodable, WithinDepth;
    if entries != [] {
      DecodesEntry(entries[0], EncodeEntries(entries[1..]) + rest, depth);
      DecodesEntries(entries[1..], rest, depth);
      DecodesFirstEntry(entries, rest, depth);
    }
  }

  lemma DecodesFirstEntry(entries: seq<Entry>, rest: seq<byte>, depth: nat)
    requires entries != [] && forall e :: e in entries ==> Encodable(e.key) && Encodable(e.value)
    requires var e, after := entries[0], EncodeEntries(entries[1..]) + rest;
      Decode(EncodeEntry(e) + after, depth) == Some(Decoded(Normal(e.key), |Encode(e.key)|)) &&
      Decode(Encode(e.value) + after, depth) == Some(Decoded(Normal(e.value), |Encode(e.value)|)) &&
      DecodeEntries(after, |entries| - 1, depth) ==
        Some(Decoded(NormalEntries(entries[1..]), |EncodeEntries(entries[1..])|))
    ensures DecodeEntries(EncodeEntries(entries) + rest, |entries|, depth) ==
      Some(Decoded(NormalEntries(entries), |EncodeEntries(entries)|))
  {
    var e, others := entries[0], EncodeEntries(entries[1..]);
    var k, v := Encode(e.key), Encode(e.value);
    assert EncodeEntries(entries) == EncodeEntry(e) + others && EncodeEntry(e) == k + v;
    assert NormalEntries(entries) == [Entry(Normal(e.key), Normal(e.value))] + NormalEntries(entries[1..]);
    hide *;
    HeaderFirst(k + v, others, rest);
    FirstEntry(k, v, others + rest, |entries|, depth);
    var d := DecodeEntries(EncodeEntries(entries) + rest, |entries|, depth);
    assert EncodeEntries(entries) + rest == k + v + (others + rest);
    assert d.Some? && d.value.size == |EncodeEntries(entries)|;
    assert d.value.value == NormalEntries(entries);
  }

  lemma {:induction false} DecodesEntry(e: Entry, rest: seq<byte>, depth: nat)
    requires Encodable(e.key) && Encodable(e.value) && WithinDepth(e.key, depth) && WithinDepth(e.value, depth)
    ensures Decode(EncodeEntry(e) + rest, depth) == Some(Decoded(Normal(e.key), |Encode(e.key)|))
    ensures Decode(Encode(e.value) + rest, depth) == Some(Decoded(Normal(e.value), |Encode(e.value)|))
    decreases e, 2
  {
    hide Decode, Encode, Normal, Encodable, WithinDepth;
    DecodesEncoding(e.key, Encode(e.value) + rest, depth);
    DecodesEncoding(e.value, rest, depth);
    HeaderFirst(Encode(e.key), Encode(e.value), rest);
  }

  lemma FirstEntry(k: seq<byte>, v: seq<byte>, rest: seq<byte>, n: nat, depth: nat)
    requires n > 0
    requires Decode(k + v + rest, depth).Some? && Decode(k + v + rest, depth).value.size == |k|
    requires Decode(v + rest, depth).Some? && Decode(v + rest, depth).value.size == |v|
    requires DecodeEntries(rest, n - 1, depth).Some?
    ensures var e := Entry(Decode(k + v + rest, depth).value.value, Decode(v + rest, depth).value.value);
      DecodeEntries(k + v + rest, n, depth) ==
      Some(Decoded([e] + DecodeEntries(rest, n - 1, depth).value.value,
                   |k| + |v| + DecodeEntries(rest, n - 1, depth).value.size))
  {
    hide Decode;
    var s := k + v + rest;
    assert s[|k|..] == v + rest && s[|k| + |v|..] == rest;
  }

  // --- nesting beyond the limit ------------------------------------------

  /** An encoding decodes exactly when the value nests within the limit; beyond it decoding throws. */
  lemma DecodesWithinDepth(v: Value, rest: seq<byte>, depth: nat)
    requires Encodable(v)
    ensures Decode(Encode(v) + rest, depth).Some? <==> WithinDepth(v, depth)
  {
    hide Decode, Encode, WithinDepth, Encodable;
    if WithinDepth(v, depth) {
      DecodesEncoding(v, rest, depth);
    } else {
      TooDeep(v, rest, depth);
    }
  }

  lemma {:induction false} TooDeep(v: Value, rest: seq<byte>, depth: nat)
    requires Encodable(v) && !WithinDepth(v, depth)
    ensures Decode(Encode(v) + rest, depth) == None
    decreases v, 1
  {
    if depth <= MAX_DEPTH {
      match v {
        case Arr(items) =>
          ItemsTooDeep(items, rest, depth + 1);
          ArrayFails(items, rest, depth);
        case Map(entries) =>
          EntriesTooDeep(entries, rest, depth + 1);
          MapFails(entries, rest, depth);
        case _ =>
      }
    }
  }

  lemma ArrayFails(items: seq<Value>, rest: seq<byte>, depth: nat)
    requires Encodable(Arr(items)) && depth <= MAX_DEPTH
    requires DecodeItems(EncodeItems(items) + rest, |items|, depth + 1) == None
    ensures Decode(Encode(Arr(items)) + rest, depth) == None
  {
    hide EncodeItems, DecodeItems, ReadArrayHeader;
    var header, body := ArrayHeader(|items|), EncodeItems(items) + rest;
    ReadsArrayHeader(|items|, body);
    HeaderFirst(header, EncodeItems(items), rest);
    assert DecodeArray(header + body, depth) == None;
    DecodeDispatch(header + body, depth);
  }

  lemma MapFails(entries: seq<Entry>, rest: seq<byte>, depth: nat)
    requires Encodable(Map(entries)) && depth <= MAX_DEPTH
    requires DecodeEntries(EncodeEntries(entries) + rest, |entries|, depth + 1) == None
    ensures Decode(Encode(Map(entries)) + rest, depth) == None
  {
    hide EncodeEntries, DecodeEntries, ReadMapHeader;
    var header, body := MapHeader(|entries|), EncodeEntries(entries) + rest;
    ReadsMapHeader(|entries|, body);
    HeaderFirst(header, EncodeEntries(entries), rest);
    assert DecodeMap(header + body, depth) == None;
    DecodeDispatch(header + body, depth);
  }

  lemma {:induction false} ItemsTooDeep(items: seq<Value>, rest: seq<byte>, depth: nat)
    requires forall e :: e in items ==> Encodable(e)
    requires exists e :: e in items && !WithinDepth(e, depth)
    ensures DecodeItems(EncodeItems(items) + rest, |items|, depth) == None
    decreases items, 0
  {
    hide Decode, Encode, Encodable, WithinDepth, DecodeItems;
    var first, others := Encode(items[0]), EncodeItems(items[1..]);
    HeaderFirst(first, others, rest);
    assert EncodeItems(items) == first + others;
    if WithinDepth(items[0], depth) {
      DecodesEncoding(items[0], others + rest, depth);
      ItemsTooDeep(items[1..], rest, depth);
    } else {
      TooDeep(items[0], others + rest, depth);
    }
    ItemFails(first, others + rest, |items|, depth);
  }

  lemma ItemFails(first: seq<byte>, rest: seq<byte>, n: nat, depth: nat)
    requires n > 0
    requires var d := Decode(first + rest, depth);
      d.None? || (d.value.size == |first| && DecodeItems(rest, n - 1, depth).None?)
    ensures DecodeItems(first + rest, n, depth) == None
  {
    hide Decode;
    assert (first + rest)[|first|..] == rest;
  }

  lemma {:induction false} EntriesTooDeep(entries: seq<Entry>, rest: seq<byte>, depth: nat)
    requires forall e :: e in entries ==> Encodable(e.key) && Encodable(e.value)
    requires exists e :: e in entries && !(WithinDepth(e.key, depth) && WithinDepth(e.value, depth))
    ensures DecodeEntries(EncodeEntries(entries) + rest, |entries|, depth) == None
    decreases entries, 0
  {
    hide Decode, Encode, Encodable, WithinDepth, DecodeEntries;
    var e, others := entries[0], EncodeEntries(entries[1..]);
    HeaderFirst(EncodeEntry(e), others, rest);
    assert EncodeEntries(entries) == EncodeEntry(e) + others;
    if WithinDepth(e.key, depth) && WithinDepth(e.value, depth) {
      EntriesTooDeep(entries[1..], rest, depth);
    }
    EntryDecodes(e, others + rest, depth);
    EntryFails(Encode(e.key), Encode(e.value), others + rest, |entries|, depth);
  }

  /** The key decodes if it is shallow enough, and the value after it likewise. */
  lemma {:induction false} EntryDecodes(e: Entry, rest: seq<byte>, depth: nat)
    requires Encodable(e.key) && Encodable(e.value)
    ensures var k, v := Decode(EncodeEntry(e) + rest, depth), Decode(Encode(e.value) + rest, depth);
      (if WithinDepth(e.key, depth) then k.Some? && k.value.size == |Encode(e.key)| else k.None?) &&
      (if WithinDepth(e.value, depth) then v.Some? && v.value.size == |Encode(e.value)| else v.None?)
    decreases e, 2
  {
    hide Decode, Encode, Encodable, WithinDepth;
    HeaderFirst(Encode(e.key), Encode(e.value), rest);
    if WithinDepth(e.key, depth) {
      DecodesEncoding(e.key, Encode(e.value) + rest, depth);
    } else {
      TooDeep(e.key, Encode(e.value) + rest, depth);
    }
    if WithinDepth(e.value, depth) {
      DecodesEncoding(e.value, rest, depth);
    } else {
      TooDeep(e.value, rest, depth);
    }
  }

  lemma EntryFails(k: seq<byte>, v: seq<byte>, rest: seq<byte>, n: nat, depth: nat)
    requires n > 0
    requires var a, b := Decode(k + v + rest, depth), Decode(v + rest, depth);
      a.None? || (a.value.size == |k| &&
                  (b.None? || (b.value.size == |v| && DecodeEntries(rest, n - 1, depth).None?)))
    ensures DecodeEntries(k + v + rest, n, depth) == None
  {
    hide Decode;
    var s := k + v + rest;
    assert s[|k|..] == v + rest && s[|k| + |v|..] == rest;
  }

  /** Two encodings agree on a common stream only when the values do. */
  lemma PrefixFree(v: Value, w: Value, a: seq<byte>, b: seq<byte>)
    requires Encodable(v) && Encodable(w) && WithinDepth(v, 0) && WithinDepth(w, 0)
    requires Encode(v) + a == Encode(w) + b
    ensures Normal(v) == Normal(w) && Encode(v) == Encode(w) && a == b
  {
    DecodesEncoding(v, a, 0);
    DecodesEncoding(w, b, 0);
    hide *;
    assert (Encode(v) + a)[..|Encode(v)|] == Encode(v) && (Encode(w) + b)[..|Encode(w)|] == Encode(w);
    assert (Encode(v) + a)[|Encode(v)|..] == a && (Encode(w) + b)[|Encode(w)|..] == b;
  }

  /** Values with the same normal form are indistinguishable on the wire. */
  lemma {:induction false} NormalEncodesSame(v: Value)
    requires Encodable(v)
    ensures Encodable(Normal(v)) && Encode(Normal(v)) == Encode(v)
    decreases v, 1
  {
    match v {
      case Arr(items) =>
        NormalItemsEncodeSame(items);
      case Map(entries) =>
        NormalEntriesEncodeSame(entries);
      case _ =>
    }
  }

  lemma {:induction false} NormalItemsEncodeSame(items: seq<Value>)
    requires forall e :: e in items ==> Encodable(e)
    ensures forall e :: e in NormalItems(items) ==> Encodable(e)
    ensures EncodeItems(NormalItems(items)) == EncodeItems(items)
    decreases items, 0
  {
    if items != [] {
      NormalEncodesSame(items[0]);
      NormalItemsEncodeSame(items[1..]);
      assert NormalItems(items)[1..] == NormalItems(items[1..]);
      hide Encode, Encodable, Normal;
    }
  }

  lemma {:induction false} NormalEntriesEncodeSame(entries: seq<Entry>)
    requires forall e :: e in entries ==> Encodable(e.key) && Encodable(e.value)
    ensures forall e :: e in NormalEntries(entries) ==> Encodable(e.key) && Encodable(e.value)
    ensures EncodeEntries(NormalEntries(entries)) == EncodeEntries(entries)
    decreases entries, 0
  {
    if entries != [] {
      NormalEntryEncodesSame(entries[0]);
      NormalEntriesEncodeSame(entries[1..]);
      assert NormalEntries(entries)[1..] == NormalEntries(entries[1..]);
      hide Encode, Encodable, Normal;
    }
  }

  lemma {:induction false} NormalEntryEncodesSame(e: Entry)
    requires Encodable(e.key) && Encodable(e.value)
    ensures Encodable(NormalEntry(e).key) && Encodable(NormalEntry(e).value)
    ensures EncodeEntry(NormalEntry(e)) == EncodeEntry(e)
    decreases e, 2
  {
    NormalEncodesSame(e.key);
    NormalEncodesSame(e.value);
  }

  // --- decoding and skipping agree ---------------------------------------

  /** Whatever `decode` accepts is one complete object as `skip` measures it. */
  lemma {:induction false} DecodeMeasures(s: seq<byte>, depth: nat)
    ensures Decode(s, depth).Some? ==> Extent(s) == Some(Decode(s, depth).value.size)
    decreases |s|, 0, 1
  {
    if Decode(s, depth).Some? {
      DecodeDispatch(s, depth);
      if TypeOf(s[0]) == ArrayType {
        var h := ReadArrayHeader(s).value;
        ItemsMeasure(s[h.size..], h.value, depth + 1);
        ArrayMeasures(s, depth, h);
      } else if TypeOf(s[0]) == MapType {
        var h := ReadMapHeader(s).value;
        EntriesMeasure(s[h.size..], h.value, depth + 1);
        MapMeasures(s, depth, h);
      } else {
        ScalarMeasures(s, depth);
      }
      hide *;
    }
  }

  lemma ArrayMeasures(s: seq<byte>, depth: nat, h: Read)
    requires s != [] && TypeOf(s[0]) == ArrayType && ReadArrayHeader(s) == Some(h)
    requires var d := DecodeItems(s[h.size..], h.value, depth + 1);
      d.Some? && Extents(s[h.size..], h.value) == Some(d.value.size)
    ensures DecodeArray(s, depth).Some? && Extent(s) == Some(DecodeArray(s, depth).value.size)
  {
    hide HeadOf, ReadArrayHeader, Extents, Extent, DecodeItems, TypeOf;
    HeadOfContainer(s);
    ExtentOfHead(s, Head(h.size, h.value), DecodeItems(s[h.size..], h.value, depth + 1).value.size);
  }

  lemma MapMeasures(s: seq<byte>, depth: nat, h: Read)
    requires s != [] && TypeOf(s[0]) == MapType && ReadMapHeader(s) == Some(h)
    requires var d := DecodeEntries(s[h.size..], h.value, depth + 1);
      d.Some? && Extents(s[h.size..], 2 * h.value) == Some(d.value.size)
    ensures DecodeMap(s, depth).Some? && Extent(s) == Some(DecodeMap(s, depth).value.size)
  {
    hide HeadOf, ReadMapHeader, Extents, Extent, DecodeEntries, TypeOf;
    HeadOfContainer(s);
    ExtentOfHead(s, Head(h.size, 2 * h.value), DecodeEntries(s[h.size..], h.value, depth + 1).value.size);
  }

  lemma HeadOfContainer(s: seq<byte>)
    requires s != []
    ensures TypeOf(s[0]) == ArrayType ==> HeadOf(s) == Container(ReadArrayHeader(s), 1)
    ensures TypeOf(s[0]) == MapType ==> HeadOf(s) == Container(ReadMapHeader(s), 2)
  {
    hide ReadArrayHeader, ReadMapHeader;
  }

  lemma ScalarMeasures(s: seq<byte>, depth: nat)
    requires Decode(s, depth).Some? && TypeOf(s[0]) != ArrayType && TypeOf(s[0]) != MapType
    ensures Extent(s) == Some(Decode(s, depth).value.size)
  {
    hide DecodeItems, DecodeEntries, Floats.Widen, FromBe;
    var n := Decode(s, depth).value.size;
    assert HeadOf(s) == Some(Head(n, 0));
    hide HeadOf, Decode;
    ExtentsNone(s[n..]);
  }

  lemma {:induction false} ItemsMeasure(s: seq<byte>, n: nat, depth: nat)
    ensures DecodeItems(s, n, depth).Some? ==> Extents(s, n) == Some(DecodeItems(s, n, depth).value.size)
    decreases |s|, n, 1
  {
    hide Decode, Extents, Extent;
    if n > 0 && DecodeItems(s, n, depth).Some? {
      var first := Decode(s, depth).value.size;
      DecodeMeasures(s, depth);
      ItemsMeasure(s[first..], n - 1, depth);
      ExtentsFirst(s, n);
    } else if n == 0 {
      ExtentsNone(s);
    }
  }

  lemma {:induction false} EntriesMeasure(s: seq<byte>, n: nat, depth: nat)
    ensures DecodeEntries(s, n, depth).Some? ==> Extents(s, 2 * n) == Some(DecodeEntries(s, n, depth).value.size)
    decreases |s|, n, 1
  {
    hide Decode, Extents, Extent;
    if n > 0 && DecodeEntries(s, n, depth).Some? {
      var k, v := EntrySizes(s, n, depth);
      hide DecodeEntries;
      DecodeMeasures(s, depth);
      DecodeMeasures(s[k..], depth);
      EntriesMeasure(s[k + v..], n - 1, depth);
      SliceOfDrop(s, k, 0, v);
      ExtentsFirst(s, 2 * n);
      ExtentsFirst(s[k..], 2 * n - 1);
    } else if n == 0 {
      ExtentsNone(s);
    }
  }

  lemma EntrySizes(s: seq<byte>, n: nat, depth: nat) returns (k: nat, v: nat)
    requires n > 0 && DecodeEntries(s, n, depth).Some?
    ensures 0 < k && k + v <= |s| && Decode(s, depth).Some? && Decode(s[k..], depth).Some?
    ensures k == Decode(s, depth).value.size && v == Decode(s[k..], depth).value.size
    ensures DecodeEntries(s[k + v..], n - 1, depth).Some?
    ensures DecodeEntries(s, n, depth).value.size == k + v + DecodeEntries(s[k + v..], n - 1, depth).value.size
  {
    hide Decode;
    k := Decode(s, depth).value.size;
    v := Decode(s[k..], depth).value.size;
  }
}
