/** Conversion between Value and JSON (json_value.hpp), and exactly where it loses nothing. */
module Json {
  import opened Bytes
  import opened Values

  /** An object keeps its members in order; storing to a key it already has replaces the value. */
  datatype Json =
    | JsonNull
    | JsonBool(flag: bool)
    | JsonInt(i: int)
    | JsonUint(u: nat)
    | JsonFloat(bits: nat)
    | JsonStr(text: seq<byte>)
    | JsonArr(items: seq<Json>)
    | JsonObj(members: seq<Member>)

  datatype Member = Member(key: seq<byte>, value: Json)

  const BIN_KEY: seq<byte> := Ascii("$bin")

  // --- hexadecimal -------------------------------------------------------

  function Digit(n: nat): (c: byte)
    requires n < 16
  {
    if n < 10 then (48 + n) as byte else (87 + n) as byte
  }

  /** Value of a hexadecimal digit of either case. */
  function Nibble(c: byte): (n: Option<nat>)
    ensures n.Some? ==> n.value < 16
  {
    if 48 <= c <= 57 then Some(c as int - 48)
    else if 97 <= c <= 102 then Some(c as int - 87)
    else if 65 <= c <= 70 then Some(c as int - 55)
    else None
  }

  /** The digits, written out. */
  lemma NibbleTable(n: nat, c: byte)
    requires n < 16
    ensures Nibble(Ascii("0123456789abcdef")[n]) == Some(n) == Nibble(Ascii("0123456789ABCDEF")[n])
    ensures Nibble(c).Some? ==> c in Ascii("0123456789abcdefABCDEF")
  {
    var lower, upper := "0123456789abcdef", "0123456789ABCDEF";
    assert Ascii(lower)[n] as int == lower[n] as int && Ascii(upper)[n] as int == upper[n] as int;
    if Nibble(c).Some? {
      var all := "0123456789abcdefABCDEF";
      var k := if 65 <= c <= 70 then c as int - 49 else Nibble(c).value;
      assert Ascii(all)[k] as int == all[k] as int == c as int;
    }
  }

  function ToHex(bin: seq<byte>): (h: seq<byte>)
    ensures |h| == 2 * |bin|
  {
    if bin == [] then []
    else [Digit(bin[0] as int / 16), Digit(bin[0] as int % 16)] + ToHex(bin[1..])
  }

  /** None unless every character is a digit and their number is even. */
  function FromHex(hex: seq<byte>): (b: Option<seq<byte>>)
    ensures b.Some? ==> |hex| == 2 * |b.value|
  {
    if hex == [] then Some([])
    else if |hex| == 1 then None
    else
      var hi, lo, rest := Nibble(hex[0]), Nibble(hex[1]), FromHex(hex[2..]);
      if hi.None? || lo.None? || rest.None? then None
      else Some([(16 * hi.value + lo.value) as byte] + rest.value)
  }

  predicate IsHex(hex: seq<byte>) {
    |hex| % 2 == 0 && forall i :: 0 <= i < |hex| ==> Nibble(hex[i]).Some?
  }

  predicate IsUpper(c: byte) {
    65 <= c <= 70
  }

  lemma {:induction false} FromHexIff(hex: seq<byte>)
    ensures FromHex(hex).Some? <==> IsHex(hex)
  {
    if |hex| >= 2 {
      FromHexIff(hex[2..]);
      assert forall i :: 2 <= i < |hex| ==> hex[i] == hex[2..][i - 2];
    }
  }

  lemma {:induction false} HexRoundTrip(bin: seq<byte>)
    ensures FromHex(ToHex(bin)) == Some(bin)
  {
    if bin != [] {
      HexRoundTrip(bin[1..]);
      assert ToHex(bin)[2..] == ToHex(bin[1..]);
      assert [bin[0]] + bin[1..] == bin;
    }
  }

  /** Digits come back in lower case. */
  lemma {:induction false} HexBack(hex: seq<byte>)
    requires FromHex(hex).Some?
    ensures ToHex(FromHex(hex).value) == hex <==> forall i :: 0 <= i < |hex| ==> !IsUpper(hex[i])
  {
    if hex != [] {
      var tail := FromHex(hex[2..]).value;
      HexBack(hex[2..]);
      assert forall i :: 2 <= i < |hex| ==> hex[i] == hex[2..][i - 2];
      assert FromHex(hex).value[1..] == tail;
      var back := ToHex(FromHex(hex).value);
      assert back[2..] == ToHex(tail);
      assert back == hex <==> back[0] == hex[0] && back[1] == hex[1] && back[2..] == hex[2..] by {
        assert hex == [hex[0], hex[1]] + hex[2..] && back == [back[0], back[1]] + back[2..];
      }
    }
  }

  method BinToHex(bin: seq<byte>) returns (out: seq<byte>)
    ensures out == ToHex(bin)
  {
    out := [];
    var i := 0;
    assert bin[0..] == bin;
    while i < |bin|
      invariant i <= |bin| && ToHex(bin) == out + ToHex(bin[i..])
    {
      assert bin[i..][1..] == bin[i + 1..];
      assert out + ([Digit(bin[i] as int / 16), Digit(bin[i] as int % 16)] + ToHex(bin[i + 1..]))
          == out + [Digit(bin[i] as int / 16)] + [Digit(bin[i] as int % 16)] + ToHex(bin[i + 1..]);
      out := out + [Digit(bin[i] as int / 16)];
      out := out + [Digit(bin[i] as int % 16)];
      i := i + 1;
    }
  }

  method HexToBin(hex: seq<byte>) returns (r: Option<seq<byte>>)
    ensures r == FromHex(hex)
  {
    if |hex| % 2 != 0 {
      return None;
    }
    var out := [];
    var i := 0;
    assert hex[0..] == hex;
    NothingInFront(FromHex(hex));
    while i < |hex|
      invariant i <= |hex| && i % 2 == 0 && FromHex(hex) == InFront(out, FromHex(hex[i..]))
    {
      InFrontNext(out, hex[i..]);
      assert hex[i..][2..] == hex[i + 2..];
      var hi, lo := Nibble(hex[i]), Nibble(hex[i + 1]);
      if hi.None? || lo.None? {
        return None;
      }
      out := out + [(16 * hi.value + lo.value) as byte];
      i := i + 2;
    }
    assert out + [] == out;
    return Some(out);
  }

  lemma InFrontNext(out: seq<byte>, hex: seq<byte>)
    requires |hex| >= 2
    ensures InFront(out, FromHex(hex)) ==
      var hi, lo := Nibble(hex[0]), Nibble(hex[1]);
      if hi.None? || lo.None? then None
      else InFront(out + [(16 * hi.value + lo.value) as byte], FromHex(hex[2..]))
  {
    hide Nibble;
    var hi, lo, rest := Nibble(hex[0]), Nibble(hex[1]), FromHex(hex[2..]);
    if hi.Some? && lo.Some? && rest.Some? {
      var b := [(16 * hi.value + lo.value) as byte];
      assert out + (b + rest.value) == out + b + rest.value;
    }
  }

  // --- Value to JSON -----------------------------------------------------

  /** Index of the member with that key, or the number of members. */
  function KeyIndex(members: seq<Member>, key: seq<byte>): (i: nat)
    ensures i <= |members|
    ensures i < |members| ==> members[i].key == key
    ensures forall k :: 0 <= k < i ==> members[k].key != key
  {
    FirstWith(members, (m: Member) => m.key, key)
  }

  function Put(members: seq<Member>, key: seq<byte>, value: Json): seq<Member> {
    var i := KeyIndex(members, key);
    if i < |members| then members[i := Member(key, value)] else members + [Member(key, value)]
  }

  /** A string key is used as it is; any other is rendered as text. */
  function KeyText(key: Value, render: Value -> seq<byte>): seq<byte> {
    if key.Str? then key.text else render(key)
  }

  function ToJson(v: Value, render: Value -> seq<byte>): Json
    decreases v, 1
  {
    match v
    case Null => JsonNull
    case Bool(b) => JsonBool(b)
    case Int(i) => JsonInt(i)
    case Uint(u) => JsonUint(u)
    case Float(bits) => JsonFloat(bits)
    case Str(s) => JsonStr(s)
    case Bin(b) => JsonObj([Member(BIN_KEY, JsonStr(ToHex(b)))])
    case Arr(items) => JsonArr(ToJsonItems(items, render))
    case Map(entries) => JsonObj(ToJsonMembers(entries, render))
  }

  function ToJsonItems(items: seq<Value>, render: Value -> seq<byte>): (r: seq<Json>)
    ensures |r| == |items|
    decreases items, 0
  {
    if items == [] then []
    else ToJsonItems(items[..|items| - 1], render) + [ToJson(items[|items| - 1], render)]
  }

  function ToJsonMembers(entries: seq<Entry>, render: Value -> seq<byte>): (r: seq<Member>)
    ensures |r| <= |entries|
    decreases entries, 0
  {
    if entries == [] then []
    else
      var e := entries[|entries| - 1];
      Put(ToJsonMembers(entries[..|entries| - 1], render), KeyText(e.key, render), EntryJson(e, render))
  }

  function EntryJson(e: Entry, render: Value -> seq<byte>): Json
    decreases e, 2
  {
    ToJson(e.value, render)
  }

  // --- JSON to Value -----------------------------------------------------

  /** The blob of a `{"$bin": "<hex>"}` object. */
  function BinOf(members: seq<Member>): Option<seq<byte>> {
    if |members| == 1 && members[0].key == BIN_KEY && members[0].value.JsonStr? then FromHex(members[0].value.text)
    else None
  }

  function FromJson(j: Json): Value
    decreases j, 1
  {
    match j
    case JsonNull => Null
    case JsonBool(b) => Bool(b)
    case JsonInt(i) => Int(i)
    case JsonUint(u) => Uint(u)
    case JsonFloat(bits) => Float(bits)
    case JsonStr(s) => Str(s)
    case JsonArr(items) => Arr(FromJsonItems(items))
    case JsonObj(members) =>
      if BinOf(members).Some? then Bin(BinOf(members).value) else Map(FromJsonMembers(members))
  }

  function FromJsonItems(items: seq<Json>): (r: seq<Value>)
    ensures |r| == |items|
    decreases items, 0
  {
    if items == [] then []
    else FromJsonItems(items[..|items| - 1]) + [FromJson(items[|items| - 1])]
  }

  function FromJsonMembers(members: seq<Member>): (r: seq<Entry>)
    ensures |r| == |members|
    decreases members, 0
  {
    if members == [] then []
    else
      var m := members[|members| - 1];
      FromJsonMembers(members[..|members| - 1]) + [Entry(Str(m.key), MemberValue(m))]
  }

  function MemberValue(m: Member): Value
    decreases m, 2
  {
    FromJson(m.value)
  }

  // --- the loops of the source -------------------------------------------

  method ValueToJson(v: Value, render: Value -> seq<byte>) returns (j: Json)
    ensures j == ToJson(v, render)
    decreases v
  {
    match v {
      case Null => return JsonNull;
      case Bool(b) => return JsonBool(b);
      case Int(i) => return JsonInt(i);
      case Uint(u) => return JsonUint(u);
      case Float(bits) => return JsonFloat(bits);
      case Str(s) => return JsonStr(s);
      case Bin(b) =>
        var hex := BinToHex(b);
        return JsonObj([Member(BIN_KEY, JsonStr(hex))]);
      case Arr(items) =>
        var out := ItemsToJson(items, render);
        return JsonArr(out);
      case Map(entries) =>
        var obj := EntriesToJson(entries, render);
        return JsonObj(obj);
    }
  }

  method ItemsToJson(items: seq<Value>, render: Value -> seq<byte>) returns (out: seq<Json>)
    ensures out == ToJsonItems(items, render)
    decreases items
  {
    out := [];
    for i := 0 to |items|
      invariant out == ToJsonItems(items[..i], render)
    {
      var item := ValueToJson(items[i], render);
      assert items[..i + 1][..i] == items[..i];
      out := out + [item];
    }
    assert items[..|items|] == items;
  }

  method EntryToJson(e: Entry, render: Value -> seq<byte>) returns (j: Json)
    ensures j == EntryJson(e, render)
    decreases e
  {
    j := ValueToJson(e.value, render);
  }

  method EntriesToJson(entries: seq<Entry>, render: Value -> seq<byte>) returns (obj: seq<Member>)
    ensures obj == ToJsonMembers(entries, render)
    decreases entries
  {
    hide Put;
    obj := [];
    for i := 0 to |entries|
      invariant obj == ToJsonMembers(entries[..i], render)
    {
      var e := entries[i];
      assert e in entries;
      var value := EntryToJson(e, render);
      assert entries[..i + 1][..i] == entries[..i];
      obj := Put(obj, if e.key.Str? then e.key.text else render(e.key), value);
    }
    assert entries[..|entries|] == entries;
  }

  method JsonToValue(j: Json) returns (v: Value)
    ensures v == FromJson(j)
    decreases j
  {
    match j {
      case JsonNull => return Null;
      case JsonBool(b) => return Bool(b);
      case JsonInt(i) => return Int(i);
      case JsonUint(u) => return Uint(u);
      case JsonFloat(bits) => return Float(bits);
      case JsonStr(s) => return Str(s);
      case JsonArr(items) =>
        var out := [];
        for i := 0 to |items|
          invariant out == FromJsonItems(items[..i])
        {
          var item := JsonToValue(items[i]);
          assert items[..i + 1][..i] == items[..i];
          out := out + [item];
        }
        assert items[..|items|] == items;
        return Arr(out);
      case JsonObj(members) =>
        if |members| == 1 && members[0].key == BIN_KEY && members[0].value.JsonStr? {
          var bin := HexToBin(members[0].value.text);
          if bin.Some? {
            return Bin(bin.value);
          }
        }
        var out := [];
        for i := 0 to |members|
          invariant out == FromJsonMembers(members[..i])
        {
          var m := members[i];
          assert m in members;
          var value := JsonToValue(m.value);
          assert members[..i + 1][..i] == members[..i];
          out := out + [Entry(Str(m.key), value)];
        }
        assert members[..|members|] == members;
        return Map(out);
    }
  }

  // --- what survives the round trip --------------------------------------

  ghost predicate StringKeys(entries: seq<Entry>) {
    && (forall i :: 0 <= i < |entries| ==> entries[i].key.Str?)
    && (forall i, j :: 0 <= i < j < |entries| ==> entries[i].key != entries[j].key)
  }

  /** A map that reads like the rendering of a blob. */
  predicate LooksLikeBin(entries: seq<Entry>) {
    |entries| == 1 && entries[0].key == Str(BIN_KEY) && entries[0].value.Str? && IsHex(entries[0].value.text)
  }

  /** At every level keys are distinct strings, and no map looks like a blob. */
  ghost predicate Lossless(v: Value)
    decreases v
  {
    match v
    case Arr(items) => forall e :: e in items ==> Lossless(e)
    case Map(entries) =>
      StringKeys(entries) && !LooksLikeBin(entries) && forall e :: e in entries ==> Lossless(e.value)
    case _ => true
  }

  lemma {:induction false} ItemsPointwise(items: seq<Value>, render: Value -> seq<byte>)
    ensures forall i :: 0 <= i < |items| ==> ToJsonItems(items, render)[i] == ToJson(items[i], render)
  {
    hide ToJson;
    if items != [] {
      ItemsPointwise(items[..|items| - 1], render);
    }
  }

  lemma {:induction false} JsonItemsPointwise(items: seq<Json>)
    ensures forall i :: 0 <= i < |items| ==> FromJsonItems(items)[i] == FromJson(items[i])
  {
    hide FromJson;
    if items != [] {
      JsonItemsPointwise(items[..|items| - 1]);
    }
  }

  lemma {:induction false} MembersPointwise(members: seq<Member>)
    ensures forall i :: 0 <= i < |members| ==>
      FromJsonMembers(members)[i] == Entry(Str(members[i].key), FromJson(members[i].value))
  {
    hide FromJson;
    if members != [] {
      MembersPointwise(members[..|members| - 1]);
    }
  }

  ghost predicate UniqueKeys(members: seq<Member>) {
    forall i, j :: 0 <= i < j < |members| ==> members[i].key != members[j].key
  }

  lemma {:induction false} MembersUnique(entries: seq<Entry>, render: Value -> seq<byte>)
    ensures UniqueKeys(ToJsonMembers(entries, render))
  {
    hide EntryJson, KeyText;
    if entries != [] {
      MembersUnique(entries[..|entries| - 1], render);
    }
  }

  /** The member is there, every other stays, and no key changes its place. */
  lemma PutSets(members: seq<Member>, key: seq<byte>, value: Json)
    requires UniqueKeys(members)
    ensures var r := Put(members, key, value);
      |members| <= |r| && (forall i :: 0 <= i < |members| ==> r[i].key == members[i].key) &&
      (forall m :: m in r <==> m == Member(key, value) || (m in members && m.key != key))
  {
    var r, i := Put(members, key, value), KeyIndex(members, key);
    forall m | m in members && m.key != key
      ensures m in r
    {
      var k :| 0 <= k < |members| && members[k] == m;
      assert r[k] == m;
    }
    assert r[i] == Member(key, value);
  }

  /** The entry is the last one rendered to its key. */
  ghost predicate LastOfKey(entries: seq<Entry>, j: nat, render: Value -> seq<byte>)
    requires j < |entries|
  {
    forall k :: j < k < |entries| ==> KeyText(entries[k].key, render) != KeyText(entries[j].key, render)
  }

  function MemberOf(e: Entry, render: Value -> seq<byte>): Member {
    Member(KeyText(e.key, render), EntryJson(e, render))
  }

  /** The last entry of a key is the member under that key. */
  lemma {:induction false} LastEntryWins(entries: seq<Entry>, j: nat, render: Value -> seq<byte>)
    requires j < |entries| && LastOfKey(entries, j, render)
    ensures MemberOf(entries[j], render) in ToJsonMembers(entries, render)
    decreases |entries|
  {
    hide EntryJson, KeyText, Put;
    var n := |entries| - 1;
    var front, e := entries[..n], entries[n];
    MembersUnique(front, render);
    PutSets(ToJsonMembers(front, render), KeyText(e.key, render), EntryJson(e, render));
    if j < n {
      assert forall k :: j <= k < n ==> front[k] == entries[k];
      LastEntryWins(front, j, render);
    }
  }

  /** And there are no other members. */
  lemma {:induction false} MembersAreLast(entries: seq<Entry>, m: Member, render: Value -> seq<byte>) returns (j: nat)
    requires m in ToJsonMembers(entries, render)
    ensures j < |entries| && LastOfKey(entries, j, render) && m == MemberOf(entries[j], render)
    decreases |entries|
  {
    hide EntryJson, KeyText, Put;
    j := |entries| - 1;
    var front, e := entries[..j], entries[j];
    MembersUnique(front, render);
    PutSets(ToJsonMembers(front, render), KeyText(e.key, render), EntryJson(e, render));
    if m != MemberOf(e, render) {
      j := MembersAreLast(front, m, render);
      assert forall k :: j <= k < |front| ==> front[k] == entries[k];
    }
  }

  /** A key keeps the place of its first entry, however many follow. */
  lemma {:induction false} KeysKeepPlace(entries: seq<Entry>, n: nat, render: Value -> seq<byte>)
    requires n <= |entries|
    ensures var before, after := ToJsonMembers(entries[..n], render), ToJsonMembers(entries, render);
      |before| <= |after| && forall i :: 0 <= i < |before| ==> after[i].key == before[i].key
    decreases |entries|
  {
    hide EntryJson, KeyText, Put;
    if n < |entries| {
      var front := entries[..|entries| - 1];
      assert front[..n] == entries[..n];
      KeysKeepPlace(front, n, render);
      MembersUnique(front, render);
      var e := entries[|entries| - 1];
      PutSets(ToJsonMembers(front, render), KeyText(e.key, render), EntryJson(e, render));
    } else {
      assert entries[..n] == entries;
    }
  }

  /** With distinct string keys every entry becomes a member of its own, in place. */
  lemma {:induction false} MembersInOrder(entries: seq<Entry>, render: Value -> seq<byte>)
    requires StringKeys(entries)
    ensures |ToJsonMembers(entries, render)| == |entries|
    ensures forall i :: 0 <= i < |entries| ==>
      ToJsonMembers(entries, render)[i] == Member(entries[i].key.text, ToJson(entries[i].value, render))
  {
    hide ToJson;
    if entries != [] {
      var n := |entries| - 1;
      MembersInOrder(entries[..n], render);
      var before := ToJsonMembers(entries[..n], render);
      assert KeyIndex(before, entries[n].key.text) == n;
    }
  }

  /** The result of reading an object always has distinct string keys. */
  lemma EntriesHaveStringKeys(members: seq<Member>)
    requires UniqueKeys(members)
    ensures StringKeys(FromJsonMembers(members))
  {
    hide FromJson, FromJsonMembers;
    MembersPointwise(members);
  }

  /** A value survives the trip through JSON exactly when it is lossless. */
  lemma {:induction false} JsonRoundTrip(v: Value, render: Value -> seq<byte>)
    ensures FromJson(ToJson(v, render)) == v <==> Lossless(v)
    decreases v
  {
    match v {
      case Bin(b) =>
        HexRoundTrip(b);
      case Arr(items) =>
        forall e | e in items
          ensures FromJson(ToJson(e, render)) == e <==> Lossless(e)
        {
          JsonRoundTrip(e, render);
        }
        ArrayRoundTrip(items, render);
      case Map(entries) =>
        forall e | e in entries
          ensures FromJson(ToJson(e.value, render)) == e.value <==> Lossless(e.value)
        {
          assert e < v;
          JsonRoundTrip(e.value, render);
        }
        MapRoundTrip(entries, render);
      case _ =>
    }
  }

  /** A sequence equals its image when each element is fixed. */
  lemma FixedPointwise<T>(s: seq<T>, image: seq<T>, f: T -> T)
    requires |image| == |s| && forall i :: 0 <= i < |s| ==> image[i] == f(s[i])
    ensures image == s <==> forall e :: e in s ==> f(e) == e
  {
    if image == s {
      assert forall i :: 0 <= i < |s| ==> f(s[i]) == s[i];
    }
  }

  lemma ArrayRoundTrip(items: seq<Value>, render: Value -> seq<byte>)
    ensures FromJson(ToJson(Arr(items), render)) == Arr(items) <==>
      forall e :: e in items ==> FromJson(ToJson(e, render)) == e
  {
    var js := ToJsonItems(items, render);
    ItemsPointwise(items, render);
    JsonItemsPointwise(js);
    assert FromJson(ToJson(Arr(items), render)) == Arr(FromJsonItems(js));
    hide FromJson, ToJson, ToJsonItems, FromJsonItems;
    FixedPointwise(items, FromJsonItems(js), e => FromJson(ToJson(e, render)));
  }

  lemma MapRoundTrip(entries: seq<Entry>, render: Value -> seq<byte>)
    ensures FromJson(ToJson(Map(entries), render)) == Map(entries) <==>
      StringKeys(entries) && !LooksLikeBin(entries) &&
      forall e :: e in entries ==> FromJson(ToJson(e.value, render)) == e.value
  {
    var members := ToJsonMembers(entries, render);
    assert FromJson(ToJson(Map(entries), render)) ==
      if BinOf(members).Some? then Bin(BinOf(members).value) else Map(FromJsonMembers(members));
    MembersUnique(entries, render);
    EntriesHaveStringKeys(members);
    MembersPointwise(members);
    if StringKeys(entries) {
      MembersInOrder(entries, render);
      BinIff(entries, render);
    }
    hide FromJson, ToJson, ToJsonMembers, FromJsonMembers, BinOf, LooksLikeBin, UniqueKeys;
    if StringKeys(entries) {
      FixedPointwise(entries, FromJsonMembers(members), e => EntryBack(e, render));
    }
  }

  function EntryBack(e: Entry, render: Value -> seq<byte>): Entry {
    Entry(if e.key.Str? then Str(e.key.text) else e.key, FromJson(ToJson(e.value, render)))
  }

  lemma BinIff(entries: seq<Entry>, render: Value -> seq<byte>)
    requires StringKeys(entries)
    ensures BinOf(ToJsonMembers(entries, render)).Some? <==> LooksLikeBin(entries)
  {
    MembersInOrder(entries, render);
    if |entries| == 1 {
      JsonKind(entries[0].value, render);
      if entries[0].value.Str? {
        FromHexIff(entries[0].value.text);
      }
    }
    hide ToJson, ToJsonMembers, IsHex;
  }

  lemma JsonKind(v: Value, render: Value -> seq<byte>)
    ensures ToJson(v, render).JsonStr? <==> v.Str?
    ensures v.Str? ==> ToJson(v, render) == JsonStr(v.text)
  {}

  // --- and back ----------------------------------------------------------

  /** What every ordered object guarantees. */
  ghost predicate WellFormed(j: Json)
    decreases j
  {
    match j
    case JsonArr(items) => forall e :: e in items ==> WellFormed(e)
    case JsonObj(members) => UniqueKeys(members) && forall m :: m in members ==> WellFormed(m.value)
    case _ => true
  }

  /** No blob is spelled with upper-case digits. */
  ghost predicate Tidy(j: Json)
    decreases j
  {
    match j
    case JsonArr(items) => forall e :: e in items ==> Tidy(e)
    case JsonObj(members) =>
      if BinOf(members).Some? then
        forall i :: 0 <= i < |members[0].value.text| ==> !IsUpper(members[0].value.text[i])
      else forall m :: m in members ==> Tidy(m.value)
    case _ => true
  }

  /** JSON survives the trip through Value exactly when its blobs are in lower case. */
  lemma {:induction false} ValueRoundTrip(j: Json, render: Value -> seq<byte>)
    requires WellFormed(j)
    ensures ToJson(FromJson(j), render) == j <==> Tidy(j)
    decreases j
  {
    match j {
      case JsonArr(items) =>
        forall e | e in items
          ensures ToJson(FromJson(e), render) == e <==> Tidy(e)
        {
          ValueRoundTrip(e, render);
        }
        JsonArrayBack(items, render);
      case JsonObj(members) =>
        if BinOf(members).Some? {
          HexBack(members[0].value.text);
          assert members == [Member(BIN_KEY, members[0].value)];
        } else {
          forall m | m in members
            ensures ToJson(FromJson(m.value), render) == m.value <==> Tidy(m.value)
          {
            assert m < j;
            ValueRoundTrip(m.value, render);
          }
          JsonObjectBack(members, render);
        }
      case _ =>
    }
  }

  lemma JsonArrayBack(items: seq<Json>, render: Value -> seq<byte>)
    ensures ToJson(FromJson(JsonArr(items)), render) == JsonArr(items) <==>
      forall e :: e in items ==> ToJson(FromJson(e), render) == e
  {
    var vs := FromJsonItems(items);
    JsonItemsPointwise(items);
    ItemsPointwise(vs, render);
    assert ToJson(FromJson(JsonArr(items)), render) == JsonArr(ToJsonItems(vs, render));
    hide FromJson, ToJson, ToJsonItems, FromJsonItems;
    FixedPointwise(items, ToJsonItems(vs, render), e => ToJson(FromJson(e), render));
  }

  lemma JsonObjectBack(members: seq<Member>, render: Value -> seq<byte>)
    requires UniqueKeys(members) && BinOf(members).None?
    ensures ToJson(FromJson(JsonObj(members)), render) == JsonObj(members) <==>
      forall m :: m in members ==> ToJson(FromJson(m.value), render) == m.value
  {
    assert ToJson(FromJson(JsonObj(members)), render) == JsonObj(ToJsonMembers(FromJsonMembers(members), render)) by {
      hide ToJsonMembers, FromJsonMembers, BinOf;
    }
    hide *;
    MembersBack(members, render);
    FixedPointwise(members, ToJsonMembers(FromJsonMembers(members), render), m => MemberBack(m, render));
    MemberFixed(members, render);
  }

  lemma MembersBack(members: seq<Member>, render: Value -> seq<byte>)
    requires UniqueKeys(members)
    ensures var back := ToJsonMembers(FromJsonMembers(members), render);
      |back| == |members| && forall i :: 0 <= i < |members| ==> back[i] == MemberBack(members[i], render)
  {
    hide ToJson, FromJson, ToJsonMembers, FromJsonMembers, UniqueKeys, StringKeys;
    EntriesHaveStringKeys(members);
    MembersPointwise(members);
    MembersInOrder(FromJsonMembers(members), render);
  }

  lemma MemberFixed(members: seq<Member>, render: Value -> seq<byte>)
    ensures forall m :: m in members ==>
      (MemberBack(m, render) == m <==> ToJson(FromJson(m.value), render) == m.value)
  {
    hide ToJson, FromJson;
  }

  function MemberBack(m: Member, render: Value -> seq<byte>): Member {
    Member(m.key, ToJson(FromJson(m.value), render))
  }
}
