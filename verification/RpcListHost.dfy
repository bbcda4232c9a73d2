/** The host's side of rpc.list: reading a page, and collecting pages until the list ends. */
module RpcListHost {
  import opened Bytes
  import opened MsgPack
  import opened MsgPackCodec
  import opened Values
  import opened RpcList

  // --- reading a page ----------------------------------------------------

  /** One element of a page: a name, or an array that starts with one. */
  function ParseItem(v: Value): Option<Method> {
    match v
    case Str(name) => Some(Method(name, []))
    case Arr(parts) =>
      if parts == [] || !parts[0].Str? then None
      else Some(Method(parts[0].text, if |parts| >= 2 && parts[1].Str? then parts[1].text else []))
    case _ => None
  }

  function ParseItems(items: seq<Value>): Option<seq<Method>> {
    if items == [] then Some([])
    else
      var first, rest := ParseItem(items[0]), ParseItems(items[1..]);
      if first.None? || rest.None? then None else Some([first.value] + rest.value)
  }

  /** None is the source's ProtocolError. */
  function ParseList(v: Value): Option<seq<Method>> {
    if v.Arr? then ParseItems(v.items) else None
  }

  method ParseRpcList(v: Value) returns (out: Option<seq<Method>>)
    ensures out == ParseList(v)
  {
    if !v.Arr? {
      return None;
    }
    var ms := [];
    var i := 0;
    assert v.items[0..] == v.items;
    NothingInFront(ParseItems(v.items));
    while i < |v.items|
      invariant i <= |v.items|
      invariant ParseItems(v.items) == InFront(ms, ParseItems(v.items[i..]))
    {
      assert v.items[i..][1..] == v.items[i + 1..];
      InFrontNext(ms, v.items[i..]);
      var item := v.items[i];
      var m: Method;
      if item.Str? {
        m := Method(item.text, []);
      } else if item.Arr? {
        if item.items == [] || !item.items[0].Str? {
          return None;
        }
        m := Method(item.items[0].text, []);
        if |item.items| >= 2 && item.items[1].Str? {
          m := Method(m.name, item.items[1].text);
        }
      } else {
        return None;
      }
      ms := ms + [m];
      i := i + 1;
    }
    assert ms + [] == ms;
    return Some(ms);
  }

  lemma InFrontNext(ms: seq<Method>, items: seq<Value>)
    requires items != []
    ensures InFront(ms, ParseItems(items)) ==
      var first := ParseItem(items[0]);
      if first.None? then None else InFront(ms + [first.value], ParseItems(items[1..]))
  {
    var first, rest := ParseItem(items[0]), ParseItems(items[1..]);
    if first.Some? && rest.Some? {
      assert ms + ([first.value] + rest.value) == ms + [first.value] + rest.value;
    }
  }

  /** The value a page decodes to. */
  function PageItems(ms: seq<Method>): (items: seq<Value>)
    ensures |items| == |ms|
  {
    if ms == [] then [] else [Arr([Str(ms[0].name), Str(ms[0].signature)])] + PageItems(ms[1..])
  }

  lemma {:induction false} ParsesPage(ms: seq<Method>)
    ensures ParseItems(PageItems(ms)) == Some(ms)
  {
    if ms != [] {
      ParsesPage(ms[1..]);
      assert ParseItem(PageItems(ms)[0]) == Some(ms[0]);
      assert [ms[0]] + ms[1..] == ms;
      assert PageItems(ms)[1..] == PageItems(ms[1..]);
    }
  }

  function Names(names: seq<seq<byte>>): seq<Value> {
    if names == [] then [] else [Str(names[0])] + Names(names[1..])
  }

  function Unsigned(names: seq<seq<byte>>): seq<Method> {
    if names == [] then [] else [Method(names[0], [])] + Unsigned(names[1..])
  }

  /** A device that reports bare names is understood as well, its methods having no signature. */
  lemma {:induction false} ParsesNames(names: seq<seq<byte>>)
    ensures ParseList(Arr(Names(names))) == Some(Unsigned(names))
  {
    if names != [] {
      ParsesNames(names[1..]);
      assert Names(names)[1..] == Names(names[1..]);
    }
  }

  /** The element is a name or starts with one. */
  predicate Named(v: Value) {
    v.Str? || (v.Arr? && v.items != [] && v.items[0].Str?)
  }

  /** A list is understood exactly when every element is so. */
  lemma {:induction false} ParsesNamed(items: seq<Value>)
    ensures ParseItems(items).Some? <==> forall v :: v in items ==> Named(v)
    ensures ParseItems(items).Some? ==> |ParseItems(items).value| == |items|
  {
    if items != [] {
      ParsesNamed(items[1..]);
      assert items == [items[0]] + items[1..];
      assert ParseItem(items[0]).Some? <==> Named(items[0]);
      assert forall v :: v in items <==> v == items[0] || v in items[1..];
    }
  }

  /** A page's entries are the encodings of its items, and decode to them. */
  lemma {:induction false} PageItemsEncode(ms: seq<Method>, depth: nat)
    requires Listable(ms) && depth + 1 <= MAX_DEPTH
    ensures forall e :: e in PageItems(ms) ==> Encodable(e) && WithinDepth(e, depth)
    ensures EncodeItems(PageItems(ms)) == EncodeMethods(ms)
    ensures NormalItems(PageItems(ms)) == PageItems(ms)
  {
    if ms != [] {
      PairEncodes(ms[0], depth);
      PageItemsEncode(ms[1..], depth);
      assert PageItems(ms)[1..] == PageItems(ms[1..]);
      hide Encode, Encodable, Normal, EncodeMethod, WithinDepth;
    }
  }

  lemma PairEncodes(m: Method, depth: nat)
    requires |m.name| < 65536 && |m.signature| < 65536 && depth + 1 <= MAX_DEPTH
    ensures var pair := Arr([Str(m.name), Str(m.signature)]);
      Encodable(pair) && WithinDepth(pair, depth) && Encode(pair) == EncodeMethod(m) && Normal(pair) == pair
  {
    hide EncodeStr, ArrayHeader;
    var a, b := Str(m.name), Str(m.signature);
    assert [a, b][1..] == [b] && [b][1..] == [];
    assert EncodeItems([b]) == Encode(b) + EncodeItems([]) == Encode(b);
    assert EncodeItems([a, b]) == Encode(a) + Encode(b);
    assert NormalItems([b]) == [b] + NormalItems([]) == [b];
    assert NormalItems([a, b]) == [a] + [b];
    assert ArrayHeader(2) + EncodeStr(m.name) + EncodeStr(m.signature)
        == ArrayHeader(2) + (EncodeStr(m.name) + EncodeStr(m.signature));
  }

  /** The fixed-width header of a page is no obstacle: the page decodes to exactly its entries. */
  lemma PageDecodes(ms: seq<Method>, rest: seq<byte>)
    requires Listable(ms) && |ms| < 65536
    ensures Decode(PageBytes(ms) + rest, 0) == Some(Decoded(Arr(PageItems(ms)), |PageBytes(ms)|))
  {
    hide Decode, DecodeItems, EncodeItems, NormalItems, EncodeMethods, PageItems, Listable, Tagged, Encodable,
      WithinDepth;
    var header, entries := Tagged(0xdc, |ms|, 2), EncodeMethods(ms);
    PageItemsEncode(ms, 1);
    DecodesItems(PageItems(ms), rest, 1);
    Array16Reads(|ms|, entries + rest);
    HeaderFirst(header, entries, rest);
    ArrayDecodes(header, entries + rest, |ms|, PageItems(ms), |entries|);
  }

  lemma Array16Reads(n: nat, body: seq<byte>)
    requires n < 65536
    ensures var s := Tagged(0xdc, n, 2) + body;
      s[0] == 0xdc && ReadArrayHeader(s) == Some(Read(n, 3)) && s[3..] == body
    ensures |Tagged(0xdc, n, 2)| == 3
  {
    hide MsgPack.After, Be;
    Powers();
    AfterTagged(0xdc, n, 2, body);
  }

  lemma ArrayDecodes(header: seq<byte>, body: seq<byte>, n: nat, items: seq<Value>, size: nat)
    requires header + body != [] && TypeOf((header + body)[0]) == ArrayType
    requires ReadArrayHeader(header + body) == Some(Read(n, |header|)) && (header + body)[|header|..] == body
    requires DecodeItems(body, n, 1) == Some(Decoded(items, size))
    ensures Decode(header + body, 0) == Some(Decoded(Arr(items), |header| + size))
  {
    hide Decode, DecodeItems, ReadArrayHeader, TypeOf;
    DecodeDispatch(header + body, 0);
  }

  // --- collecting pages --------------------------------------------------

  const MAX_LIST_PAGES: nat := 256

  predicate HasName(ms: seq<Method>, name: seq<byte>) {
    exists m :: m in ms && m.name == name
  }

  /** Appends the entries whose names are new. */
  function AddNew(out: seq<Method>, page: seq<Method>): (r: seq<Method>)
    ensures |r| >= |out|
    decreases |page|
  {
    if page == [] then out
    else AddNew(if HasName(out, page[0].name) then out else out + [page[0]], page[1..])
  }

  /** At most `budget` requests, each for the entries after those already collected. */
  function Collect(fetch: nat -> Option<seq<Method>>, out: seq<Method>, budget: nat): Option<seq<Method>>
    decreases budget
  {
    if budget == 0 then Some(out)
    else
      var page := fetch(|out|);
      if page.None? then None
      else if page.value == [] then Some(out)
      else
        var more := AddNew(out, page.value);
        if |more| == |out| then Some(out) else Collect(fetch, more, budget - 1)
  }

  /** None when a fetch throws. */
  method CollectRpcListPages(fetch: nat -> Option<seq<Method>>) returns (r: Option<seq<Method>>)
    ensures r == Collect(fetch, [], MAX_LIST_PAGES)
  {
    var out: seq<Method> := [];
    var iter := 0;
    while iter < MAX_LIST_PAGES
      invariant iter <= MAX_LIST_PAGES
      invariant Collect(fetch, [], MAX_LIST_PAGES) == Collect(fetch, out, MAX_LIST_PAGES - iter)
    {
      var page := fetch(|out|);
      if page.None? {
        return None;
      }
      if page.value == [] {
        break;
      }
      ghost var before := out;
      var added := 0;
      var k := 0;
      assert page.value[0..] == page.value;
      while k < |page.value|
        invariant k <= |page.value| && |out| == |before| + added
        invariant AddNew(before, page.value) == AddNew(out, page.value[k..])
      {
        assert page.value[k..][1..] == page.value[k + 1..];
        if !HasName(out, page.value[k].name) {
          out := out + [page.value[k]];
          added := added + 1;
        }
        k := k + 1;
      }
      AddNewKeeps(before, page.value);
      assert out == AddNew(before, page.value);
      if added == 0 {
        assert out == before;
        break;
      }
      iter := iter + 1;
    }
    return Some(out);
  }

  lemma {:induction false} AddNewKeeps(out: seq<Method>, page: seq<Method>)
    ensures out <= AddNew(out, page)
    decreases |page|
  {
    if page != [] {
      AddNewKeeps(if HasName(out, page[0].name) then out else out + [page[0]], page[1..]);
    }
  }

  /** Every name on the page is there afterwards, none twice, and nothing that was not collected or listed. */
  lemma {:induction false} AddNewNames(out: seq<Method>, page: seq<Method>)
    ensures Distinct(out) ==> Distinct(AddNew(out, page))
    ensures forall m :: m in page ==> HasName(AddNew(out, page), m.name)
    ensures forall m :: m in AddNew(out, page) ==> m in out || m in page
    decreases |page|
  {
    if page != [] {
      var next := if HasName(out, page[0].name) then out else out + [page[0]];
      AddNewNames(next, page[1..]);
      AddNewKeeps(next, page[1..]);
      assert page == [page[0]] + page[1..];
      assert HasName(next, page[0].name) by {
        if !HasName(out, page[0].name) {
          assert page[0] in next;
        }
      }
      HasNameIn(next, AddNew(out, page), page[0].name);
    }
  }

  lemma HasNameIn(a: seq<Method>, b: seq<Method>, name: seq<byte>)
    requires a <= b && HasName(a, name)
    ensures HasName(b, name)
  {
    var m :| m in a && m.name == name;
    assert m in b;
  }

  /** Whatever the device replies, no name is collected twice. */
  lemma {:induction false} CollectsOnce(fetch: nat -> Option<seq<Method>>, out: seq<Method>, budget: nat)
    requires Distinct(out)
    ensures Collect(fetch, out, budget).Some? ==>
      Distinct(Collect(fetch, out, budget).value) && out <= Collect(fetch, out, budget).value
    decreases budget
  {
    if budget > 0 && fetch(|out|).Some? {
      AddNewNames(out, fetch(|out|).value);
      AddNewKeeps(out, fetch(|out|).value);
      hide AddNew, Distinct;
      CollectsOnce(fetch, AddNew(out, fetch(|out|).value), budget - 1);
    }
  }

  // --- the two ends together ---------------------------------------------

  /** What the host makes of the device's reply to `rpc.list start`. */
  function Fetch(table: seq<Method>, scratch: nat, start: nat): Option<seq<Method>> {
    var page := Page(table, start, scratch);
    if page.None? then None
    else
      var v := Decode(page.value, 0);
      if v.None? then None else ParseList(v.value.value)
  }

  predicate Distinct(ms: seq<Method>) {
    forall i, j :: 0 <= i < j < |ms| ==> ms[i].name != ms[j].name
  }

  /** Pages needed for the entries from `k` on, or None when some entry fits no page. */
  function PagesFrom(table: seq<Method>, scratch: nat, k: nat): Option<nat>
    requires k <= |table|
    decreases |table| - k
  {
    if k == |table| then Some(0)
    else if scratch < ARRAY_HEADER_LEN then None
    else
      var n := Fitting(table[k..], scratch - ARRAY_HEADER_LEN);
      if n == 0 then None
      else
        var rest := PagesFrom(table, scratch, k + n);
        if rest.None? then None else Some(rest.value + 1)
  }

  /** Each entry fits a page of its own exactly when the listing needs finitely many pages. */
  lemma {:induction false} PagesExist(table: seq<Method>, scratch: nat, k: nat)
    requires k <= |table|
    ensures PagesFrom(table, scratch, k).Some? <==>
      forall i :: k <= i < |table| ==> ARRAY_HEADER_LEN + |EncodeMethod(table[i])| <= scratch
    decreases |table| - k
  {
    hide EncodeMethod;
    if k < |table| && scratch < ARRAY_HEADER_LEN {
      assert ARRAY_HEADER_LEN + |EncodeMethod(table[k])| > scratch;
    } else if k < |table| {
      var rest, room := table[k..], scratch - ARRAY_HEADER_LEN;
      var n := Fitting(rest, room);
      assert rest[0] == table[k];
      if n == 0 {
        assert ARRAY_HEADER_LEN + |EncodeMethod(table[k])| > scratch;
      } else {
        FittingFits(rest, room);
        assert forall i :: k <= i < k + n ==> table[i] == rest[i - k];
        PagesExist(table, scratch, k + n);
      }
    }
  }

  lemma {:induction false} FittingFits(ms: seq<Method>, room: nat)
    ensures forall i :: 0 <= i < Fitting(ms, room) ==> |EncodeMethod(ms[i])| <= room
  {
    hide EncodeMethod;
    if ms != [] && |EncodeMethod(ms[0])| <= room {
      FittingFits(ms[1..], room - |EncodeMethod(ms[0])|);
      assert forall i :: 1 <= i < |ms| ==> ms[i] == ms[1..][i - 1];
    }
  }

  lemma PageEdges(table: seq<Method>, scratch: nat, k: nat)
    requires k <= |table|
    ensures k == |table| ==> Page(table, k, scratch) == Some(ArrayHeader(0))
    ensures k < |table| && scratch < ARRAY_HEADER_LEN ==> Page(table, k, scratch) == None
  {
    hide Tried, EncodeMethods;
  }

  lemma FetchesPage(table: seq<Method>, scratch: nat, k: nat)
    requires Listable(table) && k <= |table| < 65536
    ensures k == |table| ==> Fetch(table, scratch, k) == Some([])
    ensures k < |table| && (scratch < ARRAY_HEADER_LEN || Fitting(table[k..], scratch - ARRAY_HEADER_LEN) == 0) ==>
      Fetch(table, scratch, k) == None
    ensures k < |table| && scratch >= ARRAY_HEADER_LEN && Fitting(table[k..], scratch - ARRAY_HEADER_LEN) > 0 ==>
      Fetch(table, scratch, k) == Some(table[k..k + Fitting(table[k..], scratch - ARRAY_HEADER_LEN)])
  {
    hide Decode, Fitting, ParseItems, Page;
    if k < |table| && scratch >= ARRAY_HEADER_LEN {
      PageIsFitting(table, k, scratch);
    }
    PageEdges(table, scratch, k);
    if k == |table| {
      EmptyPage();
      assert ParseItems([]) == Some([]) by { ParsesPage([]); }
    } else if scratch >= ARRAY_HEADER_LEN && Fitting(table[k..], scratch - ARRAY_HEADER_LEN) > 0 {
      PageIsRead(table[k..k + Fitting(table[k..], scratch - ARRAY_HEADER_LEN)]);
      SliceOfDrop(table, k, 0, Fitting(table[k..], scratch - ARRAY_HEADER_LEN));
    }
  }

  lemma PageIsRead(ms: seq<Method>)
    requires Listable(ms) && |ms| < 65536
    ensures var v := Decode(PageBytes(ms), 0);
      v.Some? && ParseList(v.value.value) == Some(ms)
  {
    hide Decode, ParseItems, PageBytes;
    PageDecodes(ms, []);
    ParsesPage(ms);
    assert PageBytes(ms) + [] == PageBytes(ms);
  }

  lemma EmptyPage()
    ensures Decode(ArrayHeader(0), 0) == Some(Decoded(Arr([]), 1))
  {
    var s := ArrayHeader(0);
    assert s == [0x90] && s[1..] == [];
    DecodeDispatch(s, 0);
    assert ReadArrayHeader(s) == Some(Read(0, 1));
    assert DecodeItems([], 0, 1) == Some(Decoded([], 0));
    hide Decode, DecodeItems;
  }

  /** A page of new names extends what was collected by exactly that page. */
  lemma {:induction false} AddsPage(table: seq<Method>, k: nat, n: nat)
    requires Distinct(table) && k + n <= |table|
    ensures AddNew(table[..k], table[k..k + n]) == table[..k + n]
    decreases n
  {
    if n > 0 {
      var page := table[k..k + n];
      assert !HasName(table[..k], page[0].name);
      assert table[..k] + [page[0]] == table[..k + 1];
      assert page[1..] == table[k + 1..k + 1 + (n - 1)];
      AddsPage(table, k + 1, n - 1);
    }
  }

  /**
   The host ends up with the device's whole table, in order, exactly when every entry fits a
   page and no more pages are needed than it is willing to ask for.
   */
  lemma ListIsComplete(table: seq<Method>, scratch: nat)
    requires Listable(table) && Distinct(table) && |table| < 65536
    ensures Collect((s: nat) => Fetch(table, scratch, s), [], MAX_LIST_PAGES) == Some(table) <==>
      (forall i :: 0 <= i < |table| ==> ARRAY_HEADER_LEN + |EncodeMethod(table[i])| <= scratch) &&
      PagesFrom(table, scratch, 0).Some? && PagesFrom(table, scratch, 0).value <= MAX_LIST_PAGES
  {
    hide Fetch, EncodeMethod, Collect;
    ListFetched(table, scratch, (s: nat) => Fetch(table, scratch, s));
  }

  /** The same for any way of fetching that returns the device's pages. */
  lemma ListFetched(table: seq<Method>, scratch: nat, fetch: nat -> Option<seq<Method>>)
    requires Listable(table) && Distinct(table) && |table| < 65536
    requires forall s :: 0 <= s <= |table| ==> fetch(s) == Fetch(table, scratch, s)
    ensures Collect(fetch, [], MAX_LIST_PAGES) == Some(table) <==>
      (forall i :: 0 <= i < |table| ==> ARRAY_HEADER_LEN + |EncodeMethod(table[i])| <= scratch) &&
      PagesFrom(table, scratch, 0).Some? && PagesFrom(table, scratch, 0).value <= MAX_LIST_PAGES
  {
    hide Fetch, EncodeMethod;
    PagesExist(table, scratch, 0);
    assert table[..0] == [];
    CollectsFrom(table, scratch, fetch, 0, MAX_LIST_PAGES);
  }

  lemma {:induction false} CollectsFrom(table: seq<Method>, scratch: nat, fetch: nat -> Option<seq<Method>>,
                                        k: nat, budget: nat)
    requires Listable(table) && Distinct(table) && k <= |table| < 65536
    requires forall s :: 0 <= s <= |table| ==> fetch(s) == Fetch(table, scratch, s)
    ensures Collect(fetch, table[..k], budget) == Some(table) <==>
      PagesFrom(table, scratch, k).Some? && PagesFrom(table, scratch, k).value <= budget
    decreases budget
  {
    hide Fetch, Fitting, AddNew, Listable, Distinct;
    assert k == |table| <==> table[..k] == table;
    if budget > 0 {
      FetchesPage(table, scratch, k);
      if k < |table| && scratch >= ARRAY_HEADER_LEN {
        var n := Fitting(table[k..], scratch - ARRAY_HEADER_LEN);
        if n > 0 {
          AddsPage(table, k, n);
          CollectsFrom(table, scratch, fetch, k + n, budget - 1);
        }
      }
    }
  }
}
