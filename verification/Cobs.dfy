/**
 Consistent Overhead Byte Stuffing as a recursion over groups: what the streaming encoder
 and the in-place decoder of framing.h must compute, and the laws the two satisfy.
 */
module Cobs {
  import opened Bytes

  /** Longest run of data bytes one code byte can announce. */
  const MAX_RUN: nat := 254
  const FULL: byte := 255

  /** Length of the zero-free prefix of `s`, at most `cap`. */
  function Run(s: seq<byte>, cap: nat): (n: nat)
    ensures n <= |s| && n <= cap
    ensures forall i :: 0 <= i < n ==> s[i] != 0
    ensures n < |s| && n < cap ==> s[n] == 0
  {
    if s == [] || cap == 0 || s[0] == 0 then 0 else 1 + Run(s[1..], cap - 1)
  }

  /** The first group: its code byte, then its data. */
  function Group(data: seq<byte>): (g: seq<byte>)
    requires |data| <= MAX_RUN
    ensures |g| == |data| + 1
  {
    [(|data| + 1) as byte] + data
  }

  /**
   A group ends before a zero, at the end of the message, or after 254 bytes; a full
   group that ends the message is not followed by an empty one.
   */
  function Encode(s: seq<byte>): (y: seq<byte>)
    ensures y != []
  {
    var n := Run(s, MAX_RUN);
    if n == |s| then Group(s)
    else if n == MAX_RUN then Group(s[..n]) + Encode(s[n..])
    else Group(s[..n]) + Encode(s[n + 1..])
  }

  // --- what each step of the encoder relies on ---------------------------

  lemma {:induction false} RunOfZeroFree(run: seq<byte>, rest: seq<byte>, cap: nat)
    requires ZeroFree(run) && |run| <= cap
    ensures Run(run + rest, cap) == |run| + Run(rest, cap - |run|)
  {
    if run == [] {
      assert run + rest == rest;
    } else {
      assert (run + rest)[1..] == run[1..] + rest;
      assert forall i :: 0 <= i < |run[1..]| ==> run[1..][i] == run[i + 1];
      RunOfZeroFree(run[1..], rest, cap - 1);
    }
  }

  /** The longest zero-free prefix within `cap`, recognised by how it ends. */
  lemma RunStops(s: seq<byte>, i: nat, cap: nat)
    requires i <= |s| && i <= cap && ZeroFree(s[..i])
    requires i == |s| || i == cap || s[i] == 0
    ensures Run(s, cap) == i
  {
    assert s == s[..i] + s[i..];
    RunOfZeroFree(s[..i], s[i..], cap);
  }

  /** A zero closes the pending run. */
  lemma CloseAtZero(run: seq<byte>, rest: seq<byte>)
    requires ZeroFree(run) && |run| < MAX_RUN
    ensures Encode(run + ([0] + rest)) == Group(run) + Encode(rest)
  {
    var s := run + ([0] + rest);
    assert s[..|run|] == run && s[|run| + 1..] == rest;
    assert Run(s, MAX_RUN) == |run| by {
      hide Encode;
      RunStops(s, |run|, MAX_RUN);
    }
  }

  /** The 254th byte closes it too; nothing follows when the message ends there. */
  lemma CloseWhenFull(run: seq<byte>, rest: seq<byte>)
    requires ZeroFree(run) && |run| == MAX_RUN
    ensures Encode(run + rest) == Group(run) + if rest == [] then [] else Encode(rest)
  {
    var s := run + rest;
    RunOfZeroFree(run, rest, MAX_RUN);
    assert s[..|run|] == run && s[|run|..] == rest;
    if rest == [] {
      assert s == run;
    }
  }

  lemma CloseAtEnd(run: seq<byte>)
    requires ZeroFree(run) && |run| <= MAX_RUN
    ensures Encode(run) == Group(run)
  {
    RunOfZeroFree(run, [], MAX_RUN);
    assert run + [] == run;
  }

  // --- shape of the output -----------------------------------------------

  /** The delimiter never occurs in the output. */
  lemma {:induction false} EncodeZeroFree(s: seq<byte>)
    ensures ZeroFree(Encode(s))
  {
    var n := Run(s, MAX_RUN);
    assert ZeroFree(Group(s[..n]));
    if n < |s| {
      EncodeZeroFree(if n == MAX_RUN then s[n..] else s[n + 1..]);
    } else {
      assert s[..n] == s;
    }
  }

  /** One overhead byte, plus at most one for every 254 bytes of input. */
  lemma {:induction false} EncodeLength(s: seq<byte>)
    ensures |s| + 1 <= |Encode(s)| <= |s| + |s| / 254 + 1
  {
    var n := Run(s, MAX_RUN);
    if n < |s| {
      EncodeLength(if n == MAX_RUN then s[n..] else s[n + 1..]);
    }
  }

  // --- decoding ----------------------------------------------------------

  /** Bytes written before the decoder stopped, and whether it accepted the block. */
  datatype Block = Block(written: seq<byte>, ok: bool)

  function Prepend(data: seq<byte>, b: Block): Block {
    Block(data + b.written, b.ok)
  }

  function Code(y: seq<byte>): nat
    requires y != []
  {
    y[0] as int
  }

  /** A first group of `y` exists: its code is not zero and does not point past the end. */
  predicate HasGroup(y: seq<byte>) {
    y != [] && 0 < Code(y) <= |y|
  }

  function Data(y: seq<byte>): seq<byte>
    requires HasGroup(y)
  {
    y[1..Code(y)]
  }

  function Rest(y: seq<byte>): seq<byte>
    requires HasGroup(y)
  {
    y[Code(y)..]
  }

  /** The zero that ended a group, unless the group is full or the last one. */
  function Gap(full: bool, last: bool): seq<byte> {
    if full || last then [] else [0]
  }

  function Decode(y: seq<byte>): Block {
    if y == [] then Block([], true)
    else if !HasGroup(y) then Block([], false)
    else if !ZeroFree(Data(y)) then Block(Data(y)[..Run(Data(y), |y|)], false)
    else Prepend(Data(y) + Gap(y[0] == FULL, Rest(y) == []), Decode(Rest(y)))
  }

  /** The outcome of writing into `cap` bytes: the block is cut there and refused. */
  function Clip(b: Block, cap: nat): Block {
    if |b.written| <= cap then b else Block(b.written[..cap], false)
  }

  /** Decoding never grows a block, and shrinks a non-empty one it accepts. */
  lemma {:induction false} DecodeShrinks(y: seq<byte>)
    ensures |Decode(y).written| <= |y|
    ensures y != [] && Decode(y).ok ==> |Decode(y).written| < |y|
  {
    if HasGroup(y) && ZeroFree(Data(y)) {
      DecodeShrinks(Rest(y));
    }
  }

  lemma GroupParts(data: seq<byte>, rest: seq<byte>)
    requires |data| <= MAX_RUN
    ensures var y := Group(data) + rest;
      HasGroup(y) && Data(y) == data && Rest(y) == rest && (y[0] == FULL <==> |data| == MAX_RUN)
  {}

  lemma PartsOfGroup(y: seq<byte>)
    requires HasGroup(y)
    ensures |Data(y)| <= MAX_RUN && y == Group(Data(y)) + Rest(y)
    ensures |Data(y)| == MAX_RUN <==> y[0] == FULL
  {}

  lemma DecodeGroup(data: seq<byte>, rest: seq<byte>)
    requires ZeroFree(data) && |data| <= MAX_RUN
    ensures Decode(Group(data) + rest) == Prepend(data + Gap(|data| == MAX_RUN, rest == []), Decode(rest))
  {
    GroupParts(data, rest);
  }

  /** The message is its first run, the zero that ended it if one did, and what follows. */
  lemma FirstGroup(s: seq<byte>) returns (data: seq<byte>, zero: seq<byte>, rest: seq<byte>)
    ensures ZeroFree(data) && |data| <= MAX_RUN
    ensures s == data + zero + rest
    ensures zero == [] && rest == [] ==> Encode(s) == Group(data)
    ensures zero != [] || rest != [] ==>
      Encode(s) == Group(data) + Encode(rest) && |rest| < |s| && zero == Gap(|data| == MAX_RUN, false)
  {
    var n := Run(s, MAX_RUN);
    data := s[..n];
    if n == |s| {
      zero, rest := [], [];
    } else if n == MAX_RUN {
      zero, rest := [], s[n..];
    } else {
      zero, rest := [0], s[n + 1..];
    }
  }

  lemma PrependBlock(data: seq<byte>, zero: seq<byte>, rest: seq<byte>)
    ensures Prepend(data + zero, Block(rest, true)) == Block(data + zero + rest, true)
  {}

  /** The decoder inverts the encoder. */
  lemma {:induction false} DecodeEncode(s: seq<byte>)
    ensures Decode(Encode(s)) == Block(s, true)
    decreases |s|
  {
    var data, zero, rest := FirstGroup(s);
    if zero == [] && rest == [] {
      DecodeGroup(data, []);
      assert Group(data) + [] == Group(data);
      PrependBlock(data, [], []);
      hide Encode, Group;
      assert s == data;
    } else {
      hide Decode, Encode, Prepend, Group, Run;
      DecodeEncode(rest);
      DecodeGroup(data, Encode(rest));
      PrependBlock(data, zero, rest);
    }
  }

  /** Everything but the empty group that ends the encoding of a message ending in a zero. */
  function Groups(m: seq<byte>): seq<byte> {
    Encode(m)[..|Encode(m)| - 1]
  }

  /** Groups that have been completed are written before the decoder meets a broken one. */
  lemma {:induction false} DecodeBroken(m: seq<byte>, broken: seq<byte>)
    requires (m != [] ==> m[|m| - 1] == 0) && broken != [] && broken[0] as int > |broken|
    ensures Encode(m) == Groups(m) + [1]
    ensures Decode(Groups(m) + broken) == Block(m, false)
    decreases |m|
  {
    hide Decode, Encode, Group, Run;
    if m == [] {
      NothingBroken(broken);
      assert [] + broken == broken;
    } else {
      var data, zero, rest := FirstGroup(m);
      if rest != [] {
        assert rest[|rest| - 1] == m[|m| - 1];
      }
      DecodeBroken(rest, broken);
      assert Encode(m) == Group(data) + Groups(rest) + [1];
      assert Groups(m) + broken == Group(data) + (Groups(rest) + broken);
      DecodeGroup(data, Groups(rest) + broken);
      assert data + zero + rest == m;
    }
  }

  lemma NothingBroken(broken: seq<byte>)
    requires broken != [] && broken[0] as int > |broken|
    ensures Encode([]) == [1] && Decode(broken) == Block([], false)
  {}

  /** No zero is ever accepted. */
  lemma {:induction false} AcceptsZeroFree(y: seq<byte>)
    requires Decode(y).ok
    ensures ZeroFree(y)
    decreases |y|
  {
    if y != [] {
      AcceptsZeroFree(Rest(y));
      assert y == [y[0]] + Data(y) + Rest(y);
    }
  }

  /** No two messages share an encoding. */
  lemma EncodeInjective(s: seq<byte>, t: seq<byte>)
    requires Encode(s) == Encode(t)
    ensures s == t
  {
    hide Encode, Decode;
    DecodeEncode(s);
    DecodeEncode(t);
  }

  // --- one step of the decoding loop -------------------------------------

  /** The group that starts at index `from` of the input. */
  lemma GroupAt(input: seq<byte>, from: nat)
    requires from < |input|
    ensures var y, code := input[from..], input[from] as int;
      y != [] && y[0] == input[from] && (HasGroup(y) <==> 0 < code <= |input| - from) &&
      (HasGroup(y) ==> Data(y) == input[from + 1..from + code] && Rest(y) == input[from + code..])
  {
    var y, code := input[from..], input[from] as int;
    if 0 < code <= |y| {
      SliceOfDrop(input, from, 1, code);
    }
  }

  lemma PrependNothing(b: Block)
    ensures Prepend([], b) == b
  {
    assert [] + b.written == b.written;
  }

  lemma PrependEmpty(data: seq<byte>)
    ensures Prepend(data, Decode([])) == Block(data, true)
  {
    assert data + [] == data;
  }

  lemma PrependStopped(data: seq<byte>, y: seq<byte>, cap: nat)
    requires y != [] && !HasGroup(y) && |data| <= cap
    ensures Clip(Prepend(data, Decode(y)), cap) == Block(data, false)
  {
    assert data + [] == data;
  }

  lemma PrependAtZero(before: seq<byte>, y: seq<byte>, n: nat)
    requires HasGroup(y) && n < |Data(y)| && ZeroFree(Data(y)[..n]) && Data(y)[n] == 0
    ensures Prepend(before, Decode(y)) == Block(before + Data(y)[..n], false)
  {
    RunStops(Data(y), n, |y|);
  }

  lemma PrependGroup(before: seq<byte>, y: seq<byte>)
    requires HasGroup(y) && ZeroFree(Data(y))
    ensures Prepend(before, Decode(y)) ==
      Prepend(before + Data(y) + Gap(y[0] == FULL, Rest(y) == []), Decode(Rest(y)))
  {
    var gap, t := Gap(y[0] == FULL, Rest(y) == []), Decode(Rest(y)).written;
    assert before + (Data(y) + gap + t) == before + Data(y) + gap + t;
  }

  lemma PrependLonger(data: seq<byte>, gap: seq<byte>, b: Block)
    ensures data + gap <= Prepend(data + gap, b).written
    ensures data <= Prepend(data + gap, b).written
  {}

  /** When only part of a group has been written, the rest of it is still to come. */
  lemma WritesMore(before: seq<byte>, y: seq<byte>, n: nat)
    requires HasGroup(y) && n < |Data(y)| && ZeroFree(Data(y)[..n + 1])
    ensures before + Data(y)[..n] <= Prepend(before, Decode(y)).written
    ensures |before| + n < |Prepend(before, Decode(y)).written|
  {
    var w := Decode(y).written;
    if ZeroFree(Data(y)) {
      assert w[..n] == Data(y)[..n];
    } else {
      assert w == Data(y)[..Run(Data(y), |y|)];
    }
  }

  /** Copying stopped inside a group, at a zero or because `cap` bytes were written. */
  lemma ClipInside(before: seq<byte>, y: seq<byte>, n: nat, cap: nat)
    requires HasGroup(y) && n < |Data(y)| && ZeroFree(Data(y)[..n])
    requires |before| + n <= cap && (Data(y)[n] == 0 || |before| + n == cap)
    ensures Clip(Prepend(before, Decode(y)), cap) == Block(before + Data(y)[..n], false)
  {
    hide Decode, Prepend, HasGroup, Data;
    var data := Data(y);
    if data[n] == 0 {
      PrependAtZero(before, y, n);
    } else {
      assert data[..n + 1] == data[..n] + [data[n]];
      WritesMore(before, y, n);
    }
  }

  // --- canonical form ----------------------------------------------------

  /** The last two groups of `y` are a full one and a lone 01. */
  predicate EndsInElidable(y: seq<byte>) {
    HasGroup(y) && Rest(y) != [] &&
    ((y[0] == FULL && Rest(y) == [1]) || EndsInElidable(Rest(y)))
  }

  /** Re-encoding an accepted block gives it back unless it is empty or carries an elidable group. */
  lemma {:induction false} Canonical(y: seq<byte>)
    requires Decode(y).ok
    ensures Encode(Decode(y).written) == y <==> y != [] && !EndsInElidable(y)
  {
    if y != [] {
      var data, rest := Data(y), Rest(y);
      PartsOfGroup(y);
      DecodeGroup(data, rest);
      var t := Decode(rest).written;
      assert Decode(y).written == data + Gap(y[0] == FULL, rest == []) + t;
      assert rest == [1] ==> t == [];
      assert rest != [] && t == [] && Decode(rest).ok ==> rest == [1] by {
        if rest != [] && t == [] && Decode(rest).ok {
          PartsOfGroup(rest);
        }
      }
      Canonical(rest);
      CanonicalStep(y, data, rest, t);
    }
  }

  lemma CanonicalStep(y: seq<byte>, data: seq<byte>, rest: seq<byte>, t: seq<byte>)
    requires HasGroup(y) && data == Data(y) && rest == Rest(y) && ZeroFree(data)
    requires rest == [] ==> t == []
    requires rest != [] ==> (Encode(t) == rest <==> !EndsInElidable(rest)) && (t == [] <==> rest == [1])
    ensures Encode(data + Gap(y[0] == FULL, rest == []) + t) == y <==> !EndsInElidable(y)
  {
    hide Encode;
    PartsOfGroup(y);
    if rest == [] {
      CloseAtEnd(data);
      assert data + [] + [] == data && Group(data) + [] == Group(data);
    } else if y[0] == FULL {
      assert data + [] + t == data + t;
      CloseWhenFull(data, t);
      SameTail(Group(data), if t == [] then [] else Encode(t), rest);
    } else {
      assert data + [0] + t == data + ([0] + t);
      CloseAtZero(data, t);
      SameTail(Group(data), Encode(t), rest);
    }
  }

  lemma SameTail(head: seq<byte>, a: seq<byte>, b: seq<byte>)
    ensures head + a == head + b <==> a == b
  {
    assert (head + a)[|head|..] == a && (head + b)[|head|..] == b;
  }

  // --- changing a data byte ----------------------------------------------

  /** Position `i` of a block holds data, not a code. */
  predicate IsData(y: seq<byte>, i: nat): (r: bool)
    ensures r ==> 0 < i < |y|
  {
    HasGroup(y) && 0 < i < |y| && (i < Code(y) || IsData(Rest(y), i - Code(y)))
  }

  /** What a group that is not the last decodes to. */
  function WithGap(data: seq<byte>): seq<byte> {
    data + Gap(|data| == MAX_RUN, false)
  }

  /** Where the data byte at `i` lands in the decoded message. */
  function DataIndex(y: seq<byte>, i: nat): nat
    requires IsData(y, i)
  {
    if i < Code(y) then i - 1
    else |WithGap(Data(y))| + DataIndex(Rest(y), i - Code(y))
  }

  /** Changing a data byte to another non-zero value changes that one decoded byte and nothing else. */
  lemma {:induction false} SubstituteData(y: seq<byte>, i: nat, b: byte)
    requires Decode(y).ok && IsData(y, i) && b != 0
    ensures DataIndex(y, i) < |Decode(y).written|
    ensures Decode(y).written[DataIndex(y, i)] == y[i]
    ensures Decode(y[i := b]) == Block(Decode(y).written[DataIndex(y, i) := b], true)
    decreases |y|
  {
    var data, rest := Data(y), Rest(y);
    PartsOfGroup(y);
    AcceptedGroup(data, rest, y);
    IndexParts(y, i);
    hide *;
    if i < Code(y) {
      SubstituteHere(y, data, rest, i - 1, b);
    } else {
      var j := i - |Group(data)|;
      SubstituteData(rest, j, b);
      SubstituteLater(y, data, rest, j, DataIndex(rest, j), i, DataIndex(y, i), b);
    }
  }

  lemma IndexParts(y: seq<byte>, i: nat)
    requires IsData(y, i)
    ensures |Group(Data(y))| == |Data(y)| + 1 == Code(y) && |Rest(y)| < |y|
    ensures i < Code(y) ==> DataIndex(y, i) == i - 1
    ensures i >= Code(y) ==> IsData(Rest(y), i - Code(y)) && Rest(y) != []
    ensures i >= Code(y) ==>
      DataIndex(y, i) == |WithGap(Data(y))| + DataIndex(Rest(y), i - Code(y))
  {
    PartsOfGroup(y);
  }

  lemma AcceptedGroup(data: seq<byte>, rest: seq<byte>, y: seq<byte>)
    requires HasGroup(y) && data == Data(y) && rest == Rest(y) && Decode(y).ok
    ensures ZeroFree(data) && Decode(rest).ok
  {}

  lemma SubstituteHere(y: seq<byte>, data: seq<byte>, rest: seq<byte>, m: nat, b: byte)
    requires ZeroFree(data) && m < |data| <= MAX_RUN && b != 0
    requires y == Group(data) + rest && Decode(rest).ok
    ensures m < |Decode(y).written| && Decode(y).written[m] == y[m + 1]
    ensures Decode(y[m + 1 := b]) == Block(Decode(y).written[m := b], true)
  {
    var data' := data[m := b];
    assert y[m + 1 := b] == Group(data') + rest;
    DecodeGroup(data, rest);
    DecodeGroup(data', rest);
    hide Decode;
    UpdateHead(data, Gap(|data| == MAX_RUN, rest == []), Decode(rest).written, m, b);
  }

  lemma UpdateHead(data: seq<byte>, gap: seq<byte>, rest: seq<byte>, m: nat, b: byte)
    requires m < |data|
    ensures (data + gap + rest)[m] == data[m]
    ensures (data + gap + rest)[m := b] == data[m := b] + gap + rest
  {}

  lemma SubstituteLater(y: seq<byte>, data: seq<byte>, rest: seq<byte>, j: nat, k: nat, i: nat, n: nat, b: byte)
    requires ZeroFree(data) && |data| <= MAX_RUN && rest != []
    requires y == Group(data) + rest && i == |Group(data)| + j && n == |WithGap(data)| + k
    requires Decode(rest).ok && j < |rest| && k < |Decode(rest).written| && Decode(rest).written[k] == rest[j]
    requires Decode(rest[j := b]) == Block(Decode(rest).written[k := b], true)
    ensures n < |Decode(y).written| && Decode(y).written[n] == y[i]
    ensures Decode(y[i := b]) == Block(Decode(y).written[n := b], true)
  {
    hide Decode, Group, Gap;
    DecodeGroup(data, rest);
    DecodeGroup(data, rest[j := b]);
    UpdateTail(Group(data), rest, j, b);
    UpdateTail(WithGap(data), Decode(rest).written, k, b);
    WithGapIs(data, rest);
    WithGapIs(data, rest[j := b]);
  }

  lemma WithGapIs(data: seq<byte>, rest: seq<byte>)
    requires rest != []
    ensures WithGap(data) == data + Gap(|data| == MAX_RUN, rest == [])
  {}

  lemma UpdateTail(head: seq<byte>, rest: seq<byte>, j: nat, b: byte)
    requires j < |rest|
    ensures (head + rest)[|head| + j] == rest[j]
    ensures (head + rest)[|head| + j := b] == head + rest[j := b]
  {}
}
