/**
 The MessagePack formats msgpack_lite.h writes and reads, as functions on byte sequences:
 what each encoding is, what each read accepts, and how long any object is.
 */
module MsgPack {
  import opened Bytes

  // --- big-endian numbers ------------------------------------------------

  function Pow256(k: nat): (p: nat)
    ensures p >= 1
  {
    if k == 0 then 1 else 256 * Pow256(k - 1)
  }

  /** The low `k` bytes of `v`, most significant first. */
  function Be(v: nat, k: nat): (s: seq<byte>)
    ensures |s| == k
  {
    if k == 0 then [] else Be(v / 256, k - 1) + [(v % 256) as byte]
  }

  function FromBe(s: seq<byte>): nat {
    if s == [] then 0 else FromBe(s[..|s| - 1]) * 256 + s[|s| - 1] as int
  }

  lemma {:induction false} FromBeBe(v: nat, k: nat)
    requires v < Pow256(k)
    ensures FromBe(Be(v, k)) == v
  {
    if k > 0 {
      FromBeBe(v / 256, k - 1);
      assert Be(v, k)[..k - 1] == Be(v / 256, k - 1);
    }
  }

  /** The most significant byte comes first. */
  lemma {:induction false} BigEndian(v: nat, k: nat, i: nat)
    requires i < k
    ensures Be(v, k)[i] as int == v / Pow256(k - 1 - i) % 256
  {
    if i < k - 1 {
      BigEndian(v / 256, k - 1, i);
      Divided(v, Pow256(k - 2 - i));
    }
  }

  lemma Divided(v: nat, p: nat)
    requires p > 0
    ensures v / 256 / p == v / (256 * p)
  {
    var q := v / 256 / p;
    var a, b := v / 256 % p, v % 256;
    assert v == (q * p + a) * 256 + b;
    assert v == q * (256 * p) + (256 * a + b) by { assert (q * p) * 256 == q * (256 * p); }
    assert 256 * a + b < 256 * p;
    QuotientIs(v, 256 * p, q, 256 * a + b);
  }

  lemma QuotientIs(v: nat, d: nat, q: nat, r: nat)
    requires d > 0 && v == q * d + r && r < d
    ensures v / d == q
  {
    var e := v / d;
    assert (e - q) * d == r - v % d;
    AtLeastOnce(e - q, d);
  }

  lemma AtLeastOnce(x: int, d: nat)
    ensures x >= 1 ==> x * d >= d
    ensures x <= -1 ==> x * d <= -(d as int)
  {}

  lemma {:induction false} FromBeConcat(a: seq<byte>, b: seq<byte>)
    ensures FromBe(a + b) == FromBe(a) * Pow256(|b|) + FromBe(b)
  {
    if b == [] {
      assert a + b == a;
    } else {
      var k := |b| - 1;
      assert (a + b)[..|a| + k] == a + b[..k];
      FromBeConcat(a, b[..k]);
      Regroup(FromBe(a), Pow256(k), FromBe(b[..k]), b[k] as int);
    }
  }

  lemma Regroup(x: nat, p: nat, y: nat, d: nat)
    ensures (x * p + y) * 256 + d == x * (256 * p) + (y * 256 + d)
  {}

  lemma {:induction false} FromBeBound(s: seq<byte>)
    ensures FromBe(s) < Pow256(|s|)
  {
    if s != [] {
      FromBeBound(s[..|s| - 1]);
    }
  }

  lemma Powers()
    ensures Pow256(1) == 0x100 && Pow256(2) == 0x1_0000 && Pow256(4) == 0x1_0000_0000
    ensures Pow256(8) == 0x1_0000_0000_0000_0000
  {
    assert Pow256(2) == 0x1_0000;
    assert Pow256(4) == 256 * Pow256(3) == 256 * (256 * Pow256(2));
    assert Pow256(6) == 256 * Pow256(5) == 256 * (256 * Pow256(4));
    assert Pow256(8) == 256 * Pow256(7) == 256 * (256 * Pow256(6));
  }

  /** The shifts of the source, two and four bytes at a time. */
  lemma Be2(v: nat)
    ensures Be(v, 2) == [(v / 0x100 % 0x100) as byte, (v % 0x100) as byte]
  {
    assert Be(v / 0x100, 1) == Be(v / 0x100 / 0x100, 0) + [(v / 0x100 % 0x100) as byte];
  }

  lemma Be4(v: nat)
    ensures Be(v, 4) == Be(v / 0x1_0000, 2) + Be(v, 2)
  {
    BeLowPair(v, 2);
  }

  lemma Be8(v: nat)
    ensures Be(v, 8) == Be(v / 0x1_0000_0000, 4) + Be(v % 0x1_0000_0000, 4)
  {
    hide Be, Pow256;
    var h, q, r := v / 0x1_0000, v / 0x1_0000_0000, v % 0x1_0000_0000;
    BeLowPair(v, 6);
    BeLowPair(h, 4);
    BeLowPair(v, 2);
    assert h / 0x1_0000 == q && v == r + q * 0x1_0000_0000;
    Powers();
    BeIgnoresHigh(r, q, 4);
    assert Be(q, 4) + Be(h, 2) + Be(v, 2) == Be(q, 4) + (Be(h, 2) + Be(v, 2));
  }

  lemma {:induction false} BeIgnoresHigh(v: nat, q: nat, k: nat)
    ensures Be(v + q * Pow256(k), k) == Be(v, k)
  {
    if k > 0 {
      var m := q * Pow256(k - 1);
      assert q * Pow256(k) == 256 * m;
      assert (v + 256 * m) / 256 == v / 256 + m && (v + 256 * m) % 256 == v % 256;
      BeIgnoresHigh(v / 256, q, k - 1);
    }
  }

  lemma BeLowPair(v: nat, k: nat)
    ensures Be(v, k + 2) == Be(v / 0x1_0000, k) + Be(v, 2)
  {
    Be2(v);
    assert Be(v, k + 2) == Be(v / 0x100, k + 1) + [(v % 0x100) as byte];
    assert Be(v / 0x100, k + 1) == Be(v / 0x100 / 0x100, k) + [(v / 0x100 % 0x100) as byte];
    assert v / 0x100 / 0x100 == v / 0x1_0000;
  }

  const U8: nat := 0xff
  const U16: nat := 0xffff
  const U32: nat := 0xffff_ffff
  const U64: nat := 0xffff_ffff_ffff_ffff
  const I64_MIN: int := -0x8000_0000_0000_0000

  // --- encodings ---------------------------------------------------------

  function Tagged(tag: byte, v: nat, k: nat): seq<byte> {
    [tag] + Be(v, k)
  }

  /** The unsigned ladder. */
  function EncodeUint(v: nat): seq<byte>
    requires v <= U64
  {
    if v <= 0x7f then [v as byte]
    else if v <= U8 then Tagged(0xcc, v, 1)
    else if v <= U16 then Tagged(0xcd, v, 2)
    else if v <= U32 then Tagged(0xce, v, 4)
    else Tagged(0xcf, v, 8)
  }

  predicate IsInteger(v: int) {
    I64_MIN <= v <= U64
  }

  /** The signed ladder; non-negative values take the unsigned one. */
  function EncodeInt(v: int): seq<byte>
    requires IsInteger(v)
  {
    if v >= 0 then EncodeUint(v)
    else if v >= -32 then [(v + 0x100) as byte]
    else if v >= -0x80 then Tagged(0xd0, v + 0x100, 1)
    else if v >= -0x8000 then Tagged(0xd1, v + 0x1_0000, 2)
    else if v >= -0x8000_0000 then Tagged(0xd2, v + 0x1_0000_0000, 4)
    else Tagged(0xd3, v + 0x1_0000_0000_0000_0000, 8)
  }

  function EncodeBool(v: bool): seq<byte> {
    if v then [0xc3] else [0xc2]
  }

  const NIL: seq<byte> := [0xc0]

  function StrHeader(n: nat): seq<byte> {
    if n < 32 then [(0xa0 + n) as byte]
    else if n < 256 then Tagged(0xd9, n, 1)
    else if n < 65536 then Tagged(0xda, n, 2)
    else Tagged(0xdb, n, 4)
  }

  function BinHeader(n: nat): seq<byte> {
    if n < 256 then Tagged(0xc4, n, 1)
    else if n < 65536 then Tagged(0xc5, n, 2)
    else Tagged(0xc6, n, 4)
  }

  function ArrayHeader(n: nat): seq<byte> {
    if n < 16 then [(0x90 + n) as byte]
    else if n < 65536 then Tagged(0xdc, n, 2)
    else Tagged(0xdd, n, 4)
  }

  function MapHeader(n: nat): seq<byte> {
    if n < 16 then [(0x80 + n) as byte]
    else if n < 65536 then Tagged(0xde, n, 2)
    else Tagged(0xdf, n, 4)
  }

  function EncodeStr(s: seq<byte>): seq<byte> {
    StrHeader(|s|) + s
  }

  function EncodeBin(s: seq<byte>): seq<byte> {
    BinHeader(|s|) + s
  }

  function EncodeFloat64(bits: nat): seq<byte> {
    Tagged(0xcb, bits, 8)
  }

  // --- reads -------------------------------------------------------------

  /** A number and the bytes it took. */
  datatype Read = Read(value: int, size: nat)

  /** The `k`-byte big-endian number after the format byte. */
  function After(s: seq<byte>, k: nat): (r: Option<Read>)
    ensures r.Some? ==> r.value.size == k + 1 <= |s| && r.value.value >= 0
  {
    if |s| < k + 1 then None else Some(Read(FromBe(s[1..k + 1]), k + 1))
  }

  function Signed(r: Option<Read>, modulus: nat): Option<Read> {
    if r.Some? && r.value.value >= modulus / 2 then Some(r.value.(value := r.value.value - modulus)) else r
  }

  /** Any integer format, as the number it stands for. */
  function ReadInt(s: seq<byte>): (r: Option<Read>)
    ensures r.Some? ==> 1 <= r.value.size <= |s|
  {
    if s == [] then None
    else
      var b := s[0];
      if b <= 0x7f then Some(Read(b as int, 1))
      else if b >= 0xe0 then Some(Read(b as int - 0x100, 1))
      else if b == 0xcc then After(s, 1)
      else if b == 0xcd then After(s, 2)
      else if b == 0xce then After(s, 4)
      else if b == 0xcf then After(s, 8)
      else if b == 0xd0 then Signed(After(s, 1), 0x100)
      else if b == 0xd1 then Signed(After(s, 2), 0x1_0000)
      else if b == 0xd2 then Signed(After(s, 4), 0x1_0000_0000)
      else if b == 0xd3 then Signed(After(s, 8), 0x1_0000_0000_0000_0000)
      else None
  }

  /** Reading into a type with the given limits. */
  function ReadIn(s: seq<byte>, min: int, max: int): (r: Option<Read>)
    ensures r.Some? ==> 1 <= r.value.size <= |s|
  {
    var r := ReadInt(s);
    if r.Some? && min <= r.value.value <= max then r else None
  }

  function ReadStrHeader(s: seq<byte>): (r: Option<Read>)
    ensures r.Some? ==> 1 <= r.value.size <= |s| && r.value.value >= 0
  {
    if s == [] then None
    else if 0xa0 <= s[0] <= 0xbf then Some(Read(s[0] as int - 0xa0, 1))
    else if s[0] == 0xd9 then After(s, 1)
    else if s[0] == 0xda then After(s, 2)
    else if s[0] == 0xdb then After(s, 4)
    else None
  }

  function ReadBinHeader(s: seq<byte>): (r: Option<Read>)
    ensures r.Some? ==> 1 <= r.value.size <= |s| && r.value.value >= 0
  {
    if s == [] then None
    else if s[0] == 0xc4 then After(s, 1)
    else if s[0] == 0xc5 then After(s, 2)
    else if s[0] == 0xc6 then After(s, 4)
    else None
  }

  function ReadArrayHeader(s: seq<byte>): (r: Option<Read>)
    ensures r.Some? ==> 1 <= r.value.size <= |s| && r.value.value >= 0
  {
    if s == [] then None
    else if 0x90 <= s[0] <= 0x9f then Some(Read(s[0] as int - 0x90, 1))
    else if s[0] == 0xdc then After(s, 2)
    else if s[0] == 0xdd then After(s, 4)
    else None
  }

  function ReadMapHeader(s: seq<byte>): (r: Option<Read>)
    ensures r.Some? ==> 1 <= r.value.size <= |s| && r.value.value >= 0
  {
    if s == [] then None
    else if 0x80 <= s[0] <= 0x8f then Some(Read(s[0] as int - 0x80, 1))
    else if s[0] == 0xde then After(s, 2)
    else if s[0] == 0xdf then After(s, 4)
    else None
  }

  /** A byte string: what follows its header, when all of it is there. */
  datatype Chunk = Chunk(bytes: seq<byte>, size: nat)

  function Contents(s: seq<byte>, header: Option<Read>): (c: Option<Chunk>)
    requires header.Some? ==> header.value.size <= |s| && header.value.value >= 0
    ensures c.Some? ==> c.value.size <= |s| && header.Some? && header.value.size <= c.value.size
  {
    if header.None? || |s| - header.value.size < header.value.value then None
    else
      var n := header.value.size;
      Some(Chunk(s[n..n + header.value.value], n + header.value.value))
  }

  function ReadStr(s: seq<byte>): (c: Option<Chunk>)
    ensures c.Some? ==> 1 <= c.value.size <= |s|
  {
    Contents(s, ReadStrHeader(s))
  }

  function ReadBin(s: seq<byte>): (c: Option<Chunk>)
    ensures c.Some? ==> 1 <= c.value.size <= |s|
  {
    Contents(s, ReadBinHeader(s))
  }

  // --- reads invert writes -----------------------------------------------

  lemma AfterTagged(tag: byte, v: nat, k: nat, rest: seq<byte>)
    requires v < Pow256(k)
    ensures After(Tagged(tag, v, k) + rest, k) == Some(Read(v, k + 1))
  {
    FromBeBe(v, k);
    assert (Tagged(tag, v, k) + rest)[1..k + 1] == Be(v, k);
  }

  /** Every integer is read back, whatever follows it. */
  lemma ReadsInt(v: int, rest: seq<byte>)
    requires IsInteger(v)
    ensures ReadInt(EncodeInt(v) + rest) == Some(Read(v, |EncodeInt(v)|))
  {
    hide After;
    Powers();
    if v >= 0 {
      ReadsUint(v, rest);
    } else if -0x80 <= v < -32 {
      AfterTagged(0xd0, v + 0x100, 1, rest);
    } else if -0x8000 <= v < -0x80 {
      AfterTagged(0xd1, v + 0x1_0000, 2, rest);
    } else if -0x8000_0000 <= v < -0x8000 {
      AfterTagged(0xd2, v + 0x1_0000_0000, 4, rest);
    } else if v < -0x8000_0000 {
      AfterTagged(0xd3, v + 0x1_0000_0000_0000_0000, 8, rest);
    }
  }

  lemma ReadsUint(v: nat, rest: seq<byte>)
    requires v <= U64
    ensures ReadInt(EncodeUint(v) + rest) == Some(Read(v, |EncodeUint(v)|))
  {
    hide After, Signed;
    Powers();
    if 0x7f < v <= U8 {
      AfterTagged(0xcc, v, 1, rest);
    } else if U8 < v <= U16 {
      AfterTagged(0xcd, v, 2, rest);
    } else if U16 < v <= U32 {
      AfterTagged(0xce, v, 4, rest);
    } else if U32 < v {
      AfterTagged(0xcf, v, 8, rest);
    }
  }

  /** No integer format holds a value in fewer bytes than the one written. */
  lemma ShortestInt(s: seq<byte>)
    ensures var r := ReadInt(s);
      r.Some? ==> IsInteger(r.value.value) && |EncodeInt(r.value.value)| <= r.value.size
  {
    Powers();
    if s != [] && 0xcc <= s[0] <= 0xd3 {
      var k := if s[0] == 0xcc || s[0] == 0xd0 then 1 else if s[0] == 0xcd || s[0] == 0xd1 then 2
        else if s[0] == 0xce || s[0] == 0xd2 then 4 else 8;
      if |s| > k {
        FromBeBound(s[1..k + 1]);
      }
    }
  }

  /** Nor does any header of a string, blob, array or map that a read accepts. */
  lemma ShortestHeaders(s: seq<byte>)
    ensures var r := ReadStrHeader(s);
      r.Some? ==> r.value.value <= U32 && |StrHeader(r.value.value)| <= r.value.size
    ensures var r := ReadBinHeader(s);
      r.Some? ==> r.value.value <= U32 && |BinHeader(r.value.value)| <= r.value.size
    ensures var r := ReadArrayHeader(s);
      r.Some? ==> r.value.value <= U32 && |ArrayHeader(r.value.value)| <= r.value.size
    ensures var r := ReadMapHeader(s);
      r.Some? ==> r.value.value <= U32 && |MapHeader(r.value.value)| <= r.value.size
  {
    Powers();
    hide FromBe, Be;
    if |s| >= 2 {
      FromBeBound(s[1..2]);
    }
    if |s| >= 3 {
      FromBeBound(s[1..3]);
    }
    if |s| >= 5 {
      FromBeBound(s[1..5]);
    }
  }

  lemma ReadsStrHeader(n: nat, rest: seq<byte>)
    requires n <= U32
    ensures ReadStrHeader(StrHeader(n) + rest) == Some(Read(n, |StrHeader(n)|))
  {
    hide After;
    Powers();
    if n < 32 {
    } else if n < 256 {
      AfterTagged(0xd9, n, 1, rest);
    } else if n < 65536 {
      AfterTagged(0xda, n, 2, rest);
    } else {
      AfterTagged(0xdb, n, 4, rest);
    }
  }

  lemma ReadsBinHeader(n: nat, rest: seq<byte>)
    requires n <= U32
    ensures ReadBinHeader(BinHeader(n) + rest) == Some(Read(n, |BinHeader(n)|))
  {
    hide After;
    Powers();
    if n < 256 {
      AfterTagged(0xc4, n, 1, rest);
    } else if n < 65536 {
      AfterTagged(0xc5, n, 2, rest);
    } else {
      AfterTagged(0xc6, n, 4, rest);
    }
  }

  lemma ReadsArrayHeader(n: nat, rest: seq<byte>)
    requires n <= U32
    ensures ReadArrayHeader(ArrayHeader(n) + rest) == Some(Read(n, |ArrayHeader(n)|))
  {
    hide After;
    Powers();
    if n < 16 {
    } else if n < 65536 {
      AfterTagged(0xdc, n, 2, rest);
    } else {
      AfterTagged(0xdd, n, 4, rest);
    }
  }

  lemma ReadsMapHeader(n: nat, rest: seq<byte>)
    requires n <= U32
    ensures ReadMapHeader(MapHeader(n) + rest) == Some(Read(n, |MapHeader(n)|))
  {
    hide After;
    Powers();
    if n < 16 {
    } else if n < 65536 {
      AfterTagged(0xde, n, 2, rest);
    } else {
      AfterTagged(0xdf, n, 4, rest);
    }
  }

  lemma ReadsStr(s: seq<byte>, rest: seq<byte>)
    requires |s| <= U32
    ensures ReadStr(EncodeStr(s) + rest) == Some(Chunk(s, |EncodeStr(s)|))
  {
    hide StrHeader, ReadStrHeader;
    ReadsStrHeader(|s|, s + rest);
    assert EncodeStr(s) + rest == StrHeader(|s|) + (s + rest);
  }

  lemma ReadsBin(s: seq<byte>, rest: seq<byte>)
    requires |s| <= U32
    ensures ReadBin(EncodeBin(s) + rest) == Some(Chunk(s, |EncodeBin(s)|))
  {
    hide BinHeader, ReadBinHeader;
    ReadsBinHeader(|s|, s + rest);
    assert EncodeBin(s) + rest == BinHeader(|s|) + (s + rest);
  }

  // --- formats wider than the writer's -----------------------------------

  /** A number is read from every unsigned format that holds it. */
  lemma ReadsUnsignedFormats(v: nat, rest: seq<byte>)
    ensures v <= U8 ==> ReadInt(Tagged(0xcc, v, 1) + rest) == Some(Read(v, 2))
    ensures v <= U16 ==> ReadInt(Tagged(0xcd, v, 2) + rest) == Some(Read(v, 3))
    ensures v <= U32 ==> ReadInt(Tagged(0xce, v, 4) + rest) == Some(Read(v, 5))
    ensures v <= U64 ==> ReadInt(Tagged(0xcf, v, 8) + rest) == Some(Read(v, 9))
  {
    hide After;
    Powers();
    if v <= U8 {
      AfterTagged(0xcc, v, 1, rest);
    }
    if v <= U16 {
      AfterTagged(0xcd, v, 2, rest);
    }
    if v <= U32 {
      AfterTagged(0xce, v, 4, rest);
    }
    if v <= U64 {
      AfterTagged(0xcf, v, 8, rest);
    }
  }

  /** And from every signed one, negative or not, where it stands in two's complement. */
  lemma ReadsSignedFormats(v: int, rest: seq<byte>)
    ensures -0x80 <= v < 0x80 ==> ReadInt(Tagged(0xd0, v % 0x100, 1) + rest) == Some(Read(v, 2))
    ensures -0x8000 <= v < 0x8000 ==> ReadInt(Tagged(0xd1, v % 0x1_0000, 2) + rest) == Some(Read(v, 3))
    ensures -0x8000_0000 <= v < 0x8000_0000 ==>
      ReadInt(Tagged(0xd2, v % 0x1_0000_0000, 4) + rest) == Some(Read(v, 5))
    ensures I64_MIN <= v < -I64_MIN ==>
      ReadInt(Tagged(0xd3, v % 0x1_0000_0000_0000_0000, 8) + rest) == Some(Read(v, 9))
  {
    hide After, Signed;
    Powers();
    if -0x80 <= v < 0x80 {
      ReadsSigned(0xd0, v, 1, 0x100, rest);
    }
    if -0x8000 <= v < 0x8000 {
      ReadsSigned(0xd1, v, 2, 0x1_0000, rest);
    }
    if -0x8000_0000 <= v < 0x8000_0000 {
      ReadsSigned(0xd2, v, 4, 0x1_0000_0000, rest);
    }
    if I64_MIN <= v < -I64_MIN {
      ReadsSigned(0xd3, v, 8, 0x1_0000_0000_0000_0000, rest);
    }
  }

  lemma ReadsSigned(tag: byte, v: int, k: nat, modulus: nat, rest: seq<byte>)
    requires Pow256(k) == modulus > 0 && modulus % 2 == 0 && 0 <= 2 * v + modulus < 2 * modulus
    ensures Signed(After(Tagged(tag, v % modulus, k) + rest, k), modulus) == Some(Read(v, k + 1))
  {
    hide After, Tagged, Pow256;
    AfterTagged(tag, v % modulus, k, rest);
    assert v % modulus == if v < 0 then v + modulus else v by { Wrapped(v, modulus); }
  }

  lemma Wrapped(v: int, modulus: nat)
    requires 0 <= v + modulus && v < modulus
    ensures v % modulus == if v < 0 then v + modulus else v
  {
    if v < 0 {
      assert v == (-1) * modulus + (v + modulus);
    }
  }

  /** Strings and blobs under a length of one, two or four bytes. */
  lemma ReadsChunkFormats(t: seq<byte>, rest: seq<byte>)
    ensures |t| <= U8 ==> ReadStr(Tagged(0xd9, |t|, 1) + (t + rest)) == Some(Chunk(t, |t| + 2))
    ensures |t| <= U16 ==> ReadStr(Tagged(0xda, |t|, 2) + (t + rest)) == Some(Chunk(t, |t| + 3))
    ensures |t| <= U32 ==> ReadStr(Tagged(0xdb, |t|, 4) + (t + rest)) == Some(Chunk(t, |t| + 5))
    ensures |t| <= U8 ==> ReadBin(Tagged(0xc4, |t|, 1) + (t + rest)) == Some(Chunk(t, |t| + 2))
    ensures |t| <= U16 ==> ReadBin(Tagged(0xc5, |t|, 2) + (t + rest)) == Some(Chunk(t, |t| + 3))
    ensures |t| <= U32 ==> ReadBin(Tagged(0xc6, |t|, 4) + (t + rest)) == Some(Chunk(t, |t| + 5))
  {
    hide After, Be, Contents;
    Powers();
    forall tag: byte, k: nat
      ensures Contents(Tagged(tag, |t|, k) + (t + rest), Some(Read(|t|, k + 1))) == Some(Chunk(t, |t| + k + 1))
    {
      ContentsAfter(Tagged(tag, |t|, k), t, rest);
    }
    if |t| <= U8 {
      AfterTagged(0xd9, |t|, 1, t + rest);
      AfterTagged(0xc4, |t|, 1, t + rest);
    }
    if |t| <= U16 {
      AfterTagged(0xda, |t|, 2, t + rest);
      AfterTagged(0xc5, |t|, 2, t + rest);
    }
    if |t| <= U32 {
      AfterTagged(0xdb, |t|, 4, t + rest);
      AfterTagged(0xc6, |t|, 4, t + rest);
    }
  }

  lemma ContentsAfter(header: seq<byte>, t: seq<byte>, rest: seq<byte>)
    ensures Contents(header + (t + rest), Some(Read(|t|, |header|))) == Some(Chunk(t, |header| + |t|))
  {
    var s := header + (t + rest);
    assert s[|header|..|header| + |t|] == t;
  }

  /** Counts of arrays and maps under two or four bytes. */
  lemma ReadsCountFormats(n: nat, rest: seq<byte>)
    ensures n <= U16 ==> ReadArrayHeader(Tagged(0xdc, n, 2) + rest) == Some(Read(n, 3))
    ensures n <= U32 ==> ReadArrayHeader(Tagged(0xdd, n, 4) + rest) == Some(Read(n, 5))
    ensures n <= U16 ==> ReadMapHeader(Tagged(0xde, n, 2) + rest) == Some(Read(n, 3))
    ensures n <= U32 ==> ReadMapHeader(Tagged(0xdf, n, 4) + rest) == Some(Read(n, 5))
  {
    hide After;
    Powers();
    if n <= U16 {
      AfterTagged(0xdc, n, 2, rest);
      AfterTagged(0xde, n, 2, rest);
    }
    if n <= U32 {
      AfterTagged(0xdd, n, 4, rest);
      AfterTagged(0xdf, n, 4, rest);
    }
  }

  // --- object extents ----------------------------------------------------

  /** The flat part of an object: its bytes up to its children, and how many children follow. */
  datatype Head = Head(size: nat, children: nat)

  function Sized(r: Option<Read>, extra: nat): Option<Head>
    requires r.Some? ==> r.value.value >= 0
  {
    if r.None? then None else Some(Head(r.value.size + extra + r.value.value, 0))
  }

  function Container(r: Option<Read>, each: nat): Option<Head>
    requires r.Some? ==> r.value.value >= 0
  {
    if r.None? then None else Some(Head(r.value.size, each * r.value.value))
  }

  /** The format table; 0xc1 is the one byte that starts no object. */
  function HeadOf(s: seq<byte>): (h: Option<Head>)
    ensures h.Some? ==> h.value.size >= 1
  {
    if s == [] then None
    else
      var b := s[0];
      if b <= 0x7f || b >= 0xe0 then Some(Head(1, 0))
      else if b <= 0x8f || b == 0xde || b == 0xdf then Container(ReadMapHeader(s), 2)
      else if b <= 0x9f || b == 0xdc || b == 0xdd then Container(ReadArrayHeader(s), 1)
      else if b <= 0xbf || 0xd9 <= b <= 0xdb then Sized(ReadStrHeader(s), 0)
      else if b == 0xc0 || b == 0xc2 || b == 0xc3 then Some(Head(1, 0))
      else if 0xc4 <= b <= 0xc6 then Sized(ReadBinHeader(s), 0)
      else if b == 0xc7 then Sized(After(s, 1), 1)
      else if b == 0xc8 then Sized(After(s, 2), 1)
      else if b == 0xc9 then Sized(After(s, 4), 1)
      else if b == 0xcc || b == 0xd0 then Some(Head(2, 0))
      else if b == 0xcd || b == 0xd1 then Some(Head(3, 0))
      else if b == 0xca || b == 0xce || b == 0xd2 then Some(Head(5, 0))
      else if b == 0xcb || b == 0xcf || b == 0xd3 then Some(Head(9, 0))
      else if b == 0xd4 then Some(Head(3, 0))
      else if b == 0xd5 then Some(Head(4, 0))
      else if b == 0xd6 then Some(Head(6, 0))
      else if b == 0xd7 then Some(Head(10, 0))
      else if b == 0xd8 then Some(Head(18, 0))
      else None
  }

  /** Length of the object at the start of `s`, by recursion over its children. */
  function Extent(s: seq<byte>): (n: Option<nat>)
    ensures n.Some? ==> 1 <= n.value <= |s|
    decreases |s|, 0
  {
    var h := HeadOf(s);
    if h.None? || |s| < h.value.size then None
    else
      var n := Extents(s[h.value.size..], h.value.children);
      if n.None? then None else Some(h.value.size + n.value)
  }

  /** Length of `count` consecutive objects. */
  function Extents(s: seq<byte>, count: nat): (n: Option<nat>)
    ensures n.Some? ==> n.value <= |s|
    decreases |s|, count + 1
  {
    if count == 0 then Some(0)
    else
      var n := Extent(s);
      if n.None? then None
      else
        var m := Extents(s[n.value..], count - 1);
        if m.None? then None else Some(n.value + m.value)
  }

  /** An extent measured `k` bytes further on. */
  function Later(k: nat, n: Option<nat>): Option<nat> {
    if n.None? then None else Some(k + n.value)
  }

  /** Consecutive objects may be measured in two instalments. */
  lemma {:induction false} ExtentsAdd(s: seq<byte>, a: nat, b: nat)
    ensures Extents(s, a + b) ==
      var n := Extents(s, a);
      if n.None? then None
      else
        var m := Extents(s[n.value..], b);
        if m.None? then None else Some(n.value + m.value)
    decreases a
  {
    hide Extents, Extent;
    if a == 0 {
      ExtentsNone(s);
      assert s[0..] == s;
    } else {
      ExtentsFirst(s, a + b);
      ExtentsFirst(s, a);
      if Extent(s).Some? {
        var k := Extent(s).value;
        ExtentsAdd(s[k..], a - 1, b);
        var n := Extents(s[k..], a - 1);
        if n.Some? {
          SliceOfDrop(s, k, 0, n.value);
        }
      }
    }
  }

  lemma ExtentsNone(s: seq<byte>)
    ensures Extents(s, 0) == Some(0)
  {}

  lemma ExtentsFirst(s: seq<byte>, count: nat)
    requires count > 0
    ensures Extents(s, count) ==
      var n := Extent(s);
      if n.None? then None
      else
        var m := Extents(s[n.value..], count - 1);
        if m.None? then None else Some(n.value + m.value)
  {
    hide Extent;
  }

  /** Children join the objects still owed: one flat step of an iterative scan. */
  lemma FlatStep(s: seq<byte>, count: nat)
    requires count > 0
    ensures Extents(s, count) ==
      var h := HeadOf(s);
      if h.None? || |s| < h.value.size then None
      else
        Later(h.value.size, Extents(s[h.value.size..], h.value.children + (count - 1)))
  {
    hide HeadOf;
    var h := HeadOf(s);
    if h.Some? && h.value.size <= |s| {
      var rest := s[h.value.size..];
      ExtentsAdd(rest, h.value.children, count - 1);
      var n := Extents(rest, h.value.children);
      if n.Some? {
        SliceOfDrop(s, h.value.size, 0, n.value);
      }
    }
  }

  lemma ExtentOfHead(s: seq<byte>, h: Head, n: nat)
    requires HeadOf(s) == Some(h) && h.size <= |s| && Extents(s[h.size..], h.children) == Some(n)
    ensures Extent(s) == Some(h.size + n)
  {
    hide HeadOf, Extents;
  }

  /** An extension of fixed size is its format byte, its type and as many bytes as its format says. */
  lemma FixedExtensions(kind: byte, data: seq<byte>, rest: seq<byte>)
    ensures |data| == 1 ==> Extent([0xd4, kind] + data + rest) == Some(3)
    ensures |data| == 2 ==> Extent([0xd5, kind] + data + rest) == Some(4)
    ensures |data| == 4 ==> Extent([0xd6, kind] + data + rest) == Some(6)
    ensures |data| == 8 ==> Extent([0xd7, kind] + data + rest) == Some(10)
    ensures |data| == 16 ==> Extent([0xd8, kind] + data + rest) == Some(18)
  {}

  /** Any other is its format byte, a length, its type and as many bytes as that length says. */
  lemma SizedExtensions(kind: byte, data: seq<byte>, rest: seq<byte>)
    ensures |data| <= U8 ==> Extent(Tagged(0xc7, |data|, 1) + ([kind] + data + rest)) == Some(3 + |data|)
    ensures |data| <= U16 ==> Extent(Tagged(0xc8, |data|, 2) + ([kind] + data + rest)) == Some(4 + |data|)
    ensures |data| <= U32 ==> Extent(Tagged(0xc9, |data|, 4) + ([kind] + data + rest)) == Some(6 + |data|)
  {
    hide After, Be;
    Powers();
    var body := [kind] + data + rest;
    if |data| <= U8 {
      AfterTagged(0xc7, |data|, 1, body);
    }
    if |data| <= U16 {
      AfterTagged(0xc8, |data|, 2, body);
    }
    if |data| <= U32 {
      AfterTagged(0xc9, |data|, 4, body);
    }
  }

  /** The reserved byte starts no object. */
  lemma ReservedByte(rest: seq<byte>)
    ensures Extent([0xc1] + rest) == None
  {}

  lemma ExtentIsExtents(s: seq<byte>)
    ensures Extents(s, 1) == Extent(s)
  {
    hide Extent;
    ExtentsFirst(s, 1);
    if Extent(s).Some? {
      ExtentsNone(s[Extent(s).value..]);
    }
  }

  lemma LaterNow(n: Option<nat>)
    ensures Later(0, n) == n
  {}

  lemma LaterDone(k: nat, s: seq<byte>)
    ensures Later(k, Scan(s, 0)) == Some(k)
  {}

  // --- an iterative scan with a counter of objects owed ------------------

  /** One past the largest value of the 64-bit counter. */
  const COUNTER: nat := 0x1_0000_0000_0000_0000

  /** The counter after one object that owes some of its own. */
  function Owing(owed: nat, children: nat): nat {
    (owed + children + (COUNTER - 1)) % COUNTER
  }

  lemma OwingTwice(owed: nat, children: nat)
    ensures ((owed + children) % COUNTER + (COUNTER - 1)) % COUNTER == Owing(owed, children)
  {
    var t := owed + children;
    var q := t / COUNTER;
    assert t + (COUNTER - 1) == q * COUNTER + (t % COUNTER + (COUNTER - 1));
    WrapsOff(q, t % COUNTER + (COUNTER - 1));
  }

  lemma WrapsOff(q: nat, x: nat)
    ensures (q * COUNTER + x) % COUNTER == x % COUNTER
  {
    var k := x / COUNTER;
    assert q * COUNTER + x == (q + k) * COUNTER + x % COUNTER;
  }

  /** Length of the objects owed, measured with a counter that wraps instead of by recursion. */
  function Scan(s: seq<byte>, owed: nat): (n: Option<nat>)
    ensures n.Some? ==> n.value <= |s|
    decreases |s|
  {
    if owed == 0 then Some(0)
    else
      var h := HeadOf(s);
      if h.None? || |s| < h.value.size then None
      else Later(h.value.size, Scan(s[h.value.size..], Owing(owed, h.value.children)))
  }

  lemma ScanStep(k: nat, s: seq<byte>, owed: nat)
    requires owed > 0
    ensures HeadOf([]) == None
    ensures HeadOf(s).None? || |s| < HeadOf(s).value.size ==> Later(k, Scan(s, owed)) == None
    ensures HeadOf(s).Some? && HeadOf(s).value.size <= |s| ==>
      var h := HeadOf(s).value;
      Later(k, Scan(s, owed)) == Later(k + h.size, Scan(s[h.size..], Owing(owed, h.children)))
  {
    NothingHeads();
    hide HeadOf, Owing;
  }

  lemma NothingHeads()
    ensures HeadOf([]) == None
  {}

  const MOST_OWED: nat := 2 * U32 - 1

  /** How far the counter can rise over `n` bytes: full map headers of five bytes, and what is left over. */
  function Rise(n: nat): nat {
    n / 5 * MOST_OWED + n % 5 * 131069
  }

  lemma RiseAdds(a: nat, b: nat)
    ensures Rise(a) + Rise(b) <= Rise(a + b)
  {
    var q, r := (a + b) / 5, (a + b) % 5;
    if a % 5 + b % 5 < 5 {
      assert q == a / 5 + b / 5 && r == a % 5 + b % 5;
    } else {
      assert q == a / 5 + b / 5 + 1 && r == a % 5 + b % 5 - 5;
    }
  }

  lemma HeadRises(s: seq<byte>)
    ensures HeadOf(s).Some? && HeadOf(s).value.size <= |s| ==>
      HeadOf(s).value.children <= 1 + Rise(HeadOf(s).value.size)
  {
    Powers();
    hide FromBe;
    if |s| >= 5 {
      FromBeBound(s[1..5]);
    }
    if |s| >= 3 {
      FromBeBound(s[1..3]);
    }
  }

  /** The least number of bytes that can wrap the counter. */
  const SCAN_LIMIT: nat := 5 * 0x8000_0001

  lemma RiseFits(n: nat)
    requires n < SCAN_LIMIT
    ensures 1 + Rise(n) < COUNTER
  {}

  /** Below that many bytes the counter does not wrap, and the scan agrees with the recursion. */
  lemma {:induction false} ScanIsExtents(s: seq<byte>, owed: nat, consumed: nat)
    requires owed <= 1 + Rise(consumed) && consumed + |s| < SCAN_LIMIT
    ensures Scan(s, owed) == Extents(s, owed)
    decreases |s|
  {
    hide HeadOf, Extents, Rise;
    if owed == 0 {
      ExtentsNone(s);
    } else {
      FlatStep(s, owed);
      if HeadOf(s).Some? && HeadOf(s).value.size <= |s| {
        var h := HeadOf(s).value;
        HeadRises(s);
        RiseAdds(consumed, h.size);
        RiseFits(consumed + h.size);
        assert Owing(owed, h.children) == h.children + (owed - 1);
        ScanIsExtents(s[h.size..], h.children + (owed - 1), consumed + h.size);
      }
    }
  }

  // --- where the counter wraps -------------------------------------------

  /** A map header that owes `2 * pairs` objects. */
  function MapOf(pairs: nat): (s: seq<byte>)
    requires pairs <= U32
    ensures |s| == 5
  {
    Tagged(0xdf, pairs, 4)
  }

  lemma MapOfHead(pairs: nat, rest: seq<byte>)
    requires pairs <= U32
    ensures HeadOf(MapOf(pairs) + rest) == Some(Head(5, 2 * pairs))
    ensures (MapOf(pairs) + rest)[5..] == rest
  {
    hide After;
    Powers();
    AfterTagged(0xdf, pairs, 4, rest);
  }

  /** Full map headers in a row. */
  function FullMaps(n: nat): (s: seq<byte>)
    ensures |s| == 5 * n
  {
    if n == 0 then [] else MapOf(U32) + FullMaps(n - 1)
  }

  lemma {:induction false} FullMapsOwe(n: nat, rest: seq<byte>, owed: nat)
    requires 0 < owed && owed + n * MOST_OWED < COUNTER
    ensures Scan(FullMaps(n) + rest, owed) == Later(5 * n, Scan(rest, owed + n * MOST_OWED))
    ensures Extents(FullMaps(n) + rest, owed) == Later(5 * n, Extents(rest, owed + n * MOST_OWED))
    decreases n
  {
    hide HeadOf, Scan, Extents, MapOf;
    if n == 0 {
      assert [] + rest == rest;
    } else {
      var s, tail, next := FullMaps(n) + rest, FullMaps(n - 1) + rest, owed + MOST_OWED;
      assert s == MapOf(U32) + tail;
      MapOfHead(U32, tail);
      ScanStep(0, s, owed);
      FlatStep(s, owed);
      assert n * MOST_OWED == MOST_OWED + (n - 1) * MOST_OWED;
      assert Owing(owed, 2 * U32) == next;
      FullMapsOwe(n - 1, rest, next);
    }
  }

  /** Each object takes at least one byte. */
  lemma {:induction false} NoneOwedAtEnd(owed: nat)
    requires owed > 0
    ensures Extents([], owed) == None
  {
    FlatStep([], owed);
  }

  /**
   At the limit the scan can end in the middle of an object: headers that owe exactly 2^64
   objects wrap the counter to zero, and nothing follows them.
   */
  lemma ScanWraps() returns (s: seq<byte>)
    ensures |s| == SCAN_LIMIT && Scan(s, 1) == Some(SCAN_LIMIT) && Extent(s) == None
  {
    hide HeadOf, Scan, Extents, Extent, MapOf, FullMaps;
    var n: nat, owed: nat := 0x8000_0000, 1 + 0x8000_0000 * MOST_OWED;
    var last := MapOf(0xc000_0000);
    s := FullMaps(n) + last;
    FullMapsOwe(n, last, 1);
    MapOfHead(0xc000_0000, []);
    assert last + [] == last;
    ScanStep(0, last, owed);
    FlatStep(last, owed);
    assert Owing(owed, 0x1_8000_0000) == 0;
    LaterDone(0, []);
    NoneOwedAtEnd(COUNTER);
    ExtentIsExtents(s);
  }

  /** The scan measures every buffer of up to `n` bytes rightly exactly when `n` is below the limit. */
  lemma ScanRightUpTo(n: nat)
    ensures (forall s: seq<byte> :: |s| <= n ==> Scan(s, 1) == Extent(s)) <==> n < SCAN_LIMIT
  {
    hide Scan, Extent, Extents;
    if n < SCAN_LIMIT {
      forall s: seq<byte> | |s| <= n
        ensures Scan(s, 1) == Extent(s)
      {
        ScanIsExtents(s, 1, 0);
        ExtentIsExtents(s);
      }
    } else {
      var s := ScanWraps();
      assert |s| <= n;
    }
  }
}
