/** CRC-16/CCITT-FALSE: the bitwise register of framing.h, and what it detects. */
module Crc16 {
  import opened Bytes

  const POLYNOMIAL: bv16 := 0x1021
  const INITIAL: bv16 := 0xFFFF

  /** One of the eight shifts made for each byte. */
  function Shift(crc: bv16): bv16 {
    if crc & 0x8000 != 0 then (crc << 1) ^ POLYNOMIAL else crc << 1
  }

  function Shift8(crc: bv16): bv16 {
    Shift(Shift(Shift(Shift(Shift(Shift(Shift(Shift(crc))))))))
  }

  function Mix(crc: bv16, b: byte): bv16 {
    crc ^ (b as bv16 << 8)
  }

  /** The register after one byte. */
  function Update(crc: bv16, b: byte): bv16 {
    Shift8(Mix(crc, b))
  }

  /** The register after `data`, starting from `init`. */
  function Crc(data: seq<byte>, init: bv16): bv16 {
    if data == [] then init else Crc(data[1..], Update(init, data[0]))
  }

  function Checksum(data: seq<byte>): bv16 {
    Crc(data, INITIAL)
  }

  function Hi(crc: bv16): byte {
    assert crc >> 8 <= 0xff;
    (crc >> 8) as byte
  }

  function Lo(crc: bv16): byte {
    assert crc & 0xff <= 0xff;
    (crc & 0xff) as byte
  }

  /** The big-endian trailer of a frame. */
  function Trailer(data: seq<byte>): (t: seq<byte>)
    ensures |t| == 2
  {
    [Hi(Checksum(data)), Lo(Checksum(data))]
  }

  function Join(hi: byte, lo: byte): bv16 {
    (hi as bv16 << 8) | (lo as bv16)
  }

  // --- the loop ----------------------------------------------------------

  method Crc16Ccitt(data: array<byte>, from: nat, len: nat, init: bv16) returns (crc: bv16)
    requires from + len <= data.Length
    ensures crc == Crc(data[from..from + len], init)
  {
    crc := init;
    var i := 0;
    while i < len
      invariant i <= len
      invariant Crc(data[from..from + len], init) == Crc(data[from + i..from + len], crc)
    {
      assert data[from + i..from + len][1..] == data[from + i + 1..from + len];
      crc := ShiftByte(Mix(crc, data[from + i]));
      i := i + 1;
    }
  }

  /** The inner loop over the eight bits of one byte. */
  method ShiftByte(mixed: bv16) returns (crc: bv16)
    ensures crc == Shift8(mixed)
  {
    ShiftsEight(mixed);
    crc := mixed;
    var bit := 0;
    while bit < 8
      invariant bit <= 8
      invariant Shift8(mixed) == Shifts(crc, 8 - bit)
    {
      crc := if crc & 0x8000 != 0 then (crc << 1) ^ 0x1021 else crc << 1;
      bit := bit + 1;
    }
  }

  ghost function Shifts(crc: bv16, n: nat): bv16
    decreases n
  {
    if n == 0 then crc else Shifts(Shift(crc), n - 1)
  }

  lemma ShiftsEight(crc: bv16)
    ensures Shifts(crc, 8) == Shift8(crc)
  {
    var c4 := Shift(Shift(Shift(Shift(crc))));
    assert Shifts(c4, 4) == Shifts(Shift(Shift(c4)), 2) == Shift(Shift(Shift(Shift(c4))));
    assert Shifts(crc, 8) == Shifts(Shift(Shift(crc)), 6) == Shifts(c4, 4);
  }

  // --- the register step is a bijection ----------------------------------

  /** Inverse of `Shift`. */
  function Unshift(crc: bv16): bv16 {
    if crc & 1 != 0 then ((crc ^ POLYNOMIAL) >> 1) | 0x8000 else crc >> 1
  }

  function Unshift8(crc: bv16): bv16 {
    Unshift(Unshift(Unshift(Unshift(Unshift(Unshift(Unshift(Unshift(crc))))))))
  }

  lemma UnshiftShift(c: bv16)
    ensures Unshift(Shift(c)) == c
  {
    if c & 0x8000 != 0 {
      UnshiftCarry(c);
    } else {
      UnshiftNoCarry(c);
    }
  }

  lemma UnshiftCarry(c: bv16)
    requires c & 0x8000 != 0
    ensures ((c << 1) ^ 0x1021) & 1 != 0
    ensures ((((c << 1) ^ 0x1021) ^ 0x1021) >> 1) | 0x8000 == c
  {}

  lemma UnshiftNoCarry(c: bv16)
    requires c & 0x8000 == 0
    ensures (c << 1) & 1 == 0
    ensures (c << 1) >> 1 == c
  {}

  lemma Unshift8Shift8(c: bv16)
    ensures Unshift8(Shift8(c)) == c
  {
    var c1 := Shift(c);
    var c2 := Shift(c1);
    var c3 := Shift(c2);
    var c4 := Shift(c3);
    var c5 := Shift(c4);
    var c6 := Shift(c5);
    var c7 := Shift(c6);
    UnshiftShift(c);
    UnshiftShift(c1);
    UnshiftShift(c2);
    UnshiftShift(c3);
    UnshiftShift(c4);
    UnshiftShift(c5);
    UnshiftShift(c6);
    UnshiftShift(c7);
  }

  lemma WidenInjective(a: byte, b: byte)
    requires a as bv16 == b as bv16
    ensures a == b
  {
    Widen(a);
    Widen(b);
  }

  lemma Widen(b: byte)
    ensures b as bv16 as int == b as int
    ensures b as bv16 <= 0xff
  {
    if b < 0x80 {
      WidenLow(b);
    } else {
      WidenHigh(b);
    }
  }

  lemma WidenLow(b: byte)
    requires b < 0x80
    ensures b as bv16 as int == b as int
    ensures b as bv16 <= 0xff
  {}

  lemma WidenHigh(b: byte)
    requires b >= 0x80
    ensures b as bv16 as int == b as int
    ensures b as bv16 <= 0xff
  {}

  lemma Shift8Injective(c: bv16, d: bv16)
    requires Shift8(c) == Shift8(d)
    ensures c == d
  {
    Unshift8Shift8(c);
    Unshift8Shift8(d);
  }

  lemma MixInjectiveRegister(c: bv16, d: bv16, b: byte)
    requires Mix(c, b) == Mix(d, b)
    ensures c == d
  {
    Widen(b);
    RegisterCancel(c, d, b as bv16);
  }

  lemma MixInjectiveByte(c: bv16, a: byte, b: byte)
    requires Mix(c, a) == Mix(c, b)
    ensures a == b
  {
    Widen(a);
    Widen(b);
    ShiftedCancel(c, a as bv16, b as bv16);
  }

  /** The register step is injective in the register and in the byte. */
  lemma UpdateInjective(c: bv16, d: bv16, a: byte, b: byte)
    ensures Update(c, a) == Update(d, a) ==> c == d
    ensures Update(c, a) == Update(c, b) ==> a == b
  {
    if Update(c, a) == Update(d, a) {
      Shift8Injective(Mix(c, a), Mix(d, a));
      MixInjectiveRegister(c, d, a);
    }
    if Update(c, a) == Update(c, b) {
      Shift8Injective(Mix(c, a), Mix(c, b));
      MixInjectiveByte(c, a, b);
    }
  }

  lemma RegisterCancel(c: bv16, d: bv16, x: bv16)
    requires c ^ (x << 8) == d ^ (x << 8)
    ensures c == d
  {}

  lemma ShiftedCancel(c: bv16, x: bv16, y: bv16)
    requires x <= 0xff && y <= 0xff
    requires c ^ (x << 8) == c ^ (y << 8)
    ensures x == y
  {}

  // --- two adjacent bytes ------------------------------------------------

  /** Undoing a shift on two registers that agree in the low bit shifts their difference. */
  lemma UnshiftDifference(y: bv16, z: bv16)
    requires (y ^ z) & 1 == 0
    ensures Unshift(y) ^ Unshift(z) == (y ^ z) >> 1
  {
    if y & 1 != 0 {
      SameLowBitSet(y, z);
    } else {
      SameLowBitClear(y, z);
    }
  }

  lemma SameLowBitSet(y: bv16, z: bv16)
    requires (y ^ z) & 1 == 0 && y & 1 != 0
    ensures z & 1 != 0
    ensures (((y ^ 0x1021) >> 1) | 0x8000) ^ (((z ^ 0x1021) >> 1) | 0x8000) == (y ^ z) >> 1
  {}

  lemma SameLowBitClear(y: bv16, z: bv16)
    requires (y ^ z) & 1 == 0 && y & 1 == 0
    ensures z & 1 == 0
    ensures (y >> 1) ^ (z >> 1) == (y ^ z) >> 1
  {}

  lemma HalveDifference(d: bv16, k: bv16)
    requires d & ((k << 1) | 1) == 0 && k <= 0x7f
    ensures d & 1 == 0 && (d >> 1) & k == 0
  {}

  /** Eight steps back, a difference confined to the high byte lands in the low byte. */
  lemma Unshift8Difference(y: bv16, z: bv16)
    requires (y ^ z) & 0xff == 0
    ensures Unshift8(y) ^ Unshift8(z) == (y ^ z) >> 8
  {
    var y1, z1 := StepBack(y, z, 0x7f);
    var y2, z2 := StepBack(y1, z1, 0x3f);
    var y3, z3 := StepBack(y2, z2, 0x1f);
    var y4, z4 := StepBack(y3, z3, 0x0f);
    var y5, z5 := StepBack(y4, z4, 0x07);
    var y6, z6 := StepBack(y5, z5, 0x03);
    var y7, z7 := StepBack(y6, z6, 0x01);
    var y8, z8 := StepBack(y7, z7, 0x00);
    EightHalves(y ^ z);
  }

  lemma StepBack(y: bv16, z: bv16, k: bv16) returns (y': bv16, z': bv16)
    requires (y ^ z) & ((k << 1) | 1) == 0 && k <= 0x7f
    ensures y' == Unshift(y) && z' == Unshift(z)
    ensures y' ^ z' == (y ^ z) >> 1
    ensures (y' ^ z') & k == 0
  {
    HalveDifference(y ^ z, k);
    UnshiftDifference(y, z);
    y', z' := Unshift(y), Unshift(z);
  }

  lemma EightHalves(d: bv16)
    ensures (((((((d >> 1) >> 1) >> 1) >> 1) >> 1) >> 1) >> 1) >> 1 == d >> 8
  {}

  lemma ByteDifferences(u: bv16, v: bv16, p: bv16, q: bv16)
    requires p <= 0xff && q <= 0xff
    requires u ^ (p << 8) == v ^ (q << 8)
    ensures (u ^ v) & 0xff == 0
  {}

  lemma HighAgainstLow(c: bv16, a: bv16, b: bv16, u: bv16, v: bv16)
    requires a <= 0xff && b <= 0xff
    requires (c ^ (a << 8)) ^ (c ^ (b << 8)) == (u ^ v) >> 8 && (u ^ v) & 0xff == 0
    ensures a == b && u == v
  {}

  /** Two consecutive bytes are determined by the register before and the register after. */
  lemma PairInjective(c: bv16, a: byte, p: byte, b: byte, q: byte)
    requires Update(Update(c, a), p) == Update(Update(c, b), q)
    ensures a == b && p == q
  {
    var u, v := Update(c, a), Update(c, b);
    Shift8Injective(Mix(u, p), Mix(v, q));
    PairMixed(c, a, p, b, q, u, v);
  }

  lemma PairMixed(c: bv16, a: byte, p: byte, b: byte, q: byte, u: bv16, v: bv16)
    requires u == Update(c, a) && v == Update(c, b)
    requires Mix(u, p) == Mix(v, q)
    ensures a == b && p == q
  {
    MixDifference(u, v, p, q);
    Rewind(Mix(c, a), Mix(c, b));
    MixNoDifference(c, a, b, u, v);
    MixInjectiveByte(u, p, q);
  }

  lemma Rewind(x: bv16, y: bv16)
    requires (Shift8(x) ^ Shift8(y)) & 0xff == 0
    ensures x ^ y == (Shift8(x) ^ Shift8(y)) >> 8
  {
    Unshift8Difference(Shift8(x), Shift8(y));
    Unshift8Shift8(x);
    Unshift8Shift8(y);
  }

  lemma MixDifference(u: bv16, v: bv16, p: byte, q: byte)
    requires Mix(u, p) == Mix(v, q)
    ensures (u ^ v) & 0xff == 0
  {
    Widen(p);
    Widen(q);
    ByteDifferences(u, v, p as bv16, q as bv16);
  }

  lemma MixNoDifference(c: bv16, a: byte, b: byte, u: bv16, v: bv16)
    requires Mix(c, a) ^ Mix(c, b) == (u ^ v) >> 8 && (u ^ v) & 0xff == 0
    ensures a == b && u == v
  {
    Widen(a);
    Widen(b);
    HighAgainstLow(c, a as bv16, b as bv16, u, v);
    WidenInjective(a, b);
  }

  // --- whole blocks ------------------------------------------------------

  /** Checksums compose over chunks. */
  lemma {:induction false} CrcConcat(a: seq<byte>, b: seq<byte>, init: bv16)
    ensures Crc(a + b, init) == Crc(b, Crc(a, init))
  {
    if a == [] {
      assert a + b == b;
    } else {
      assert (a + b)[1..] == a[1..] + b;
      CrcConcat(a[1..], b, Update(init, a[0]));
    }
  }

  lemma {:induction false} CrcInjective(data: seq<byte>, c: bv16, d: bv16)
    ensures Crc(data, c) == Crc(data, d) ==> c == d
  {
    if data != [] {
      CrcInjective(data[1..], Update(c, data[0]), Update(d, data[0]));
      UpdateInjective(c, d, data[0], data[0]);
    }
  }

  /** A change of one byte always changes the checksum. */
  lemma OneByteDetected(data: seq<byte>, i: nat, b: byte)
    requires i < |data| && b != data[i]
    ensures Checksum(data[i := b]) != Checksum(data)
  {
    var pre, post := data[..i], data[i + 1..];
    var c := Checksum(pre);
    SplitAt(data, i, 1);
    SplitAt(data[i := b], i, 1);
    assert data[i := b][..i] == pre && data[i := b][i + 1..] == post;
    CrcInjective(post, Update(c, data[i]), Update(c, b));
    UpdateInjective(c, c, data[i], b);
  }

  /** A change confined to two neighbouring bytes always changes the checksum. */
  lemma TwoBytesDetected(data: seq<byte>, i: nat, a: byte, b: byte)
    requires i + 1 < |data| && (a != data[i] || b != data[i + 1])
    ensures Checksum(data[i := a][i + 1 := b]) != Checksum(data)
  {
    var changed := data[i := a][i + 1 := b];
    var pre, post := data[..i], data[i + 2..];
    var c := Checksum(pre);
    SplitAt(data, i, 2);
    SplitAt(changed, i, 2);
    assert changed[..i] == pre && changed[i + 2..] == post;
    CrcInjective(post, Update(Update(c, data[i]), data[i + 1]), Update(Update(c, a), b));
    if Update(Update(c, data[i]), data[i + 1]) == Update(Update(c, a), b) {
      PairInjective(c, data[i], data[i + 1], a, b);
    }
  }

  lemma SplitAt(data: seq<byte>, i: nat, n: nat)
    requires i + n <= |data| && 1 <= n <= 2
    ensures n == 1 ==> Checksum(data) == Crc(data[i + 1..], Update(Checksum(data[..i]), data[i]))
    ensures n == 2 ==>
      Checksum(data) == Crc(data[i + 2..], Update(Update(Checksum(data[..i]), data[i]), data[i + 1]))
  {
    assert data == data[..i] + data[i..];
    CrcConcat(data[..i], data[i..], INITIAL);
    assert data[i..][1..] == data[i + 1..];
    if n == 2 {
      assert data[i + 1..][1..] == data[i + 2..];
    }
  }

  // --- the trailer -------------------------------------------------------

  lemma WidenOf(d: bv16, b: byte)
    requires b as int == d as int
    ensures b as bv16 == d
  {}

  lemma WidenTrailer(c: bv16)
    ensures Hi(c) as bv16 == c >> 8
    ensures Lo(c) as bv16 == c & 0xff
  {
    WidenOf(c >> 8, Hi(c));
    WidenOf(c & 0xff, Lo(c));
  }

  lemma TrailerCancels(c: bv16)
    ensures Shift8(Shift8(c ^ ((c >> 8) << 8)) ^ ((c & 0xff) << 8)) == 0
  {}

  lemma TrailerZeroesRegister(c: bv16)
    ensures Update(Update(c, Hi(c)), Lo(c)) == 0
  {
    WidenTrailer(c);
    TrailerCancels(c);
  }

  /** A block ends in its own big-endian checksum exactly when its register runs to zero. */
  lemma Residue(payload: seq<byte>, hi: byte, lo: byte)
    ensures Checksum(payload + [hi, lo]) == 0 <==> [hi, lo] == Trailer(payload)
  {
    var c := Checksum(payload);
    var block := payload + [hi, lo];
    SplitAt(block, |payload|, 2);
    assert block[..|payload|] == payload && block[|payload| + 2..] == [];
    TrailerZeroesRegister(c);
    if Update(Update(c, hi), lo) == 0 {
      PairInjective(c, Hi(c), Lo(c), hi, lo);
    }
  }

  /** The received trailer, reassembled, equals a checksum exactly when its two bytes do. */
  lemma JoinIsTrailer(hi: byte, lo: byte, c: bv16)
    ensures Join(hi, lo) == c <==> hi == Hi(c) && lo == Lo(c)
  {
    WidenTrailer(c);
    SplitJoins(c);
    if Join(hi, lo) == c {
      JoinInjective(hi, lo, Hi(c), Lo(c));
    }
  }

  lemma JoinInjective(hi: byte, lo: byte, hi': byte, lo': byte)
    requires Join(hi, lo) == Join(hi', lo')
    ensures hi == hi' && lo == lo'
  {
    Widen(hi);
    Widen(lo);
    Widen(hi');
    Widen(lo');
    JoinSplits(hi as bv16, lo as bv16);
    JoinSplits(hi' as bv16, lo' as bv16);
    WidenInjective(hi, hi');
    WidenInjective(lo, lo');
  }

  lemma JoinSplits(x: bv16, y: bv16)
    requires x <= 0xff && y <= 0xff
    ensures ((x << 8) | y) >> 8 == x && ((x << 8) | y) & 0xff == y
  {}

  lemma SplitJoins(c: bv16)
    ensures ((c >> 8) << 8) | (c & 0xff) == c
  {}

  /** The check value the source documents pins the polynomial, the seed and the bit order. */
  lemma CheckValue()
    ensures Checksum([49, 50, 51, 52, 53, 54, 55, 56, 57]) == 0x29B1
  {
    assert Update(0xFFFF, 49) == 0xC782;
    assert Update(0xC782, 50) == 0x3DBA;
    assert Update(0x3DBA, 51) == 0x5BCE;
    assert Update(0x5BCE, 52) == 0x5349;
    assert Update(0x5349, 53) == 0x4560;
    assert Update(0x4560, 54) == 0x2EF4;
    assert Update(0x2EF4, 55) == 0x7718;
    assert Update(0x7718, 56) == 0xA12B;
    assert Update(0xA12B, 57) == 0x29B1;
    hide Update;
    CrcStep(49, [50, 51, 52, 53, 54, 55, 56, 57], 0xFFFF);
    CrcStep(50, [51, 52, 53, 54, 55, 56, 57], 0xC782);
    CrcStep(51, [52, 53, 54, 55, 56, 57], 0x3DBA);
    CrcStep(52, [53, 54, 55, 56, 57], 0x5BCE);
    CrcStep(53, [54, 55, 56, 57], 0x5349);
    CrcStep(54, [55, 56, 57], 0x4560);
    CrcStep(55, [56, 57], 0x2EF4);
    CrcStep(56, [57], 0x7718);
    CrcStep(57, [], 0xA12B);
  }

  lemma CrcStep(b: byte, rest: seq<byte>, crc: bv16)
    ensures Crc([b] + rest, crc) == Crc(rest, Update(crc, b))
  {
    hide Update;
    assert ([b] + rest)[1..] == rest;
  }
}
