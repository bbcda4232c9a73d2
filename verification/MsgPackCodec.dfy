/** The Writer and Reader of msgpack_lite.h, proved against the format functions of MsgPack. */
module MsgPackCodec {
  import opened Bytes
  import opened MsgPack

  class Writer {
    const buf: array<byte>
    const base: nat // the source's `buf` pointer is buf + base
    const cap: nat
    var size: nat
    var overflow: bool
    ghost var full: seq<byte> // everything packed, as if the buffer had no end

    ghost predicate Valid()
      reads this, buf
    {
      && base + cap <= buf.Length
      && size == Min(|full|, cap)
      && (overflow <==> |full| > cap)
      && (forall k :: 0 <= k < size ==> buf[base + k] == full[k])
    }

    constructor (buf: array<byte>, base: nat, cap: nat)
      requires base + cap <= buf.Length
      ensures Valid() && full == []
      ensures this.buf == buf && this.base == base && this.cap == cap
    {
      this.buf, this.base, this.cap := buf, base, cap;
      size, overflow, full := 0, false, [];
    }

    method Reset()
      requires Valid()
      modifies this
      ensures Valid() && full == [] && size == 0 && !overflow
    {
      size, overflow, full := 0, false, [];
    }

    /** The bytes held are a prefix of everything packed, and all of it unless it overflowed. */
    lemma Holds()
      requires Valid()
      ensures buf[base..base + size] == full[..size]
      ensures !overflow ==> buf[base..base + size] == full
      ensures overflow ==> size == cap
    {}

    method PutByte(b: byte)
      requires Valid()
      modifies this, buf
      ensures Valid() && full == old(full) + [b]
      ensures forall k :: 0 <= k < base || base + cap <= k < buf.Length ==> buf[k] == old(buf[k])
    {
      full := full + [b];
      if size < cap {
        buf[base + size] := b;
        size := size + 1;
      } else {
        overflow := true;
      }
    }

    method PutBytes(p: seq<byte>)
      requires Valid()
      modifies this, buf
      ensures Valid() && full == old(full) + p
      ensures forall k :: 0 <= k < base || base + cap <= k < buf.Length ==> buf[k] == old(buf[k])
    {
      var i := 0;
      while i < |p|
        invariant i <= |p| && Valid() && full == old(full) + p[..i]
        invariant forall k :: 0 <= k < base || base + cap <= k < buf.Length ==> buf[k] == old(buf[k])
      {
        PutByte(p[i]);
        i := i + 1;
      }
      assert p[..i] == p;
    }

    method PutU16(v: nat)
      requires Valid() && v <= U16
      modifies this, buf
      ensures Valid() && full == old(full) + Be(v, 2)
      ensures forall k :: 0 <= k < base || base + cap <= k < buf.Length ==> buf[k] == old(buf[k])
    {
      Be2(v);
      PutByte((v / 0x100 % 0x100) as byte);
      PutByte((v % 0x100) as byte);
    }

    method PutU32(v: nat)
      requires Valid() && v <= U32
      modifies this, buf
      ensures Valid() && full == old(full) + Be(v, 4)
      ensures forall k :: 0 <= k < base || base + cap <= k < buf.Length ==> buf[k] == old(buf[k])
    {
      Be4(v);
      Be2(v);
      Be2(v / 0x1_0000);
      PutByte((v / 0x1_0000 / 0x100 % 0x100) as byte);
      PutByte((v / 0x1_0000 % 0x100) as byte);
      PutByte((v / 0x100 % 0x100) as byte);
      PutByte((v % 0x100) as byte);
    }

    method PutU64(v: nat)
      requires Valid() && v <= U64
      modifies this, buf
      ensures Valid() && full == old(full) + Be(v, 8)
      ensures forall k :: 0 <= k < base || base + cap <= k < buf.Length ==> buf[k] == old(buf[k])
    {
      Be8(v);
      PutU32(v / 0x1_0000_0000);
      PutU32(v % 0x1_0000_0000);
    }

    method PackNil()
      requires Valid()
      modifies this, buf
      ensures Valid() && full == old(full) + NIL
      ensures forall k :: 0 <= k < base || base + cap <= k < buf.Length ==> buf[k] == old(buf[k])
    {
      PutByte(0xc0);
    }

    method PackBool(v: bool)
      requires Valid()
      modifies this, buf
      ensures Valid() && full == old(full) + EncodeBool(v)
      ensures forall k :: 0 <= k < base || base + cap <= k < buf.Length ==> buf[k] == old(buf[k])
    {
      PutByte(if v then 0xc3 else 0xc2);
    }

    /** A format byte and a big-endian number of `width` bytes. */
    method PutTagged(tag: byte, v: nat, width: nat)
      requires Valid() && (width == 1 || width == 2 || width == 4 || width == 8) && v < Pow256(width)
      modifies this, buf
      ensures Valid() && full == old(full) + Tagged(tag, v, width)
      ensures forall k :: 0 <= k < base || base + cap <= k < buf.Length ==> buf[k] == old(buf[k])
    {
      Powers();
      PutByte(tag);
      if width == 1 {
        PutByte(v as byte);
        assert Be(v, 1) == Be(v / 256, 0) + [v as byte];
      } else if width == 2 {
        PutU16(v);
      } else if width == 4 {
        PutU32(v);
      } else {
        PutU64(v);
      }
    }

    method PackUint(v: nat)
      requires Valid() && v <= U64
      modifies this, buf
      ensures Valid() && full == old(full) + EncodeUint(v)
      ensures forall k :: 0 <= k < base || base + cap <= k < buf.Length ==> buf[k] == old(buf[k])
    {
      hide Tagged, Be;
      Powers();
      if v <= 0x7f {
        PutByte(v as byte);
      } else if v <= 0xff {
        PutTagged(0xcc, v, 1);
      } else if v <= 0xffff {
        PutTagged(0xcd, v, 2);
      } else if v <= 0xffff_ffff {
        PutTagged(0xce, v, 4);
      } else {
        PutTagged(0xcf, v, 8);
      }
    }

    /** Negative values are written as their two's complement bit patterns. */
    method PackInt(v: int)
      requires Valid() && IsInteger(v)
      modifies this, buf
      ensures Valid() && full == old(full) + EncodeInt(v)
      ensures forall k :: 0 <= k < base || base + cap <= k < buf.Length ==> buf[k] == old(buf[k])
    {
      hide Tagged, Be, EncodeUint;
      Powers();
      if v >= 0 {
        PackUint(v);
      } else if v >= -32 {
        PutByte((v + 0x100) as byte);
      } else if v >= -128 {
        PutTagged(0xd0, v + 0x100, 1);
      } else if v >= -32768 {
        PutTagged(0xd1, v + 0x1_0000, 2);
      } else if v >= -2147483648 {
        PutTagged(0xd2, v + 0x1_0000_0000, 4);
      } else {
        PutTagged(0xd3, v + 0x1_0000_0000_0000_0000, 8);
      }
    }

    method PackDouble(bits: nat)
      requires Valid() && bits <= U64
      modifies this, buf
      ensures Valid() && full == old(full) + EncodeFloat64(bits)
      ensures forall k :: 0 <= k < base || base + cap <= k < buf.Length ==> buf[k] == old(buf[k])
    {
      Powers();
      PutTagged(0xcb, bits, 8);
    }

    method PackStr(s: seq<byte>)
      requires Valid() && |s| <= U32
      modifies this, buf
      ensures Valid() && full == old(full) + EncodeStr(s)
      ensures forall k :: 0 <= k < base || base + cap <= k < buf.Length ==> buf[k] == old(buf[k])
    {
      hide Tagged, Be;
      Powers();
      var len := |s|;
      if len < 32 {
        PutByte((0xa0 + len) as byte);
      } else if len < 256 {
        PutTagged(0xd9, len, 1);
      } else if len < 65536 {
        PutTagged(0xda, len, 2);
      } else {
        PutTagged(0xdb, len, 4);
      }
      PutBytes(s);
    }

    method PackBin(s: seq<byte>)
      requires Valid() && |s| <= U32
      modifies this, buf
      ensures Valid() && full == old(full) + EncodeBin(s)
      ensures forall k :: 0 <= k < base || base + cap <= k < buf.Length ==> buf[k] == old(buf[k])
    {
      hide Tagged, Be;
      Powers();
      var len := |s|;
      if len < 256 {
        PutTagged(0xc4, len, 1);
      } else if len < 65536 {
        PutTagged(0xc5, len, 2);
      } else {
        PutTagged(0xc6, len, 4);
      }
      PutBytes(s);
    }

    method PackArray(n: nat)
      requires Valid() && n <= U32
      modifies this, buf
      ensures Valid() && full == old(full) + ArrayHeader(n)
      ensures forall k :: 0 <= k < base || base + cap <= k < buf.Length ==> buf[k] == old(buf[k])
    {
      hide Tagged, Be;
      Powers();
      if n < 16 {
        PutByte((0x90 + n) as byte);
      } else if n < 65536 {
        PutTagged(0xdc, n, 2);
      } else {
        PutTagged(0xdd, n, 4);
      }
    }

    method PackMap(n: nat)
      requires Valid() && n <= U32
      modifies this, buf
      ensures Valid() && full == old(full) + MapHeader(n)
      ensures forall k :: 0 <= k < base || base + cap <= k < buf.Length ==> buf[k] == old(buf[k])
    {
      hide Tagged, Be;
      Powers();
      if n < 16 {
        PutByte((0x80 + n) as byte);
      } else if n < 65536 {
        PutTagged(0xde, n, 2);
      } else {
        PutTagged(0xdf, n, 4);
      }
    }
  }

  // --- Reader ------------------------------------------------------------

  datatype Type =
    | NilType | BooleanType | IntType | UintType | FloatType | StrType | BinType | ArrayType | MapType
    | ExtType | InvalidType

  /** Classification of a format byte. */
  function TypeOf(b: byte): Type {
    if b <= 0x7f then UintType
    else if b >= 0xe0 then IntType
    else if b <= 0x8f then MapType
    else if b <= 0x9f then ArrayType
    else if b <= 0xbf then StrType
    else if b == 0xc0 then NilType
    else if b == 0xc2 || b == 0xc3 then BooleanType
    else if 0xc4 <= b <= 0xc6 then BinType
    else if 0xc7 <= b <= 0xc9 || 0xd4 <= b <= 0xd8 then ExtType
    else if b == 0xca || b == 0xcb then FloatType
    else if 0xcc <= b <= 0xcf then UintType
    else if 0xd0 <= b <= 0xd3 then IntType
    else if 0xd9 <= b <= 0xdb then StrType
    else if b == 0xdc || b == 0xdd then ArrayType
    else if b == 0xde || b == 0xdf then MapType
    else InvalidType
  }

  /**
   The classification says which read accepts the object, given enough bytes, with a number's
   sign told by its format; what no read accepts is an extension, or the reserved byte.
   */
  lemma TypeTellsRead(s: seq<byte>)
    requires |s| >= 9
    ensures var t, b := TypeOf(s[0]), s[0];
      (t == NilType <==> b == 0xc0) && (t == BooleanType <==> b == 0xc2 || b == 0xc3) &&
      (t in {UintType, IntType} <==> ReadInt(s).Some?) &&
      (t == UintType ==> ReadInt(s).value.value >= 0) && (t == IntType <==> b >= 0xe0 || 0xd0 <= b <= 0xd3) &&
      (t == FloatType <==> b == 0xca || b == 0xcb) &&
      (t == StrType <==> ReadStrHeader(s).Some?) && (t == BinType <==> ReadBinHeader(s).Some?) &&
      (t == ArrayType <==> ReadArrayHeader(s).Some?) && (t == MapType <==> ReadMapHeader(s).Some?) &&
      (t == InvalidType <==> b == 0xc1) && (HeadOf(s).None? <==> t == InvalidType)
  {
    hide FromBe;
  }

  /** What a read into a floating-point variable found; integers are converted by the platform. */
  datatype FloatSource = Single(bits: nat) | Double(bits: nat) | Integer(value: int)

  function ReadFloat(s: seq<byte>): Option<(FloatSource, nat)> {
    if s != [] && s[0] == 0xca then
      var r := After(s, 4);
      if r.None? then None else Some((Single(r.value.value), 5))
    else if s != [] && s[0] == 0xcb then
      var r := After(s, 8);
      if r.None? then None else Some((Double(r.value.value), 9))
    else
      var r := ReadInt(s);
      if r.None? then None else Some((Integer(r.value.value), r.value.size))
  }

  /** A floating-point read takes either width of float, and integers of any format. */
  lemma FloatReads(bits: nat, v: int, rest: seq<byte>)
    ensures bits <= U32 ==> ReadFloat(Tagged(0xca, bits, 4) + rest) == Some((Single(bits), 5))
    ensures bits <= U64 ==> ReadFloat(EncodeFloat64(bits) + rest) == Some((Double(bits), 9))
    ensures IsInteger(v) ==> ReadFloat(EncodeInt(v) + rest) == Some((Integer(v), |EncodeInt(v)|))
  {
    hide After, ReadInt, Be;
    Powers();
    if bits <= U32 {
      AfterTagged(0xca, bits, 4, rest);
    }
    if bits <= U64 {
      AfterTagged(0xcb, bits, 8, rest);
    }
    if IsInteger(v) {
      ReadsInt(v, rest);
    }
  }

  class Reader {
    const buf: array<byte>
    const size: nat
    var pos: nat
    var error: bool

    ghost predicate Valid()
      reads this
    {
      size <= buf.Length && pos <= size
    }

    /** Bytes not yet consumed. */
    ghost function Left(): seq<byte>
      requires Valid()
      reads this, buf
    {
      buf[pos..size]
    }

    constructor (buf: array<byte>, size: nat)
      requires size <= buf.Length
      ensures Valid() && pos == 0 && !error && this.buf == buf && this.size == size
    {
      this.buf, this.size, pos, error := buf, size, 0, false;
    }

    function Remaining(): nat
      requires Valid()
      reads this
    {
      size - pos
    }

    /** A failed read leaves the cursor where it started and sets the sticky flag. */
    twostate predicate Failed()
      reads this
    {
      pos == old(pos) && error
    }

    twostate predicate Consumed(n: nat)
      reads this
    {
      pos == old(pos) + n && error == old(error)
    }

    /** Once the flag is set, only the classification and `skip` look at it. */
    method NextType() returns (t: Type)
      requires Valid()
      ensures t == if error || Left() == [] then InvalidType else TypeOf(Left()[0])
    {
      if error || Remaining() == 0 {
        return InvalidType;
      }
      return TypeOf(buf[pos]);
    }

    method Fail(saved: nat)
      requires saved <= size
      modifies this
      ensures pos == saved && error
    {
      error := true;
      pos := saved;
    }

    method GetByte() returns (ok: bool, b: byte)
      requires Valid()
      modifies this
      ensures Valid() && ok == (old(Left()) != [])
      ensures if ok then Consumed(1) && b == old(Left())[0] else Failed()
    {
      if Remaining() == 0 {
        error := true;
        return false, 0;
      }
      b := buf[pos];
      pos := pos + 1;
      return true, b;
    }

    /**
     A big-endian number of `width` bytes at the cursor. Eight bytes are read as two halves, so a
     failure may leave the cursor between them; every caller puts it back.
     */
    method GetNumber(width: nat) returns (ok: bool, v: nat)
      requires Valid()
      modifies this
      ensures Valid() && ok == (|old(Left())| >= width)
      ensures if ok then Consumed(width) && v == FromBe(old(Left())[..width])
        else error && pos == old(pos) + if width == 8 && |old(Left())| >= 4 then 4 else 0
    {
      hide FromBe;
      if width != 8 {
        ok, v := GetBytes(width);
        return;
      }
      ghost var s := Left();
      var low;
      ok, v := GetBytes(4);
      if ok {
        assert Left() == s[4..];
        assert |s| >= 8 ==> Left()[..4] == s[4..8];
        ok, low := GetBytes(4);
        if ok {
          assert s[..4] + s[4..8] == s[..8];
          FromBeConcat(s[..4], s[4..8]);
          Powers();
          v := v * 0x1_0000_0000 + low;
        }
      }
    }

    /** At most four bytes as one big-endian number, or nothing. */
    method GetBytes(width: nat) returns (ok: bool, v: nat)
      requires Valid()
      modifies this
      ensures Valid() && ok == (|old(Left())| >= width)
      ensures if ok then Consumed(width) && v == FromBe(old(Left())[..width]) else Failed()
    {
      if Remaining() < width {
        error := true;
        return false, 0;
      }
      ghost var s := Left();
      v := 0;
      var i := 0;
      while i < width
        invariant i <= width && v == FromBe(s[..i])
      {
        assert s[..i + 1][..i] == s[..i];
        v := v * 256 + buf[pos + i] as int;
        i := i + 1;
      }
      pos := pos + width;
      return true, v;
    }

    method ReadNil()
      requires Valid()
      modifies this
      ensures Valid() && if old(Left()) != [] && old(Left())[0] == 0xc0 then Consumed(1) else Failed()
    {
      var saved := pos;
      var ok, b := GetByte();
      if !ok || b != 0xc0 {
        Fail(saved);
      }
    }

    method ReadBool(out: bool) returns (r: bool)
      requires Valid()
      modifies this
      ensures Valid()
      ensures if old(Left()) != [] && (old(Left())[0] == 0xc2 || old(Left())[0] == 0xc3)
        then Consumed(1) && r == (old(Left())[0] == 0xc3) else Failed() && r == out
    {
      var saved := pos;
      var ok, b := GetByte();
      if !ok {
        Fail(saved);
        return out;
      }
      if b == 0xc3 {
        return true;
      }
      if b == 0xc2 {
        return false;
      }
      Fail(saved);
      return out;
    }

    static function WithSign(magnitude: int, negative: bool): int {
      if negative then -magnitude else magnitude
    }

    /** Any integer format as a magnitude and a sign. */
    method ReadRawMagnitude() returns (ok: bool, magnitude: nat, negative: bool)
      requires Valid()
      modifies this
      ensures Valid()
      ensures var r := ReadInt(old(Left()));
        ok == r.Some? && (!ok ==> Failed()) &&
        (ok ==>
           Consumed(r.value.size) && (negative ==> magnitude > 0) && r.value.value == WithSign(magnitude, negative))
    {
      hide FromBe;
      ghost var s := Left();
      var saved := pos;
      var b: byte;
      ok, b := GetByte();
      if !ok {
        Fail(saved);
        return false, 0, false;
      }
      if b <= 0x7f {
        return true, b as int, false;
      }
      if b >= 0xe0 {
        return true, 0x100 - b as int, true;
      }
      if !(0xcc <= b <= 0xd3) {
        Fail(saved);
        return false, 0, false;
      }
      var width := if b == 0xcc || b == 0xd0 then 1 else if b == 0xcd || b == 0xd1 then 2
        else if b == 0xce || b == 0xd2 then 4 else 8;
      assert Left() == s[1..];
      assert |s| > width ==> s[1..][..width] == s[1..width + 1];
      var v: nat;
      ok, v := GetNumber(width);
      if !ok {
        Fail(saved);
        return false, 0, false;
      }
      if b <= 0xcf {
        return true, v, false;
      }
      // the value as a signed integer of `width` bytes, negated without overflow
      FromBeBound(s[1..width + 1]);
      Powers();
      var modulus := if width == 1 then 0x100 else if width == 2 then 0x1_0000
        else if width == 4 then 0x1_0000_0000 else 0x1_0000_0000_0000_0000;
      if v >= modulus / 2 {
        return true, modulus - v, true;
      }
      return true, v, false;
    }

    method ReadSigned(out: int, max: int) returns (r: int)
      requires Valid() && max >= 0
      modifies this
      ensures Valid()
      ensures var i := ReadIn(old(Left()), -max - 1, max);
        if i.Some? then Consumed(i.value.size) && r == i.value.value else Failed() && r == out
    {
      hide ReadInt;
      var saved := pos;
      var ok, mag, neg := ReadRawMagnitude();
      if !ok {
        return out;
      }
      if !neg {
        if mag > max {
          Fail(saved);
          return out;
        }
        return mag;
      }
      if mag > max + 1 {
        Fail(saved);
        return out;
      }
      return if mag == max + 1 then -max - 1 else WithSign(mag, true);
    }

    method ReadUnsigned(out: nat, max: nat) returns (r: nat)
      requires Valid()
      modifies this
      ensures Valid()
      ensures var i := ReadIn(old(Left()), 0, max);
        if i.Some? then Consumed(i.value.size) && r == i.value.value else Failed() && r == out
    {
      hide ReadInt;
      var saved := pos;
      var ok, mag, neg := ReadRawMagnitude();
      if !ok {
        return out;
      }
      if neg || mag > max {
        Fail(saved);
        return out;
      }
      return mag;
    }

    method ReadFloating() returns (ok: bool, r: FloatSource)
      requires Valid()
      modifies this
      ensures Valid()
      ensures var f := ReadFloat(old(Left()));
        ok == f.Some? && if ok then Consumed(f.value.1) && r == f.value.0 else Failed()
    {
      hide ReadInt, FromBe;
      ghost var s := Left();
      var saved := pos;
      if Remaining() == 0 {
        Fail(saved);
        return false, Integer(0);
      }
      var b := buf[pos];
      if b == 0xca || b == 0xcb {
        var width := if b == 0xca then 4 else 8;
        pos := pos + 1;
        assert Left() == s[1..];
        assert |s| > width ==> s[1..][..width] == s[1..width + 1];
        var v: nat;
        ok, v := GetNumber(width);
        if !ok {
          Fail(saved);
          return false, Integer(0);
        }
        return true, if b == 0xca then Single(v) else Double(v);
      }
      var mag, neg;
      ok, mag, neg := ReadRawMagnitude();
      return ok, Integer(WithSign(mag, neg));
    }

    /** A header that is either a fix format or a length of 1, 2 or 4 bytes. */
    method ReadHeader(kind: Type) returns (ok: bool, n: nat)
      requires Valid() && (kind == StrType || kind == BinType || kind == ArrayType || kind == MapType)
      modifies this
      ensures Valid()
      ensures var h := HeaderOf(old(Left()), kind);
        ok == h.Some? && if ok then Consumed(h.value.size) && n == h.value.value else Failed()
    {
      hide FromBe;
      ghost var s := Left();
      var saved := pos;
      var b: byte;
      ok, b := GetByte();
      if !ok {
        Fail(saved);
        return false, 0;
      }
      if kind == StrType && 0xa0 <= b <= 0xbf {
        return true, b as int - 0xa0;
      }
      if kind == ArrayType && 0x90 <= b <= 0x9f {
        return true, b as int - 0x90;
      }
      if kind == MapType && 0x80 <= b <= 0x8f {
        return true, b as int - 0x80;
      }
      var width := HeaderWidth(kind, b);
      if width == 0 {
        Fail(saved);
        return false, 0;
      }
      assert Left() == s[1..];
      assert |s| > width ==> s[1..][..width] == s[1..width + 1];
      ok, n := GetNumber(width);
      if !ok {
        Fail(saved);
      }
    }

    function HeaderWidth(kind: Type, b: byte): nat {
      match kind
      case StrType => if b == 0xd9 then 1 else if b == 0xda then 2 else if b == 0xdb then 4 else 0
      case BinType => if b == 0xc4 then 1 else if b == 0xc5 then 2 else if b == 0xc6 then 4 else 0
      case ArrayType => if b == 0xdc then 2 else if b == 0xdd then 4 else 0
      case _ => if b == 0xde then 2 else if b == 0xdf then 4 else 0
    }

    function HeaderOf(s: seq<byte>, kind: Type): Option<Read> {
      match kind
      case StrType => ReadStrHeader(s)
      case BinType => ReadBinHeader(s)
      case ArrayType => ReadArrayHeader(s)
      case _ => ReadMapHeader(s)
    }

    method ReadArray(out: nat) returns (n: nat)
      requires Valid()
      modifies this
      ensures Valid()
      ensures var h := ReadArrayHeader(old(Left()));
        if h.Some? then Consumed(h.value.size) && n == h.value.value else Failed() && n == out
    {
      var ok;
      ok, n := ReadHeader(ArrayType);
      if !ok {
        n := out;
      }
    }

    method ReadMap(out: nat) returns (n: nat)
      requires Valid()
      modifies this
      ensures Valid()
      ensures var h := ReadMapHeader(old(Left()));
        if h.Some? then Consumed(h.value.size) && n == h.value.value else Failed() && n == out
    {
      var ok;
      ok, n := ReadHeader(MapType);
      if !ok {
        n := out;
      }
    }

    /** Zero-copy read of a string or binary object: where its bytes are in the buffer. */
    method ReadChunk(kind: Type) returns (ok: bool, at: nat, len: nat)
      requires Valid() && (kind == StrType || kind == BinType)
      modifies this
      ensures Valid()
      ensures var c := Contents(old(Left()), HeaderOf(old(Left()), kind));
        ok == c.Some? &&
        if ok then Consumed(c.value.size) && at + len <= size && buf[at..at + len] == c.value.bytes else Failed()
    {
      hide ReadStrHeader, ReadBinHeader;
      ghost var s := Left();
      var saved := pos;
      ok, len := ReadHeader(kind);
      if !ok {
        return false, 0, 0;
      }
      if Remaining() < len {
        Fail(saved);
        return false, 0, 0;
      }
      at := pos;
      pos := pos + len;
      SliceInBuffer(s, saved, at, len);
      return true, at, len;
    }

    /**
     Copying read of a string: the bytes and a NUL go to `dst`, or nothing does. It is refused
     when string and NUL do not fit `cap` bytes.
     */
    method ReadStrCopy(dst: array<byte>, cap: nat)
      requires Valid() && cap <= dst.Length && dst != buf
      modifies this, dst
      ensures Valid()
      ensures var c := ReadStr(old(Left()));
        if c.Some? && |c.value.bytes| < cap then
          Consumed(c.value.size) && dst[..|c.value.bytes|] == c.value.bytes && dst[|c.value.bytes|] == 0 &&
          (forall k :: |c.value.bytes| < k < dst.Length ==> dst[k] == old(dst[k]))
        else Failed() && dst[..] == old(dst[..])
    {
      hide ReadStrHeader;
      ghost var s := Left();
      var saved := pos;
      var ok, n := ReadHeader(StrType);
      if !ok {
        return;
      }
      if cap == 0 || n >= cap {
        Fail(saved);
        return;
      }
      if Remaining() < n {
        Fail(saved);
        return;
      }
      SliceInBuffer(s, saved, pos, n);
      ghost var text := buf[pos..pos + n];
      forall k | 0 <= k < n {
        dst[k] := buf[pos + k];
      }
      assert dst[..n] == text;
      dst[n] := 0;
      assert dst[..n] == text;
      pos := pos + n;
    }

    lemma SliceInBuffer(s: seq<byte>, saved: nat, at: nat, len: nat)
      requires saved <= at && at + len <= size <= buf.Length && s == buf[saved..size]
      ensures buf[at..at + len] == s[at - saved..at - saved + len]
    {
      var chunk, part := buf[at..at + len], s[at - saved..at - saved + len];
      assert forall k :: 0 <= k < len ==> chunk[k] == part[k];
    }

    // --- skip ------------------------------------------------------------

    method SkipFixed(n: nat) returns (ok: bool)
      requires Valid()
      modifies this
      ensures Valid() && ok == (n <= |old(Left())|)
      ensures if ok then Consumed(n) else pos == old(pos) && error == old(error)
    {
      if Remaining() < n {
        return false;
      }
      pos := pos + n;
      return true;
    }

    /** The big-endian length after the format byte, without moving the cursor. */
    method LengthAt(width: nat) returns (ok: bool, n: nat)
      requires Valid() && Left() != []
      ensures var r := After(Left(), width);
        ok == r.Some? && (ok ==> n == r.value.value)
    {
      if Remaining() < width + 1 {
        return false, 0;
      }
      ghost var s := Left()[1..width + 1];
      n := 0;
      var i := 0;
      while i < width
        invariant i <= width && n == FromBe(s[..i])
      {
        assert s[..i + 1][..i] == s[..i];
        n := n * 256 + buf[pos + 1 + i] as int;
        i := i + 1;
      }
      assert s[..width] == s;
      return true, n;
    }

    /** The flat part of an object has been passed and its children counted, or nothing has moved. */
    twostate predicate PassedFlat(ok: bool, children: nat)
      requires old(Valid())
      reads this, buf
    {
      var h := HeadOf(old(Left()));
      ok == (h.Some? && h.value.size <= |old(Left())|) &&
      if ok then Consumed(h.value.size) && children == h.value.children else pos == old(pos) && error == old(error)
    }

    /** One pass of the skip loop: moves over the flat part of an object and counts its children. */
    method SkipFlat() returns (ok: bool, children: nat)
      requires Valid() && Left() != []
      modifies this
      ensures Valid() && PassedFlat(ok, children)
    {
      hide HeadOf;
      var b := buf[pos];
      if b <= 0xc3 || b >= 0xe0 {
        ok, children := SkipFix(b);
      } else if 0xdc <= b <= 0xdf {
        ok, children := SkipContainer(b);
      } else if 0xc4 <= b <= 0xc9 || 0xd9 <= b <= 0xdb {
        ok, children := SkipSized(b);
      } else {
        ok, children := SkipScalar(b);
      }
    }

    /** Formats whose one byte says everything. */
    method SkipFix(b: byte) returns (ok: bool, children: nat)
      requires Valid() && Left() != [] && b == Left()[0] && (b <= 0xc3 || b >= 0xe0)
      modifies this
      ensures Valid() && PassedFlat(ok, children)
    {
      hide FromBe, After;
      children := 0;
      if b <= 0x7f || b >= 0xe0 || b == 0xc0 || b == 0xc2 || b == 0xc3 {
        ok := SkipFixed(1);
      } else if b <= 0x8f {
        children := 2 * (b as int - 0x80);
        ok := SkipFixed(1);
      } else if b <= 0x9f {
        children := b as int - 0x90;
        ok := SkipFixed(1);
      } else if b <= 0xbf {
        ok := SkipFixed(1 + (b as int - 0xa0));
      } else {
        ok := false;
      }
    }

    /** Numbers, and extensions of fixed size. */
    method SkipScalar(b: byte) returns (ok: bool, children: nat)
      requires Valid() && Left() != [] && b == Left()[0] && (0xca <= b <= 0xd8)
      modifies this
      ensures Valid() && PassedFlat(ok, children)
    {
      hide FromBe, After;
      children := 0;
      if b == 0xcc || b == 0xd0 {
        ok := SkipFixed(2);
      } else if b == 0xcd || b == 0xd1 {
        ok := SkipFixed(3);
      } else if b == 0xce || b == 0xd2 || b == 0xca {
        ok := SkipFixed(5);
      } else if b == 0xcf || b == 0xd3 || b == 0xcb {
        ok := SkipFixed(9);
      } else {
        ok := SkipFixed(2 + [1, 2, 4, 8, 16][b as int - 0xd4]);
      }
    }

    /** Arrays and maps with a count of two or four bytes. */
    method SkipContainer(b: byte) returns (ok: bool, children: nat)
      requires Valid() && Left() != [] && b == Left()[0] && 0xdc <= b <= 0xdf
      modifies this
      ensures Valid() && PassedFlat(ok, children)
    {
      hide FromBe;
      var n;
      children := 0;
      var width := if b == 0xdc || b == 0xde then 2 else 4;
      ok, n := LengthAt(width);
      if ok {
        children := if b == 0xdc || b == 0xdd then n else 2 * n;
        ok := SkipFixed(width + 1);
      }
    }

    /** Strings, blobs and extensions with a length of their own. */
    method SkipSized(b: byte) returns (ok: bool, children: nat)
      requires Valid() && Left() != [] && b == Left()[0] && (0xc4 <= b <= 0xc9 || 0xd9 <= b <= 0xdb)
      modifies this
      ensures Valid() && PassedFlat(ok, children)
    {
      hide FromBe;
      var n;
      children := 0;
      var width := if b == 0xd9 || b == 0xc4 || b == 0xc7 then 1 else if b == 0xda || b == 0xc5 || b == 0xc8 then 2
        else 4;
      ok, n := LengthAt(width);
      if ok {
        ok := SkipFixed((if 0xc7 <= b <= 0xc9 then 2 else 1) + width + n);
      }
    }

    /** Skips one object with a 64-bit counter of objects still owed, which wraps, instead of recursion. */
    method Skip()
      requires Valid()
      modifies this
      ensures Valid()
      ensures var n := Scan(old(Left()), 1);
        if old(error) then pos == old(pos) && error
        else if n.Some? then Consumed(n.value) else Failed()
    {
      hide HeadOf, Scan, Owing;
      if error {
        return;
      }
      ghost var s := Left();
      var saved := pos;
      var owed: nat := 1;
      LaterNow(Scan(s, 1));
      while owed > 0
        invariant Valid() && !error && saved <= pos && Scan(s, 1) == Later(pos - saved, Scan(Left(), owed))
        decreases size - pos
      {
        ghost var left := Left();
        ScanStep(pos - saved, left, owed);
        if Remaining() == 0 {
          Fail(saved);
          return;
        }
        var ok, children := SkipFlat();
        if !ok {
          Fail(saved);
          return;
        }
        assert Left() == left[HeadOf(left).value.size..];
        OwingTwice(owed, children);
        owed := (owed + children) % 0x1_0000_0000_0000_0000;
        owed := (owed + 0xffff_ffff_ffff_ffff) % 0x1_0000_0000_0000_0000;
      }
      LaterDone(pos - saved, Left());
    }

    /** Any typed read: it consumes what it reads and stores it, or fails in place and stores nothing. */
    method ReadInto(v: Variable) returns (after: Variable)
      requires Valid()
      modifies this
      ensures Valid()
      ensures var r := Reads(old(Left()), v);
        if r.Some? then Consumed(r.value.1) && after == r.value.0 else Failed() && after == v
    {
      hide ReadInt, ReadStrHeader, ReadBinHeader, ReadArrayHeader, ReadMapHeader;
      after := v;
      match v {
        case NilVar =>
          ReadNil();
        case BoolVar(was) =>
          var b := ReadBool(was);
          after := BoolVar(b);
        case SignedVar(max, was) =>
          var i := ReadSigned(was, max);
          after := SignedVar(max, i);
        case UnsignedVar(max, was) =>
          var u := ReadUnsigned(was, max);
          after := UnsignedVar(max, u);
        case FloatVar(_) =>
          var ok, f := ReadFloating();
          if ok {
            after := FloatVar(f);
          }
        case StrVar(_) =>
          var ok, at, len := ReadChunk(StrType);
          if ok {
            after := StrVar(buf[at..at + len]);
          }
        case BinVar(_) =>
          var ok, at, len := ReadChunk(BinType);
          if ok {
            after := BinVar(buf[at..at + len]);
          }
        case ArrayVar(was) =>
          var n := ReadArray(was);
          after := ArrayVar(n);
        case MapVar(was) =>
          var n := ReadMap(was);
          after := MapVar(n);
      }
    }
  }

  /** An output variable of one of the reads, and what it holds. */
  datatype Variable =
    | NilVar | BoolVar(b: bool) | SignedVar(max: nat, i: int) | UnsignedVar(max: nat, u: nat) | FloatVar(f: FloatSource)
    | StrVar(text: seq<byte>) | BinVar(blob: seq<byte>) | ArrayVar(n: nat) | MapVar(n: nat)

  /**
   What a read into the variable makes of it, and how many bytes it takes from the start of
   `s`; None when they do not form what it asks for.
   */
  function Reads(s: seq<byte>, v: Variable): (r: Option<(Variable, nat)>)
    ensures r.Some? ==> r.value.1 >= 1
  {
    match v
    case NilVar => if s != [] && s[0] == 0xc0 then Some((NilVar, 1)) else None
    case BoolVar(_) => if s != [] && (s[0] == 0xc2 || s[0] == 0xc3) then Some((BoolVar(s[0] == 0xc3), 1)) else None
    case SignedVar(max, _) =>
      var r := ReadIn(s, -1 - max, max);
      if r.None? then None else Some((SignedVar(max, r.value.value), r.value.size))
    case UnsignedVar(max, _) =>
      var r := ReadIn(s, 0, max);
      if r.None? then None else Some((UnsignedVar(max, r.value.value), r.value.size))
    case FloatVar(_) =>
      var r := ReadFloat(s);
      if r.None? then None else Some((FloatVar(r.value.0), r.value.1))
    case StrVar(_) =>
      var r := ReadStr(s);
      if r.None? then None else Some((StrVar(r.value.bytes), r.value.size))
    case BinVar(_) =>
      var r := ReadBin(s);
      if r.None? then None else Some((BinVar(r.value.bytes), r.value.size))
    case ArrayVar(_) =>
      var r := ReadArrayHeader(s);
      if r.None? then None else Some((ArrayVar(r.value.value), r.value.size))
    case MapVar(_) =>
      var r := ReadMapHeader(s);
      if r.None? then None else Some((MapVar(r.value.value), r.value.size))
  }

  /** What a read stores is what was written, whatever the variable held before. */
  lemma ReadsGive(v: int, b: bool, t: seq<byte>, n: nat, rest: seq<byte>)
    ensures Reads(NIL + rest, NilVar) == Some((NilVar, 1))
    ensures rest != [] && rest[0] != 0xc0 ==> Reads(rest, NilVar) == None
    ensures forall was :: Reads(EncodeBool(b) + rest, BoolVar(was)) == Some((BoolVar(b), 1))
    ensures forall was :: rest != [] && rest[0] !in {0xc2, 0xc3} ==> Reads(rest, BoolVar(was)) == None
    ensures forall max: nat, was :: IsInteger(v) ==>
      Reads(EncodeInt(v) + rest, SignedVar(max, was)) ==
        if -1 - max <= v <= max then Some((SignedVar(max, v), |EncodeInt(v)|)) else None
    ensures forall max: nat, was :: IsInteger(v) ==>
      Reads(EncodeInt(v) + rest, UnsignedVar(max, was)) ==
        if 0 <= v <= max then Some((UnsignedVar(max, v), |EncodeInt(v)|)) else None
    ensures forall was :: n <= U64 ==>
      Reads(EncodeFloat64(n) + rest, FloatVar(was)) == Some((FloatVar(Double(n)), 9))
    ensures forall was :: |t| <= U32 ==>
      Reads(EncodeStr(t) + rest, StrVar(was)) == Some((StrVar(t), |EncodeStr(t)|))
    ensures forall was :: |t| <= U32 ==>
      Reads(EncodeBin(t) + rest, BinVar(was)) == Some((BinVar(t), |EncodeBin(t)|))
    ensures forall was :: n <= U32 ==>
      Reads(ArrayHeader(n) + rest, ArrayVar(was)) == Some((ArrayVar(n), |ArrayHeader(n)|))
    ensures forall was :: n <= U32 ==>
      Reads(MapHeader(n) + rest, MapVar(was)) == Some((MapVar(n), |MapHeader(n)|))
  {
    hide EncodeInt, EncodeStr, EncodeBin, ArrayHeader, MapHeader, EncodeFloat64, ReadFloat, ReadInt, ReadStrHeader,
      ReadBinHeader, ReadArrayHeader, ReadMapHeader;
    FloatReads(n, v, rest);
    if IsInteger(v) {
      ReadsInt(v, rest);
    }
    if |t| <= U32 {
      ReadsStr(t, rest);
      ReadsBin(t, rest);
    }
    if n <= U32 {
      ReadsArrayHeader(n, rest);
      ReadsMapHeader(n, rest);
    }
  }

  /**
   After an error a read of any kind is a no-op exactly when the bytes at the cursor do not
   form what it asks for; otherwise it moves the cursor and stores the value. The flag stays
   set either way.
   */
  method ReadAfterError(buf: array<byte>, size: nat, at: nat, v: Variable)
    returns (endedAt: nat, error: bool, after: Variable)
    requires at <= size <= buf.Length
    ensures error
    ensures var r := Reads(buf[at..size], v);
      if r.None? then endedAt == at && after == v else endedAt == at + r.value.1 > at && after == r.value.0
  {
    hide Reads;
    var r := new Reader(buf, size);
    r.pos, r.error := at, true;
    after := r.ReadInto(v);
    return r.pos, r.error, after;
  }

  /**
   A read after a failure is not a no-op: over the single byte 0xc0 an integer read fails in
   place, and the nil read that follows still consumes the byte, with the flag left set.
   */
  method ReadsGoOnAfterError() returns (failedAt: nat, endedAt: nat, error: bool)
    ensures failedAt == 0 && endedAt == 1 && error
  {
    hide FromBe;
    var buf := new byte[1](_ => 0xc0);
    var r := new Reader(buf, 1);
    assert r.Left() == [0xc0];
    var i := r.ReadSigned(0, 0x7f);
    failedAt := r.pos;
    assert r.Left() == [0xc0];
    r.ReadNil();
    return failedAt, r.pos, r.error;
  }
}
