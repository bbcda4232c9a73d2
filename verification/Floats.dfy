/** Float bit patterns: widening binary32 to binary64, and the truncating way back of msgpack_lite.h. */
module Floats {
  const TWO_23: nat := 0x80_0000
  const TWO_29: nat := 0x2000_0000
  const TWO_31: nat := 0x8000_0000
  const TWO_52: nat := 0x10_0000_0000_0000
  const TWO_63: nat := 0x8000_0000_0000_0000

  function Pow2(k: nat): (p: nat)
    ensures p >= 1
  {
    if k == 0 then 1 else 2 * Pow2(k - 1)
  }

  // --- fields ------------------------------------------------------------

  /** Sign, biased exponent and mantissa of a pattern. */
  datatype Fields = Fields(sign: nat, exponent: nat, mantissa: nat)

  predicate Is32(f: Fields) {
    f.sign < 2 && f.exponent < 0x100 && f.mantissa < TWO_23
  }

  predicate Is64(f: Fields) {
    f.sign < 2 && f.exponent < 0x800 && f.mantissa < TWO_52
  }

  function Fields32(bits: nat): (f: Fields)
    requires bits < 2 * TWO_31
    ensures Is32(f)
  {
    Fields(bits / TWO_31, bits / TWO_23 % 0x100, bits % TWO_23)
  }

  function Fields64(bits: nat): (f: Fields)
    requires bits < 2 * TWO_63
    ensures Is64(f)
  {
    Fields(bits / TWO_63, bits / TWO_52 % 0x800, bits % TWO_52)
  }

  function Bits32(f: Fields): (bits: nat)
    requires Is32(f)
    ensures bits < 2 * TWO_31
  {
    f.sign * TWO_31 + f.exponent * TWO_23 + f.mantissa
  }

  function Bits64(f: Fields): (bits: nat)
    requires Is64(f)
    ensures bits < 2 * TWO_63
  {
    f.sign * TWO_63 + f.exponent * TWO_52 + f.mantissa
  }

  lemma FieldsOfBits64(f: Fields)
    requires Is64(f)
    ensures Fields64(Bits64(f)) == f
  {
    var bits := Bits64(f);
    assert bits / TWO_52 == f.sign * 0x800 + f.exponent;
  }

  lemma FieldsOfBits32(f: Fields)
    requires Is32(f)
    ensures Fields32(Bits32(f)) == f
  {
    var bits := Bits32(f);
    assert bits / TWO_23 == f.sign * 0x100 + f.exponent;
  }

  lemma BitsOfFields32(bits: nat)
    requires bits < 2 * TWO_31
    ensures Bits32(Fields32(bits)) == bits
  {
    var q := bits / TWO_23;
    assert bits == q * TWO_23 + bits % TWO_23;
    assert q / 0x100 == bits / TWO_31;
  }

  // --- what a finite pattern stands for ----------------------------------

  /** Magnitude in units of 2^-1074. */
  function Size32(f: Fields): nat
    requires Is32(f)
  {
    if f.exponent == 0 then f.mantissa * Pow2(925) else (f.mantissa + TWO_23) * Pow2(f.exponent + 924)
  }

  function Size64(f: Fields): nat
    requires Is64(f)
  {
    if f.exponent == 0 then f.mantissa else (f.mantissa + TWO_52) * Pow2(f.exponent - 1)
  }

  lemma Pow2Add29(k: nat)
    ensures Pow2(k + 29) == TWO_29 * Pow2(k)
  {
    Pow2Add8(k);
    Pow2Add8(k + 8);
    Pow2Add8(k + 16);
    assert Pow2(k + 29) == 2 * Pow2(k + 28) == 4 * Pow2(k + 27) == 8 * Pow2(k + 26);
    assert Pow2(k + 26) == 2 * Pow2(k + 25) == 4 * Pow2(k + 24);
  }

  lemma Pow2Add8(k: nat)
    ensures Pow2(k + 8) == 0x100 * Pow2(k)
  {
    assert Pow2(k + 8) == 2 * Pow2(k + 7) == 4 * Pow2(k + 6) == 8 * Pow2(k + 5);
    assert Pow2(k + 5) == 2 * Pow2(k + 4) == 4 * Pow2(k + 3) == 8 * Pow2(k + 2);
  }

  // --- widening ----------------------------------------------------------

  function WidenFields(f: Fields): (r: Fields)
    requires Is32(f)
    ensures Is64(r)
  {
    if f.exponent == 0xff then Fields(f.sign, 0x7ff, f.mantissa * TWO_29)
    else if f.exponent != 0 then Fields(f.sign, f.exponent + 896, f.mantissa * TWO_29)
    else if f.mantissa == 0 then Fields(f.sign, 0, 0)
    else
      (SubnormalRoom(f.mantissa);
       Normalised(f.sign, f.mantissa, 897))
  }

  lemma SubnormalRoom(mantissa: nat)
    requires mantissa > 0
    ensures mantissa * Pow2(23) >= TWO_23
  {
    Pow2Add8(0);
    Pow2Add8(8);
    assert Pow2(23) == 2 * Pow2(22) == 4 * Pow2(21) == 8 * Pow2(20);
    assert Pow2(20) == 2 * Pow2(19) == 4 * Pow2(18) == 8 * Pow2(17);
  }

  /** A subnormal mantissa shifted up to its leading bit. */
  function Normalised(sign: nat, mantissa: nat, exponent: nat): (r: Fields)
    requires sign < 2 && 0 < mantissa < 2 * TWO_23 && 874 <= exponent <= 897
    requires mantissa * Pow2(exponent - 874) >= TWO_23
    ensures Is64(r)
    decreases exponent
  {
    if mantissa >= TWO_23 then Fields(sign, exponent, (mantissa - TWO_23) * TWO_29)
    else
      (Doubled(mantissa, exponent - 875);
       Normalised(sign, 2 * mantissa, exponent - 1))
  }

  /** The double a float converts to. */
  function Widen(bits: nat): (r: nat)
    requires bits < 2 * TWO_31
    ensures r < 2 * TWO_63
  {
    Bits64(WidenFields(Fields32(bits)))
  }

  lemma {:induction false} NormalisedKeepsSize(sign: nat, mantissa: nat, exponent: nat)
    requires sign < 2 && 0 < mantissa < 2 * TWO_23 && 874 <= exponent <= 897
    requires mantissa * Pow2(exponent - 874) >= TWO_23
    ensures var r := Normalised(sign, mantissa, exponent);
      r.sign == sign && 0 < r.exponent <= exponent && Size64(r) == mantissa * Pow2(exponent + 28)
    decreases exponent
  {
    assert Pow2(0) == 1;
    hide Pow2;
    if mantissa >= TWO_23 {
      LeadingBit(mantissa, exponent - 1);
    } else {
      Doubled(mantissa, exponent - 875);
      NormalisedKeepsSize(sign, 2 * mantissa, exponent - 1);
      Doubled(mantissa, exponent + 27);
    }
  }

  lemma Doubled(m: nat, k: nat)
    ensures m * Pow2(k + 1) == 2 * m * Pow2(k)
  {}

  lemma LeadingBit(mantissa: nat, k: nat)
    requires TWO_23 <= mantissa
    ensures ((mantissa - TWO_23) * TWO_29 + TWO_52) * Pow2(k) == mantissa * Pow2(k + 29)
  {
    Pow2Add29(k);
    hide Pow2;
    var p := Pow2(k);
    assert (mantissa - TWO_23) * TWO_29 + TWO_52 == mantissa * TWO_29;
    assert mantissa * TWO_29 * p == mantissa * (TWO_29 * p);
  }

  /** Widening is exact: sign and value of every finite float are kept. */
  lemma WidenExact(bits: nat)
    requires bits < 2 * TWO_31 && Fields32(bits).exponent != 0xff
    ensures var f, r := Fields32(bits), Fields64(Widen(bits));
      r.sign == f.sign && r.exponent != 0x7ff && Size64(r) == Size32(f)
  {
    hide Pow2, Normalised;
    var f := Fields32(bits);
    FieldsOfBits64(WidenFields(f));
    if f.exponent != 0 {
      LeadingBit(f.mantissa + TWO_23, f.exponent + 895);
    } else if f.mantissa != 0 {
      SubnormalRoom(f.mantissa);
      NormalisedKeepsSize(f.sign, f.mantissa, 897);
    }
  }

  // --- narrowing ---------------------------------------------------------

  function NarrowFields(f: Fields): (r: Fields)
    requires Is64(f)
    ensures Is32(r)
  {
    if f.exponent == 0x7ff then Fields(f.sign, 0xff, if f.mantissa != 0 then 0x40_0000 else 0)
    else if f.exponent == 0 then Fields(f.sign, 0, 0)
    else
      var exponent := f.exponent - 1023 + 127;
      if exponent >= 0xff then Fields(f.sign, 0xff, 0)
      else if exponent <= 0 then Fields(f.sign, 0, 0)
      else Fields(f.sign, exponent, f.mantissa / TWO_29)
  }

  function Narrow(bits: nat): (r: nat)
    requires bits < 2 * TWO_63
    ensures r < 2 * TWO_31
  {
    Bits32(NarrowFields(Fields64(bits)))
  }

  /** In range, narrowing truncates toward zero: less than one unit in the last place is lost. */
  lemma NarrowTruncates(bits: nat)
    requires bits < 2 * TWO_63 && 896 < Fields64(bits).exponent < 1151
    ensures var f, r := Fields64(bits), Fields32(Narrow(bits));
      r.sign == f.sign && 0 < r.exponent < 0xff &&
      Size32(r) <= Size64(f) < Size32(r) + Pow2(r.exponent + 924)
  {
    hide Pow2;
    var f := Fields64(bits);
    var r := NarrowFields(f);
    FieldsOfBits32(r);
    var p, low := Pow2(f.exponent - 1), f.mantissa % TWO_29;
    Pow2Add29(f.exponent - 1);
    assert r.exponent + 924 == f.exponent - 1 + 29;
    assert f.mantissa == r.mantissa * TWO_29 + low;
    assert (f.mantissa + TWO_52) * p == (r.mantissa + TWO_23) * (TWO_29 * p) + low * p by {
      assert f.mantissa + TWO_52 == (r.mantissa + TWO_23) * TWO_29 + low;
    }
    assert 0 <= low * p < TWO_29 * p by { LessTimes(low, TWO_29, p); }
  }

  /** Finite doubles below the smallest normal float become zero, those past the largest become infinite. */
  lemma NarrowOutOfRange(bits: nat)
    requires bits < 2 * TWO_63 && Fields64(bits).exponent != 0x7ff
    ensures var f, r := Fields64(bits), Fields32(Narrow(bits));
      (r == Fields(f.sign, 0, 0) <==> Size64(f) < TWO_23 * Pow2(925)) &&
      (r == Fields(f.sign, 0xff, 0) <==> Size64(f) >= TWO_23 * Pow2(1179))
  {
    var f := Fields64(bits);
    FieldsOfBits32(NarrowFields(f));
    SizeBounds(f, 896);
    SizeBounds(f, 1150);
  }

  /** The exponent alone decides which side of a power of two a double lies on. */
  lemma SizeBounds(f: Fields, e: nat)
    requires Is64(f)
    ensures Size64(f) < TWO_23 * Pow2(e + 29) <==> f.exponent <= e
  {
    Pow2Add29(e);
    hide Pow2;
    assert TWO_23 * (TWO_29 * Pow2(e)) == TWO_52 * Pow2(e);
    if f.exponent == 0 {
      LessTimes(0, TWO_52, Pow2(e));
    } else if f.exponent <= e {
      Pow2Grows(f.exponent - 1, e - 1);
      Doubled(TWO_52, e - 1);
      LessTimes(f.mantissa + TWO_52, 2 * TWO_52, Pow2(f.exponent - 1));
      AtMostTimes(Pow2(f.exponent - 1), Pow2(e - 1), 2 * TWO_52);
    } else {
      Pow2Grows(e, f.exponent - 1);
      AtMostTimes(Pow2(e), Pow2(f.exponent - 1), TWO_52);
      AtMostTimes(TWO_52, f.mantissa + TWO_52, Pow2(f.exponent - 1));
    }
  }

  lemma {:induction false} Pow2Grows(a: nat, b: nat)
    requires a <= b
    ensures Pow2(a) <= Pow2(b)
    decreases b
  {
    if a < b {
      Pow2Grows(a, b - 1);
    }
  }

  lemma AtMostTimes(a: nat, b: nat, p: nat)
    requires a <= b
    ensures a * p <= b * p
  {}

  lemma LessTimes(a: nat, b: nat, p: nat)
    requires a < b && p > 0
    ensures a * p < b * p
  {}

  /** A float survives the way through a double exactly when it is no subnormal and no unusual NaN. */
  lemma NarrowInvertsWiden(bits: nat)
    requires bits < 2 * TWO_31
    ensures var f := Fields32(bits);
      Narrow(Widen(bits)) == bits <==>
        (f.exponent == 0 ==> f.mantissa == 0) && (f.exponent == 0xff ==> f.mantissa == 0 || f.mantissa == 0x40_0000)
  {
    hide Pow2, Normalised;
    var f := Fields32(bits);
    var w := WidenFields(f);
    FieldsOfBits64(w);
    BitsOfFields32(bits);
    FieldsOfBits32(NarrowFields(w));
    if f.exponent == 0 && f.mantissa != 0 {
      SubnormalRoom(f.mantissa);
      NormalisedBelow(f.sign, f.mantissa, 897);
    }
  }

  /** No subnormal is widened into the range that narrows to a normal number with its own bits. */
  lemma NormalisedBelow(sign: nat, mantissa: nat, exponent: nat)
    requires sign < 2 && 0 < mantissa < TWO_23 && exponent == 897
    requires mantissa * Pow2(exponent - 874) >= TWO_23
    ensures Normalised(sign, mantissa, exponent).exponent <= 896
  {
    Doubled(mantissa, exponent - 875);
    NormalisedKeepsSize(sign, 2 * mantissa, exponent - 1);
  }
}
