/**
 The scalar converters of the block-float formats. A float32 is its bit pattern: sign, 8-bit exponent,
 23-bit fraction (section 3.4 of IEEE 754-2019). A datum is a sign bit above a short mantissa; its value
 is mantissa units of 2^(24 - width + shared exponent), on the scale on which a normal float is
 (2^23 + fraction) * 2^exponent. The encoder takes every nonzero float to be of that form.
 */
module BlockFloat {
  import opened Arith
  import opened Bits

  type Word = n: nat | n < 0x1_0000_0000

  datatype Format = Bfp2 | Bfp4 | Bfp8

  function ManWidth(fmt: Format): nat
  {
    match fmt
    case Bfp2 => 1
    case Bfp4 => 3
    case Bfp8 => 7
  }

  function ManShift(fmt: Format): nat { 24 - ManWidth(fmt) }
  function ManMax(fmt: Format): nat { Pow2(ManWidth(fmt)) - 1 }

  const HIDDEN_ONE := 0x80_0000

  function SignOf(x: Word): nat { x / 0x8000_0000 }
  function ExpOf(x: Word): nat { x / 0x80_0000 % 0x100 }
  function FracOf(x: Word): nat { x % 0x80_0000 }
  predicate IsZero(x: Word) { x % 0x8000_0000 == 0 }

  lemma FieldsOf(x: Word)
    ensures SignOf(x) <= 1 && ExpOf(x) < 0x100 && FracOf(x) < 0x80_0000
    ensures x == SignOf(x) * 0x8000_0000 + ExpOf(x) * 0x80_0000 + FracOf(x)
    ensures IsZero(x) <==> ExpOf(x) == 0 && FracOf(x) == 0
  {
  }

  lemma FieldsUnique(sign: nat, exp: nat, frac: nat)
    requires sign <= 1 && exp < 0x100 && frac < 0x80_0000
    ensures var x := sign * 0x8000_0000 + exp * 0x80_0000 + frac;
            x < 0x1_0000_0000 && SignOf(x) == sign && ExpOf(x) == exp && FracOf(x) == frac
  {
  }

  /** The exponent the block formats work with; the `a` formats rebias it to 5 bits and saturate. */
  function ScaledExp(x: Word, isExpA: bool): nat
  {
    if !isExpA then ExpOf(x)
    else if ExpOf(x) > 143 then 31
    else if ExpOf(x) < 112 then 0
    else ExpOf(x) - 112
  }

  /** The fraction after saturation. */
  function ScaledFrac(x: Word, isExpA: bool): nat
  {
    if !isExpA then FracOf(x)
    else if ExpOf(x) > 143 then 0x7f_ffff
    else if ExpOf(x) < 112 then 0
    else FracOf(x)
  }

  /** The magnitude of a nonzero input as the encoder sees it: a hidden one is added to every input. */
  function ScaledValue(x: Word, isExpA: bool): nat
  {
    (HIDDEN_ONE + ScaledFrac(x, isExpA)) * Pow2(ScaledExp(x, isExpA))
  }

  /** The nearest whole number of units, halves going up. */
  function RoundHalfUp(v: nat, unit: nat): nat
    requires unit > 0
  {
    (v + unit / 2) / unit
  }

  /** One unit of the mantissa under shared exponent `e`. */
  function Unit(fmt: Format, e: nat): (u: nat)
    ensures u > 0
  {
    Pow2(ManShift(fmt) + e)
  }

  /** The mantissa an input is encoded to. */
  function Mantissa(fmt: Format, x: Word, sharedExp: nat, isExpA: bool): nat
  {
    Min(ManMax(fmt), RoundHalfUp(ScaledValue(x, isExpA), Unit(fmt, Max(sharedExp, ScaledExp(x, isExpA)))))
  }

  lemma ManBelowTop(fmt: Format, x: Word, e: nat, isExpA: bool)
    ensures Mantissa(fmt, x, e, isExpA) < Pow2(ManWidth(fmt))
  {
    hide RoundHalfUp, ScaledValue, Pow2;
  }

  lemma SignAndMantissa(fmt: Format, sign: nat, m: nat)
    ensures sign * Pow2(ManWidth(fmt)) >= 0
    ensures sign <= 1 && m < Pow2(ManWidth(fmt)) ==> sign * Pow2(ManWidth(fmt)) + m < Pow2(ManWidth(fmt) + 1)
  {
    hide Pow2;
    Pow2Half(ManWidth(fmt) + 1);
    MulPositive(sign, Pow2(ManWidth(fmt)));
  }

  function Encode(fmt: Format, x: Word, sharedExp: nat, isExpA: bool): (d: nat)
    ensures d < Pow2(ManWidth(fmt) + 1)
  {
    hide Pow2, Mantissa, SignOf, IsZero;
    ManBelowTop(fmt, x, sharedExp, isExpA);
    SignAndMantissa(fmt, SignOf(x), Mantissa(fmt, x, sharedExp, isExpA));
    FieldsOf(x);
    if IsZero(x) || Mantissa(fmt, x, sharedExp, isExpA) == 0 then 0
    else SignOf(x) * Pow2(ManWidth(fmt)) + Mantissa(fmt, x, sharedExp, isExpA)
  }

  /** The mantissa of a datum. */
  function ManOf(fmt: Format, datum: nat): nat { datum % Pow2(ManWidth(fmt)) }

  // ----- get_max_exp

  function MaxExp(row: seq<Word>, isExpA: bool): (e: nat)
    ensures forall i :: 0 <= i < |row| ==> ScaledExp(row[i], isExpA) <= e
    ensures e == 0 || exists i :: 0 <= i < |row| && ScaledExp(row[i], isExpA) == e
    ensures e < 0x100 && (isExpA ==> e <= 31)
  {
    if row == [] then 0
    else
      var k := |row| - 1;
      var front := MaxExp(row[..k], isExpA);
      assert forall i :: 0 <= i < k ==> row[..k][i] == row[i];
      if ScaledExp(row[k], isExpA) > front then ScaledExp(row[k], isExpA) else front
  }

  method GetMaxExp(vec: seq<Word>, isExpA: bool) returns (max: nat)
    requires |vec| == 16
    ensures max == MaxExp(vec, isExpA)
  {
    hide MaxExp, ScaledExp;
    max := 0;
    MaxExpStarts(isExpA);
    for i := 0 to 16
      invariant max == MaxExp(vec[..i], isExpA)
    {
      var exp := RebiasedExp(vec[i], isExpA);
      MaxExpNext(vec, isExpA, i);
      if exp > max {
        max := exp;
      }
    }
    assert vec[..16] == vec;
  }

  lemma MaxExpStarts(isExpA: bool)
    ensures MaxExp([], isExpA) == 0
  {
  }

  lemma MaxExpNext(vec: seq<Word>, isExpA: bool, i: nat)
    requires i < |vec|
    ensures MaxExp(vec[..i + 1], isExpA) == Max(ScaledExp(vec[i], isExpA), MaxExp(vec[..i], isExpA))
  {
    hide ScaledExp;
    assert vec[..i + 1][..i] == vec[..i];
  }

  method RebiasedExp(x: Word, isExpA: bool) returns (exp: nat)
    ensures exp == ScaledExp(x, isExpA)
  {
    exp := x / 0x80_0000 % 0x100;
    if isExpA {
      var se: int := exp;
      se := se - 127 + 15;
      if se > 31 {
        se := 31;
      } else if se < 0 {
        se := 0;
      }
      exp := se;
    }
  }

  // ----- convert_u32_to_bfp

  lemma DivCancel(a: nat, b: nat, c: nat)
    requires b > 0 && c > 0
    ensures b * c > 0 && (a * c) / (b * c) == a / b
  {
    DivModSplit(a, b);
    var q, r := a / b, a % b;
    MulDistribute(q * b, r, c);
    MulAssoc(q, b, c);
    MulMono(r + 1, b, c);
    MulDistribute(r, 1, c);
    DivModUnique(a * c, q, r * c, b * c);
  }

  /** Shift down by the exponent difference, add half a unit, shift down: this rounds half up at the shared scale. */
  lemma ShiftsRoundHalfUp(m: nat, e: nat, sharedExp: nat, s: nat)
    requires e <= sharedExp && s > 0
    ensures Shr(Shr(m, sharedExp - e) + Pow2(s - 1), s) == RoundHalfUp(m * Pow2(e), Pow2(s + sharedExp))
  {
    var d := sharedExp - e;
    var half := Pow2(s - 1) * Pow2(d);
    DivAddMultiple(m, Pow2(s - 1), Pow2(d));
    DivDiv(m + half, Pow2(d), Pow2(s));
    DivCancel(m + half, Pow2(d) * Pow2(s), Pow2(e));
    MulDistribute(m, half, Pow2(e));
    Pow2Add(d, s);
    Pow2Add(d + s, e);
    Pow2Add(s - 1, d);
    Pow2Add(s - 1 + d, e);
    Pow2Half(s + sharedExp);
  }

  /** Exponent and fraction, rebiased and saturated for the `a` formats. */
  method Saturated(input: Word, isExpA: bool) returns (exp: nat, mantissa: nat)
    ensures exp == ScaledExp(input, isExpA) && mantissa == ScaledFrac(input, isExpA)
  {
    mantissa := input % 0x80_0000;
    exp := input / 0x80_0000 % 0x100;
    if isExpA {
      var se: int := exp;
      se := se - 127 + 15;
      if se > 31 {
        se := 31;
        mantissa := 0x7f_ffff;
      } else if se < 0 {
        se := 0;
        mantissa := 0;
      }
      exp := se;
    }
  }

  method ConvertU32ToBfp(fmt: Format, input: Word, sharedExp: nat, isExpA: bool) returns (r: nat)
    ensures r == Encode(fmt, input, sharedExp, isExpA)
  {
    hide Pow2, Shr, Shl, BitOr, RoundHalfUp, ScaledExp, ScaledFrac;
    if input % 0x8000_0000 == 0 {
      return 0;
    }
    var sign: nat := input / 0x8000_0000;
    var exp, mantissa := Saturated(input, isExpA);
    AddHiddenOne(input, isExpA);
    mantissa := BitOr(HIDDEN_ONE, mantissa);
    ghost var m0 := mantissa;
    if sharedExp >= exp {
      mantissa := ShiftDown(mantissa, sharedExp - exp);
    } else {
      ShrNone(mantissa);
    }
    mantissa := mantissa + Pow2(ManShift(fmt) - 1);
    mantissa := Shr(mantissa, ManShift(fmt));
    ShiftsRoundHalfUp(m0, exp, Max(sharedExp, exp), ManShift(fmt));
    assert ManMax(fmt) < Pow2(ManWidth(fmt));
    if mantissa > ManMax(fmt) {
      mantissa := ManMax(fmt);
    }
    if mantissa == 0 {
      sign := 0;
    }
    OrShifted(sign, ManWidth(fmt), mantissa);
    r := BitOr(Shl(sign, ManWidth(fmt)), mantissa);
  }

  lemma AddHiddenOne(x: Word, isExpA: bool)
    ensures BitOr(HIDDEN_ONE, ScaledFrac(x, isExpA)) == HIDDEN_ONE + ScaledFrac(x, isExpA)
  {
    Pow2Values();
    OrDisjoint(1, 23, ScaledFrac(x, isExpA));
  }

  lemma Pow2Values()
    ensures Pow2(23) == 0x80_0000 && Pow2(24) == 0x100_0000 && Pow2(31) == 0x8000_0000
    ensures Pow2(1) == 2 && Pow2(3) == 8 && Pow2(7) == 128
  {
    assert Pow2(7) == 128;
    Pow2Add(7, 7);
    Pow2Add(14, 7);
    Pow2Add(21, 2);
    Pow2Add(21, 3);
    Pow2Add(24, 7);
  }

  /** Shifts by more than 31 are done in steps of 31. */
  method ShiftDown(m: nat, amount: nat) returns (r: nat)
    ensures r == Shr(m, amount)
  {
    hide Shr;
    r := m;
    var expDiff: nat := amount;
    ShrNone(m);
    while expDiff > 31
      invariant expDiff <= amount && r == Shr(m, amount - expDiff)
    {
      ShrShr(m, amount - expDiff, 31);
      r := Shr(r, 31);
      expDiff := expDiff - 31;
    }
    ShrShr(m, amount - expDiff, expDiff);
    r := Shr(r, expDiff);
  }

  // ----- convert_bfp_to_u32

  /** How far a nonzero mantissa is shifted up until its top bit is set. */
  function NormShift(fmt: Format, man: nat): (cnt: nat)
    requires 0 < man < Pow2(ManWidth(fmt))
    ensures IsNormShift(fmt, man, cnt) && cnt < ManWidth(fmt)
    decreases Pow2(ManWidth(fmt)) - man
  {
    hide Pow2, Shl;
    ShlNone(man);
    if 2 * man >= Pow2(ManWidth(fmt)) then 0
    else
      var cnt := NormShift(fmt, 2 * man);
      ShlOnce(man, cnt);
      NormShiftSmall(fmt, man, cnt + 1);
      cnt + 1
  }

  predicate IsNormShift(fmt: Format, man: nat, cnt: nat)
  {
    Shl(man, cnt) < Pow2(ManWidth(fmt)) <= 2 * Shl(man, cnt)
  }

  lemma NormShiftSmall(fmt: Format, man: nat, cnt: nat)
    requires man > 0 && Shl(man, cnt) < Pow2(ManWidth(fmt))
    ensures cnt < ManWidth(fmt)
  {
    hide Pow2, Shl;
    ShlAtLeast(man, cnt);
    if cnt >= ManWidth(fmt) {
      Pow2Mono(ManWidth(fmt), cnt);
    }
  }

  /** A shift count is the normalising one as soon as it normalises. */
  lemma NormShiftUnique(fmt: Format, man: nat, cnt: nat)
    requires 0 < man < Pow2(ManWidth(fmt)) && IsNormShift(fmt, man, cnt)
    ensures cnt == NormShift(fmt, man)
  {
    hide Pow2, Shl;
    var n := NormShift(fmt, man);
    ShlOnce(man, cnt);
    ShlOnce(man, n);
    if cnt < n {
      ShlMono(man, cnt + 1, n);
    } else if n < cnt {
      ShlMono(man, n + 1, cnt);
    }
  }

  /** 32-bit wrap-around. */
  function Wrap(n: int): Word { n % 0x1_0000_0000 }

  /** The exponent field of a nonzero datum; an exponent below the shift count wraps around. */
  function DecodedExp(fmt: Format, man: nat, sharedExp: nat, isExpA: bool): Word
    requires 0 < man < Pow2(ManWidth(fmt))
  {
    Wrap(sharedExp - NormShift(fmt, man) + (if isExpA then 112 else 0))
  }

  /** The fraction field of a nonzero datum, at its own width: the hidden one is shifted out. */
  function DecodedMan(fmt: Format, man: nat): nat
    requires 0 < man < Pow2(ManWidth(fmt))
  {
    2 * Shl(man, NormShift(fmt, man)) - Pow2(ManWidth(fmt))
  }

  /** `(sign << 31) | (exp << 23) | (man << (23 - width))` on 32 bits. */
  function PutTogether(fmt: Format, sign: nat, exp: Word, man: nat): Word
  {
    Wrap(BitOr(BitOr(Wrap(Shl(sign, 31)), Wrap(Shl(exp, 23))), Shl(man, 23 - ManWidth(fmt))))
  }

  function Decode(fmt: Format, datum: nat, sharedExp: nat, isExpA: bool): Word
  {
    var sign, man := Shr(datum, ManWidth(fmt)), datum % Pow2(ManWidth(fmt));
    if man == 0 then PutTogether(fmt, sign, 0, 0)
    else PutTogether(fmt, sign, DecodedExp(fmt, man, sharedExp, isExpA), DecodedMan(fmt, man))
  }

  method ConvertBfpToU32(fmt: Format, data: nat, sharedExp: nat, isExpA: bool) returns (outNum: Word)
    requires data < 0x100 && sharedExp < 0x100
    ensures outNum == Decode(fmt, data, sharedExp, isExpA)
  {
    hide Pow2, Shl, Shr, BitOr, Wrap, IsNormShift, PutTogether;
    var exp: Word := sharedExp;
    var sign := Shr(data, ManWidth(fmt));
    var man: nat := data % Pow2(ManWidth(fmt));
    var shiftCnt := 0;
    if man == 0 {
      exp := 0;
    } else {
      ghost var man0 := man;
      ShlNone(man);
      Pow2Half(ManWidth(fmt));
      while man < Pow2(ManWidth(fmt) - 1)
        decreases Pow2(ManWidth(fmt)) - man
        invariant 0 < man0 <= man < Pow2(ManWidth(fmt))
        invariant shiftCnt >= 0 && man == Shl(man0, shiftCnt)
      {
        ShlOnce(man0, shiftCnt);
        man := 2 * man;
        shiftCnt := shiftCnt + 1;
      }
      assert IsNormShift(fmt, man0, shiftCnt) by {
        NormalisedIs(fmt, man0, shiftCnt);
      }
      NormShiftUnique(fmt, man0, shiftCnt);
      WrapTwice(exp - shiftCnt);
      man := 2 * man;
      DropTopBit(fmt, man);
      man := man % Pow2(ManWidth(fmt));
      exp := Wrap(exp - shiftCnt);
      if isExpA {
        exp := Wrap(exp - 15 + 127);
      }
    }
    outNum := PutTogether(fmt, sign, exp, man);
  }

  lemma NormalisedIs(fmt: Format, man: nat, cnt: nat)
    requires Shl(man, cnt) < Pow2(ManWidth(fmt)) && Pow2(ManWidth(fmt)) <= 2 * Shl(man, cnt)
    ensures IsNormShift(fmt, man, cnt)
  {
  }

  lemma WrapTwice(e: int)
    ensures Wrap(Wrap(e) - 15 + 127) == Wrap(e + 112)
  {
  }

  lemma DropTopBit(fmt: Format, man: nat)
    requires Pow2(ManWidth(fmt)) <= man < 2 * Pow2(ManWidth(fmt))
    ensures man % Pow2(ManWidth(fmt)) == man - Pow2(ManWidth(fmt))
  {
    DivModUnique(man, 1, man - Pow2(ManWidth(fmt)), Pow2(ManWidth(fmt)));
  }

  // ----- what the converters promise

  /**
   The mantissa is within half a unit of the input as the encoder sees it, or less than one unit below it when
   clamped.
   */
  lemma {:induction false} QuantisationBound(fmt: Format, x: Word, sharedExp: nat, isExpA: bool)
    requires ScaledExp(x, isExpA) <= sharedExp
    ensures var v, u, m := ScaledValue(x, isExpA), Unit(fmt, sharedExp), Mantissa(fmt, x, sharedExp, isExpA);
            || (-(u / 2) <= v - m * u <= u / 2)
            || (m == ManMax(fmt) && u / 2 <= v - m * u < u)
  {
    hide Pow2;
    var v, u := ScaledValue(x, isExpA), Unit(fmt, sharedExp);
    var q := RoundHalfUp(v, u);
    RoundingError(v, u);
    if q > ManMax(fmt) {
      InputBelowCeiling(fmt, x, sharedExp, isExpA);
      assert ManMax(fmt) + 1 == Pow2(ManWidth(fmt));
      MulMono(q, Pow2(ManWidth(fmt)), u);
      MulMono(Pow2(ManWidth(fmt)), q, u);
      MulDistribute(ManMax(fmt), 1, u);
    }
  }

  lemma RoundingError(v: nat, u: nat)
    requires u > 0
    ensures v + u / 2 - u < RoundHalfUp(v, u) * u <= v + u / 2
  {
    DivModSplit(v + u / 2, u);
  }

  /** An input whose exponent is at most the shared one is less than 2^width units. */
  lemma InputBelowCeiling(fmt: Format, x: Word, sharedExp: nat, isExpA: bool)
    requires ScaledExp(x, isExpA) <= sharedExp
    ensures ScaledValue(x, isExpA) < Pow2(ManWidth(fmt)) * Unit(fmt, sharedExp)
    ensures RoundHalfUp(ScaledValue(x, isExpA), Unit(fmt, sharedExp)) <= Pow2(ManWidth(fmt))
  {
    hide Pow2, Unit, ScaledValue, RoundHalfUp;
    BelowNextPower(x, sharedExp, isExpA);
    CeilingInUnits(fmt, sharedExp);
    RoundingStaysBelow(ScaledValue(x, isExpA), Unit(fmt, sharedExp), Pow2(ManWidth(fmt)));
  }

  lemma BelowNextPower(x: Word, sharedExp: nat, isExpA: bool)
    requires ScaledExp(x, isExpA) <= sharedExp
    ensures ScaledValue(x, isExpA) < 0x100_0000 * Pow2(sharedExp)
  {
    hide Pow2, ScaledExp;
    var s, e := HIDDEN_ONE + ScaledFrac(x, isExpA), ScaledExp(x, isExpA);
    Pow2Mono(e, sharedExp);
    ProductBelow(s, 0x100_0000, Pow2(e), Pow2(sharedExp));
  }

  lemma ProductBelow(a: nat, b: nat, p: nat, q: nat)
    requires a < b && 0 < p <= q
    ensures a * p < b * q
  {
    MulMono(p, q, a);
    MulMono(a + 1, b, q);
    MulDistribute(a, 1, q);
  }

  lemma CeilingInUnits(fmt: Format, e: nat)
    ensures Pow2(ManWidth(fmt)) * Unit(fmt, e) == 0x100_0000 * Pow2(e)
  {
    hide Pow2;
    Pow2Values();
    Pow2Add(ManWidth(fmt), ManShift(fmt) + e);
    Pow2Add(24, e);
  }

  lemma RoundingStaysBelow(v: nat, u: nat, k: nat)
    requires u > 0 && v < k * u
    ensures RoundHalfUp(v, u) <= k
  {
    hide RoundHalfUp;
    RoundingError(v, u);
    var q := RoundHalfUp(v, u);
    if q > k {
      MulMono(k + 1, q, u);
      MulDistribute(k, 1, u);
    }
  }

  lemma {:induction false} MantissaMonotone(fmt: Format, x: Word, y: Word, sharedExp: nat, isExpA: bool)
    requires ScaledExp(x, isExpA) <= sharedExp && ScaledExp(y, isExpA) <= sharedExp
    requires ScaledValue(x, isExpA) <= ScaledValue(y, isExpA)
    ensures Mantissa(fmt, x, sharedExp, isExpA) <= Mantissa(fmt, y, sharedExp, isExpA)
  {
    hide Pow2, ScaledValue;
    var u := Unit(fmt, sharedExp);
    DivMono(ScaledValue(x, isExpA) + u / 2, ScaledValue(y, isExpA) + u / 2, u);
  }

  /** The encoder sees words in the order of their bits below the sign. */
  lemma ScaledMonotone(x: Word, y: Word, isExpA: bool)
    requires x % 0x8000_0000 <= y % 0x8000_0000
    ensures ScaledExp(x, isExpA) <= ScaledExp(y, isExpA) && ScaledValue(x, isExpA) <= ScaledValue(y, isExpA)
  {
    hide Pow2;
    FieldsOf(x);
    FieldsOf(y);
    var s, e, s', e' := HIDDEN_ONE + ScaledFrac(x, isExpA), ScaledExp(x, isExpA),
                        HIDDEN_ONE + ScaledFrac(y, isExpA), ScaledExp(y, isExpA);
    if e == e' {
      MulMono(s, s', Pow2(e));
    } else {
      Pow2Half(e + 1);
      Pow2Mono(e + 1, e');
      MulMono(s, 2 * HIDDEN_ONE, Pow2(e));
      MulMono(HIDDEN_ONE, s', Pow2(e'));
      MulMono(Pow2(e + 1), Pow2(e'), HIDDEN_ONE);
    }
  }

  /** A larger magnitude never gets a smaller mantissa. */
  lemma {:induction false} QuantisationMonotone(fmt: Format, x: Word, y: Word, sharedExp: nat, isExpA: bool)
    requires ScaledExp(y, isExpA) <= sharedExp && x % 0x8000_0000 <= y % 0x8000_0000
    ensures ManOf(fmt, Encode(fmt, x, sharedExp, isExpA)) <= ManOf(fmt, Encode(fmt, y, sharedExp, isExpA))
  {
    hide Pow2, Mantissa, ScaledExp, ScaledValue;
    ScaledMonotone(x, y, isExpA);
    MantissaMonotone(fmt, x, y, sharedExp, isExpA);
    EncodedMantissa(fmt, x, sharedExp, isExpA);
    EncodedMantissa(fmt, y, sharedExp, isExpA);
  }

  /** The mantissa of the datum of an input. */
  lemma EncodedMantissa(fmt: Format, x: Word, sharedExp: nat, isExpA: bool)
    ensures ManOf(fmt, Encode(fmt, x, sharedExp, isExpA))
          == if IsZero(x) then 0 else Mantissa(fmt, x, sharedExp, isExpA)
  {
    hide Pow2, RoundHalfUp, ScaledValue;
    var m, top := Mantissa(fmt, x, sharedExp, isExpA), Pow2(ManWidth(fmt));
    DivModUnique(SignOf(x) * top + m, SignOf(x), m, top);
    DivModUnique(0, 0, 0, top);
  }

  // ----- rounding to the nearest even mantissa

  /** The nearest whole number of units, halves going to the even one. */
  function RoundHalfEven(v: nat, unit: nat): nat
    requires unit > 0
  {
    DivNonNegative(v, unit);
    var q, rest := v / unit, v % unit;
    if 2 * rest < unit || (2 * rest == unit && q % 2 == 0) then q else q + 1
  }

  lemma RoundUpOrDown(frac: nat, u: nat, r: nat)
    requires u > 0 && u % 2 == 0 && r == RoundHalfUp(frac, u)
    ensures frac / u >= 0 && r == if 2 * (frac % u) < u then frac / u else frac / u + 1
  {
    DivModSplit(frac, u);
    DivNonNegative(frac, u);
    MulDistribute(frac / u, 1, u);
    if 2 * (frac % u) < u {
      DivModUnique(frac + u / 2, frac / u, frac % u + u / 2, u);
    } else {
      DivModUnique(frac + u / 2, frac / u + 1, frac % u - u / 2, u);
    }
  }

  /** Rounding halves up is rounding to nearest even but for the halves above an even number of units. */
  lemma HalfUpIsHalfEvenIff(v: nat, u: nat)
    requires u > 0 && u % 2 == 0
    ensures v / u >= 0
    ensures RoundHalfUp(v, u) == RoundHalfEven(v, u) + if 2 * (v % u) == u && v / u % 2 == 0 then 1 else 0
  {
    hide RoundHalfUp;
    DivNonNegative(v, u);
    RoundUpOrDown(v, u, RoundHalfUp(v, u));
  }

  /** The encoder rounds to the nearest even mantissa exactly when its input is not halfway above an even one. */
  lemma NearestEvenIff(fmt: Format, x: Word, sharedExp: nat, isExpA: bool)
    requires ScaledExp(x, isExpA) <= sharedExp
    ensures var v, u := ScaledValue(x, isExpA), Unit(fmt, sharedExp);
            && v / u >= 0
            && (Mantissa(fmt, x, sharedExp, isExpA) == Min(ManMax(fmt), RoundHalfEven(v, u))
                <==> !(2 * (v % u) == u && v / u % 2 == 0))
  {
    hide Pow2, ScaledExp, ScaledValue, Unit, RoundHalfUp, RoundHalfEven;
    var v, u := ScaledValue(x, isExpA), Unit(fmt, sharedExp);
    UnitIsEven(fmt, sharedExp);
    HalfUpIsHalfEvenIff(v, u);
    InputBelowCeiling(fmt, x, sharedExp, isExpA);
    Pow2Half(ManWidth(fmt));
    HalvesFit(v, u, Pow2(ManWidth(fmt)));
  }

  lemma UnitIsEven(fmt: Format, e: nat)
    ensures Unit(fmt, e) % 2 == 0
  {
    hide Pow2;
    Pow2Half(ManShift(fmt) + e);
  }

  /** Below an even ceiling, a half above an even number of units has room above it. */
  lemma HalvesFit(v: nat, u: nat, top: nat)
    requires u > 0 && v < top * u && top % 2 == 0
    ensures 0 <= v / u < top
    ensures 2 * (v % u) == u && v / u % 2 == 0 ==> RoundHalfEven(v, u) == v / u <= top - 2
  {
    DivInRange(v, top, u);
  }

  /** Halfway between 64 and 65 units: the nearest even mantissa is 64, the code makes it 65. */
  lemma HalfRoundsUp(x: Word)
    requires x == 0x3f81_0000
    ensures 2 * ScaledValue(x, false) == 129 * Unit(Bfp8, 127)
    ensures Min(ManMax(Bfp8), RoundHalfEven(ScaledValue(x, false), Unit(Bfp8, 127))) == 64
    ensures Encode(Bfp8, x, 127, false) == 65
  {
    hide Pow2;
    Pow2Add(16, 127);
    Pow2Half(17 + 127);
    Pow2Values();
    Pow2Add(16, 7);
    MulAssoc(129, Pow2(16), Pow2(127));
    var h := Pow2(16 + 127);
    DivModUnique(129 * h + h, 65, 0, 2 * h);
    DivModUnique(129 * h, 64, h, 2 * h);
  }
}
