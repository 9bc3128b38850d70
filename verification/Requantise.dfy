/**
 What decoding does to a datum, and when encoding the decoded value gives the datum back.
 It does, except for one family of inputs: a denormal of a plain (not `a`) format that rounds to a power of
 two whose decoded exponent field is zero decodes to a zero, and a zero encodes to a zero datum.
 */
module Requantise {
  import opened Arith
  import opened Bits
  import opened BlockFloat

  function Bias(isExpA: bool): nat { if isExpA then 112 else 0 }

  /** A nonzero datum and shared exponent for which decoding stays in the range of the exponent field. */
  predicate Decodable(fmt: Format, man: nat, sharedExp: nat, isExpA: bool)
  {
    && 0 < man < Pow2(ManWidth(fmt))
    && NormShift(fmt, man) <= sharedExp
    && sharedExp + Bias(isExpA) < 0x100
  }

  lemma {:induction false} PutTogetherFields(fmt: Format, sign: nat, exp: Word, man: nat)
    requires sign <= 1 && exp < 0x100 && man < Pow2(ManWidth(fmt))
    ensures var x := PutTogether(fmt, sign, exp, man);
            SignOf(x) == sign && ExpOf(x) == exp && FracOf(x) == Shl(man, 23 - ManWidth(fmt))
    ensures Shl(man, 23 - ManWidth(fmt)) < 0x80_0000
  {
    hide BitOr, Pow2, Shl, SignOf, ExpOf, FracOf, Wrap;
    FracFits(fmt, man);
    OrOfFields(sign, exp, Shl(man, 23 - ManWidth(fmt)));
    WrapOfWord(sign * 0x8000_0000 + exp * 0x80_0000 + Shl(man, 23 - ManWidth(fmt)));
    FieldsUnique(sign, exp, Shl(man, 23 - ManWidth(fmt)));
  }

  lemma WrapOfWord(n: nat)
    ensures n < 0x1_0000_0000 ==> Wrap(n) == n
  {
  }

  lemma OrOfFields(sign: nat, exp: nat, frac: nat)
    requires sign <= 1 && exp < 0x100 && frac < 0x80_0000
    ensures BitOr(BitOr(Wrap(Shl(sign, 31)), Wrap(Shl(exp, 23))), frac) == sign * 0x8000_0000 + exp * 0x80_0000 + frac
  {
    hide BitOr, Pow2;
    Pow2Values();
    assert Wrap(Shl(sign, 31)) == sign * 0x8000_0000;
    assert Wrap(Shl(exp, 23)) == exp * 0x80_0000;
    OrDisjoint(sign, 31, exp * 0x80_0000);
    assert sign * 0x8000_0000 + exp * 0x80_0000 == (sign * 0x100 + exp) * 0x80_0000;
    OrDisjoint(sign * 0x100 + exp, 23, frac);
  }

  lemma FracFits(fmt: Format, man: nat)
    requires man < Pow2(ManWidth(fmt))
    ensures Shl(man, 23 - ManWidth(fmt)) < 0x80_0000
  {
    hide Pow2;
    Pow2Values();
    Pow2Add(ManWidth(fmt), 23 - ManWidth(fmt));
    MulMono(man + 1, Pow2(ManWidth(fmt)), Pow2(23 - ManWidth(fmt)));
    MulDistribute(man, 1, Pow2(23 - ManWidth(fmt)));
  }

  /** The decoded fields. With a hidden one, whatever the exponent field, they would make up the datum's number. */
  lemma {:induction false} DecodedFields(fmt: Format, sign: nat, man: nat, sharedExp: nat, isExpA: bool)
    requires sign <= 1 && Decodable(fmt, man, sharedExp, isExpA)
    ensures var x := Decode(fmt, sign * Pow2(ManWidth(fmt)) + man, sharedExp, isExpA);
            && SignOf(x) == sign
            && ExpOf(x) == sharedExp - NormShift(fmt, man) + Bias(isExpA)
            && (HIDDEN_ONE + FracOf(x)) * Pow2(ExpOf(x)) == man * Unit(fmt, sharedExp + Bias(isExpA))
  {
    hide Pow2, Decode, NormShift, Unit, Shl, Decodable;
    DecodedFrac(fmt, sign, man, sharedExp, isExpA);
    WhenDecodable(fmt, man, sharedExp, isExpA);
    DecodedScale(fmt, man, sharedExp + Bias(isExpA));
  }

  lemma WhenDecodable(fmt: Format, man: nat, sharedExp: nat, isExpA: bool)
    requires Decodable(fmt, man, sharedExp, isExpA)
    ensures 0 < man < Pow2(ManWidth(fmt)) && NormShift(fmt, man) <= sharedExp
    ensures DecodedExp(fmt, man, sharedExp, isExpA) == sharedExp - NormShift(fmt, man) + Bias(isExpA) < 0x100
  {
    hide Pow2, NormShift;
  }

  /** The word a nonzero datum decodes to. */
  lemma DecodeOfDatum(fmt: Format, sign: nat, man: nat, sharedExp: nat, isExpA: bool)
    requires 0 < man < Pow2(ManWidth(fmt))
    ensures Decode(fmt, sign * Pow2(ManWidth(fmt)) + man, sharedExp, isExpA)
         == PutTogether(fmt, sign, DecodedExp(fmt, man, sharedExp, isExpA), DecodedMan(fmt, man))
  {
    hide Pow2, Shr, PutTogether, DecodedExp, DecodedMan;
    SplitDatum(fmt, sign, man);
  }

  lemma DecodedScale(fmt: Format, man: nat, e: nat)
    requires 0 < man < Pow2(ManWidth(fmt)) && NormShift(fmt, man) <= e
    ensures (HIDDEN_ONE + Shl(DecodedMan(fmt, man), 23 - ManWidth(fmt))) * Pow2(e - NormShift(fmt, man))
         == man * Unit(fmt, e)
  {
    hide Pow2, IsNormShift, Shl;
    var cnt := NormShift(fmt, man);
    SignificandOf(fmt, man);
    Pow2Add(cnt + ManShift(fmt), e - cnt);
    MulAssoc(man, Pow2(cnt + ManShift(fmt)), Pow2(e - cnt));
  }

  lemma SplitDatum(fmt: Format, sign: nat, man: nat)
    requires man < Pow2(ManWidth(fmt))
    ensures var d := sign * Pow2(ManWidth(fmt)) + man;
            Shr(d, ManWidth(fmt)) == sign && d % Pow2(ManWidth(fmt)) == man
  {
    DivModUnique(sign * Pow2(ManWidth(fmt)) + man, sign, man, Pow2(ManWidth(fmt)));
  }

  lemma DecodedManFits(fmt: Format, man: nat)
    requires 0 < man < Pow2(ManWidth(fmt))
    ensures DecodedMan(fmt, man) < Pow2(ManWidth(fmt))
  {
    assert IsNormShift(fmt, man, NormShift(fmt, man));
  }

  /** With its hidden one, the decoded fraction is the normalised mantissa at full width. */
  lemma SignificandOf(fmt: Format, man: nat)
    requires 0 < man < Pow2(ManWidth(fmt))
    ensures HIDDEN_ONE + Shl(DecodedMan(fmt, man), 23 - ManWidth(fmt))
         == man * Pow2(NormShift(fmt, man) + ManShift(fmt))
  {
    hide Pow2, IsNormShift;
    var w, cnt := ManWidth(fmt), NormShift(fmt, man);
    Pow2Values();
    Pow2Add(w, 23 - w);
    Pow2Half(ManShift(fmt));
    Pow2Add(cnt, ManShift(fmt));
    AddTopBit(man * Pow2(cnt), Pow2(w), Pow2(23 - w));
    MulAssoc(man, Pow2(cnt), Pow2(ManShift(fmt)));
  }

  lemma AddTopBit(a: nat, top: nat, p: nat)
    ensures top * p + (2 * a - top) * p == a * (2 * p)
  {
    MulDistribute(2 * a - top, top, p);
    MulAssoc(2, a, p);
  }

  /** A zero mantissa decodes to a zero. */
  lemma DecodeOfZero(fmt: Format, sharedExp: nat, isExpA: bool)
    ensures Decode(fmt, 0, sharedExp, isExpA) == 0
  {
    hide PutTogether, Pow2, Shl;
    SplitDatum(fmt, 0, 0);
    PutTogetherFields(fmt, 0, 0, 0);
    ShlZero(23 - ManWidth(fmt));
    FieldsOf(Decode(fmt, 0, sharedExp, isExpA));
  }

  lemma ShlZero(k: nat)
    ensures Shl(0, k) == 0
  {
  }

  // ----- the decoder's assertion holds on encoded data

  /** An encoded mantissa needs no more normalising shifts than its input was shifted down. */
  lemma {:induction false} ShiftCountSafe(fmt: Format, x: Word, sharedExp: nat, isExpA: bool)
    requires ScaledExp(x, isExpA) <= sharedExp && Mantissa(fmt, x, sharedExp, isExpA) > 0
    ensures Mantissa(fmt, x, sharedExp, isExpA) < Pow2(ManWidth(fmt))
    ensures NormShift(fmt, Mantissa(fmt, x, sharedExp, isExpA)) <= sharedExp - ScaledExp(x, isExpA)
  {
    hide Pow2, Shl, RoundHalfUp, IsNormShift;
    var m, d := Mantissa(fmt, x, sharedExp, isExpA), sharedExp - ScaledExp(x, isExpA);
    assert Shl(m, d) >= Pow2(ManWidth(fmt) - 1) by {
      if m == ManMax(fmt) {
        Pow2Half(ManWidth(fmt));
        ShlMono(m, 0, d);
        ShlNone(m);
      } else if d >= ManWidth(fmt) {
        ShlAtLeast(m, d);
        Pow2Mono(ManWidth(fmt) - 1, d);
      } else {
        EncodedAtLeast(fmt, x, sharedExp, isExpA, d);
      }
    }
    EnoughShifts(fmt, m, d);
  }

  lemma EnoughShifts(fmt: Format, m: nat, d: nat)
    requires 0 < m < Pow2(ManWidth(fmt)) && Shl(m, d) >= Pow2(ManWidth(fmt) - 1)
    ensures NormShift(fmt, m) <= d
  {
    hide Pow2, Shl;
    var n := NormShift(fmt, m);
    if n > d {
      ShlMono(m, d, n - 1);
      ShlOnce(m, n - 1);
      Pow2Half(ManWidth(fmt));
    }
  }

  lemma EncodedAtLeast(fmt: Format, x: Word, sharedExp: nat, isExpA: bool, d: nat)
    requires d == sharedExp - ScaledExp(x, isExpA) && 0 <= d < ManWidth(fmt)
    requires Mantissa(fmt, x, sharedExp, isExpA) != ManMax(fmt)
    ensures Shl(Mantissa(fmt, x, sharedExp, isExpA), d) >= Pow2(ManWidth(fmt) - 1)
  {
    hide Pow2, RoundHalfUp, Unit, ScaledValue, ScaledExp, Shl;
    var m, k := Mantissa(fmt, x, sharedExp, isExpA), Pow2(ManWidth(fmt) - 1 - d);
    InputInUnits(fmt, x, sharedExp, isExpA, d);
    RoundsToAtLeast(ScaledValue(x, isExpA), Unit(fmt, sharedExp), k);
    ShlAtPower(m, ManWidth(fmt) - 1 - d, d);
  }

  /** An input is at least 2^23 at its own exponent, in units of the shared one. */
  lemma InputInUnits(fmt: Format, x: Word, sharedExp: nat, isExpA: bool, d: nat)
    requires d == sharedExp - ScaledExp(x, isExpA) && 0 <= d < ManWidth(fmt)
    ensures ScaledValue(x, isExpA) >= Pow2(ManWidth(fmt) - 1 - d) * Unit(fmt, sharedExp)
  {
    hide Pow2, ScaledExp;
    var e := ScaledExp(x, isExpA);
    Pow2Values();
    Pow2Add(ManWidth(fmt) - 1 - d, ManShift(fmt) + sharedExp);
    Pow2Add(23, e);
    MulMono(HIDDEN_ONE, HIDDEN_ONE + ScaledFrac(x, isExpA), Pow2(e));
  }

  lemma RoundsToAtLeast(v: nat, u: nat, k: nat)
    requires u > 0 && v >= k * u
    ensures RoundHalfUp(v, u) >= k
  {
    DivMono(k * u, v + u / 2, u);
    DivModUnique(k * u, k, 0, u);
  }

  lemma ShlAtPower(m: nat, a: nat, d: nat)
    requires m >= Pow2(a)
    ensures Shl(m, d) >= Pow2(a + d)
  {
    hide Pow2;
    Pow2Add(a, d);
    MulMono(Pow2(a), m, Pow2(d));
  }

  lemma EncodedIsDecodable(fmt: Format, x: Word, sharedExp: nat, isExpA: bool)
    requires ScaledExp(x, isExpA) <= sharedExp && Mantissa(fmt, x, sharedExp, isExpA) > 0
    requires sharedExp + Bias(isExpA) < 0x100
    ensures Decodable(fmt, Mantissa(fmt, x, sharedExp, isExpA), sharedExp, isExpA)
  {
    ShiftCountSafe(fmt, x, sharedExp, isExpA);
  }

  // ----- encoding a decoded datum

  /** The decoded value is the zero bit pattern although the datum is not zero. */
  predicate Vanishes(fmt: Format, man: nat, sharedExp: nat, isExpA: bool)
  {
    !isExpA && Shl(man, sharedExp) == Pow2(ManWidth(fmt) - 1)
  }

  lemma {:induction false} EncodeOfDecode(fmt: Format, sign: nat, man: nat, sharedExp: nat, isExpA: bool)
    requires sign <= 1 && Decodable(fmt, man, sharedExp, isExpA) && (isExpA ==> sharedExp <= 31)
    ensures var datum := sign * Pow2(ManWidth(fmt)) + man;
            Encode(fmt, Decode(fmt, datum, sharedExp, isExpA), sharedExp, isExpA)
            == if Vanishes(fmt, man, sharedExp, isExpA) then 0 else datum
    ensures var x := Decode(fmt, sign * Pow2(ManWidth(fmt)) + man, sharedExp, isExpA);
            ScaledExp(x, isExpA) == sharedExp - NormShift(fmt, man)
  {
    hide Pow2, PutTogether, IsNormShift, Shl, Decode, RoundHalfUp, IsZero, Vanishes, Unit, DecodedMan, NormShift;
    var x := Decode(fmt, sign * Pow2(ManWidth(fmt)) + man, sharedExp, isExpA);
    DecodedFields(fmt, sign, man, sharedExp, isExpA);
    FieldsOf(x);
    DecodedFrac(fmt, sign, man, sharedExp, isExpA);
    DecodedScale(fmt, man, sharedExp);
    RoundExact(man, Unit(fmt, sharedExp));
    VanishesIffZero(fmt, man, sharedExp, isExpA);
  }

  lemma DecodedFrac(fmt: Format, sign: nat, man: nat, sharedExp: nat, isExpA: bool)
    requires sign <= 1 && Decodable(fmt, man, sharedExp, isExpA)
    ensures var x := Decode(fmt, sign * Pow2(ManWidth(fmt)) + man, sharedExp, isExpA);
            && SignOf(x) == sign
            && ExpOf(x) == sharedExp - NormShift(fmt, man) + Bias(isExpA)
            && FracOf(x) == Shl(DecodedMan(fmt, man), 23 - ManWidth(fmt))
  {
    hide Pow2, PutTogether, IsNormShift, Shl, Decode, DecodedExp, DecodedMan, NormShift, SignOf, ExpOf, FracOf;
    WhenDecodable(fmt, man, sharedExp, isExpA);
    DecodeOfDatum(fmt, sign, man, sharedExp, isExpA);
    DecodedManFits(fmt, man);
    PutTogetherFields(fmt, sign, DecodedExp(fmt, man, sharedExp, isExpA), DecodedMan(fmt, man));
  }

  lemma RoundExact(m: nat, u: nat)
    requires u > 0
    ensures RoundHalfUp(m * u, u) == m
  {
    DivModUnique(m * u + u / 2, m, u / 2, u);
  }

  lemma VanishesIffZero(fmt: Format, man: nat, sharedExp: nat, isExpA: bool)
    requires Decodable(fmt, man, sharedExp, isExpA)
    ensures Vanishes(fmt, man, sharedExp, isExpA) <==>
            sharedExp - NormShift(fmt, man) + Bias(isExpA) == 0 && Shl(DecodedMan(fmt, man), 23 - ManWidth(fmt)) == 0
  {
    hide Pow2, Shl;
    var w := ManWidth(fmt);
    Pow2Half(w);
    ShlZero(23 - w);
    if DecodedMan(fmt, man) > 0 {
      ShlAtLeast(DecodedMan(fmt, man), 23 - w);
    }
    if Vanishes(fmt, man, sharedExp, isExpA) {
      NormShiftUnique(fmt, man, sharedExp);
    }
  }

  // ----- which inputs are lost

  /** The inputs whose datum does not survive decoding and encoding again, in terms of the input alone. */
  predicate IsLost(fmt: Format, x: Word, sharedExp: nat)
  {
    && !IsZero(x) && ExpOf(x) == 0 && sharedExp < ManWidth(fmt)
    && (ManWidth(fmt) == 1 || FracOf(x) < Pow2(23 - ManWidth(fmt) + sharedExp))
  }

  lemma LostIffVanishes(fmt: Format, x: Word, sharedExp: nat)
    requires !IsZero(x) && ScaledExp(x, false) <= sharedExp && Mantissa(fmt, x, sharedExp, false) > 0
    ensures Vanishes(fmt, Mantissa(fmt, x, sharedExp, false), sharedExp, false) <==> IsLost(fmt, x, sharedExp)
  {
    hide Pow2, Shl, RoundHalfUp, IsNormShift;
    var m, w := Mantissa(fmt, x, sharedExp, false), ManWidth(fmt);
    ShiftCountSafe(fmt, x, sharedExp, false);
    if sharedExp >= w {
      ShlAtLeast(m, sharedExp);
      Pow2Half(w);
      Pow2Mono(w, sharedExp);
    } else if ExpOf(x) > 0 {
      Pow2Half(w);
      if Vanishes(fmt, m, sharedExp, false) {
        NormalisedIs(fmt, m, sharedExp);
        NormShiftUnique(fmt, m, sharedExp);
      }
    } else {
      DenormalVanishes(fmt, x, sharedExp);
    }
  }

  lemma DenormalVanishes(fmt: Format, x: Word, sharedExp: nat)
    requires !IsZero(x) && ExpOf(x) == 0 && sharedExp < ManWidth(fmt)
    ensures Vanishes(fmt, Mantissa(fmt, x, sharedExp, false), sharedExp, false) <==>
            ManWidth(fmt) == 1 || FracOf(x) < Pow2(23 - ManWidth(fmt) + sharedExp)
  {
    hide Pow2, RoundHalfUp, Shl, Unit, ScaledValue;
    var w, u := ManWidth(fmt), Unit(fmt, sharedExp);
    var q, k := RoundHalfUp(ScaledValue(x, false), u), Pow2(w - 1 - sharedExp);
    DenormalUnits(fmt, x, sharedExp);
    RoundNear(k, FracOf(x), u);
    Pow2Mono(w - 1 - sharedExp, w - 1);
    Pow2Half(w);
    Pow2Values();
    ShlIsPower(Min(ManMax(fmt), q), w - 1 - sharedExp, sharedExp);
    if w == 1 {
      PowOfZero();
      assert Min(ManMax(fmt), q) == 1;
    } else {
      Pow2Mono(2, w);
      assert Min(ManMax(fmt), q) == k <==> q == k;
    }
  }

  /** A denormal, with the hidden one the encoder adds, as a whole number of units and its fraction. */
  lemma DenormalUnits(fmt: Format, x: Word, sharedExp: nat)
    requires ExpOf(x) == 0 && sharedExp < ManWidth(fmt)
    ensures ScaledValue(x, false) == Pow2(ManWidth(fmt) - 1 - sharedExp) * Unit(fmt, sharedExp) + FracOf(x)
    ensures Unit(fmt, sharedExp) == 2 * Pow2(23 - ManWidth(fmt) + sharedExp)
  {
    hide Pow2;
    Pow2Values();
    Pow2Add(ManWidth(fmt) - 1 - sharedExp, ManShift(fmt) + sharedExp);
    Pow2Half(ManShift(fmt) + sharedExp);
    PowOfZero();
  }

  lemma PowOfZero()
    ensures Pow2(0) == 1
  {
  }

  lemma RoundNear(k: nat, f: nat, u: nat)
    requires u > 0
    ensures RoundHalfUp(k * u + f, u) >= k
    ensures u % 2 == 0 ==> (RoundHalfUp(k * u + f, u) == k <==> f < u / 2)
  {
    MulPositive(k, u);
    var h, ku := u / 2, k * u;
    DivAddMultiple(f + h, k, u);
    assert (ku + f) + h == (f + h) + ku;
    HalfUp(f, u);
  }

  lemma HalfUp(f: nat, u: nat)
    requires u > 0
    ensures (f + u / 2) / u >= 0
    ensures u % 2 == 0 ==> ((f + u / 2) / u == 0 <==> f < u / 2)
  {
    DivNonNegative(f + u / 2, u);
    DivModSplit(f + u / 2, u);
    if f < u / 2 {
      DivModUnique(f + u / 2, 0, f + u / 2, u);
    }
  }

  /** A product with a power of two is a power of two only for that one factor. */
  lemma ShlIsPower(m: nat, a: nat, b: nat)
    ensures Shl(m, b) == Pow2(a + b) <==> m == Pow2(a)
  {
    Pow2Add(a, b);
    if m < Pow2(a) {
      MulMono(m + 1, Pow2(a), Pow2(b));
      MulDistribute(m, 1, Pow2(b));
    } else if m > Pow2(a) {
      MulMono(Pow2(a) + 1, m, Pow2(b));
      MulDistribute(Pow2(a), 1, Pow2(b));
    }
  }

  /** Encoding, decoding and encoding again gives the first datum, exactly when the input is not lost. */
  lemma {:induction false} RequantiseScalar(fmt: Format, x: Word, sharedExp: nat, isExpA: bool)
    requires ScaledExp(x, isExpA) <= sharedExp && sharedExp < 0x100 && (isExpA ==> sharedExp <= 31)
    ensures var datum := Encode(fmt, x, sharedExp, isExpA);
            Encode(fmt, Decode(fmt, datum, sharedExp, isExpA), sharedExp, isExpA) == datum
            <==> isExpA || !IsLost(fmt, x, sharedExp)
  {
    hide Pow2, Shl, RoundHalfUp, Decode, Vanishes, IsLost, Mantissa;
    var m := Mantissa(fmt, x, sharedExp, isExpA);
    FieldsOf(x);
    if IsZero(x) || m == 0 {
      DecodeOfZero(fmt, sharedExp, isExpA);
      FieldsOf(0);
      if !isExpA {
        LostIsEncoded(fmt, x, sharedExp);
      }
    } else {
      EncodedIsDecodable(fmt, x, sharedExp, isExpA);
      EncodeOfDecode(fmt, SignOf(x), m, sharedExp, isExpA);
      if isExpA {
        NeverVanishes(fmt, m, sharedExp);
      } else {
        LostIffVanishes(fmt, x, sharedExp);
      }
    }
  }

  lemma NeverVanishes(fmt: Format, man: nat, sharedExp: nat)
    ensures !Vanishes(fmt, man, sharedExp, true)
  {
  }

  /** Lost inputs have a nonzero datum. */
  lemma LostIsEncoded(fmt: Format, x: Word, sharedExp: nat)
    requires ScaledExp(x, false) <= sharedExp
    ensures IsLost(fmt, x, sharedExp) ==> !IsZero(x) && Mantissa(fmt, x, sharedExp, false) > 0
  {
    hide Pow2, RoundHalfUp, Unit, ScaledValue;
    if IsLost(fmt, x, sharedExp) {
      DenormalUnits(fmt, x, sharedExp);
      RoundNear(Pow2(ManWidth(fmt) - 1 - sharedExp), FracOf(x), Unit(fmt, sharedExp));
      Pow2Mono(1, ManWidth(fmt));
      Pow2Values();
    }
  }
}
