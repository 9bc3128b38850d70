/**
 The codec in terms of the numbers that words denote (section 3.4 of IEEE 754-2019): a word with exponent
 field 255 denotes none, one with exponent field 0 has no hidden one. The encoder sees its inputs otherwise
 (`ScaledValue`), so it is accurate for some inputs only; exactly for which is proved here.
 */
module RealValues {
  import opened Outcomes
  import opened Arith
  import opened Bits
  import opened BlockFloat
  import opened Requantise
  import opened BlockFloatRoundTrip

  /** The magnitude of the number a word denotes, in units of 2^-150. */
  function Magnitude(x: Word): Option<nat>
  {
    if ExpOf(x) == 255 then None
    else if ExpOf(x) == 0 then Some(2 * FracOf(x))
    else Some((HIDDEN_ONE + FracOf(x)) * Pow2(ExpOf(x)))
  }

  /** One unit of the mantissa under shared exponent `e`, on the same scale. */
  function RealUnit(fmt: Format, e: nat, isExpA: bool): (u: nat)
    ensures u > 0
  {
    Unit(fmt, e + Bias(isExpA))
  }

  /** `approx` is within half a unit of `v`, or less than a unit below it where the mantissa is the largest there is. */
  predicate Within(v: nat, approx: nat, u: nat, clamped: bool)
  {
    || (-(u / 2) <= v - approx <= u / 2)
    || (clamped && u / 2 <= v - approx < u)
  }

  /** The datum an input is encoded to denotes a number near the input. */
  predicate EncodesNear(fmt: Format, x: Word, e: nat, isExpA: bool)
  {
    var man, u := ManOf(fmt, Encode(fmt, x, e, isExpA)), RealUnit(fmt, e, isExpA);
    Magnitude(x).Some? && Within(Magnitude(x).value, man * u, u, man == ManMax(fmt))
  }

  // ----- for which inputs the encoder is accurate

  /** A denormal is as near the smallest normal number as the encoder, which adds a hidden one, takes it to be. */
  predicate DenormalEncodes(fmt: Format, frac: nat, e: nat)
  {
    var d, u := HIDDEN_ONE - frac, Unit(fmt, e);
    e > ManWidth(fmt) || 4 * d <= u || (4 * d <= 3 * u && (e == 0 || 4 * d > 2 * u))
  }

  /** A number below the 5-bit exponents is near the smallest number the encoder raises it to, or rounds to zero. */
  predicate SmallEncodes(fmt: Format, x: Word, e: nat)
  {
    e > ManWidth(fmt) || (e < ManWidth(fmt) && ExpOf(x) == 111 && FracOf(x) + Unit(fmt, e) >= HIDDEN_ONE)
  }

  predicate Encodes(fmt: Format, x: Word, e: nat, isExpA: bool)
  {
    || IsZero(x)
    || (!isExpA && 1 <= ExpOf(x) <= 254)
    || (!isExpA && ExpOf(x) == 0 && DenormalEncodes(fmt, FracOf(x), e))
    || (isExpA && 112 <= ExpOf(x) <= 143)
    || (isExpA && ExpOf(x) < 112 && SmallEncodes(fmt, x, e))
  }

  /** Units of both kinds of format, on the two scales. */
  lemma RealUnitIs(fmt: Format, e: nat, isExpA: bool)
    ensures RealUnit(fmt, e, isExpA) == Unit(fmt, e) * Pow2(Bias(isExpA))
    ensures Unit(fmt, e) % 2 == 0
    ensures !isExpA ==> Pow2(Bias(isExpA)) == 1
  {
    hide Pow2;
    Pow2Add(ManShift(fmt) + e, Bias(isExpA));
    Pow2Half(ManShift(fmt) + e);
    PowOfZero();
  }

  /** Inputs in the formats' exponent range denote what the encoder sees. */
  lemma MagnitudeInRange(x: Word, isExpA: bool)
    requires if isExpA then 112 <= ExpOf(x) <= 143 else 1 <= ExpOf(x) <= 254
    ensures Magnitude(x) == Some(ScaledValue(x, isExpA) * Pow2(Bias(isExpA)))
  {
    hide Pow2;
    Pow2Add(ScaledExp(x, isExpA), Bias(isExpA));
    MulAssoc(HIDDEN_ONE + FracOf(x), Pow2(ScaledExp(x, isExpA)), Pow2(Bias(isExpA)));
    PowOfZero();
  }

  lemma WithinScales(v: nat, man: nat, u: nat, clamped: bool, p: nat)
    requires u % 2 == 0 && p > 0
    ensures man * u >= 0 && u * p >= 0 && man * (u * p) >= 0 && v * p >= 0
    ensures Within(v, man * u, u, clamped) ==> Within(v * p, man * (u * p), u * p, clamped)
  {
    MulPositive(man, u);
    MulPositive(u, p);
    MulPositive(man, u * p);
    MulPositive(v, p);
    var h, diff := u / 2, v - man * u;
    MulAssoc(man, u, p);
    MulDistribute(v - man * u, man * u, p);
    assert u * p == 2 * (h * p) by {
      MulAssoc(2, h, p);
    }
    if -h <= diff <= h {
      MulMono(-h, diff, p);
      MulMono(diff, h, p);
      assert (-h) * p == -(h * p);
    }
    if h <= diff < u {
      MulMono(h, diff, p);
      MulMono(diff + 1, u, p);
      MulDistribute(diff, 1, p);
    }
  }

  lemma InRangeEncodes(fmt: Format, x: Word, e: nat, isExpA: bool)
    requires ScaledExp(x, isExpA) <= e && !IsZero(x)
    requires if isExpA then 112 <= ExpOf(x) <= 143 else 1 <= ExpOf(x) <= 254
    ensures EncodesNear(fmt, x, e, isExpA)
  {
    hide Pow2, Mantissa, ScaledValue, Magnitude, RealUnit, Unit, ScaledExp, Encode, ManOf;
    var man := Mantissa(fmt, x, e, isExpA);
    EncodedMantissa(fmt, x, e, isExpA);
    MagnitudeInRange(x, isExpA);
    QuantisationBound(fmt, x, e, isExpA);
    RealUnitIs(fmt, e, isExpA);
    WithinScales(ScaledValue(x, isExpA), man, Unit(fmt, e), man == ManMax(fmt), Pow2(Bias(isExpA)));
  }

  // ----- denormals of the plain formats

  /**
   Under a large shared exponent what the encoder sees is less than half a unit, and under the width's own it
   is one.
   */
  lemma LargeUnits(fmt: Format, frac: nat, e: nat)
    requires frac < HIDDEN_ONE && e >= ManWidth(fmt)
    ensures e > ManWidth(fmt) ==> RoundHalfUp(HIDDEN_ONE + frac, Unit(fmt, e)) == 0 && Unit(fmt, e) >= 4 * HIDDEN_ONE
    ensures e == ManWidth(fmt) ==> RoundHalfUp(HIDDEN_ONE + frac, Unit(fmt, e)) == 1 && Unit(fmt, e) == 2 * HIDDEN_ONE
  {
    hide Pow2;
    Pow2Values();
    var u := Unit(fmt, e);
    if e > ManWidth(fmt) {
      Pow2Mono(25, ManShift(fmt) + e);
      Pow2Half(25);
      DivModUnique(HIDDEN_ONE + frac + u / 2, 0, HIDDEN_ONE + frac + u / 2, u);
    } else {
      DivModUnique(HIDDEN_ONE + frac + u / 2, 1, frac, u);
    }
  }

  /** Under a small shared exponent the hidden one is a whole number of units. */
  lemma SmallUnits(fmt: Format, frac: nat, e: nat)
    requires e < ManWidth(fmt)
    ensures Pow2(ManWidth(fmt) - 1 - e) * Unit(fmt, e) == HIDDEN_ONE
    ensures RoundHalfUp(HIDDEN_ONE + frac, Unit(fmt, e))
          == Pow2(ManWidth(fmt) - 1 - e) + RoundHalfUp(frac, Unit(fmt, e))
    ensures e == 0 ==> ManMax(fmt) == 2 * Pow2(ManWidth(fmt) - 1 - e) - 1
    ensures e > 0 ==> 2 * Pow2(ManWidth(fmt) - 1 - e) < ManMax(fmt)
  {
    hide Pow2;
    Pow2Values();
    var q, u := Pow2(ManWidth(fmt) - 1 - e), Unit(fmt, e);
    Pow2Add(ManWidth(fmt) - 1 - e, ManShift(fmt) + e);
    Pow2Half(ManWidth(fmt));
    DivAddMultiple(frac + u / 2, q, u);
    if e > 0 {
      Pow2Mono(ManWidth(fmt) - 1 - e, ManWidth(fmt) - 2);
      Pow2Half(ManWidth(fmt) - 1);
      Pow2Mono(1, ManWidth(fmt) - 1);
    }
  }

  lemma DenormalSeen(x: Word)
    requires ExpOf(x) == 0
    ensures ScaledValue(x, false) == HIDDEN_ONE + FracOf(x) && FracOf(x) < HIDDEN_ONE
  {
    PowOfZero();
  }

  /** Twice the fraction against a whole number of units, when the encoder adds the hidden one first. */
  lemma DenormalRounds(frac: nat, q: nat, u: nat, e: nat, max: nat, r: nat)
    requires u > 0 && u % 2 == 0 && q * u == HIDDEN_ONE && frac < HIDDEN_ONE && r == RoundHalfUp(frac, u)
    requires if e == 0 then max == 2 * q - 1 else 2 * q < max
    ensures var d, man := HIDDEN_ONE - frac, Min(max, q + r);
            && man * u >= 0
            && (Within(2 * frac, man * u, u, man == max) <==>
                  4 * d <= u || (4 * d <= 3 * u && (e == 0 || 4 * d > 2 * u)))
  {
    var h := u / 2;
    var d, man := HIDDEN_ONE - frac, Min(max, q + r);
    RoundingError(frac, u);
    NotAbove(frac, q, u, r);
    MulPositive(man, u);
    // t * u is how far the rounded fraction is from the hidden one
    var t := q - r;
    MulDistribute(t, r, u);
    MulDistribute(q, r, u);
    var tu := t * u;
    assert tu - h < d <= tu + h;
    if t >= 2 {
      MulMono(2, t, u);
      assert man == q + r;
      assert 2 * frac - man * u == tu - 2 * d;
    } else if t == 1 {
      assert tu == u && man == q + r;
    } else if e > 0 {
      assert tu == 0 && man == q + r;
    } else {
      MulDistribute(man, 1, u);
      assert tu == 0 && man == q + r - 1;
      assert 2 * frac - man * u == u - 2 * d;
    }
  }

  lemma NotAbove(frac: nat, q: nat, u: nat, r: nat)
    requires u > 0 && u % 2 == 0 && frac < q * u && r == RoundHalfUp(frac, u)
    ensures r <= q
  {
    RoundingError(frac, u);
    if r > q {
      MulMono(q + 1, r, u);
      MulDistribute(q, 1, u);
    }
  }

  /** A denormal is encoded accurately exactly under the condition. */
  lemma DenormalEncodesIff(fmt: Format, x: Word, e: nat)
    requires ExpOf(x) == 0 && !IsZero(x)
    ensures EncodesNear(fmt, x, e, false) <==> DenormalEncodes(fmt, FracOf(x), e)
  {
    hide Pow2, ScaledValue, Unit, Encode, ManOf, RoundHalfUp, IsZero, ExpOf, FracOf;
    var f, w := FracOf(x), ManWidth(fmt);
    var man := Mantissa(fmt, x, e, false);
    EncodedMantissa(fmt, x, e, false);
    DenormalSeen(x);
    RealUnitIs(fmt, e, false);
    Pow2Values();
    if e >= w {
      LargeUnits(fmt, f, e);
    } else {
      SmallUnits(fmt, f, e);
      DenormalRounds(f, Pow2(w - 1 - e), Unit(fmt, e), e, ManMax(fmt), RoundHalfUp(f, Unit(fmt, e)));
    }
  }

  // ----- numbers outside the 5-bit exponents of the `a` formats

  /** Below the 5-bit exponents every number is seen as the smallest: 2^23 at exponent 0, which is more than it is. */
  lemma SmallSeen(x: Word)
    requires ExpOf(x) < 112
    ensures ScaledValue(x, true) == HIDDEN_ONE
    ensures Magnitude(x).Some? && Magnitude(x).value < HIDDEN_ONE * Pow2(112)
    ensures ExpOf(x) < 111 ==> 2 * Magnitude(x).value < HIDDEN_ONE * Pow2(112)
    ensures ExpOf(x) == 111 ==> 2 * Magnitude(x).value == (HIDDEN_ONE + FracOf(x)) * Pow2(112)
  {
    hide Pow2, FracOf;
    PowOfZero();
    FieldsOf(x);
    Pow2Half(112);
    Pow2Half(111);
    Pow2Half(1);
    var s, e := HIDDEN_ONE + FracOf(x), if ExpOf(x) == 0 then 1 else ExpOf(x);
    assert Magnitude(x).value <= s * Pow2(e);
    if ExpOf(x) < 111 {
      Pow2Mono(e, 110);
      ProductBelow(s, 2 * HIDDEN_ONE, Pow2(e), Pow2(110));
    } else {
      ProductBelow(s, 2 * HIDDEN_ONE, Pow2(111), Pow2(111));
    }
  }

  /** The smallest number of the 5-bit exponents, in units. */
  lemma SmallMantissa(fmt: Format, x: Word, e: nat)
    requires ExpOf(x) < 112
    ensures var man, u := Mantissa(fmt, x, e, true), Unit(fmt, e);
            && (e > ManWidth(fmt) ==> man == 0 && u >= 4 * HIDDEN_ONE)
            && (e == ManWidth(fmt) ==> man == 1 && u == 2 * HIDDEN_ONE)
            && (e < ManWidth(fmt) ==> man * u == HIDDEN_ONE)
  {
    hide Pow2, ScaledValue, Unit, RoundHalfUp;
    SmallSeen(x);
    Pow2Values();
    if e >= ManWidth(fmt) {
      LargeUnits(fmt, 0, e);
    } else {
      SmallUnits(fmt, 0, e);
      NothingRounds(Unit(fmt, e));
      Pow2Mono(0, ManWidth(fmt) - 1 - e);
      PowOfZero();
    }
  }

  lemma NothingRounds(u: nat)
    requires u > 0
    ensures RoundHalfUp(0, u) == 0
  {
    DivModUnique(u / 2, 0, u / 2, u);
  }

  /** A number below the smallest encodable one, against that one in units. */
  lemma SmallWithin(fmt: Format, v: nat, man: nat, u: nat, p: nat, clamped: bool, frac: nat, atTop: bool)
    requires u > 0 && u % 2 == 0 && p > 0 && man * u == HIDDEN_ONE && v < HIDDEN_ONE * p
    requires if atTop then 2 * v == (HIDDEN_ONE + frac) * p else 2 * v < HIDDEN_ONE * p
    ensures u * p > 0 && man * (u * p) >= 0
    ensures Within(v, man * (u * p), u * p, clamped) <==> atTop && frac + u >= HIDDEN_ONE
  {
    MulPositive(u, p);
    MulPositive(man, u * p);
    MulAssoc(man, u, p);
    var h := u / 2;
    MulAssoc(2, h, p);
    // man * (u * p) is HIDDEN_ONE * p, which is above v
    if atTop {
      var diff := HIDDEN_ONE - frac;
      MulDistribute(HIDDEN_ONE + frac, diff, p);
      if diff <= u {
        MulMono(diff, u, p);
      } else {
        MulMono(u + 1, diff, p);
        MulDistribute(u, 1, p);
      }
    } else {
      UnitAtMost(man, u);
      MulMono(u, HIDDEN_ONE, p);
    }
  }

  lemma UnitAtMost(man: nat, u: nat)
    requires man * u == HIDDEN_ONE
    ensures u <= HIDDEN_ONE
  {
    if man > 0 {
      MulMono(1, man, u);
    }
  }

  lemma SmallEncodesIff(fmt: Format, x: Word, e: nat)
    requires ExpOf(x) < 112 && !IsZero(x)
    ensures EncodesNear(fmt, x, e, true) <==> SmallEncodes(fmt, x, e)
  {
    hide Pow2, ScaledValue, Unit, Encode, ManOf, RoundHalfUp, IsZero, ExpOf, FracOf, Mantissa, Magnitude, Within,
         RealUnit;
    var man, u, p := Mantissa(fmt, x, e, true), Unit(fmt, e), Pow2(112);
    EncodedMantissa(fmt, x, e, true);
    SmallSeen(x);
    SmallMantissa(fmt, x, e);
    RealUnitIs(fmt, e, true);
    var v := Magnitude(x).value;
    if e < ManWidth(fmt) {
      SmallWithin(fmt, v, man, u, p, man == ManMax(fmt), FracOf(x), ExpOf(x) == 111);
    } else {
      LargeWithin(v, u, p, man, man == ManMax(fmt));
    }
  }

  /** Zero units are near a small number, one large unit is not. */
  lemma LargeWithin(v: nat, u: nat, p: nat, man: nat, clamped: bool)
    requires v < HIDDEN_ONE * p && p > 0
    requires (man == 0 && u >= 4 * HIDDEN_ONE) || (man == 1 && u == 2 * HIDDEN_ONE)
    ensures u * p > 0 && man * (u * p) >= 0
    ensures Within(v, man * (u * p), u * p, clamped) <==> man == 0
  {
    MulPositive(u, p);
    if man == 0 {
      MulMono(4 * HIDDEN_ONE, u, p);
    }
  }

  /** Above the 5-bit exponents every number is seen as the largest, and is at least a whole unit more. */
  lemma SaturatedIsFar(fmt: Format, x: Word)
    requires 143 < ExpOf(x) < 255
    ensures !EncodesNear(fmt, x, 31, true)
  {
    hide Pow2, Encode, ManOf, RoundHalfUp, IsZero, ExpOf, FracOf, Within, RealUnit, Unit;
    var u, m := RealUnit(fmt, 31, true), Mantissa(fmt, x, 31, true);
    NotZero(x);
    EncodedMantissa(fmt, x, 31, true);
    ManBelowTop(fmt, x, 31, true);
    TopUnits(fmt);
    Pow2Mono(144, ExpOf(x));
    MulMono(HIDDEN_ONE, HIDDEN_ONE + FracOf(x), Pow2(ExpOf(x)));
    MulMono(Pow2(144), Pow2(ExpOf(x)), HIDDEN_ONE);
    MulMono(m + 1, Pow2(ManWidth(fmt)), u);
    MulDistribute(m, 1, u);
    FarIsNotWithin(Magnitude(x).value, m * u, u, m == ManMax(fmt));
  }

  lemma NotZero(x: Word)
    requires ExpOf(x) > 0
    ensures !IsZero(x)
  {
    FieldsOf(x);
  }

  lemma TopUnits(fmt: Format)
    ensures Pow2(ManWidth(fmt)) * RealUnit(fmt, 31, true) == HIDDEN_ONE * Pow2(144) && RealUnit(fmt, 31, true) > 1
  {
    hide Pow2;
    Pow2Values();
    Pow2Add(ManWidth(fmt), ManShift(fmt) + 143);
    Pow2Add(23, 144);
    Pow2Half(ManShift(fmt) + 143);
  }

  lemma FarIsNotWithin(v: nat, approx: nat, u: nat, clamped: bool)
    requires u > 1 && v >= approx + u
    ensures !Within(v, approx, u, clamped)
  {
  }

  // ----- the encoder

  /**
   The datum denotes a number within half a unit of the input, or less than one below it when clamped, exactly
   under the condition.
   */
  lemma EncodesNearIff(fmt: Format, x: Word, e: nat, isExpA: bool)
    requires ScaledExp(x, isExpA) <= e && (isExpA ==> e <= 31) && ExpOf(x) < 255
    ensures EncodesNear(fmt, x, e, isExpA) <==> Encodes(fmt, x, e, isExpA)
  {
    hide Pow2, EncodesNear, DenormalEncodes, SmallEncodes, Mantissa;
    if IsZero(x) {
      ZeroEncodes(fmt, x, e, isExpA);
    } else if isExpA {
      if ExpOf(x) < 112 {
        SmallEncodesIff(fmt, x, e);
      } else if ExpOf(x) <= 143 {
        InRangeEncodes(fmt, x, e, true);
      } else {
        SaturatedIsFar(fmt, x);
      }
    } else if ExpOf(x) == 0 {
      DenormalEncodesIff(fmt, x, e);
    } else {
      InRangeEncodes(fmt, x, e, false);
    }
  }

  lemma ZeroEncodes(fmt: Format, x: Word, e: nat, isExpA: bool)
    requires IsZero(x)
    ensures EncodesNear(fmt, x, e, isExpA)
  {
    hide Pow2, Encode, Unit;
    EncodedMantissa(fmt, x, e, isExpA);
    FieldsOf(x);
  }

  // ----- the decoder

  /**
   Decoding is exact exactly when the decoded exponent field is that of a normal number; at zero the hidden
   one is lost.
   */
  lemma DecodeExact(fmt: Format, sign: nat, man: nat, e: nat, isExpA: bool)
    requires sign <= 1 && Decodable(fmt, man, e, isExpA)
    ensures var x, u := Decode(fmt, sign * Pow2(ManWidth(fmt)) + man, e, isExpA), RealUnit(fmt, e, isExpA);
            && SignOf(x) == sign
            && ExpOf(x) == e - NormShift(fmt, man) + Bias(isExpA)
            && (Magnitude(x) == Some(man * u) <==> 1 <= ExpOf(x) <= 254)
            && (ExpOf(x) == 0 ==> man * u >= HIDDEN_ONE && Magnitude(x) == Some(2 * (man * u - HIDDEN_ONE)))
  {
    hide Pow2, Decode, NormShift, SignOf, ExpOf;
    DecodedFields(fmt, sign, man, e, isExpA);
    var x := Decode(fmt, sign * Pow2(ManWidth(fmt)) + man, e, isExpA);
    FieldsOf(x);
    PowOfZero();
  }

  // ----- there and back

  /** The word that comes back denotes a number near the input, with its sign unless it is zero. */
  predicate ReturnsNear(fmt: Format, x: Word, e: nat, isExpA: bool)
  {
    var y, u := Quantised(fmt, x, e, isExpA), RealUnit(fmt, e, isExpA);
    && Magnitude(x).Some? && Magnitude(y).Some?
    && (y == 0 || SignOf(y) == SignOf(x))
    && Within(Magnitude(x).value, Magnitude(y).value, u, ManOf(fmt, Encode(fmt, x, e, isExpA)) == ManMax(fmt))
  }

  /** A finite number in a row with an infinity or a NaN is not so large that it comes back as an infinity. */
  predicate StaysFinite(fmt: Format, x: Word, e: nat)
  {
    !(e == 255 && ExpOf(x) == 254 && FracOf(x) + Pow2(ManShift(fmt)) >= HIDDEN_ONE)
  }

  /**
   A denormal comes back with twice the error its fraction is rounded with, so the fraction must be within a
   quarter of a unit of a whole number of units; the last unit under exponent 0 is rounded down, not up.
   */
  predicate DenormalReturns(fmt: Format, frac: nat, e: nat)
  {
    var u := Unit(fmt, e);
    var rest := frac % u;
    || e > ManWidth(fmt)
    || (e == ManWidth(fmt) && 2 * frac >= HIDDEN_ONE)
    || (e < ManWidth(fmt)
        && if e == 0 && frac + u >= HIDDEN_ONE then 2 * rest < u else 4 * rest <= u || 4 * rest >= 3 * u)
  }

  predicate Returns(fmt: Format, x: Word, e: nat, isExpA: bool)
  {
    || IsZero(x)
    || (!isExpA && 1 <= ExpOf(x) <= 254 && StaysFinite(fmt, x, e))
    || (!isExpA && ExpOf(x) == 0 && DenormalReturns(fmt, FracOf(x), e))
    || (isExpA && 112 <= ExpOf(x) <= 143)
    || (isExpA && ExpOf(x) < 112 && SmallEncodes(fmt, x, e))
  }

  /** What comes back, in terms of the datum's mantissa. */
  lemma ReturnedMagnitude(fmt: Format, x: Word, e: nat, isExpA: bool)
    requires ScaledExp(x, isExpA) <= e < 0x100 && (isExpA ==> e <= 31)
    ensures var y, u := Quantised(fmt, x, e, isExpA), RealUnit(fmt, e, isExpA);
            var man := ManOf(fmt, Encode(fmt, x, e, isExpA));
            && (y == 0 || SignOf(y) == SignOf(x))
            && (man == 0 ==> y == 0)
            && (man > 0 ==>
                 && man < Pow2(ManWidth(fmt)) && ExpOf(y) == e - NormShift(fmt, man) + Bias(isExpA)
                 && ExpOf(y) >= ScaledExp(x, isExpA) + Bias(isExpA)
                 && (Magnitude(y) == Some(man * u) <==> 1 <= ExpOf(y) <= 254)
                 && (ExpOf(y) == 0 ==> man * u >= HIDDEN_ONE && Magnitude(y) == Some(2 * (man * u - HIDDEN_ONE)))
                 && (ExpOf(y) == 255 ==> Magnitude(y).None?))
  {
    hide Pow2, Decode, Mantissa, RealUnit, ScaledExp, SignOf, ExpOf, IsNormShift;
    var m := Mantissa(fmt, x, e, isExpA);
    EncodedMantissa(fmt, x, e, isExpA);
    FieldsOf(x);
    DecodeOfZero(fmt, e, isExpA);
    if !IsZero(x) && m > 0 {
      ShiftCountSafe(fmt, x, e, isExpA);
      EncodedIsDecodable(fmt, x, e, isExpA);
      DecodeExact(fmt, SignOf(x), m, e, isExpA);
    }
  }

  lemma ZeroMagnitude()
    ensures Magnitude(0) == Some(0)
  {
  }

  /** Where decoding is exact, the round trip is as accurate as the encoder. */
  lemma ReturnsAsEncoded(fmt: Format, x: Word, e: nat, isExpA: bool)
    requires ScaledExp(x, isExpA) <= e < 0x100 && (isExpA ==> e <= 31)
    requires 1 <= ExpOf(Quantised(fmt, x, e, isExpA)) <= 254 || ManOf(fmt, Encode(fmt, x, e, isExpA)) == 0
    ensures ReturnsNear(fmt, x, e, isExpA) <==> EncodesNear(fmt, x, e, isExpA)
  {
    hide Pow2, Quantised, Encode, ManOf, RealUnit, ScaledExp, SignOf, ExpOf, NormShift, Within, Magnitude;
    ReturnedMagnitude(fmt, x, e, isExpA);
    ZeroMagnitude();
    if ManOf(fmt, Encode(fmt, x, e, isExpA)) == 0 {
      ZeroTimes(RealUnit(fmt, e, isExpA));
    }
  }

  lemma ZeroTimes(u: nat)
    ensures 0 * u == 0
  {
  }

  /** A normal number comes back as an infinity or a NaN exactly when it is too near 2^128 in a row with one. */
  lemma ComesBackFinite(fmt: Format, x: Word, e: nat)
    requires 1 <= ExpOf(x) <= e < 0x100 && ExpOf(x) <= 254
    ensures var man := ManOf(fmt, Encode(fmt, x, e, false));
            man > 0 && ExpOf(Quantised(fmt, x, e, false)) == 255 <==> !StaysFinite(fmt, x, e)
  {
    hide Pow2, Quantised, Encode, ManOf, RealUnit, SignOf, ExpOf, FracOf, Magnitude, IsZero, Mantissa, IsNormShift;
    var m := Mantissa(fmt, x, e, false);
    NotZero(x);
    EncodedMantissa(fmt, x, e, false);
    ReturnedMagnitude(fmt, x, e, false);
    if e == 255 {
      TopMantissa(fmt, x);
      if m > 0 {
        ManBelowTop(fmt, x, e, false);
        NormShiftZeroIff(fmt, m);
      }
    }
  }

  lemma NormShiftZeroIff(fmt: Format, man: nat)
    requires 0 < man < Pow2(ManWidth(fmt))
    ensures NormShift(fmt, man) == 0 <==> 2 * man >= Pow2(ManWidth(fmt))
  {
    hide Pow2;
  }

  /** Under exponent 255 the mantissa of a finite number has its top bit exactly when it rounds up to 2^128. */
  lemma TopMantissa(fmt: Format, x: Word)
    requires 1 <= ExpOf(x) <= 254
    ensures 2 * Mantissa(fmt, x, 255, false) >= Pow2(ManWidth(fmt)) <==>
            ExpOf(x) == 254 && FracOf(x) + Pow2(ManShift(fmt)) >= HIDDEN_ONE
  {
    hide Pow2, ExpOf, FracOf, RoundHalfUp, Unit, ScaledValue;
    var v, u, top := ScaledValue(x, false), Unit(fmt, 255), Pow2(ManWidth(fmt) - 1);
    Pow2Half(ManWidth(fmt));
    Pow2Mono(0, ManWidth(fmt) - 1);
    PowOfZero();
    FieldsOf(x);
    TopScale(fmt);
    PlainScale(x);
    AtLeastIff(v, u, top);
    Pow2Half(254);
    if ExpOf(x) < 254 {
      Pow2Mono(ExpOf(x), 253);
    }
    ReachesTop(HIDDEN_ONE + FracOf(x), Pow2(ManShift(fmt)), Pow2(254), Pow2(253), Pow2(ExpOf(x)), ExpOf(x) == 254);
  }

  lemma PlainScale(x: Word)
    ensures ScaledValue(x, false) == (HIDDEN_ONE + FracOf(x)) * Pow2(ExpOf(x))
  {
  }

  /** The top mantissa bit and half a unit under exponent 255, on the scale of 2^254. */
  lemma TopScale(fmt: Format)
    ensures Unit(fmt, 255) / 2 == Pow2(ManShift(fmt)) * Pow2(254)
    ensures Pow2(ManWidth(fmt) - 1) * Unit(fmt, 255) == 2 * HIDDEN_ONE * Pow2(254)
    ensures Pow2(ManShift(fmt)) <= HIDDEN_ONE
  {
    hide Pow2;
    Pow2Values();
    Pow2Add(ManWidth(fmt) - 1, ManShift(fmt) + 255);
    Pow2Add(24, 254);
    Pow2Half(ManShift(fmt) + 255);
    Pow2Add(ManShift(fmt), 254);
    Pow2Mono(ManShift(fmt), 23);
  }

  /** Rounding reaches a whole number of units exactly from half a unit below it. */
  lemma AtLeastIff(v: nat, u: nat, k: nat)
    requires u > 0
    ensures RoundHalfUp(v, u) >= k <==> v + u / 2 >= k * u
  {
    DivModSplit(v + u / 2, u);
    if v + u / 2 >= k * u {
      DivMono(k * u, v + u / 2, u);
      DivModUnique(k * u, k, 0, u);
    } else if RoundHalfUp(v, u) >= k {
      MulMono(k, RoundHalfUp(v, u), u);
    }
  }

  lemma ReachesTop(s: nat, half: nat, p: nat, lower: nat, power: nat, atTop: bool)
    requires HIDDEN_ONE <= s < 2 * HIDDEN_ONE && half <= HIDDEN_ONE && p == 2 * lower && lower > 0
    requires if atTop then power == p else power <= lower
    ensures s * power + half * p >= 2 * HIDDEN_ONE * p <==> atTop && s + half >= 2 * HIDDEN_ONE
  {
    if atTop {
      MulDistribute(s, half, p);
      if s + half >= 2 * HIDDEN_ONE {
        MulMono(2 * HIDDEN_ONE, s + half, p);
      } else {
        ProductBelow(s + half, 2 * HIDDEN_ONE, p, p);
      }
    } else {
      MulMono(power, lower, s);
      ProductBelow(s, 2 * HIDDEN_ONE, lower, lower);
      MulMono(half, HIDDEN_ONE, p);
    }
  }

  // ----- denormals there and back

  /** A denormal comes back as the rounded fraction, twice. */
  lemma DenormalComesBack(fmt: Format, x: Word, e: nat)
    requires ExpOf(x) == 0 && !IsZero(x) && e <= ManWidth(fmt) && ManOf(fmt, Encode(fmt, x, e, false)) > 0
    requires ManOf(fmt, Encode(fmt, x, e, false)) * Unit(fmt, e) <= 2 * HIDDEN_ONE
    ensures var man, u := ManOf(fmt, Encode(fmt, x, e, false)), Unit(fmt, e);
            man * u >= HIDDEN_ONE && Magnitude(Quantised(fmt, x, e, false)) == Some(2 * (man * u - HIDDEN_ONE))
  {
    hide Pow2, Quantised, Encode, ManOf, RealUnit, SignOf, FracOf, IsZero, Unit, NormShift;
    ReturnedMagnitude(fmt, x, e, false);
    RealUnitIs(fmt, e, false);
    var y := Quantised(fmt, x, e, false);
    if ExpOf(y) > 0 {
      NormalAtLeast(y);
    }
  }

  /** Normal numbers are at least 2^-126. */
  lemma NormalAtLeast(y: Word)
    requires 1 <= ExpOf(y) <= 254
    ensures Magnitude(y).value >= 2 * HIDDEN_ONE
  {
    hide Pow2;
    Pow2Mono(1, ExpOf(y));
    Pow2Values();
    MulMono(HIDDEN_ONE, HIDDEN_ONE + FracOf(y), Pow2(ExpOf(y)));
    MulMono(2, Pow2(ExpOf(y)), HIDDEN_ONE);
  }

  /** Twice a fraction of `k` units and a rest against twice the units that come back. */
  lemma DenormalReturnsNear(frac: nat, q: nat, u: nat, e: nat, max: nat, k: nat, rest: nat, man: nat)
    requires u % 4 == 0 && rest < u && Times(q, u) == HIDDEN_ONE && frac == Times(k, u) + rest < HIDDEN_ONE
    requires k < q && (k == q - 1 <==> frac + u >= HIDDEN_ONE)
    requires if e == 0 then max == 2 * q - 1 else 2 * q < max
    requires man == Min(max, q + if 2 * rest < u then k else k + 1)
    ensures HIDDEN_ONE <= Times(man, u) <= 2 * HIDDEN_ONE
    ensures Within(2 * frac, 2 * (Times(man, u) - HIDDEN_ONE), u, man == max) <==>
            if e == 0 && frac + u >= HIDDEN_ONE then 2 * rest < u else 4 * rest <= u || 4 * rest >= 3 * u
  {
    hide Index, Times, Within;
    var s := man - q;
    assert s == if (e == 0 && k == q - 1) || 2 * rest < u then k else k + 1;
    UnitsPastHiddenOne(q, s, u);
    UnitsApart(s, k, u);
    FractionReturns(frac, Times(k, u), rest, Times(s, u), u, man == max, s == k);
  }

  lemma UnitsApart(s: nat, k: nat, u: nat)
    requires s == k || s == k + 1
    ensures Times(s, u) == Times(k, u) + if s == k then 0 else u
  {
    MulDistribute(k, 1, u);
  }

  lemma UnitsPastHiddenOne(q: nat, s: nat, u: nat)
    requires Times(q, u) == HIDDEN_ONE && s <= q
    ensures Times(q + s, u) == HIDDEN_ONE + Times(s, u) <= 2 * HIDDEN_ONE
  {
    MulDistribute(q, s, u);
    MulMono(s, q, u);
  }

  /** The fraction of a denormal in whole units and a rest, and as it is rounded. */
  lemma FractionDigits(frac: nat, q: nat, u: nat) returns (k: nat, rest: nat)
    requires u > 0 && u % 2 == 0 && Times(q, u) == HIDDEN_ONE && frac < HIDDEN_ONE
    ensures rest == frac % u && frac == Times(k, u) + rest && rest < u
    ensures k < q && (k == q - 1 <==> frac + u >= HIDDEN_ONE)
    ensures RoundHalfUp(frac, u) == if 2 * rest < u then k else k + 1
  {
    k, rest := frac / u, frac % u;
    DivNonNegative(frac, u);
    DivModSplit(frac, u);
    RoundUpOrDown(frac, u, RoundHalfUp(frac, u));
    LastUnit(frac, q, u, k);
  }

  /** A fraction of `whole` units and a rest, against the units that come back. */
  lemma FractionReturns(frac: nat, whole: nat, rest: nat, back: nat, u: nat, clamped: bool, down: bool)
    requires u % 4 == 0 && rest < u && frac == whole + rest && back == whole + if down then 0 else u
    ensures Within(2 * frac, 2 * back, u, clamped) <==>
            if down then 4 * rest <= u || (clamped && 2 * rest < u) else 4 * rest >= 3 * u
  {
    if down {
      UpWithin(2 * frac, 2 * back, rest, u, clamped);
    } else {
      DownWithin(2 * frac, 2 * back, rest, u, clamped);
    }
  }

  lemma UpWithin(v: nat, approx: nat, rest: nat, u: nat, clamped: bool)
    requires u % 4 == 0 && rest < u && v - approx == 2 * rest
    ensures Within(v, approx, u, clamped) <==> 4 * rest <= u || (clamped && 2 * rest < u)
  {
  }

  lemma DownWithin(v: nat, approx: nat, rest: nat, u: nat, clamped: bool)
    requires u % 4 == 0 && rest < u && v - approx == 2 * rest - 2 * u
    ensures Within(v, approx, u, clamped) <==> 4 * rest >= 3 * u
  {
  }

  lemma LastUnit(frac: nat, q: nat, u: nat, k: nat)
    requires u > 0 && frac < q * u && k == frac / u
    ensures k < q && (k == q - 1 <==> frac + u >= q * u)
  {
    DivModSplit(frac, u);
    DivInRange(frac, q, u);
    MulDistribute(q - 1, 1, u);
    if k < q - 1 {
      MulMono(k + 1, q - 1, u);
      MulDistribute(k, 1, u);
    }
  }

  lemma DenormalReturnsIff(fmt: Format, x: Word, e: nat)
    requires ExpOf(x) == 0 && !IsZero(x) && e < 0x100
    ensures ReturnsNear(fmt, x, e, false) <==> DenormalReturns(fmt, FracOf(x), e)
  {
    hide Pow2, IsZero, ReturnsNear, DenormalReturns;
    if e >= ManWidth(fmt) {
      LargeDenormalReturnsIff(fmt, x, e);
    } else {
      SmallDenormalReturnsIff(fmt, x, e);
    }
  }

  lemma LargeDenormalReturnsIff(fmt: Format, x: Word, e: nat)
    requires ExpOf(x) == 0 && !IsZero(x) && ManWidth(fmt) <= e < 0x100
    ensures ReturnsNear(fmt, x, e, false) <==> DenormalReturns(fmt, FracOf(x), e)
  {
    hide Pow2, Quantised, Encode, ManOf, RealUnit, SignOf, FracOf, ExpOf, IsZero, Unit, NormShift, ScaledValue,
         RoundHalfUp, Within,
         Magnitude;
    var f, u := FracOf(x), Unit(fmt, e);
    EncodedMantissa(fmt, x, e, false);
    DenormalSeen(x);
    MagnitudeOfFraction(x);
    RealUnitIs(fmt, e, false);
    ReturnedMagnitude(fmt, x, e, false);
    LargeUnits(fmt, f, e);
    OneIsAMantissa(fmt);
    if e > ManWidth(fmt) {
      ZeroMagnitude();
      WithinLarge(f, u);
    } else {
      DenormalComesBack(fmt, x, e);
      WithinOne(f, ManMax(fmt) == 1);
    }
  }

  lemma OneIsAMantissa(fmt: Format)
    ensures ManMax(fmt) >= 1
  {
    hide Pow2;
    Pow2Mono(1, ManWidth(fmt));
    Pow2Values();
  }

  lemma SmallDenormalReturnsIff(fmt: Format, x: Word, e: nat)
    requires ExpOf(x) == 0 && !IsZero(x) && e < ManWidth(fmt)
    ensures ReturnsNear(fmt, x, e, false) <==> DenormalReturns(fmt, FracOf(x), e)
  {
    hide Pow2, Quantised, Encode, ManOf, RealUnit, SignOf, FracOf, ExpOf, IsZero, Unit, NormShift, Within, Magnitude,
         ManMax, DenormalReturns, RoundHalfUp, Times;
    var man := ManOf(fmt, Encode(fmt, x, e, false));
    FieldsOf(x);
    MagnitudeOfFraction(x);
    RealUnitIs(fmt, e, false);
    ReturnedMagnitude(fmt, x, e, false);
    SmallDenormalMantissa(fmt, x, e);
    SmallDenormalWithin(fmt, FracOf(x), e, man);
    IndexOfUnits(man, Unit(fmt, e));
    DenormalComesBack(fmt, x, e);
  }

  /** The mantissa of a denormal under a small shared exponent: the hidden one in units, and the rounded fraction. */
  lemma SmallDenormalMantissa(fmt: Format, x: Word, e: nat)
    requires ExpOf(x) == 0 && !IsZero(x) && e < ManWidth(fmt)
    ensures ManOf(fmt, Encode(fmt, x, e, false))
          == Min(ManMax(fmt), Pow2(ManWidth(fmt) - 1 - e) + RoundHalfUp(FracOf(x), Unit(fmt, e)))
  {
    hide Pow2, Encode, ManOf, FracOf, ExpOf, IsZero, Unit, ScaledValue, RoundHalfUp, ManMax;
    EncodedMantissa(fmt, x, e, false);
    DenormalSeen(x);
    SmallUnits(fmt, FracOf(x), e);
  }

  lemma SmallDenormalWithin(fmt: Format, frac: nat, e: nat, man: nat)
    requires frac < HIDDEN_ONE && e < ManWidth(fmt)
    requires man == Min(ManMax(fmt), Pow2(ManWidth(fmt) - 1 - e) + RoundHalfUp(frac, Unit(fmt, e)))
    ensures man > 0 && HIDDEN_ONE <= Times(man, Unit(fmt, e)) <= 2 * HIDDEN_ONE
    ensures Within(2 * frac, 2 * (Times(man, Unit(fmt, e)) - HIDDEN_ONE), Unit(fmt, e), man == ManMax(fmt))
       <==> DenormalReturns(fmt, frac, e)
  {
    hide Pow2, Unit, RoundHalfUp, Within, Index, Times, ManMax, DenormalReturns;
    var u, q := Unit(fmt, e), Pow2(ManWidth(fmt) - 1 - e);
    SmallUnits(fmt, frac, e);
    UnitInQuarters(fmt, e);
    OneIsAMantissa(fmt);
    IndexOfUnits(q, u);
    var k, rest := FractionDigits(frac, q, u);
    RestDecides(fmt, frac, e, rest);
    DenormalReturnsNear(frac, q, u, e, ManMax(fmt), k, rest, man);
  }

  lemma RestDecides(fmt: Format, frac: nat, e: nat, rest: nat)
    requires e < ManWidth(fmt) && rest == frac % Unit(fmt, e)
    ensures var u := Unit(fmt, e);
            DenormalReturns(fmt, frac, e) <==>
              if e == 0 && frac + u >= HIDDEN_ONE then 2 * rest < u else 4 * rest <= u || 4 * rest >= 3 * u
  {
    hide Unit;
  }

  lemma IndexOfUnits(a: nat, u: nat)
    ensures a * u >= 0 && Times(a, u) == a * u
  {
    MulPositive(a, u);
  }

  lemma WithinLarge(f: nat, u: nat)
    requires f < HIDDEN_ONE && u >= 4 * HIDDEN_ONE
    ensures forall clamped :: Within(2 * f, 0, u, clamped)
  {
  }

  lemma WithinOne(f: nat, clamped: bool)
    requires f < HIDDEN_ONE
    ensures Within(2 * f, 2 * HIDDEN_ONE, 2 * HIDDEN_ONE, clamped) <==> 2 * f >= HIDDEN_ONE
  {
  }

  lemma UnitInQuarters(fmt: Format, e: nat)
    ensures Unit(fmt, e) % 4 == 0
  {
    hide Pow2;
    Pow2Half(ManShift(fmt) + e);
    Pow2Half(ManShift(fmt) + e - 1);
  }

  // ----- the whole codec

  lemma NormalReturnsIff(fmt: Format, x: Word, e: nat)
    requires 1 <= ExpOf(x) <= e < 0x100 && ExpOf(x) <= 254
    ensures ReturnsNear(fmt, x, e, false) <==> StaysFinite(fmt, x, e)
  {
    hide Pow2, EncodesNear, Quantised, Encode, ManOf, ExpOf, NormShift, StaysFinite, Within, IsZero, Magnitude;
    NotZero(x);
    ComesBackFinite(fmt, x, e);
    ReturnedMagnitude(fmt, x, e, false);
    InRangeEncodes(fmt, x, e, false);
    if StaysFinite(fmt, x, e) {
      ReturnsAsEncoded(fmt, x, e, false);
    }
  }

  /** The `a` formats decode to normal numbers only, and zero comes back as zero. */
  lemma ExactReturns(fmt: Format, x: Word, e: nat, isExpA: bool)
    requires ScaledExp(x, isExpA) <= e < 0x100 && (isExpA ==> e <= 31) && (isExpA || IsZero(x))
    ensures ReturnsNear(fmt, x, e, isExpA) <==> EncodesNear(fmt, x, e, isExpA)
  {
    hide Pow2, EncodesNear, ReturnsNear, Quantised, Encode, ManOf, ExpOf, NormShift, IsZero, Magnitude, ScaledExp,
         RealUnit;
    EncodedMantissa(fmt, x, e, isExpA);
    ReturnedMagnitude(fmt, x, e, isExpA);
    ReturnsAsEncoded(fmt, x, e, isExpA);
  }

  /**
   A finite number comes back within half a unit, or less than one below it when clamped, exactly under the
   condition.
   */
  lemma ReturnsNearIff(fmt: Format, x: Word, e: nat, isExpA: bool)
    requires ScaledExp(x, isExpA) <= e < 0x100 && (isExpA ==> e <= 31) && ExpOf(x) < 255
    ensures ReturnsNear(fmt, x, e, isExpA) <==> Returns(fmt, x, e, isExpA)
  {
    hide Pow2, ReturnsNear, EncodesNear, DenormalReturns, DenormalEncodes, SmallEncodes, StaysFinite, Quantised, Encode,
         ManOf,
         NormShift, Magnitude;
    if isExpA || IsZero(x) {
      ExactReturns(fmt, x, e, isExpA);
      EncodesNearIff(fmt, x, e, isExpA);
    } else if ExpOf(x) == 0 {
      DenormalReturnsIff(fmt, x, e);
    } else {
      NormalReturnsIff(fmt, x, e);
    }
  }

  /** What a caller can rely on: zeros, and numbers whose exponent field the format has, come back near themselves. */
  lemma NormalsReturnNear(fmt: Format, x: Word, e: nat, isExpA: bool)
    requires ScaledExp(x, isExpA) <= e < 0xff && (isExpA ==> e <= 31)
    requires IsZero(x) || if isExpA then 112 <= ExpOf(x) <= 143 else 1 <= ExpOf(x) <= 254
    ensures EncodesNear(fmt, x, e, isExpA) && ReturnsNear(fmt, x, e, isExpA)
  {
    hide ReturnsNear, EncodesNear, Pow2, DenormalReturns, DenormalEncodes, SmallEncodes;
    FieldsOf(x);
    EncodesNearIff(fmt, x, e, isExpA);
    ReturnsNearIff(fmt, x, e, isExpA);
  }

  // ----- where it is not accurate

  /** A datum of 64 units decodes to zero under exponent 0. */
  lemma DatumDecodesToZero()
    ensures Decode(Bfp8, 64, 0, false) == 0
    ensures 64 * RealUnit(Bfp8, 0, false) == HIDDEN_ONE
  {
    hide Decode, Pow2, ExpOf, FracOf, SignOf, IsZero;
    Pow2Values();
    NormShiftZeroIff(Bfp8, 64);
    assert Decodable(Bfp8, 64, 0, false);
    DecodeExact(Bfp8, 0, 64, 0, false);
    Pow2Add(6, 17);
    Pow2Half(7);
    FieldsOf(Decode(Bfp8, 64, 0, false));
    MagnitudeOfFraction(Decode(Bfp8, 64, 0, false));
  }

  lemma MagnitudeOfFraction(x: Word)
    requires ExpOf(x) == 0
    ensures Magnitude(x) == Some(2 * FracOf(x))
  {
  }

  /** 2^-149 becomes 2^-126, more than half a unit away, although nothing is clamped. */
  lemma DenormalIsRaised(x: Word)
    requires x == 1
    ensures Encode(Bfp8, x, 7, false) == 1 && Magnitude(Quantised(Bfp8, x, 7, false)) == Some(0x100_0000)
    ensures Magnitude(x) == Some(2) && !ReturnsNear(Bfp8, x, 7, false)
  {
    hide Pow2, Quantised, ReturnsNear, Unit, RoundHalfUp, ScaledValue, NormShift;
    Pow2Values();
    DenormalSeen(x);
    LargeUnits(Bfp8, 1, 7);
    EncodedMantissa(Bfp8, x, 7, false);
    DenormalComesBack(Bfp8, x, 7);
    ReturnsNearIff(Bfp8, x, 7, false);
  }

  /** 2^20 becomes 130048 in a format with 5-bit exponents. */
  lemma LargeNumberSaturates(x: Word)
    requires x == 0x4980_0000
    ensures Encode(Bfp8, x, 31, true) == 127
    ensures Magnitude(x) == Some(0x10_0000 * Pow2(150))
            && Magnitude(Quantised(Bfp8, x, 31, true)) == Some(130048 * Pow2(150))
    ensures !ReturnsNear(Bfp8, x, 31, true)
  {
    hide Pow2, Quantised, ReturnsNear, Encode, Mantissa, Magnitude, ExpOf, FracOf, RealUnit, NormShift;
    FieldsOf(x);
    FieldsUnique(0, 147, 0);
    SaturatedMantissa(x);
    SaturatedDatum(x);
    ReturnsNearIff(Bfp8, x, 31, true);
    ReturnedMagnitude(Bfp8, x, 31, true);
    Pow2Values();
    NormShiftZeroIff(Bfp8, 127);
    ScaleOfExamples(x);
  }

  lemma SaturatedDatum(x: Word)
    requires Mantissa(Bfp8, x, 31, true) == 127 && SignOf(x) == 0 && !IsZero(x)
    ensures Encode(Bfp8, x, 31, true) == 127 && ManOf(Bfp8, 127) == 127
  {
    hide Mantissa, Pow2;
    Pow2Values();
  }

  lemma ScaleOfExamples(x: Word)
    requires ExpOf(x) == 147 && FracOf(x) == 0
    ensures Magnitude(x) == Some(0x10_0000 * Pow2(150))
    ensures 127 * RealUnit(Bfp8, 31, true) == 130048 * Pow2(150)
  {
    hide Pow2, ExpOf, FracOf;
    Pow2Values();
    Pow2Add(3, 147);
    Pow2Add(10, 150);
    Pow2Add(3, 7);
  }

  lemma SaturatedMantissa(x: Word)
    requires 143 < ExpOf(x) < 255
    ensures Mantissa(Bfp8, x, 31, true) == 127
  {
    hide Pow2, ExpOf;
    Pow2Values();
    Pow2Add(17, 31);
    Pow2Add(7, 17);
    AtLeastIff(ScaledValue(x, true), Unit(Bfp8, 31), 127);
    Pow2Half(17 + 31);
    Pow2Add(16, 31);
  }

  /** The largest finite number becomes an infinity in a row that holds one. */
  lemma LargestBecomesInfinite(x: Word)
    requires x == 0x7f7f_ffff
    ensures Magnitude(x).Some? && Magnitude(Quantised(Bfp8, x, 255, false)).None?
  {
    hide Pow2, Quantised, NormShift, Encode;
    Pow2Values();
    Pow2Add(7, 10);
    ComesBackFinite(Bfp8, x, 255);
  }
}
