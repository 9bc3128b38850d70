/**
 Which words the codec returns bit for bit, with the widths of the three formats in plain numbers. Under its own
 exponent a word comes back when its fraction is 0 (Bfp2), a multiple of 2^21 (Bfp4) or of 2^17 (Bfp8); each step
 from there up to the shared exponent doubles what the significand has to be a multiple of.
 */
module BlockFloatExact {
  import opened Arith
  import opened Bits
  import opened BlockFloat
  import opened Requantise
  import opened BlockFloatTiles
  import opened BlockFloatUnpack
  import opened BlockFloatRoundTrip

  /** A datum is a sign and a mantissa; the data fill the words of a face row without a gap. */
  lemma WordsAreFull(fmt: Format)
    ensures (ManWidth(fmt) + 1) * PerWord(fmt) == 32
    ensures PerWord(fmt) * RowWords(fmt) == 16
    ensures RowWords(fmt) == match fmt case Bfp2 => 1 case Bfp4 => 2 case Bfp8 => 4
  {
  }

  /** Four exponents to a word and at least four words of them, then the data. */
  lemma TileInWords(fmt: Format, t: Tile)
    requires Legal(t)
    ensures TileWords(fmt, t) == Max(4, Rows(t) / 4) + Rows(t) * RowWords(fmt)
  {
    hide Legal, Rows, RowWords;
    LegalSizes(t);
  }

  /** What a significand is a multiple of when its low bits are not kept. */
  function Step(fmt: Format): nat
  {
    match fmt
    case Bfp2 => 0x80_0000
    case Bfp4 => 0x20_0000
    case Bfp8 => 0x2_0000
  }

  /** The exponent that the encoder gives to the word is the word's own. */
  predicate KeepsExponent(x: Word, isExpA: bool)
  {
    isExpA ==> 112 <= ExpOf(x) <= 143
  }

  /** What the codec needs of a word to return it: it is zero, or its exponent is kept and so are all its bits. */
  predicate KeepsBits(fmt: Format, x: Word, e: nat, isExpA: bool)
    requires ScaledExp(x, isExpA) <= e
  {
    hide Pow2;
    StepPositive(fmt, e - ScaledExp(x, isExpA));
    || x == 0
    || (!IsZero(x) && KeepsExponent(x, isExpA)
        && (0x80_0000 + FracOf(x)) % (Step(fmt) * Pow2(e - ScaledExp(x, isExpA))) == 0)
  }

  lemma ReturnsExactlyIff(fmt: Format, x: Word, e: nat, isExpA: bool)
    requires ScaledExp(x, isExpA) <= e < 0x100 && (isExpA ==> e <= 31)
    ensures Quantised(fmt, x, e, isExpA) == x <==>
            KeepsBits(fmt, x, e, isExpA)
  {
    hide Pow2, Encode, Quantised, ScaledExp, ScaledValue, ExpOf, FracOf, Step, Unit, KeepsExponent;
    if IsZero(x) {
      EncodesToZero(fmt, x, e, isExpA);
    } else {
      if KeepsExponent(x, isExpA) {
        WholeUnitsIff(fmt, x, e, isExpA);
        if ScaledValue(x, isExpA) % Unit(fmt, e) == 0 {
          WholeUnitsReturn(fmt, x, e, isExpA);
        }
      }
      if Quantised(fmt, x, e, isExpA) == x {
        ReturnedIsWhole(fmt, x, e, isExpA);
      }
      assert x != 0;
    }
  }

  lemma EncodesToZero(fmt: Format, x: Word, e: nat, isExpA: bool)
    requires IsZero(x) || Mantissa(fmt, x, e, isExpA) == 0
    ensures Quantised(fmt, x, e, isExpA) == 0
  {
    hide Decode, Mantissa;
    DecodeOfZero(fmt, e, isExpA);
  }

  /** Under exponent `e`, the bits of a significand at exponent `own` below this many units are not kept. */
  lemma StepIsUnit(fmt: Format, e: nat, own: nat)
    requires own <= e
    ensures Unit(fmt, e) == (Step(fmt) * Pow2(e - own)) * Pow2(own)
  {
    hide Pow2;
    Pow2Values();
    Pow2Add(17, 6);
    Pow2Add(17, 7);
    Pow2Add(21, 3);
    Pow2Add(ManShift(fmt), e);
    Pow2Add(e - own, own);
    StepIsPower(fmt);
    MulAssoc(Step(fmt), Pow2(e - own), Pow2(own));
  }

  lemma StepIsPower(fmt: Format)
    ensures Step(fmt) == Pow2(ManShift(fmt))
  {
    hide Pow2;
    Pow2Values();
    Pow2Add(17, 7);
    Pow2Add(21, 3);
    Pow2Add(23, 1);
  }

  lemma WholeUnitsIff(fmt: Format, x: Word, e: nat, isExpA: bool)
    requires ScaledExp(x, isExpA) <= e && KeepsExponent(x, isExpA)
    ensures ScaledValue(x, isExpA) % Unit(fmt, e) == 0 <==>
            (0x80_0000 + FracOf(x)) % (Step(fmt) * Pow2(e - ScaledExp(x, isExpA))) == 0
  {
    hide Pow2, ScaledExp, ExpOf, FracOf, Step, Unit;
    KeptFields(x, isExpA);
    var own := ScaledExp(x, isExpA);
    StepIsUnit(fmt, e, own);
    StepPositive(fmt, e - own);
    WholeMultiple(HIDDEN_ONE + FracOf(x), Step(fmt) * Pow2(e - own), Pow2(own));
  }

  lemma StepPositive(fmt: Format, d: nat)
    ensures Step(fmt) * Pow2(d) > 0
  {
    hide Pow2;
    MulPositive(Step(fmt), Pow2(d));
  }

  lemma KeptFields(x: Word, isExpA: bool)
    ensures KeepsExponent(x, isExpA) ==>
              ExpOf(x) == ScaledExp(x, isExpA) + Bias(isExpA) && ScaledFrac(x, isExpA) == FracOf(x)
    ensures KeepsExponent(x, isExpA) <==> Bias(isExpA) <= ExpOf(x) <= Bias(isExpA) + (if isExpA then 31 else 255)
  {
    FieldsOf(x);
  }

  lemma WholeMultiple(a: nat, b: nat, c: nat)
    requires b > 0 && c > 0
    ensures (b * c) > 0 && ((a * c) % (b * c) == 0 <==> a % b == 0)
  {
    MulPositive(b, c);
    DivCancel(a, b, c);
    DivModSplit(a, b);
    DivModSplit(a * c, b * c);
    var q := a / b;
    MulAssoc(q, b, c);
    MulDistribute(q * b, a % b, c);
    assert (a * c) % (b * c) == (a % b) * c;
    MulPositive(a % b, c);
  }

  /** An input of a whole number of units is that number of units, which is its mantissa. */
  lemma WholeMantissa(fmt: Format, x: Word, e: nat, isExpA: bool)
    requires ScaledExp(x, isExpA) <= e && ScaledValue(x, isExpA) % Unit(fmt, e) == 0
    ensures Mantissa(fmt, x, e, isExpA) > 0
    ensures ScaledValue(x, isExpA) == Mantissa(fmt, x, e, isExpA) * Unit(fmt, e)
  {
    hide Pow2, ScaledExp, ScaledFrac, Unit, RoundHalfUp;
    var v, u := ScaledValue(x, isExpA), Unit(fmt, e);
    DivModSplit(v, u);
    DivNonNegative(v, u);
    RoundExact(v / u, u);
    MulPositive(HIDDEN_ONE + ScaledFrac(x, isExpA), Pow2(ScaledExp(x, isExpA)));
    InputBelowCeiling(fmt, x, e, isExpA);
    DivInRange(v, Pow2(ManWidth(fmt)), u);
  }

  lemma WholeUnitsReturn(fmt: Format, x: Word, e: nat, isExpA: bool)
    requires ScaledExp(x, isExpA) <= e < 0x100 && (isExpA ==> e <= 31)
    requires !IsZero(x) && KeepsExponent(x, isExpA) && ScaledValue(x, isExpA) % Unit(fmt, e) == 0
    ensures Quantised(fmt, x, e, isExpA) == x
  {
    hide Pow2, Decode, Mantissa, ScaledExp, ScaledFrac, SignOf, ExpOf, FracOf, Unit, KeepsExponent, NormShift, IsZero;
    var m, y := Mantissa(fmt, x, e, isExpA), Quantised(fmt, x, e, isExpA);
    WholeMantissa(fmt, x, e, isExpA);
    FieldsOf(x);
    FieldsOf(y);
    EncodedIsDecodable(fmt, x, e, isExpA);
    DecodedFields(fmt, SignOf(x), m, e, isExpA);
    KeptFields(x, isExpA);
    BiasedUnits(fmt, m, e, isExpA, HIDDEN_ONE + FracOf(x), ScaledExp(x, isExpA));
    SignificandUnique(FracOf(x), ExpOf(x), FracOf(y), ExpOf(y));
  }

  /** The same number of units at the biased exponents. */
  lemma BiasedUnits(fmt: Format, m: nat, e: nat, isExpA: bool, s: nat, own: nat)
    ensures s * Pow2(own) == m * Unit(fmt, e) <==>
            s * Pow2(own + Bias(isExpA)) == m * Unit(fmt, e + Bias(isExpA))
  {
    hide Pow2;
    var b := Pow2(Bias(isExpA));
    Pow2Add(own, Bias(isExpA));
    Pow2Add(ManShift(fmt) + e, Bias(isExpA));
    MulAssoc(s, Pow2(own), b);
    MulAssoc(m, Unit(fmt, e), b);
    CancelFactor(s * Pow2(own), m * Unit(fmt, e), b);
  }

  lemma CancelFactor(a: nat, b: nat, c: nat)
    requires c > 0
    ensures a * c == b * c <==> a == b
  {
    if a < b {
      ProductBelow(a, b, c, c);
    } else if b < a {
      ProductBelow(b, a, c, c);
    }
  }

  /** A hidden one makes significand and exponent unique. */
  lemma SignificandUnique(f: nat, p: nat, g: nat, q: nat)
    requires f < HIDDEN_ONE && g < HIDDEN_ONE
    requires (HIDDEN_ONE + f) * Pow2(p) == (HIDDEN_ONE + g) * Pow2(q)
    ensures p == q && f == g
  {
    hide Pow2;
    if p < q {
      SignificandBelow(f, p, g, q);
    } else if q < p {
      SignificandBelow(g, q, f, p);
    } else {
      CancelFactor(HIDDEN_ONE + f, HIDDEN_ONE + g, Pow2(p));
    }
  }

  lemma SignificandBelow(f: nat, p: nat, g: nat, q: nat)
    requires f < HIDDEN_ONE && p < q
    ensures (HIDDEN_ONE + f) * Pow2(p) < (HIDDEN_ONE + g) * Pow2(q)
  {
    hide Pow2;
    Pow2Half(p + 1);
    Pow2Mono(p + 1, q);
    ProductBelow(HIDDEN_ONE + f, 2 * HIDDEN_ONE, Pow2(p), Pow2(p));
    MulAssoc(HIDDEN_ONE, 2, Pow2(p));
    MulMono(Pow2(p + 1), Pow2(q), HIDDEN_ONE);
    MulMono(HIDDEN_ONE, HIDDEN_ONE + g, Pow2(q));
  }

  lemma ReturnedIsWhole(fmt: Format, x: Word, e: nat, isExpA: bool)
    requires ScaledExp(x, isExpA) <= e < 0x100 && (isExpA ==> e <= 31)
    requires !IsZero(x) && Quantised(fmt, x, e, isExpA) == x
    ensures KeepsExponent(x, isExpA) && ScaledValue(x, isExpA) % Unit(fmt, e) == 0
  {
    hide Pow2, Decode, Mantissa, ScaledExp, ScaledFrac, SignOf, ExpOf, FracOf, Unit, KeepsExponent, NormShift;
    var m := Mantissa(fmt, x, e, isExpA);
    if m == 0 {
      EncodesToZero(fmt, x, e, isExpA);
      assert false;
    }
    FieldsOf(x);
    EncodedIsDecodable(fmt, x, e, isExpA);
    ShiftCountSafe(fmt, x, e, isExpA);
    DecodedFields(fmt, SignOf(x), m, e, isExpA);
    KeptFields(x, isExpA);
    BiasedUnits(fmt, m, e, isExpA, HIDDEN_ONE + FracOf(x), ScaledExp(x, isExpA));
    DivModUnique(ScaledValue(x, isExpA), m, 0, Unit(fmt, e));
  }

  /** An element comes back from a packed tile bit for bit exactly when its face row's exponent keeps its bits. */
  lemma ElementReturnsIff(fmt: Format, t: Tile, v: seq<Word>, rowMajor: bool, isExpA: bool, floats: seq<Word>, p: nat)
    requires Legal(t)
    requires Filled(fmt, t, PackedWords(fmt, t, v, rowMajor, isExpA), rowMajor, isExpA, floats, |floats|)
    requires p < |floats|
    ensures p < |v| && TileOf(t, rowMajor, p) < |v| / TileSize(t)
    ensures var e := SharedExp(t, v, rowMajor, isExpA, TileOf(t, rowMajor, p), RowOf(t, rowMajor, p));
            ScaledExp(v[p], isExpA) <= e && (floats[p] == v[p] <==> KeepsBits(fmt, v[p], e, isExpA))
  {
    hide PackedWords, TileSize, Rows, Legal, Position, Rank, Filled, Quantised, SharedExp, KeepsBits, ScaledExp,
         FaceRow;
    RoundTripInPlace(fmt, t, v, rowMajor, isExpA, floats, p);
    var n, k := TileOf(t, rowMajor, p), RowOf(t, rowMajor, p);
    InOwnRow(t, v, rowMajor, isExpA, p);
    ReturnsExactlyIff(fmt, v[p], SharedExp(t, v, rowMajor, isExpA, n, k), isExpA);
  }

  /** An element takes part in the exponent of the face row that its position belongs to. */
  lemma InOwnRow(t: Tile, v: seq<Word>, rowMajor: bool, isExpA: bool, p: nat)
    requires Legal(t) && p < Tiles(t, v) * TileSize(t) <= |v| && TileOf(t, rowMajor, p) < Tiles(t, v)
    ensures var e := SharedExp(t, v, rowMajor, isExpA, TileOf(t, rowMajor, p), RowOf(t, rowMajor, p));
            ScaledExp(v[p], isExpA) <= e < 0x100 && (isExpA ==> e <= 31)
  {
    hide TileSize, Rows, Legal, Position, Rank, ScaledExp;
    PositionRow(t, rowMajor, Tiles(t, v), p);
    var n, k, j := TileOf(t, rowMajor, p), RowOf(t, rowMajor, p), Rank(t, rowMajor, p) % FACE_WIDTH;
    SharedExpOf(t, v, rowMajor, isExpA, n, k);
    assert FaceRow(t, v, rowMajor, n, k)[j] == v[p];
  }

  /** 1.75 is seven quarters, which three bits hold: Bfp4 returns it, and Bfp2 does not. */
  lemma SevenQuarters(x: Word)
    requires x == 0x3fe0_0000
    ensures Encode(Bfp4, x, 127, false) == 7 && Quantised(Bfp4, x, 127, false) == x
    ensures Quantised(Bfp2, x, 127, false) != x
  {
    hide Pow2, Decode, RoundHalfUp, Quantised;
    PowOfZero();
    ReturnsExactlyIff(Bfp4, x, 127, false);
    ReturnsExactlyIff(Bfp2, x, 127, false);
    SevenUnits(x);
    Pow2Values();
  }

  lemma SevenUnits(x: Word)
    requires x == 0x3fe0_0000
    ensures RoundHalfUp(ScaledValue(x, false), Unit(Bfp4, 127)) == 7
  {
    hide Pow2, RoundHalfUp;
    Pow2Values();
    Pow2Add(21, 3);
    Pow2Add(21, 127);
    RoundExact(7, Unit(Bfp4, 127));
  }
}
