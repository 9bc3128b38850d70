/**
 The tile codec end to end: unpacking what was packed gives every element its own quantised value, and
 packing that again gives the same words, exactly when no element is of the lost kind.
 */
module BlockFloatRoundTrip {
  import opened Arith
  import opened Bits
  import opened BlockFloat
  import opened Requantise
  import opened BlockFloatTiles
  import opened BlockFloatUnpack

  /** Number of whole tiles in the input. */
  function Tiles(t: Tile, v: seq<Word>): nat
    requires Legal(t)
  {
    TilesFit(t, |v|);
    DivNonNegative(|v|, TileSize(t));
    |v| / TileSize(t)
  }

  function PackedWords(fmt: Format, t: Tile, v: seq<Word>, rowMajor: bool, isExpA: bool): seq<nat>
    requires Legal(t)
  {
    Packed(fmt, t, v, rowMajor, isExpA, Tiles(t, v))
  }

  lemma PackedTiles(fmt: Format, t: Tile, v: seq<Word>, rowMajor: bool, isExpA: bool)
    requires Legal(t)
    ensures TileWords(fmt, t) > 0
    ensures |PackedWords(fmt, t, v, rowMajor, isExpA)| == Tiles(t, v) * TileWords(fmt, t)
    ensures |PackedWords(fmt, t, v, rowMajor, isExpA)| / TileWords(fmt, t) == Tiles(t, v)
  {
    hide TileWords, TileSize, Packed;
    TileWordsPositive(fmt, t);
    DivModUnique(Tiles(t, v) * TileWords(fmt, t), Tiles(t, v), 0, TileWords(fmt, t));
  }

  // ----- reading packed words back

  lemma ReadExpByte(fmt: Format, t: Tile, v: seq<Word>, rowMajor: bool, isExpA: bool, n: nat, k: nat)
    requires Legal(t) && n < Tiles(t, v) && k < Rows(t)
    ensures TileWords(fmt, t) > 0
    ensures n < |PackedWords(fmt, t, v, rowMajor, isExpA)| / TileWords(fmt, t)
    ensures ExpByteAt(fmt, t, PackedWords(fmt, t, v, rowMajor, isExpA), n, k) == SharedExp(t, v, rowMajor, isExpA, n, k)
  {
    hide Packed, TileWords, TileSize, Rows, ExpWords, SharedExp, FromDigits, Digit, DataSection, Legal, ExpBytes;
    var words := PackedWords(fmt, t, v, rowMajor, isExpA);
    PackedTiles(fmt, t, v, rowMajor, isExpA);
    WordsInRange(fmt, t, |words|, n, k, 0);
    ExpWordOfRow(t, k);
    TileWordsSplit(fmt, t);
    PackedAt(fmt, t, v, rowMajor, isExpA, Tiles(t, v), n, k / 4);
    ExpWordIs(fmt, t, v, rowMajor, isExpA, n, k);
  }

  lemma ExpWordIs(fmt: Format, t: Tile, v: seq<Word>, rowMajor: bool, isExpA: bool, n: nat, k: nat)
    requires Legal(t) && n < |v| / TileSize(t) && k < Rows(t) && k / 4 < TileWords(fmt, t)
    ensures Digit(PackedTile(fmt, t, v, rowMajor, isExpA, n)[k / 4], 0x100, k % 4)
          == SharedExp(t, v, rowMajor, isExpA, n, k)
  {
    hide TileWords, TileSize, Rows, ExpWords, SharedExp, FromDigits, Digit, DataSection, ExpBytes, Legal;
    var bytes := ExpBytes(t, v, rowMajor, isExpA, n);
    ExpWordOfRow(t, k);
    BytesAreDigits(t, v, rowMajor, isExpA, n);
    ByteAt(t, v, rowMajor, isExpA, n, k);
    DivModSplit(k, 4);
    var four := bytes[4 * (k / 4)..4 * (k / 4) + 4];
    assert four[k % 4] == bytes[k];
    DigitOf(four, 0x100, k % 4);
  }

  lemma ReadDatum(fmt: Format, t: Tile, v: seq<Word>, rowMajor: bool, isExpA: bool, n: nat, k: nat, j: nat)
    requires Legal(t) && n < Tiles(t, v) && k < Rows(t) && j < FACE_WIDTH
    ensures TileWords(fmt, t) > 0
    ensures n < |PackedWords(fmt, t, v, rowMajor, isExpA)| / TileWords(fmt, t)
    ensures DatumAt(fmt, t, PackedWords(fmt, t, v, rowMajor, isExpA), n, k, j)
         == Encode(fmt, FaceRow(t, v, rowMajor, n, k)[j], SharedExp(t, v, rowMajor, isExpA, n, k), isExpA)
  {
    hide Packed, TileWords, TileSize, Rows, ExpWords, SharedExp, FromDigits, Digit, Legal, FaceRow, Encode, PackedTile,
         DatumBase;
    var words := PackedWords(fmt, t, v, rowMajor, isExpA);
    PackedTiles(fmt, t, v, rowMajor, isExpA);
    DatumIs(fmt, t, words, n, k, j);
    var at: nat := ExpWords(t) + k * RowWords(fmt) + j / PerWord(fmt);
    DataWordIs(fmt, t, v, rowMajor, isExpA, n, k, j, at);
    PackedAt(fmt, t, v, rowMajor, isExpA, Tiles(t, v), n, at);
  }

  lemma DataWordIs(fmt: Format, t: Tile, v: seq<Word>, rowMajor: bool, isExpA: bool, n: nat, k: nat, j: nat, at: nat)
    requires Legal(t) && n < |v| / TileSize(t) && k < Rows(t) && j < FACE_WIDTH
    requires at == ExpWords(t) + k * RowWords(fmt) + j / PerWord(fmt)
    ensures at < |PackedTile(fmt, t, v, rowMajor, isExpA, n)|
    ensures Digit(PackedTile(fmt, t, v, rowMajor, isExpA, n)[at], DatumBase(fmt), j % PerWord(fmt))
         == Encode(fmt, FaceRow(t, v, rowMajor, n, k)[j], SharedExp(t, v, rowMajor, isExpA, n, k), isExpA)
  {
    hide TileSize, Rows, ExpWords, SharedExp, FromDigits, Digit, ExpBytes, Legal, FaceRow, RowWord, DatumBase, Encode;
    var q := j / PerWord(fmt);
    assert q < RowWords(fmt);
    TileWordsSplit(fmt, t);
    IndexInRange(k, q, Rows(t), RowWords(fmt));
    DivModUnique(k * RowWords(fmt) + q, k, q, RowWords(fmt));
    RowDatum(fmt, FaceRow(t, v, rowMajor, n, k), SharedExp(t, v, rowMajor, isExpA, n, k), isExpA, j);
  }

  lemma RowDatum(fmt: Format, row: seq<Word>, exp: nat, isExpA: bool, j: nat)
    requires |row| == FACE_WIDTH && j < FACE_WIDTH
    ensures j / PerWord(fmt) < RowWords(fmt)
    ensures Digit(RowWord(fmt, row, exp, isExpA, j / PerWord(fmt)), DatumBase(fmt), j % PerWord(fmt))
         == Encode(fmt, row[j], exp, isExpA)
  {
    hide FromDigits, Digit, DatumBase, Encode;
    var per, q := PerWord(fmt), j / PerWord(fmt);
    DivModSplit(j, per);
    var group := row[q * per..(q + 1) * per];
    assert group[j % per] == row[j];
    EncodedAreDigits(fmt, group, exp, isExpA);
    DigitOf(EncodedGroup(fmt, group, exp, isExpA), DatumBase(fmt), j % per);
  }

  // ----- end to end

  /** What the codec makes of `x` under shared exponent `e`. */
  function Quantised(fmt: Format, x: Word, e: nat, isExpA: bool): Word
  {
    Decode(fmt, Encode(fmt, x, e, isExpA), e, isExpA)
  }

  /** The face row that holds a position: its tile and its number. */
  function TileOf(t: Tile, rowMajor: bool, p: nat): nat
    requires Legal(t)
  {
    LegalSizes(t);
    Rank(t, rowMajor, p) / FACE_WIDTH / Rows(t)
  }

  function RowOf(t: Tile, rowMajor: bool, p: nat): (k: nat)
    requires Legal(t)
    ensures k < Rows(t)
  {
    LegalSizes(t);
    Rank(t, rowMajor, p) / FACE_WIDTH % Rows(t)
  }

  /** The input position whose element ends up at output position `p`. */
  function Source(t: Tile, rowMajorIn: bool, rowMajorOut: bool, p: nat): nat
    requires Legal(t)
  {
    Place(t, rowMajorIn, Rank(t, rowMajorOut, p))
  }

  lemma PositionRow(t: Tile, rowMajor: bool, tiles: nat, p: nat)
    requires Legal(t) && p < tiles * TileSize(t)
    ensures t.faceH > 0 && t.faceCols > 0
    ensures TileOf(t, rowMajor, p) < tiles
    ensures forall rm: bool ::
      Source(t, rm, rowMajor, p)
      == Position(t, rm, TileOf(t, rowMajor, p), RowOf(t, rowMajor, p), Rank(t, rowMajor, p) % FACE_WIDTH)
    ensures Source(t, rowMajor, rowMajor, p) == p
  {
    hide Rows, Position, TileSize, Legal, Rank;
    LegalSizes(t);
    PlaceOfRank(t, rowMajor, tiles, p);
    var o := Rank(t, rowMajor, p);
    MulAssoc(tiles, Rows(t), FACE_WIDTH);
    TileSizeIs(t);
    DivInRange(o, tiles * Rows(t), FACE_WIDTH);
    DivInRange(o / FACE_WIDTH, tiles, Rows(t));
  }

  lemma TileSizeIs(t: Tile)
    ensures TileSize(t) == Rows(t) * FACE_WIDTH
  {
  }

  /**
   Every output element is the quantised input element that the two layouts put at the same face row and
   column, quantised with the largest exponent of that face row.
   */
  lemma {:induction false} RoundTrip(fmt: Format, t: Tile, v: seq<Word>, rowMajorIn: bool, rowMajorOut: bool,
                                     isExpA: bool,
                                     floats: seq<Word>, p: nat)
    requires Legal(t)
    requires Filled(fmt, t, PackedWords(fmt, t, v, rowMajorIn, isExpA), rowMajorOut, isExpA, floats, |floats|)
    requires p < |floats|
    ensures |floats| == Tiles(t, v) * TileSize(t)
    ensures TileOf(t, rowMajorOut, p) < Tiles(t, v)
    ensures Source(t, rowMajorIn, rowMajorOut, p) < |v|
    ensures floats[p] == Quantised(fmt, v[Source(t, rowMajorIn, rowMajorOut, p)],
              SharedExp(t, v, rowMajorIn, isExpA, TileOf(t, rowMajorOut, p), RowOf(t, rowMajorOut, p)), isExpA)
  {
    hide PackedWords, TileWords, TileSize, Rows, SharedExp, Legal, Position, Rank, DatumAt, ExpByteAt;
    var words := PackedWords(fmt, t, v, rowMajorIn, isExpA);
    PackedTiles(fmt, t, v, rowMajorIn, isExpA);
    PositionRow(t, rowMajorOut, Tiles(t, v), p);
    var n, k, j := TileOf(t, rowMajorOut, p), RowOf(t, rowMajorOut, p), Rank(t, rowMajorOut, p) % FACE_WIDTH;
    PlaceOfRank(t, rowMajorOut, Tiles(t, v), p);
    assert IsAt(floats, Place(t, rowMajorOut, Rank(t, rowMajorOut, p)),
                ElementAt(fmt, t, words, isExpA, Rank(t, rowMajorOut, p)));
    ReadExpByte(fmt, t, v, rowMajorIn, isExpA, n, k);
    ReadDatum(fmt, t, v, rowMajorIn, isExpA, n, k, j);
    TilesFit(t, |v|);
    PositionInRange(t, rowMajorIn, Tiles(t, v), n, k, j);
  }

  /** With the same layout on both sides every element comes back, quantised, at its own position. */
  lemma RoundTripInPlace(fmt: Format, t: Tile, v: seq<Word>, rowMajor: bool, isExpA: bool, floats: seq<Word>, p: nat)
    requires Legal(t)
    requires Filled(fmt, t, PackedWords(fmt, t, v, rowMajor, isExpA), rowMajor, isExpA, floats, |floats|)
    requires p < |floats|
    ensures |floats| == Tiles(t, v) * TileSize(t) <= |v|
    ensures TileOf(t, rowMajor, p) < Tiles(t, v)
    ensures floats[p] == Quantised(fmt, v[p],
                                   SharedExp(t, v, rowMajor, isExpA, TileOf(t, rowMajor, p), RowOf(t, rowMajor, p)),
                                   isExpA)
  {
    hide PackedWords, TileSize, Rows, SharedExp, Legal, Position, Rank, Filled, Quantised;
    RoundTrip(fmt, t, v, rowMajor, rowMajor, isExpA, floats, p);
    PositionRow(t, rowMajor, Tiles(t, v), p);
    TilesFit(t, |v|);
  }

  /** On packed data the decoders' assertion holds: no nonzero datum needs more shifts than its shared exponent. */
  lemma {:induction false} PackedDataPassesAsserts(fmt: Format, t: Tile, v: seq<Word>, rowMajor: bool, isExpA: bool,
                                                   n: nat, k: nat, j: nat)
    requires Legal(t) && n < Tiles(t, v) && k < Rows(t) && j < FACE_WIDTH
    ensures TileWords(fmt, t) > 0 && n < |PackedWords(fmt, t, v, rowMajor, isExpA)| / TileWords(fmt, t)
    ensures var words := PackedWords(fmt, t, v, rowMajor, isExpA);
            var man := DatumAt(fmt, t, words, n, k, j) % Pow2(ManWidth(fmt));
            man > 0 ==> man < Pow2(ManWidth(fmt)) && NormShift(fmt, man) <= ExpByteAt(fmt, t, words, n, k)
  {
    hide PackedWords, TileWords, Rows, Legal, FaceRow, DatumAt, ExpByteAt, Pow2, Encode, TileSize;
    ReadDatum(fmt, t, v, rowMajor, isExpA, n, k, j);
    ReadExpByte(fmt, t, v, rowMajor, isExpA, n, k);
    SharedExpOf(t, v, rowMajor, isExpA, n, k);
    EncodedPassesAssert(fmt, FaceRow(t, v, rowMajor, n, k)[j], SharedExp(t, v, rowMajor, isExpA, n, k), isExpA);
  }

  lemma EncodedPassesAssert(fmt: Format, x: Word, e: nat, isExpA: bool)
    requires ScaledExp(x, isExpA) <= e
    ensures var man := Encode(fmt, x, e, isExpA) % Pow2(ManWidth(fmt));
            man > 0 ==> man < Pow2(ManWidth(fmt)) && NormShift(fmt, man) <= e
  {
    hide Pow2, Mantissa, IsNormShift;
    var m := Mantissa(fmt, x, e, isExpA);
    ManBelowTop(fmt, x, e, isExpA);
    SplitDatum(fmt, SignOf(x), m);
    SplitDatum(fmt, 0, 0);
    if m > 0 {
      ShiftCountSafe(fmt, x, e, isExpA);
    }
  }

  /** How far a decoded element can be from its input, on the scale of `ScaledValue`. */
  lemma {:induction false} RoundTripError(fmt: Format, x: Word, e: nat, isExpA: bool)
    requires ScaledExp(x, isExpA) <= e < 0x100 && (isExpA ==> e <= 31) && !IsZero(x)
    ensures var y, u := Quantised(fmt, x, e, isExpA), Unit(fmt, e);
            if Mantissa(fmt, x, e, isExpA) == 0 then
              y == 0 && ScaledValue(x, isExpA) <= u / 2
            else
              && SignOf(y) == SignOf(x) && ScaledExp(y, isExpA) <= e
              && (|| (-(u / 2) <= ScaledValue(x, isExpA) - ScaledValue(y, isExpA) <= u / 2)
                  || (Mantissa(fmt, x, e, isExpA) == ManMax(fmt)
                      && u / 2 <= ScaledValue(x, isExpA) - ScaledValue(y, isExpA) < u))
  {
    hide Pow2, RoundHalfUp, Decode, Mantissa, NormShift, ScaledExp, ScaledFrac, SignOf, ExpOf, FracOf;
    QuantisationBound(fmt, x, e, isExpA);
    var m := Mantissa(fmt, x, e, isExpA);
    FieldsOf(x);
    if m == 0 {
      DecodeOfZero(fmt, e, isExpA);
      SmallIsZero(fmt, x, e, isExpA);
    } else {
      EncodedIsDecodable(fmt, x, e, isExpA);
      DecodedFields(fmt, SignOf(x), m, e, isExpA);
      DecodedValue(fmt, SignOf(x), m, e, isExpA);
    }
  }

  lemma SmallIsZero(fmt: Format, x: Word, e: nat, isExpA: bool)
    requires ScaledExp(x, isExpA) <= e && Mantissa(fmt, x, e, isExpA) == 0
    ensures ScaledValue(x, isExpA) <= Unit(fmt, e) / 2
  {
    hide Pow2, ScaledExp, ScaledValue;
    RoundingError(ScaledValue(x, isExpA), Unit(fmt, e));
    Pow2Mono(1, ManWidth(fmt));
    Pow2Values();
    Pow2Half(ManShift(fmt) + e);
  }

  lemma DecodedValue(fmt: Format, sign: nat, man: nat, e: nat, isExpA: bool)
    requires sign <= 1 && Decodable(fmt, man, e, isExpA) && (isExpA ==> e <= 31)
    ensures var y := Decode(fmt, sign * Pow2(ManWidth(fmt)) + man, e, isExpA);
            ScaledValue(y, isExpA) == man * Unit(fmt, e) && ScaledExp(y, isExpA) <= e
  {
    hide Pow2, PutTogether, IsNormShift, Shl, Decode, RoundHalfUp, IsZero;
    var y := Decode(fmt, sign * Pow2(ManWidth(fmt)) + man, e, isExpA);
    DecodedFields(fmt, sign, man, e, isExpA);
    DecodedFrac(fmt, sign, man, e, isExpA);
    DecodedScale(fmt, man, e);
    FieldsOf(y);
  }

  // ----- requantising whole rows and tiles

  /** The elements of a face row after one trip through the codec. */
  function QuantisedRow(fmt: Format, row: seq<Word>, isExpA: bool): (r: seq<Word>)
    ensures |r| == |row|
  {
    seq(|row|, j requires 0 <= j < |row| => Quantised(fmt, row[j], MaxExp(row, isExpA), isExpA))
  }

  lemma QuantisedExp(fmt: Format, x: Word, e: nat, isExpA: bool)
    requires ScaledExp(x, isExpA) <= e < 0x100 && (isExpA ==> e <= 31)
    ensures ScaledExp(Quantised(fmt, x, e, isExpA), isExpA) <= e
    ensures ScaledExp(x, isExpA) == e > 0 ==> ScaledExp(Quantised(fmt, x, e, isExpA), isExpA) == e
  {
    hide Pow2, RoundHalfUp, Decode, Mantissa, IsNormShift, ScaledExp;
    var m := Mantissa(fmt, x, e, isExpA);
    FieldsOf(x);
    ZeroExp(isExpA);
    ZeroIsSmall(x, isExpA);
    if IsZero(x) || m == 0 {
      DecodeOfZero(fmt, e, isExpA);
      if ScaledExp(x, isExpA) == e && !IsZero(x) {
        TopElementStays(fmt, x, e, isExpA);
      }
    } else {
      EncodedIsDecodable(fmt, x, e, isExpA);
      EncodeOfDecode(fmt, SignOf(x), m, e, isExpA);
      ShiftCountSafe(fmt, x, e, isExpA);
    }
  }

  lemma ZeroExp(isExpA: bool)
    ensures ScaledExp(0, isExpA) == 0
  {
  }

  lemma ZeroIsSmall(x: Word, isExpA: bool)
    ensures IsZero(x) ==> ScaledExp(x, isExpA) == 0
  {
    FieldsOf(x);
  }

  /** An element with the shared exponent keeps its top mantissa bit. */
  lemma TopElementStays(fmt: Format, x: Word, e: nat, isExpA: bool)
    requires ScaledExp(x, isExpA) == e
    ensures Mantissa(fmt, x, e, isExpA) > 0
  {
    hide Pow2, RoundHalfUp, Unit, ScaledValue;
    TopElementAtLeast(fmt, x, e, isExpA);
    RoundsToSomething(ScaledValue(x, isExpA), Unit(fmt, e));
    Pow2Mono(1, ManWidth(fmt));
    Pow2Values();
  }

  lemma TopElementAtLeast(fmt: Format, x: Word, e: nat, isExpA: bool)
    requires ScaledExp(x, isExpA) == e
    ensures ScaledValue(x, isExpA) >= Unit(fmt, e)
  {
    hide Pow2, ScaledExp;
    Pow2Values();
    Pow2Add(23, e);
    Pow2Mono(ManShift(fmt) + e, 23 + e);
    MulMono(HIDDEN_ONE, HIDDEN_ONE + ScaledFrac(x, isExpA), Pow2(e));
  }

  lemma RoundsToSomething(v: nat, u: nat)
    requires v >= u > 0
    ensures RoundHalfUp(v, u) > 0
  {
    DivMono(u, v + u / 2, u);
    DivModUnique(u, 1, 0, u);
  }

  /** The shared exponent of a row is found again after a trip through the codec. */
  lemma {:induction false} SharedExpStable(fmt: Format, row: seq<Word>, isExpA: bool)
    ensures MaxExp(QuantisedRow(fmt, row, isExpA), isExpA) == MaxExp(row, isExpA)
  {
    hide Quantised, ScaledExp;
    var e, r := MaxExp(row, isExpA), QuantisedRow(fmt, row, isExpA);
    forall i | 0 <= i < |row|
      ensures ScaledExp(r[i], isExpA) <= e
      ensures ScaledExp(row[i], isExpA) == e > 0 ==> ScaledExp(r[i], isExpA) == e
    {
      QuantisedExp(fmt, row[i], e, isExpA);
    }
  }

  /** No element of the row is of the lost kind under the row's own shared exponent. */
  ghost predicate RowKept(fmt: Format, row: seq<Word>, isExpA: bool)
  {
    isExpA || forall j :: 0 <= j < |row| ==> !IsLost(fmt, row[j], MaxExp(row, isExpA))
  }

  lemma RowRequantises(fmt: Format, row: seq<Word>, isExpA: bool, j: nat)
    requires j < |row|
    ensures var e := MaxExp(row, isExpA);
            Encode(fmt, QuantisedRow(fmt, row, isExpA)[j], e, isExpA) == Encode(fmt, row[j], e, isExpA)
            <==> isExpA || !IsLost(fmt, row[j], e)
  {
    hide Encode, Decode, IsLost;
    RequantiseScalar(fmt, row[j], MaxExp(row, isExpA), isExpA);
  }

  /** The face rows of the unpacked vector are the quantised face rows of the input. */
  lemma UnpackedRow(fmt: Format, t: Tile, v: seq<Word>, rowMajorIn: bool, rowMajorOut: bool, isExpA: bool,
                    floats: seq<Word>, n: nat, k: nat)
    requires Legal(t)
    requires Filled(fmt, t, PackedWords(fmt, t, v, rowMajorIn, isExpA), rowMajorOut, isExpA, floats, |floats|)
    requires n < Tiles(t, v) && k < Rows(t)
    ensures Tiles(t, floats) == Tiles(t, v)
    ensures FaceRow(t, floats, rowMajorOut, n, k) == QuantisedRow(fmt, FaceRow(t, v, rowMajorIn, n, k), isExpA)
  {
    hide PackedWords, TileSize, Rows, Legal, Position, Rank, Quantised, TileWords, DatumAt, ExpByteAt, MaxExp;
    var words := PackedWords(fmt, t, v, rowMajorIn, isExpA);
    PackedTiles(fmt, t, v, rowMajorIn, isExpA);
    SameTiles(fmt, t, v, rowMajorIn, rowMajorOut, isExpA, floats);
    ReadExpByte(fmt, t, v, rowMajorIn, isExpA, n, k);
    forall j | 0 <= j < FACE_WIDTH
      ensures FaceRow(t, floats, rowMajorOut, n, k)[j] == QuantisedRow(fmt, FaceRow(t, v, rowMajorIn, n, k), isExpA)[j]
    {
      ReadDatum(fmt, t, v, rowMajorIn, isExpA, n, k, j);
      var o := Index(Index(n, Rows(t), k), FACE_WIDTH, j);
      RankBound(t, Tiles(t, v), n, k, j);
      PlaceAt(t, rowMajorOut, n, k, j);
      ElementIs(fmt, t, words, isExpA, n, k, j);
      assert IsAt(floats, Place(t, rowMajorOut, o), ElementAt(fmt, t, words, isExpA, o));
      QuantisedIs(fmt, FaceRow(t, v, rowMajorIn, n, k)[j], MaxExp(FaceRow(t, v, rowMajorIn, n, k), isExpA), isExpA);
    }
  }

  lemma QuantisedIs(fmt: Format, x: Word, e: nat, isExpA: bool)
    ensures Quantised(fmt, x, e, isExpA) == Decode(fmt, Encode(fmt, x, e, isExpA), e, isExpA)
  {
  }

  /** All face rows of the input are kept. */
  ghost predicate AllKept(fmt: Format, t: Tile, v: seq<Word>, rowMajor: bool, isExpA: bool)
    requires Legal(t)
  {
    forall n, k :: 0 <= n < Tiles(t, v) && 0 <= k < Rows(t) ==> RowKept(fmt, FaceRow(t, v, rowMajor, n, k), isExpA)
  }

  /** Packing what was unpacked gives the packed words again, exactly when no input element is lost. */
  lemma {:induction false} RequantiseStable(fmt: Format, t: Tile, v: seq<Word>, rowMajorIn: bool, rowMajorOut: bool,
                                            isExpA: bool,
                                            floats: seq<Word>)
    requires Legal(t)
    requires Filled(fmt, t, PackedWords(fmt, t, v, rowMajorIn, isExpA), rowMajorOut, isExpA, floats, |floats|)
    ensures PackedWords(fmt, t, floats, rowMajorOut, isExpA) == PackedWords(fmt, t, v, rowMajorIn, isExpA)
       <==> AllKept(fmt, t, v, rowMajorIn, isExpA)
  {
    hide PackedWords, TileSize, Rows, Legal, Filled, RowKept, FaceRow;
    SameTiles(fmt, t, v, rowMajorIn, rowMajorOut, isExpA, floats);
    if PackedWords(fmt, t, floats, rowMajorOut, isExpA) == PackedWords(fmt, t, v, rowMajorIn, isExpA) {
      forall n, k | 0 <= n < Tiles(t, v) && 0 <= k < Rows(t)
        ensures RowKept(fmt, FaceRow(t, v, rowMajorIn, n, k), isExpA)
      {
        EqualWordsKeepRow(fmt, t, v, rowMajorIn, rowMajorOut, isExpA, floats, n, k);
      }
    }
    if AllKept(fmt, t, v, rowMajorIn, isExpA) {
      KeptRowsEqualWords(fmt, t, v, rowMajorIn, rowMajorOut, isExpA, floats);
    }
  }

  lemma SameTiles(fmt: Format, t: Tile, v: seq<Word>, rowMajorIn: bool, rowMajorOut: bool, isExpA: bool,
                  floats: seq<Word>)
    requires Legal(t)
    requires Filled(fmt, t, PackedWords(fmt, t, v, rowMajorIn, isExpA), rowMajorOut, isExpA, floats, |floats|)
    ensures Tiles(t, floats) == Tiles(t, v)
  {
    hide PackedWords, TileSize, Rows, Legal, TileWords;
    PackedTiles(fmt, t, v, rowMajorIn, isExpA);
    TilesFit(t, |v|);
    DivModUnique(Tiles(t, v) * TileSize(t), Tiles(t, v), 0, TileSize(t));
  }

  lemma EqualWordsKeepRow(fmt: Format, t: Tile, v: seq<Word>, rowMajorIn: bool, rowMajorOut: bool, isExpA: bool,
                          floats: seq<Word>, n: nat, k: nat)
    requires Legal(t)
    requires Filled(fmt, t, PackedWords(fmt, t, v, rowMajorIn, isExpA), rowMajorOut, isExpA, floats, |floats|)
    requires PackedWords(fmt, t, floats, rowMajorOut, isExpA) == PackedWords(fmt, t, v, rowMajorIn, isExpA)
    requires n < Tiles(t, v) && n < Tiles(t, floats) && k < Rows(t)
    ensures RowKept(fmt, FaceRow(t, v, rowMajorIn, n, k), isExpA)
  {
    hide PackedWords, TileSize, Rows, Legal, Filled, FaceRow, DatumAt, TileWords, QuantisedRow, MaxExp, Encode, IsLost;
    var row := FaceRow(t, v, rowMajorIn, n, k);
    UnpackedRow(fmt, t, v, rowMajorIn, rowMajorOut, isExpA, floats, n, k);
    SharedExpStable(fmt, row, isExpA);
    SharedExpOf(t, v, rowMajorIn, isExpA, n, k);
    SharedExpOf(t, floats, rowMajorOut, isExpA, n, k);
    forall j | 0 <= j < FACE_WIDTH
      ensures isExpA || !IsLost(fmt, row[j], MaxExp(row, isExpA))
    {
      ReadDatum(fmt, t, v, rowMajorIn, isExpA, n, k, j);
      ReadDatum(fmt, t, floats, rowMajorOut, isExpA, n, k, j);
      RowRequantises(fmt, row, isExpA, j);
    }
  }

  lemma KeptRowsEqualWords(fmt: Format, t: Tile, v: seq<Word>, rowMajorIn: bool, rowMajorOut: bool, isExpA: bool,
                           floats: seq<Word>)
    requires Legal(t)
    requires Filled(fmt, t, PackedWords(fmt, t, v, rowMajorIn, isExpA), rowMajorOut, isExpA, floats, |floats|)
    requires AllKept(fmt, t, v, rowMajorIn, isExpA) && Tiles(t, floats) == Tiles(t, v)
    ensures PackedWords(fmt, t, floats, rowMajorOut, isExpA) == PackedWords(fmt, t, v, rowMajorIn, isExpA)
  {
    hide TileSize, Rows, Legal, FaceRow, Filled, RowKept, SharedExp, PackedRow;
    forall n, k | 0 <= n < Tiles(t, v) && 0 <= k < Rows(t)
      ensures SharedExp(t, floats, rowMajorOut, isExpA, n, k) == SharedExp(t, v, rowMajorIn, isExpA, n, k)
      ensures PackedRow(fmt, FaceRow(t, floats, rowMajorOut, n, k), SharedExp(t, floats, rowMajorOut, isExpA, n, k),
                        isExpA)
           == PackedRow(fmt, FaceRow(t, v, rowMajorIn, n, k), SharedExp(t, v, rowMajorIn, isExpA, n, k), isExpA)
    {
      KeptRowEqual(fmt, t, v, rowMajorIn, rowMajorOut, isExpA, floats, n, k);
    }
    EqualRowsEqualWords(fmt, t, floats, rowMajorOut, v, rowMajorIn, isExpA, Tiles(t, v));
  }

  lemma KeptRowEqual(fmt: Format, t: Tile, v: seq<Word>, rowMajorIn: bool, rowMajorOut: bool, isExpA: bool,
                     floats: seq<Word>, n: nat, k: nat)
    requires Legal(t)
    requires Filled(fmt, t, PackedWords(fmt, t, v, rowMajorIn, isExpA), rowMajorOut, isExpA, floats, |floats|)
    requires n < Tiles(t, v) && n < Tiles(t, floats) && k < Rows(t)
    requires RowKept(fmt, FaceRow(t, v, rowMajorIn, n, k), isExpA)
    ensures SharedExp(t, floats, rowMajorOut, isExpA, n, k) == SharedExp(t, v, rowMajorIn, isExpA, n, k)
    ensures PackedRow(fmt, FaceRow(t, floats, rowMajorOut, n, k), SharedExp(t, floats, rowMajorOut, isExpA, n, k),
                      isExpA)
         == PackedRow(fmt, FaceRow(t, v, rowMajorIn, n, k), SharedExp(t, v, rowMajorIn, isExpA, n, k), isExpA)
  {
    hide PackedWords, TileSize, Rows, Legal, Filled, FaceRow, QuantisedRow, MaxExp, Encode, IsLost, FromDigits,
         DatumBase;
    var row := FaceRow(t, v, rowMajorIn, n, k);
    var e := MaxExp(row, isExpA);
    UnpackedRow(fmt, t, v, rowMajorIn, rowMajorOut, isExpA, floats, n, k);
    SharedExpStable(fmt, row, isExpA);
    SharedExpOf(t, v, rowMajorIn, isExpA, n, k);
    SharedExpOf(t, floats, rowMajorOut, isExpA, n, k);
    forall j | 0 <= j < FACE_WIDTH
      ensures Encode(fmt, QuantisedRow(fmt, row, isExpA)[j], e, isExpA) == Encode(fmt, row[j], e, isExpA)
    {
      RowRequantises(fmt, row, isExpA, j);
    }
    SameDataSameWords(fmt, QuantisedRow(fmt, row, isExpA), row, e, isExpA);
  }

  lemma SameDataSameWords(fmt: Format, a: seq<Word>, b: seq<Word>, e: nat, isExpA: bool)
    requires |a| == FACE_WIDTH && |b| == FACE_WIDTH
    requires forall j :: 0 <= j < FACE_WIDTH ==> Encode(fmt, a[j], e, isExpA) == Encode(fmt, b[j], e, isExpA)
    ensures PackedRow(fmt, a, e, isExpA) == PackedRow(fmt, b, e, isExpA)
  {
    hide RowWord, Encode;
    forall q | 0 <= q < RowWords(fmt)
      ensures RowWord(fmt, a, e, isExpA, q) == RowWord(fmt, b, e, isExpA, q)
    {
      GroupInRow(fmt, q);
      SameGroup(fmt, a, b, e, isExpA, q * PerWord(fmt), (q + 1) * PerWord(fmt));
      RowWordOfGroup(fmt, a, e, isExpA, q);
      RowWordOfGroup(fmt, b, e, isExpA, q);
    }
  }

  lemma GroupInRow(fmt: Format, q: nat)
    requires q < RowWords(fmt)
    ensures 0 <= q * PerWord(fmt) <= (q + 1) * PerWord(fmt) <= FACE_WIDTH
  {
  }

  lemma RowWordOfGroup(fmt: Format, row: seq<Word>, e: nat, isExpA: bool, q: nat)
    requires |row| == FACE_WIDTH && q < RowWords(fmt) && 0 <= q * PerWord(fmt) <= (q + 1) * PerWord(fmt) <= FACE_WIDTH
    ensures RowWord(fmt, row, e, isExpA, q)
         == FromDigits(EncodedGroup(fmt, row[q * PerWord(fmt)..(q + 1) * PerWord(fmt)], e, isExpA), DatumBase(fmt))
  {
    hide FromDigits, EncodedGroup, DatumBase, PerWord, RowWords;
  }

  lemma SameGroup(fmt: Format, a: seq<Word>, b: seq<Word>, e: nat, isExpA: bool, from: nat, to: nat)
    requires |a| == |b| && from <= to <= |a|
    requires forall j :: 0 <= j < |a| ==> Encode(fmt, a[j], e, isExpA) == Encode(fmt, b[j], e, isExpA)
    ensures EncodedGroup(fmt, a[from..to], e, isExpA) == EncodedGroup(fmt, b[from..to], e, isExpA)
  {
    hide Encode;
  }

  lemma {:induction false} EqualRowsEqualWords(fmt: Format, t: Tile, a: seq<Word>, rowMajorA: bool, b: seq<Word>,
                                               rowMajorB: bool,
                                               isExpA: bool, tiles: nat)
    requires Legal(t) && tiles <= Tiles(t, a) && tiles <= Tiles(t, b)
    requires forall n, k :: 0 <= n < tiles && 0 <= k < Rows(t) ==>
      SharedExp(t, a, rowMajorA, isExpA, n, k) == SharedExp(t, b, rowMajorB, isExpA, n, k)
    requires forall n, k :: 0 <= n < tiles && 0 <= k < Rows(t) ==>
      PackedRow(fmt, FaceRow(t, a, rowMajorA, n, k), SharedExp(t, a, rowMajorA, isExpA, n, k), isExpA)
      == PackedRow(fmt, FaceRow(t, b, rowMajorB, n, k), SharedExp(t, b, rowMajorB, isExpA, n, k), isExpA)
    ensures Packed(fmt, t, a, rowMajorA, isExpA, tiles) == Packed(fmt, t, b, rowMajorB, isExpA, tiles)
  {
    hide TileSize, Rows, Legal, FaceRow, SharedExp, PackedRow, TileWords, ExpSection, DataSection;
    if tiles > 0 {
      EqualRowsEqualWords(fmt, t, a, rowMajorA, b, rowMajorB, isExpA, tiles - 1);
      SameExpSection(t, a, rowMajorA, b, rowMajorB, isExpA, tiles - 1);
      SameDataSection(fmt, t, a, rowMajorA, b, rowMajorB, isExpA, tiles - 1);
    }
  }

  lemma SameExpSection(t: Tile, a: seq<Word>, rowMajorA: bool, b: seq<Word>, rowMajorB: bool, isExpA: bool, n: nat)
    requires Legal(t) && n < Tiles(t, a) && n < Tiles(t, b)
    requires forall k :: 0 <= k < Rows(t) ==>
      SharedExp(t, a, rowMajorA, isExpA, n, k) == SharedExp(t, b, rowMajorB, isExpA, n, k)
    ensures ExpSection(t, a, rowMajorA, isExpA, n) == ExpSection(t, b, rowMajorB, isExpA, n)
  {
    hide TileSize, Rows, Legal, SharedExp, FromDigits;
    assert ExpBytes(t, a, rowMajorA, isExpA, n) == ExpBytes(t, b, rowMajorB, isExpA, n);
  }

  lemma SameDataSection(fmt: Format, t: Tile, a: seq<Word>, rowMajorA: bool, b: seq<Word>, rowMajorB: bool,
                        isExpA: bool, n: nat)
    requires Legal(t) && n < Tiles(t, a) && n < Tiles(t, b)
    requires forall k :: 0 <= k < Rows(t) ==>
      PackedRow(fmt, FaceRow(t, a, rowMajorA, n, k), SharedExp(t, a, rowMajorA, isExpA, n, k), isExpA)
      == PackedRow(fmt, FaceRow(t, b, rowMajorB, n, k), SharedExp(t, b, rowMajorB, isExpA, n, k), isExpA)
    ensures DataSection(fmt, t, a, rowMajorA, isExpA, n) == DataSection(fmt, t, b, rowMajorB, isExpA, n)
  {
    hide TileSize, Rows, Legal, SharedExp, FaceRow, RowWord;
    var da, db := DataSection(fmt, t, a, rowMajorA, isExpA, n), DataSection(fmt, t, b, rowMajorB, isExpA, n);
    forall d | 0 <= d < DataWords(fmt, t)
      ensures da[d] == db[d]
    {
      DivInRange(d, Rows(t), RowWords(fmt));
      var k := d / RowWords(fmt);
      assert da[d] == PackedRow(fmt, FaceRow(t, a, rowMajorA, n, k), SharedExp(t, a, rowMajorA, isExpA, n, k),
                                isExpA)[d % RowWords(fmt)];
      assert db[d] == PackedRow(fmt, FaceRow(t, b, rowMajorB, n, k), SharedExp(t, b, rowMajorB, isExpA, n, k),
                                isExpA)[d % RowWords(fmt)];
    }
  }

  /** No input element that is zero or normal is ever lost. */
  lemma NormalsAreKept(fmt: Format, row: seq<Word>, isExpA: bool)
    requires forall j :: 0 <= j < |row| ==> IsZero(row[j]) || ExpOf(row[j]) != 0
    ensures RowKept(fmt, row, isExpA)
  {
  }

  /**
   The smallest denormal, alone in its row, is lost: a 32x32 tile of zeros with that one element is packed to other
   words once it has been unpacked.
   */
  lemma DenormalIsLost(t: Tile, v: seq<Word>, floats: seq<Word>)
    requires t == Tile(16, 2, 2)
    requires v == seq(1024, i => if i == 0 then 1 else 0)
    requires Filled(Bfp8, t, PackedWords(Bfp8, t, v, true, false), true, false, floats, |floats|)
    ensures !AllKept(Bfp8, t, v, true, false)
    ensures PackedWords(Bfp8, t, floats, true, false) != PackedWords(Bfp8, t, v, true, false)
  {
    hide Encode, Decode, Pow2, PackedWords, Filled, FaceRow, IsLost, TileSize;
    FirstRowOfTile(t, v);
    var row := FaceRow(t, v, true, 0, 0);
    SmallestIsLost(row);
    RequantiseStable(Bfp8, t, v, true, true, false, floats);
  }

  lemma FirstRowOfTile(t: Tile, v: seq<Word>)
    requires t == Tile(16, 2, 2) && v == seq(1024, i => if i == 0 then 1 else 0)
    ensures Rows(t) == 64 && TileSize(t) == 1024 && Tiles(t, v) == 1
    ensures var row := FaceRow(t, v, true, 0, 0); row[0] == 1 && forall j :: 0 < j < |row| ==> row[j] == 0
  {
    hide Pow2;
  }

  lemma SmallestIsLost(row: seq<Word>)
    requires |row| > 0 && row[0] == 1 && forall j :: 0 < j < |row| ==> row[j] == 0
    ensures !RowKept(Bfp8, row, false)
  {
    hide Pow2;
    Pow2Values();
    Pow2Add(7, 9);
    assert MaxExp(row, false) == 0;
    assert IsLost(Bfp8, row[0], 0);
  }
}
