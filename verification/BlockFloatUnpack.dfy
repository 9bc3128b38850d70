/**
 `unpack_bfp8_tiles_into_float_vec` and `unpack_bfp4_tiles_into_float_vec`: the vectorised decoders, one
 32-bit lane at a time, with their own index arithmetic, against the scalar decoder.
 */
module BlockFloatUnpack {
  import opened Arith
  import opened Bits
  import opened BlockFloat
  import opened BlockFloatTiles
  import opened Requantise

  // ----- one lane

  /**
   One lane of the vector code. Every lane runs all the normalising steps; a lane whose top bit is already
   set keeps its value and its count.
   */
  method DecodeLane(fmt: Format, datum: nat, exp: nat, isExpA: bool) returns (out: Word)
    requires fmt != Bfp2 && exp < 0x100
    ensures out == Decode(fmt, datum, exp, isExpA)
  {
    hide Pow2, Shl, Shr, BitOr, Wrap, NormShift, IsNormShift, PutTogether;
    var rebias := if isExpA then -112 else 0;
    var sign := Shr(datum, ManWidth(fmt));
    LowPart(fmt, datum);
    var man: nat := datum % Pow2(ManWidth(fmt));
    var shiftCnt := 0;
    var isZero := man == 0;
    var shifted := man;
    ShlNone(man);
    for shiftVal := 0 to ManWidth(fmt)
      invariant isZero ==> shifted == 0
      invariant !isZero ==> shiftCnt == Min(shiftVal, NormShift(fmt, man)) && shifted == Shl(man, shiftCnt)
    {
      if !isZero {
        StepNormalises(fmt, man, shiftVal);
      }
      var full := shifted > Pow2(ManWidth(fmt) - 1) || shifted == Pow2(ManWidth(fmt) - 1);
      Pow2Half(ManWidth(fmt));
      shifted := if full then shifted else 2 * shifted;
      shiftCnt := if full then shiftCnt else shiftVal + 1;
    }
    if isZero {
      out := Combine(fmt, sign, 0, man);
    } else {
      NormalisedRange(fmt, man);
      DropTopBit(fmt, 2 * shifted);
      shifted := 2 * shifted % Pow2(ManWidth(fmt));
      out := Combine(fmt, sign, Wrap(exp - (rebias + shiftCnt)), shifted);
    }
  }

  lemma LowPart(fmt: Format, datum: nat)
    ensures 0 <= datum % Pow2(ManWidth(fmt)) < Pow2(ManWidth(fmt))
  {
  }

  lemma NormalisedRange(fmt: Format, man: nat)
    requires 0 < man < Pow2(ManWidth(fmt))
    ensures Pow2(ManWidth(fmt)) <= 2 * Shl(man, NormShift(fmt, man)) < 2 * Pow2(ManWidth(fmt))
  {
    hide Pow2, Shl;
  }

  /** After `s` doublings at most, the top bit is set exactly when the normalising count has been reached. */
  lemma StepNormalises(fmt: Format, man: nat, s: nat)
    requires 0 < man < Pow2(ManWidth(fmt))
    ensures var c := Min(s, NormShift(fmt, man));
            && (Shl(man, c) >= Pow2(ManWidth(fmt) - 1) <==> c == NormShift(fmt, man))
            && Shl(man, c + 1) == 2 * Shl(man, c)
  {
    hide Pow2, Shl;
    var n := NormShift(fmt, man);
    var c := Min(s, n);
    Pow2Half(ManWidth(fmt));
    ShlOnce(man, c);
    if c < n {
      ShlMono(man, c + 1, n);
    }
  }

  /** The final or-ing of the lane, in the order of the vector code. */
  method Combine(fmt: Format, sign: nat, exp: Word, man: nat) returns (out: Word)
    requires man < Pow2(ManWidth(fmt))
    ensures out == PutTogether(fmt, sign, exp, man)
  {
    hide Pow2, Shl, BitOr, Wrap;
    OrAssociates(Wrap(Shl(sign, 31)), Wrap(Shl(exp, 23)), Shl(man, 23 - ManWidth(fmt)));
    ManFits(fmt, man);
    out := Wrap(BitOr(Wrap(Shl(sign, 31)), BitOr(Wrap(Shl(exp, 23)), Wrap(Shl(man, 23 - ManWidth(fmt))))));
  }

  lemma ManFits(fmt: Format, man: nat)
    requires man < Pow2(ManWidth(fmt))
    ensures Wrap(Shl(man, 23 - ManWidth(fmt))) == Shl(man, 23 - ManWidth(fmt))
  {
    hide Pow2, Shl;
    FracFits(fmt, man);
  }

  /** All lanes of one word: lane `l` holds digit `l` of the word. */
  method DecodeWord(fmt: Format, word: nat, exp: nat, isExpA: bool) returns (lanes: seq<Word>)
    requires fmt != Bfp2 && exp < 0x100
    ensures |lanes| == PerWord(fmt)
    ensures forall l :: 0 <= l < PerWord(fmt) ==> lanes[l] == Decode(fmt, Digit(word, DatumBase(fmt), l), exp, isExpA)
  {
    hide Decode, Digit, Pow2;
    lanes := [];
    for l := 0 to PerWord(fmt)
      invariant |lanes| == l
      invariant forall i :: 0 <= i < l ==> lanes[i] == Decode(fmt, Digit(word, DatumBase(fmt), i), exp, isExpA)
    {
      var lane := DecodeLane(fmt, Digit(word, DatumBase(fmt), l), exp, isExpA);
      lanes := lanes + [lane];
    }
  }

  // ----- positions, one after the other in the order in which the decoder writes them

  /** The position of the `o`-th element written: element o % 16 of face row o / 16. */
  function Place(t: Tile, rowMajor: bool, o: nat): nat
    requires Legal(t)
  {
    LegalSizes(t);
    Position(t, rowMajor, o / FACE_WIDTH / Rows(t), o / FACE_WIDTH % Rows(t), o % FACE_WIDTH)
  }

  /** When a position is written. */
  function Rank(t: Tile, rowMajor: bool, p: nat): nat
    requires Legal(t)
  {
    LegalSizes(t);
    if rowMajor then
      var r := p % TileSize(t);
      var line, col := r / TileWidth(t), r % TileWidth(t);
      var k := RowIndex(t, line / t.faceH, col / FACE_WIDTH, line % t.faceH);
      Index(Index(p / TileSize(t), Rows(t), k), FACE_WIDTH, col % FACE_WIDTH)
    else p
  }

  lemma PlaceAt(t: Tile, rowMajor: bool, n: nat, k: nat, j: nat)
    requires Legal(t) && k < Rows(t) && j < FACE_WIDTH
    ensures t.faceH > 0 && t.faceCols > 0
    ensures Place(t, rowMajor, Index(Index(n, Rows(t), k), FACE_WIDTH, j)) == Position(t, rowMajor, n, k, j)
  {
    hide Rows, Position;
    LegalSizes(t);
    var row := Index(n, Rows(t), k);
    DivModUnique(row * FACE_WIDTH + j, row, j, FACE_WIDTH);
    DivModUnique(n * Rows(t) + k, n, k, Rows(t));
  }

  lemma RankOfPosition(t: Tile, rowMajor: bool, n: nat, k: nat, j: nat)
    requires Legal(t) && k < Rows(t) && j < FACE_WIDTH
    ensures t.faceH > 0 && t.faceCols > 0
    ensures Rank(t, rowMajor, Position(t, rowMajor, n, k, j)) == Index(Index(n, Rows(t), k), FACE_WIDTH, j)
  {
    hide Rows, TileSize, TileWidth, RowIndex, FacePosition, Index, Legal;
    RowIndexOf(t, k);
    var tr, tc, i := FaceRowOf(t, k), FaceColOf(t, k), LineOf(t, k);
    if rowMajor {
      SplitPosition(t, n, tr, tc, i, j);
    } else {
      SequentialPosition(t, n, tr, tc, i, j);
    }
  }

  lemma {:induction false} RankOfPlace(t: Tile, rowMajor: bool, o: nat)
    requires Legal(t)
    ensures Rank(t, rowMajor, Place(t, rowMajor, o)) == o
  {
    hide Rows, Rank, Position, Legal;
    LegalSizes(t);
    var row, j := o / FACE_WIDTH, o % FACE_WIDTH;
    DivModSplit(row, Rows(t));
    DivNonNegative(row, Rows(t));
    RankOfPosition(t, rowMajor, row / Rows(t), row % Rows(t), j);
  }

  lemma SplitPosition(t: Tile, n: nat, tr: nat, tc: nat, i: nat, j: nat)
    requires InFaces(t, tr, tc, i) && j < FACE_WIDTH
    ensures TileSize(t) > 0 && TileWidth(t) > 0
    ensures var p := FacePosition(t, true, n, tr, tc, i, j);
            var r := p % TileSize(t);
            && p / TileSize(t) == n
            && r / TileWidth(t) / t.faceH == tr && r / TileWidth(t) % t.faceH == i
            && r % TileWidth(t) / FACE_WIDTH == tc && r % TileWidth(t) % FACE_WIDTH == j
  {
    hide TileSize, TileWidth, Rows, RowIndex;
    var line, col := tr * t.faceH + i, tc * FACE_WIDTH + j;
    LineInTile(t, tr, tc, i, j);
    assert FacePosition(t, true, n, tr, tc, i, j) == n * TileSize(t) + (line * TileWidth(t) + col);
    DivModUnique(n * TileSize(t) + (line * TileWidth(t) + col), n, line * TileWidth(t) + col, TileSize(t));
    DivModUnique(line * TileWidth(t) + col, line, col, TileWidth(t));
    DivModUnique(line, tr, i, t.faceH);
    DivModUnique(col, tc, j, FACE_WIDTH);
  }

  lemma LineInTile(t: Tile, tr: nat, tc: nat, i: nat, j: nat)
    requires InFaces(t, tr, tc, i) && j < FACE_WIDTH
    ensures tc * FACE_WIDTH + j < TileWidth(t)
    ensures (tr * t.faceH + i) * TileWidth(t) + (tc * FACE_WIDTH + j) < TileSize(t)
  {
    IndexInRange(tr, i, t.faceRows, t.faceH);
    IndexInRange(tc, j, t.faceCols, FACE_WIDTH);
    IndexInRange(tr * t.faceH + i, tc * FACE_WIDTH + j, t.faceRows * t.faceH, TileWidth(t));
    assert t.faceRows * t.faceH * TileWidth(t) == TileSize(t);
  }

  lemma SequentialPosition(t: Tile, n: nat, tr: nat, tc: nat, i: nat, j: nat)
    ensures FacePosition(t, false, n, tr, tc, i, j) == Index(Index(n, Rows(t), RowIndex(t, tr, tc, i)), FACE_WIDTH, j)
  {
    hide Rows, RowIndex;
    MulDistribute(n * Rows(t), RowIndex(t, tr, tc, i), FACE_WIDTH);
    MulAssoc(n, Rows(t), FACE_WIDTH);
  }

  /** Every position is the place of its rank, so the decoder's writes reach all of them. */
  lemma {:induction false} PlaceOfRank(t: Tile, rowMajor: bool, tiles: nat, p: nat)
    requires Legal(t) && p < tiles * TileSize(t)
    ensures Place(t, rowMajor, Rank(t, rowMajor, p)) == p && Rank(t, rowMajor, p) < tiles * TileSize(t)
  {
    hide Rows, TileSize, TileWidth, RowIndex, Position, Legal;
    LegalSizes(t);
    TilesFit(t, 0);
    if rowMajor {
      var n, r := p / TileSize(t), p % TileSize(t);
      DivInRange(p, tiles, TileSize(t));
      DivModSplit(p, TileSize(t));
      LinesOfTile(t);
      var line, col := r / TileWidth(t), r % TileWidth(t);
      DivInRange(r, t.faceRows * t.faceH, TileWidth(t));
      DivModSplit(r, TileWidth(t));
      DivInRange(line, t.faceRows, t.faceH);
      DivModSplit(line, t.faceH);
      ColumnsOfTile(t, col);
      var k := RowIndex(t, line / t.faceH, col / FACE_WIDTH, line % t.faceH);
      RowIndexSplit(t, line / t.faceH, col / FACE_WIDTH, line % t.faceH);
      PlaceAt(t, rowMajor, n, k, col % FACE_WIDTH);
      JoinPosition(t, n, line, col);
      RankBound(t, tiles, n, k, col % FACE_WIDTH);
    } else {
      SequentialPlace(t, p);
    }
  }

  lemma LinesOfTile(t: Tile)
    ensures TileSize(t) == (t.faceRows * t.faceH) * TileWidth(t)
    ensures TileSize(t) > 0 ==> TileWidth(t) > 0
  {
  }

  lemma ColumnsOfTile(t: Tile, col: nat)
    requires col < TileWidth(t)
    ensures col / FACE_WIDTH < t.faceCols && col == (col / FACE_WIDTH) * FACE_WIDTH + col % FACE_WIDTH
  {
  }

  lemma JoinPosition(t: Tile, n: nat, line: nat, col: nat)
    requires t.faceH > 0 && t.faceCols > 0 && line < t.faceRows * t.faceH && col < TileWidth(t)
    ensures InFaces(t, line / t.faceH, col / FACE_WIDTH, line % t.faceH)
    ensures Position(t, true, n, RowIndex(t, line / t.faceH, col / FACE_WIDTH, line % t.faceH), col % FACE_WIDTH)
         == n * TileSize(t) + (line * TileWidth(t) + col)
  {
    hide TileSize, Rows, RowIndex;
    DivInRange(line, t.faceRows, t.faceH);
    DivModSplit(line, t.faceH);
    RowIndexSplit(t, line / t.faceH, col / FACE_WIDTH, line % t.faceH);
  }

  lemma RankBound(t: Tile, tiles: nat, n: nat, k: nat, j: nat)
    requires n < tiles && k < Rows(t) && j < FACE_WIDTH
    ensures Index(Index(n, Rows(t), k), FACE_WIDTH, j) < tiles * TileSize(t)
  {
    hide Rows;
    IndexInRange(n, k, tiles, Rows(t));
    IndexInRange(n * Rows(t) + k, j, tiles * Rows(t), FACE_WIDTH);
    MulAssoc(tiles, Rows(t), FACE_WIDTH);
  }

  lemma SequentialPlace(t: Tile, p: nat)
    requires Legal(t)
    ensures Place(t, false, p) == p
  {
    hide Rows, RowIndex, Position, TileSize;
    LegalSizes(t);
    var row, j := p / FACE_WIDTH, p % FACE_WIDTH;
    var n, k := row / Rows(t), row % Rows(t);
    DivModSplit(row, Rows(t));
    RowIndexOf(t, k);
    SequentialPosition(t, n, FaceRowOf(t, k), FaceColOf(t, k), LineOf(t, k), j);
    PositionIs(t, false, n, k, j);
  }

  lemma PositionIs(t: Tile, rowMajor: bool, n: nat, k: nat, j: nat)
    requires t.faceH > 0 && t.faceCols > 0
    ensures Position(t, rowMajor, n, k, j)
          == FacePosition(t, rowMajor, n, FaceRowOf(t, k), FaceColOf(t, k), LineOf(t, k), j)
  {
  }

  // ----- where the decoders look

  /** The exponent byte of face row `k` of tile `n`. */
  function ExpByteAt(fmt: Format, t: Tile, words: seq<nat>, n: nat, k: nat): (e: nat)
    requires Legal(t) && k < Rows(t) && n < |words| / TileWords(fmt, t)
    ensures e < 0x100
  {
    WordsInRange(fmt, t, |words|, n, k, 0);
    Digit(words[Index(n, TileWords(fmt, t), k / 4)], 0x100, k % 4)
  }

  /** Datum `j` of face row `k` of tile `n`. */
  function DatumAt(fmt: Format, t: Tile, words: seq<nat>, n: nat, k: nat, j: nat): nat
    requires Legal(t) && k < Rows(t) && j < FACE_WIDTH && n < |words| / TileWords(fmt, t)
  {
    WordsInRange(fmt, t, |words|, n, k, j);
    Digit(words[Index(n, TileWords(fmt, t), ExpWords(t) + k * RowWords(fmt) + j / PerWord(fmt))],
          DatumBase(fmt), j % PerWord(fmt))
  }

  function DecodedAt(fmt: Format, t: Tile, words: seq<nat>, isExpA: bool, n: nat, k: nat, j: nat): Word
    requires Legal(t) && k < Rows(t) && j < FACE_WIDTH && n < |words| / TileWords(fmt, t)
  {
    Decode(fmt, DatumAt(fmt, t, words, n, k, j), ExpByteAt(fmt, t, words, n, k), isExpA)
  }

  lemma TileWordsPositive(fmt: Format, t: Tile)
    requires Legal(t)
    ensures TileWords(fmt, t) > 0 && Rows(t) > 0
  {
    LegalSizes(t);
  }

  lemma WordsInRange(fmt: Format, t: Tile, size: nat, n: nat, k: nat, j: nat)
    requires Legal(t) && k < Rows(t) && j < FACE_WIDTH && n < size / TileWords(fmt, t)
    ensures Index(n, TileWords(fmt, t), k / 4) < size
    ensures Index(n, TileWords(fmt, t), ExpWords(t) + k * RowWords(fmt) + j / PerWord(fmt)) < size
    ensures j / PerWord(fmt) < RowWords(fmt)
  {
    hide TileWords, Rows, ExpWords;
    ExpWordOfRow(t, k);
    TileWordsSplit(fmt, t);
    assert j / PerWord(fmt) < RowWords(fmt);
    IndexInRange(k, j / PerWord(fmt), Rows(t), RowWords(fmt));
    InTile(fmt, t, size, n, k / 4);
    InTile(fmt, t, size, n, ExpWords(t) + k * RowWords(fmt) + j / PerWord(fmt));
  }

  lemma InTile(fmt: Format, t: Tile, size: nat, n: nat, w: nat)
    requires TileWords(fmt, t) > 0 && n < size / TileWords(fmt, t) && w < TileWords(fmt, t)
    ensures Index(n, TileWords(fmt, t), w) < size
  {
    hide TileWords;
    DivModSplit(size, TileWords(fmt, t));
    IndexInRange(n, w, size / TileWords(fmt, t), TileWords(fmt, t));
  }

  lemma TileWordsSplit(fmt: Format, t: Tile)
    ensures TileWords(fmt, t) == ExpWords(t) + Rows(t) * RowWords(fmt)
  {
  }

  lemma ExpWordOfRow(t: Tile, k: nat)
    requires Legal(t) && k < Rows(t)
    ensures k / 4 < ExpWords(t)
  {
    LegalSizes(t);
  }

  // ----- the decoders' own index arithmetic

  /** `exp_bit_mask`, and taking bits with it: the masks are 0, 1 and 3. */
  function MaskedRow(t: Tile, x: nat): nat
  {
    if TileSize(t) == 16 then 0 else if TileSize(t) == 32 then x % 2 else x % 4
  }

  lemma SubWordIndex(t: Tile, n: nat, k: nat)
    requires Legal(t) && k < Rows(t)
    ensures MaskedRow(t, k + n * Rows(t)) == k % 4
  {
    LegalSizes(t);
    if Rows(t) >= 4 {
      var q := Rows(t) / 4;
      assert Rows(t) == 4 * q;
      MulAssoc(n, q, 4);
      DivModSplit(k, 4);
      DivModUnique(k + n * Rows(t), k / 4 + n * q, k % 4, 4);
    } else if Rows(t) == 2 {
      DivModUnique(k + n * 2, n, k, 2);
    }
  }

  /** The data index of both decoders is the face row times the words per row, plus the word within the row. */
  lemma DataIndexIs(t: Tile, per: nat, tr: nat, tc: nat, i: nat, part: nat)
    requires per == 4 || per == 8
    ensures tr * (t.faceCols * (t.faceH * FACE_WIDTH) / per) + tc * ((t.faceH * FACE_WIDTH) / per)
            + i * (FACE_WIDTH / per) + part
         == RowIndex(t, tr, tc, i) * (FACE_WIDTH / per) + part
  {
    var w, h, c := FACE_WIDTH / per, t.faceH, t.faceCols;
    MulAssoc(c, h, FACE_WIDTH);
    FaceWords(h, per, w);
    FaceWords(c * h, per, w);
    MulAssoc(tr, c * h, w);
    MulAssoc(tc, h, w);
    RowIndexSum(t, tr, tc, i);
    DistributeThree(tr * (c * h), tc * h, i, w);
  }

  lemma FaceWords(rows: nat, per: nat, w: nat)
    requires per == 4 || per == 8
    requires w == FACE_WIDTH / per
    ensures rows * FACE_WIDTH / per == rows * w
  {
  }

  lemma RowIndexSum(t: Tile, tr: nat, tc: nat, i: nat)
    ensures RowIndex(t, tr, tc, i) == tr * (t.faceCols * t.faceH) + tc * t.faceH + i
  {
    MulDistribute(tr * t.faceCols, tc, t.faceH);
    MulAssoc(tr, t.faceCols, t.faceH);
  }

  lemma DistributeThree(a: int, b: int, c: int, w: int)
    ensures (a + b + c) * w == a * w + b * w + c * w
  {
  }

  /** Word and byte of the shared exponent, and word of the data, from the data index `k * w + part`. */
  lemma IndicesOf(fmt: Format, t: Tile, n: nat, k: nat, part: nat)
    requires Legal(t) && k < Rows(t) && fmt != Bfp2 && part < RowWords(fmt)
    ensures var dataIndex := k * RowWords(fmt) + part;
            var withTile := dataIndex + TileWords(fmt, t) * n;
            && dataIndex / (4 * RowWords(fmt)) + TileWords(fmt, t) * n == Index(n, TileWords(fmt, t), k / 4)
            && withTile >= n * ExpWords(t)
            && MaskedRow(t, (withTile - n * ExpWords(t)) / RowWords(fmt)) == k % 4
            && ExpWords(t) + withTile == Index(n, TileWords(fmt, t), ExpWords(t) + k * RowWords(fmt) + part)
  {
    hide TileWords, Rows, ExpWords, MaskedRow, Legal;
    var w := RowWords(fmt);
    DivModUnique(k * w + part, k, part, w);
    DivDiv(k * w + part, w, 4);
    assert 4 * w == w * 4;
    TileWordsSplit(fmt, t);
    MulDistribute(ExpWords(t), Rows(t) * w, n);
    MulAssoc(n, Rows(t), w);
    assert TileWords(fmt, t) * n == n * TileWords(fmt, t);
    assert n * ExpWords(t) == ExpWords(t) * n && (Rows(t) * w) * n == n * Rows(t) * w;
    MulDistribute(k, n * Rows(t), w);
    DivModUnique(k * w + part + n * Rows(t) * w, k + n * Rows(t), part, w);
    SubWordIndex(t, n, k);
  }

  // ----- the decoding loops

  /** Element `o` in writing order. */
  function ElementAt(fmt: Format, t: Tile, words: seq<nat>, isExpA: bool, o: nat): Word
    requires Legal(t) && o < |words| / TileWords(fmt, t) * TileSize(t)
  {
    ElementInRange(fmt, t, |words|, o);
    DecodedAt(fmt, t, words, isExpA, o / FACE_WIDTH / Rows(t), o / FACE_WIDTH % Rows(t), o % FACE_WIDTH)
  }

  lemma ElementInRange(fmt: Format, t: Tile, size: nat, o: nat)
    requires Legal(t) && o < size / TileWords(fmt, t) * TileSize(t)
    ensures Rows(t) > 0
    ensures o / FACE_WIDTH / Rows(t) < size / TileWords(fmt, t) && o / FACE_WIDTH % Rows(t) < Rows(t)
  {
    hide Rows, TileWords;
    TileWordsPositive(fmt, t);
    MulAssoc(size / TileWords(fmt, t), Rows(t), FACE_WIDTH);
    DivInRange(o, size / TileWords(fmt, t) * Rows(t), FACE_WIDTH);
    DivInRange(o / FACE_WIDTH, size / TileWords(fmt, t), Rows(t));
  }

  /** The first `done` elements, in writing order, are where they belong. */
  ghost predicate Filled(fmt: Format, t: Tile, words: seq<nat>, rowMajor: bool, isExpA: bool, floats: seq<Word>,
                         done: nat)
    requires Legal(t)
  {
    && |floats| == |words| / TileWords(fmt, t) * TileSize(t)
    && done <= |floats|
    && forall o :: 0 <= o < done ==> IsAt(floats, Place(t, rowMajor, o), ElementAt(fmt, t, words, isExpA, o))
  }

  ghost predicate IsAt(floats: seq<Word>, p: nat, x: Word)
  {
    p < |floats| && floats[p] == x
  }

  function Stored(floats: seq<Word>, at: nat, lanes: seq<Word>): seq<Word>
    requires at + |lanes| <= |floats|
  {
    floats[..at] + lanes + floats[at + |lanes|..]
  }

  /** A vector store. */
  method Store(a: array<Word>, at: nat, lanes: seq<Word>)
    requires at + |lanes| <= a.Length
    modifies a
    ensures a[..] == Stored(old(a[..]), at, lanes)
  {
    for l := 0 to |lanes|
      invariant forall p :: 0 <= p < a.Length ==> a[p] == if at <= p < at + l then lanes[p - at] else old(a[p])
    {
      a[at + l] := lanes[l];
    }
  }

  /** Storing the next lanes at their place keeps what is there and adds them. */
  lemma StoreFills(fmt: Format, t: Tile, words: seq<nat>, rowMajor: bool, isExpA: bool, floats: seq<Word>, done: nat,
                   at: nat, lanes: seq<Word>)
    requires Legal(t) && Filled(fmt, t, words, rowMajor, isExpA, floats, done)
    requires done + |lanes| <= |floats| && at + |lanes| <= |floats|
    requires forall l :: 0 <= l < |lanes| ==>
      lanes[l] == ElementAt(fmt, t, words, isExpA, done + l) && Place(t, rowMajor, done + l) == at + l
    ensures Filled(fmt, t, words, rowMajor, isExpA, Stored(floats, at, lanes), done + |lanes|)
  {
    hide Place, ElementAt, TileWords, TileSize, Legal;
    var after := Stored(floats, at, lanes);
    forall o | 0 <= o < done + |lanes|
      ensures IsAt(after, Place(t, rowMajor, o), ElementAt(fmt, t, words, isExpA, o))
    {
      if o >= done {
        var l := o - done;
        assert after[at + l] == lanes[l];
        assert Place(t, rowMajor, done + l) == at + l;
      } else {
        assert IsAt(floats, Place(t, rowMajor, o), ElementAt(fmt, t, words, isExpA, o));
        var p := Place(t, rowMajor, o);
        RankOfPlace(t, rowMajor, o);
        if at <= p < at + |lanes| {
          assert lanes[p - at] == ElementAt(fmt, t, words, isExpA, done + (p - at));
          RankOfPlace(t, rowMajor, done + (p - at));
        }
      }
    }
  }

  /** The 8 (or 16) lanes of one inner iteration, and where they go. */
  ghost predicate GroupDecoded(fmt: Format, t: Tile, words: seq<nat>, rowMajor: bool, isExpA: bool,
                               n: nat, k: nat, j: nat, lanes: seq<Word>, at: nat)
    requires Legal(t) && k < Rows(t) && n < |words| / TileWords(fmt, t) && j + |lanes| <= FACE_WIDTH
    requires t.faceH > 0 && t.faceCols > 0
  {
    && (forall l :: 0 <= l < |lanes| ==> lanes[l] == DecodedAt(fmt, t, words, isExpA, n, k, j + l))
    && at == Position(t, rowMajor, n, k, j)
  }

  lemma GroupFills(fmt: Format, t: Tile, words: seq<nat>, rowMajor: bool, isExpA: bool, floats: seq<Word>,
                   n: nat, k: nat, j: nat, lanes: seq<Word>, at: nat)
    requires Legal(t) && k < Rows(t) && n < |words| / TileWords(fmt, t) && lanes != [] && j + |lanes| <= FACE_WIDTH
    requires t.faceH > 0 && t.faceCols > 0
    requires Filled(fmt, t, words, rowMajor, isExpA, floats, Index(Index(n, Rows(t), k), FACE_WIDTH, j))
    requires GroupDecoded(fmt, t, words, rowMajor, isExpA, n, k, j, lanes, at)
    ensures at + |lanes| <= |floats|
    ensures Filled(fmt, t, words, rowMajor, isExpA, Stored(floats, at, lanes),
                   Index(Index(n, Rows(t), k), FACE_WIDTH, j + |lanes|))
  {
    hide Place, ElementAt, DecodedAt, TileWords, TileSize, Legal, Rows, Stored, FacePosition, Position;
    TileWordsPositive(fmt, t);
    var tiles, done := |words| / TileWords(fmt, t), Index(Index(n, Rows(t), k), FACE_WIDTH, j);
    RankBound(t, tiles, n, k, j + |lanes| - 1);
    forall l | 0 <= l < |lanes|
      ensures lanes[l] == ElementAt(fmt, t, words, isExpA, done + l) && Place(t, rowMajor, done + l) == at + l
    {
      assert done + l == Index(Index(n, Rows(t), k), FACE_WIDTH, j + l);
      PlaceAt(t, rowMajor, n, k, j + l);
      PositionShift(t, rowMajor, n, k, j, l);
      ElementIs(fmt, t, words, isExpA, n, k, j + l);
    }
    PositionInRange(t, rowMajor, tiles, n, k, j + |lanes| - 1);
    PositionShift(t, rowMajor, n, k, j, |lanes| - 1);
    StoreFills(fmt, t, words, rowMajor, isExpA, floats, done, at, lanes);
  }

  lemma PositionShift(t: Tile, rowMajor: bool, n: nat, k: nat, j: nat, l: nat)
    requires t.faceH > 0 && t.faceCols > 0
    ensures Position(t, rowMajor, n, k, j + l) == Position(t, rowMajor, n, k, j) + l
  {
    hide TileWidth, TileSize, RowIndex;
  }

  lemma ElementIs(fmt: Format, t: Tile, words: seq<nat>, isExpA: bool, n: nat, k: nat, j: nat)
    requires Legal(t) && k < Rows(t) && j < FACE_WIDTH && n < |words| / TileWords(fmt, t)
    ensures Index(Index(n, Rows(t), k), FACE_WIDTH, j) < |words| / TileWords(fmt, t) * TileSize(t)
    ensures ElementAt(fmt, t, words, isExpA, Index(Index(n, Rows(t), k), FACE_WIDTH, j))
         == DecodedAt(fmt, t, words, isExpA, n, k, j)
  {
    hide Rows, TileWords, TileSize, DecodedAt;
    LegalSizes(t);
    TileWordsPositive(fmt, t);
    RankBound(t, |words| / TileWords(fmt, t), n, k, j);
    var row := Index(n, Rows(t), k);
    DivModUnique(row * FACE_WIDTH + j, row, j, FACE_WIDTH);
    DivModUnique(n * Rows(t) + k, n, k, Rows(t));
  }

  /**
   The decoders' index arithmetic for word `part` of a face row: which word and byte hold the shared exponent,
   and which word the data. With four data to a word (Bfp8) the shifts are by 4 and 2 bits,
   with eight (Bfp4) by 3 and 1.
   */
  method Locate(fmt: Format, t: Tile, n: nat, tr: nat, tc: nat, i: nat, part: nat)
    returns (exponentIndex: nat, subWordIndex: nat, dataWord: nat)
    requires Legal(t) && fmt != Bfp2 && RowIndex(t, tr, tc, i) < Rows(t) && part < RowWords(fmt)
    ensures exponentIndex == Index(n, TileWords(fmt, t), RowIndex(t, tr, tc, i) / 4)
    ensures subWordIndex == RowIndex(t, tr, tc, i) % 4
    ensures dataWord == Index(n, TileWords(fmt, t), ExpWords(t) + RowIndex(t, tr, tc, i) * RowWords(fmt) + part)
  {
    hide Rows, RowIndex, TileWords, ExpWords, Legal, Index, MaskedRow;
    var per := PerWord(fmt);
    var dataIndex := tr * (t.faceCols * (t.faceH * FACE_WIDTH) / per) + tc * ((t.faceH * FACE_WIDTH) / per)
                     + i * (FACE_WIDTH / per) + part;
    DataIndexIs(t, per, tr, tc, i, part);
    IndicesOf(fmt, t, n, RowIndex(t, tr, tc, i), part);
    var tileAndDataIndex := dataIndex + TileWords(fmt, t) * n;
    exponentIndex := dataIndex / (4 * RowWords(fmt)) + TileWords(fmt, t) * n;
    subWordIndex := MaskedRow(t, (tileAndDataIndex - n * ExpWords(t)) / RowWords(fmt));
    dataWord := ExpWords(t) + tileAndDataIndex;
  }

  lemma NextWord(fmt: Format, t: Tile, n: nat, k: nat, part: nat)
    ensures Index(n, TileWords(fmt, t), ExpWords(t) + k * RowWords(fmt) + part) + 1
         == Index(n, TileWords(fmt, t), ExpWords(t) + k * RowWords(fmt) + (part + 1))
  {
    hide TileWords, ExpWords;
  }

  /** One inner iteration of the Bfp8 decoder: two data words, eight lanes. */
  method DecodeGroupBfp8(t: Tile, words: seq<nat>, rowMajor: bool, isExpA: bool, n: nat, tr: nat, tc: nat, i: nat,
                         j: nat,
                      elementIndex: nat)
    returns (lanes: seq<Word>, at: nat, nextIndex: nat)
    requires Legal(t) && InFaces(t, tr, tc, i) && TileWords(Bfp8, t) > 0 && n < |words| / TileWords(Bfp8, t)
             && (j == 0 || j == 8)
    requires RowIndex(t, tr, tc, i) < Rows(t)
    requires !rowMajor ==> elementIndex == Index(Index(n, Rows(t), RowIndex(t, tr, tc, i)), FACE_WIDTH, j)
    ensures |lanes| == 8 && GroupDecoded(Bfp8, t, words, rowMajor, isExpA, n, RowIndex(t, tr, tc, i), j, lanes, at)
    ensures nextIndex == if rowMajor then elementIndex else elementIndex + 8
  {
    hide Rows, RowIndex, TileWords, ExpWords, Decode, Digit, Legal, DatumBase, TileSize, TileWidth, Index, MaskedRow,
         Position;
    ghost var k := RowIndex(t, tr, tc, i);
    WordsInRange(Bfp8, t, |words|, n, k, j);
    WordsInRange(Bfp8, t, |words|, n, k, j + 4);
    var exponentIndex, subWordIndex, dataWord := Locate(Bfp8, t, n, tr, tc, i, j / 4);
    NextWord(Bfp8, t, n, k, j / 4);
    var expWord := words[exponentIndex];
    var exp := GetByte(expWord, subWordIndex);
    ExpByteIs(Bfp8, t, words, n, k, exp);
    var first := DecodeWord(Bfp8, words[dataWord], exp, isExpA);
    var second := DecodeWord(Bfp8, words[dataWord + 1], exp, isExpA);
    WordDecoded(Bfp8, t, words, isExpA, n, k, j / 4, exp, first);
    WordDecoded(Bfp8, t, words, isExpA, n, k, j / 4 + 1, exp, second);
    lanes := first + second;
    assert forall l :: 4 <= l < 8 ==> lanes[l] == second[l - 4];
    at, nextIndex := FloatIndex(t, rowMajor, n, tr, tc, i, j, elementIndex, 8);
  }

  /** The inner iteration of the Bfp4 decoder: two data words, sixteen lanes. */
  method DecodeGroupBfp4(t: Tile, words: seq<nat>, rowMajor: bool, isExpA: bool, n: nat, tr: nat, tc: nat, i: nat,
                         j: nat,
                         elementIndex: nat)
    returns (lanes: seq<Word>, at: nat, nextIndex: nat)
    requires Legal(t) && InFaces(t, tr, tc, i) && TileWords(Bfp4, t) > 0 && n < |words| / TileWords(Bfp4, t) && j == 0
    requires RowIndex(t, tr, tc, i) < Rows(t)
    requires !rowMajor ==> elementIndex == Index(Index(n, Rows(t), RowIndex(t, tr, tc, i)), FACE_WIDTH, j)
    ensures |lanes| == 16 && GroupDecoded(Bfp4, t, words, rowMajor, isExpA, n, RowIndex(t, tr, tc, i), j, lanes, at)
    ensures nextIndex == if rowMajor then elementIndex else elementIndex + 16
  {
    hide Rows, RowIndex, TileWords, ExpWords, Decode, Digit, Legal, DatumBase, TileSize, TileWidth, Index, MaskedRow,
         Position;
    ghost var k := RowIndex(t, tr, tc, i);
    WordsInRange(Bfp4, t, |words|, n, k, j);
    WordsInRange(Bfp4, t, |words|, n, k, j + 8);
    var exponentIndex, subWordIndex, dataWord := Locate(Bfp4, t, n, tr, tc, i, j / 8);
    NextWord(Bfp4, t, n, k, j / 8);
    var expWord := words[exponentIndex];
    var exp := GetByte(expWord, subWordIndex);
    ExpByteIs(Bfp4, t, words, n, k, exp);
    var first := DecodeWord(Bfp4, words[dataWord], exp, isExpA);
    var second := DecodeWord(Bfp4, words[dataWord + 1], exp, isExpA);
    WordDecoded(Bfp4, t, words, isExpA, n, k, j / 8, exp, first);
    WordDecoded(Bfp4, t, words, isExpA, n, k, j / 8 + 1, exp, second);
    lanes := first + second;
    assert forall l :: 8 <= l < 16 ==> lanes[l] == second[l - 8];
    at, nextIndex := FloatIndex(t, rowMajor, n, tr, tc, i, j, elementIndex, 16);
  }

  /** `get_byte`. */
  function GetByte(word: nat, index: nat): (b: nat)
    ensures b < 0x100
  {
    Digit(word, 0x100, index)
  }

  lemma ExpByteIs(fmt: Format, t: Tile, words: seq<nat>, n: nat, k: nat, exp: nat)
    requires Legal(t) && k < Rows(t) && n < |words| / TileWords(fmt, t)
    requires Index(n, TileWords(fmt, t), k / 4) < |words|
    requires exp == GetByte(words[Index(n, TileWords(fmt, t), k / 4)], k % 4)
    ensures exp == ExpByteAt(fmt, t, words, n, k)
  {
  }

  /** The lanes of word `q` of a face row are elements q * per-word onwards of that row. */
  lemma WordDecoded(fmt: Format, t: Tile, words: seq<nat>, isExpA: bool, n: nat, k: nat, q: nat, exp: nat,
                    lanes: seq<Word>)
    requires Legal(t) && k < Rows(t) && TileWords(fmt, t) > 0 && n < |words| / TileWords(fmt, t) && q < RowWords(fmt)
    requires Index(n, TileWords(fmt, t), ExpWords(t) + k * RowWords(fmt) + q) < |words|
    requires exp == ExpByteAt(fmt, t, words, n, k) && |lanes| == PerWord(fmt)
    requires forall l :: 0 <= l < PerWord(fmt) ==>
      lanes[l] == Decode(fmt, Digit(words[Index(n, TileWords(fmt, t), ExpWords(t) + k * RowWords(fmt) + q)],
                                    DatumBase(fmt), l),
                         exp, isExpA)
    ensures forall l :: 0 <= l < PerWord(fmt) ==>
      q * PerWord(fmt) + l < FACE_WIDTH && lanes[l] == DecodedAt(fmt, t, words, isExpA, n, k, q * PerWord(fmt) + l)
  {
    hide Rows, TileWords, ExpWords, Decode, Digit, Legal, DatumBase, ExpByteAt;
    forall l | 0 <= l < PerWord(fmt)
      ensures q * PerWord(fmt) + l < FACE_WIDTH
      ensures lanes[l] == DecodedAt(fmt, t, words, isExpA, n, k, q * PerWord(fmt) + l)
    {
      var j := q * PerWord(fmt) + l;
      IndexInRange(q, l, RowWords(fmt), PerWord(fmt));
      assert RowWords(fmt) * PerWord(fmt) == FACE_WIDTH;
      DivModUnique(j, q, l, PerWord(fmt));
      DatumIs(fmt, t, words, n, k, j);
    }
  }

  lemma DatumIs(fmt: Format, t: Tile, words: seq<nat>, n: nat, k: nat, j: nat)
    requires Legal(t) && k < Rows(t) && j < FACE_WIDTH && n < |words| / TileWords(fmt, t)
    ensures Index(n, TileWords(fmt, t), ExpWords(t) + k * RowWords(fmt) + j / PerWord(fmt)) < |words|
    ensures DatumAt(fmt, t, words, n, k, j)
         == Digit(words[Index(n, TileWords(fmt, t), ExpWords(t) + k * RowWords(fmt) + j / PerWord(fmt))],
                  DatumBase(fmt), j % PerWord(fmt))
  {
    hide TileWords, ExpWords, Rows, Digit, Legal;
    WordsInRange(fmt, t, |words|, n, k, j);
  }

  /** Where the lanes are stored, and the running element index. */
  method FloatIndex(t: Tile, rowMajor: bool, n: nat, tr: nat, tc: nat, i: nat, j: nat, elementIndex: nat, count: nat)
    returns (at: nat, nextIndex: nat)
    requires InFaces(t, tr, tc, i) && j < FACE_WIDTH && t.faceCols > 0 && t.faceH > 0
    requires !rowMajor ==> elementIndex == Index(Index(n, Rows(t), RowIndex(t, tr, tc, i)), FACE_WIDTH, j)
    ensures at == Position(t, rowMajor, n, RowIndex(t, tr, tc, i), j)
    ensures nextIndex == if rowMajor then elementIndex else elementIndex + count
  {
    hide Rows, RowIndex, TileSize, TileWidth;
    RowIndexSplit(t, tr, tc, i);
    SequentialPosition(t, n, tr, tc, i, j);
    if rowMajor {
      var subtileR := tr * t.faceH + i;
      var subtileC := tc * FACE_WIDTH + j;
      TermOrder(subtileR, TileWidth(t), n, TileSize(t));
      at := subtileC + TileWidth(t) * subtileR + n * TileSize(t);
      nextIndex := elementIndex;
    } else {
      at := elementIndex;
      nextIndex := elementIndex + count;
    }
  }

  lemma TermOrder(a: nat, b: nat, c: nat, d: nat)
    ensures a * b == b * a && c * d == d * c && a * b >= 0 && c * d >= 0
  {
  }

  /** What the loops have reached: everything before element `j` of face row `k` of tile `n` is in place. */
  ghost predicate GroupReady(fmt: Format, t: Tile, words: seq<nat>, rowMajor: bool, isExpA: bool, floats: seq<Word>,
                             n: nat, k: nat, j: nat, elementIndex: nat)
    requires Legal(t)
  {
    && TileWords(fmt, t) > 0 && n < |words| / TileWords(fmt, t) && k <= Rows(t)
    && Filled(fmt, t, words, rowMajor, isExpA, floats, Index(Index(n, Rows(t), k), FACE_WIDTH, j))
    && (!rowMajor ==> elementIndex == Index(Index(n, Rows(t), k), FACE_WIDTH, j))
  }

  lemma GroupIndex(fmt: Format, t: Tile, words: seq<nat>, rowMajor: bool, isExpA: bool, floats: seq<Word>,
                   n: nat, k: nat, j: nat, elementIndex: nat)
    requires Legal(t) && GroupReady(fmt, t, words, rowMajor, isExpA, floats, n, k, j, elementIndex)
    ensures TileWords(fmt, t) > 0 && n < |words| / TileWords(fmt, t)
    ensures !rowMajor ==> elementIndex == Index(Index(n, Rows(t), k), FACE_WIDTH, j)
  {
    hide Filled, TileWords, Rows;
  }

  lemma GroupStep(fmt: Format, t: Tile, words: seq<nat>, rowMajor: bool, isExpA: bool, floats: seq<Word>,
                  n: nat, k: nat, j: nat, elementIndex: nat, lanes: seq<Word>, at: nat, nextIndex: nat)
    requires Legal(t) && GroupReady(fmt, t, words, rowMajor, isExpA, floats, n, k, j, elementIndex)
    requires k < Rows(t) && lanes != [] && j + |lanes| <= FACE_WIDTH
    requires TileWords(fmt, t) > 0 && n < |words| / TileWords(fmt, t) && t.faceH > 0 && t.faceCols > 0
    requires GroupDecoded(fmt, t, words, rowMajor, isExpA, n, k, j, lanes, at)
    requires nextIndex == if rowMajor then elementIndex else elementIndex + |lanes|
    ensures at + |lanes| <= |floats|
    ensures GroupReady(fmt, t, words, rowMajor, isExpA, Stored(floats, at, lanes), n, k, j + |lanes|, nextIndex)
  {
    hide Filled, TileWords, Rows, GroupDecoded, Stored, Legal;
    GroupFills(fmt, t, words, rowMajor, isExpA, floats, n, k, j, lanes, at);
  }

  lemma GroupWrap(fmt: Format, t: Tile, words: seq<nat>, rowMajor: bool, isExpA: bool, floats: seq<Word>,
                  n: nat, k: nat, elementIndex: nat)
    requires Legal(t) && GroupReady(fmt, t, words, rowMajor, isExpA, floats, n, k, FACE_WIDTH, elementIndex)
    requires k < Rows(t)
    ensures GroupReady(fmt, t, words, rowMajor, isExpA, floats, n, k + 1, 0, elementIndex)
  {
    hide Filled, TileWords, Rows, Legal;
    assert Index(Index(n, Rows(t), k), FACE_WIDTH, FACE_WIDTH) == Index(Index(n, Rows(t), k + 1), FACE_WIDTH, 0);
  }

  lemma TileBegins(fmt: Format, t: Tile, words: seq<nat>, rowMajor: bool, isExpA: bool, floats: seq<Word>,
                   n: nat, elementIndex: nat)
    requires Legal(t) && TileWords(fmt, t) > 0 && n < |words| / TileWords(fmt, t)
    requires n * TileSize(t) >= 0 && Filled(fmt, t, words, rowMajor, isExpA, floats, n * TileSize(t))
    requires !rowMajor ==> elementIndex == n * TileSize(t)
    ensures RowIndex(t, 0, 0, 0) == 0
    ensures GroupReady(fmt, t, words, rowMajor, isExpA, floats, n, RowIndex(t, 0, 0, 0), 0, elementIndex)
  {
    hide Filled, TileWords, Rows, Legal;
    MulAssoc(n, Rows(t), FACE_WIDTH);
  }

  lemma TileEnds(fmt: Format, t: Tile, words: seq<nat>, rowMajor: bool, isExpA: bool, floats: seq<Word>,
                 n: nat, elementIndex: nat)
    requires Legal(t) && GroupReady(fmt, t, words, rowMajor, isExpA, floats, n, RowIndex(t, t.faceRows, 0, 0), 0,
                                    elementIndex)
    ensures (n + 1) * TileSize(t) >= 0 && Filled(fmt, t, words, rowMajor, isExpA, floats, (n + 1) * TileSize(t))
    ensures !rowMajor ==> elementIndex == (n + 1) * TileSize(t)
  {
    hide Filled, TileWords, Rows, Legal;
    RowIndexStarts(t);
    MulDistribute(n, 1, Rows(t));
    MulAssoc(n + 1, Rows(t), FACE_WIDTH);
    assert Index(Index(n, Rows(t), Rows(t)), FACE_WIDTH, 0) == (n + 1) * TileSize(t);
  }

  lemma AllFilled(fmt: Format, t: Tile, words: seq<nat>, rowMajor: bool, isExpA: bool, floats: seq<Word>, tiles: nat)
    requires Legal(t) && TileWords(fmt, t) > 0 && tiles == |words| / TileWords(fmt, t)
    requires tiles * TileSize(t) >= 0 && Filled(fmt, t, words, rowMajor, isExpA, floats, tiles * TileSize(t))
    ensures Filled(fmt, t, words, rowMajor, isExpA, floats, |floats|)
  {
  }

  /** The number of tiles comes from sizes in bytes: four per word. */
  lemma TileBytes(fmt: Format, t: Tile, size: nat)
    requires Legal(t) && fmt != Bfp2
    ensures TileWords(fmt, t) > 0
    ensures (if fmt == Bfp8 then TileSize(t) else TileSize(t) / 2) + 4 * ExpWords(t) == 4 * TileWords(fmt, t)
    ensures size * 4 / (4 * TileWords(fmt, t)) == size / TileWords(fmt, t)
  {
    TileWordsPositive(fmt, t);
    DivCancel(size, TileWords(fmt, t), 4);
  }

  /** `unpack_bfp8_tiles_into_float_vec`. */
  method UnpackBfp8(words: seq<nat>, t: Tile, rowMajor: bool, isExpA: bool) returns (floats: seq<Word>)
    requires Legal(t)
    ensures Filled(Bfp8, t, words, rowMajor, isExpA, floats, |floats|)
  {
    hide TileSize, TileWords, ExpWords, Rows, RowIndex, Filled, GroupReady, GroupDecoded, Legal, Stored;
    TileBytes(Bfp8, t, |words|);
    var numTiles := |words| * 4 / (TileSize(t) + 4 * ExpWords(t));
    var floatVec := new Word[numTiles * TileSize(t)](_ => 0);
    var elementIndex: nat := 0;
    NothingFilled(Bfp8, t, words, rowMajor, isExpA, floatVec[..]);
    for n := 0 to numTiles
      invariant Filled(Bfp8, t, words, rowMajor, isExpA, floatVec[..], n * TileSize(t))
      invariant !rowMajor ==> elementIndex == n * TileSize(t)
    {
      TileBegins(Bfp8, t, words, rowMajor, isExpA, floatVec[..], n, elementIndex);
      for tr := 0 to t.faceRows
        invariant GroupReady(Bfp8, t, words, rowMajor, isExpA, floatVec[..], n, RowIndex(t, tr, 0, 0), 0, elementIndex)
      {
        for tc := 0 to t.faceCols
          invariant GroupReady(Bfp8, t, words, rowMajor, isExpA, floatVec[..], n, RowIndex(t, tr, tc, 0), 0,
                               elementIndex)
        {
          for i := 0 to t.faceH
            invariant GroupReady(Bfp8, t, words, rowMajor, isExpA, floatVec[..], n, RowIndex(t, tr, tc, i), 0,
                                 elementIndex)
          {
            ghost var k := RowIndex(t, tr, tc, i);
            NextRow(t, tr, tc, i);
            var j: nat := 0;
            while j < FACE_WIDTH
              invariant j == 0 || j == 8 || j == 16
              invariant GroupReady(Bfp8, t, words, rowMajor, isExpA, floatVec[..], n, k, j, elementIndex)
            {
              var lanes, at;
              GroupIndex(Bfp8, t, words, rowMajor, isExpA, floatVec[..], n, k, j, elementIndex);
              ghost var before, index := floatVec[..], elementIndex;
              lanes, at, elementIndex := DecodeGroupBfp8(t, words, rowMajor, isExpA, n, tr, tc, i, j, elementIndex);
              GroupStep(Bfp8, t, words, rowMajor, isExpA, before, n, k, j, index, lanes, at, elementIndex);
              Store(floatVec, at, lanes);
              j := j + 8;
            }
            GroupWrap(Bfp8, t, words, rowMajor, isExpA, floatVec[..], n, k, elementIndex);
          }
          NextFace(t, tr, tc);
        }
        NextFaceRow(t, tr);
      }
      TileEnds(Bfp8, t, words, rowMajor, isExpA, floatVec[..], n, elementIndex);
    }
    AllFilled(Bfp8, t, words, rowMajor, isExpA, floatVec[..], numTiles);
    floats := floatVec[..];
  }

  /** `unpack_bfp4_tiles_into_float_vec`. */
  method UnpackBfp4(words: seq<nat>, t: Tile, rowMajor: bool, isExpA: bool) returns (floats: seq<Word>)
    requires Legal(t)
    ensures Filled(Bfp4, t, words, rowMajor, isExpA, floats, |floats|)
  {
    hide TileSize, TileWords, ExpWords, Rows, RowIndex, Filled, GroupReady, GroupDecoded, Legal, Stored;
    TileBytes(Bfp4, t, |words|);
    var numTiles := |words| * 4 / (TileSize(t) / 2 + 4 * ExpWords(t));
    var floatVec := new Word[numTiles * TileSize(t)](_ => 0);
    var elementIndex: nat := 0;
    NothingFilled(Bfp4, t, words, rowMajor, isExpA, floatVec[..]);
    for n := 0 to numTiles
      invariant Filled(Bfp4, t, words, rowMajor, isExpA, floatVec[..], n * TileSize(t))
      invariant !rowMajor ==> elementIndex == n * TileSize(t)
    {
      TileBegins(Bfp4, t, words, rowMajor, isExpA, floatVec[..], n, elementIndex);
      for tr := 0 to t.faceRows
        invariant GroupReady(Bfp4, t, words, rowMajor, isExpA, floatVec[..], n, RowIndex(t, tr, 0, 0), 0, elementIndex)
      {
        for tc := 0 to t.faceCols
          invariant GroupReady(Bfp4, t, words, rowMajor, isExpA, floatVec[..], n, RowIndex(t, tr, tc, 0), 0,
                               elementIndex)
        {
          for i := 0 to t.faceH
            invariant GroupReady(Bfp4, t, words, rowMajor, isExpA, floatVec[..], n, RowIndex(t, tr, tc, i), 0,
                                 elementIndex)
          {
            ghost var k := RowIndex(t, tr, tc, i);
            NextRow(t, tr, tc, i);
            var j: nat := 0;
            while j < FACE_WIDTH
              invariant j == 0 || j == 16
              invariant GroupReady(Bfp4, t, words, rowMajor, isExpA, floatVec[..], n, k, j, elementIndex)
            {
              var lanes, at;
              GroupIndex(Bfp4, t, words, rowMajor, isExpA, floatVec[..], n, k, j, elementIndex);
              ghost var before, index := floatVec[..], elementIndex;
              lanes, at, elementIndex := DecodeGroupBfp4(t, words, rowMajor, isExpA, n, tr, tc, i, j, elementIndex);
              GroupStep(Bfp4, t, words, rowMajor, isExpA, before, n, k, j, index, lanes, at, elementIndex);
              Store(floatVec, at, lanes);
              j := j + 16;
            }
            GroupWrap(Bfp4, t, words, rowMajor, isExpA, floatVec[..], n, k, elementIndex);
          }
          NextFace(t, tr, tc);
        }
        NextFaceRow(t, tr);
      }
      TileEnds(Bfp4, t, words, rowMajor, isExpA, floatVec[..], n, elementIndex);
    }
    AllFilled(Bfp4, t, words, rowMajor, isExpA, floatVec[..], numTiles);
    floats := floatVec[..];
  }

  lemma NothingFilled(fmt: Format, t: Tile, words: seq<nat>, rowMajor: bool, isExpA: bool, floats: seq<Word>)
    requires Legal(t) && TileWords(fmt, t) > 0 && |floats| == |words| / TileWords(fmt, t) * TileSize(t)
    ensures Filled(fmt, t, words, rowMajor, isExpA, floats, 0)
  {
  }
}
