/**
 `pack_fp32_vec_as_bfp_tiles`: for every tile an exponent section (one byte per 16-element face row, padded
 to 16 bytes) and a data section. The packing loops are proved against a closed form that says which input
 element every digit of every word comes from.
 */
module BlockFloatTiles {
  import opened Arith
  import opened Bits
  import opened BlockFloat

  /** Faces are `faceH` rows of 16 elements; a tile has `faceRows` by `faceCols` faces. */
  datatype Tile = Tile(faceH: nat, faceRows: nat, faceCols: nat)

  /** The shapes of `TILE_FACE_HW_CHOICES`. */
  predicate Legal(t: Tile)
  {
    t in {Tile(16, 2, 2), Tile(16, 1, 2), Tile(16, 2, 1), Tile(16, 1, 1),
          Tile(8, 1, 2), Tile(4, 1, 2), Tile(2, 1, 2), Tile(1, 1, 2),
          Tile(8, 1, 1), Tile(4, 1, 1), Tile(2, 1, 1), Tile(1, 1, 1)}
  }

  /** Whole faces in one or two rows and columns, or a single row of one or two shorter faces. */
  lemma LegalShapes(t: Tile)
    ensures Legal(t) <==>
            || (t.faceH == 16 && t.faceRows in {1, 2} && t.faceCols in {1, 2})
            || (t.faceH in {1, 2, 4, 8} && t.faceRows == 1 && t.faceCols in {1, 2})
  {
  }

  const FACE_WIDTH := 16
  const L1_ALIGNMENT := 16

  /** How many face rows, and so how many shared exponents, a tile has. */
  function Rows(t: Tile): nat { t.faceRows * t.faceCols * t.faceH }
  function TileWidth(t: Tile): nat { t.faceCols * FACE_WIDTH }
  function TileSize(t: Tile): nat { Rows(t) * FACE_WIDTH }

  /** Data elements in one 32-bit word, and words in one face row. */
  function PerWord(fmt: Format): nat { match fmt case Bfp2 => 16 case Bfp4 => 8 case Bfp8 => 4 }
  function RowWords(fmt: Format): nat { match fmt case Bfp2 => 1 case Bfp4 => 2 case Bfp8 => 4 }
  function DatumBase(fmt: Format): nat { Pow2(ManWidth(fmt) + 1) }

  /** Words of the exponent section: one byte per row, rounded up to 16 bytes. */
  function ExpWords(t: Tile): nat { (Rows(t) + L1_ALIGNMENT - 1) / L1_ALIGNMENT * L1_ALIGNMENT / 4 }
  function DataWords(fmt: Format, t: Tile): nat { Rows(t) * RowWords(fmt) }
  function TileWords(fmt: Format, t: Tile): nat { ExpWords(t) + DataWords(fmt, t) }

  lemma LegalSizes(t: Tile)
    requires Legal(t)
    ensures Rows(t) in {1, 2, 4, 8, 16, 32, 64}
    ensures t.faceH > 0 && t.faceRows > 0 && t.faceCols > 0
    ensures Rows(t) < 16 ==> ExpWords(t) == 4
    ensures Rows(t) >= 16 ==> ExpWords(t) * 4 == Rows(t)
  {
  }

  // ----- where the elements of a face row come from

  /** Face row `i` of face (tr, tc), counted in the order in which tiles are stored. */
  function RowIndex(t: Tile, tr: nat, tc: nat, i: nat): nat { (tr * t.faceCols + tc) * t.faceH + i }

  ghost predicate InFaces(t: Tile, tr: nat, tc: nat, i: nat)
  {
    tr < t.faceRows && tc < t.faceCols && i < t.faceH
  }

  function FaceRowOf(t: Tile, k: nat): nat requires t.faceH > 0 && t.faceCols > 0 { k / t.faceH / t.faceCols }
  function FaceColOf(t: Tile, k: nat): nat requires t.faceH > 0 && t.faceCols > 0 { k / t.faceH % t.faceCols }
  function LineOf(t: Tile, k: nat): nat requires t.faceH > 0 { k % t.faceH }

  lemma RowIndexSplit(t: Tile, tr: nat, tc: nat, i: nat)
    requires InFaces(t, tr, tc, i)
    ensures RowIndex(t, tr, tc, i) < Rows(t)
    ensures FaceRowOf(t, RowIndex(t, tr, tc, i)) == tr
    ensures FaceColOf(t, RowIndex(t, tr, tc, i)) == tc
    ensures LineOf(t, RowIndex(t, tr, tc, i)) == i
  {
    IndexInRange(tr, tc, t.faceRows, t.faceCols);
    IndexInRange(tr * t.faceCols + tc, i, t.faceRows * t.faceCols, t.faceH);
    DivModUnique(RowIndex(t, tr, tc, i), tr * t.faceCols + tc, i, t.faceH);
    DivModUnique(tr * t.faceCols + tc, tr, tc, t.faceCols);
  }

  lemma RowIndexOf(t: Tile, k: nat)
    requires k < Rows(t)
    ensures t.faceH > 0 && t.faceCols > 0
    ensures InFaces(t, FaceRowOf(t, k), FaceColOf(t, k), LineOf(t, k))
    ensures RowIndex(t, FaceRowOf(t, k), FaceColOf(t, k), LineOf(t, k)) == k
  {
    assert t.faceH != 0 && t.faceCols != 0;
    DivInRange(k, t.faceRows * t.faceCols, t.faceH);
    DivInRange(k / t.faceH, t.faceRows, t.faceCols);
    DivModSplit(k, t.faceH);
    DivModSplit(k / t.faceH, t.faceCols);
  }

  /** The position in the float vector of element `j` of face row `i` of face (tr, tc) of tile `n`. */
  function FacePosition(t: Tile, rowMajor: bool, n: nat, tr: nat, tc: nat, i: nat, j: nat): nat
  {
    if rowMajor
    then (tr * t.faceH + i) * TileWidth(t) + (tc * FACE_WIDTH + j) + TileSize(t) * n
    else TileSize(t) * n + FACE_WIDTH * RowIndex(t, tr, tc, i) + j
  }

  function Position(t: Tile, rowMajor: bool, n: nat, k: nat, j: nat): nat
    requires t.faceH > 0 && t.faceCols > 0
  {
    FacePosition(t, rowMajor, n, FaceRowOf(t, k), FaceColOf(t, k), LineOf(t, k), j)
  }

  lemma PositionInTile(t: Tile, rowMajor: bool, n: nat, k: nat, j: nat)
    requires k < Rows(t) && j < FACE_WIDTH && t.faceH > 0 && t.faceCols > 0
    ensures TileSize(t) * n <= Position(t, rowMajor, n, k, j) < TileSize(t) * (n + 1)
  {
    hide RowIndex, FaceRowOf, FaceColOf, LineOf, TileSize, Rows;
    RowIndexOf(t, k);
    FacePositionInTile(t, rowMajor, n, FaceRowOf(t, k), FaceColOf(t, k), LineOf(t, k), j);
  }

  lemma FacePositionInTile(t: Tile, rowMajor: bool, n: nat, tr: nat, tc: nat, i: nat, j: nat)
    requires InFaces(t, tr, tc, i) && j < FACE_WIDTH && RowIndex(t, tr, tc, i) < Rows(t)
    ensures TileSize(t) * n <= FacePosition(t, rowMajor, n, tr, tc, i, j) < TileSize(t) * (n + 1)
  {
    hide RowIndex, Rows;
    MulDistribute(n, 1, TileSize(t));
    assert TileSize(t) == Rows(t) * FACE_WIDTH;
    if rowMajor {
      hide TileSize, TileWidth;
      PlaceInTile(t, tr, tc, i, j);
    }
  }

  /** The row-major place within a tile. */
  lemma PlaceInTile(t: Tile, tr: nat, tc: nat, i: nat, j: nat)
    requires InFaces(t, tr, tc, i) && j < FACE_WIDTH
    ensures (tr * t.faceH + i) * TileWidth(t) + (tc * FACE_WIDTH + j) < TileSize(t)
  {
    hide TileSize, TileWidth;
    IndexInRange(tr, i, t.faceRows, t.faceH);
    assert tc * FACE_WIDTH + j < TileWidth(t) by {
      IndexInRange(tc, j, t.faceCols, FACE_WIDTH);
      WidthOfTile(t);
    }
    IndexInRange(tr * t.faceH + i, tc * FACE_WIDTH + j, t.faceRows * t.faceH, TileWidth(t));
    AreaOfTile(t.faceRows, t.faceCols, t.faceH, t);
  }

  lemma WidthOfTile(t: Tile)
    ensures TileWidth(t) == t.faceCols * FACE_WIDTH
  {
  }

  lemma AreaOfTile(rows: nat, cols: nat, h: nat, t: Tile)
    requires t == Tile(h, rows, cols)
    ensures rows * h * TileWidth(t) == TileSize(t)
  {
    MulAssoc(rows * h, cols, FACE_WIDTH);
    MulAssoc(rows, h, cols);
    MulAssoc(rows, cols, h);
  }

  lemma PositionInRange(t: Tile, rowMajor: bool, tiles: nat, n: nat, k: nat, j: nat)
    requires k < Rows(t) && j < FACE_WIDTH && t.faceH > 0 && t.faceCols > 0 && n < tiles
    ensures Position(t, rowMajor, n, k, j) < tiles * TileSize(t)
  {
    hide Position;
    PositionInTile(t, rowMajor, n, k, j);
    MulMono(n + 1, tiles, TileSize(t));
  }

  // ----- the packed form

  /** The 16 input words of face row `k` of tile `n`. */
  function FaceRow(t: Tile, v: seq<Word>, rowMajor: bool, n: nat, k: nat): (row: seq<Word>)
    requires Legal(t) && n < |v| / TileSize(t) && k < Rows(t)
    ensures |row| == FACE_WIDTH
  {
    seq(FACE_WIDTH, j requires 0 <= j < FACE_WIDTH =>
      TilesFit(t, |v|);
      PositionInRange(t, rowMajor, |v| / TileSize(t), n, k, j);
      v[Position(t, rowMajor, n, k, j)])
  }

  lemma TilesFit(t: Tile, size: nat)
    requires Legal(t)
    ensures TileSize(t) > 0 && size / TileSize(t) * TileSize(t) <= size
  {
    LegalSizes(t);
    DivModSplit(size, TileSize(t));
  }

  function SharedExp(t: Tile, v: seq<Word>, rowMajor: bool, isExpA: bool, n: nat, k: nat): nat
    requires Legal(t) && n < |v| / TileSize(t) && k < Rows(t)
  {
    MaxExp(FaceRow(t, v, rowMajor, n, k), isExpA)
  }

  /** The exponent bytes of a tile, with their padding. */
  function ExpBytes(t: Tile, v: seq<Word>, rowMajor: bool, isExpA: bool, n: nat): seq<nat>
    requires Legal(t) && n < |v| / TileSize(t)
  {
    seq(4 * ExpWords(t), k requires 0 <= k < 4 * ExpWords(t) =>
      if k < Rows(t) then SharedExp(t, v, rowMajor, isExpA, n, k) else 0)
  }

  /** Word `q` of the packed form of one face row. */
  function RowWord(fmt: Format, row: seq<Word>, exp: nat, isExpA: bool, q: nat): nat
    requires |row| == FACE_WIDTH && q < RowWords(fmt)
  {
    FromDigits(EncodedGroup(fmt, row[q * PerWord(fmt)..(q + 1) * PerWord(fmt)], exp, isExpA), DatumBase(fmt))
  }

  function PackedRow(fmt: Format, row: seq<Word>, exp: nat, isExpA: bool): seq<nat>
    requires |row| == FACE_WIDTH
  {
    seq(RowWords(fmt), q requires 0 <= q < RowWords(fmt) => RowWord(fmt, row, exp, isExpA, q))
  }

  function EncodedGroup(fmt: Format, group: seq<Word>, exp: nat, isExpA: bool): seq<nat>
  {
    seq(|group|, j requires 0 <= j < |group| => Encode(fmt, group[j], exp, isExpA))
  }

  function ExpSection(t: Tile, v: seq<Word>, rowMajor: bool, isExpA: bool, n: nat): seq<nat>
    requires Legal(t) && n < |v| / TileSize(t)
  {
    var bytes := ExpBytes(t, v, rowMajor, isExpA, n);
    seq(ExpWords(t), q requires 0 <= q < ExpWords(t) => FromDigits(bytes[4 * q..4 * q + 4], 0x100))
  }

  function DataSection(fmt: Format, t: Tile, v: seq<Word>, rowMajor: bool, isExpA: bool, n: nat): seq<nat>
    requires Legal(t) && n < |v| / TileSize(t)
  {
    seq(DataWords(fmt, t), d requires 0 <= d < DataWords(fmt, t) =>
      DivInRange(d, Rows(t), RowWords(fmt));
      var k := d / RowWords(fmt);
      RowWord(fmt, FaceRow(t, v, rowMajor, n, k), SharedExp(t, v, rowMajor, isExpA, n, k), isExpA, d % RowWords(fmt)))
  }

  function PackedTile(fmt: Format, t: Tile, v: seq<Word>, rowMajor: bool, isExpA: bool, n: nat): (s: seq<nat>)
    requires Legal(t) && n < |v| / TileSize(t)
    ensures |s| == TileWords(fmt, t)
  {
    ExpSection(t, v, rowMajor, isExpA, n) + DataSection(fmt, t, v, rowMajor, isExpA, n)
  }

  /** The first `n` tiles, packed. */
  function Packed(fmt: Format, t: Tile, v: seq<Word>, rowMajor: bool, isExpA: bool, n: nat): (s: seq<nat>)
    requires Legal(t) && n <= |v| / TileSize(t)
    ensures |s| == n * TileWords(fmt, t)
  {
    hide TileWords, PackedTile;
    if n == 0 then [] else
      MulDistribute(n - 1, 1, TileWords(fmt, t));
      Packed(fmt, t, v, rowMajor, isExpA, n - 1) + PackedTile(fmt, t, v, rowMajor, isExpA, n - 1)
  }

  ghost predicate HoldsAt(s: seq<nat>, i: nat, x: nat)
  {
    i < |s| && s[i] == x
  }

  /** Tile `n` occupies words n * TileWords up to (n + 1) * TileWords. */
  lemma {:induction false} PackedAt(fmt: Format, t: Tile, v: seq<Word>, rowMajor: bool, isExpA: bool, tiles: nat,
                                    n: nat, w: nat)
    requires Legal(t) && n < tiles <= |v| / TileSize(t) && w < TileWords(fmt, t)
    ensures HoldsAt(Packed(fmt, t, v, rowMajor, isExpA, tiles), Index(n, TileWords(fmt, t), w),
                    PackedTile(fmt, t, v, rowMajor, isExpA, n)[w])
  {
    hide TileWords, PackedTile, TileSize;
    IndexInRange(n, w, tiles, TileWords(fmt, t));
    if n < tiles - 1 {
      PackedAt(fmt, t, v, rowMajor, isExpA, tiles - 1, n, w);
    }
  }

  // ----- the packing loops

  /** `create_packed_bfp_packed_as_u32`: the first datum ends up in the low bits. */
  method CreatePackedWord(fmt: Format, group: seq<Word>, exp: nat, isExpA: bool) returns (word: nat)
    requires |group| == PerWord(fmt)
    ensures word == FromDigits(EncodedGroup(fmt, group, exp, isExpA), DatumBase(fmt))
    ensures word < 0x1_0000_0000
  {
    hide *;
    ghost var ds := EncodedGroup(fmt, group, exp, isExpA);
    DatumsOf(fmt, group, exp, isExpA);
    word := 0;
    NoDigits(DatumBase(fmt));
    assert ds[|ds|..] == [];
    var i: int := PerWord(fmt) - 1;
    while i >= 0
      invariant -1 <= i < PerWord(fmt)
      invariant word == FromDigits(ds[i + 1..], DatumBase(fmt))
    {
      var conv := ConvertU32ToBfp(fmt, group[i], exp, isExpA);
      PackStep(fmt, ds, i);
      word := Wrap(Shl(word, ManWidth(fmt) + 1));
      word := BitOr(word, LowBits(fmt, conv));
      i := i - 1;
    }
    assert ds[0..] == ds;
    WordFits(fmt, ds, 0);
  }

  lemma DatumsOf(fmt: Format, group: seq<Word>, exp: nat, isExpA: bool)
    ensures var ds := EncodedGroup(fmt, group, exp, isExpA);
            && |ds| == |group| && AreDigits(ds, DatumBase(fmt))
            && forall i :: 0 <= i < |group| ==> ds[i] == Encode(fmt, group[i], exp, isExpA)
  {
    EncodedAreDigits(fmt, group, exp, isExpA);
  }

  /** The bits the datum mask keeps. */
  function LowBits(fmt: Format, d: nat): nat
  {
    MaskNonNegative(d, DatumBase(fmt));
    d % DatumBase(fmt)
  }

  lemma MaskNonNegative(d: nat, base: nat)
    requires base > 0
    ensures 0 <= d % base < base
  {
  }

  lemma EncodedAreDigits(fmt: Format, group: seq<Word>, exp: nat, isExpA: bool)
    ensures AreDigits(EncodedGroup(fmt, group, exp, isExpA), DatumBase(fmt))
  {
    hide Encode, Pow2;
    forall j | 0 <= j < |group|
      ensures Encode(fmt, group[j], exp, isExpA) < DatumBase(fmt)
    {
      assert Encode(fmt, group[j], exp, isExpA) < Pow2(ManWidth(fmt) + 1);
    }
  }

  lemma PackStep(fmt: Format, ds: seq<nat>, i: nat)
    requires |ds| == PerWord(fmt) && AreDigits(ds, DatumBase(fmt)) && i < |ds|
    ensures BitOr(Wrap(Shl(FromDigits(ds[i + 1..], DatumBase(fmt)), ManWidth(fmt) + 1)), LowBits(fmt, ds[i]))
         == FromDigits(ds[i..], DatumBase(fmt))
  {
    hide BitOr, Shl, FromDigits, DatumBase;
    WordFits(fmt, ds, i + 1);
    MaskKeepsDatum(fmt, ds[i]);
    AddLowDigit(fmt, ds, i);
  }

  lemma MaskKeepsDatum(fmt: Format, d: nat)
    requires d < DatumBase(fmt)
    ensures LowBits(fmt, d) == d
  {
    DivModUnique(d, 0, d, DatumBase(fmt));
  }

  /** The digits from place `i` on, shifted up once more, still fit in 32 bits when `i > 0`. */
  lemma WordFits(fmt: Format, ds: seq<nat>, i: nat)
    requires |ds| == PerWord(fmt) && AreDigits(ds, DatumBase(fmt)) && i <= |ds|
    ensures FromDigits(ds[i..], DatumBase(fmt)) < 0x1_0000_0000
    ensures i > 0 ==> Shl(FromDigits(ds[i..], DatumBase(fmt)), ManWidth(fmt) + 1) < 0x1_0000_0000
  {
    hide Pow2, FromDigits, Pow;
    var k, n, word := ManWidth(fmt) + 1, |ds| - i, FromDigits(ds[i..], DatumBase(fmt));
    DigitsFit(ds[i..], DatumBase(fmt));
    PowOfPow2(k, n);
    BitsInWord(fmt, i);
    if i > 0 {
      Pow2Add(k * n, k);
      MulMono(word + 1, Pow2(k * n), Pow2(k));
      MulDistribute(word, 1, Pow2(k));
    }
  }

  lemma BitsInWord(fmt: Format, i: nat)
    requires i <= PerWord(fmt)
    ensures var k, n := ManWidth(fmt) + 1, PerWord(fmt) - i;
            Pow2(k * n) <= 0x1_0000_0000 && (i > 0 ==> Pow2(k * n + k) <= 0x1_0000_0000)
  {
    hide Pow2;
    var k, n := ManWidth(fmt) + 1, PerWord(fmt) - i;
    assert k * PerWord(fmt) == 32;
    MulMono(n, PerWord(fmt), k);
    Pow2Values();
    Pow2Add(1, 31);
    Pow2Mono(k * n, 32);
    if i > 0 {
      MulMono(n + 1, PerWord(fmt), k);
      MulDistribute(n, 1, k);
      Pow2Mono(k * n + k, 32);
    }
  }

  lemma AddLowDigit(fmt: Format, ds: seq<nat>, i: nat)
    requires i < |ds| && AreDigits(ds, DatumBase(fmt))
    ensures BitOr(Shl(FromDigits(ds[i + 1..], DatumBase(fmt)), ManWidth(fmt) + 1), ds[i])
         == FromDigits(ds[i..], DatumBase(fmt))
  {
    hide Pow2, BitOr;
    var rest := FromDigits(ds[i + 1..], DatumBase(fmt));
    OrDisjoint(rest, ManWidth(fmt) + 1, ds[i]);
    assert ds[i..][1..] == ds[i + 1..];
    assert rest * DatumBase(fmt) == DatumBase(fmt) * rest;
  }

  /** `get_exp_dword`, and one round of `pack_exponents`: four bytes, the first in the low bits. */
  method PackBytes(bytes: seq<nat>) returns (word: nat)
    requires |bytes| == 4 && AreDigits(bytes, 0x100)
    ensures word == FromDigits(bytes, 0x100) && word < 0x1_0000_0000
  {
    hide BitOr, Shl, Pow, FromDigits, Pow2;
    word := 0;
    NoDigits(0x100);
    for i := 0 to 4
      invariant word == FromDigits(bytes[..i], 0x100)
    {
      AddHighByte(bytes, i);
      word := BitOr(word, Shl(bytes[i] % 0x100, i * 8));
    }
    assert bytes[..4] == bytes;
    ByteWordFits(bytes);
  }

  lemma NoDigits(base: nat)
    ensures FromDigits([], base) == 0
  {
  }

  lemma ByteWordFits(bytes: seq<nat>)
    requires |bytes| == 4 && AreDigits(bytes, 0x100)
    ensures FromDigits(bytes, 0x100) < 0x1_0000_0000
  {
    DigitsFit(bytes, 0x100);
    assert Pow(0x100, 4) == 0x1_0000_0000 by {
      assert Pow(0x100, 2) == 0x1_0000;
    }
  }

  lemma AddHighByte(bytes: seq<nat>, i: nat)
    requires i < |bytes| && AreDigits(bytes, 0x100)
    ensures BitOr(FromDigits(bytes[..i], 0x100), Shl(bytes[i] % 0x100, i * 8)) == FromDigits(bytes[..i + 1], 0x100)
  {
    hide BitOr, FromDigits, Pow, Shl;
    var low := FromDigits(bytes[..i], 0x100);
    DigitsFit(bytes[..i], 0x100);
    assert Pow2(8) == 0x100;
    PowOfPow2(8, i);
    OrCommutes(low, Shl(bytes[i], i * 8));
    OrShifted(bytes[i], i * 8, low);
    DigitsSnoc(bytes[..i], bytes[i], 0x100);
    assert bytes[..i] + [bytes[i]] == bytes[..i + 1];
  }

  /** After `j` elements of a row: the words that are full, and the data collected for the next one. */
  ghost predicate Collected(fmt: Format, row: seq<Word>, exp: nat, isExpA: bool, words: seq<nat>, data: seq<Word>,
                            j: nat)
  {
    && |row| == FACE_WIDTH && j <= FACE_WIDTH
    && |words| <= RowWords(fmt) && words == PackedRow(fmt, row, exp, isExpA)[..|words|]
    && |data| < PerWord(fmt) && Times(|words|, PerWord(fmt)) + |data| == j && data == row[j - |data|..j]
  }

  lemma CollectNext(fmt: Format, row: seq<Word>, exp: nat, isExpA: bool, words: seq<nat>, data: seq<Word>, j: nat)
    requires j < FACE_WIDTH && Collected(fmt, row, exp, isExpA, words, data, j)
    ensures var more := data + [row[j]];
            if |more| % PerWord(fmt) == 0 then
              && |more| == PerWord(fmt)
              && Collected(fmt, row, exp, isExpA,
                   words + [FromDigits(EncodedGroup(fmt, more, exp, isExpA), DatumBase(fmt))], [], j + 1)
            else Collected(fmt, row, exp, isExpA, words, more, j + 1)
  {
    hide FromDigits, EncodedGroup, DatumBase, PackedRow, RowWord, PerWord, RowWords, Index, Times;
    var more := data + [row[j]];
    assert more == row[j + 1 - |more|..j + 1];
    IndexNextUnit(|words|, PerWord(fmt), |data|);
    if |more| % PerWord(fmt) == 0 {
      var q := |words|;
      GroupComplete(fmt, q, |more|, j);
      PackedRowAt(fmt, row, exp, isExpA, q);
      GroupWord(fmt, row, exp, isExpA, q, more, j);
    } else {
      GroupIncomplete(fmt, |more|);
    }
  }

  lemma IndexNextUnit(q: nat, per: nat, i: nat)
    ensures Times(q, per) + i + 1 == Index(q, per, i + 1) == Index(q, per, i) + 1
  {
  }

  lemma GroupComplete(fmt: Format, q: nat, collected: nat, j: nat)
    requires 0 < collected <= PerWord(fmt) && collected % PerWord(fmt) == 0
    requires Times(q, PerWord(fmt)) + collected == j + 1 <= FACE_WIDTH
    ensures collected == PerWord(fmt) && q < RowWords(fmt)
    ensures Times(q + 1, PerWord(fmt)) == j + 1 && Times(q, PerWord(fmt)) == j + 1 - collected
  {
    match fmt
    case Bfp2 =>
    case Bfp4 =>
    case Bfp8 =>
  }

  /** The word of a whole group. */
  lemma GroupWord(fmt: Format, row: seq<Word>, exp: nat, isExpA: bool, q: nat, group: seq<Word>, j: nat)
    requires |row| == FACE_WIDTH && q < RowWords(fmt) && j + 1 <= FACE_WIDTH
    requires Times(q + 1, PerWord(fmt)) == j + 1 && Times(q, PerWord(fmt)) <= j
    requires group == row[Times(q, PerWord(fmt))..j + 1]
    ensures RowWord(fmt, row, exp, isExpA, q) == FromDigits(EncodedGroup(fmt, group, exp, isExpA), DatumBase(fmt))
  {
    hide FromDigits, EncodedGroup, DatumBase, PerWord, RowWords;
  }

  lemma GroupIncomplete(fmt: Format, collected: nat)
    requires collected <= PerWord(fmt) && collected % PerWord(fmt) != 0
    ensures collected < PerWord(fmt)
  {
  }

  lemma PackedRowAt(fmt: Format, row: seq<Word>, exp: nat, isExpA: bool, q: nat)
    requires |row| == FACE_WIDTH && q < RowWords(fmt)
    ensures |PackedRow(fmt, row, exp, isExpA)| == RowWords(fmt)
    ensures PackedRow(fmt, row, exp, isExpA)[q] == RowWord(fmt, row, exp, isExpA, q)
    ensures PackedRow(fmt, row, exp, isExpA)[..q + 1]
         == PackedRow(fmt, row, exp, isExpA)[..q] + [PackedRow(fmt, row, exp, isExpA)[q]]
  {
    hide RowWord;
  }

  lemma NothingCollected(fmt: Format, row: seq<Word>, exp: nat, isExpA: bool)
    requires |row| == FACE_WIDTH
    ensures Collected(fmt, row, exp, isExpA, [], [], 0)
  {
    hide RowWord;
  }

  lemma AllCollected(fmt: Format, row: seq<Word>, exp: nat, isExpA: bool, words: seq<nat>, data: seq<Word>)
    requires Collected(fmt, row, exp, isExpA, words, data, FACE_WIDTH)
    ensures words == PackedRow(fmt, row, exp, isExpA)
  {
    hide RowWord;
  }

  /** The words of one face row, built by collecting data until a word is full. */
  method PackRow(fmt: Format, row: seq<Word>, exp: nat, isExpA: bool) returns (words: seq<nat>)
    requires |row| == FACE_WIDTH
    ensures words == PackedRow(fmt, row, exp, isExpA)
  {
    hide PackedRow, FromDigits, EncodedGroup, DatumBase, Collected;
    words := [];
    var data: seq<Word> := [];
    NothingCollected(fmt, row, exp, isExpA);
    for j := 0 to FACE_WIDTH
      invariant Collected(fmt, row, exp, isExpA, words, data, j)
    {
      CollectNext(fmt, row, exp, isExpA, words, data, j);
      data := data + [row[j]];
      if |data| % PerWord(fmt) == 0 {
        var word := CreatePackedWord(fmt, data, exp, isExpA);
        words := words + [word];
        data := [];
      }
    }
    AllCollected(fmt, row, exp, isExpA, words, data);
  }

  /** Reads one face row; `next` is the running element index used for input already in tile order. */
  method ReadRow(t: Tile, v: seq<Word>, rowMajor: bool, n: nat, tr: nat, tc: nat, i: nat, index: nat)
    returns (row: seq<Word>, next: nat)
    requires Legal(t) && n < |v| / TileSize(t) && InFaces(t, tr, tc, i)
    requires !rowMajor ==> index == TileSize(t) * n + FACE_WIDTH * RowIndex(t, tr, tc, i)
    ensures RowIndex(t, tr, tc, i) < Rows(t)
    ensures row == FaceRow(t, v, rowMajor, n, RowIndex(t, tr, tc, i))
    ensures next == if rowMajor then index else index + FACE_WIDTH
  {
    hide TileSize, TileWidth, RowIndex, Rows;
    row := [];
    next := index;
    RowIndexSplit(t, tr, tc, i);
    for j := 0 to FACE_WIDTH
      invariant |row| == j
      invariant row == FaceRow(t, v, rowMajor, n, RowIndex(t, tr, tc, i))[..j]
      invariant next == if rowMajor then index else index + j
    {
      ReadPosition(t, |v|, rowMajor, n, tr, tc, i, j);
      var dataIndex;
      if rowMajor {
        dataIndex := (tr * t.faceH + i) * TileWidth(t) + (tc * FACE_WIDTH + j) + TileSize(t) * n;
      } else {
        dataIndex := next;
        next := next + 1;
      }
      row := row + [v[dataIndex]];
    }
  }

  lemma ReadPosition(t: Tile, size: nat, rowMajor: bool, n: nat, tr: nat, tc: nat, i: nat, j: nat)
    requires Legal(t) && n < size / TileSize(t) && InFaces(t, tr, tc, i) && j < FACE_WIDTH
    ensures t.faceH > 0 && t.faceCols > 0
    ensures Position(t, rowMajor, n, RowIndex(t, tr, tc, i), j) == FacePosition(t, rowMajor, n, tr, tc, i, j)
    ensures FacePosition(t, rowMajor, n, tr, tc, i, j) < size
  {
    hide TileSize, FacePosition;
    RowIndexSplit(t, tr, tc, i);
    TilesFit(t, size);
    PositionInRange(t, rowMajor, size / TileSize(t), n, RowIndex(t, tr, tc, i), j);
  }

  /** What has been produced for tile `n` when its first `k` face rows are done. */
  ghost predicate TileProgress(fmt: Format, t: Tile, v: seq<Word>, rowMajor: bool, isExpA: bool, n: nat, k: nat,
                               before: seq<nat>, result: seq<nat>, exponents: seq<nat>, padded: seq<nat>,
                               data: seq<nat>, index: nat)
    requires Legal(t) && n < |v| / TileSize(t) && k <= Rows(t)
  {
    && DataSoFar(fmt, t, v, rowMajor, isExpA, n, k, data)
    && (!rowMajor ==> index == TileSize(t) * n + FACE_WIDTH * k)
    && ExpProgress(t, v, rowMajor, isExpA, n, k, before, result, exponents, padded)
  }

  ghost predicate DataSoFar(fmt: Format, t: Tile, v: seq<Word>, rowMajor: bool, isExpA: bool, n: nat, k: nat,
                            data: seq<nat>)
    requires Legal(t) && n < |v| / TileSize(t) && k <= Rows(t)
  {
    MulMono(k, Rows(t), RowWords(fmt));
    data == DataSection(fmt, t, v, rowMajor, isExpA, n)[..k * RowWords(fmt)]
  }

  ghost predicate ExpProgress(t: Tile, v: seq<Word>, rowMajor: bool, isExpA: bool, n: nat, k: nat,
                              before: seq<nat>, result: seq<nat>, exponents: seq<nat>, padded: seq<nat>)
    requires Legal(t) && n < |v| / TileSize(t) && k <= Rows(t)
  {
    var bytes := ExpBytes(t, v, rowMajor, isExpA, n);
    if Rows(t) < L1_ALIGNMENT then
      result == before && exponents == [] && padded == bytes[..k]
    else
      && |exponents| == k % 4 && exponents == bytes[k - k % 4..k] && padded == []
      && result == before + ExpSection(t, v, rowMajor, isExpA, n)[..k / 4]
  }

  lemma BytesAreDigits(t: Tile, v: seq<Word>, rowMajor: bool, isExpA: bool, n: nat)
    requires Legal(t) && n < |v| / TileSize(t)
    ensures AreDigits(ExpBytes(t, v, rowMajor, isExpA, n), 0x100)
    ensures |ExpBytes(t, v, rowMajor, isExpA, n)| == 4 * ExpWords(t) >= Rows(t)
  {
    LegalSizes(t);
    forall k | 0 <= k < Rows(t)
      ensures SharedExp(t, v, rowMajor, isExpA, n, k) < 0x100
    {
      assert MaxExp(FaceRow(t, v, rowMajor, n, k), isExpA) < 0x100;
    }
  }

  // ----- one tile

  lemma FirstRow(fmt: Format, t: Tile, v: seq<Word>, rowMajor: bool, isExpA: bool, n: nat, before: seq<nat>, index: nat)
    requires Legal(t) && n < |v| / TileSize(t) && (!rowMajor ==> index == TileSize(t) * n)
    ensures TileProgress(fmt, t, v, rowMajor, isExpA, n, 0, before, before, [], [], [], index)
  {
    hide DataSection, ExpSection, ExpBytes, TileSize;
  }

  /** Adding a shared exponent: it waits in `padded` or in `exponents`, and every fourth one completes a word. */
  method PushExponent(t: Tile, ghost v: seq<Word>, ghost rowMajor: bool, ghost isExpA: bool, ghost n: nat, ghost k: nat,
                      ghost before: seq<nat>, result0: seq<nat>, exponents0: seq<nat>, padded0: seq<nat>, exp: nat)
    returns (result: seq<nat>, exponents: seq<nat>, padded: seq<nat>)
    requires Legal(t) && n < |v| / TileSize(t) && k < Rows(t)
    requires ExpProgress(t, v, rowMajor, isExpA, n, k, before, result0, exponents0, padded0)
    requires exp == SharedExp(t, v, rowMajor, isExpA, n, k)
    ensures ExpProgress(t, v, rowMajor, isExpA, n, k + 1, before, result, exponents, padded)
  {
    hide *;
    result, exponents, padded := result0, exponents0, padded0;
    if Rows(t) < L1_ALIGNMENT {
      padded := padded + [exp];
      PaddedStep(t, v, rowMajor, isExpA, n, k, before, result0, exponents0, padded0, exp);
    } else {
      exponents := exponents + [exp];
      PlainStep(t, v, rowMajor, isExpA, n, k, before, result0, exponents0, padded0, exp);
      if |exponents| % 4 == 0 {
        var word := PackBytes(exponents);
        result := result + [word];
        exponents := [];
      }
    }
  }

  lemma PaddedStep(t: Tile, v: seq<Word>, rowMajor: bool, isExpA: bool, n: nat, k: nat,
                   before: seq<nat>, result: seq<nat>, exponents: seq<nat>, padded: seq<nat>, exp: nat)
    requires Legal(t) && n < |v| / TileSize(t) && k < Rows(t) < L1_ALIGNMENT
    requires ExpProgress(t, v, rowMajor, isExpA, n, k, before, result, exponents, padded)
    requires exp == SharedExp(t, v, rowMajor, isExpA, n, k)
    ensures ExpProgress(t, v, rowMajor, isExpA, n, k + 1, before, result, exponents, padded + [exp])
  {
    hide ExpSection, SharedExp, TileSize;
    LegalSizes(t);
    var bytes := ExpBytes(t, v, rowMajor, isExpA, n);
    assert bytes[..k + 1] == bytes[..k] + [bytes[k]];
  }

  lemma PlainStep(t: Tile, v: seq<Word>, rowMajor: bool, isExpA: bool, n: nat, k: nat,
                  before: seq<nat>, result: seq<nat>, exponents: seq<nat>, padded: seq<nat>, exp: nat)
    requires Legal(t) && n < |v| / TileSize(t) && k < Rows(t) && Rows(t) >= L1_ALIGNMENT
    requires ExpProgress(t, v, rowMajor, isExpA, n, k, before, result, exponents, padded)
    requires exp == SharedExp(t, v, rowMajor, isExpA, n, k)
    ensures AreDigits(exponents + [exp], 0x100) && |exponents + [exp]| <= 4
    ensures if |exponents + [exp]| % 4 == 0
            then |exponents + [exp]| == 4
              && ExpProgress(t, v, rowMajor, isExpA, n, k + 1, before,
                             result + [FromDigits(exponents + [exp], 0x100)], [], padded)
            else ExpProgress(t, v, rowMajor, isExpA, n, k + 1, before, result, exponents + [exp], padded)
  {
    hide SharedExp, TileSize, FromDigits, ExpBytes, ExpSection;
    BytesAreDigits(t, v, rowMajor, isExpA, n);
    ByteAt(t, v, rowMajor, isExpA, n, k);
    var bytes := ExpBytes(t, v, rowMajor, isExpA, n);
    QuarterStep(k);
    assert exponents + [exp] == bytes[4 * (k / 4)..k + 1];
    if k % 4 == 3 {
      SectionStep(t, v, rowMajor, isExpA, n, k / 4);
    }
  }

  lemma QuarterStep(k: nat)
    ensures k - k % 4 == 4 * (k / 4)
    ensures k % 4 == 3 ==> (k + 1) % 4 == 0 && (k + 1) / 4 == k / 4 + 1 && k + 1 == 4 * (k / 4) + 4
    ensures k % 4 != 3 ==> (k + 1) % 4 == k % 4 + 1 && (k + 1) / 4 == k / 4
  {
  }

  lemma SectionStep(t: Tile, v: seq<Word>, rowMajor: bool, isExpA: bool, n: nat, q: nat)
    requires Legal(t) && n < |v| / TileSize(t) && Rows(t) >= L1_ALIGNMENT && 4 * q + 4 <= Rows(t)
    ensures 4 * q + 4 <= |ExpBytes(t, v, rowMajor, isExpA, n)| && q < |ExpSection(t, v, rowMajor, isExpA, n)|
    ensures ExpSection(t, v, rowMajor, isExpA, n)[..q + 1]
         == ExpSection(t, v, rowMajor, isExpA, n)[..q]
            + [FromDigits(ExpBytes(t, v, rowMajor, isExpA, n)[4 * q..4 * q + 4], 0x100)]
  {
    hide SharedExp, TileSize, FromDigits, ExpBytes;
    LegalSizes(t);
    BytesAreDigits(t, v, rowMajor, isExpA, n);
  }

  lemma ByteAt(t: Tile, v: seq<Word>, rowMajor: bool, isExpA: bool, n: nat, k: nat)
    requires Legal(t) && n < |v| / TileSize(t) && k < Rows(t)
    ensures Rows(t) <= |ExpBytes(t, v, rowMajor, isExpA, n)|
    ensures ExpBytes(t, v, rowMajor, isExpA, n)[k] == SharedExp(t, v, rowMajor, isExpA, n, k)
  {
    hide SharedExp, TileSize;
    LegalSizes(t);
  }

  /** The words of face row `k` continue the data section. */
  lemma DataStep(fmt: Format, t: Tile, v: seq<Word>, rowMajor: bool, isExpA: bool, n: nat, k: nat,
                 before: seq<nat>, words: seq<nat>)
    requires Legal(t) && n < |v| / TileSize(t) && k < Rows(t)
    requires DataSoFar(fmt, t, v, rowMajor, isExpA, n, k, before)
    requires words == PackedRow(fmt, FaceRow(t, v, rowMajor, n, k), SharedExp(t, v, rowMajor, isExpA, n, k), isExpA)
    ensures DataSoFar(fmt, t, v, rowMajor, isExpA, n, k + 1, before + words)
  {
    hide RowWord, SharedExp, FaceRow, TileSize, Rows;
    var data, w := DataSection(fmt, t, v, rowMajor, isExpA, n), RowWords(fmt);
    MulMono(k + 1, Rows(t), w);
    MulDistribute(k, 1, w);
    forall q | 0 <= q < w
      ensures data[k * w + q] == words[q]
    {
      DivModUnique(k * w + q, k, q, w);
    }
    assert data[..(k + 1) * w] == data[..k * w] + words;
  }

  /** The body of the face-row loop. */
  method PackFaceRow(fmt: Format, t: Tile, v: seq<Word>, rowMajor: bool, isExpA: bool, n: nat,
                     tr: nat, tc: nat, i: nat, ghost before: seq<nat>, result0: seq<nat>, exponents0: seq<nat>,
                     padded0: seq<nat>, data0: seq<nat>, index0: nat)
    returns (result: seq<nat>, exponents: seq<nat>, padded: seq<nat>, data: seq<nat>, index: nat)
    requires Legal(t) && n < |v| / TileSize(t) && InFaces(t, tr, tc, i)
    requires RowIndex(t, tr, tc, i) + 1 <= Rows(t)
    requires TileProgress(fmt, t, v, rowMajor, isExpA, n, RowIndex(t, tr, tc, i), before, result0, exponents0, padded0,
                          data0, index0)
    ensures TileProgress(fmt, t, v, rowMajor, isExpA, n, RowIndex(t, tr, tc, i) + 1, before, result, exponents, padded,
                         data, index)
  {
    hide TileProgress, ExpProgress, DataSoFar, TileSize, Rows, RowIndex, FaceRow, SharedExp, PackedRow, MaxExp, Legal;
    ghost var k := RowIndex(t, tr, tc, i);
    ProgressParts(fmt, t, v, rowMajor, isExpA, n, k, before, result0, exponents0, padded0, data0, index0);
    var row;
    row, index := ReadRow(t, v, rowMajor, n, tr, tc, i, index0);
    var exp := GetMaxExp(row, isExpA);
    SharedExpOf(t, v, rowMajor, isExpA, n, k);
    result, exponents, padded := PushExponent(t, v, rowMajor, isExpA, n, k, before, result0, exponents0, padded0, exp);
    var words := PackRow(fmt, row, exp, isExpA);
    DataStep(fmt, t, v, rowMajor, isExpA, n, k, data0, words);
    data := data0 + words;
    ProgressWhole(fmt, t, v, rowMajor, isExpA, n, k + 1, before, result, exponents, padded, data, index);
  }

  /** One iteration of the tile loop. */
  method PackTile(fmt: Format, t: Tile, v: seq<Word>, rowMajor: bool, isExpA: bool, n: nat,
                  before: seq<nat>, index0: nat)
    returns (result: seq<nat>, index: nat)
    requires Legal(t) && n < |v| / TileSize(t)
    requires !rowMajor ==> index0 == TileSize(t) * n
    ensures result == before + PackedTile(fmt, t, v, rowMajor, isExpA, n)
    ensures !rowMajor ==> index == TileSize(t) * (n + 1)
  {
    hide TileProgress, TileSize, Rows, RowIndex, PackedTile, ExpSection, DataSection, ExpBytes, FromDigits, Legal,
         ExpWords;
    result := before;
    index := index0;
    var exponents: seq<nat>, padded: seq<nat>, packedData: seq<nat> := [], [], [];
    FirstRow(fmt, t, v, rowMajor, isExpA, n, before, index0);
    RowIndexStarts(t);
    for tr := 0 to t.faceRows
      invariant RowIndex(t, tr, 0, 0) <= Rows(t)
      invariant TileProgress(fmt, t, v, rowMajor, isExpA, n, RowIndex(t, tr, 0, 0), before, result, exponents, padded,
                             packedData, index)
    {
      for tc := 0 to t.faceCols
        invariant RowIndex(t, tr, tc, 0) <= Rows(t)
        invariant TileProgress(fmt, t, v, rowMajor, isExpA, n, RowIndex(t, tr, tc, 0), before, result, exponents,
                               padded, packedData, index)
      {
        for i := 0 to t.faceH
          invariant RowIndex(t, tr, tc, i) <= Rows(t)
          invariant TileProgress(fmt, t, v, rowMajor, isExpA, n, RowIndex(t, tr, tc, i), before, result, exponents,
                                 padded, packedData, index)
        {
          NextRow(t, tr, tc, i);
          result, exponents, padded, packedData, index :=
            PackFaceRow(fmt, t, v, rowMajor, isExpA, n, tr, tc, i, before, result, exponents, padded, packedData,
                        index);
        }
        NextFace(t, tr, tc);
      }
      NextFaceRow(t, tr);
    }
    TileEnd(fmt, t, v, rowMajor, isExpA, n, before, result, exponents, padded, packedData, index);
    if Rows(t) < L1_ALIGNMENT {
      var pads := seq((|padded| + L1_ALIGNMENT - 1) / L1_ALIGNMENT * L1_ALIGNMENT - |padded|, _ => 0);
      padded := padded + pads;
      var packed := PackExponents(padded);
      SectionOf(t, v, rowMajor, isExpA, n, packed);
      result := result + packed;
    }
    result := result + packedData;
  }

  lemma RowIndexStarts(t: Tile)
    ensures RowIndex(t, 0, 0, 0) == 0 <= Rows(t)
    ensures RowIndex(t, t.faceRows, 0, 0) == Rows(t)
  {
  }

  lemma NextRow(t: Tile, tr: nat, tc: nat, i: nat)
    requires InFaces(t, tr, tc, i)
    ensures RowIndex(t, tr, tc, i + 1) == RowIndex(t, tr, tc, i) + 1 <= Rows(t)
  {
    RowIndexSplit(t, tr, tc, i);
  }

  lemma NextFace(t: Tile, tr: nat, tc: nat)
    ensures RowIndex(t, tr, tc, t.faceH) == RowIndex(t, tr, tc + 1, 0)
  {
    MulDistribute(tr * t.faceCols + tc, 1, t.faceH);
  }

  lemma NextFaceRow(t: Tile, tr: nat)
    ensures RowIndex(t, tr, t.faceCols, 0) == RowIndex(t, tr + 1, 0, 0)
  {
    MulDistribute(tr, 1, t.faceCols);
  }

  lemma ProgressParts(fmt: Format, t: Tile, v: seq<Word>, rowMajor: bool, isExpA: bool, n: nat, k: nat,
                      before: seq<nat>, result: seq<nat>, exponents: seq<nat>, padded: seq<nat>,
                      data: seq<nat>, index: nat)
    requires Legal(t) && n < |v| / TileSize(t) && k <= Rows(t)
    requires TileProgress(fmt, t, v, rowMajor, isExpA, n, k, before, result, exponents, padded, data, index)
    ensures ExpProgress(t, v, rowMajor, isExpA, n, k, before, result, exponents, padded)
    ensures DataSoFar(fmt, t, v, rowMajor, isExpA, n, k, data)
    ensures !rowMajor ==> index == TileSize(t) * n + FACE_WIDTH * k
  {
    hide ExpProgress, DataSoFar, TileSize;
  }

  lemma ProgressWhole(fmt: Format, t: Tile, v: seq<Word>, rowMajor: bool, isExpA: bool, n: nat, k: nat,
                      before: seq<nat>, result: seq<nat>, exponents: seq<nat>, padded: seq<nat>,
                      data: seq<nat>, index: nat)
    requires Legal(t) && n < |v| / TileSize(t) && k <= Rows(t)
    requires ExpProgress(t, v, rowMajor, isExpA, n, k, before, result, exponents, padded)
    requires DataSoFar(fmt, t, v, rowMajor, isExpA, n, k, data)
    requires !rowMajor ==> index == TileSize(t) * n + FACE_WIDTH * k
    ensures TileProgress(fmt, t, v, rowMajor, isExpA, n, k, before, result, exponents, padded, data, index)
  {
    hide ExpProgress, DataSoFar, TileSize;
  }

  lemma SharedExpOf(t: Tile, v: seq<Word>, rowMajor: bool, isExpA: bool, n: nat, k: nat)
    requires Legal(t) && n < |v| / TileSize(t) && k < Rows(t)
    ensures SharedExp(t, v, rowMajor, isExpA, n, k) == MaxExp(FaceRow(t, v, rowMajor, n, k), isExpA)
  {
  }

  /** All rows done: what is left is to pad and pack the exponents of a small tile. */
  lemma TileEnd(fmt: Format, t: Tile, v: seq<Word>, rowMajor: bool, isExpA: bool, n: nat,
                before: seq<nat>, result: seq<nat>, exponents: seq<nat>, padded: seq<nat>, data: seq<nat>, index: nat)
    requires Legal(t) && n < |v| / TileSize(t)
    requires TileProgress(fmt, t, v, rowMajor, isExpA, n, Rows(t), before, result, exponents, padded, data, index)
    ensures data == DataSection(fmt, t, v, rowMajor, isExpA, n)
    ensures PackedTile(fmt, t, v, rowMajor, isExpA, n) == ExpSection(t, v, rowMajor, isExpA, n) + data
    ensures !rowMajor ==> index == TileSize(t) * (n + 1)
    ensures if Rows(t) < L1_ALIGNMENT
            then result == before
              && |padded| == Rows(t) > 0
              && ExpBytes(t, v, rowMajor, isExpA, n) == padded + seq(16 - |padded|, _ => 0)
              && AreDigits(ExpBytes(t, v, rowMajor, isExpA, n), 0x100)
              && ExpWords(t) == 4
            else result == before + ExpSection(t, v, rowMajor, isExpA, n)
  {
    hide SharedExp, RowWord;
    LegalSizes(t);
    BytesAreDigits(t, v, rowMajor, isExpA, n);
    MulDistribute(n, 1, TileSize(t));
  }

  lemma SectionOf(t: Tile, v: seq<Word>, rowMajor: bool, isExpA: bool, n: nat, words: seq<nat>)
    requires Legal(t) && n < |v| / TileSize(t) && |words| == |ExpBytes(t, v, rowMajor, isExpA, n)| / 4
    requires forall q :: 0 <= q < |words| ==>
      words[q] == FromDigits(ExpBytes(t, v, rowMajor, isExpA, n)[4 * q..4 * q + 4], 0x100)
    ensures words == ExpSection(t, v, rowMajor, isExpA, n)
  {
    hide FromDigits, TileSize, SharedExp;
    BytesAreDigits(t, v, rowMajor, isExpA, n);
  }

  /** `pack_exponents`, four bytes to a word. */
  method PackExponents(bytes: seq<nat>) returns (words: seq<nat>)
    requires |bytes| % 4 == 0 && AreDigits(bytes, 0x100)
    ensures |words| == |bytes| / 4
    ensures forall q :: 0 <= q < |words| ==> words[q] == FromDigits(bytes[4 * q..4 * q + 4], 0x100)
  {
    words := [];
    var i := 0;
    while i < |bytes|
      invariant 0 <= i <= |bytes| && i == 4 * |words|
      invariant forall q :: 0 <= q < |words| ==> words[q] == FromDigits(bytes[4 * q..4 * q + 4], 0x100)
    {
      var word := PackBytes(bytes[i..i + 4]);
      words := words + [word];
      i := i + 4;
    }
  }

  /** `pack_fp32_vec_as_bfp_tiles`. Elements after the last whole tile are ignored. */
  method Pack(fmt: Format, t: Tile, v: seq<Word>, rowMajor: bool, isExpA: bool) returns (packed: seq<nat>)
    requires Legal(t)
    ensures packed == Packed(fmt, t, v, rowMajor, isExpA, |v| / TileSize(t))
  {
    hide PackedTile, TileSize;
    TilesFit(t, |v|);
    var numTiles := |v| / TileSize(t);
    packed := [];
    var index := 0;
    for n := 0 to numTiles
      invariant packed == Packed(fmt, t, v, rowMajor, isExpA, n)
      invariant !rowMajor ==> index == TileSize(t) * n
    {
      packed, index := PackTile(fmt, t, v, rowMajor, isExpA, n, packed, index);
    }
  }
}
