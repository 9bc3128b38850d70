/**
 `tilize` and `untilize`: a row-major buffer of blocks of m by n elements rearranged into 32x32 tiles of
 four 16x16 faces, and back.
 */
module Tilize {
  import opened Outcomes
  import opened Arith

  const FACE := 16
  const TILE := 32

  /** Where the element at place `p` of the tiled buffer comes from: its block/tile/face/row/column, row by row. */
  function RowMajorOf(n: nat, p: nat): nat
    requires n / TILE > 0
  {
    var face, q := p / 256, p % 256;
    var tile, f := face / 4, face % 4;
    var tileRow, tileCol := tile / (n / TILE), tile % (n / TILE);
    DivNonNegative(tile, n / TILE);
    Index(tileRow * TILE + (f / 2) * FACE + q / FACE, n, tileCol * TILE + (f % 2) * FACE + q % FACE)
  }

  /** Where the element at row-major place `p` is in the tiled buffer. */
  function TiledOf(n: nat, p: nat): nat
    requires n / TILE > 0
  {
    var row, col := p / n, p % n;
    DivNonNegative(p, n);
    var f := row / FACE % 2 * 2 + col / FACE % 2;
    Index(Index(row / TILE, n / TILE, col / TILE) * 4 + f, 256, (row % FACE) * FACE + col % FACE)
  }

  /** What both functions need of their arguments to get past their checks. */
  predicate Accepts(size: nat, m: nat, n: nat)
  {
    size > 0 && m > 0 && n > 0 && size % (m * n) == 0 && m % TILE == 0 && n % TILE == 0
  }

  /** The digits of a position: tile row, tile column, face row and column, row and column in the face. */
  ghost predicate Digits(tiles: nat, tileCol: nat, fr: nat, fc: nat, i: nat, j: nat)
  {
    tileCol < tiles && fr < 2 && fc < 2 && i < FACE && j < FACE
  }

  function RowMajorPlace(n: nat, tileRow: nat, tileCol: nat, fr: nat, fc: nat, i: nat, j: nat): nat
  {
    Index(tileRow * TILE + fr * FACE + i, n, tileCol * TILE + fc * FACE + j)
  }

  function TiledPlace(n: nat, tileRow: nat, tileCol: nat, fr: nat, fc: nat, i: nat, j: nat): nat
  {
    Index(Index(tileRow, n / TILE, tileCol) * 4 + (fr * 2 + fc), 256, i * FACE + j)
  }

  lemma TiledFromDigits(n: nat, tileRow: nat, tileCol: nat, fr: nat, fc: nat, i: nat, j: nat)
    requires n % TILE == 0 && Digits(n / TILE, tileCol, fr, fc, i, j)
    ensures n / TILE > 0
    ensures TiledOf(n, RowMajorPlace(n, tileRow, tileCol, fr, fc, i, j))
          == TiledPlace(n, tileRow, tileCol, fr, fc, i, j)
  {
    hide Index;
    var row, col := tileRow * TILE + fr * FACE + i, tileCol * TILE + fc * FACE + j;
    IndexSplit(row, n, col);
    LineDigits(tileRow, fr, i);
    LineDigits(tileCol, fc, j);
  }

  lemma IndexSplit(q: nat, n: nat, r: nat)
    requires r < n
    ensures Index(q, n, r) / n == q && Index(q, n, r) % n == r
  {
    DivModUnique(q * n + r, q, r, n);
  }

  lemma LineDigits(tile: nat, face: nat, i: nat)
    requires face < 2 && i < FACE
    ensures var x := tile * TILE + face * FACE + i; x / TILE == tile && x / FACE % 2 == face && x % FACE == i
  {
  }

  lemma RowMajorFromDigits(n: nat, tileRow: nat, tileCol: nat, fr: nat, fc: nat, i: nat, j: nat)
    requires n % TILE == 0 && Digits(n / TILE, tileCol, fr, fc, i, j)
    ensures n / TILE > 0
    ensures RowMajorOf(n, TiledPlace(n, tileRow, tileCol, fr, fc, i, j))
          == RowMajorPlace(n, tileRow, tileCol, fr, fc, i, j)
  {
    hide Index;
    var tile := Index(tileRow, n / TILE, tileCol);
    IndexSplit(tileRow, n / TILE, tileCol);
    IndexSplit(tile * 4 + (fr * 2 + fc), 256, i * FACE + j);
    IndexSplit(tile, 4, fr * 2 + fc);
    IndexIs(tile, 4, fr * 2 + fc);
  }

  lemma IndexIs(q: nat, n: nat, r: nat)
    ensures Index(q, n, r) == q * n + r
  {
  }

  /** Every row-major place has digits. */
  lemma DigitsOfRowMajor(n: nat, p: nat) returns (tileRow: nat, tileCol: nat, fr: nat, fc: nat, i: nat, j: nat)
    requires n % TILE == 0 && n > 0
    ensures Digits(n / TILE, tileCol, fr, fc, i, j) && p == RowMajorPlace(n, tileRow, tileCol, fr, fc, i, j)
  {
    var row, col := p / n, p % n;
    DivNonNegative(p, n);
    DivModSplit(p, n);
    LineSplit(row);
    LineSplit(col);
    tileRow, fr, i := row / TILE, row / FACE % 2, row % FACE;
    tileCol, fc, j := col / TILE, col / FACE % 2, col % FACE;
  }

  lemma LineSplit(x: nat)
    ensures x == (x / TILE) * TILE + (x / FACE % 2) * FACE + x % FACE
  {
  }

  /** Every place of the tiled buffer has digits. */
  lemma DigitsOfTiled(n: nat, p: nat) returns (tileRow: nat, tileCol: nat, fr: nat, fc: nat, i: nat, j: nat)
    requires n % TILE == 0 && n > 0
    ensures Digits(n / TILE, tileCol, fr, fc, i, j) && p == TiledPlace(n, tileRow, tileCol, fr, fc, i, j)
  {
    var face, q := p / 256, p % 256;
    var tile, f := face / 4, face % 4;
    DivNonNegative(tile, n / TILE);
    DivModSplit(tile, n / TILE);
    tileRow, tileCol := tile / (n / TILE), tile % (n / TILE);
    fr, fc, i, j := f / 2, f % 2, q / FACE, q % FACE;
    assert f == fr * 2 + fc && q == i * FACE + j;
  }

  /** The two index maps undo each other, and keep every place within the tile rows it is in. */
  lemma {:induction false} PlacesInverse(n: nat, rows: nat, p: nat)
    requires n % TILE == 0 && n > 0 && p < rows * (TILE * n)
    ensures RowMajorOf(n, TiledOf(n, p)) == p && TiledOf(n, RowMajorOf(n, p)) == p
    ensures TiledOf(n, p) < rows * (TILE * n) && RowMajorOf(n, p) < rows * (TILE * n)
  {
    hide TiledOf, RowMajorOf;
    var tr, tc, fr, fc, i, j := DigitsOfRowMajor(n, p);
    TiledFromDigits(n, tr, tc, fr, fc, i, j);
    RowMajorFromDigits(n, tr, tc, fr, fc, i, j);
    RowMajorInRows(n, rows, tr, tc, fr, fc, i, j);
    var tr', tc', fr', fc', i', j' := DigitsOfTiled(n, p);
    TiledFromDigits(n, tr', tc', fr', fc', i', j');
    RowMajorFromDigits(n, tr', tc', fr', fc', i', j');
    TiledInRows(n, rows, tr', tc', fr', fc', i', j');
  }

  lemma RowMajorInRows(n: nat, rows: nat, tileRow: nat, tileCol: nat, fr: nat, fc: nat, i: nat, j: nat)
    requires n % TILE == 0 && Digits(n / TILE, tileCol, fr, fc, i, j)
    requires RowMajorPlace(n, tileRow, tileCol, fr, fc, i, j) < rows * (TILE * n)
    ensures TiledPlace(n, tileRow, tileCol, fr, fc, i, j) < rows * (TILE * n)
  {
    if rows <= tileRow {
      PlacePastRows(n, rows, tileRow, tileCol, fr, fc, i, j);
    }
    PlaceBounds(n, rows, tileRow, tileCol, fr, fc, i, j);
  }

  lemma TiledInRows(n: nat, rows: nat, tileRow: nat, tileCol: nat, fr: nat, fc: nat, i: nat, j: nat)
    requires n % TILE == 0 && Digits(n / TILE, tileCol, fr, fc, i, j)
    requires TiledPlace(n, tileRow, tileCol, fr, fc, i, j) < rows * (TILE * n)
    ensures RowMajorPlace(n, tileRow, tileCol, fr, fc, i, j) < rows * (TILE * n)
  {
    if rows <= tileRow {
      PlacePastRows(n, rows, tileRow, tileCol, fr, fc, i, j);
    }
    PlaceBounds(n, rows, tileRow, tileCol, fr, fc, i, j);
  }

  lemma PlacePastRows(n: nat, rows: nat, tileRow: nat, tileCol: nat, fr: nat, fc: nat, i: nat, j: nat)
    requires n % TILE == 0 && rows <= tileRow
    ensures RowMajorPlace(n, tileRow, tileCol, fr, fc, i, j) >= rows * (TILE * n)
    ensures TiledPlace(n, tileRow, tileCol, fr, fc, i, j) >= rows * (TILE * n)
  {
    MulMono(rows * TILE, tileRow * TILE + fr * FACE + i, n);
    MulAssoc(rows, TILE, n);
    MulMono(rows, tileRow, n / TILE);
    MulAssoc(rows, n / TILE, 1024);
    assert TILE * n == (n / TILE) * 1024;
  }

  lemma PlaceBounds(n: nat, rows: nat, tileRow: nat, tileCol: nat, fr: nat, fc: nat, i: nat, j: nat)
    requires n % TILE == 0 && Digits(n / TILE, tileCol, fr, fc, i, j) && tileRow < rows
    ensures RowMajorPlace(n, tileRow, tileCol, fr, fc, i, j) < rows * (TILE * n)
    ensures TiledPlace(n, tileRow, tileCol, fr, fc, i, j) < rows * (TILE * n)
  {
    IndexInRange(tileRow * TILE + fr * FACE + i, tileCol * TILE + fc * FACE + j, rows * TILE, n);
    MulAssoc(rows, TILE, n);
    IndexInRange(tileRow, tileCol, rows, n / TILE);
    MulAssoc(rows, n / TILE, 1024);
    assert TILE * n == (n / TILE) * 1024;
  }

  // ----- the buffers

  /** The buffer after `tilize`. */
  function Tiled<T>(input: seq<T>, n: nat): seq<T>
    requires n % TILE == 0 && n > 0 && |input| % (TILE * n) == 0
  {
    RowsOf(|input|, n);
    seq(|input|, p requires 0 <= p < |input| =>
      PlacesInverse(n, |input| / (TILE * n), p);
      input[RowMajorOf(n, p)])
  }

  /** The buffer after `untilize`. */
  function Untiled<T>(input: seq<T>, n: nat): seq<T>
    requires n % TILE == 0 && n > 0 && |input| % (TILE * n) == 0
  {
    RowsOf(|input|, n);
    seq(|input|, p requires 0 <= p < |input| =>
      PlacesInverse(n, |input| / (TILE * n), p);
      input[TiledOf(n, p)])
  }

  lemma RowsOf(size: nat, n: nat)
    requires n > 0 && size % (TILE * n) == 0
    ensures size == size / (TILE * n) * (TILE * n) && size / (TILE * n) >= 0
  {
    DivModSplit(size, TILE * n);
    DivNonNegative(size, TILE * n);
  }

  /** Untilizing a tilized buffer, and tilizing an untilized one, gives the buffer back. */
  lemma {:induction false} RoundTrips<T>(input: seq<T>, n: nat)
    requires n % TILE == 0 && n > 0 && |input| % (TILE * n) == 0
    ensures Untiled(Tiled(input, n), n) == input
    ensures Tiled(Untiled(input, n), n) == input
  {
    hide TiledOf, RowMajorOf;
    RowsOf(|input|, n);
    forall p | 0 <= p < |input|
      ensures Untiled(Tiled(input, n), n)[p] == input[p]
      ensures Tiled(Untiled(input, n), n)[p] == input[p]
    {
      PlacesInverse(n, |input| / (TILE * n), p);
    }
  }

  /** What the checks let through has whole rows of tiles. */
  lemma AcceptedSize(size: nat, m: nat, n: nat)
    requires m > 0 && n > 0 && size % (m * n) == 0 && m % TILE == 0 && n % TILE == 0
    ensures m * n > 0 && size == size / (m * n) * ((m / TILE) * (TILE * n)) && size / (m * n) >= 0
    ensures size % (TILE * n) == 0
    ensures size / (TILE * n) == size / (m * n) * (m / TILE)
  {
    var blocks := size / (m * n);
    MulPositive(m, n);
    DivModSplit(size, m * n);
    DivNonNegative(size, m * n);
    MulAssoc(m / TILE, TILE, n);
    MulAssoc(blocks, m / TILE, TILE * n);
    DivModUnique(size, blocks * (m / TILE), 0, TILE * n);
  }

  /** Appends the 16 by 16 face whose first element is at `faceIndex` of the row-major buffer. */
  method WriteFace<T>(tilized: seq<T>, input: seq<T>, faceIndex: nat, n: nat,
                      ghost tileRow: nat, ghost tileCol: nat, ghost fr: nat, ghost fc: nat)
    returns (out: seq<T>)
    requires n % TILE == 0 && n > 0 && |input| % (TILE * n) == 0 && Digits(n / TILE, tileCol, fr, fc, 0, 0)
    requires tileRow < |input| / (TILE * n)
    requires faceIndex == RowMajorPlace(n, tileRow, tileCol, fr, fc, 0, 0)
    requires TiledTo(tilized, input, n, TiledPlace(n, tileRow, tileCol, fr, fc, 0, 0))
    ensures TiledTo(out, input, n, TiledPlace(n, tileRow, tileCol, fr, fc, 0, 0) + 256)
  {
    hide TiledTo, RowMajorPlace, TiledPlace;
    out := tilized;
    var index := faceIndex;
    for i := 0 to FACE
      invariant index == RowMajorPlace(n, tileRow, tileCol, fr, fc, i, 0)
      invariant TiledTo(out, input, n, TiledPlace(n, tileRow, tileCol, fr, fc, i, 0))
    {
      for j := 0 to FACE
        invariant TiledTo(out, input, n, TiledPlace(n, tileRow, tileCol, fr, fc, i, j))
      {
        PushTiled(out, input, n, tileRow, tileCol, fr, fc, i, j, index + j);
        out := out + [input[index + j]];
      }
      NextFaceLine(n, tileRow, tileCol, fr, fc, i);
      index := index + n;
    }
    FaceDone(n, tileRow, tileCol, fr, fc);
  }

  /** `out` is the first `count` elements of the tiled buffer. */
  ghost predicate TiledTo<T>(out: seq<T>, input: seq<T>, n: nat, count: nat)
    requires n % TILE == 0 && n > 0 && |input| % (TILE * n) == 0
  {
    count <= |input| && out == Tiled(input, n)[..count]
  }

  lemma PushTiled<T>(out: seq<T>, input: seq<T>, n: nat, tileRow: nat, tileCol: nat, fr: nat, fc: nat, i: nat, j: nat,
                     source: nat)
    requires n % TILE == 0 && n > 0 && |input| % (TILE * n) == 0 && Digits(n / TILE, tileCol, fr, fc, i, j)
    requires tileRow < |input| / (TILE * n)
    requires source == RowMajorPlace(n, tileRow, tileCol, fr, fc, i, 0) + j
    requires TiledTo(out, input, n, TiledPlace(n, tileRow, tileCol, fr, fc, i, j))
    ensures source < |input|
    ensures TiledTo(out + [input[source]], input, n, TiledPlace(n, tileRow, tileCol, fr, fc, i, j + 1))
  {
    hide RowMajorOf;
    RowsOf(|input|, n);
    PlaceBounds(n, |input| / (TILE * n), tileRow, tileCol, fr, fc, i, j);
    RowMajorFromDigits(n, tileRow, tileCol, fr, fc, i, j);
    var p := TiledPlace(n, tileRow, tileCol, fr, fc, i, j);
    assert Tiled(input, n)[p] == input[source];
    assert Tiled(input, n)[..p + 1] == Tiled(input, n)[..p] + [Tiled(input, n)[p]];
  }

  lemma NextFaceLine(n: nat, tileRow: nat, tileCol: nat, fr: nat, fc: nat, i: nat)
    ensures RowMajorPlace(n, tileRow, tileCol, fr, fc, i + 1, 0) == RowMajorPlace(n, tileRow, tileCol, fr, fc, i, 0) + n
    ensures TiledPlace(n, tileRow, tileCol, fr, fc, i, FACE) == TiledPlace(n, tileRow, tileCol, fr, fc, i + 1, 0)
  {
    MulDistribute(tileRow * TILE + fr * FACE + i, 1, n);
  }

  lemma FaceDone(n: nat, tileRow: nat, tileCol: nat, fr: nat, fc: nat)
    ensures TiledPlace(n, tileRow, tileCol, fr, fc, FACE, 0) == TiledPlace(n, tileRow, tileCol, fr, fc, 0, 0) + 256
  {
  }

  /** Places of the four faces of a tile, and of the next tile. */
  lemma TileFaces(n: nat, tileRow: nat, tileCol: nat)
    ensures var face0 := RowMajorPlace(n, tileRow, tileCol, 0, 0, 0, 0);
            && RowMajorPlace(n, tileRow, tileCol, 0, 1, 0, 0) == face0 + FACE
            && RowMajorPlace(n, tileRow, tileCol, 1, 0, 0, 0) == face0 + n * FACE
            && RowMajorPlace(n, tileRow, tileCol, 1, 1, 0, 0) == face0 + n * FACE + FACE
            && RowMajorPlace(n, tileRow, tileCol + 1, 0, 0, 0, 0) == face0 + TILE
    ensures var first := TiledPlace(n, tileRow, tileCol, 0, 0, 0, 0);
            && TiledPlace(n, tileRow, tileCol, 0, 1, 0, 0) == first + 256
            && TiledPlace(n, tileRow, tileCol, 1, 0, 0, 0) == first + 512
            && TiledPlace(n, tileRow, tileCol, 1, 1, 0, 0) == first + 768
            && TiledPlace(n, tileRow, tileCol + 1, 0, 0, 0, 0) == first + 1024
  {
    MulDistribute(tileRow * TILE, FACE, n);
  }

  lemma NextTileRow(n: nat, tileRow: nat)
    requires n % TILE == 0 && n > 0
    ensures RowMajorPlace(n, tileRow + 1, 0, 0, 0, 0, 0) == RowMajorPlace(n, tileRow, 0, 0, 0, 0, 0) + TILE * n
    ensures TiledPlace(n, tileRow, n / TILE, 0, 0, 0, 0) == TiledPlace(n, tileRow + 1, 0, 0, 0, 0, 0)
    ensures TiledPlace(n, tileRow, 0, 0, 0, 0, 0) == tileRow * (TILE * n)
  {
    MulDistribute(tileRow * TILE, TILE, n);
    MulDistribute(tileRow, 1, n / TILE);
    MulAssoc(tileRow, n / TILE, 1024);
    assert TILE * n == (n / TILE) * 1024;
  }

  method TilizeBuffer<T>(input: seq<T>, m: nat, n: nat) returns (r: Result<seq<T>>)
    ensures r.Ok? <==> Accepts(|input|, m, n)
    ensures r.Ok? ==> |input| % (TILE * n) == 0 && r.value == Tiled(input, n)
  {
    hide TiledTo, RowMajorPlace, TiledPlace, RowMajorOf;
    if !(|input| > 0 && m > 0 && n > 0) {
      return Fatal;
    }
    MulPositive(m, n);
    if |input| % (m * n) != 0 {
      return Fatal;
    }
    var numBlocks := |input| / (m * n);
    var rowTiles, colTiles := m / TILE, n / TILE;
    if !(m % TILE == 0 && n % TILE == 0) {
      return Fatal;
    }
    AcceptedSize(|input|, m, n);
    var out: seq<T> := [];
    var blockStart: nat := 0;
    NothingTiled(input, n);
    for b := 0 to numBlocks
      invariant blockStart == RowMajorPlace(n, b * rowTiles, 0, 0, 0, 0, 0)
      invariant TiledTo(out, input, n, TiledPlace(n, b * rowTiles, 0, 0, 0, 0, 0))
    {
      var tileStart := blockStart;
      BlockInRange(b, numBlocks, rowTiles);
      for rowTile := 0 to rowTiles
        invariant tileStart == RowMajorPlace(n, b * rowTiles + rowTile, 0, 0, 0, 0, 0)
        invariant tileStart == blockStart + rowTile * (TILE * n)
        invariant TiledTo(out, input, n, TiledPlace(n, b * rowTiles + rowTile, 0, 0, 0, 0, 0))
      {
        ghost var tileRow := b * rowTiles + rowTile;
        IndexInRange(b, rowTile, numBlocks, rowTiles);
        var rowTileStart := tileStart;
        for colTile := 0 to colTiles
          invariant rowTileStart == RowMajorPlace(n, tileRow, colTile, 0, 0, 0, 0)
          invariant TiledTo(out, input, n, TiledPlace(n, tileRow, colTile, 0, 0, 0, 0))
        {
          TileFaces(n, tileRow, colTile);
          var face0 := rowTileStart;
          var face1 := face0 + FACE;
          var face2 := face0 + n * FACE;
          var face3 := face2 + FACE;
          out := WriteFace(out, input, face0, n, tileRow, colTile, 0, 0);
          out := WriteFace(out, input, face1, n, tileRow, colTile, 0, 1);
          out := WriteFace(out, input, face2, n, tileRow, colTile, 1, 0);
          out := WriteFace(out, input, face3, n, tileRow, colTile, 1, 1);
          rowTileStart := rowTileStart + TILE;
        }
        NextTileRow(n, tileRow);
        MulDistribute(rowTile, 1, TILE * n);
        tileStart := tileStart + TILE * n;
      }
      MulDistribute(b, 1, rowTiles);
      MulAssoc(rowTiles, TILE, n);
      blockStart := blockStart + m * n;
    }
    AllTiled(out, input, m, n);
    r := Ok(out);
  }

  lemma NothingTiled<T>(input: seq<T>, n: nat)
    requires n % TILE == 0 && n > 0 && |input| % (TILE * n) == 0
    ensures RowMajorPlace(n, 0, 0, 0, 0, 0, 0) == 0
    ensures TiledTo([], input, n, TiledPlace(n, 0, 0, 0, 0, 0, 0))
  {
    hide RowMajorOf;
  }

  lemma BlockInRange(b: nat, blocks: nat, rowTiles: nat)
    requires b < blocks
    ensures b * rowTiles + rowTiles <= blocks * rowTiles
  {
    MulMono(b + 1, blocks, rowTiles);
    MulDistribute(b, 1, rowTiles);
  }

  lemma AllTiled<T>(out: seq<T>, input: seq<T>, m: nat, n: nat)
    requires Accepts(|input|, m, n) && |input| % (TILE * n) == 0
    requires TiledTo(out, input, n, TiledPlace(n, |input| / (m * n) * (m / TILE), 0, 0, 0, 0, 0))
    ensures out == Tiled(input, n)
  {
    hide RowMajorOf;
    AcceptedSize(|input|, m, n);
    NextTileRow(n, |input| / (m * n) * (m / TILE));
    RowsOf(|input|, n);
  }

  // ----- untilize

  /** `out` is the first `count` elements of the row-major buffer. */
  ghost predicate UntiledTo<T>(out: seq<T>, input: seq<T>, n: nat, count: nat)
    requires n % TILE == 0 && n > 0 && |input| % (TILE * n) == 0
  {
    count <= |input| && out == Untiled(input, n)[..count]
  }

  lemma PushUntiled<T>(out: seq<T>, input: seq<T>, n: nat, tileRow: nat, tileCol: nat, fr: nat, fc: nat, i: nat, j: nat,
                       source: nat)
    requires n % TILE == 0 && n > 0 && |input| % (TILE * n) == 0 && Digits(n / TILE, tileCol, fr, fc, i, j)
    requires tileRow < |input| / (TILE * n)
    requires source == TiledPlace(n, tileRow, tileCol, fr, fc, i, 0) + j
    requires UntiledTo(out, input, n, RowMajorPlace(n, tileRow, tileCol, fr, fc, i, j))
    ensures source < |input|
    ensures UntiledTo(out + [input[source]], input, n, RowMajorPlace(n, tileRow, tileCol, fr, fc, i, j + 1))
  {
    hide TiledOf;
    RowsOf(|input|, n);
    PlaceBounds(n, |input| / (TILE * n), tileRow, tileCol, fr, fc, i, j);
    TiledFromDigits(n, tileRow, tileCol, fr, fc, i, j);
    var p := RowMajorPlace(n, tileRow, tileCol, fr, fc, i, j);
    assert Untiled(input, n)[p] == input[source];
    assert Untiled(input, n)[..p + 1] == Untiled(input, n)[..p] + [Untiled(input, n)[p]];
  }

  /** Appends the 16 elements of one face row, which start at `rowStart` of the tiled buffer. */
  method TakeFaceRow<T>(untilized: seq<T>, input: seq<T>, rowStart: nat, n: nat,
                        ghost tileRow: nat, ghost tileCol: nat, ghost fr: nat, ghost fc: nat, ghost i: nat)
    returns (out: seq<T>)
    requires n % TILE == 0 && n > 0 && |input| % (TILE * n) == 0 && Digits(n / TILE, tileCol, fr, fc, i, 0)
    requires tileRow < |input| / (TILE * n)
    requires rowStart == TiledPlace(n, tileRow, tileCol, fr, fc, i, 0)
    requires UntiledTo(untilized, input, n, RowMajorPlace(n, tileRow, tileCol, fr, fc, i, 0))
    ensures UntiledTo(out, input, n, RowMajorPlace(n, tileRow, tileCol, fr, fc, i, FACE))
  {
    hide UntiledTo, RowMajorPlace, TiledPlace;
    out := untilized;
    for k := 0 to FACE
      invariant UntiledTo(out, input, n, RowMajorPlace(n, tileRow, tileCol, fr, fc, i, k))
    {
      PushUntiled(out, input, n, tileRow, tileCol, fr, fc, i, k, rowStart + k);
      out := out + [input[rowStart + k]];
    }
  }

  /** Steps along one row of elements: from face to face, from tile to tile, and to the next row. */
  lemma RowSteps(n: nat, tileRow: nat, tileCol: nat, fr: nat, i: nat)
    ensures TiledPlace(n, tileRow, tileCol, fr, 1, i, 0) == TiledPlace(n, tileRow, tileCol, fr, 0, i, 0) + 256
    ensures TiledPlace(n, tileRow, tileCol + 1, fr, 0, i, 0) == TiledPlace(n, tileRow, tileCol, fr, 1, i, 0) + 768
    ensures TiledPlace(n, tileRow, tileCol, fr, 0, i, 0) == TiledPlace(n, tileRow, tileCol, fr, 0, 0, 0) + i * FACE
    ensures TiledPlace(n, tileRow, tileCol, 1, 0, 0, 0) == TiledPlace(n, tileRow, tileCol, 0, 0, 0, 0) + 512
    ensures RowMajorPlace(n, tileRow, tileCol, fr, 1, i, 0) == RowMajorPlace(n, tileRow, tileCol, fr, 0, i, FACE)
    ensures RowMajorPlace(n, tileRow, tileCol + 1, fr, 0, i, 0) == RowMajorPlace(n, tileRow, tileCol, fr, 1, i, FACE)
  {
  }

  lemma NextRow(n: nat, tileRow: nat, fr: nat, i: nat)
    requires n % TILE == 0
    ensures RowMajorPlace(n, tileRow, n / TILE, fr, 0, i, 0) == RowMajorPlace(n, tileRow, 0, fr, 0, i + 1, 0)
    ensures RowMajorPlace(n, tileRow, 0, 0, 0, FACE, 0) == RowMajorPlace(n, tileRow, 0, 1, 0, 0, 0)
    ensures RowMajorPlace(n, tileRow, 0, 1, 0, FACE, 0) == RowMajorPlace(n, tileRow + 1, 0, 0, 0, 0, 0)
  {
    MulDistribute(tileRow * TILE + fr * FACE + i, 1, n);
    assert (n / TILE) * TILE == n;
  }

  /** Appends the 32 rows of elements of one row of tiles. */
  method UntilizeRow<T>(untilized: seq<T>, input: seq<T>, tileIndex: nat, n: nat, ghost tileRow: nat)
    returns (out: seq<T>)
    requires n % TILE == 0 && n > 0 && |input| % (TILE * n) == 0 && tileRow < |input| / (TILE * n)
    requires tileIndex == TiledPlace(n, tileRow, 0, 0, 0, 0, 0)
    requires UntiledTo(untilized, input, n, RowMajorPlace(n, tileRow, 0, 0, 0, 0, 0))
    ensures UntiledTo(out, input, n, RowMajorPlace(n, tileRow + 1, 0, 0, 0, 0, 0))
  {
    hide UntiledTo, RowMajorPlace, TiledPlace;
    out := untilized;
    var faceStart := tileIndex;
    RowSteps(n, tileRow, 0, 0, 0);
    NextRow(n, tileRow, 0, 0);
    for m := 0 to 2
      invariant m < 2 ==> faceStart == TiledPlace(n, tileRow, 0, m, 0, 0, 0)
      invariant m < 2 ==> UntiledTo(out, input, n, RowMajorPlace(n, tileRow, 0, m, 0, 0, 0))
      invariant m == 2 ==> UntiledTo(out, input, n, RowMajorPlace(n, tileRow + 1, 0, 0, 0, 0, 0))
    {
      for i := 0 to FACE
        invariant UntiledTo(out, input, n, RowMajorPlace(n, tileRow, 0, m, 0, i, 0))
      {
        RowSteps(n, tileRow, 0, m, i);
        var rowStart := faceStart + i * FACE;
        for j := 0 to n / TILE
          invariant rowStart == TiledPlace(n, tileRow, j, m, 0, i, 0)
          invariant UntiledTo(out, input, n, RowMajorPlace(n, tileRow, j, m, 0, i, 0))
        {
          RowSteps(n, tileRow, j, m, i);
          out := TakeFaceRow(out, input, rowStart, n, tileRow, j, m, 0, i);
          rowStart := rowStart + FACE * FACE;
          out := TakeFaceRow(out, input, rowStart, n, tileRow, j, m, 1, i);
          rowStart := rowStart + FACE * FACE * 3;
        }
        NextRow(n, tileRow, m, i);
      }
      faceStart := faceStart + FACE * FACE * 2;
    }
  }

  method UntilizeBuffer<T>(input: seq<T>, m: nat, n: nat) returns (r: Result<seq<T>>)
    ensures r.Ok? <==> Accepts(|input|, m, n)
    ensures r.Ok? ==> |input| % (TILE * n) == 0 && r.value == Untiled(input, n)
  {
    hide UntiledTo, RowMajorPlace, TiledPlace, TiledOf;
    if !(|input| > 0 && m > 0 && n > 0) {
      return Fatal;
    }
    MulPositive(m, n);
    if |input| % (m * n) != 0 {
      return Fatal;
    }
    var numBlocks := |input| / (m * n);
    var rowTiles := m / TILE;
    if !(m % TILE == 0 && n % TILE == 0) {
      return Fatal;
    }
    AcceptedSize(|input|, m, n);
    var out: seq<T> := [];
    var blockStart: nat := 0;
    NothingUntiled(input, n);
    for b := 0 to numBlocks
      invariant blockStart == TiledPlace(n, b * rowTiles, 0, 0, 0, 0, 0)
      invariant UntiledTo(out, input, n, RowMajorPlace(n, b * rowTiles, 0, 0, 0, 0, 0))
    {
      var rowTileStart := blockStart;
      BlockInRange(b, numBlocks, rowTiles);
      for rowTile := 0 to rowTiles
        invariant rowTileStart == TiledPlace(n, b * rowTiles + rowTile, 0, 0, 0, 0, 0)
        invariant rowTileStart == blockStart + rowTile * (TILE * n)
        invariant UntiledTo(out, input, n, RowMajorPlace(n, b * rowTiles + rowTile, 0, 0, 0, 0, 0))
      {
        ghost var tileRow := b * rowTiles + rowTile;
        IndexInRange(b, rowTile, numBlocks, rowTiles);
        out := UntilizeRow(out, input, rowTileStart, n, tileRow);
        NextTiledRow(n, tileRow);
        MulDistribute(rowTile, 1, TILE * n);
        rowTileStart := rowTileStart + TILE * n;
      }
      MulDistribute(b, 1, rowTiles);
      MulAssoc(rowTiles, TILE, n);
      blockStart := blockStart + m * n;
    }
    AllUntiled(out, input, m, n);
    r := Ok(out);
  }

  lemma NextTiledRow(n: nat, tileRow: nat)
    requires n % TILE == 0 && n > 0
    ensures TiledPlace(n, tileRow + 1, 0, 0, 0, 0, 0) == TiledPlace(n, tileRow, 0, 0, 0, 0, 0) + TILE * n
  {
    hide TiledPlace;
    NextTileRow(n, tileRow);
    NextTileRow(n, tileRow + 1);
    MulDistribute(tileRow, 1, TILE * n);
  }

  lemma NothingUntiled<T>(input: seq<T>, n: nat)
    requires n % TILE == 0 && n > 0 && |input| % (TILE * n) == 0
    ensures TiledPlace(n, 0, 0, 0, 0, 0, 0) == 0
    ensures UntiledTo([], input, n, RowMajorPlace(n, 0, 0, 0, 0, 0, 0))
  {
    hide TiledOf;
  }

  lemma AllUntiled<T>(out: seq<T>, input: seq<T>, m: nat, n: nat)
    requires Accepts(|input|, m, n) && |input| % (TILE * n) == 0
    requires UntiledTo(out, input, n, RowMajorPlace(n, |input| / (m * n) * (m / TILE), 0, 0, 0, 0, 0))
    ensures out == Untiled(input, n)
  {
    hide TiledOf;
    AcceptedSize(|input|, m, n);
    MulAssoc(|input| / (m * n) * (m / TILE), TILE, n);
    RowsOf(|input|, n);
  }
}
