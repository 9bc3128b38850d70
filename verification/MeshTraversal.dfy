/** Walks over the coordinates of a mesh: the line that snakes through its rows, and the ring round a sub-grid. */
module MeshTraversal {
  import opened Outcomes
  import opened Arith
  import opened Collections

  datatype Coordinate = Coordinate(row: nat, col: nat)

  datatype MeshShape = MeshShape(numRows: nat, numCols: nat)

  /** Whether two coordinates are at Manhattan distance one. */
  predicate Neighbours(a: Coordinate, b: Coordinate)
  {
    (a.row == b.row && (a.col == b.col + 1 || b.col == a.col + 1))
    || (a.col == b.col && (a.row == b.row + 1 || b.row == a.row + 1))
  }

  /** Each coordinate is next to the one before it. */
  ghost predicate IsPath(v: seq<Coordinate>)
  {
    forall i :: 0 < i < |v| ==> Neighbours(v[i - 1], v[i])
  }

  // ----- the line

  /** The coordinate after `i` steps: rows are walked rightwards and leftwards in turn. */
  function LineAt(offset: Coordinate, numCols: nat, i: nat): Coordinate
    requires offset.col < numCols
  {
    var j := offset.col + i;
    DivNonNegative(j, numCols);
    Coordinate(offset.row + j / numCols, if j / numCols % 2 == 0 then j % numCols else numCols - 1 - j % numCols)
  }

  function Line(length: nat, offset: Coordinate, numCols: nat): seq<Coordinate>
    requires offset.col < numCols || length == 0
  {
    seq(length, i requires 0 <= i < length => LineAt(offset, numCols, i))
  }

  /** How long a line from `offset` can get: to the end of the last row. */
  function LineCapacity(offset: Coordinate, numRows: nat, numCols: nat): int
  {
    if offset.row < numRows && offset.col < numCols then (numRows - offset.row) * numCols - offset.col else 0
  }

  /** One step along the line. */
  lemma LineStep(offset: Coordinate, numCols: nat, i: nat)
    requires offset.col < numCols
    ensures (offset.col + i) / numCols >= 0
    ensures var here, next := LineAt(offset, numCols, i), LineAt(offset, numCols, i + 1);
            var rightwards := (offset.col + i) / numCols % 2 == 0;
            && here.col < numCols
            && if rightwards && here.col < numCols - 1 then
                 next == Coordinate(here.row, here.col + 1)
                 && (offset.col + i + 1) / numCols == (offset.col + i) / numCols
               else if !rightwards && here.col > 0 then
                 next == Coordinate(here.row, here.col - 1)
                 && (offset.col + i + 1) / numCols == (offset.col + i) / numCols
               else
                 next == Coordinate(here.row + 1, here.col)
                 && (offset.col + i + 1) / numCols == (offset.col + i) / numCols + 1
  {
    var j := offset.col + i;
    DivNonNegative(j, numCols);
    NextPlace(j, numCols);
  }

  /** The quotient and the remainder of the next number. */
  lemma NextPlace(j: nat, n: nat)
    requires n > 0
    ensures j / n >= 0 && 0 <= j % n < n
    ensures if j % n == n - 1 then (j + 1) / n == j / n + 1 && (j + 1) % n == 0
            else (j + 1) / n == j / n && (j + 1) % n == j % n + 1
  {
    DivNonNegative(j, n);
    DivModSplit(j, n);
    if j % n == n - 1 {
      MulDistribute(j / n, 1, n);
      DivModUnique(j + 1, j / n + 1, 0, n);
    } else {
      DivModUnique(j + 1, j / n, j % n + 1, n);
    }
  }

  /** The line is within the rows for as long as its capacity lasts. */
  lemma LineRow(offset: Coordinate, numRows: nat, numCols: nat, i: nat)
    requires offset.row < numRows && offset.col < numCols
    ensures LineAt(offset, numCols, i).row < numRows <==> i < LineCapacity(offset, numRows, numCols)
  {
    var j, left := offset.col + i, numRows - offset.row;
    DivNonNegative(j, numCols);
    DivModSplit(j, numCols);
    if j < left * numCols {
      DivInRange(j, left, numCols);
    } else {
      DivMono(left * numCols, j, numCols);
      DivModUnique(left * numCols, left, 0, numCols);
    }
  }

  method GetLineCoordinates(length: nat, offset: Coordinate, numRows: nat, numCols: nat)
    returns (r: Result<seq<Coordinate>>)
    ensures r.Ok? <==> length <= LineCapacity(offset, numRows, numCols)
    ensures r.Ok? && length > 0 ==> offset.col < numCols
    ensures r.Ok? ==> (offset.col < numCols || length == 0) && r.value == Line(length, offset, numCols)
  {
    hide LineAt;
    var line: seq<Coordinate> := [];
    var row: nat, col: nat := offset.row, offset.col;
    var leftToRight := true;
    var i: nat := 0;
    if row < numRows && col < numCols {
      StartOfLine(offset, numCols);
      LineRow(offset, numRows, numCols, 0);
    }
    while i < length && row < numRows && col < numCols
      invariant i <= length && |line| == i
      invariant offset.row < numRows && offset.col < numCols ==>
        && col < numCols && Coordinate(row, col) == LineAt(offset, numCols, i)
        && (leftToRight <==> (offset.col + i) / numCols % 2 == 0)
        && i <= LineCapacity(offset, numRows, numCols)
        && line == Line(i, offset, numCols)
      invariant !(offset.row < numRows && offset.col < numCols) ==> row == offset.row && col == offset.col && i == 0
      decreases length - i
    {
      line := line + [Coordinate(row, col)];
      LineStep(offset, numCols, i);
      LineRow(offset, numRows, numCols, i);
      LineGrows(offset, numCols, i);
      if leftToRight && col < numCols - 1 {
        col := col + 1;
      } else if !leftToRight && col > 0 {
        col := col - 1;
      } else {
        row := row + 1;
        leftToRight := !leftToRight;
      }
      i := i + 1;
    }
    if offset.row < numRows && offset.col < numCols {
      LineRow(offset, numRows, numCols, i);
    }
    if |line| != length {
      return Fatal;
    }
    r := Ok(line);
  }

  lemma StartOfLine(offset: Coordinate, numCols: nat)
    requires offset.col < numCols
    ensures LineAt(offset, numCols, 0) == offset && offset.col / numCols == 0
  {
    DivModUnique(offset.col, 0, offset.col, numCols);
  }

  lemma LineGrows(offset: Coordinate, numCols: nat, i: nat)
    requires offset.col < numCols
    ensures Line(i + 1, offset, numCols) == Line(i, offset, numCols) + [LineAt(offset, numCols, i)]
  {
  }

  /** How many steps the line takes to a coordinate. */
  function StepsTo(offset: Coordinate, numCols: nat, c: Coordinate): int
    requires offset.row <= c.row && c.col < numCols
  {
    Index(c.row - offset.row, numCols,
          if (c.row - offset.row) % 2 == 0 then c.col else numCols - 1 - c.col) - offset.col
  }

  /** The steps to a coordinate of the line, and the coordinate after some steps. */
  lemma StepsInverse(offset: Coordinate, numCols: nat, i: nat)
    requires offset.col < numCols
    ensures LineAt(offset, numCols, i).row >= offset.row && LineAt(offset, numCols, i).col < numCols
    ensures StepsTo(offset, numCols, LineAt(offset, numCols, i)) == i
  {
    var j := offset.col + i;
    DivNonNegative(j, numCols);
    DivModSplit(j, numCols);
  }

  lemma LineReaches(offset: Coordinate, numCols: nat, c: Coordinate)
    requires offset.col < numCols && offset.row <= c.row && c.col < numCols
    requires StepsTo(offset, numCols, c) >= 0
    ensures LineAt(offset, numCols, StepsTo(offset, numCols, c)) == c
  {
    var q := c.row - offset.row;
    var r := if q % 2 == 0 then c.col else numCols - 1 - c.col;
    DivModUnique(Index(q, numCols, r), q, r, numCols);
  }

  predicate InMesh(c: Coordinate, numRows: nat, numCols: nat)
  {
    c.row < numRows && c.col < numCols
  }

  /** A line that fits is a path of different coordinates of the mesh. */
  lemma LineIsSimplePath(length: nat, offset: Coordinate, numRows: nat, numCols: nat)
    requires InMesh(offset, numRows, numCols) && length <= LineCapacity(offset, numRows, numCols)
    ensures var line := Line(length, offset, numCols);
            && NoDuplicates(line) && IsPath(line) && (length > 0 ==> line[0] == offset)
            && forall i :: 0 <= i < length ==> InMesh(line[i], numRows, numCols)
  {
    hide LineAt;
    var line := Line(length, offset, numCols);
    StartOfLine(offset, numCols);
    forall i | 0 <= i < length
      ensures InMesh(line[i], numRows, numCols)
    {
      LineRow(offset, numRows, numCols, i);
      LineStep(offset, numCols, i);
    }
    forall i | 0 < i < length
      ensures Neighbours(line[i - 1], line[i])
    {
      LineStep(offset, numCols, i - 1);
    }
    forall i, j | 0 <= i < j < length
      ensures line[i] != line[j]
    {
      StepsInverse(offset, numCols, i);
      StepsInverse(offset, numCols, j);
    }
  }

  /** The line over the whole mesh visits every coordinate of it once. */
  lemma LineIsHamiltonian(numRows: nat, numCols: nat)
    requires numRows > 0 && numCols > 0
    ensures numRows * numCols == LineCapacity(Coordinate(0, 0), numRows, numCols)
    ensures var line := Line(numRows * numCols, Coordinate(0, 0), numCols);
            && NoDuplicates(line) && IsPath(line)
            && forall c :: c in line <==> InMesh(c, numRows, numCols)
  {
    hide LineAt, StepsTo;
    var line := Line(numRows * numCols, Coordinate(0, 0), numCols);
    LineIsSimplePath(numRows * numCols, Coordinate(0, 0), numRows, numCols);
    forall c | InMesh(c, numRows, numCols)
      ensures c in line
    {
      StepsInMesh(c, numRows, numCols);
      LineReaches(Coordinate(0, 0), numCols, c);
      assert line[StepsTo(Coordinate(0, 0), numCols, c)] == c;
    }
  }

  lemma StepsInMesh(c: Coordinate, numRows: nat, numCols: nat)
    requires InMesh(c, numRows, numCols)
    ensures 0 <= StepsTo(Coordinate(0, 0), numCols, c) < numRows * numCols
  {
    IndexInRange(c.row, if c.row % 2 == 0 then c.col else numCols - 1 - c.col, numRows, numCols);
  }

  /** A line as long as the mesh is large fits exactly when it starts at the first coordinate. */
  lemma WholeLineFitsIff(offset: Coordinate, numRows: nat, numCols: nat)
    requires numRows > 0 && numCols > 0
    ensures numRows * numCols <= LineCapacity(offset, numRows, numCols) <==> offset == Coordinate(0, 0)
  {
    MulPositive(numRows, numCols);
    if InMesh(offset, numRows, numCols) {
      MulDistribute(numRows - offset.row, offset.row, numCols);
      MulPositive(offset.row, numCols);
    }
  }

  // ----- the ring

  predicate HasInside(shape: MeshShape)
  {
    shape.numRows > 1 && shape.numCols > 1
  }

  function RingLength(shape: MeshShape): int
  {
    if HasInside(shape) then 2 * (shape.numRows + shape.numCols) - 4 else shape.numRows + shape.numCols - 1
  }

  /**
   The `i`-th coordinate of the ring: top row, right column, bottom row, left column, each from where the last
   one ended.
   */
  function RingAt(shape: MeshShape, offset: Coordinate, i: nat): Coordinate
    requires shape.numRows > 0 && shape.numCols > 0 && i < RingLength(shape)
  {
    var h, w := shape.numRows - 1, shape.numCols - 1;
    if i <= w then Coordinate(offset.row, offset.col + i)
    else if i <= w + h then Coordinate(offset.row + i - w, offset.col + w)
    else if i <= w + h + w then Coordinate(offset.row + h, offset.col + w - (i - w - h))
    else Coordinate(offset.row + h - (i - w - h - w), offset.col)
  }

  function Ring(shape: MeshShape, offset: Coordinate): seq<Coordinate>
    requires shape.numRows > 0 && shape.numCols > 0
  {
    seq(RingLength(shape), i requires 0 <= i < RingLength(shape) => RingAt(shape, offset, i))
  }

  /**
   What the walk is for a shape without rows or columns: its top row, and the column before its last row and
   column.
   */
  function FlatRing(shape: MeshShape, offset: Coordinate): seq<Coordinate>
    requires shape.numCols > 0 || offset.col > 0
  {
    seq(shape.numCols, i requires 0 <= i < shape.numCols => Coordinate(offset.row, offset.col + i))
    + seq(if shape.numRows > 0 then shape.numRows - 1 else 0, i requires 0 <= i =>
        Coordinate(offset.row + 1 + i, offset.col + shape.numCols - 1))
  }

  /** `walk` is the start of the ring. */
  ghost predicate WalkedTo(walk: seq<Coordinate>, shape: MeshShape, offset: Coordinate)
  {
    && shape.numRows > 0 && shape.numCols > 0 && |walk| <= RingLength(shape)
    && forall i :: 0 <= i < |walk| ==> walk[i] == RingAt(shape, offset, i)
  }

  /** A side of zero at offset zero would wrap the last row or column around, and the walk would not end. */
  method GetRingCoordinates(shape: MeshShape, offset: Coordinate, numRows: nat, numCols: nat)
    returns (r: Result<seq<Coordinate>>)
    requires offset.row + shape.numRows <= numRows && offset.col + shape.numCols <= numCols ==>
               offset.row + shape.numRows > 0 && offset.col + shape.numCols > 0
    ensures r.Ok? <==> offset.row + shape.numRows <= numRows && offset.col + shape.numCols <= numCols
    ensures r.Ok? && shape.numRows > 0 && shape.numCols > 0 ==> r.value == Ring(shape, offset)
    ensures r.Ok? && (shape.numRows == 0 || shape.numCols == 0) ==> r.value == FlatRing(shape, offset)
  {
    if offset.row + shape.numRows > numRows || offset.col + shape.numCols > numCols {
      return Fatal;
    }
    var endRow: nat := offset.row + shape.numRows - 1;
    var endCol: nat := offset.col + shape.numCols - 1;
    var ring: seq<Coordinate> := [];
    for col := offset.col to endCol + 1
      invariant |ring| == col - offset.col
      invariant forall i :: 0 <= i < |ring| ==> ring[i] == Coordinate(offset.row, offset.col + i)
    {
      ring := ring + [Coordinate(offset.row, col)];
    }
    var row: nat := offset.row + 1;
    while row <= endRow
      invariant offset.row < row && (shape.numRows > 0 ==> row <= endRow + 1)
                && (shape.numRows == 0 ==> row == offset.row + 1)
      invariant |ring| == shape.numCols + (row - offset.row - 1)
      invariant forall i :: 0 <= i < shape.numCols ==> ring[i] == Coordinate(offset.row, offset.col + i)
      invariant forall i :: shape.numCols <= i < |ring| ==>
        ring[i] == Coordinate(offset.row + 1 + i - shape.numCols, endCol)
    {
      ring := ring + [Coordinate(row, endCol)];
      row := row + 1;
    }
    if shape.numRows == 0 || shape.numCols == 0 {
      assert ring == FlatRing(shape, offset);
    }
    if shape.numRows > 1 && shape.numCols > 1 {
      ring := WalkBack(shape, offset, endRow, endCol, ring);
    }
    assert shape.numRows > 0 && shape.numCols > 0 ==> ring == Ring(shape, offset);
    r := Ok(ring);
  }

  /** The bottom row from right to left, and the left column from the bottom up. */
  method WalkBack(shape: MeshShape, offset: Coordinate, endRow: nat, endCol: nat, walk: seq<Coordinate>)
    returns (ring: seq<Coordinate>)
    requires HasInside(shape) && endRow == offset.row + shape.numRows - 1 && endCol == offset.col + shape.numCols - 1
    requires |walk| == shape.numRows + shape.numCols - 1 && WalkedTo(walk, shape, offset)
    ensures ring == Ring(shape, offset)
  {
    ring := walk;
    var col: int := endCol - 1;
    while col >= offset.col
      invariant offset.col - 1 <= col < endCol
      invariant |ring| == shape.numCols + shape.numRows - 1 + (endCol - 1 - col) && WalkedTo(ring, shape, offset)
    {
      ring := ring + [Coordinate(endRow, col)];
      col := col - 1;
    }
    var row: int := endRow - 1;
    while row > offset.row
      invariant offset.row <= row < endRow
      invariant |ring| == 2 * shape.numCols + shape.numRows - 2 + (endRow - 1 - row) && WalkedTo(ring, shape, offset)
    {
      ring := ring + [Coordinate(row, offset.col)];
      row := row - 1;
    }
  }

  predicate InSubGrid(c: Coordinate, shape: MeshShape, offset: Coordinate)
  {
    offset.row <= c.row < offset.row + shape.numRows && offset.col <= c.col < offset.col + shape.numCols
  }

  /** The cells of a sub-grid that have a neighbouring place outside it. */
  predicate OnBoundary(c: Coordinate, shape: MeshShape, offset: Coordinate)
  {
    && InSubGrid(c, shape, offset)
    && (c.row == offset.row || c.row == offset.row + shape.numRows - 1
        || c.col == offset.col || c.col == offset.col + shape.numCols - 1)
  }

  /** Where the ring reaches a boundary cell. */
  function RingPlace(c: Coordinate, shape: MeshShape, offset: Coordinate): int
  {
    var h, w, y, x := shape.numRows - 1, shape.numCols - 1, c.row - offset.row, c.col - offset.col;
    if y == 0 then x else if x == w then w + y else if y == h then w + h + (w - x) else w + h + w + (h - y)
  }

  lemma RingReaches(c: Coordinate, shape: MeshShape, offset: Coordinate)
    requires shape.numRows > 0 && shape.numCols > 0 && OnBoundary(c, shape, offset)
    ensures 0 <= RingPlace(c, shape, offset) < RingLength(shape)
    ensures RingAt(shape, offset, RingPlace(c, shape, offset)) == c
  {
  }

  lemma RingPlaceInverse(shape: MeshShape, offset: Coordinate, i: nat)
    requires shape.numRows > 0 && shape.numCols > 0 && i < RingLength(shape)
    ensures OnBoundary(RingAt(shape, offset, i), shape, offset)
    ensures RingPlace(RingAt(shape, offset, i), shape, offset) == i
  {
  }

  /**
   The ring visits the boundary cells of the sub-grid, each once, along a path that starts at the first corner and
   goes clockwise; it closes when the sub-grid has two rows and two columns.
   */
  lemma RingIsBoundaryCycle(shape: MeshShape, offset: Coordinate)
    requires shape.numRows > 0 && shape.numCols > 0
    ensures var ring := Ring(shape, offset);
            && NoDuplicates(ring) && IsPath(ring)
            && (forall c :: c in ring <==> OnBoundary(c, shape, offset))
            && |ring| >= shape.numCols + shape.numRows - 1
            && (forall i :: 0 <= i < shape.numCols ==> ring[i] == Coordinate(offset.row, offset.col + i))
            && (forall i :: shape.numCols <= i < shape.numCols + shape.numRows - 1 ==>
                  ring[i] == Coordinate(offset.row + i - shape.numCols + 1, offset.col + shape.numCols - 1))
            && (HasInside(shape) ==>
                  && Neighbours(ring[|ring| - 1], ring[0]) && |ring| == 2 * (shape.numRows + shape.numCols) - 4
                  && ring[|ring| - 1] == Coordinate(offset.row + 1, offset.col))
  {
    hide RingPlace, OnBoundary;
    var ring := Ring(shape, offset);
    forall i, j | 0 <= i < j < |ring|
      ensures ring[i] != ring[j]
    {
      RingPlaceInverse(shape, offset, i);
      RingPlaceInverse(shape, offset, j);
    }
    forall c | OnBoundary(c, shape, offset)
      ensures c in ring
    {
      RingReaches(c, shape, offset);
      assert ring[RingPlace(c, shape, offset)] == c;
    }
    forall i | 0 <= i < |ring|
      ensures OnBoundary(ring[i], shape, offset)
    {
      RingPlaceInverse(shape, offset, i);
    }
  }

  /** The ring visits every cell of the sub-grid exactly when a side is at most two. */
  lemma RingVisitsAllIff(shape: MeshShape, offset: Coordinate)
    requires shape.numRows > 0 && shape.numCols > 0
    ensures (forall c :: c in Ring(shape, offset) <==> InSubGrid(c, shape, offset))
            <==> shape.numRows <= 2 || shape.numCols <= 2
  {
    hide RingAt;
    RingIsBoundaryCycle(shape, offset);
    var inside := Coordinate(offset.row + 1, offset.col + 1);
    assert inside in Ring(shape, offset) <==> OnBoundary(inside, shape, offset);
    assert shape.numRows > 2 && shape.numCols > 2 ==>
      InSubGrid(inside, shape, offset) && !OnBoundary(inside, shape, offset);
  }
}
