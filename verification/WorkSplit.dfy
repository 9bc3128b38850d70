/**
 `num_cores_to_corerangeset` and `split_work_to_cores`: a number of cores, or of work units, turned
 into a few rectangles that are consecutive cores of the grid in the fill order.
 */
module WorkSplit {
  import opened Outcomes
  import opened Arith
  import opened CoreRanges
  import opened Collections
  import opened CoreRangeSets
  import opened CoreOrder

  /** `r` is part of one line, or a block of whole lines. */
  ghost predicate LineAligned(rowWise: bool, grid: CoreCoord, r: CoreRange)
  {
    && Minor(rowWise, r.end) < LineLength(rowWise, grid)
    && (Major(rowWise, r.start) == Major(rowWise, r.end)
        || (Minor(rowWise, r.start) == 0 && Minor(rowWise, r.end) == LineLength(rowWise, grid) - 1))
  }

  /** Such a rectangle is a stretch of consecutive cores. */
  lemma AlignedIsStretch(rowWise: bool, grid: CoreCoord, r: CoreRange)
    requires LineAligned(rowWise, grid, r)
    ensures Listed(rowWise, r) == Stretch(rowWise, grid, IndexOf(rowWise, grid, r.start), Size(r))
  {
    var s := Stretch(rowWise, grid, IndexOf(rowWise, grid, r.start), Size(r));
    forall i | 0 <= i < Size(r)
      ensures Listed(rowWise, r)[i] == s[i]
    {
      AlignedAt(rowWise, grid, r, i);
    }
  }

  lemma AlignedAt(rowWise: bool, grid: CoreCoord, r: CoreRange, i: nat)
    requires LineAligned(rowWise, grid, r) && i < Size(r)
    ensures Listed(rowWise, r)[i] == CoreAt(rowWise, grid, IndexOf(rowWise, grid, r.start) + i)
  {
    var n, w := LineLength(rowWise, grid), RangeMinor(rowWise, r);
    var line, place := Major(rowWise, r.start), Minor(rowWise, r.start);
    var q, p := i / w, i % w;
    AlignedPlace(rowWise, grid, r, i, q, p);
    ListedNext(rowWise, r, q, p);
    CoreAtPlace(rowWise, grid, line + q, place + p);
  }

  lemma AlignedPlace(rowWise: bool, grid: CoreCoord, r: CoreRange, i: nat, q: nat, p: nat)
    requires LineAligned(rowWise, grid, r) && i < Size(r)
    requires q == i / RangeMinor(rowWise, r) && p == i % RangeMinor(rowWise, r)
    ensures i == q * RangeMinor(rowWise, r) + p && p < RangeMinor(rowWise, r)
    ensures q < Lines(rowWise, r)
    ensures IndexOf(rowWise, grid, r.start) + i
         == (Major(rowWise, r.start) + q) * LineLength(rowWise, grid) + (Minor(rowWise, r.start) + p)
  {
    hide Size;
    var n, w := LineLength(rowWise, grid), RangeMinor(rowWise, r);
    SizeByLines(rowWise, r);
    DivInRange(i, Lines(rowWise, r), w);
    DivModSplit(i, w);
    MulDistribute(Major(rowWise, r.start), q, n);
  }

  lemma CoreAtPlace(rowWise: bool, grid: CoreCoord, line: nat, place: nat)
    requires place < LineLength(rowWise, grid)
    ensures CoreAt(rowWise, grid, line * LineLength(rowWise, grid) + place) == At(rowWise, line, place)
  {
    var n := LineLength(rowWise, grid);
    DivModUnique(line * n + place, line, place, n);
  }

  lemma StretchConcat(rowWise: bool, grid: CoreCoord, from: nat, a: nat, b: nat)
    requires LineLength(rowWise, grid) > 0
    ensures Stretch(rowWise, grid, from, a) + Stretch(rowWise, grid, from + a, b) == Stretch(rowWise, grid, from, a + b)
  {
  }

  lemma StretchDistinct(rowWise: bool, grid: CoreCoord, from: nat, count: nat)
    requires LineLength(rowWise, grid) > 0
    ensures NoDuplicates(Stretch(rowWise, grid, from, count))
  {
    var s := Stretch(rowWise, grid, from, count);
    forall i, j | 0 <= i < j < count
      ensures s[i] != s[j]
    {
      PlacesDiffer(from + i, from + j, LineLength(rowWise, grid));
      assert s[i] == CoreAt(rowWise, grid, from + i) && s[j] == CoreAt(rowWise, grid, from + j);
    }
  }

  /** Appending an aligned rectangle that starts where the stretch ends. */
  lemma Extend(rowWise: bool, grid: CoreCoord, rs: seq<CoreRange>, from: nat, count: nat, r: CoreRange)
    requires LineAligned(rowWise, grid, r)
    requires Flatten(rowWise, rs) == Stretch(rowWise, grid, from, count)
    requires IndexOf(rowWise, grid, r.start) == from + count
    ensures Flatten(rowWise, rs + [r]) == Stretch(rowWise, grid, from, count + Size(r))
  {
    hide Size, Flatten, IndexOf, CoreAt, Listed;
    AlignedIsStretch(rowWise, grid, r);
    FlattenSnoc(rowWise, rs, r);
    StretchConcat(rowWise, grid, from, count, Size(r));
  }

  /** How many cores there are from `start` to the end of the grid. */
  function Available(rowWise: bool, grid: CoreCoord, start: CoreCoord): int
  {
    grid.x * grid.y - IndexOf(rowWise, grid, start)
  }

  /**
   `num_cores_to_corerangeset(start_core, target_num_cores, grid_size, row_wise)`.
   On success the rectangles list, in order, the `target` cores of the grid from `start` on, and are as few as that
   order allows: no two of them could be joined.
   */
  method NumCoresToCoreRangeSet(start: CoreCoord, target: nat, grid: CoreCoord, rowWise: bool)
    returns (r: Result<CoreRangeSet>)
    ensures r.Ok? <==> InGrid(grid, start) && target <= Available(rowWise, grid, start)
    ensures r.Ok? ==>
      && |r.value| <= 3 && Reduced(r.value)
      && Flatten(rowWise, r.value) == Stretch(rowWise, grid, IndexOf(rowWise, grid, start), target)
  {
    var numX, numY := grid.x, grid.y;
    var available: int := 0;
    if !(start.x < numX && start.y < numY) {
      return Fatal;
    }
    if rowWise {
      available := available + (numY - 1 - start.y) * numX;
      available := available + (numX - start.x);
    } else {
      available := available + (numX - 1 - start.x) * numY;
      available := available + (numY - start.y);
    }
    AvailableFormula(rowWise, grid, start);
    if target > available {
      return Fatal;
    }
    var all: seq<CoreRange>;
    if rowWise {
      all := FillRows(start, target, grid);
    } else {
      all := FillCols(start, target, grid);
    }
    StretchDistinct(rowWise, grid, IndexOf(rowWise, grid, start), target);
    NoDuplicatesIffDisjoint(rowWise, all);
    r := Construct(all);
  }

  /**
   `num_cores_to_corerangeset(target_num_cores, grid_size, row_wise)`, which starts at (0, 0): listing its rectangles
   gives, core for core, what `grid_to_cores` gives.
   */
  method NumCoresFromOrigin(target: nat, grid: CoreCoord, rowWise: bool) returns (r: Result<CoreRangeSet>)
    ensures r.Ok? <==> grid.x > 0 && grid.y > 0 && target <= grid.x * grid.y
    ensures r.Ok? ==>
      |r.value| <= 3 && Reduced(r.value) && Flatten(rowWise, r.value) == Stretch(rowWise, grid, 0, target)
  {
    FromOrigin(rowWise, grid);
    AvailableFromOrigin(rowWise, grid);
    r := NumCoresToCoreRangeSet(CoreCoord(0, 0), target, grid, rowWise);
  }

  lemma AvailableFromOrigin(rowWise: bool, grid: CoreCoord)
    ensures grid.x > 0 && grid.y > 0 ==> Available(rowWise, grid, CoreCoord(0, 0)) == grid.x * grid.y
  {
  }

  /** The two ways to list the first cores of a grid agree. */
  method ListBothWays(target: nat, grid: CoreCoord, rowWise: bool)
    returns (ranges: seq<CoreCoord>, cores: seq<CoreCoord>)
    requires grid.x > 0 && grid.y > 0 && target <= grid.x * grid.y
    ensures ranges == cores && |cores| == target
  {
    var r := NumCoresFromOrigin(target, grid, rowWise);
    ranges := CoreRangesToCores(r.value, None, rowWise);
    cores := GridToCores(target, grid.x, grid.y, rowWise);
  }

  lemma FlatStart(rowWise: bool, grid: CoreCoord, from: nat)
    ensures Flatten(rowWise, []) == Stretch(rowWise, grid, from, 0)
  {
  }

  /** The row-wise branch: the rest of the first row, whole rows, and part of a last row. */
  method FillRows(start: CoreCoord, target: nat, grid: CoreCoord) returns (all: seq<CoreRange>)
    requires InGrid(grid, start)
    ensures |all| <= 3 && Reduced(all)
    ensures Flatten(true, all) == Stretch(true, grid, IndexOf(true, grid, start), target)
  {
    hide Size, Flatten, Stretch, Reduced;
    var numX := grid.x;
    all := [];
    var leftover: nat := target;
    var s := start;
    ghost var from := IndexOf(true, grid, start);
    FlatStart(true, grid, from);
    if s.x != 0 && leftover > numX - start.x {
      var cr: CoreRange := Corners(s, CoreCoord(numX - 1, s.y));
      LineSize(true, cr);
      Extend(true, grid, all, from, 0, cr);
      all := all + [cr];
      s := CoreCoord(0, s.y + 1);
      leftover := leftover - Size(cr);
      NextLine(start.y, start.x, numX);
    }
    ghost var done := target - leftover;
    all, s, leftover := TakeWholeRows(all, s, leftover, numX, grid, from, done);
    done := target - leftover;
    if leftover > 0 {
      var cr: CoreRange := Corners(s, CoreCoord(s.x + leftover - 1, s.y));
      LineSize(true, cr);
      Extend(true, grid, all, from, done, cr);
      all := all + [cr];
    }
    SteppedIsReduced(true, all);
  }

  /** The whole lines, if more than one line is left to fill. */
  method TakeWholeRows(all0: seq<CoreRange>, s0: CoreCoord, leftover0: nat, numX: nat,
                       ghost grid: CoreCoord, ghost from: nat, ghost done: nat)
    returns (all: seq<CoreRange>, s: CoreCoord, leftover: nat)
    requires numX == grid.x && s0.x < numX && (s0.x == 0 || leftover0 <= numX - s0.x)
    requires Flatten(true, all0) == Stretch(true, grid, from, done)
    requires IndexOf(true, grid, s0) == from + done
    ensures |all| <= |all0| + 1 && leftover <= leftover0
    ensures s.x + leftover <= numX && s.x < numX
    ensures Flatten(true, all) == Stretch(true, grid, from, done + (leftover0 - leftover))
    ensures IndexOf(true, grid, s) == from + done + (leftover0 - leftover)
    ensures if leftover0 <= numX then all == all0 && s == s0 && leftover == leftover0
            else s.x == 0 && s0.y < s.y && leftover < numX && all == all0 + [Corners(s0, CoreCoord(numX - 1, s.y - 1))]
  {
    hide Size, IndexOf, Stretch, Flatten;
    if leftover0 > numX {
      var fullRows := leftover0 / numX;
      FullLines(leftover0, numX);
      var cr: CoreRange := Corners(s0, CoreCoord(numX - 1, s0.y + fullRows - 1));
      WholeLines(true, grid, all0, from, done, leftover0, fullRows, cr);
      all := all0 + [cr];
      leftover := leftover0 - Size(cr);
      s := CoreCoord(0, s0.y + fullRows);
    } else {
      all, s, leftover := all0, s0, leftover0;
    }
  }

  /** The column-wise branch. */
  method FillCols(start: CoreCoord, target: nat, grid: CoreCoord) returns (all: seq<CoreRange>)
    requires InGrid(grid, start)
    ensures |all| <= 3 && Reduced(all)
    ensures Flatten(false, all) == Stretch(false, grid, IndexOf(false, grid, start), target)
  {
    hide Size, Flatten, Stretch, Reduced;
    var numY := grid.y;
    all := [];
    var leftover: nat := target;
    var s := start;
    ghost var from := IndexOf(false, grid, start);
    FlatStart(false, grid, from);
    if s.y != 0 && leftover > numY - start.y {
      var cr: CoreRange := Corners(s, CoreCoord(s.x, numY - 1));
      LineSize(false, cr);
      Extend(false, grid, all, from, 0, cr);
      all := all + [cr];
      s := CoreCoord(s.x + 1, 0);
      leftover := leftover - Size(cr);
      NextLine(start.x, start.y, numY);
    }
    ghost var done := target - leftover;
    all, s, leftover := TakeWholeCols(all, s, leftover, numY, grid, from, done);
    done := target - leftover;
    if leftover > 0 {
      var cr: CoreRange := Corners(s, CoreCoord(s.x, s.y + leftover - 1));
      LineSize(false, cr);
      Extend(false, grid, all, from, done, cr);
      all := all + [cr];
    }
    SteppedIsReduced(false, all);
  }

  /** The whole lines, if more than one line is left to fill. */
  method TakeWholeCols(all0: seq<CoreRange>, s0: CoreCoord, leftover0: nat, numY: nat,
                       ghost grid: CoreCoord, ghost from: nat, ghost done: nat)
    returns (all: seq<CoreRange>, s: CoreCoord, leftover: nat)
    requires numY == grid.y && s0.y < numY && (s0.y == 0 || leftover0 <= numY - s0.y)
    requires Flatten(false, all0) == Stretch(false, grid, from, done)
    requires IndexOf(false, grid, s0) == from + done
    ensures |all| <= |all0| + 1 && leftover <= leftover0
    ensures s.y + leftover <= numY && s.y < numY
    ensures Flatten(false, all) == Stretch(false, grid, from, done + (leftover0 - leftover))
    ensures IndexOf(false, grid, s) == from + done + (leftover0 - leftover)
    ensures if leftover0 <= numY then all == all0 && s == s0 && leftover == leftover0
            else s.y == 0 && s0.x < s.x && leftover < numY && all == all0 + [Corners(s0, CoreCoord(s.x - 1, numY - 1))]
  {
    hide Size, IndexOf, Stretch, Flatten;
    if leftover0 > numY {
      var fullCols := leftover0 / numY;
      FullLines(leftover0, numY);
      var cr: CoreRange := Corners(s0, CoreCoord(s0.x + fullCols - 1, numY - 1));
      WholeLines(false, grid, all0, from, done, leftover0, fullCols, cr);
      all := all0 + [cr];
      leftover := leftover0 - Size(cr);
      s := CoreCoord(s0.x + fullCols, 0);
    } else {
      all, s, leftover := all0, s0, leftover0;
    }
  }

  lemma WholeLines(rowWise: bool, grid: CoreCoord, all: seq<CoreRange>, from: nat, done: nat, leftover: nat,
                   lines: nat, r: CoreRange)
    requires LineLength(rowWise, grid) > 0
    requires leftover > LineLength(rowWise, grid) && lines == leftover / LineLength(rowWise, grid)
    requires Minor(rowWise, r.start) == 0 && Minor(rowWise, r.end) == LineLength(rowWise, grid) - 1
    requires Major(rowWise, r.end) == Major(rowWise, r.start) + lines - 1
    requires Flatten(rowWise, all) == Stretch(rowWise, grid, from, done)
    requires IndexOf(rowWise, grid, r.start) == from + done
    ensures Size(r) <= leftover < Size(r) + LineLength(rowWise, grid)
    ensures Flatten(rowWise, all + [r]) == Stretch(rowWise, grid, from, done + Size(r))
    ensures IndexOf(rowWise, grid, At(rowWise, Major(rowWise, r.start) + lines, 0)) == from + done + Size(r)
  {
    hide Size, Flatten, Stretch, IndexOf;
    var n := LineLength(rowWise, grid);
    DivModSplit(leftover, n);
    BlockSize(rowWise, r, lines, n);
    Extend(rowWise, grid, all, from, done, r);
    MulDistribute(Major(rowWise, r.start), lines, n);
    IndexOfAt(rowWise, grid, Major(rowWise, r.start), 0);
    IndexOfAt(rowWise, grid, Major(rowWise, r.start) + lines, 0);
  }

  lemma LineSize(rowWise: bool, r: CoreRange)
    requires Major(rowWise, r.start) == Major(rowWise, r.end)
    ensures Size(r) == Minor(rowWise, r.end) - Minor(rowWise, r.start) + 1
  {
  }

  lemma BlockSize(rowWise: bool, r: CoreRange, lines: nat, n: nat)
    requires Major(rowWise, r.end) == Major(rowWise, r.start) + lines - 1
    requires Minor(rowWise, r.start) == 0 && Minor(rowWise, r.end) == n - 1
    ensures Size(r) == lines * n
  {
  }

  lemma AvailableFormula(rowWise: bool, grid: CoreCoord, start: CoreCoord)
    requires InGrid(grid, start)
    ensures Available(rowWise, grid, start)
         == (Major(rowWise, grid) - 1 - Major(rowWise, start)) * LineLength(rowWise, grid)
            + (LineLength(rowWise, grid) - Minor(rowWise, start))
    ensures Available(rowWise, grid, start) > 0
  {
    var n := LineLength(rowWise, grid);
    assert grid.x * grid.y == Major(rowWise, grid) * n;
    CoreAtIndexOf(rowWise, grid, start);
    MulDistribute(Major(rowWise, grid) - 1 - Major(rowWise, start), 1 + Major(rowWise, start), n);
    MulDistribute(1, Major(rowWise, start), n);
  }

  lemma NextLine(line: nat, place: nat, n: nat)
    requires place < n
    ensures (line + 1) * n == line * n + place + (n - place)
  {
  }

  lemma FullLines(leftover: nat, n: nat)
    requires leftover > n > 0
    ensures leftover / n >= 1
    ensures leftover - (leftover / n) * n < n
  {
    DivModSplit(leftover, n);
  }

  // ----- split_work_to_cores

  datatype Split = Split(numCores: nat, allCores: CoreRangeSet, group1: CoreRangeSet, group2: CoreRangeSet,
                         units1: nat, units2: nat)

  /** What the caller is promised about a division of `units` over a grid. */
  ghost predicate FairSplit(rowWise: bool, grid: CoreCoord, units: nat, s: Split)
    requires LineLength(rowWise, grid) > 0
  {
    && s.numCores == Min(units, grid.x * grid.y)
    && Flatten(rowWise, s.allCores) == Stretch(rowWise, grid, 0, s.numCores)
    // group 1 is the first part of the cores used, group 2 is the rest
    && Flatten(rowWise, s.group1) + Flatten(rowWise, s.group2) == Flatten(rowWise, s.allCores)
    // every unit is given out, and no core has two more than another
    && |Flatten(rowWise, s.group1)| * s.units1 + |Flatten(rowWise, s.group2)| * s.units2 == units
    && (s.group2 != [] ==> s.units1 == s.units2 + 1)
    // groups are empty only where there is nothing to give out, and then have no share
    && (s.group1 == [] <==> s.numCores == 0)
    && (s.group1 == [] ==> s.units1 == 0)
    && (s.group2 == [] ==> s.units2 == 0)
    && Reduced(s.allCores) && Reduced(s.group1) && Reduced(s.group2)
  }

  lemma {:induction false} LastListed(rowWise: bool, rs: seq<CoreRange>)
    requires rs != []
    ensures Flatten(rowWise, rs) != []
    ensures Flatten(rowWise, rs)[|Flatten(rowWise, rs)| - 1] == rs[|rs| - 1].end
  {
    hide Listed;
    LastOfRange(rowWise, rs[|rs| - 1]);
  }

  lemma LastOfRange(rowWise: bool, r: CoreRange)
    ensures Listed(rowWise, r) != [] && Listed(rowWise, r)[|Listed(rowWise, r)| - 1] == r.end
  {
    hide Size, Listed;
    var n := RangeMinor(rowWise, r);
    SizeByLines(rowWise, r);
    ListedNext(rowWise, r, Lines(rowWise, r) - 1, n - 1);
    MulDistribute(Lines(rowWise, r) - 1, 1, n);
  }

  /** The place after the last core of a listing that is a stretch from the origin. */
  lemma NextPlace(rowWise: bool, grid: CoreCoord, rs: seq<CoreRange>, count: nat)
    requires 0 < count <= grid.x * grid.y && LineLength(rowWise, grid) > 0
    requires Flatten(rowWise, rs) == Stretch(rowWise, grid, 0, count)
    ensures rs != [] && InGrid(grid, rs[|rs| - 1].end)
    ensures IndexOf(rowWise, grid, rs[|rs| - 1].end) == count - 1
  {
    hide Size, IndexOf;
    assert rs != [];
    LastListed(rowWise, rs);
    IndexOfCoreAt(rowWise, grid, count - 1);
  }

  lemma CornerOfGrid(rowWise: bool, grid: CoreCoord, c: CoreCoord)
    requires InGrid(grid, c) && IndexOf(rowWise, grid, c) == grid.x * grid.y - 1
    ensures c == CoreCoord(grid.x - 1, grid.y - 1)
  {
    var n, lines := LineLength(rowWise, grid), Major(rowWise, grid);
    LastPlace(Major(rowWise, c), Minor(rowWise, c), lines, n);
  }

  lemma LastPlace(line: nat, place: nat, lines: nat, n: nat)
    requires line < lines && place < n && line * n + place == lines * n - 1
    ensures line == lines - 1 && place == n - 1
  {
    MulDistribute(lines - 1, 1, n);
    if line < lines - 1 {
      MulMono(line + 1, lines - 1, n);
      MulDistribute(line, 1, n);
    }
  }

  /** The cores after `last`, as the uneven branches of `split_work_to_cores` cut them into rectangles. */
  ghost predicate IsRest(rowWise: bool, grid: CoreCoord, last: CoreCoord, rest: seq<CoreRange>)
    requires InGrid(grid, last)
  {
    var done := IndexOf(rowWise, grid, last) + 1;
    done <= grid.x * grid.y && Flatten(rowWise, rest) == Stretch(rowWise, grid, done, grid.x * grid.y - done)
  }

  /** The rest of the line of `last`, when it is not the last of its line. */
  lemma RestOfLine(rowWise: bool, grid: CoreCoord, last: CoreCoord, r: CoreRange)
    requires InGrid(grid, last) && Minor(rowWise, last) < LineLength(rowWise, grid) - 1
    requires r == Corners(At(rowWise, Major(rowWise, last), Minor(rowWise, last) + 1),
                          At(rowWise, Major(rowWise, last), LineLength(rowWise, grid) - 1))
    ensures Flatten(rowWise, [r]) == Stretch(rowWise, grid, IndexOf(rowWise, grid, last) + 1, Size(r))
    ensures Size(r) == LineLength(rowWise, grid) - 1 - Minor(rowWise, last)
  {
    var done := IndexOf(rowWise, grid, last) + 1;
    LineSize(rowWise, r);
    assert [] + [r] == [r] && Stretch(rowWise, grid, done, 0) == [];
    Extend(rowWise, grid, [], done, 0, r);
  }

  /** The lines after the line of `last`. */
  lemma LaterLines(rowWise: bool, grid: CoreCoord, last: CoreCoord, front: seq<CoreRange>, r: CoreRange)
    requires InGrid(grid, last) && Major(rowWise, last) < Major(rowWise, grid) - 1
    requires r == Corners(At(rowWise, Major(rowWise, last) + 1, 0), CoreCoord(grid.x - 1, grid.y - 1))
    requires Flatten(rowWise, front)
          == Stretch(rowWise, grid, IndexOf(rowWise, grid, last) + 1,
                     LineLength(rowWise, grid) - 1 - Minor(rowWise, last))
    ensures IsRest(rowWise, grid, last, front + [r])
  {
    hide Size, IndexOf, Flatten, Stretch, IsRest;
    var n, line, place := LineLength(rowWise, grid), Major(rowWise, last), Minor(rowWise, last);
    var lines := Major(rowWise, grid);
    var done := IndexOf(rowWise, grid, last) + 1;
    assert At(rowWise, line, place) == last;
    IndexOfAt(rowWise, grid, line, place);
    IndexOfAt(rowWise, grid, line + 1, 0);
    BlockSize(rowWise, r, lines - 1 - line, n);
    LinesLeft(line, place, n, lines);
    GridSize(rowWise, grid);
    Extend(rowWise, grid, front, done, n - 1 - place, r);
    RestIs(rowWise, grid, last, front + [r], n - 1 - place + Size(r));
  }

  lemma RestIs(rowWise: bool, grid: CoreCoord, last: CoreCoord, rest: seq<CoreRange>, count: nat)
    requires InGrid(grid, last)
    requires Flatten(rowWise, rest) == Stretch(rowWise, grid, IndexOf(rowWise, grid, last) + 1, count)
    requires IndexOf(rowWise, grid, last) + 1 + count == grid.x * grid.y
    ensures IsRest(rowWise, grid, last, rest)
  {
    hide IndexOf, Stretch, Flatten;
  }

  lemma IndexOfAt(rowWise: bool, grid: CoreCoord, line: nat, place: nat)
    ensures IndexOf(rowWise, grid, At(rowWise, line, place)) == line * LineLength(rowWise, grid) + place
  {
  }

  lemma GridSize(rowWise: bool, grid: CoreCoord)
    ensures grid.x * grid.y == Major(rowWise, grid) * LineLength(rowWise, grid)
  {
  }

  lemma LinesLeft(line: nat, place: nat, n: nat, lines: nat)
    requires place < n && line < lines
    ensures line * n + place + 1 + (n - 1 - place) == (line + 1) * n
    ensures (line + 1) * n + (lines - 1 - line) * n == lines * n
  {
    MulDistribute(line, 1, n);
    MulDistribute(line + 1, lines - 1 - line, n);
  }

  lemma RestOfLastLine(rowWise: bool, grid: CoreCoord, last: CoreCoord, r: CoreRange)
    requires InGrid(grid, last) && Minor(rowWise, last) < LineLength(rowWise, grid) - 1
    requires Major(rowWise, last) == Major(rowWise, grid) - 1
    requires r == Corners(At(rowWise, Major(rowWise, last), Minor(rowWise, last) + 1),
                          CoreCoord(grid.x - 1, grid.y - 1))
    ensures IsRest(rowWise, grid, last, [r])
  {
    hide IsRest, Size, Flatten, Stretch, IndexOf;
    var n, lines := LineLength(rowWise, grid), Major(rowWise, grid);
    RestOfLine(rowWise, grid, last, r);
    GridSize(rowWise, grid);
    IndexOfAt(rowWise, grid, Major(rowWise, last), Minor(rowWise, last));
    LinesLeft(lines - 1, Minor(rowWise, last), n, lines);
    RestIs(rowWise, grid, last, [r], Size(r));
  }

  /** Row-wise group 2: what is left of the grid after the last core of group 1. */
  method RestByRows(last1: CoreCoord, lastAll: CoreCoord, grid: CoreCoord) returns (rest: seq<CoreRange>)
    requires InGrid(grid, last1) && lastAll == CoreCoord(grid.x - 1, grid.y - 1) && last1 != lastAll
    ensures rest != [] && Reduced(rest) && IsRest(true, grid, last1, rest)
  {
    hide IndexOf, Size, IsRest;
    if last1.y == lastAll.y && last1.x != lastAll.x {
      rest := [Corners(CoreCoord(last1.x + 1, last1.y), lastAll)];
      RestOfLastLine(true, grid, last1, rest[0]);
    } else {
      rest := [];
      if last1.x != grid.x - 1 {
        var cr: CoreRange := Corners(CoreCoord(last1.x + 1, last1.y), CoreCoord(grid.x - 1, last1.y));
        RestOfLine(true, grid, last1, cr);
        rest := rest + [cr];
      }
      var cr: CoreRange := Corners(CoreCoord(0, last1.y + 1), lastAll);
      LaterLines(true, grid, last1, rest, cr);
      rest := rest + [cr];
    }
    SteppedIsReduced(true, rest);
  }

  method RestByCols(last1: CoreCoord, lastAll: CoreCoord, grid: CoreCoord) returns (rest: seq<CoreRange>)
    requires InGrid(grid, last1) && lastAll == CoreCoord(grid.x - 1, grid.y - 1) && last1 != lastAll
    ensures rest != [] && Reduced(rest) && IsRest(false, grid, last1, rest)
  {
    hide IndexOf, Size, IsRest;
    if last1.x == lastAll.x && last1.y != lastAll.y {
      rest := [Corners(CoreCoord(last1.x, last1.y + 1), lastAll)];
      RestOfLastLine(false, grid, last1, rest[0]);
    } else {
      rest := [];
      if last1.y != grid.y - 1 {
        var cr: CoreRange := Corners(CoreCoord(last1.x, last1.y + 1), CoreCoord(last1.x, grid.y - 1));
        RestOfLine(false, grid, last1, cr);
        rest := rest + [cr];
      }
      var cr: CoreRange := Corners(CoreCoord(last1.x + 1, 0), lastAll);
      LaterLines(false, grid, last1, rest, cr);
      rest := rest + [cr];
    }
    SteppedIsReduced(false, rest);
  }

  /** The cores that do less work, when the whole grid is in use and the first `extra` cores do more. */
  method SecondGroup(group1: CoreRangeSet, all: CoreRangeSet, extra: nat, grid: CoreCoord, rowWise: bool)
    returns (group2: CoreRangeSet)
    requires LineLength(rowWise, grid) > 0 && 0 < extra < grid.x * grid.y
    requires Flatten(rowWise, group1) == Stretch(rowWise, grid, 0, extra)
    requires Flatten(rowWise, all) == Stretch(rowWise, grid, 0, grid.x * grid.y)
    ensures group2 != [] && Reduced(group2)
    ensures Flatten(rowWise, group2) == Stretch(rowWise, grid, extra, grid.x * grid.y - extra)
  {
    hide Size, IndexOf, CoreAt, Reduced, Merge, Intersects;
    NextPlace(rowWise, grid, group1, extra);
    NextPlace(rowWise, grid, all, grid.x * grid.y);
    var last1, lastAll := group1[|group1| - 1].end, all[|all| - 1].end;
    CornerOfGrid(rowWise, grid, lastAll);
    var rest;
    if rowWise {
      rest := RestByRows(last1, lastAll, grid);
    } else {
      rest := RestByCols(last1, lastAll, grid);
    }
    StretchDistinct(rowWise, grid, extra, grid.x * grid.y - extra);
    NoDuplicatesIffDisjoint(rowWise, rest);
    var made := Construct(rest);
    group2 := made.value;
  }

  method SplitWorkToCores(grid: CoreCoord, units: nat, rowWise: bool) returns (r: Result<Split>)
    ensures r.Ok? <==> grid.x > 0 && grid.y > 0
    ensures r.Ok? ==> FairSplit(rowWise, grid, units, r.value)
  {
    hide Size, Flatten, IndexOf, CoreAt, FairSplit, Stretch;
    var target := Min(units, grid.x * grid.y);
    FromOrigin(rowWise, grid);
    var all := NumCoresFromOrigin(target, grid, rowWise);
    if all.Fatal? {
      return Fatal;
    }
    var group1: CoreRangeSet, group2: CoreRangeSet := [], [];
    var units1: nat, units2: nat := if target == 0 then 0 else units / target, 0;
    SharesAddUp(units, target);
    if target == 0 || units % target == 0 {
      group1 := all.value;
    } else {
      var extra := units % target;
      var some := NumCoresFromOrigin(extra, grid, rowWise);
      group1 := some.value;
      WholeGridInUse(units, grid.x * grid.y);
      group2 := SecondGroup(group1, all.value, extra, grid, rowWise);
      units2 := units1;
      units1 := units1 + 1;
    }
    r := Ok(Split(target, all.value, group1, group2, units1, units2));
    SplitIsFair(rowWise, grid, units, r.value);
  }

  lemma WholeGridInUse(units: nat, cores: nat)
    requires cores > 0 && Min(units, cores) > 0 && units % Min(units, cores) != 0
    ensures Min(units, cores) == cores
  {
  }

  lemma SplitIsFair(rowWise: bool, grid: CoreCoord, units: nat, s: Split)
    requires grid.x > 0 && grid.y > 0 && s.numCores == Min(units, grid.x * grid.y)
    requires Flatten(rowWise, s.allCores) == Stretch(rowWise, grid, 0, s.numCores)
    requires Reduced(s.allCores) && Reduced(s.group1) && Reduced(s.group2)
    requires if s.numCores == 0 || units % s.numCores == 0 then
               s.group1 == s.allCores && s.group2 == [] && s.units2 == 0
               && s.units1 == (if s.numCores == 0 then 0 else units / s.numCores)
             else
               && Flatten(rowWise, s.group1) == Stretch(rowWise, grid, 0, units % s.numCores)
               && Flatten(rowWise, s.group2) == Stretch(rowWise, grid, units % s.numCores,
                                                        s.numCores - units % s.numCores)
               && s.units1 == units / s.numCores + 1 && s.units2 == units / s.numCores
    ensures FairSplit(rowWise, grid, units, s)
  {
    hide Flatten, CoreAt, Stretch, Reduced;
    FlatNothing(rowWise, s.group1);
    MulPositive(grid.x, grid.y);
    NothingFlat(rowWise);
    var n := s.numCores;
    StretchLength(rowWise, grid, 0, n);
    if n > 0 && units % n != 0 {
      var extra := units % n;
      StretchLength(rowWise, grid, 0, extra);
      StretchLength(rowWise, grid, extra, n - extra);
      StretchConcat(rowWise, grid, 0, extra, n - extra);
      SharesAddUp(units, n);
    } else {
      SharesAddUp(units, n);
      NothingShared(s.units2);
    }
  }

  lemma FlatNothing(rowWise: bool, rs: seq<CoreRange>)
    ensures |Flatten(rowWise, rs)| == 0 <==> rs == []
  {
    if rs != [] {
      LastListed(rowWise, rs);
    }
  }

  lemma NothingShared(share: nat)
    ensures 0 * share == 0
  {
  }

  lemma StretchLength(rowWise: bool, grid: CoreCoord, from: nat, count: nat)
    requires LineLength(rowWise, grid) > 0
    ensures |Stretch(rowWise, grid, from, count)| == count
  {
  }

  lemma FromOrigin(rowWise: bool, grid: CoreCoord)
    ensures IndexOf(rowWise, grid, CoreCoord(0, 0)) == 0
    ensures grid.x > 0 && grid.y > 0 ==> grid.x * grid.y > 0
  {
  }

  lemma SharesAddUp(units: nat, cores: nat)
    requires cores == 0 ==> units == 0
    ensures cores > 0 && units % cores == 0 ==> cores * (units / cores) == units
    ensures cores > 0 && units % cores != 0 ==>
      (units % cores) * (units / cores + 1) + (cores - units % cores) * (units / cores) == units
  {
    if cores > 0 {
      DivModSplit(units, cores);
      MulDistribute(units % cores, cores - units % cores, units / cores);
      MulDistribute(units / cores, 1, units % cores);
    }
  }

  /** In terms of cells: the groups do not overlap, together they are the cores used, and sizes give the counts. */
  lemma SplitPartitionsCores(rowWise: bool, grid: CoreCoord, units: nat, s: Split)
    requires LineLength(rowWise, grid) > 0 && FairSplit(rowWise, grid, units, s)
    ensures CellsOf(s.group1) !! CellsOf(s.group2)
    ensures CellsOf(s.group1) + CellsOf(s.group2) == CellsOf(s.allCores)
    ensures |CellsOf(s.group1)| * s.units1 + |CellsOf(s.group2)| * s.units2 == units
    ensures |CellsOf(s.allCores)| == s.numCores
  {
    FlattenIsCells(rowWise, s.group1);
    FlattenIsCells(rowWise, s.group2);
    FlattenIsCells(rowWise, s.allCores);
    TotalSizeIsCardinality(s.group1);
    TotalSizeIsCardinality(s.group2);
    TotalSizeIsCardinality(s.allCores);
    NoDuplicatesIffDisjoint(rowWise, s.allCores);
    NoDuplicatesConcat(Flatten(rowWise, s.group1), Flatten(rowWise, s.group2));
  }

  // ----- the result as a set of cells, and as a list

  lemma InStretch(rowWise: bool, grid: CoreCoord, from: nat, count: nat, c: CoreCoord)
    requires LineLength(rowWise, grid) > 0 && from + count <= grid.x * grid.y
    ensures c in Stretch(rowWise, grid, from, count)
       <==> InGrid(grid, c) && from <= IndexOf(rowWise, grid, c) < from + count
  {
    hide IndexOf, CoreAt;
    var s := Stretch(rowWise, grid, from, count);
    if InGrid(grid, c) && from <= IndexOf(rowWise, grid, c) < from + count {
      CoreAtIndexOf(rowWise, grid, c);
      assert s[IndexOf(rowWise, grid, c) - from] == c;
    }
    if i :| 0 <= i < count && s[i] == c {
      IndexOfCoreAt(rowWise, grid, from + i);
    }
  }

  /** The cells returned by `NumCoresToCoreRangeSet` are those at places start, start+1, ... of the fill order. */
  lemma StretchAsCells(rowWise: bool, grid: CoreCoord, start: CoreCoord, target: nat, rs: CoreRangeSet)
    requires InGrid(grid, start) && target <= Available(rowWise, grid, start)
    requires Flatten(rowWise, rs) == Stretch(rowWise, grid, IndexOf(rowWise, grid, start), target)
    ensures |CellsOf(rs)| == target
    ensures forall c :: c in CellsOf(rs) <==>
      InGrid(grid, c) && IndexOf(rowWise, grid, start) <= IndexOf(rowWise, grid, c) < IndexOf(rowWise, grid, start)
      + target
  {
    hide Size, IndexOf, CoreAt, Flatten, CellsOf;
    FlattenIsCells(rowWise, rs);
    TotalSizeIsCardinality(rs);
    forall c
      ensures c in CellsOf(rs) <==>
        InGrid(grid, c) && IndexOf(rowWise, grid, start) <= IndexOf(rowWise, grid, c) < IndexOf(rowWise, grid, start)
        + target
    {
      InStretch(rowWise, grid, IndexOf(rowWise, grid, start), target, c);
      assert c in CellsOf(rs) <==> c in Flatten(rowWise, rs);
    }
  }
}
