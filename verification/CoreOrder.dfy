/**
 The two fill orders of a grid (row by row, column by column), the cores of a rectangle listed in
 either order, and `grid_to_cores` / `corerange_to_cores`, which list them.
 */
module CoreOrder {
  import opened Outcomes
  import opened Arith
  import opened CoreRanges
  import opened CoreRangeSets
  import opened Collections

  /** The coordinate in line `major` (a row if `rowWise`, else a column) at place `minor` of that line. */
  function At(rowWise: bool, major: nat, minor: nat): CoreCoord
  {
    if rowWise then CoreCoord(minor, major) else CoreCoord(major, minor)
  }

  function Major(rowWise: bool, c: CoreCoord): nat { if rowWise then c.y else c.x }
  function Minor(rowWise: bool, c: CoreCoord): nat { if rowWise then c.x else c.y }

  /** How many cores one line of the grid has in the fill order. */
  function LineLength(rowWise: bool, grid: CoreCoord): nat { Minor(rowWise, grid) }

  predicate InGrid(grid: CoreCoord, c: CoreCoord)
  {
    c.x < grid.x && c.y < grid.y
  }

  /** The place of a core in the fill order of a grid. */
  function IndexOf(rowWise: bool, grid: CoreCoord, c: CoreCoord): nat
  {
    Major(rowWise, c) * LineLength(rowWise, grid) + Minor(rowWise, c)
  }

  /** The `i`-th core of the grid in the fill order. */
  function CoreAt(rowWise: bool, grid: CoreCoord, i: nat): CoreCoord
    requires LineLength(rowWise, grid) > 0
  {
    At(rowWise, i / LineLength(rowWise, grid), i % LineLength(rowWise, grid))
  }

  lemma {:induction false} IndexOfCoreAt(rowWise: bool, grid: CoreCoord, i: nat)
    requires i < grid.x * grid.y
    ensures LineLength(rowWise, grid) > 0
    ensures InGrid(grid, CoreAt(rowWise, grid, i)) && IndexOf(rowWise, grid, CoreAt(rowWise, grid, i)) == i
  {
    var n := LineLength(rowWise, grid);
    assert Major(rowWise, grid) * n == grid.x * grid.y;
    assert n != 0;
    DivInRange(i, Major(rowWise, grid), n);
    DivModSplit(i, n);
  }

  lemma {:induction false} CoreAtIndexOf(rowWise: bool, grid: CoreCoord, c: CoreCoord)
    requires InGrid(grid, c)
    ensures IndexOf(rowWise, grid, c) < grid.x * grid.y
    ensures CoreAt(rowWise, grid, IndexOf(rowWise, grid, c)) == c
  {
    var n := LineLength(rowWise, grid);
    IndexInRange(Major(rowWise, c), Minor(rowWise, c), Major(rowWise, grid), n);
    assert Major(rowWise, grid) * n == grid.x * grid.y;
    DivModUnique(IndexOf(rowWise, grid, c), Major(rowWise, c), Minor(rowWise, c), n);
  }

  /** The consecutive cores of the grid from place `from` on. */
  function Stretch(rowWise: bool, grid: CoreCoord, from: nat, count: nat): seq<CoreCoord>
    requires count > 0 ==> LineLength(rowWise, grid) > 0
  {
    seq(count, i requires 0 <= i < count => CoreAt(rowWise, grid, from + i))
  }

  // ----- listing the cores of a rectangle

  /** The corners of a rectangle in terms of lines and places. */
  function RangeMinor(rowWise: bool, r: CoreRange): nat
  {
    Minor(rowWise, r.end) - Minor(rowWise, r.start) + 1
  }

  function Lines(rowWise: bool, r: CoreRange): nat
  {
    Major(rowWise, r.end) - Major(rowWise, r.start) + 1
  }

  lemma SizeByLines(rowWise: bool, r: CoreRange)
    ensures Size(r) == Lines(rowWise, r) * RangeMinor(rowWise, r)
  {
  }

  /** The cores of a rectangle, line by line. */
  function Listed(rowWise: bool, r: CoreRange): (s: seq<CoreCoord>)
    ensures |s| == Size(r)
  {
    seq(Size(r), i requires 0 <= i < Size(r) =>
      At(rowWise, Major(rowWise, r.start) + i / RangeMinor(rowWise, r),
         Minor(rowWise, r.start) + i % RangeMinor(rowWise, r)))
  }

  lemma ListedInside(rowWise: bool, r: CoreRange, i: nat)
    requires i < Size(r)
    ensures HasCell(r, Listed(rowWise, r)[i])
  {
    hide Size;
    var n := RangeMinor(rowWise, r);
    SizeByLines(rowWise, r);
    DivInRange(i, Lines(rowWise, r), n);
    AtInRange(rowWise, r, i / n, i % n);
  }

  lemma AtInRange(rowWise: bool, r: CoreRange, line: nat, place: nat)
    ensures HasCell(r, At(rowWise, Major(rowWise, r.start) + line, Minor(rowWise, r.start) + place))
       <==> line < Lines(rowWise, r) && place < RangeMinor(rowWise, r)
  {
  }

  lemma ListedDistinct(rowWise: bool, r: CoreRange, i: nat, j: nat)
    requires i < j < Size(r)
    ensures Listed(rowWise, r)[i] != Listed(rowWise, r)[j]
  {
    hide Size;
    PlacesDiffer(i, j, RangeMinor(rowWise, r));
  }

  lemma PlacesDiffer(i: nat, j: nat, n: nat)
    requires i != j && n > 0
    ensures i / n != j / n || i % n != j % n
  {
    DivModSplit(i, n);
    DivModSplit(j, n);
  }

  lemma CellListed(rowWise: bool, r: CoreRange, c: CoreCoord)
    requires HasCell(r, c)
    ensures c in Listed(rowWise, r)
  {
    var q, p := Major(rowWise, c) - Major(rowWise, r.start), Minor(rowWise, c) - Minor(rowWise, r.start);
    ListedNext(rowWise, r, q, p);
    assert Listed(rowWise, r)[q * RangeMinor(rowWise, r) + p] == c;
  }

  lemma {:induction false} ListedIsCells(rowWise: bool, r: CoreRange)
    ensures forall c :: c in Listed(rowWise, r) <==> HasCell(r, c)
    ensures NoDuplicates(Listed(rowWise, r))
  {
    forall c
      ensures c in Listed(rowWise, r) <==> HasCell(r, c)
    {
      if HasCell(r, c) {
        CellListed(rowWise, r, c);
      }
      if i :| 0 <= i < |Listed(rowWise, r)| && Listed(rowWise, r)[i] == c {
        ListedInside(rowWise, r, i);
      }
    }
    forall i, j | 0 <= i < j < |Listed(rowWise, r)|
      ensures Listed(rowWise, r)[i] != Listed(rowWise, r)[j]
    {
      ListedDistinct(rowWise, r, i, j);
    }
  }

  /** `p` ends in a line before `q` starts, and does not cover the same places of its lines. */
  predicate Steps(rowWise: bool, p: CoreRange, q: CoreRange)
  {
    && Major(rowWise, p.end) < Major(rowWise, q.start)
    && (Minor(rowWise, p.start) != Minor(rowWise, q.start) || Minor(rowWise, p.end) != Minor(rowWise, q.end))
  }

  ghost predicate Stepped(rowWise: bool, rs: seq<CoreRange>)
  {
    forall i, j :: 0 <= i < j < |rs| ==> Steps(rowWise, rs[i], rs[j])
  }

  lemma SteppedIsReduced(rowWise: bool, rs: seq<CoreRange>)
    requires Stepped(rowWise, rs)
    ensures Reduced(rs)
  {
    forall i, j | 0 <= i < j < |rs|
      ensures Merge(rs[i], rs[j]).None? && Merge(rs[j], rs[i]).None?
    {
      StepsDoNotMerge(rowWise, rs[i], rs[j]);
    }
  }

  lemma StepsDoNotMerge(rowWise: bool, p: CoreRange, q: CoreRange)
    requires Steps(rowWise, p, q)
    ensures Merge(p, q).None? && Merge(q, p).None?
  {
  }

  lemma NoStretch(rowWise: bool, grid: CoreCoord)
    ensures Stretch(rowWise, grid, 0, 0) == []
  {
  }

  lemma StretchNext(rowWise: bool, grid: CoreCoord, i: nat)
    requires LineLength(rowWise, grid) > 0
    ensures Stretch(rowWise, grid, 0, i + 1) == Stretch(rowWise, grid, 0, i) + [CoreAt(rowWise, grid, i)]
    ensures CoreAt(rowWise, grid, i)
          == if rowWise then CoreCoord(i % grid.x, i / grid.x) else CoreCoord(i / grid.y, i % grid.y)
  {
  }

  /** `grid_to_cores(num_cores, grid_size_x, grid_size_y, row_wise)`, which divides by the length of a line. */
  method GridToCores(numCores: nat, gridX: nat, gridY: nat, rowWise: bool) returns (cores: seq<CoreCoord>)
    requires numCores > 0 ==> LineLength(rowWise, CoreCoord(gridX, gridY)) > 0
    ensures cores == Stretch(rowWise, CoreCoord(gridX, gridY), 0, numCores)
  {
    hide Stretch, CoreAt;
    cores := [];
    NoStretch(rowWise, CoreCoord(gridX, gridY));
    if rowWise {
      for i := 0 to numCores
        invariant cores == Stretch(rowWise, CoreCoord(gridX, gridY), 0, i)
      {
        DivNonNegative(i, gridX);
        StretchNext(rowWise, CoreCoord(gridX, gridY), i);
        cores := cores + [CoreCoord(i % gridX, i / gridX)];
      }
    } else {
      for i := 0 to numCores
        invariant cores == Stretch(rowWise, CoreCoord(gridX, gridY), 0, i)
      {
        DivNonNegative(i, gridY);
        StretchNext(rowWise, CoreCoord(gridX, gridY), i);
        cores := cores + [CoreCoord(i / gridY, i % gridY)];
      }
    }
  }

  /** The cores listed are cores of the grid exactly when there are no more of them than the grid has. */
  lemma ListsGridCoresIff(rowWise: bool, grid: CoreCoord, count: nat)
    requires count > 0 ==> LineLength(rowWise, grid) > 0
    ensures (forall c :: c in Stretch(rowWise, grid, 0, count) ==> InGrid(grid, c)) <==> count <= grid.x * grid.y
  {
    var cores := Stretch(rowWise, grid, 0, count);
    MulPositive(grid.x, grid.y);
    if count <= grid.x * grid.y {
      forall c | c in cores
        ensures InGrid(grid, c)
      {
        var i :| 0 <= i < count && cores[i] == c;
        IndexOfCoreAt(rowWise, grid, i);
      }
    } else {
      var n, lines := LineLength(rowWise, grid), Major(rowWise, grid);
      assert grid.x * grid.y == lines * n;
      assert cores[lines * n] in cores;
      DivModUnique(lines * n, lines, 0, n);
    }
  }

  /** Two cores asked of a 1x1 grid: the second is outside it. */
  lemma SecondCoreIsOutside()
    ensures Stretch(true, CoreCoord(1, 1), 0, 2) == [CoreCoord(0, 0), CoreCoord(0, 1)]
    ensures !InGrid(CoreCoord(1, 1), CoreCoord(0, 1))
  {
  }

  /** `grid_to_cores(start, end, row_wise)`. */
  method RangeToCores(r: CoreRange, rowWise: bool) returns (cores: seq<CoreCoord>)
    ensures cores == Listed(rowWise, r)
  {
    hide ListedUpTo, Listed;
    cores := [];
    NothingListed(rowWise, r);
    if rowWise {
      var j := r.start.y;
      while j < r.end.y + 1
        invariant r.start.y <= j <= r.end.y + 1
        invariant ListedUpTo(rowWise, r, cores, j - r.start.y, 0)
      {
        var i := r.start.x;
        while i < r.end.x + 1
          invariant r.start.x <= i <= r.end.x + 1
          invariant ListedUpTo(rowWise, r, cores, j - r.start.y, i - r.start.x)
        {
          ListedStep(rowWise, r, cores, j - r.start.y, i - r.start.x);
          cores := cores + [CoreCoord(i, j)];
          i := i + 1;
        }
        LineDone(rowWise, r, cores, j - r.start.y);
        j := j + 1;
      }
    } else {
      var i := r.start.x;
      while i < r.end.x + 1
        invariant r.start.x <= i <= r.end.x + 1
        invariant ListedUpTo(rowWise, r, cores, i - r.start.x, 0)
      {
        var j := r.start.y;
        while j < r.end.y + 1
          invariant r.start.y <= j <= r.end.y + 1
          invariant ListedUpTo(rowWise, r, cores, i - r.start.x, j - r.start.y)
        {
          ListedStep(rowWise, r, cores, i - r.start.x, j - r.start.y);
          cores := cores + [CoreCoord(i, j)];
          j := j + 1;
        }
        LineDone(rowWise, r, cores, i - r.start.x);
        i := i + 1;
      }
    }
    AllListed(rowWise, r, cores);
  }

  lemma NothingListed(rowWise: bool, r: CoreRange)
    ensures ListedUpTo(rowWise, r, [], 0, 0)
  {
  }

  /** `cores` holds the first `lines` lines of `r` and `places` cores of the next one. */
  ghost predicate ListedUpTo(rowWise: bool, r: CoreRange, cores: seq<CoreCoord>, lines: nat, places: nat)
  {
    && |cores| == lines * RangeMinor(rowWise, r) + places
    && |cores| <= Size(r)
    && cores == Listed(rowWise, r)[..|cores|]
  }

  lemma ListedNext(rowWise: bool, r: CoreRange, line: nat, place: nat)
    requires line < Lines(rowWise, r) && place < RangeMinor(rowWise, r)
    ensures line * RangeMinor(rowWise, r) + place < Size(r)
    ensures Listed(rowWise, r)[line * RangeMinor(rowWise, r) + place]
         == At(rowWise, Major(rowWise, r.start) + line, Minor(rowWise, r.start) + place)
  {
    hide Size;
    var n := RangeMinor(rowWise, r);
    SizeByLines(rowWise, r);
    IndexInRange(line, place, Lines(rowWise, r), n);
    DivModUnique(line * n + place, line, place, n);
  }

  lemma ListedStep(rowWise: bool, r: CoreRange, cores: seq<CoreCoord>, line: nat, place: nat)
    requires line < Lines(rowWise, r) && place < RangeMinor(rowWise, r)
    requires ListedUpTo(rowWise, r, cores, line, place)
    ensures ListedUpTo(rowWise, r, cores
                       + [At(rowWise, Major(rowWise, r.start) + line, Minor(rowWise, r.start) + place)],
                       line, place + 1)
  {
    hide Size;
    ListedNext(rowWise, r, line, place);
    var k := |cores|;
    assert Listed(rowWise, r)[..k + 1] == Listed(rowWise, r)[..k] + [Listed(rowWise, r)[k]];
  }

  lemma LineDone(rowWise: bool, r: CoreRange, cores: seq<CoreCoord>, line: nat)
    requires ListedUpTo(rowWise, r, cores, line, RangeMinor(rowWise, r))
    ensures ListedUpTo(rowWise, r, cores, line + 1, 0)
  {
    hide Size;
    MulDistribute(line, 1, RangeMinor(rowWise, r));
  }

  lemma AllListed(rowWise: bool, r: CoreRange, cores: seq<CoreCoord>)
    requires ListedUpTo(rowWise, r, cores, Lines(rowWise, r), 0)
    ensures cores == Listed(rowWise, r)
  {
    SizeByLines(rowWise, r);
  }

  /** The cores of a list of rectangles, rectangle by rectangle. */
  function Flatten(rowWise: bool, rs: seq<CoreRange>): seq<CoreCoord>
  {
    if rs == [] then [] else Flatten(rowWise, rs[..|rs| - 1]) + Listed(rowWise, rs[|rs| - 1])
  }

  lemma FlattenSnoc(rowWise: bool, rs: seq<CoreRange>, r: CoreRange)
    ensures Flatten(rowWise, rs + [r]) == Flatten(rowWise, rs) + Listed(rowWise, r)
  {
    assert (rs + [r])[..|rs|] == rs;
  }

  lemma {:induction false} FlattenConcat(rowWise: bool, a: seq<CoreRange>, b: seq<CoreRange>)
    ensures Flatten(rowWise, a + b) == Flatten(rowWise, a) + Flatten(rowWise, b)
  {
    if b == [] {
      assert a + b == a;
    } else {
      var k := |b| - 1;
      assert (a + b)[..|a + b| - 1] == a + b[..k];
      FlattenConcat(rowWise, a, b[..k]);
    }
  }

  lemma {:induction false} FlattenIsCells(rowWise: bool, rs: seq<CoreRange>)
    ensures forall c :: c in Flatten(rowWise, rs) <==> c in CellsOf(rs)
    ensures |Flatten(rowWise, rs)| == TotalSize(rs)
  {
    if rs != [] {
      var k := |rs| - 1;
      FlattenIsCells(rowWise, rs[..k]);
      ListedIsCells(rowWise, rs[k]);
    }
  }

  /** Rectangles whose listing repeats no core do not overlap, so `CoreRangeSet` accepts them. */
  lemma {:induction false} NoDuplicatesIffDisjoint(rowWise: bool, rs: seq<CoreRange>)
    ensures NoDuplicates(Flatten(rowWise, rs)) <==> Disjoint(rs)
  {
    if rs != [] {
      var k := |rs| - 1;
      var front := rs[..k];
      NoDuplicatesIffDisjoint(rowWise, front);
      FlattenIsCells(rowWise, front);
      ListedIsCells(rowWise, rs[k]);
      NoDuplicatesConcat(Flatten(rowWise, front), Listed(rowWise, rs[k]));
      assert front + [rs[k]] == rs;
      if Disjoint(rs) {
        DisjointFromEarlier(rs, k);
      } else if Disjoint(front) && CellsOf(front) !! Cells(rs[k]) {
        AppendDisjoint(front, rs[k]);
      }
    }
  }

  /** `corerange_to_cores`: all the cores in order, or the first `maxCores` of them. */
  method CoreRangesToCores(rs: CoreRangeSet, maxCores: Option<nat>, rowWise: bool) returns (all: seq<CoreCoord>)
    ensures maxCores.None? ==> all == Flatten(rowWise, rs)
    ensures maxCores.Some? ==>
      all == Flatten(rowWise, rs)[..Min(maxCores.value, |Flatten(rowWise, rs)|)]
  {
    hide Listed, Flatten;
    all := [];
    NothingFlat(rowWise);
    for i := 0 to |rs|
      invariant all == Flatten(rowWise, rs[..i])
      invariant maxCores.Some? ==> |all| <= maxCores.value
    {
      var cores := RangeToCores(rs[i], rowWise);
      FlattenPrefix(rowWise, rs, i);
      if maxCores.Some? {
        if |all| + |cores| > maxCores.value {
          var toAdd := maxCores.value - |all|;
          all := all + cores[..toAdd];
          return;
        } else {
          all := all + cores;
        }
      } else {
        all := all + cores;
      }
    }
    assert rs[..|rs|] == rs;
  }

  lemma NothingFlat(rowWise: bool)
    ensures Flatten(rowWise, []) == []
  {
  }

  lemma FlattenPrefix(rowWise: bool, rs: seq<CoreRange>, i: nat)
    requires i < |rs|
    ensures rs[..0] == []
    ensures Flatten(rowWise, rs[..i + 1]) == Flatten(rowWise, rs[..i]) + Listed(rowWise, rs[i])
    ensures Flatten(rowWise, rs[..i + 1]) <= Flatten(rowWise, rs)
  {
    assert rs[..i + 1] == rs[..i] + [rs[i]];
    FlattenSnoc(rowWise, rs[..i], rs[i]);
    assert rs == rs[..i + 1] + rs[i + 1..];
    FlattenConcat(rowWise, rs[..i + 1], rs[i + 1..]);
  }
}
