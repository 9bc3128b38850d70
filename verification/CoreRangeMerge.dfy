/**
 `CoreRangeSet::merge`. Its result is determined by the covered cells alone: the rectangles are the
 blocks of the cell set, where a block stacks equal maximal row runs for as long as they repeat.
 */
module CoreRangeMerge {
  import opened Outcomes
  import opened OrderedSets
  import opened Arith
  import opened CoreRanges
  import opened CoreRangeSets

  /** Cells a..b of row y are covered, and the cells on either side are not. */
  ghost predicate IsRun(s: set<CoreCoord>, y: nat, a: nat, b: nat)
  {
    && a <= b
    && (forall x :: a <= x <= b ==> CoreCoord(x, y) in s)
    && (a > 0 ==> CoreCoord(a - 1, y) !in s)
    && CoreCoord(b + 1, y) !in s
  }

  /** Every row of `r` is the same run, and the rows above and below do not have that run. */
  ghost predicate IsBlock(s: set<CoreCoord>, r: CoreRange)
  {
    && (forall y :: r.start.y <= y <= r.end.y ==> IsRun(s, y, r.start.x, r.end.x))
    && (r.start.y > 0 ==> !IsRun(s, r.start.y - 1, r.start.x, r.end.x))
    && !IsRun(s, r.end.y + 1, r.start.x, r.end.x)
  }

  ghost function Blocks(s: set<CoreCoord>): (blocks: set<CoreRange>)
    ensures forall r :: r in blocks <==> IsBlock(s, r)
  {
    var corners := set a, b | a in s && b in s && Ordered(Corners(a, b)) :: Corners(a, b);
    var blocks := set r: CoreRange | r in corners && IsBlock(s, r);
    assert forall r: CoreRange :: IsBlock(s, r) ==> r in blocks by {
      forall r: CoreRange | IsBlock(s, r)
        ensures r in blocks
      {
        assert IsRun(s, r.start.y, r.start.x, r.end.x) && IsRun(s, r.end.y, r.start.x, r.end.x);
        assert CoreCoord(r.start.x, r.start.y) in s && CoreCoord(r.end.x, r.end.y) in s;
        assert r == Corners(r.start, r.end) && Ordered(Corners(r.start, r.end));
        assert r in corners;
      }
    }
    blocks
  }

  // ----- the blocks of a cell set partition it

  lemma Bound(s: set<CoreCoord>) returns (m: nat)
    ensures forall c :: c in s ==> c.x < m && c.y < m
  {
    if s == {} {
      m := 0;
    } else {
      var c :| c in s;
      m := Bound(s - {c});
      m := Max(m, Max(c.x, c.y) + 1);
    }
  }

  lemma RunThrough(s: set<CoreCoord>, c: CoreCoord) returns (a: nat, b: nat)
    requires c in s
    ensures a <= c.x <= b && IsRun(s, c.y, a, b)
  {
    var m := Bound(s);
    a, b := c.x, c.x;
    while a > 0 && CoreCoord(a - 1, c.y) in s
      invariant a <= c.x && forall x :: a <= x <= c.x ==> CoreCoord(x, c.y) in s
    {
      a := a - 1;
    }
    while CoreCoord(b + 1, c.y) in s
      invariant c.x <= b < m && forall x :: c.x <= x <= b ==> CoreCoord(x, c.y) in s
      decreases m - b
    {
      b := b + 1;
    }
  }

  lemma BlockThrough(s: set<CoreCoord>, c: CoreCoord) returns (r: CoreRange)
    requires c in s
    ensures IsBlock(s, r) && HasCell(r, c)
  {
    var m := Bound(s);
    var a, b := RunThrough(s, c);
    var top, bottom := c.y, c.y;
    while top > 0 && IsRun(s, top - 1, a, b)
      invariant 0 <= top <= c.y && forall y :: top <= y <= c.y ==> IsRun(s, y, a, b)
    {
      top := top - 1;
    }
    while IsRun(s, bottom + 1, a, b)
      invariant c.y <= bottom < m && forall y :: c.y <= y <= bottom ==> IsRun(s, y, a, b)
      decreases m - bottom
    {
      assert CoreCoord(a, bottom + 1) in s;
      bottom := bottom + 1;
    }
    r := Corners(CoreCoord(a, top), CoreCoord(b, bottom));
  }

  lemma RunUnique(s: set<CoreCoord>, y: nat, x: nat, a: nat, b: nat, a': nat, b': nat)
    requires IsRun(s, y, a, b) && IsRun(s, y, a', b') && a <= x <= b && a' <= x <= b'
    ensures a == a' && b == b'
  {
    RunCell(s, y, a, b, Pred(a'));
    RunCell(s, y, a', b', Pred(a));
    RunCell(s, y, a, b, b' + 1);
    RunCell(s, y, a', b', b + 1);
  }

  function Pred(n: nat): nat { if n > 0 then n - 1 else 0 }

  lemma RunCell(s: set<CoreCoord>, y: nat, a: nat, b: nat, x: nat)
    requires IsRun(s, y, a, b)
    ensures a <= x <= b ==> CoreCoord(x, y) in s
  {
  }

  lemma BlockRow(s: set<CoreCoord>, r: CoreRange, y: nat)
    requires IsBlock(s, r)
    ensures r.start.y <= y <= r.end.y ==> IsRun(s, y, r.start.x, r.end.x)
  {
  }

  lemma BlockUnique(s: set<CoreCoord>, r: CoreRange, q: CoreRange)
    requires IsBlock(s, r) && IsBlock(s, q) && Intersects(r, q)
    ensures r == q
  {
    var x, y := Max(r.start.x, q.start.x), Max(r.start.y, q.start.y);
    assert IsRun(s, y, r.start.x, r.end.x) && IsRun(s, y, q.start.x, q.end.x);
    RunUnique(s, y, x, r.start.x, r.end.x, q.start.x, q.end.x);
    BlockRow(s, r, Pred(q.start.y));
    BlockRow(s, q, Pred(r.start.y));
    BlockRow(s, r, q.end.y + 1);
    BlockRow(s, q, r.end.y + 1);
  }

  lemma BlockInside(s: set<CoreCoord>, r: CoreRange)
    requires IsBlock(s, r)
    ensures Cells(r) <= s
  {
    forall c | c in Cells(r)
      ensures c in s
    {
      assert IsRun(s, c.y, r.start.x, r.end.x);
      assert c == CoreCoord(c.x, c.y);
    }
  }

  // ----- the value of a merge

  function RangeOrder(less: (CoreCoord, CoreCoord) -> bool): (CoreRange, CoreRange) -> bool
  {
    (a: CoreRange, b: CoreRange) => less(a.start, b.start) || (a.start == b.start && less(a.end, b.end))
  }

  lemma RangeOrderIsTotal(less: (CoreCoord, CoreCoord) -> bool)
    requires StrictTotalOrder(less)
    ensures StrictTotalOrder(RangeOrder(less))
  {
  }

  /** The blocks of `s`, in the order in which `std::set<CoreRange>` lists them. */
  ghost function Canonical(less: (CoreCoord, CoreCoord) -> bool, s: set<CoreCoord>): (rs: CoreRangeSet)
    requires StrictTotalOrder(less)
    ensures forall r :: r in rs <==> IsBlock(s, r)
    ensures Sorted(RangeOrder(less), rs)
  {
    RangeOrderIsTotal(less);
    var rs := InOrder(RangeOrder(less), Blocks(s));
    BlocksDisjoint(less, s, rs);
    rs
  }

  lemma BlocksDisjoint(less: (CoreCoord, CoreCoord) -> bool, s: set<CoreCoord>, rs: seq<CoreRange>)
    requires StrictTotalOrder(RangeOrder(less)) && Sorted(RangeOrder(less), rs)
    requires forall r :: r in rs ==> IsBlock(s, r)
    ensures Disjoint(rs)
  {
    forall i, j | 0 <= i < j < |rs|
      ensures !Intersects(rs[i], rs[j])
    {
      assert RangeOrder(less)(rs[i], rs[j]);
      assert IsBlock(s, rs[i]) && IsBlock(s, rs[j]);
      if Intersects(rs[i], rs[j]) {
        BlockUnique(s, rs[i], rs[j]);
      }
    }
  }

  /** The result covers exactly the cells that went in. */
  lemma {:induction false} CanonicalCovers(less: (CoreCoord, CoreCoord) -> bool, s: set<CoreCoord>)
    requires StrictTotalOrder(less)
    ensures CellsOf(Canonical(less, s)) == s
  {
    var rs := Canonical(less, s);
    InCellsOf(rs);
    forall c
      ensures c in CellsOf(rs) <==> c in s
    {
      if c in s {
        var r := BlockThrough(s, c);
        assert r in rs;
      }
      if c in CellsOf(rs) {
        var i :| 0 <= i < |rs| && HasCell(rs[i], c);
        assert rs[i] in rs;
        BlockInside(s, rs[i]);
      }
    }
  }

  /** The result is listed by the start corners alone, which no two of its rectangles share. */
  lemma CanonicalByStarts(less: (CoreCoord, CoreCoord) -> bool, s: set<CoreCoord>, i: nat, j: nat)
    requires StrictTotalOrder(less) && i < j < |Canonical(less, s)|
    ensures less(Canonical(less, s)[i].start, Canonical(less, s)[j].start)
  {
    hide IsBlock, StrictTotalOrder;
    var a, b := Canonical(less, s)[i], Canonical(less, s)[j];
    assert RangeOrder(less)(a, b);
    SameStartIntersects(a, b);
  }

  lemma SameStartIntersects(p: CoreRange, q: CoreRange)
    ensures p.start == q.start ==> Intersects(p, q)
  {
  }

  /** No two rectangles of the result can be joined any further by `CoreRange::merge`. */
  lemma {:induction false} CanonicalIsReduced(less: (CoreCoord, CoreCoord) -> bool, s: set<CoreCoord>, i: nat, j: nat)
    requires StrictTotalOrder(less)
    requires i < |Canonical(less, s)| && j < |Canonical(less, s)| && i != j
    ensures Merge(Canonical(less, s)[i], Canonical(less, s)[j]).None?
  {
    hide IsBlock, Merge, RangeOrder, Intersects;
    var rs := Canonical(less, s);
    assert rs[i] in rs && rs[j] in rs;
    assert !Intersects(rs[Min(i, j)], rs[Max(i, j)]);
    IntersectsEitherWay(rs[i], rs[j]);
    BlocksDoNotMerge(s, rs[i], rs[j]);
  }

  lemma IntersectsEitherWay(p: CoreRange, q: CoreRange)
    ensures Intersects(p, q) <==> Intersects(q, p)
  {
  }

  lemma BlocksDoNotMerge(s: set<CoreCoord>, p: CoreRange, q: CoreRange)
    requires IsBlock(s, p) && IsBlock(s, q) && !Intersects(p, q)
    ensures Merge(p, q).None?
  {
    assert IsRun(s, p.start.y, p.start.x, p.end.x) && IsRun(s, p.end.y, p.start.x, p.end.x);
    assert IsRun(s, q.start.y, q.start.x, q.end.x) && IsRun(s, q.end.y, q.start.x, q.end.x);
  }

  // ----- the algorithm

  /** The cells of the rows above row `y`. */
  ghost function Above(s: set<CoreCoord>, y: nat): set<CoreCoord>
  {
    set c | c in s && c.y < y
  }

  ghost predicate IsRowRun(s: set<CoreCoord>, y: nat, r: CoreRange)
  {
    r.start.y == y && r.end.y == y && IsRun(s, y, r.start.x, r.end.x)
  }

  /** `grid` marks the cells of `s`, and has one spare column past the last of them. */
  ghost predicate Marks(grid: array2<bool>, s: set<CoreCoord>)
    reads grid
  {
    && grid.Length1 > 0
    && (forall c :: c in s ==> c.y < grid.Length0 && c.x < grid.Length1 - 1)
    && (forall y, x :: 0 <= y < grid.Length0 && 0 <= x < grid.Length1 ==>
          (grid[y, x] <==> CoreCoord(x, y) in s))
  }

  ghost predicate CoveredBy(crs: seq<CoreRange>, x: nat, y: nat)
  {
    exists k :: 0 <= k < |crs| && HasCell(crs[k], CoreCoord(x, y))
  }

  /** Marks the cells of one rectangle. */
  method PaintRange(grid: array2<bool>, cr: CoreRange)
    requires cr.end.y < grid.Length0 && cr.end.x < grid.Length1
    modifies grid
    ensures forall y, x :: 0 <= y < grid.Length0 && 0 <= x < grid.Length1 ==>
              (grid[y, x] <==> old(grid[y, x]) || HasCell(cr, CoreCoord(x, y)))
  {
    var y := cr.start.y;
    while y <= cr.end.y
      invariant cr.start.y <= y <= cr.end.y + 1
      invariant forall j, i :: 0 <= j < grid.Length0 && 0 <= i < grid.Length1 ==>
                  (grid[j, i] <==> old(grid[j, i]) || (j < y && HasCell(cr, CoreCoord(i, j))))
    {
      var x := cr.start.x;
      while x <= cr.end.x
        invariant cr.start.x <= x <= cr.end.x + 1
        invariant forall j, i :: 0 <= j < grid.Length0 && 0 <= i < grid.Length1 && j != y ==>
                    (grid[j, i] <==> old(grid[j, i]) || (j < y && HasCell(cr, CoreCoord(i, j))))
        invariant forall i :: 0 <= i < grid.Length1 ==> (grid[y, i] <==> old(grid[y, i]) || cr.start.x <= i < x)
      {
        grid[y, x] := true;
        x := x + 1;
      }
      y := y + 1;
    }
  }

  /** Marks every rectangle of `crs` on an unmarked grid. */
  method Paint(grid: array2<bool>, crs: seq<CoreRange>)
    requires forall i :: 0 <= i < |crs| ==> crs[i].end.y < grid.Length0 && crs[i].end.x < grid.Length1 - 1
    requires grid.Length1 > 0
    requires forall y, x :: 0 <= y < grid.Length0 && 0 <= x < grid.Length1 ==> !grid[y, x]
    modifies grid
    ensures Marks(grid, CellsOf(crs))
  {
    for i := 0 to |crs|
      invariant forall y, x :: 0 <= y < grid.Length0 && 0 <= x < grid.Length1 ==>
                  (grid[y, x] <==> CoveredBy(crs[..i], x, y))
    {
      label Before:
      PaintRange(grid, crs[i]);
      forall y, x | 0 <= y < grid.Length0 && 0 <= x < grid.Length1
        ensures grid[y, x] <==> CoveredBy(crs[..i + 1], x, y)
      {
        CoveredSnoc(crs, i, x, y);
        assert grid[y, x] <==> old@Before(grid[y, x]) || HasCell(crs[i], CoreCoord(x, y));
      }
    }
    assert crs[..|crs|] == crs;
    InCellsOf(crs);
    forall y, x | 0 <= y < grid.Length0 && 0 <= x < grid.Length1
      ensures grid[y, x] <==> CoreCoord(x, y) in CellsOf(crs)
    {
      assert CoveredBy(crs, x, y) <==> CoreCoord(x, y) in CellsOf(crs);
    }
  }

  lemma CoveredSnoc(crs: seq<CoreRange>, i: nat, x: nat, y: nat)
    requires i < |crs|
    ensures CoveredBy(crs[..i + 1], x, y) <==> CoveredBy(crs[..i], x, y) || HasCell(crs[i], CoreCoord(x, y))
  {
    assert forall k :: 0 <= k < i ==> crs[..i + 1][k] == crs[..i][k];
    assert crs[..i + 1][i] == crs[i];
  }

  lemma NextRun(s: set<CoreCoord>, y: nat, from: nat, x: nat)
    requires from > 0 ==> CoreCoord(from - 1, y) !in s
    requires from <= x && CoreCoord(x, y) !in s
    requires forall i :: from <= i < x ==> CoreCoord(i, y) in s
    ensures forall r :: IsRowRun(s, y, r) && from <= r.end.x <= x
                        <==> from < x && r == Corners(CoreCoord(from, y), CoreCoord(x - 1, y))
  {
    forall r | IsRowRun(s, y, r) && from <= r.end.x <= x
      ensures from < x && r.start.x == from && r.end.x == x - 1
    {
      RunCell(s, y, r.start.x, r.end.x, x);
      RunCell(s, y, r.start.x, r.end.x, Pred(from));
      RunCell(s, y, r.start.x, r.end.x, from);
    }
  }

  /** The maximal stretches of marked cells in row `y`. */
  method RowRuns(grid: array2<bool>, ghost s: set<CoreCoord>, y: nat, minX: nat) returns (ranges: seq<CoreRange>)
    requires Marks(grid, s) && y < grid.Length0
    requires forall c :: c in s ==> minX <= c.x
    ensures forall r :: r in ranges <==> IsRowRun(s, y, r)
    ensures forall i, j :: 0 <= i < j < |ranges| ==> ranges[i] != ranges[j]
  {
    ranges := [];
    var maxX := grid.Length1 - 2;
    var x := minX;
    while x <= maxX + 1
      invariant minX <= x
      invariant x > 0 ==> CoreCoord(x - 1, y) !in s
      invariant forall r :: r in ranges <==> IsRowRun(s, y, r) && r.end.x < x
      invariant forall i, j :: 0 <= i < j < |ranges| ==> ranges[i] != ranges[j]
    {
      ghost var found := ranges;
      ghost var from := x;
      if grid[y, x] {
        var xStart := x;
        while grid[y, x]
          invariant xStart <= x <= maxX + 1
          invariant forall i :: xStart <= i < x ==> CoreCoord(i, y) in s
          decreases maxX + 1 - x
        {
          x := x + 1;
        }
        ranges := ranges + [Corners(CoreCoord(xStart, y), CoreCoord(x - 1, y))];
      }
      NextRun(s, y, from, x);
      x := x + 1;
      forall r: CoreRange
        ensures r in ranges <==> IsRowRun(s, y, r) && r.end.x < x
      {
        assert r in found <==> IsRowRun(s, y, r) && r.end.x < from;
      }
    }
  }

  // ----- one row of the reconstruction

  lemma AboveRun(s: set<CoreCoord>, y: nat, row: nat, a: nat, b: nat)
    ensures IsRun(Above(s, y), row, a, b) <==> row < y && IsRun(s, row, a, b)
  {
    assert IsRun(Above(s, y), row, a, b) ==> CoreCoord(a, row) in Above(s, y);
  }

  lemma AboveBlock(s: set<CoreCoord>, y: nat, r: CoreRange)
    ensures IsBlock(Above(s, y), r) <==>
            && r.end.y < y
            && (forall row :: r.start.y <= row <= r.end.y ==> IsRun(s, row, r.start.x, r.end.x))
            && (r.start.y > 0 ==> !IsRun(s, r.start.y - 1, r.start.x, r.end.x))
            && (r.end.y + 1 < y ==> !IsRun(s, r.end.y + 1, r.start.x, r.end.x))
  {
    forall row: nat
      ensures IsRun(Above(s, y), row, r.start.x, r.end.x) <==> row < y && IsRun(s, row, r.start.x, r.end.x)
    {
      AboveRun(s, y, row, r.start.x, r.end.x);
    }
    assert IsBlock(Above(s, y), r) ==> IsRun(Above(s, y), r.end.y, r.start.x, r.end.x);
  }

  /** `p` ends right above `r` and is as wide. */
  ghost predicate Rests(r: CoreRange, p: CoreRange)
  {
    p.start.x == r.start.x && p.end.x == r.end.x && p.end.y + 1 == r.start.y
  }

  /** A row run joins exactly the block it rests under. */
  lemma JoinsIffRests(s: set<CoreCoord>, y: nat, run: CoreRange, p: CoreRange)
    requires IsRowRun(s, y, run)
    requires IsBlock(Above(s, y), p) || IsRowRun(s, y, p)
    requires p != run
    ensures Merge(run, p).Some? <==> Rests(run, p)
    ensures Rests(run, p) ==> Merge(run, p).value == Corners(p.start, run.end)
  {
    if IsBlock(Above(s, y), p) {
      AboveBlock(s, y, p);
    } else {
      RunCell(s, y, run.start.x, run.end.x, Pred(p.start.x));
      RunCell(s, y, p.start.x, p.end.x, Pred(run.start.x));
      RunCell(s, y, run.start.x, run.end.x, p.end.x + 1);
      RunCell(s, y, p.start.x, p.end.x, run.end.x + 1);
    }
  }

  ghost function Upper(q: CoreRange): CoreRange
    requires q.start.y < q.end.y
  {
    Corners(q.start, CoreCoord(q.end.x, q.end.y - 1))
  }

  ghost function BottomRow(q: CoreRange): CoreRange
  {
    Corners(CoreCoord(q.start.x, q.end.y), q.end)
  }

  ghost function RowBelow(q: CoreRange): CoreRange
  {
    Corners(CoreCoord(q.start.x, q.end.y + 1), CoreCoord(q.end.x, q.end.y + 1))
  }

  /** What the row loop has put aside once the runs `runs` have met the blocks `crs`. */
  ghost predicate JoinedSoFar(crs: set<CoreRange>, runs: seq<CoreRange>, newCrs: set<CoreRange>)
  {
    forall q :: q in newCrs <==> q.start.y < q.end.y && Upper(q) in crs && BottomRow(q) in runs
  }

  ghost predicate FilteredSoFar(crs: set<CoreRange>, runs: seq<CoreRange>, filter: set<CoreRange>)
  {
    forall f :: f in filter <==> (f in crs && RowBelow(f) in runs) || (f in runs && exists p :: p in crs && Rests(f, p))
  }

  /** Joins one run with every rectangle it can be joined with. */
  method JoinRun(less: (CoreCoord, CoreCoord) -> bool, cr: CoreRange, crs: set<CoreRange>,
                 newCrs0: set<CoreRange>, filter0: set<CoreRange>)
    returns (newCrs: set<CoreRange>, filter: set<CoreRange>)
    requires StrictTotalOrder(less)
    ensures forall q :: q in newCrs <==> q in newCrs0 || exists p :: p in crs && Merge(cr, p) == Some(q)
    ensures forall f :: f in filter <==>
              f in filter0 || (f in crs && Merge(cr, f).Some?)
              || (f == cr && exists p :: p in crs && Merge(cr, p).Some?)
  {
    newCrs, filter := newCrs0, filter0;
    RangeOrderIsTotal(less);
    var order := InOrder(RangeOrder(less), crs);
    for k := 0 to |order|
      invariant forall q :: q in newCrs <==> q in newCrs0 || exists p :: p in order[..k] && Merge(cr, p) == Some(q)
      invariant forall f :: f in filter <==>
        f in filter0 || (f in order[..k] && Merge(cr, f).Some?)
        || (f == cr && exists p :: p in order[..k] && Merge(cr, p).Some?)
    {
      assert forall p :: p in order[..k + 1] <==> p in order[..k] || p == order[k];
      var merged := Merge(cr, order[k]);
      if merged.Some? {
        newCrs := newCrs + {merged.value};
        filter := filter + {order[k], cr};
      }
    }
    assert order[..|order|] == order;
  }

  /** One iteration of the row loop: the blocks of the rows above `y` become the blocks of the rows up to `y`. */
  method AbsorbRow(less: (CoreCoord, CoreCoord) -> bool, ghost s: set<CoreCoord>, y: nat,
                   crs0: set<CoreRange>, ranges: seq<CoreRange>)
    returns (crs: set<CoreRange>)
    requires StrictTotalOrder(less)
    requires crs0 == Blocks(Above(s, y))
    requires forall r :: r in ranges <==> IsRowRun(s, y, r)
    requires forall i, j :: 0 <= i < j < |ranges| ==> ranges[i] != ranges[j]
    ensures crs == Blocks(Above(s, y + 1))
  {
    crs := crs0;
    var newCrs: set<CoreRange>, filter: set<CoreRange> := {}, {};
    for i := 0 to |ranges|
      invariant forall r :: r in crs <==> r in crs0 || r in ranges[..i]
      invariant JoinedSoFar(crs0, ranges[..i], newCrs)
      invariant FilteredSoFar(crs0, ranges[..i], filter)
    {
      ghost var newBefore, filterBefore := newCrs, filter;
      newCrs, filter := JoinRun(less, ranges[i], crs, newCrs, filter);
      MeetsBlocksOnly(s, y, crs0, ranges, i, crs);
      JoinStep(s, y, crs0, ranges, i, newBefore, newCrs);
      FilterStep(s, y, crs0, ranges, i, filterBefore, filter);
      crs := crs + {ranges[i]};
    }
    assert ranges[..|ranges|] == ranges;
    var tmp := crs - filter;
    RowResult(s, y, crs0, ranges, newCrs, filter, crs);
    crs := tmp + newCrs;
  }

  /** The runs inserted earlier in the same row never join: only the blocks above do. */
  lemma MeetsBlocksOnly(s: set<CoreCoord>, y: nat, crs0: set<CoreRange>, ranges: seq<CoreRange>, i: nat,
                        crs: set<CoreRange>)
    requires i < |ranges| && crs0 == Blocks(Above(s, y))
    requires forall r :: r in ranges <==> IsRowRun(s, y, r)
    requires forall i, j :: 0 <= i < j < |ranges| ==> ranges[i] != ranges[j]
    requires forall r :: r in crs <==> r in crs0 || r in ranges[..i]
    ensures forall p :: p in crs && Merge(ranges[i], p).Some? <==> p in crs0 && Rests(ranges[i], p)
    ensures forall p :: p in crs0 && Rests(ranges[i], p) ==>
      Merge(ranges[i], p).value == Corners(p.start, ranges[i].end)
  {
    var run := ranges[i];
    assert IsRowRun(s, y, run);
    forall p | p in crs
      ensures Merge(run, p).Some? <==> p in crs0 && Rests(run, p)
      ensures Rests(run, p) ==> Merge(run, p).value == Corners(p.start, run.end)
    {
      if p in crs0 {
        AboveBlock(s, y, p);
      } else {
        assert p in ranges;
      }
      JoinsIffRests(s, y, run, p);
    }
  }

  lemma JoinStep(s: set<CoreCoord>, y: nat, crs0: set<CoreRange>, ranges: seq<CoreRange>, i: nat,
                 before: set<CoreRange>, after: set<CoreRange>)
    requires i < |ranges| && crs0 == Blocks(Above(s, y)) && IsRowRun(s, y, ranges[i])
    requires JoinedSoFar(crs0, ranges[..i], before)
    requires forall q :: q in after <==>
        q in before || exists p :: p in crs0 && Rests(ranges[i], p) && q == Corners(p.start, ranges[i].end)
    ensures JoinedSoFar(crs0, ranges[..i + 1], after)
  {
    var run := ranges[i];
    assert forall r :: r in ranges[..i + 1] <==> r in ranges[..i] || r == run;
    forall q: CoreRange
      ensures (exists p :: p in crs0 && Rests(run, p) && q == Corners(p.start, run.end))
         <==> q.start.y < q.end.y && Upper(q) in crs0 && BottomRow(q) == run
    {
      if q.start.y < q.end.y && Upper(q) in crs0 && BottomRow(q) == run {
        assert Rests(run, Upper(q)) && q == Corners(Upper(q).start, run.end);
      }
      if p :| p in crs0 && Rests(run, p) && q == Corners(p.start, run.end) {
        AboveBlock(s, y, p);
        assert p == Upper(q);
      }
    }
  }

  lemma FilterStep(s: set<CoreCoord>, y: nat, crs0: set<CoreRange>, ranges: seq<CoreRange>, i: nat,
                   before: set<CoreRange>, after: set<CoreRange>)
    requires i < |ranges| && crs0 == Blocks(Above(s, y)) && IsRowRun(s, y, ranges[i])
    requires FilteredSoFar(crs0, ranges[..i], before)
    requires forall f :: f in after <==> f in before || (f in crs0 && Rests(ranges[i], f))
                                         || (f == ranges[i] && exists p :: p in crs0 && Rests(ranges[i], p))
    ensures FilteredSoFar(crs0, ranges[..i + 1], after)
  {
    var run := ranges[i];
    assert forall r :: r in ranges[..i + 1] <==> r in ranges[..i] || r == run;
    assert forall f: CoreRange :: Rests(run, f) <==> RowBelow(f) == run;
  }

  ghost predicate KeptAfterRow(crs0: set<CoreRange>, ranges: seq<CoreRange>, newCrs: set<CoreRange>,
                               filter: set<CoreRange>, r: CoreRange)
  {
    r in newCrs || ((r in crs0 || r in ranges) && r !in filter)
  }

  ghost predicate RowDone(s: set<CoreCoord>, y: nat, crs0: set<CoreRange>, ranges: seq<CoreRange>,
                          newCrs: set<CoreRange>, filter: set<CoreRange>)
  {
    && crs0 == Blocks(Above(s, y))
    && (forall r :: r in ranges <==> IsRowRun(s, y, r))
    && JoinedSoFar(crs0, ranges, newCrs) && FilteredSoFar(crs0, ranges, filter)
  }

  /** Blocks of the rows up to `y`: blocks above that are not continued, runs that start a block, and joined pairs. */
  lemma RowStep(s: set<CoreCoord>, y: nat, crs0: set<CoreRange>, ranges: seq<CoreRange>,
                newCrs: set<CoreRange>, filter: set<CoreRange>)
    requires RowDone(s, y, crs0, ranges, newCrs, filter)
    ensures forall r :: IsBlock(Above(s, y + 1), r) <==> KeptAfterRow(crs0, ranges, newCrs, filter, r)
  {
    forall r: CoreRange
      ensures IsBlock(Above(s, y + 1), r) <==> KeptAfterRow(crs0, ranges, newCrs, filter, r)
    {
      if r.end.y < y {
        OldBlockStep(s, y, crs0, ranges, newCrs, filter, r);
      } else if r.end.y == y && r.start.y == y {
        NewRunStep(s, y, crs0, ranges, newCrs, filter, r);
      } else {
        JoinedStep(s, y, crs0, ranges, newCrs, filter, r);
      }
    }
  }

  lemma RowResult(s: set<CoreCoord>, y: nat, crs0: set<CoreRange>, ranges: seq<CoreRange>,
                  newCrs: set<CoreRange>, filter: set<CoreRange>, crs: set<CoreRange>)
    requires RowDone(s, y, crs0, ranges, newCrs, filter)
    requires forall r :: r in crs <==> r in crs0 || r in ranges
    ensures (crs - filter) + newCrs == Blocks(Above(s, y + 1))
  {
    RowStep(s, y, crs0, ranges, newCrs, filter);
    var result, blocks := (crs - filter) + newCrs, Blocks(Above(s, y + 1));
    forall r: CoreRange
      ensures r in result <==> r in blocks
    {
      assert KeptAfterRow(crs0, ranges, newCrs, filter, r) <==> r in result;
      assert IsBlock(Above(s, y + 1), r) <==> r in blocks;
    }
  }

  lemma OldBlockStep(s: set<CoreCoord>, y: nat, crs0: set<CoreRange>, ranges: seq<CoreRange>,
                     newCrs: set<CoreRange>, filter: set<CoreRange>, r: CoreRange)
    requires RowDone(s, y, crs0, ranges, newCrs, filter) && r.end.y < y
    ensures IsBlock(Above(s, y + 1), r) <==> KeptAfterRow(crs0, ranges, newCrs, filter, r)
  {
    hide IsRun, JoinedSoFar, FilteredSoFar, IsBlock;
    AboveBlock(s, y + 1, r);
    AboveBlock(s, y, r);
    EndsAbove(s, y, crs0, ranges, newCrs, filter, r);
  }

  /**
   A rectangle that ends above row `y` is neither new nor a run, and is filtered when its columns go on in row
   `y`.
   */
  lemma EndsAbove(s: set<CoreCoord>, y: nat, crs0: set<CoreRange>, ranges: seq<CoreRange>,
                  newCrs: set<CoreRange>, filter: set<CoreRange>, r: CoreRange)
    requires RowDone(s, y, crs0, ranges, newCrs, filter) && r.end.y < y
    ensures r !in newCrs && r !in ranges
    ensures r in crs0 <==> IsBlock(Above(s, y), r)
    ensures r in crs0 ==> (r in filter <==> r.end.y + 1 == y && IsRun(s, y, r.start.x, r.end.x))
  {
    hide IsRun, IsBlock;
    assert RowBelow(r) in ranges <==> IsRowRun(s, y, RowBelow(r));
    assert r in ranges <==> IsRowRun(s, y, r);
    assert BottomRow(r) in ranges <==> IsRowRun(s, y, BottomRow(r));
  }

  lemma NewRunStep(s: set<CoreCoord>, y: nat, crs0: set<CoreRange>, ranges: seq<CoreRange>,
                   newCrs: set<CoreRange>, filter: set<CoreRange>, r: CoreRange)
    requires RowDone(s, y, crs0, ranges, newCrs, filter) && r.start.y == r.end.y == y
    ensures IsBlock(Above(s, y + 1), r) <==> KeptAfterRow(crs0, ranges, newCrs, filter, r)
  {
    AboveBlock(s, y + 1, r);
    AboveBlock(s, y, r);
    assert r !in newCrs && r !in crs0;
    RestsIffRunAbove(s, y, crs0, r);
    assert r in ranges <==> IsRun(s, y, r.start.x, r.end.x);
  }

  lemma JoinedStep(s: set<CoreCoord>, y: nat, crs0: set<CoreRange>, ranges: seq<CoreRange>,
                   newCrs: set<CoreRange>, filter: set<CoreRange>, r: CoreRange)
    requires RowDone(s, y, crs0, ranges, newCrs, filter)
    requires r.end.y >= y && (r.end.y > y || r.start.y < y)
    ensures IsBlock(Above(s, y + 1), r) <==> KeptAfterRow(crs0, ranges, newCrs, filter, r)
  {
    hide IsRun, IsBlock;
    AboveBlock(s, y + 1, r);
    assert r !in crs0 && r !in ranges by {
      AboveBlock(s, y, r);
    }
    assert BottomRow(r) in ranges <==> IsRowRun(s, y, BottomRow(r));
    if r.end.y == y {
      AboveBlock(s, y, Upper(r));
      assert (forall row :: r.start.y <= row <= y ==> IsRun(s, row, r.start.x, r.end.x))
        <==> (forall row :: r.start.y <= row <= y - 1 ==> IsRun(s, row, r.start.x, r.end.x))
             && IsRun(s, y, r.start.x, r.end.x);
    }
  }

  lemma RestsIffRunAbove(s: set<CoreCoord>, y: nat, crs0: set<CoreRange>, r: CoreRange)
    requires crs0 == Blocks(Above(s, y)) && r.start.y == y && r.end.y == y
    ensures (exists p :: p in crs0 && Rests(r, p)) <==> y > 0 && IsRun(s, y - 1, r.start.x, r.end.x)
  {
    if p :| p in crs0 && Rests(r, p) {
      AboveBlock(s, y, p);
    }
    if y > 0 && IsRun(s, y - 1, r.start.x, r.end.x) {
      var c := CoreCoord(r.start.x, y - 1);
      assert c in Above(s, y);
      var p := BlockThrough(Above(s, y), c);
      AboveBlock(s, y, p);
      RunUnique(s, y - 1, c.x, p.start.x, p.end.x, r.start.x, r.end.x);
      assert p in crs0 && Rests(r, p);
    }
  }

  /**
   `CoreRangeSet::merge`: the result is the canonical cover of the cells of both arguments, listed by start corners,
   and never throws.
   */
  method MergeRanges(less: (CoreCoord, CoreCoord) -> bool, self: CoreRangeSet, other: seq<CoreRange>)
    returns (r: Result<CoreRangeSet>)
    requires StrictTotalOrder(less)
    ensures r == Ok(Canonical(less, CellsOf(self) + CellsOf(other)))
    ensures forall i, j :: 0 <= i < j < |r.value| ==> less(r.value[i].start, r.value[j].start)
  {
    hide CellsOf, RangeOrder, IsBlock, Marks, Disjoint, Intersects;
    ghost var s := CellsOf(self) + CellsOf(other);
    RangeOrderIsTotal(less);
    var crs := (set i | 0 <= i < |self| :: self[i]) + (set i | 0 <= i < |other| :: other[i]);
    var all := InOrder(RangeOrder(less), crs);
    SameCells(self, other, all);

    var minX, maxX, minY, maxY := Extent(all);
    var grid := new bool[maxY + 1, maxX + 2]((_, _) => false);
    assert forall i :: 0 <= i < |all| ==> all[i] in all;
    Paint(grid, all);
    BoxHoldsCells(all, minX, maxX, minY, maxY);
    crs := Rebuild(less, grid, s, minX, minY, maxY);
    var vector := InOrder(RangeOrder(less), crs);
    BlocksDisjoint(less, s, vector);
    SortedUnique(RangeOrder(less), vector, Canonical(less, s));
    forall i, j | 0 <= i < j < |vector|
      ensures less(vector[i].start, vector[j].start)
    {
      CanonicalByStarts(less, s, i, j);
    }
    r := Construct(vector);
  }

  ghost predicate Within(r: CoreRange, minX: nat, maxX: nat, minY: nat, maxY: nat)
  {
    minX <= r.start.x && r.end.x <= maxX && minY <= r.start.y && r.end.y <= maxY
  }

  method Extent(all: seq<CoreRange>) returns (minX: nat, maxX: nat, minY: nat, maxY: nat)
    ensures forall r :: r in all ==> Within(r, minX, maxX, minY, maxY)
  {
    minX, maxX, minY, maxY := SIZE_MAX, 0, SIZE_MAX, 0;
    for i := 0 to |all|
      invariant forall k :: 0 <= k < i ==> Within(all[k], minX, maxX, minY, maxY)
    {
      minX := Min(minX, all[i].start.x);
      maxX := Max(maxX, all[i].end.x);
      minY := Min(minY, all[i].start.y);
      maxY := Max(maxY, all[i].end.y);
    }
  }

  lemma BoxHoldsCells(all: seq<CoreRange>, minX: nat, maxX: nat, minY: nat, maxY: nat)
    requires forall r :: r in all ==> Within(r, minX, maxX, minY, maxY)
    ensures forall c :: c in CellsOf(all) ==> minX <= c.x && minY <= c.y <= maxY
  {
    InCellsOf(all);
    assert forall i :: 0 <= i < |all| ==> all[i] in all;
  }

  /** The row loop: before row `y`, `crs` holds the blocks of the rows above it. */
  method Rebuild(less: (CoreCoord, CoreCoord) -> bool, grid: array2<bool>, ghost s: set<CoreCoord>,
                 minX: nat, minY: nat, maxY: nat)
    returns (crs: set<CoreRange>)
    requires StrictTotalOrder(less)
    requires Marks(grid, s) && maxY < grid.Length0
    requires forall c :: c in s ==> minX <= c.x && minY <= c.y <= maxY
    ensures crs == Blocks(s)
  {
    crs := {};
    assert Above(s, minY) == {};
    EmptyHasNoBlocks();
    var y := minY;
    while y <= maxY
      invariant y >= minY
      invariant crs == Blocks(Above(s, y))
    {
      var ranges := RowRuns(grid, s, y, minX);
      crs := AbsorbRow(less, s, y, crs, ranges);
      y := y + 1;
    }
    assert Above(s, y) == s;
  }

  lemma EmptyHasNoBlocks()
    ensures Blocks({}) == {}
  {
    assert forall r :: IsBlock({}, r) ==> IsRun({}, r.start.y, r.start.x, r.end.x);
  }

  lemma SameCells(self: seq<CoreRange>, other: seq<CoreRange>, all: seq<CoreRange>)
    requires forall r :: r in all <==> r in self || r in other
    ensures CellsOf(all) == CellsOf(self) + CellsOf(other)
  {
    hide CellsOf, HasCell;
    InCellsOf(all);
    InCellsOf(self);
    InCellsOf(other);
    forall c
      ensures c in CellsOf(all) <==> c in CellsOf(self) || c in CellsOf(other)
    {
      if i :| 0 <= i < |all| && HasCell(all[i], c) {
        assert all[i] in all;
      }
      if i :| 0 <= i < |self| && HasCell(self[i], c) {
        assert self[i] in self && self[i] in all;
      }
      if i :| 0 <= i < |other| && HasCell(other[i], c) {
        assert other[i] in other && other[i] in all;
      }
    }
  }

  // ----- laws of merge

  /** The value `MergeRanges` returns. */
  ghost function Merged(less: (CoreCoord, CoreCoord) -> bool, a: seq<CoreRange>, b: seq<CoreRange>): CoreRangeSet
    requires StrictTotalOrder(less)
  {
    Canonical(less, CellsOf(a) + CellsOf(b))
  }

  /** Arguments that cover the same cells, however they are cut up, give identical results. */
  lemma MergeDependsOnCells(less: (CoreCoord, CoreCoord) -> bool,
                            a: seq<CoreRange>, b: seq<CoreRange>, c: seq<CoreRange>, d: seq<CoreRange>)
    requires StrictTotalOrder(less)
    ensures CellsOf(a) + CellsOf(b) == CellsOf(c) + CellsOf(d) <==> Merged(less, a, b) == Merged(less, c, d)
  {
    CanonicalCovers(less, CellsOf(a) + CellsOf(b));
    CanonicalCovers(less, CellsOf(c) + CellsOf(d));
  }

  lemma MergeLaws(less: (CoreCoord, CoreCoord) -> bool, a: seq<CoreRange>, b: seq<CoreRange>, c: seq<CoreRange>)
    requires StrictTotalOrder(less)
    ensures Merged(less, a, b) == Merged(less, b, a)
    ensures Merged(less, Merged(less, a, b), c) == Merged(less, a, Merged(less, b, c))
    ensures Merged(less, Merged(less, a, b), b) == Merged(less, a, b)
    ensures Merged(less, Merged(less, a, b), []) == Merged(less, a, b)
  {
    CanonicalCovers(less, CellsOf(a) + CellsOf(b));
    CanonicalCovers(less, CellsOf(b) + CellsOf(c));
    assert CellsOf(a) + CellsOf(b) == CellsOf(b) + CellsOf(a);
    assert (CellsOf(a) + CellsOf(b)) + CellsOf(c) == CellsOf(a) + (CellsOf(b) + CellsOf(c));
    assert (CellsOf(a) + CellsOf(b)) + CellsOf(b) == CellsOf(a) + CellsOf(b);
    assert CellsOf([]) == {};
    assert (CellsOf(a) + CellsOf(b)) + {} == CellsOf(a) + CellsOf(b);
  }
}
