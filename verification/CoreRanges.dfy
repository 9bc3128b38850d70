/**
 Grid coordinates and inclusive rectangles of them (`CoreRange`), with the geometry the
 rectangle operations are meant to compute, stated on the cells a rectangle stands for.
 */
module CoreRanges {
  import opened Outcomes
  import opened Arith

  datatype CoreCoord = CoreCoord(x: nat, y: nat)

  /** A rectangle as the constructor receives it, before its corners are checked. */
  datatype Corners = Corners(start: CoreCoord, end: CoreCoord)

  predicate Ordered(r: Corners)
  {
    r.start.x <= r.end.x && r.start.y <= r.end.y
  }

  /** What the `CoreRange` constructor lets through. */
  type CoreRange = r: Corners | Ordered(r) witness Corners(CoreCoord(0, 0), CoreCoord(0, 0))

  predicate HasCell(r: CoreRange, c: CoreCoord)
  {
    && c.x >= r.start.x && c.x <= r.end.x
    && c.y >= r.start.y && c.y <= r.end.y
  }

  /** The cells of the grid that a rectangle stands for. */
  function Cells(r: CoreRange): (s: set<CoreCoord>)
    ensures forall c :: c in s <==> HasCell(r, c)
  {
    var s := set x, y | r.start.x <= x <= r.end.x && r.start.y <= y <= r.end.y :: CoreCoord(x, y);
    assert forall c :: HasCell(r, c) ==> c == CoreCoord(c.x, c.y);
    s
  }

  // ----- the operations of CoreRange

  predicate Intersects(a: CoreRange, b: CoreRange)
  {
    var left := a.end.x < b.start.x;
    var right := a.start.x > b.end.x;
    var above := a.end.y < b.start.y;
    var below := a.start.y > b.end.y;
    !(left || right || above || below)
  }

  function Intersection(a: CoreRange, b: CoreRange): Option<CoreRange>
  {
    var x1 := Max(a.start.x, b.start.x);
    var y1 := Max(a.start.y, b.start.y);
    var x2 := Min(a.end.x, b.end.x);
    var y2 := Min(a.end.y, b.end.y);
    if x1 <= x2 && y1 <= y2 then Some(Corners(CoreCoord(x1, y1), CoreCoord(x2, y2))) else None
  }

  predicate Adjacent(a: CoreRange, b: CoreRange)
  {
    var x1 := Max(a.start.x, b.start.x);
    var y1 := Max(a.start.y, b.start.y);
    var x2 := Min(a.end.x, b.end.x);
    var y2 := Min(a.end.y, b.end.y);
    (x2 + 1 == x1 && y1 <= y2) || (y2 + 1 == y1 && x1 <= x2)
  }

  predicate ContainsRange(a: CoreRange, b: CoreRange)
  {
    && b.start.x >= a.start.x && b.end.x <= a.end.x
    && b.start.y >= a.start.y && b.end.y <= a.end.y
  }

  function Merge(a: CoreRange, b: CoreRange): Option<CoreRange>
  {
    if Intersects(a, b) || Adjacent(a, b) then
      if a.start.x == b.start.x && a.end.x == b.end.x then
        Some(Corners(CoreCoord(a.start.x, Min(a.start.y, b.start.y)), CoreCoord(a.end.x, Max(a.end.y, b.end.y))))
      else if a.start.y == b.start.y && a.end.y == b.end.y then
        Some(Corners(CoreCoord(Min(a.start.x, b.start.x), a.start.y), CoreCoord(Max(a.end.x, b.end.x), a.end.y)))
      else None
    else None
  }

  function Size(r: CoreRange): nat
  {
    (r.end.x - r.start.x + 1) * (r.end.y - r.start.y + 1)
  }

  // ----- what they mean

  ghost predicate Touching(c: CoreCoord, d: CoreCoord)
  {
    || (c.x == d.x && (c.y + 1 == d.y || d.y + 1 == c.y))
    || (c.y == d.y && (c.x + 1 == d.x || d.x + 1 == c.x))
  }

  lemma {:induction false} IntersectsIffSharedCell(a: CoreRange, b: CoreRange)
    ensures Intersects(a, b) <==> Cells(a) * Cells(b) != {}
    ensures Intersects(a, b) <==> Intersection(a, b).Some?
  {
    if Intersects(a, b) {
      assert CoreCoord(Max(a.start.x, b.start.x), Max(a.start.y, b.start.y)) in Cells(a) * Cells(b);
    }
  }

  lemma {:induction false} IntersectionIsMeet(a: CoreRange, b: CoreRange)
    ensures Cells(a) * Cells(b) == match Intersection(a, b) { case Some(r) => Cells(r) case None => {} }
  {
  }

  lemma {:induction false} AdjacentIffTouchingAndApart(a: CoreRange, b: CoreRange)
    ensures Adjacent(a, b) <==>
            Cells(a) !! Cells(b) && exists c, d :: c in Cells(a) && d in Cells(b) && Touching(c, d)
  {
    if Adjacent(a, b) {
      var x1, y1 := Max(a.start.x, b.start.x), Max(a.start.y, b.start.y);
      var x2, y2 := Min(a.end.x, b.end.x), Min(a.end.y, b.end.y);
      var c, d := if x2 + 1 == x1 then CoreCoord(x2, y1) else CoreCoord(x1, y2), CoreCoord(x1, y1);
      assert Touching(c, d) && Touching(d, c);
      assert (c in Cells(a) && d in Cells(b)) || (d in Cells(a) && c in Cells(b));
    }
    if c, d :| c in Cells(a) && d in Cells(b) && Touching(c, d) {
      IntersectsIffSharedCell(a, b);
      TouchingCells(a, b, c, d);
    }
  }

  lemma TouchingCells(a: CoreRange, b: CoreRange, c: CoreCoord, d: CoreCoord)
    requires HasCell(a, c) && HasCell(b, d) && Touching(c, d)
    ensures Intersects(a, b) || Adjacent(a, b)
  {
  }

  lemma ContainsIffSubset(a: CoreRange, b: CoreRange)
    ensures ContainsRange(a, b) <==> Cells(b) <= Cells(a)
  {
    if Cells(b) <= Cells(a) {
      assert b.start in Cells(b) && b.end in Cells(b);
    }
  }

  lemma MergeIsUnion(a: CoreRange, b: CoreRange)
    ensures Merge(a, b).Some? ==> Cells(Merge(a, b).value) == Cells(a) + Cells(b)
  {
  }

  /** Two rectangles make up a rectangle exactly when `Merge` joins them or one holds the other. */
  lemma {:induction false} MergeIffUnionIsRectangle(a: CoreRange, b: CoreRange)
    ensures (exists r: CoreRange :: Cells(r) == Cells(a) + Cells(b)) <==>
            Merge(a, b).Some? || ContainsRange(a, b) || ContainsRange(b, a)
  {
    MergeIsUnion(a, b);
    ContainsIffSubset(a, b);
    ContainsIffSubset(b, a);
    if ContainsRange(a, b) {
      assert Cells(a) == Cells(a) + Cells(b);
    }
    if ContainsRange(b, a) {
      assert Cells(b) == Cells(a) + Cells(b);
    }
    if exists r: CoreRange :: Cells(r) == Cells(a) + Cells(b) {
      var r: CoreRange :| Cells(r) == Cells(a) + Cells(b);
      UnionRectangleLinesUp(a, b, r);
    }
  }

  /** `Merge` joins exactly the rectangles that make up a rectangle and agree in both sides across one axis. */
  lemma {:induction false} MergeIff(a: CoreRange, b: CoreRange)
    ensures Merge(a, b).Some? <==>
            && (exists r: CoreRange :: Cells(r) == Cells(a) + Cells(b))
            && ((a.start.x == b.start.x && a.end.x == b.end.x) || (a.start.y == b.start.y && a.end.y == b.end.y))
  {
    MergeIffUnionIsRectangle(a, b);
  }

  lemma UnionRectangleLinesUp(a: CoreRange, b: CoreRange, r: CoreRange)
    requires Cells(r) == Cells(a) + Cells(b)
    ensures Merge(a, b).Some? || ContainsRange(a, b) || ContainsRange(b, a)
  {
    assert forall c :: HasCell(r, c) <==> HasCell(a, c) || HasCell(b, c) by {
      assert forall c :: HasCell(r, c) <==> c in Cells(r);
    }
    assert HasCell(a, a.start) && HasCell(a, a.end) && HasCell(b, b.start) && HasCell(b, b.end);
    // r's corners are cells of a or of b
    assert HasCell(r, r.start) && HasCell(r, r.end);
    assert HasCell(r, CoreCoord(r.start.x, r.end.y)) && HasCell(r, CoreCoord(r.end.x, r.start.y));
    GapColumn(a, b, r);
    GapRow(a, b, r);
  }

  /** Columns between `a` and `b` would be in `r`, yet in neither. */
  lemma GapColumn(a: CoreRange, b: CoreRange, r: CoreRange)
    requires Cells(r) == Cells(a) + Cells(b)
    ensures a.end.x + 1 >= b.start.x && b.end.x + 1 >= a.start.x
  {
    GapCell(a, b, r, a.start);
    GapCell(a, b, r, b.start);
    GapCell(a, b, r, CoreCoord(a.end.x + 1, a.start.y));
    GapCell(a, b, r, CoreCoord(b.end.x + 1, a.start.y));
    GapCell(a, b, r, CoreCoord(a.end.x + 1, b.start.y));
    GapCell(a, b, r, CoreCoord(b.end.x + 1, b.start.y));
  }

  lemma GapRow(a: CoreRange, b: CoreRange, r: CoreRange)
    requires Cells(r) == Cells(a) + Cells(b)
    ensures a.end.y + 1 >= b.start.y && b.end.y + 1 >= a.start.y
  {
    GapCell(a, b, r, a.start);
    GapCell(a, b, r, b.start);
    GapCell(a, b, r, CoreCoord(a.start.x, a.end.y + 1));
    GapCell(a, b, r, CoreCoord(a.start.x, b.end.y + 1));
    GapCell(a, b, r, CoreCoord(b.start.x, a.end.y + 1));
    GapCell(a, b, r, CoreCoord(b.start.x, b.end.y + 1));
  }

  lemma GapCell(a: CoreRange, b: CoreRange, r: CoreRange, c: CoreCoord)
    requires Cells(r) == Cells(a) + Cells(b)
    ensures HasCell(r, c) <==> HasCell(a, c) || HasCell(b, c)
  {
    assert c in Cells(r) <==> HasCell(r, c);
  }

  lemma {:induction false} SizeIsCardinality(r: CoreRange)
    ensures Size(r) == |Cells(r)|
    decreases r.end.y - r.start.y
  {
    if r.start.y == r.end.y {
      RowCardinality(r);
    } else {
      var top: CoreRange := Corners(r.start, CoreCoord(r.end.x, r.end.y - 1));
      var last: CoreRange := Corners(CoreCoord(r.start.x, r.end.y), r.end);
      SizeIsCardinality(top);
      RowCardinality(last);
      LastRowApart(r, top, last);
      MulDistribute(r.end.y - r.start.y, 1, r.end.x - r.start.x + 1);
    }
  }

  lemma LastRowApart(r: CoreRange, top: CoreRange, last: CoreRange)
    requires r.start.y < r.end.y
    requires top == Corners(r.start, CoreCoord(r.end.x, r.end.y - 1))
    requires last == Corners(CoreCoord(r.start.x, r.end.y), r.end)
    ensures |Cells(r)| == |Cells(top)| + |Cells(last)|
  {
    assert Cells(r) == Cells(top) + Cells(last) && Cells(top) !! Cells(last);
  }

  lemma {:induction false} RowCardinality(r: CoreRange)
    requires r.start.y == r.end.y
    ensures |Cells(r)| == r.end.x - r.start.x + 1
    decreases r.end.x - r.start.x
  {
    if r.start.x == r.end.x {
      assert Cells(r) == {r.start};
    } else {
      var front: CoreRange := Corners(r.start, CoreCoord(r.end.x - 1, r.end.y));
      RowCardinality(front);
      assert Cells(r) == Cells(front) + {r.end};
    }
  }
}
