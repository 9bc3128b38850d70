/**
 `CoreRangeSet`: a vector of rectangles no two of which overlap, standing for a set of cells.
 The queries count cells instead of comparing sets; the no-overlap invariant is what makes
 the counts mean something.
 */
module CoreRangeSets {
  import opened Outcomes
  import opened Arith
  import opened CoreRanges
  import opened Collections

  ghost predicate Disjoint(rs: seq<CoreRange>)
  {
    forall i, j :: 0 <= i < j < |rs| ==> !Intersects(rs[i], rs[j])
  }

  /** Every public constructor runs `validate_no_overlap`, so this is what a `CoreRangeSet` can be. */
  type CoreRangeSet = rs: seq<CoreRange> | Disjoint(rs) witness []

  /** The cells covered by a list of rectangles, overlapping or not. */
  ghost function CellsOf(rs: seq<CoreRange>): set<CoreCoord>
  {
    if rs == [] then {} else CellsOf(rs[..|rs| - 1]) + Cells(rs[|rs| - 1])
  }

  lemma {:induction false} InCellsOf(rs: seq<CoreRange>)
    ensures forall c :: c in CellsOf(rs) <==> exists i :: 0 <= i < |rs| && HasCell(rs[i], c)
  {
    if rs != [] {
      var k := |rs| - 1;
      InCellsOf(rs[..k]);
      assert forall i :: 0 <= i < k ==> rs[..k][i] == rs[i];
      assert forall c :: (exists i :: 0 <= i < |rs| && HasCell(rs[i], c))
                         <==> (exists i :: 0 <= i < k && HasCell(rs[..k][i], c)) || HasCell(rs[k], c);
    }
  }

  lemma MemberCells(rs: seq<CoreRange>, i: nat)
    requires i < |rs|
    ensures Cells(rs[i]) <= CellsOf(rs)
  {
    InCellsOf(rs);
  }

  lemma PrefixCells(rs: seq<CoreRange>, k: nat)
    requires k <= |rs|
    ensures CellsOf(rs[..k]) <= CellsOf(rs)
  {
    InCellsOf(rs);
    InCellsOf(rs[..k]);
    assert forall i :: 0 <= i < k ==> rs[..k][i] == rs[i];
  }

  lemma CellsOfSnoc(rs: seq<CoreRange>, k: nat)
    requires k < |rs|
    ensures CellsOf(rs[..k + 1]) == CellsOf(rs[..k]) + Cells(rs[k])
  {
    assert rs[..k + 1][..k] == rs[..k];
  }

  lemma DisjointFromEarlier(rs: seq<CoreRange>, k: nat)
    requires k < |rs| && Disjoint(rs)
    ensures CellsOf(rs[..k]) !! Cells(rs[k])
  {
    InCellsOf(rs[..k]);
    forall c | c in CellsOf(rs[..k])
      ensures c !in Cells(rs[k])
    {
      var i :| 0 <= i < k && HasCell(rs[i], c);
      assert !Intersects(rs[i], rs[k]);
    }
  }

  /** The constructor: it throws exactly when some cell is claimed by two of the rectangles. */
  method Construct(rs: seq<CoreRange>) returns (r: Result<CoreRangeSet>)
    ensures r.Ok? ==> r.value == rs
    ensures r.Ok? <==> !exists i, j, c :: 0 <= i < j < |rs| && HasCell(rs[i], c) && HasCell(rs[j], c)
    ensures r.Ok? <==> Disjoint(rs)
  {
    if |rs| < 2 {
      return Ok(rs);
    }
    var outer := 0;
    while outer != |rs| - 1
      invariant 0 <= outer <= |rs| - 1
      invariant forall i, j :: 0 <= i < outer && i < j < |rs| ==> !Intersects(rs[i], rs[j])
    {
      var inner := outer + 1;
      while inner != |rs|
        invariant outer < inner <= |rs|
        invariant forall j :: outer < j < inner ==> !Intersects(rs[outer], rs[j])
      {
        if Intersects(rs[outer], rs[inner]) {
          IntersectsIffSharedCell(rs[outer], rs[inner]);
          var c :| c in Cells(rs[outer]) * Cells(rs[inner]);
          assert HasCell(rs[outer], c) && HasCell(rs[inner], c);
          return Fatal;
        }
        inner := inner + 1;
      }
      outer := outer + 1;
    }
    return Ok(rs);
  }

  /** No two of the rectangles can be joined by `CoreRange::merge`. */
  ghost predicate Reduced(rs: seq<CoreRange>)
  {
    forall i, j :: 0 <= i < j < |rs| ==> Merge(rs[i], rs[j]).None? && Merge(rs[j], rs[i]).None?
  }

  /** Sizes add up over the rectangles. */
  function TotalSize(rs: seq<CoreRange>): nat
  {
    if rs == [] then 0 else TotalSize(rs[..|rs| - 1]) + Size(rs[|rs| - 1])
  }

  lemma {:induction false} TotalSizeIsCardinality(rs: seq<CoreRange>)
    requires Disjoint(rs)
    ensures TotalSize(rs) == |CellsOf(rs)|
  {
    if rs != [] {
      var k := |rs| - 1;
      TotalSizeIsCardinality(rs[..k]);
      SizeIsCardinality(rs[k]);
      CellsOfSnoc(rs, k);
      DisjointFromEarlier(rs, k);
      assert rs[..k + 1] == rs;
    }
  }

  method NumCores(rs: CoreRangeSet) returns (n: nat)
    ensures n == |CellsOf(rs)|
  {
    n := 0;
    for i := 0 to |rs|
      invariant n == TotalSize(rs[..i])
    {
      n := n + Size(rs[i]);
      assert rs[..i + 1][..i] == rs[..i];
    }
    assert rs[..|rs|] == rs;
    TotalSizeIsCardinality(rs);
  }

  method ContainsCoord(rs: CoreRangeSet, c: CoreCoord) returns (b: bool)
    ensures b <==> c in CellsOf(rs)
  {
    InCellsOf(rs);
    for i := 0 to |rs|
      invariant forall k :: 0 <= k < i ==> !HasCell(rs[k], c)
    {
      if HasCell(rs[i], c) {
        return true;
      }
    }
    return false;
  }

  method IntersectsSet(rs: CoreRangeSet, other: CoreRangeSet) returns (b: bool)
    ensures b <==> CellsOf(rs) * CellsOf(other) != {}
  {
    for j := 0 to |other|
      invariant CellsOf(rs) !! CellsOf(other[..j])
    {
      CellsOfSnoc(other, j);
      for i := 0 to |rs|
        invariant CellsOf(rs[..i]) !! Cells(other[j])
      {
        CellsOfSnoc(rs, i);
        IntersectsIffSharedCell(rs[i], other[j]);
        if Intersects(rs[i], other[j]) {
          var c :| c in Cells(rs[i]) * Cells(other[j]);
          MemberCells(rs, i);
          MemberCells(other, j);
          assert c in CellsOf(rs) * CellsOf(other);
          return true;
        }
      }
      assert rs[..|rs|] == rs;
    }
    assert other[..|other|] == other;
    return false;
  }

  /**
   Subset test by counting. `remaining` starts at the size of `other` and loses the size of each
   intersection; it is the number of cells of `other` not met yet, so it is a natural number throughout.
   */
  method ContainsRangeByCounting(rs: CoreRangeSet, other: CoreRange) returns (b: bool)
    ensures b <==> Cells(other) <= CellsOf(rs)
  {
    var remaining: nat := Size(other);
    SizeIsCardinality(other);
    if remaining == 0 {
      return true;
    }
    var numCores := NumCores(rs);
    if numCores < remaining {
      SubsetCardinality(Cells(other), CellsOf(rs));
      return false;
    }
    assert Cells(other) - CellsOf(rs[..0]) == Cells(other);
    for i := 0 to |rs|
      invariant remaining == |Cells(other) - CellsOf(rs[..i])|
      invariant remaining > 0
    {
      CountStep(rs, i, other);
      var common := Intersection(rs[i], other);
      if common.Some? {
        remaining := remaining - Size(common.value);
        if remaining == 0 {
          NoneMissing(Cells(other), CellsOf(rs[..i + 1]));
          PrefixCells(rs, i + 1);
          return true;
        }
      }
    }
    assert rs[..|rs|] == rs;
    SomeMissing(Cells(other), CellsOf(rs));
    return false;
  }

  lemma NoneMissing<T>(a: set<T>, b: set<T>)
    requires |a - b| == 0
    ensures a <= b
  {
    assert forall x :: x in a ==> x in a - b || x in b;
  }

  lemma SomeMissing<T>(a: set<T>, b: set<T>)
    requires |a - b| > 0
    ensures !(a <= b)
  {
  }

  /** How much `remaining` loses at one pair of rectangles. */
  ghost function Overlap(a: CoreRange, b: CoreRange): nat
  {
    match Intersection(a, b) case Some(r) => Size(r) case None => 0
  }

  lemma OverlapIsCardinality(a: CoreRange, b: CoreRange)
    ensures Overlap(a, b) == |Cells(a) * Cells(b)|
  {
    IntersectionIsMeet(a, b);
    match Intersection(a, b)
    case Some(r) => SizeIsCardinality(r);
    case None =>
  }

  /** Taking the next rectangle off the cells still missing takes exactly its intersection with `other`. */
  lemma CountStep(rs: CoreRangeSet, i: nat, other: CoreRange)
    requires i < |rs|
    ensures Overlap(rs[i], other) <= |Cells(other) - CellsOf(rs[..i])|
    ensures |Cells(other) - CellsOf(rs[..i + 1])| == |Cells(other) - CellsOf(rs[..i])| - Overlap(rs[i], other)
  {
    CellsOfSnoc(rs, i);
    DisjointFromEarlier(rs, i);
    OverlapIsCardinality(rs[i], other);
    var missing := Cells(other) - CellsOf(rs[..i]);
    var common := Cells(rs[i]) * Cells(other);
    PartCardinality(missing, common);
    assert Cells(other) - CellsOf(rs[..i + 1]) == missing - common;
  }

  method ContainsSetByCounting(rs: CoreRangeSet, other: CoreRangeSet) returns (b: bool)
    ensures b <==> CellsOf(other) <= CellsOf(rs)
  {
    hide Size, CellsOf, Seen;
    NothingCovered();
    var remaining: nat := NumCores(other);
    if remaining == 0 {
      return true;
    }
    var numCores := NumCores(rs);
    if numCores < remaining {
      SubsetCardinality(CellsOf(other), CellsOf(rs));
      return false;
    }
    assert CellsOf(other) - CellsOf(rs[..0]) == CellsOf(other);
    for i := 0 to |rs|
      invariant remaining == |CellsOf(other) - CellsOf(rs[..i])|
      invariant remaining > 0
    {
      SeenEnds(rs, i, other);
      for j := 0 to |other|
        invariant remaining == |CellsOf(other) - Seen(rs, i, other, j)|
        invariant remaining > 0
      {
        CountStepPair(rs, i, other, j);
        var common := Intersection(rs[i], other[j]);
        if common.Some? {
          remaining := remaining - Size(common.value);
          if remaining == 0 {
            NoneMissing(CellsOf(other), Seen(rs, i, other, j + 1));
            SeenIsCovered(rs, i, other, j + 1);
            return true;
          }
        }
      }
    }
    assert rs[..|rs|] == rs;
    SomeMissing(CellsOf(other), CellsOf(rs));
    return false;
  }

  /** The cells the counting loops of `ContainsSetByCounting` have accounted for. */
  ghost function Seen(rs: seq<CoreRange>, i: nat, other: seq<CoreRange>, j: nat): set<CoreCoord>
    requires i < |rs| && j <= |other|
  {
    CellsOf(rs[..i]) + Cells(rs[i]) * CellsOf(other[..j])
  }

  lemma SeenIsCovered(rs: seq<CoreRange>, i: nat, other: seq<CoreRange>, j: nat)
    requires i < |rs| && j <= |other|
    ensures Seen(rs, i, other, j) <= CellsOf(rs)
  {
    PrefixCells(rs, i);
    MemberCells(rs, i);
  }

  lemma SeenEnds(rs: seq<CoreRange>, i: nat, other: seq<CoreRange>)
    requires i < |rs|
    ensures CellsOf(other) - Seen(rs, i, other, 0) == CellsOf(other) - CellsOf(rs[..i])
    ensures CellsOf(other) - Seen(rs, i, other, |other|) == CellsOf(other) - CellsOf(rs[..i + 1])
  {
    CellsOfSnoc(rs, i);
    assert CellsOf(other[..0]) == {};
    assert other[..|other|] == other;
  }

  lemma CountStepPair(rs: CoreRangeSet, i: nat, other: CoreRangeSet, j: nat)
    requires i < |rs| && j < |other|
    ensures Overlap(rs[i], other[j]) <= |CellsOf(other) - Seen(rs, i, other, j)|
    ensures |CellsOf(other) - Seen(rs, i, other, j + 1)|
         == |CellsOf(other) - Seen(rs, i, other, j)| - Overlap(rs[i], other[j])
  {
    CellsOfSnoc(other, j);
    DisjointFromEarlier(other, j);
    DisjointFromEarlier(rs, i);
    OverlapIsCardinality(rs[i], other[j]);
    MemberCells(other, j);
    MissingStep(CellsOf(other), CellsOf(rs[..i]), Cells(rs[i]), CellsOf(other[..j]), Cells(other[j]));
  }

  lemma NothingCovered()
    ensures CellsOf([]) == {}
  {
  }

  lemma MissingStep<T>(all: set<T>, done: set<T>, mine: set<T>, earlier: set<T>, yours: set<T>)
    requires done !! mine && earlier !! yours && yours <= all
    ensures var missing := all - (done + mine * earlier);
            && |mine * yours| <= |missing|
            && |all - (done + mine * (earlier + yours))| == |missing| - |mine * yours|
  {
    var missing := all - (done + mine * earlier);
    PartCardinality(missing, mine * yours);
    assert all - (done + mine * (earlier + yours)) == missing - mine * yours;
  }

  /** What `a` has in common with each of `others`, in their order. */
  function MeetsOne(a: CoreRange, others: seq<CoreRange>): seq<CoreRange>
  {
    if others == [] then []
    else
      var k := |others| - 1;
      MeetsOne(a, others[..k]) + (match Intersection(a, others[k]) case Some(r) => [r] case None => [])
  }

  /** The same for each of `rs` in turn. */
  function MeetsAll(rs: seq<CoreRange>, others: seq<CoreRange>): seq<CoreRange>
  {
    if rs == [] then [] else MeetsAll(rs[..|rs| - 1], others) + MeetsOne(rs[|rs| - 1], others)
  }

  lemma MeetsOneNext(a: CoreRange, others: seq<CoreRange>, j: nat)
    requires j < |others|
    ensures MeetsOne(a, others[..j + 1])
         == MeetsOne(a, others[..j]) + (match Intersection(a, others[j]) case Some(r) => [r] case None => [])
  {
    assert others[..j + 1][..j] == others[..j];
  }

  lemma MeetsNext(earlier: seq<CoreRange>, a: CoreRange, others: seq<CoreRange>, j: nat)
    requires j < |others|
    ensures var met := earlier + MeetsOne(a, others[..j]);
            earlier + MeetsOne(a, others[..j + 1])
            == match Intersection(a, others[j]) case Some(r) => met + [r] case None => met
  {
    MeetsOneNext(a, others, j);
  }

  lemma MeetsAllNext(rs: seq<CoreRange>, i: nat, others: seq<CoreRange>)
    requires i < |rs|
    ensures MeetsAll(rs[..i + 1], others) == MeetsAll(rs[..i], others) + MeetsOne(rs[i], others)
  {
    assert rs[..i + 1][..i] == rs[..i];
  }

  /**
   The common cells, as the pairwise intersections in the order of `rs` and then of `other`. They never overlap, so
   the final constructor call succeeds.
   */
  method IntersectionOfSets(rs: CoreRangeSet, other: CoreRangeSet) returns (r: Result<CoreRangeSet>)
    ensures r.Ok? && CellsOf(r.value) == CellsOf(rs) * CellsOf(other)
    ensures r.value == MeetsAll(rs, other)
  {
    hide MeetsOne, MeetsAll, CellsOf, Intersects, Intersection;
    NothingCovered();
    var found: seq<CoreRange> := [];
    assert Disjoint(found);
    NothingMet(other);
    for i := 0 to |rs|
      invariant Disjoint(found)
      invariant CellsOf(found) == CellsOf(rs[..i]) * CellsOf(other)
      invariant found == MeetsAll(rs[..i], other)
    {
      NoneMet(rs[i]);
      MeetsAllNext(rs, i, other);
      CellsOfSnoc(rs, i);
      DisjointFromEarlier(rs, i);
      for j := 0 to |other|
        invariant Disjoint(found)
        invariant CellsOf(found) == CellsOf(rs[..i]) * CellsOf(other) + Cells(rs[i]) * CellsOf(other[..j])
        invariant found == MeetsAll(rs[..i], other) + MeetsOne(rs[i], other[..j])
      {
        MeetsNext(MeetsAll(rs[..i], other), rs[i], other, j);
        CellsOfSnoc(other, j);
        DisjointFromEarlier(other, j);
        IntersectionIsMeet(rs[i], other[j]);
        var common := Intersection(rs[i], other[j]);
        if common.Some? {
          assert CellsOf(found) !! Cells(common.value);
          AppendDisjoint(found, common.value);
          found := found + [common.value];
        }
      }
      assert other[..|other|] == other;
    }
    assert rs[..|rs|] == rs;
    r := Construct(found);
  }

  lemma NothingMet(others: seq<CoreRange>)
    ensures MeetsAll([], others) == []
  {
  }

  lemma NoneMet(a: CoreRange)
    ensures MeetsOne(a, []) == []
  {
  }

  lemma AppendDisjoint(rs: seq<CoreRange>, r: CoreRange)
    requires Disjoint(rs) && CellsOf(rs) !! Cells(r)
    ensures Disjoint(rs + [r])
    ensures CellsOf(rs + [r]) == CellsOf(rs) + Cells(r)
  {
    assert (rs + [r])[..|rs|] == rs;
    forall i | 0 <= i < |rs|
      ensures !Intersects(rs[i], r)
    {
      IntersectsIffSharedCell(rs[i], r);
      MemberCells(rs, i);
    }
  }
}
