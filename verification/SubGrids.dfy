/**
 `num_cores_to_corerangeset_in_subcoregrids`: a number of cores taken from a list of sub-grids, starting
 at a given core. A sub-grid that is one core wide in the fill direction and gives a single core gives it
 up again: the final `current_start_core != current_end_core` test takes that core for "nothing pending".
 */
module SubGrids {
  import opened Outcomes
  import opened Arith
  import opened CoreRanges
  import opened Collections
  import opened CoreRangeSets
  import opened CoreOrder

  /** The place of a core of `g` in the listing of `g`. */
  function PlaceIn(rowWise: bool, g: CoreRange, c: CoreCoord): nat
    requires HasCell(g, c)
  {
    Index(Major(rowWise, c) - Major(rowWise, g.start), RangeMinor(rowWise, g),
          Minor(rowWise, c) - Minor(rowWise, g.start))
  }

  lemma PlaceInRange(rowWise: bool, g: CoreRange, c: CoreCoord)
    requires HasCell(g, c)
    ensures PlaceIn(rowWise, g, c) < Size(g) && Listed(rowWise, g)[PlaceIn(rowWise, g, c)] == c
  {
    ListedNext(rowWise, g, Major(rowWise, c) - Major(rowWise, g.start), Minor(rowWise, c) - Minor(rowWise, g.start));
  }

  /** A rectangle of `g` that is part of one line, or whole lines, lists consecutive cores of `g`. */
  ghost predicate SliceOf(rowWise: bool, g: CoreRange, r: CoreRange)
  {
    && ContainsRange(g, r)
    && (Major(rowWise, r.start) == Major(rowWise, r.end) || RangeMinor(rowWise, r) == RangeMinor(rowWise, g))
  }

  lemma SliceAt(rowWise: bool, g: CoreRange, r: CoreRange, i: nat)
    requires SliceOf(rowWise, g, r) && i < Size(r)
    ensures PlaceIn(rowWise, g, r.start) + i < Size(g)
    ensures Listed(rowWise, r)[i] == Listed(rowWise, g)[PlaceIn(rowWise, g, r.start) + i]
  {
    hide Size;
    var w, n := RangeMinor(rowWise, r), RangeMinor(rowWise, g);
    var line, place := Major(rowWise, r.start) - Major(rowWise, g.start),
        Minor(rowWise, r.start) - Minor(rowWise, g.start);
    SizeByLines(rowWise, r);
    var q, p := i / w, i % w;
    DivInRange(i, Lines(rowWise, r), w);
    DivModSplit(i, w);
    ListedNext(rowWise, r, q, p);
    SlicePlace(line, place, q, p, w, n, Lines(rowWise, r));
    ListedNext(rowWise, g, line + q, place + p);
  }

  lemma SlicePlace(line: nat, place: nat, q: nat, p: nat, w: nat, n: nat, lines: nat)
    requires q < lines && (lines == 1 || w == n)
    ensures (line * n + place) + (q * w + p) == (line + q) * n + (place + p)
  {
    MulDistribute(line, q, n);
  }

  lemma SliceListed(rowWise: bool, g: CoreRange, r: CoreRange)
    requires SliceOf(rowWise, g, r)
    ensures PlaceIn(rowWise, g, r.start) + Size(r) <= Size(g)
    ensures Listed(rowWise, r) == Listed(rowWise,
                                         g)[PlaceIn(rowWise, g, r.start)..PlaceIn(rowWise, g, r.start) + Size(r)]
  {
    hide Size, PlaceIn;
    SizePositive(r);
    SliceAt(rowWise, g, r, Size(r) - 1);
    forall i | 0 <= i < Size(r)
      ensures Listed(rowWise, r)[i] == Listed(rowWise, g)[PlaceIn(rowWise, g, r.start) + i]
    {
      SliceAt(rowWise, g, r, i);
    }
  }

  lemma SizePositive(r: CoreRange)
    ensures Size(r) > 0
  {
    SizeIsCardinality(r);
    assert r.start in Cells(r);
  }

  // ----- one sub-grid

  /** How many cores a sub-grid gives when `wanted` are asked of it from core `c` on. */
  function Given(rowWise: bool, g: CoreRange, c: CoreCoord, wanted: nat): nat
    requires HasCell(g, c)
  {
    PlaceInRange(rowWise, g, c);
    Min(wanted, Size(g) - PlaceIn(rowWise, g, c))
  }

  /** The single core of a one-wide sub-grid. */
  predicate IsLone(rowWise: bool, g: CoreRange, given: nat)
  {
    RangeMinor(rowWise, g) == 1 && given == 1
  }

  /** The cores a sub-grid contributes to the result. */
  function Contribution(rowWise: bool, g: CoreRange, c: CoreCoord, wanted: nat): seq<CoreCoord>
    requires HasCell(g, c)
  {
    PlaceInRange(rowWise, g, c);
    var n := Given(rowWise, g, c, wanted);
    if IsLone(rowWise, g, n) then [] else Listed(rowWise, g)[PlaceIn(rowWise, g, c)..PlaceIn(rowWise, g, c) + n]
  }

  /** The cores of `g` from core `c` up to the start of line `line`. */
  ghost predicate GaveUpTo(rowWise: bool, g: CoreRange, c: CoreCoord, before: seq<CoreCoord>, rs: seq<CoreRange>,
                           end: nat)
    requires HasCell(g, c)
  {
    && PlaceIn(rowWise, g, c) <= end <= Size(g)
    && Flatten(rowWise, rs) == before + Listed(rowWise, g)[PlaceIn(rowWise, g, c)..end]
  }

  /** Places before line `line` of `g`. */
  function LineStart(rowWise: bool, g: CoreRange, line: nat): nat
    requires line >= Major(rowWise, g.start)
  {
    (line - Major(rowWise, g.start)) * RangeMinor(rowWise, g)
  }

  /** Before the first line: nothing has been taken. */
  ghost predicate Fresh(rowWise: bool, g: CoreRange, c: CoreCoord, wanted: nat, before: seq<CoreCoord>,
                        rs: seq<CoreRange>, remaining: nat, line: nat, from: CoreCoord, to: CoreCoord)
    requires HasCell(g, c)
  {
    line == Major(rowWise, c) && from == c && to == c && remaining == wanted && Flatten(rowWise, rs) == before
  }

  /** Whole lines from `from` to just before `line` are pending, everything before them is in `rs`. */
  ghost predicate Pending(rowWise: bool, g: CoreRange, c: CoreCoord, wanted: nat, before: seq<CoreCoord>,
                          rs: seq<CoreRange>, remaining: nat, line: nat, from: CoreCoord, to: CoreCoord)
    requires HasCell(g, c)
  {
    && Minor(rowWise, from) == Minor(rowWise, g.start)
    && Major(rowWise, c) <= Major(rowWise, from) <= line <= Major(rowWise, g.end) + 1
    && to == (if Major(rowWise, from) == line then from else At(rowWise, line - 1, Minor(rowWise, g.end)))
    && (RangeMinor(rowWise, g) == 1 ==> Major(rowWise, from) == Major(rowWise, c))
    && remaining <= wanted
    && PlaceIn(rowWise, g, c) + (wanted - remaining) == LineStart(rowWise, g, line)
    && GaveUpTo(rowWise, g, c, before, rs, LineStart(rowWise, g, Major(rowWise, from)))
  }

  /** Everything asked for is in `rs`, the last of it as part of a line. */
  ghost predicate Done(rowWise: bool, g: CoreRange, c: CoreCoord, wanted: nat, before: seq<CoreCoord>,
                       rs: seq<CoreRange>, remaining: nat, line: nat, from: CoreCoord, to: CoreCoord)
    requires HasCell(g, c)
  {
    && remaining == 0 && from == to && RangeMinor(rowWise, g) > 1
    && GaveUpTo(rowWise, g, c, before, rs, PlaceIn(rowWise, g, c) + wanted)
  }

  ghost predicate Progress(rowWise: bool, g: CoreRange, c: CoreCoord, wanted: nat, before: seq<CoreCoord>,
                           rs: seq<CoreRange>, remaining: nat, line: nat, from: CoreCoord, to: CoreCoord)
    requires HasCell(g, c)
  {
    || Fresh(rowWise, g, c, wanted, before, rs, remaining, line, from, to)
    || Pending(rowWise, g, c, wanted, before, rs, remaining, line, from, to)
    || Done(rowWise, g, c, wanted, before, rs, remaining, line, from, to)
  }

  /** A fresh start at the beginning of a line is a pending stretch of no lines. */
  lemma FreshIsPending(rowWise: bool, g: CoreRange, c: CoreCoord, wanted: nat, before: seq<CoreCoord>,
                       rs: seq<CoreRange>, remaining: nat, line: nat, from: CoreCoord, to: CoreCoord)
    requires HasCell(g, c) && Fresh(rowWise, g, c, wanted, before, rs, remaining, line, from, to)
    requires Minor(rowWise, c) == Minor(rowWise, g.start)
    ensures Pending(rowWise, g, c, wanted, before, rs, remaining, line, from, to)
  {
    hide Size;
    PlaceInRange(rowWise, g, c);
    var p := PlaceIn(rowWise, g, c);
    assert Listed(rowWise, g)[p..p] == [];
  }

  /** A whole line is added to the pending ones. */
  lemma WholeLine(rowWise: bool, g: CoreRange, c: CoreCoord, wanted: nat, before: seq<CoreCoord>,
                  rs: seq<CoreRange>, remaining: nat, line: nat, from: CoreCoord, to: CoreCoord)
    requires HasCell(g, c) && Pending(rowWise, g, c, wanted, before, rs, remaining, line, from, to)
    requires remaining >= RangeMinor(rowWise, g) && line <= Major(rowWise, g.end)
    ensures Pending(rowWise, g, c, wanted, before, rs, remaining - RangeMinor(rowWise, g), line + 1, from,
                    At(rowWise, line, Minor(rowWise, g.end)))
  {
    hide Size, GaveUpTo, PlaceIn;
    MulDistribute(line - Major(rowWise, g.start), 1, RangeMinor(rowWise, g));
  }

  /** Pushing a slice that starts where the listing has got to. */
  lemma PushSlice(rowWise: bool, g: CoreRange, c: CoreCoord, before: seq<CoreCoord>, rs: seq<CoreRange>, r: CoreRange)
    requires HasCell(g, c) && SliceOf(rowWise, g, r)
    requires GaveUpTo(rowWise, g, c, before, rs, PlaceIn(rowWise, g, r.start))
    ensures GaveUpTo(rowWise, g, c, before, rs + [r], PlaceIn(rowWise, g, r.start) + Size(r))
  {
    hide Size, PlaceIn, Listed, Flatten;
    SliceListed(rowWise, g, r);
    FlattenSnoc(rowWise, rs, r);
    var p, q := PlaceIn(rowWise, g, c), PlaceIn(rowWise, g, r.start);
    var l := Listed(rowWise, g);
    assert l[p..q] + l[q..q + Size(r)] == l[p..q + Size(r)];
  }

  /** The pending lines, as the rectangle that is pushed for them. */
  lemma PushPending(rowWise: bool, g: CoreRange, c: CoreCoord, wanted: nat, before: seq<CoreCoord>,
                    rs: seq<CoreRange>, remaining: nat, line: nat, from: CoreCoord, to: CoreCoord)
    requires HasCell(g, c) && Pending(rowWise, g, c, wanted, before, rs, remaining, line, from, to)
    requires Major(rowWise, from) < line
    ensures Ordered(Corners(from, to))
            && GaveUpTo(rowWise, g, c, before, rs + [Corners(from, to)], LineStart(rowWise, g, line))
  {
    hide Size, GaveUpTo;
    var r: CoreRange := Corners(from, to);
    SizeByLines(rowWise, r);
    MulDistribute(Major(rowWise, from) - Major(rowWise, g.start), line - Major(rowWise, from), RangeMinor(rowWise, g));
    PushSlice(rowWise, g, c, before, rs, r);
  }

  /** Part of a line, pushed right after what is in `rs` already. */
  lemma PushPart(rowWise: bool, g: CoreRange, c: CoreCoord, before: seq<CoreCoord>, rs: seq<CoreRange>,
                 from: CoreCoord, width: nat)
    requires HasCell(g, c) && HasCell(g, from) && width > 0
    requires Minor(rowWise, from) + width - 1 <= Minor(rowWise, g.end)
    requires GaveUpTo(rowWise, g, c, before, rs, PlaceIn(rowWise, g, from))
    ensures var r := Corners(from, At(rowWise, Major(rowWise, from), Minor(rowWise, from) + width - 1));
            Ordered(r) && GaveUpTo(rowWise, g, c, before, rs + [r], PlaceIn(rowWise, g, from) + width)
  {
    hide Size, PlaceIn, GaveUpTo;
    var r: CoreRange := Corners(from, At(rowWise, Major(rowWise, from), Minor(rowWise, from) + width - 1));
    SizeByLines(rowWise, r);
    PushSlice(rowWise, g, c, before, rs, r);
  }

  /** The branch for a line that is not taken whole. */
  lemma PartialLine(rowWise: bool, g: CoreRange, c: CoreCoord, wanted: nat, before: seq<CoreCoord>,
                    rs: seq<CoreRange>, remaining: nat, line: nat, from: CoreCoord, to: CoreCoord, width: nat)
    requires HasCell(g, c) && Progress(rowWise, g, c, wanted, before, rs, remaining, line, from, to)
    requires remaining > 0 && line <= Major(rowWise, g.end)
    requires width == Min(Minor(rowWise, g.end) - Minor(rowWise, from) + 1, remaining)
    requires width < RangeMinor(rowWise, g)
    ensures from != to ==> Ordered(Corners(from, to))
    ensures var rs1 := if from != to then rs + [Corners(from, to)] else rs;
            var part := Corners(At(rowWise, line, Minor(rowWise, from)),
                                At(rowWise, line, Minor(rowWise, from) + width - 1));
            var next := At(rowWise, line + 1, Minor(rowWise, g.start));
            Ordered(part)
            && Progress(rowWise, g, c, wanted, before, rs1 + [part], remaining - width, line + 1, next, next)
  {
    hide Size, GaveUpTo, PlaceIn, LineStart;
    var next := At(rowWise, line + 1, Minor(rowWise, g.start));
    var rs1 := if from != to then rs + [Corners(from, to)] else rs;
    if Fresh(rowWise, g, c, wanted, before, rs, remaining, line, from, to) {
      NothingGiven(rowWise, g, c, before, rs);
      PushPart(rowWise, g, c, before, rs, c, width);
      RestOfLineGiven(rowWise, g, c);
    } else {
      if from != to {
        PushPending(rowWise, g, c, wanted, before, rs, remaining, line, from, to);
      }
      LineStartIsPlace(rowWise, g, line);
      PushPart(rowWise, g, c, before, rs1, At(rowWise, line, Minor(rowWise, g.start)), width);
    }
  }

  lemma RestOfLineGiven(rowWise: bool, g: CoreRange, c: CoreCoord)
    requires HasCell(g, c)
    ensures PlaceIn(rowWise, g, c) + (Minor(rowWise, g.end) - Minor(rowWise, c) + 1)
         == LineStart(rowWise, g, Major(rowWise, c) + 1)
  {
    MulDistribute(Major(rowWise, c) - Major(rowWise, g.start), 1, RangeMinor(rowWise, g));
  }

  lemma LineStartIsPlace(rowWise: bool, g: CoreRange, line: nat)
    requires Major(rowWise, g.start) <= line <= Major(rowWise, g.end)
    ensures HasCell(g, At(rowWise, line, Minor(rowWise, g.start)))
    ensures PlaceIn(rowWise, g, At(rowWise, line, Minor(rowWise, g.start))) == LineStart(rowWise, g, line)
  {
  }

  lemma NothingGiven(rowWise: bool, g: CoreRange, c: CoreCoord, before: seq<CoreCoord>, rs: seq<CoreRange>)
    requires HasCell(g, c) && Flatten(rowWise, rs) == before
    ensures GaveUpTo(rowWise, g, c, before, rs, PlaceIn(rowWise, g, c))
  {
    PlaceInRange(rowWise, g, c);
    assert Listed(rowWise, g)[PlaceIn(rowWise, g, c)..PlaceIn(rowWise, g, c)] == [];
  }

  /** The branch for a line that is taken whole. */
  lemma FullLine(rowWise: bool, g: CoreRange, c: CoreCoord, wanted: nat, before: seq<CoreCoord>,
                 rs: seq<CoreRange>, remaining: nat, line: nat, from: CoreCoord, to: CoreCoord, width: nat)
    requires HasCell(g, c) && Progress(rowWise, g, c, wanted, before, rs, remaining, line, from, to)
    requires remaining > 0 && line <= Major(rowWise, g.end)
    requires width == Min(Minor(rowWise, g.end) - Minor(rowWise, from) + 1, remaining)
    requires width >= RangeMinor(rowWise, g)
    ensures Progress(rowWise, g, c, wanted, before, rs, remaining - width, line + 1, from,
                     At(rowWise, line, Minor(rowWise, g.end)))
  {
    hide Size, GaveUpTo, PlaceIn;
    if Fresh(rowWise, g, c, wanted, before, rs, remaining, line, from, to) {
      FreshIsPending(rowWise, g, c, wanted, before, rs, remaining, line, from, to);
    }
    WholeLine(rowWise, g, c, wanted, before, rs, remaining, line, from, to);
  }

  ghost predicate Finished(rowWise: bool, g: CoreRange, c: CoreCoord, wanted: nat, before: seq<CoreCoord>,
                           rs: seq<CoreRange>, remaining: nat)
    requires HasCell(g, c)
  {
    && remaining + Given(rowWise, g, c, wanted) == wanted
    && Flatten(rowWise, rs) == before + Contribution(rowWise, g, c, wanted)
  }

  /** After the loop: the pending lines are pushed unless `from == to`. */
  lemma Finish(rowWise: bool, g: CoreRange, c: CoreCoord, wanted: nat, before: seq<CoreCoord>,
               rs: seq<CoreRange>, remaining: nat, line: nat, from: CoreCoord, to: CoreCoord)
    requires HasCell(g, c) && Progress(rowWise, g, c, wanted, before, rs, remaining, line, from, to)
    requires remaining == 0 || line > Major(rowWise, g.end)
    ensures from != to ==> Ordered(Corners(from, to))
    ensures Finished(rowWise, g, c, wanted, before, if from != to then rs + [Corners(from, to)] else rs, remaining)
  {
    hide Size, GaveUpTo, PlaceIn, LineStart, Finished, Given;
    if Fresh(rowWise, g, c, wanted, before, rs, remaining, line, from, to) {
      NothingGiven(rowWise, g, c, before, rs);
      GivenNothing(rowWise, g, c);
      GaveAll(rowWise, g, c, wanted, before, rs, remaining);
    } else if Pending(rowWise, g, c, wanted, before, rs, remaining, line, from, to) {
      GivenByLines(rowWise, g, c, wanted, remaining, line);
      LoneIsUnpushed(rowWise, g, c, line, from, to, wanted - remaining);
      if from != to {
        PushPending(rowWise, g, c, wanted, before, rs, remaining, line, from, to);
        GaveAll(rowWise, g, c, wanted, before, rs + [Corners(from, to)], remaining);
      } else if Major(rowWise, from) < line {
        LineStartAtStart(rowWise, g, c);
        GaveLone(rowWise, g, c, wanted, before, rs, remaining);
      } else {
        GaveAll(rowWise, g, c, wanted, before, rs, remaining);
      }
    } else {
      GivenWanted(rowWise, g, c, wanted, before, rs);
      GaveAll(rowWise, g, c, wanted, before, rs, remaining);
    }
  }

  lemma GaveAll(rowWise: bool, g: CoreRange, c: CoreCoord, wanted: nat, before: seq<CoreCoord>,
                rs: seq<CoreRange>, remaining: nat)
    requires HasCell(g, c) && remaining + Given(rowWise, g, c, wanted) == wanted
    requires !IsLone(rowWise, g, Given(rowWise, g, c, wanted))
    requires GaveUpTo(rowWise, g, c, before, rs, PlaceIn(rowWise, g, c) + Given(rowWise, g, c, wanted))
    ensures Finished(rowWise, g, c, wanted, before, rs, remaining)
  {
    hide Size, PlaceIn, Listed, Given;
  }

  lemma GaveLone(rowWise: bool, g: CoreRange, c: CoreCoord, wanted: nat, before: seq<CoreCoord>,
                 rs: seq<CoreRange>, remaining: nat)
    requires HasCell(g, c) && remaining + Given(rowWise, g, c, wanted) == wanted
    requires IsLone(rowWise, g, Given(rowWise, g, c, wanted))
    requires GaveUpTo(rowWise, g, c, before, rs, PlaceIn(rowWise, g, c))
    ensures Finished(rowWise, g, c, wanted, before, rs, remaining)
  {
    hide Size, PlaceIn, Given;
    PlaceInRange(rowWise, g, c);
    assert Listed(rowWise, g)[PlaceIn(rowWise, g, c)..PlaceIn(rowWise, g, c)] == [];
  }

  lemma GivenNothing(rowWise: bool, g: CoreRange, c: CoreCoord)
    requires HasCell(g, c)
    ensures Given(rowWise, g, c, 0) == 0
  {
    PlaceInRange(rowWise, g, c);
  }

  lemma GivenWanted(rowWise: bool, g: CoreRange, c: CoreCoord, wanted: nat, before: seq<CoreCoord>, rs: seq<CoreRange>)
    requires HasCell(g, c) && GaveUpTo(rowWise, g, c, before, rs, PlaceIn(rowWise, g, c) + wanted)
    ensures Given(rowWise, g, c, wanted) == wanted
  {
    hide Size, PlaceIn;
  }

  lemma LineStartAtStart(rowWise: bool, g: CoreRange, c: CoreCoord)
    requires HasCell(g, c) && Minor(rowWise, c) == Minor(rowWise, g.start)
    ensures LineStart(rowWise, g, Major(rowWise, c)) == PlaceIn(rowWise, g, c)
  {
  }

  lemma GivenByLines(rowWise: bool, g: CoreRange, c: CoreCoord, wanted: nat, remaining: nat, line: nat)
    requires HasCell(g, c) && Major(rowWise, c) <= line <= Major(rowWise, g.end) + 1 && remaining <= wanted
    requires PlaceIn(rowWise, g, c) + (wanted - remaining) == LineStart(rowWise, g, line)
    requires remaining == 0 || line > Major(rowWise, g.end)
    ensures Given(rowWise, g, c, wanted) == wanted - remaining
  {
    hide Size, PlaceIn;
    PlaceInRange(rowWise, g, c);
    SizeByLines(rowWise, g);
    MulMono(line - Major(rowWise, g.start), Lines(rowWise, g), RangeMinor(rowWise, g));
  }

  /** With lines pending, `from == to` says that exactly one core is pending and that lines hold one core. */
  lemma LoneIsUnpushed(rowWise: bool, g: CoreRange, c: CoreCoord, line: nat, from: CoreCoord, to: CoreCoord, given: nat)
    requires HasCell(g, c) && Minor(rowWise, from) == Minor(rowWise, g.start)
    requires Major(rowWise, c) <= Major(rowWise, from) <= line
    requires to == (if Major(rowWise, from) == line then from else At(rowWise, line - 1, Minor(rowWise, g.end)))
    requires RangeMinor(rowWise, g) == 1 ==> Major(rowWise, from) == Major(rowWise, c)
    requires PlaceIn(rowWise, g, c) + given == LineStart(rowWise, g, line)
    ensures from == to && Major(rowWise, from) < line <==> IsLone(rowWise, g, given) && Major(rowWise, from) < line
    ensures IsLone(rowWise, g, given) ==> Major(rowWise, from) < line
  {
  }

  // ----- the rectangles pushed for one sub-grid

  /** At most three rectangles of `g`, each below the one before it and none joinable to another. */
  ghost predicate Pieces(rowWise: bool, g: CoreRange, ps: seq<CoreRange>)
  {
    |ps| <= 3 && Stepped(rowWise, ps) && forall r :: r in ps ==> ContainsRange(g, r)
  }

  /** `ps` has been pushed for `g`; the whole lines from `from` to just before `line` are still to be pushed. */
  ghost predicate Pushing(rowWise: bool, g: CoreRange, ps: seq<CoreRange>, remaining: nat, line: nat,
                          from: CoreCoord, to: CoreCoord)
  {
    && Pieces(rowWise, g, ps)
    && ((remaining == 0 && from == to) || PushedFirst(rowWise, g, ps, line, from, to))
  }

  /** At most the rest of the first line has been pushed. */
  ghost predicate PushedFirst(rowWise: bool, g: CoreRange, ps: seq<CoreRange>, line: nat, from: CoreCoord,
                              to: CoreCoord)
  {
    && Major(rowWise, g.start) <= Major(rowWise, from) <= line <= Major(rowWise, g.end) + 1
    && |ps| <= 1
    && (forall r :: r in ps ==> Major(rowWise, r.end) < Major(rowWise, from)
                                && Minor(rowWise, r.start) > Minor(rowWise, g.start))
    && (if Major(rowWise, from) == line then from == to
        else to == At(rowWise, line - 1, Minor(rowWise, g.end)))
    && (Minor(rowWise, from) == Minor(rowWise, g.start) || (ps == [] && Major(rowWise, from) == line))
  }

  lemma PushNothing(rowWise: bool, g: CoreRange, c: CoreCoord, wanted: nat, rs: seq<CoreRange>)
    requires HasCell(g, c)
    ensures rs <= rs && Pushing(rowWise, g, rs[|rs|..], wanted, Major(rowWise, c), c, c)
  {
  }

  /** A line that is not taken whole: the pending lines are pushed, then part of this one. */
  lemma PushPartial(rowWise: bool, g: CoreRange, ps: seq<CoreRange>, remaining: nat, line: nat, from: CoreCoord,
                    to: CoreCoord, width: nat)
    requires Pushing(rowWise, g, ps, remaining, line, from, to)
    requires remaining > 0 && line <= Major(rowWise, g.end)
    requires Minor(rowWise, g.start) <= Minor(rowWise, from) <= Minor(rowWise, g.end)
    requires width == Min(Minor(rowWise, g.end) - Minor(rowWise, from) + 1, remaining)
    requires width < RangeMinor(rowWise, g)
    ensures from != to ==> Ordered(Corners(from, to))
    ensures var ps1 := if from != to then ps + [Corners(from, to)] else ps;
            var part := Corners(At(rowWise, line, Minor(rowWise, from)),
                                At(rowWise, line, Minor(rowWise, from) + width - 1));
            var next := At(rowWise, line + 1, Minor(rowWise, g.start));
            Ordered(part) && Pushing(rowWise, g, ps1 + [part], remaining - width, line + 1, next, next)
  {
  }

  lemma PushFull(rowWise: bool, g: CoreRange, ps: seq<CoreRange>, remaining: nat, line: nat, from: CoreCoord,
                 to: CoreCoord, width: nat)
    requires Pushing(rowWise, g, ps, remaining, line, from, to)
    requires remaining > 0 && line <= Major(rowWise, g.end)
    requires Minor(rowWise, g.start) <= Minor(rowWise, from) <= Minor(rowWise, g.end)
    requires width == Min(Minor(rowWise, g.end) - Minor(rowWise, from) + 1, remaining)
    requires width >= RangeMinor(rowWise, g)
    ensures Pushing(rowWise, g, ps, remaining - width, line + 1, from, At(rowWise, line, Minor(rowWise, g.end)))
  {
  }

  lemma PushLast(rowWise: bool, g: CoreRange, ps: seq<CoreRange>, remaining: nat, line: nat, from: CoreCoord,
                 to: CoreCoord)
    requires Pushing(rowWise, g, ps, remaining, line, from, to)
    ensures from != to ==> Ordered(Corners(from, to))
    ensures Pieces(rowWise, g, if from != to then ps + [Corners(from, to)] else ps)
  {
  }

  /** The row-wise lambda. */
  method ProcessRowWise(g: CoreRange, c: CoreCoord, wanted: nat, rs0: seq<CoreRange>)
    returns (rs: seq<CoreRange>, remaining: nat)
    requires HasCell(g, c)
    ensures Finished(true, g, c, wanted, Flatten(true, rs0), rs, remaining)
    ensures rs0 <= rs && Pieces(true, g, rs[|rs0|..])
  {
    hide Size, Progress, Finished, Pushing, Pieces;
    rs, remaining := rs0, wanted;
    var from, to := c, c;
    ghost var before := Flatten(true, rs0);
    var gridWidth := g.end.x - g.start.x + 1;
    var y := from.y;
    StartFresh(true, g, c, wanted, rs0);
    PushNothing(true, g, c, wanted, rs0);
    while y <= g.end.y
      invariant Progress(true, g, c, wanted, before, rs, remaining, y, from, to)
      invariant rs0 <= rs && Pushing(true, g, rs[|rs0|..], remaining, y, from, to)
      invariant g.start.x <= from.x <= g.end.x
    {
      if remaining == 0 {
        break;
      }
      var width := Min(g.end.x - from.x + 1, remaining);
      if width < gridWidth {
        PushPartial(true, g, rs[|rs0|..], remaining, y, from, to, width);
        PartialLine(true, g, c, wanted, before, rs, remaining, y, from, to, width);
        if from != to {
          AppendAfter(|rs0|, rs);
          rs := rs + [Corners(from, to)];
        }
        to := CoreCoord(from.x + width - 1, y);
        remaining := remaining - width;
        AppendAfter(|rs0|, rs);
        rs := rs + [Corners(CoreCoord(from.x, y), CoreCoord(to.x, y))];
        from := CoreCoord(g.start.x, y + 1);
        to := from;
      } else {
        PushFull(true, g, rs[|rs0|..], remaining, y, from, to, width);
        FullLine(true, g, c, wanted, before, rs, remaining, y, from, to, width);
        to := CoreCoord(g.end.x, y);
        remaining := remaining - width;
      }
      y := y + 1;
    }
    PushLast(true, g, rs[|rs0|..], remaining, y, from, to);
    Finish(true, g, c, wanted, before, rs, remaining, y, from, to);
    if from != to {
      AppendAfter(|rs0|, rs);
      rs := rs + [Corners(from, to)];
    }
  }

  lemma AppendAfter<T>(k: nat, s: seq<T>)
    requires k <= |s|
    ensures forall x :: (s + [x])[k..] == s[k..] + [x]
  {
  }

  lemma StartFresh(rowWise: bool, g: CoreRange, c: CoreCoord, wanted: nat, rs: seq<CoreRange>)
    requires HasCell(g, c)
    ensures Progress(rowWise, g, c, wanted, Flatten(rowWise, rs), rs, wanted, Major(rowWise, c), c, c)
  {
  }

  /** The column-wise lambda. */
  method ProcessColWise(g: CoreRange, c: CoreCoord, wanted: nat, rs0: seq<CoreRange>)
    returns (rs: seq<CoreRange>, remaining: nat)
    requires HasCell(g, c)
    ensures Finished(false, g, c, wanted, Flatten(false, rs0), rs, remaining)
    ensures rs0 <= rs && Pieces(false, g, rs[|rs0|..])
  {
    hide Size, Progress, Finished, Pushing, Pieces;
    rs, remaining := rs0, wanted;
    var from, to := c, c;
    ghost var before := Flatten(false, rs0);
    var gridHeight := g.end.y - g.start.y + 1;
    var x := from.x;
    StartFresh(false, g, c, wanted, rs0);
    PushNothing(false, g, c, wanted, rs0);
    while x <= g.end.x
      invariant Progress(false, g, c, wanted, before, rs, remaining, x, from, to)
      invariant rs0 <= rs && Pushing(false, g, rs[|rs0|..], remaining, x, from, to)
      invariant g.start.y <= from.y <= g.end.y
    {
      if remaining == 0 {
        break;
      }
      var height := Min(g.end.y - from.y + 1, remaining);
      if height < gridHeight {
        PushPartial(false, g, rs[|rs0|..], remaining, x, from, to, height);
        PartialLine(false, g, c, wanted, before, rs, remaining, x, from, to, height);
        if from != to {
          AppendAfter(|rs0|, rs);
          rs := rs + [Corners(from, to)];
        }
        to := CoreCoord(x, from.y + height - 1);
        remaining := remaining - height;
        AppendAfter(|rs0|, rs);
        rs := rs + [Corners(CoreCoord(x, from.y), CoreCoord(x, to.y))];
        from := CoreCoord(x + 1, g.start.y);
        to := from;
      } else {
        PushFull(false, g, rs[|rs0|..], remaining, x, from, to, height);
        FullLine(false, g, c, wanted, before, rs, remaining, x, from, to, height);
        to := CoreCoord(x, g.end.y);
        remaining := remaining - height;
      }
      x := x + 1;
    }
    PushLast(false, g, rs[|rs0|..], remaining, x, from, to);
    Finish(false, g, c, wanted, before, rs, remaining, x, from, to);
    if from != to {
      AppendAfter(|rs0|, rs);
      rs := rs + [Corners(from, to)];
    }
  }

  // ----- all the sub-grids

  /** Where `start` comes when the sub-grids are listed one after the other. */
  ghost function RouteStart(rowWise: bool, gs: CoreRangeSet, start: CoreCoord): (p: nat)
    requires start in CellsOf(gs)
    ensures p < |Flatten(rowWise, gs)| && Flatten(rowWise, gs)[p] == start
  {
    FlattenIsCells(rowWise, gs);
    var p: nat :| p < |Flatten(rowWise, gs)| && Flatten(rowWise, gs)[p] == start;
    p
  }

  /** The cores that were asked for: the first `target` met when walking the sub-grids from `start`. */
  ghost function Asked(rowWise: bool, gs: CoreRangeSet, start: CoreCoord, target: nat): seq<CoreCoord>
    requires start in CellsOf(gs)
    requires RouteStart(rowWise, gs, start) + target <= |Flatten(rowWise, gs)|
  {
    Flatten(rowWise, gs)[RouteStart(rowWise, gs, start)..RouteStart(rowWise, gs, start) + target]
  }

  /** `c` is the only core taken from a sub-grid that is one core wide. */
  ghost predicate Loses(rowWise: bool, gs: seq<CoreRange>, taken: seq<CoreCoord>, c: CoreCoord)
  {
    exists i :: 0 <= i < |gs| && LosesFrom(rowWise, gs[i], taken, c)
  }

  ghost predicate LosesFrom(rowWise: bool, g: CoreRange, taken: seq<CoreCoord>, c: CoreCoord)
  {
    HasCell(g, c) && RangeMinor(rowWise, g) == 1 && forall d :: d in taken && HasCell(g, d) ==> d == c
  }

  /** The cores of `s`, in order, that are not lost. */
  ghost function Survivors(rowWise: bool, gs: seq<CoreRange>, taken: seq<CoreCoord>, s: seq<CoreCoord>): seq<CoreCoord>
  {
    if s == [] then []
    else
      var k := |s| - 1;
      Survivors(rowWise, gs, taken, s[..k]) + (if Loses(rowWise, gs, taken, s[k]) then [] else [s[k]])
  }

  lemma {:induction false} SurvivorsConcat(rowWise: bool, gs: seq<CoreRange>, taken: seq<CoreCoord>, a: seq<CoreCoord>,
                                           b: seq<CoreCoord>)
    ensures Survivors(rowWise, gs, taken, a + b) == Survivors(rowWise, gs, taken, a) + Survivors(rowWise, gs, taken, b)
  {
    if b == [] {
      assert a + b == a;
    } else {
      assert (a + b)[..|a + b| - 1] == a + b[..|b| - 1];
      SurvivorsConcat(rowWise, gs, taken, a, b[..|b| - 1]);
    }
  }

  lemma {:induction false} SurvivorsAre(rowWise: bool, gs: seq<CoreRange>, taken: seq<CoreCoord>, s: seq<CoreCoord>)
    ensures forall c :: c in Survivors(rowWise, gs, taken, s) <==> c in s && !Loses(rowWise, gs, taken, c)
    ensures |Survivors(rowWise, gs, taken, s)| <= |s|
    ensures |Survivors(rowWise, gs, taken, s)| == |s| ==> Survivors(rowWise, gs, taken, s) == s
  {
    hide Loses;
    if s != [] {
      SurvivorsAre(rowWise, gs, taken, s[..|s| - 1]);
      assert s == s[..|s| - 1] + [s[|s| - 1]];
    }
  }

  lemma {:induction false} SurvivorsDistinct(rowWise: bool, gs: seq<CoreRange>, taken: seq<CoreCoord>,
                                             s: seq<CoreCoord>)
    requires NoDuplicates(s)
    ensures NoDuplicates(Survivors(rowWise, gs, taken, s))
  {
    hide Loses, NoDuplicates;
    if s != [] {
      var k := |s| - 1;
      assert s == s[..k] + [s[k]];
      NoDuplicatesConcat(s[..k], [s[k]]);
      SurvivorsDistinct(rowWise, gs, taken, s[..k]);
      SurvivorsAre(rowWise, gs, taken, s[..k]);
      var front := Survivors(rowWise, gs, taken, s[..k]);
      NoDuplicatesConcat(front, [s[k]]);
      assert front + [] == front;
    }
  }

  /** A stretch of cores whose sub-grid loses all of them, or none. */
  lemma {:induction false} SurvivorsUniform(rowWise: bool, gs: seq<CoreRange>, taken: seq<CoreCoord>, s: seq<CoreCoord>,
                                            lost: bool)
    requires forall c :: c in s ==> (Loses(rowWise, gs, taken, c) <==> lost)
    ensures Survivors(rowWise, gs, taken, s) == if lost then [] else s
  {
    if s != [] {
      assert s == s[..|s| - 1] + [s[|s| - 1]];
      SurvivorsUniform(rowWise, gs, taken, s[..|s| - 1], lost);
    }
  }

  /** Where sub-grid `i` begins in the listing of all of them. */
  ghost function Offset(rowWise: bool, gs: seq<CoreRange>, i: nat): nat
    requires i <= |gs|
  {
    |Flatten(rowWise, gs[..i])|
  }

  lemma OffsetStep(rowWise: bool, gs: seq<CoreRange>, i: nat)
    requires i < |gs|
    ensures Offset(rowWise, gs, i + 1) == Offset(rowWise, gs, i) + Size(gs[i])
    ensures Offset(rowWise, gs, i + 1) <= |Flatten(rowWise, gs)|
    ensures Flatten(rowWise, gs)[Offset(rowWise, gs, i)..Offset(rowWise, gs, i + 1)] == Listed(rowWise, gs[i])
  {
    hide Flatten, Listed, Size;
    FlattenPrefix(rowWise, gs, i);
    SliceOfPrefix(Flatten(rowWise, gs), Flatten(rowWise, gs[..i]), Listed(rowWise, gs[i]));
  }

  lemma SliceOfPrefix<T>(l: seq<T>, a: seq<T>, b: seq<T>)
    requires a + b <= l
    ensures |a| + |b| <= |l| && l[|a|..|a| + |b|] == b
  {
  }

  /** A core of sub-grid `i` is listed at the offset of `i` plus its place there, and nowhere else. */
  lemma ListedOnce(rowWise: bool, gs: CoreRangeSet, i: nat, t: nat)
    requires i < |gs| && t < |Flatten(rowWise, gs)|
    ensures HasCell(gs[i], Flatten(rowWise, gs)[t]) <==>
            Offset(rowWise, gs, i) <= t < Offset(rowWise, gs, i + 1)
    ensures HasCell(gs[i], Flatten(rowWise, gs)[t]) ==>
            t == Offset(rowWise, gs, i) + PlaceIn(rowWise, gs[i], Flatten(rowWise, gs)[t])
  {
    hide Size, Offset, Flatten, Listed, PlaceIn;
    OffsetStep(rowWise, gs, i);
    NoDuplicatesIffDisjoint(rowWise, gs);
    ListedIsCells(rowWise, gs[i]);
    var l, o, c := Flatten(rowWise, gs), Offset(rowWise, gs, i), Flatten(rowWise, gs)[t];
    if o <= t < Offset(rowWise, gs, i + 1) {
      assert Listed(rowWise, gs[i])[t - o] == c;
    }
    if HasCell(gs[i], c) {
      PlaceInRange(rowWise, gs[i], c);
      var q := o + PlaceIn(rowWise, gs[i], c);
      assert l[o..Offset(rowWise, gs, i + 1)][q - o] == l[q];
      assert l[q] == l[t];
    }
  }

  /** The part of the request that falls in sub-grid `i` is lost exactly when it is a lone core. */
  lemma SegmentLost(rowWise: bool, gs: CoreRangeSet, i: nat, from: nat, to: nat, a: nat, b: nat, c: CoreCoord)
    requires i < |gs| && from <= to <= |Flatten(rowWise, gs)|
    requires a == Max(from, Offset(rowWise, gs, i)) && b == Min(to, Offset(rowWise, gs, i + 1)) && a <= b
    requires c in Flatten(rowWise, gs)[a..b]
    ensures Loses(rowWise, gs, Flatten(rowWise, gs)[from..to], c) <==> IsLone(rowWise, gs[i], b - a)
  {
    hide Size, Offset, Flatten, PlaceIn;
    var l := Flatten(rowWise, gs);
    var taken := l[from..to];
    var j :| 0 <= j < b - a && l[a..b][j] == c;
    var t := a + j;
    assert l[t] == c && taken[t - from] == c;
    ListedOnce(rowWise, gs, i, t);
    if IsLone(rowWise, gs[i], b - a) {
      forall d | d in taken && HasCell(gs[i], d)
        ensures d == c
      {
        var u :| 0 <= u < |taken| && taken[u] == d;
        assert l[from + u] == d;
        ListedOnce(rowWise, gs, i, from + u);
      }
      assert LosesFrom(rowWise, gs[i], taken, c);
    }
    if b - a >= 2 {
      // another core of the same sub-grid was asked for
      var u := if j == 0 then a + 1 else a;
      ListedOnce(rowWise, gs, i, u);
      NoDuplicatesIffDisjoint(rowWise, gs);
      assert taken[u - from] == l[u];
      assert l[u] in taken && l[u] != c && HasCell(gs[i], l[u]);
    }
    if k :| 0 <= k < |gs| && LosesFrom(rowWise, gs[k], taken, c) {
      SharedCell(gs, i, k, c);
    }
  }

  lemma SharedCell(gs: CoreRangeSet, i: nat, k: nat, c: CoreCoord)
    requires i < |gs| && k < |gs| && HasCell(gs[i], c) && HasCell(gs[k], c)
    ensures i == k
  {
    assert Intersects(gs[i], gs[k]) && Intersects(gs[k], gs[i]);
  }

  /** What the loop over the sub-grids has done after the first `i` of them, when `start` is at place `from`. */
  ghost predicate Walked(rowWise: bool, gs: CoreRangeSet, from: nat, target: nat, i: nat,
                         found: bool, rs: seq<CoreRange>, remaining: nat)
    requires i <= |gs| && from < |Flatten(rowWise, gs)|
  {
    var l, o := Flatten(rowWise, gs), Offset(rowWise, gs, i);
    && o <= |l|
    && (found <==> from < o)
    && remaining == from + target - (if found then Min(o, from + target) else from)
    && Flatten(rowWise, rs) == if found
       then Survivors(rowWise, gs, l[from..Min(|l|, from + target)], l[from..Min(o, from + target)])
       else []
  }

  /** The core from which sub-grid `i` is filled. */
  function EntryCore(g: CoreRange, start: CoreCoord): CoreCoord
  {
    if HasCell(g, start) then start else g.start
  }

  lemma WalkStep(rowWise: bool, gs: CoreRangeSet, start: CoreCoord, from: nat, target: nat, i: nat,
                 found: bool, rs: seq<CoreRange>, remaining: nat, rs': seq<CoreRange>, remaining': nat)
    requires i < |gs| && target > 0 && from < |Flatten(rowWise, gs)| && Flatten(rowWise, gs)[from] == start
    requires Walked(rowWise, gs, from, target, i, found, rs, remaining)
    requires found || HasCell(gs[i], start)
    requires Finished(rowWise, gs[i], EntryCore(gs[i], start), remaining, Flatten(rowWise, rs), rs', remaining')
    ensures Walked(rowWise, gs, from, target, i + 1, true, rs', remaining')
  {
    hide Size, Offset, Flatten, Listed, Survivors, Finished;
    ReachedBounds(rowWise, gs, i, from, start);
    if remaining == 0 {
      IdleStep(rowWise, gs, start, from, target, i, found, rs, remaining, rs', remaining');
    } else {
      TakingStep(rowWise, gs, start, from, target, i, found, rs, remaining, rs', remaining');
    }
  }

  lemma ReachedBounds(rowWise: bool, gs: CoreRangeSet, i: nat, from: nat, start: CoreCoord)
    requires i < |gs| && from < |Flatten(rowWise, gs)| && Flatten(rowWise, gs)[from] == start
    requires from < Offset(rowWise, gs, i) || HasCell(gs[i], start)
    ensures from < Offset(rowWise, gs, i + 1) <= |Flatten(rowWise, gs)|
    ensures Offset(rowWise, gs, i) <= Offset(rowWise, gs, i + 1)
    ensures HasCell(gs[i], EntryCore(gs[i], start))
  {
    hide Size, Offset, Flatten, Listed;
    OffsetStep(rowWise, gs, i);
    ListedOnce(rowWise, gs, i, from);
  }

  lemma IdleStep(rowWise: bool, gs: CoreRangeSet, start: CoreCoord, from: nat, target: nat, i: nat, found: bool,
                 rs: seq<CoreRange>, remaining: nat, rs': seq<CoreRange>, remaining': nat)
    requires i < |gs| && remaining == 0 && target > 0
    requires from < |Flatten(rowWise, gs)| && Flatten(rowWise, gs)[from] == start
    requires Walked(rowWise, gs, from, target, i, found, rs, remaining)
    requires from < Offset(rowWise, gs, i + 1) <= |Flatten(rowWise, gs)|
    requires Offset(rowWise, gs, i) <= Offset(rowWise, gs, i + 1)
    requires HasCell(gs[i], EntryCore(gs[i], start))
    requires Finished(rowWise, gs[i], EntryCore(gs[i], start), remaining, Flatten(rowWise, rs), rs', remaining')
    ensures Walked(rowWise, gs, from, target, i + 1, true, rs', remaining')
  {
    hide Size, Offset, Flatten, Listed, PlaceIn, RouteStart, Survivors, Contribution, Given;
    GivesNothing(rowWise, gs[i], EntryCore(gs[i], start));
    assert Flatten(rowWise, rs') == Flatten(rowWise, rs);
  }

  lemma TakingStep(rowWise: bool, gs: CoreRangeSet, start: CoreCoord, from: nat, target: nat, i: nat, found: bool,
                   rs: seq<CoreRange>, remaining: nat, rs': seq<CoreRange>, remaining': nat)
    requires i < |gs| && remaining > 0
    requires from < |Flatten(rowWise, gs)| && Flatten(rowWise, gs)[from] == start
    requires Walked(rowWise, gs, from, target, i, found, rs, remaining)
    requires from < Offset(rowWise, gs, i + 1) <= |Flatten(rowWise, gs)|
    requires Offset(rowWise, gs, i) <= Offset(rowWise, gs, i + 1)
    requires HasCell(gs[i], EntryCore(gs[i], start))
    requires Finished(rowWise, gs[i], EntryCore(gs[i], start), remaining, Flatten(rowWise, rs), rs', remaining')
    ensures Walked(rowWise, gs, from, target, i + 1, true, rs', remaining')
  {
    hide Size, Offset, Flatten, Listed, PlaceIn, RouteStart, Survivors, Contribution, Given;
    SegmentStep(rowWise, gs, start, from, target, i, remaining);
    var l, o := Flatten(rowWise, gs), Offset(rowWise, gs, i);
    if found {
      assert Max(from, o) == Min(o, from + target);
    } else {
      assert l[from..Max(from, o)] == [];
      NoSurvivors(rowWise, gs, l[from..Min(|l|, from + target)]);
    }
  }

  lemma NoSurvivors(rowWise: bool, gs: seq<CoreRange>, taken: seq<CoreCoord>)
    ensures Survivors(rowWise, gs, taken, []) == []
  {
  }

  lemma GivesNothing(rowWise: bool, g: CoreRange, c: CoreCoord)
    requires HasCell(g, c)
    ensures Given(rowWise, g, c, 0) == 0 && Contribution(rowWise, g, c, 0) == []
  {
    PlaceInRange(rowWise, g, c);
  }

  /** What sub-grid `i` contributes is what survives of its part of the request. */
  lemma SegmentStep(rowWise: bool, gs: CoreRangeSet, start: CoreCoord, from: nat, target: nat, i: nat, remaining: nat)
    requires i < |gs| && from < Offset(rowWise, gs, i + 1) && remaining > 0
    requires from < |Flatten(rowWise, gs)| && Flatten(rowWise, gs)[from] == start
    requires remaining == from + target - Max(from, Offset(rowWise, gs, i))
    ensures HasCell(gs[i], EntryCore(gs[i], start))
    ensures var l := Flatten(rowWise, gs);
            var a, to := Max(from, Offset(rowWise, gs, i)), Min(Offset(rowWise, gs, i + 1), from + target);
            var taken := l[from..Min(|l|, from + target)];
            && a <= to <= |l|
            && Given(rowWise, gs[i], EntryCore(gs[i], start), remaining) == to - a
            && Survivors(rowWise, gs, taken, l[from..to])
               == Survivors(rowWise, gs, taken, l[from..a])
               + Contribution(rowWise, gs[i], EntryCore(gs[i], start), remaining)
  {
    hide Size, Offset, Flatten, Listed, PlaceIn, RouteStart, Survivors, IsLone, Contribution, Given, HasCell, EntryCore;
    var l, g, c := Flatten(rowWise, gs), gs[i], EntryCore(gs[i], start);
    OffsetStep(rowWise, gs, i);
    SegmentBounds(rowWise, gs, start, from, target, i, remaining);
    var a, to := Max(from, Offset(rowWise, gs, i)), Min(Offset(rowWise, gs, i + 1), from + target);
    SegmentIs(rowWise, gs, i, PlaceIn(rowWise, g, c), Given(rowWise, g, c, remaining));
    ContributionIs(rowWise, g, c, remaining);
    SegmentSurvives(rowWise, gs, i, from, Min(|l|, from + target), a, to);
  }

  /** Where the part of the request that falls in sub-grid `i` begins, and how long it is. */
  lemma SegmentBounds(rowWise: bool, gs: CoreRangeSet, start: CoreCoord, from: nat, target: nat, i: nat, remaining: nat)
    requires i < |gs| && from < Offset(rowWise, gs, i + 1) && remaining > 0
    requires from < |Flatten(rowWise, gs)| && Flatten(rowWise, gs)[from] == start
    requires remaining == from + target - Max(from, Offset(rowWise, gs, i))
    ensures HasCell(gs[i], EntryCore(gs[i], start))
    ensures var a, to := Max(from, Offset(rowWise, gs, i)), Min(Offset(rowWise, gs, i + 1), from + target);
            var p, n := PlaceIn(rowWise, gs[i], EntryCore(gs[i], start)),
                Given(rowWise, gs[i], EntryCore(gs[i], start), remaining);
            a <= to && a == Offset(rowWise, gs, i) + p && n == to - a && p + n <= Size(gs[i])
  {
    hide Size, Offset, Flatten, PlaceIn;
    OffsetStep(rowWise, gs, i);
    ListedOnce(rowWise, gs, i, from);
    EntryPlace(rowWise, gs, i, start, from);
    PlaceInRange(rowWise, gs[i], EntryCore(gs[i], start));
  }

  lemma ContributionIs(rowWise: bool, g: CoreRange, c: CoreCoord, wanted: nat)
    requires HasCell(g, c)
    ensures var p, n := PlaceIn(rowWise, g, c), Given(rowWise, g, c, wanted);
            && p + n <= Size(g)
            && Contribution(rowWise, g, c, wanted) == if IsLone(rowWise, g, n) then [] else Listed(rowWise, g)[p..p + n]
  {
    hide Size, PlaceIn, Listed;
    PlaceInRange(rowWise, g, c);
  }

  lemma SegmentSurvives(rowWise: bool, gs: CoreRangeSet, i: nat, from: nat, to: nat, a: nat, b: nat)
    requires i < |gs| && from <= to <= |Flatten(rowWise, gs)|
    requires a == Max(from, Offset(rowWise, gs, i)) && b == Min(to, Offset(rowWise, gs, i + 1)) && a <= b
    ensures var l := Flatten(rowWise, gs);
            Survivors(rowWise, gs, l[from..to], l[from..b])
            == Survivors(rowWise, gs, l[from..to], l[from..a]) + (if IsLone(rowWise, gs[i], b - a) then [] else l[a..b])
  {
    hide Size, Offset, Flatten, Loses, Survivors;
    var l := Flatten(rowWise, gs);
    forall d | d in l[a..b]
      ensures Loses(rowWise, gs, l[from..to], d) <==> IsLone(rowWise, gs[i], b - a)
    {
      SegmentLost(rowWise, gs, i, from, to, a, b, d);
    }
    SurvivorsUniform(rowWise, gs, l[from..to], l[a..b], IsLone(rowWise, gs[i], b - a));
    SurvivorsConcat(rowWise, gs, l[from..to], l[from..a], l[a..b]);
    assert l[from..a] + l[a..b] == l[from..b];
  }

  lemma EntryPlace(rowWise: bool, gs: CoreRangeSet, i: nat, start: CoreCoord, from: nat)
    requires i < |gs| && from < |Flatten(rowWise, gs)| && Flatten(rowWise, gs)[from] == start
    ensures HasCell(gs[i], EntryCore(gs[i], start))
    ensures from < Offset(rowWise, gs, i) ==> PlaceIn(rowWise, gs[i], EntryCore(gs[i], start)) == 0
    ensures HasCell(gs[i], start) ==>
            from == Offset(rowWise, gs, i) + PlaceIn(rowWise, gs[i], EntryCore(gs[i], start))
  {
    hide Size, Flatten, Offset;
    ListedOnce(rowWise, gs, i, from);
  }

  lemma SegmentIs(rowWise: bool, gs: CoreRangeSet, i: nat, p: nat, n: nat)
    requires i < |gs| && p + n <= Size(gs[i])
    ensures Offset(rowWise, gs, i) + Size(gs[i]) <= |Flatten(rowWise, gs)|
    ensures Listed(rowWise, gs[i])[p..p + n]
         == Flatten(rowWise, gs)[Offset(rowWise, gs, i) + p..Offset(rowWise, gs, i) + p + n]
  {
    hide Size, Offset, Flatten, Listed;
    OffsetStep(rowWise, gs, i);
    var l, o := Flatten(rowWise, gs), Offset(rowWise, gs, i);
    SliceOfSlice(l, o, o + Size(gs[i]), p, n);
  }

  lemma SliceOfSlice<T>(l: seq<T>, from: nat, to: nat, p: nat, n: nat)
    requires from <= to <= |l| && p + n <= to - from
    ensures l[from..to][p..p + n] == l[from + p..from + p + n]
  {
    var s := l[from..to];
    var a, b := s[p..p + n], l[from + p..from + p + n];
    assert |a| == |b|;
    forall i | 0 <= i < n
      ensures a[i] == b[i]
    {
      assert a[i] == s[p + i];
      assert s[p + i] == l[from + (p + i)];
    }
  }

  /** When the request can be met: it is not empty, and enough cores are listed from `start` on. */
  ghost predicate CanAllocate(rowWise: bool, gs: CoreRangeSet, start: CoreCoord, target: nat)
  {
    target > 0 && start in CellsOf(gs) && RouteStart(rowWise, gs, start) + target <= |Flatten(rowWise, gs)|
  }

  /** Every rectangle is part of one of the first `n` sub-grids, and no two parts of a sub-grid could be joined. */
  ghost predicate CutBy(gs: seq<CoreRange>, n: nat, rs: seq<CoreRange>)
    requires n <= |gs|
  {
    && (forall r :: r in rs ==> InOneOf(gs, n, r))
    && forall i, j, k :: 0 <= i < j < |rs| && 0 <= k < n && ContainsRange(gs[k], rs[i]) && ContainsRange(gs[k], rs[j])
                         ==> Merge(rs[i], rs[j]).None? && Merge(rs[j], rs[i]).None?
  }

  ghost predicate InOneOf(gs: seq<CoreRange>, n: nat, r: CoreRange)
    requires n <= |gs|
  {
    exists k :: 0 <= k < n && ContainsRange(gs[k], r)
  }

  lemma CutMore(gs: CoreRangeSet, n: nat, rs: seq<CoreRange>)
    requires n < |gs| && CutBy(gs, n, rs)
    ensures CutBy(gs, n + 1, rs)
  {
    hide Merge, ContainsRange;
    forall i, k | 0 <= i < |rs| && 0 <= k < n + 1 && ContainsRange(gs[k], rs[i])
      ensures k < n
    {
      assert rs[i] in rs;
      var k' :| 0 <= k' < n && ContainsRange(gs[k'], rs[i]);
      InBoth(gs, k', k, rs[i]);
    }
    assert forall r :: InOneOf(gs, n, r) ==> InOneOf(gs, n + 1, r);
  }

  lemma CutStep(rowWise: bool, gs: CoreRangeSet, n: nat, rs: seq<CoreRange>, rs': seq<CoreRange>)
    requires n < |gs| && CutBy(gs, n, rs)
    requires rs <= rs' && Pieces(rowWise, gs[n], rs'[|rs|..])
    ensures CutBy(gs, n + 1, rs')
  {
    hide Merge, ContainsRange;
    CutMore(gs, n, rs);
    SteppedIsReduced(rowWise, rs'[|rs|..]);
    forall i | |rs| <= i < |rs'|
      ensures ContainsRange(gs[n], rs'[i])
    {
      assert rs'[i] == rs'[|rs|..][i - |rs|];
    }
    forall i, k | |rs| <= i < |rs'| && 0 <= k < |gs| && ContainsRange(gs[k], rs'[i])
      ensures k == n
    {
      InBoth(gs, k, n, rs'[i]);
    }
    forall i, k | 0 <= i < |rs| && 0 <= k < n + 1 && ContainsRange(gs[k], rs'[i])
      ensures k < n
    {
      assert rs'[i] in rs;
      var k' :| 0 <= k' < n && ContainsRange(gs[k'], rs'[i]);
      InBoth(gs, k', k, rs'[i]);
    }
  }

  lemma InBoth(gs: CoreRangeSet, i: nat, k: nat, r: CoreRange)
    requires i < |gs| && k < |gs| && ContainsRange(gs[i], r) && ContainsRange(gs[k], r)
    ensures i == k
  {
    SharedCell(gs, i, k, r.start);
  }

  /**
   The surviving cores in order; each rectangle is part of one sub-grid, and no two rectangles of one sub-grid could be
   joined.
   */
  method NumCoresInSubGrids(start: CoreCoord, target: nat, gs: CoreRangeSet, rowWise: bool)
    returns (r: Result<CoreRangeSet>)
    ensures r.Ok? <==> CanAllocate(rowWise, gs, start, target)
    ensures r.Ok? ==>
      Flatten(rowWise, r.value) == Survivors(rowWise, gs, Asked(rowWise, gs, start, target),
                                             Asked(rowWise, gs, start, target))
    ensures r.Ok? ==> CutBy(gs, |gs|, r.value)
  {
    hide Size, Flatten, Walked, Finished, Survivors, RouteStart, CutBy, Pieces;
    if target == 0 {
      return Fatal;
    }
    var available := NumCores(gs);
    RouteLength(rowWise, gs);
    if target > available {
      return Fatal;
    }
    var startInside := ContainsCoord(gs, start);
    if !startInside {
      return Fatal;
    }
    var result: seq<CoreRange> := [];
    var found := false;
    var remaining := target;
    ghost var from := RouteStart(rowWise, gs, start);
    WalkStart(rowWise, gs, from, target);
    CutNothing(gs);
    for i := 0 to |gs|
      invariant Walked(rowWise, gs, from, target, i, found, result, remaining)
      invariant CutBy(gs, i, result)
    {
      ghost var before, remainingBefore, foundBefore := result, remaining, found;
      var entry := gs[i].start;
      if HasCell(gs[i], start) {
        found := true;
        entry := start;
      } else if !found {
        WalkSkip(rowWise, gs, start, from, target, i, result, remaining);
        CutMore(gs, i, result);
        continue;
      }
      if rowWise {
        result, remaining := ProcessRowWise(gs[i], entry, remaining, result);
      } else {
        result, remaining := ProcessColWise(gs[i], entry, remaining, result);
      }
      CutStep(rowWise, gs, i, before, result);
      WalkStep(rowWise, gs, start, from, target, i, foundBefore, before, remainingBefore, result, remaining);
    }
    WalkEndCounts(rowWise, gs, start, target, found, result, remaining);
    if remaining != 0 {
      return Fatal;
    }
    WalkEnd(rowWise, gs, start, target, found, result);
    r := Construct(result);
  }

  lemma CutNothing(gs: seq<CoreRange>)
    ensures CutBy(gs, 0, [])
  {
  }

  lemma RouteLength(rowWise: bool, gs: CoreRangeSet)
    ensures |Flatten(rowWise, gs)| == |CellsOf(gs)|
  {
    FlattenIsCells(rowWise, gs);
    TotalSizeIsCardinality(gs);
  }

  lemma WalkStart(rowWise: bool, gs: CoreRangeSet, from: nat, target: nat)
    requires from < |Flatten(rowWise, gs)|
    ensures Walked(rowWise, gs, from, target, 0, false, [], target)
  {
  }

  lemma WalkSkip(rowWise: bool, gs: CoreRangeSet, start: CoreCoord, from: nat, target: nat, i: nat,
                 rs: seq<CoreRange>, remaining: nat)
    requires from < |Flatten(rowWise, gs)| && Flatten(rowWise, gs)[from] == start
    requires i < |gs| && !HasCell(gs[i], start)
    requires Walked(rowWise, gs, from, target, i, false, rs, remaining)
    ensures Walked(rowWise, gs, from, target, i + 1, false, rs, remaining)
  {
    hide Size, Offset, Flatten;
    OffsetStep(rowWise, gs, i);
    ListedOnce(rowWise, gs, i, from);
  }

  /** The state of the walk past the last sub-grid. */
  lemma WalkedAll(rowWise: bool, gs: CoreRangeSet, from: nat, target: nat, found: bool, rs: seq<CoreRange>,
                  remaining: nat)
    requires target > 0 && from < |Flatten(rowWise, gs)|
             && Walked(rowWise, gs, from, target, |gs|, found, rs, remaining)
    ensures remaining == 0 <==> from + target <= |Flatten(rowWise, gs)|
    ensures remaining == 0 ==>
              var taken := Flatten(rowWise, gs)[from..from + target];
              Flatten(rowWise, rs) == Survivors(rowWise, gs, taken, taken)
  {
    hide Size, Flatten, Survivors;
    assert gs[..|gs|] == gs;
  }

  lemma WalkEndCounts(rowWise: bool, gs: CoreRangeSet, start: CoreCoord, target: nat,
                      found: bool, rs: seq<CoreRange>, remaining: nat)
    requires start in CellsOf(gs) && target > 0
    requires Walked(rowWise, gs, RouteStart(rowWise, gs, start), target, |gs|, found, rs, remaining)
    ensures remaining == 0 <==> CanAllocate(rowWise, gs, start, target)
  {
    hide Size, Flatten, RouteStart, Survivors, Walked;
    WalkedAll(rowWise, gs, RouteStart(rowWise, gs, start), target, found, rs, remaining);
  }

  lemma WalkEnd(rowWise: bool, gs: CoreRangeSet, start: CoreCoord, target: nat, found: bool, rs: seq<CoreRange>)
    requires CanAllocate(rowWise, gs, start, target)
    requires Walked(rowWise, gs, RouteStart(rowWise, gs, start), target, |gs|, found, rs, 0)
    ensures Flatten(rowWise, rs) == Survivors(rowWise, gs, Asked(rowWise, gs, start, target),
                                              Asked(rowWise, gs, start, target))
    ensures Disjoint(rs)
  {
    hide Size, Flatten, RouteStart, Survivors, Walked;
    WalkedAll(rowWise, gs, RouteStart(rowWise, gs, start), target, found, rs, 0);
    SurvivorsDisjoint(rowWise, gs, start, target, rs);
  }

  lemma SurvivorsDisjoint(rowWise: bool, gs: CoreRangeSet, start: CoreCoord, target: nat, rs: seq<CoreRange>)
    requires CanAllocate(rowWise, gs, start, target)
    requires var asked := Asked(rowWise, gs, start, target);
             Flatten(rowWise, rs) == Survivors(rowWise, gs, asked, asked)
    ensures Disjoint(rs)
  {
    hide Flatten, RouteStart, Survivors;
    var asked := Asked(rowWise, gs, start, target);
    NoDuplicatesIffDisjoint(rowWise, gs);
    SurvivorsDistinct(rowWise, gs, asked, asked);
    NoDuplicatesIffDisjoint(rowWise, rs);
  }

  /** The allocation is what was asked for exactly when no asked core is the lone core of a one-wide sub-grid. */
  lemma {:induction false} AllocationIsExact(rowWise: bool, gs: CoreRangeSet, start: CoreCoord, target: nat,
                                             rs: CoreRangeSet)
    requires CanAllocate(rowWise, gs, start, target)
    requires var asked := Asked(rowWise, gs, start, target);
             Flatten(rowWise, rs) == Survivors(rowWise, gs, asked, asked)
    ensures Flatten(rowWise, rs) == Asked(rowWise, gs, start, target)
       <==> forall c :: c in Asked(rowWise, gs, start, target) ==>
         !Loses(rowWise, gs, Asked(rowWise, gs, start, target), c)
    ensures |CellsOf(rs)| == target
       <==> forall c :: c in Asked(rowWise, gs, start, target) ==>
         !Loses(rowWise, gs, Asked(rowWise, gs, start, target), c)
  {
    hide Size, Flatten, RouteStart, Survivors;
    var asked := Asked(rowWise, gs, start, target);
    SurvivorsAre(rowWise, gs, asked, asked);
    RouteLength(rowWise, rs);
    if forall c :: c in asked ==> !Loses(rowWise, gs, asked, c) {
      SurvivorsUniform(rowWise, gs, asked, asked, false);
    }
  }

  /** Sub-grids at least two cores wide in the fill direction never lose a core. */
  lemma WideSubGridsAreExact(rowWise: bool, gs: CoreRangeSet, start: CoreCoord, target: nat, rs: CoreRangeSet)
    requires CanAllocate(rowWise, gs, start, target)
    requires var asked := Asked(rowWise, gs, start, target);
             Flatten(rowWise, rs) == Survivors(rowWise, gs, asked, asked)
    requires forall i :: 0 <= i < |gs| ==> RangeMinor(rowWise, gs[i]) > 1
    ensures Flatten(rowWise, rs) == Asked(rowWise, gs, start, target)
  {
    AllocationIsExact(rowWise, gs, start, target, rs);
  }

  /** A concrete loss: two cores asked of a 1x1 sub-grid followed by a 2x1 one, row by row; only one comes back. */
  lemma LoneCoreIsLost(gs: seq<CoreRange>)
    requires gs == [Corners(CoreCoord(0, 0), CoreCoord(0, 0)), Corners(CoreCoord(1, 0), CoreCoord(2, 0))]
    ensures Disjoint(gs) && CanAllocate(true, gs, CoreCoord(0, 0), 2)
    ensures var asked := Asked(true, gs, CoreCoord(0, 0), 2);
            asked == [CoreCoord(0, 0), CoreCoord(1, 0)] && Survivors(true, gs, asked, asked) == [CoreCoord(1, 0)]
  {
    assert gs == [gs[0]] + [gs[1]];
    FlattenSnoc(true, [gs[0]], gs[1]);
    FlattenSnoc(true, [], gs[0]);
    assert [] + [gs[0]] == [gs[0]];
    assert Listed(true, gs[0]) == [CoreCoord(0, 0)];
    assert Listed(true, gs[1]) == [CoreCoord(1, 0), CoreCoord(2, 0)];
    assert Flatten(true, gs) == [CoreCoord(0, 0), CoreCoord(1, 0), CoreCoord(2, 0)];
    FlattenIsCells(true, gs);
    var asked := Asked(true, gs, CoreCoord(0, 0), 2);
    assert asked == [CoreCoord(0, 0), CoreCoord(1, 0)];
    assert LosesFrom(true, gs[0], asked, CoreCoord(0, 0));
    assert !Loses(true, gs, asked, CoreCoord(1, 0));
    assert asked[..1] == [CoreCoord(0, 0)] && asked[..1][..0] == [];
    assert Survivors(true, gs, asked, asked[..1]) == [];
  }
}
