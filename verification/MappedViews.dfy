/**
 Views made through a coordinate mapper: the devices may be listed in any order, and their coordinates are what
 the mapper says.
 */
module MappedViews {
  import opened Outcomes
  import opened Arith
  import opened Collections
  import opened MeshTraversal
  import opened Submeshes

  ghost predicate AllMapped(devices: seq<Device>, mapper: int -> Option<Coordinate>)
  {
    forall i :: 0 <= i < |devices| ==> mapper(devices[i].id).Some?
  }

  ghost predicate IsLeast(v: seq<nat>, m: nat)
  {
    (if v == [] then m == SIZE_MAX else m in v) && forall i :: 0 <= i < |v| ==> m <= v[i]
  }

  ghost predicate IsGreatest(v: seq<nat>, m: nat)
  {
    (if v == [] then m == 0 else m in v) && forall i :: 0 <= i < |v| ==> v[i] <= m
  }

  lemma ExtremesNext(v: seq<nat>, least: nat, greatest: nat, x: nat)
    requires x <= SIZE_MAX && IsLeast(v, least) && IsGreatest(v, greatest)
    ensures IsLeast(v + [x], Min(least, x)) && IsGreatest(v + [x], Max(greatest, x))
  {
    assert (v + [x])[|v|] == x;
  }

  ghost function RowsOf(coords: seq<Coordinate>): seq<nat>
  {
    seq(|coords|, i requires 0 <= i < |coords| => coords[i].row)
  }

  ghost function ColsOf(coords: seq<Coordinate>): seq<nat>
  {
    seq(|coords|, i requires 0 <= i < |coords| => coords[i].col)
  }

  /** The corners have the least and the greatest row and column of the coordinates. */
  ghost predicate Bounds(coords: seq<Coordinate>, topLeft: Coordinate, bottomRight: Coordinate)
  {
    && IsLeast(RowsOf(coords), topLeft.row) && IsGreatest(RowsOf(coords), bottomRight.row)
    && IsLeast(ColsOf(coords), topLeft.col) && IsGreatest(ColsOf(coords), bottomRight.col)
  }

  /** Taking one more coordinate into the bounds. */
  lemma BoundsNext(coords: seq<Coordinate>, topLeft: Coordinate, bottomRight: Coordinate, c: Coordinate)
    requires Bounds(coords, topLeft, bottomRight) && c.row <= SIZE_MAX && c.col <= SIZE_MAX
    ensures Bounds(coords + [c], Coordinate(Min(topLeft.row, c.row), Min(topLeft.col, c.col)),
              Coordinate(Max(bottomRight.row, c.row), Max(bottomRight.col, c.col)))
  {
    hide IsLeast, IsGreatest;
    assert RowsOf(coords + [c]) == RowsOf(coords) + [c.row];
    assert ColsOf(coords + [c]) == ColsOf(coords) + [c.col];
    ExtremesNext(RowsOf(coords), topLeft.row, bottomRight.row, c.row);
    ExtremesNext(ColsOf(coords), topLeft.col, bottomRight.col, c.col);
  }

  lemma NoBounds()
    ensures Bounds([], Coordinate(SIZE_MAX, SIZE_MAX), Coordinate(0, 0))
  {
  }

  /** Corners of a single coordinate. */
  lemma BoundsOfOne(c: Coordinate, topLeft: Coordinate, bottomRight: Coordinate)
    requires Bounds([c], topLeft, bottomRight)
    ensures topLeft == c && bottomRight == c
  {
    assert RowsOf([c]) == [c.row] && ColsOf([c]) == [c.col];
  }

  /** The coordinates of some devices under a mapper that has them all. */
  ghost function MappedCoordinates(devices: seq<Device>, mapper: int -> Option<Coordinate>): seq<Coordinate>
    requires AllMapped(devices, mapper)
  {
    seq(|devices|, i requires 0 <= i < |devices| => mapper(devices[i].id).value)
  }

  /** The view has its devices' mapped coordinates, and the corners of those. */
  ghost predicate IsMappedView(view: MeshDeviceView, mapper: int -> Option<Coordinate>)
  {
    && AllMapped(view.devices, mapper)
    && Bounds(MappedCoordinates(view.devices, mapper), view.topLeft, view.bottomRight)
    && (forall id :: id in view.coordinates <==> id in Ids(view.devices))
    && (forall id :: id in view.coordinates ==> Some(view.coordinates[id]) == mapper(id))
  }

  /** A view whose coordinates a mapper gives; fails where it has none. */
  method CreateMappedView(devices: seq<Device>, mapper: int -> Option<Coordinate>) returns (r: Result<MeshDeviceView>)
    requires forall id :: mapper(id).Some? ==> mapper(id).value.row <= SIZE_MAX && mapper(id).value.col <= SIZE_MAX
    ensures r.Ok? <==> AllMapped(devices, mapper)
    ensures r.Ok? ==> r.value.devices == devices && IsMappedView(r.value, mapper)
  {
    hide Bounds, Ids, CoordinatesOf;
    var coordinates: map<int, Coordinate> := map[];
    NoBounds();
    NoIds();
    assert devices[..0] == [] && MappedCoordinates(devices[..0], mapper) == [];
    var topLeft, bottomRight := Coordinate(SIZE_MAX, SIZE_MAX), Coordinate(0, 0);
    for i := 0 to |devices|
      invariant AllMapped(devices[..i], mapper)
      invariant Bounds(MappedCoordinates(devices[..i], mapper), topLeft, bottomRight)
      invariant forall id :: id in coordinates <==> id in Ids(devices[..i])
      invariant forall id :: id in coordinates ==> Some(coordinates[id]) == mapper(id)
    {
      var c := mapper(devices[i].id);
      if c.None? {
        return Fatal;
      }
      BoundsNext(MappedCoordinates(devices[..i], mapper), topLeft, bottomRight, c.value);
      assert MappedCoordinates(devices[..i + 1], mapper) == MappedCoordinates(devices[..i], mapper) + [c.value];
      NextId(devices, i);
      coordinates := coordinates[devices[i].id := c.value];
      topLeft := Coordinate(Min(topLeft.row, c.value.row), Min(topLeft.col, c.value.col));
      bottomRight := Coordinate(Max(bottomRight.row, c.value.row), Max(bottomRight.col, c.value.col));
    }
    assert devices[..|devices|] == devices;
    var view := new MeshDeviceView(devices, coordinates, topLeft, bottomRight);
    r := Ok(view);
  }

  lemma NoIds()
    ensures Ids([]) == []
  {
  }

  lemma NextId(devices: seq<Device>, i: nat)
    requires i < |devices|
    ensures Ids(devices[..i + 1]) == Ids(devices[..i]) + [devices[i].id]
  {
  }

  /** One device mapped to (1, 0): the line through that view does not fit. */
  method LineFromSecondRow(device: Device) returns (view: MeshDeviceView, r: Result<seq<Device>>)
    ensures view.devices == [device] && view.topLeft == Coordinate(1, 0) && view.NumRows() == view.NumCols() == 1
    ensures r.Fatal?
  {
    hide Bounds;
    var mapper := (id: int) => Some(Coordinate(1, 0));
    var mapped := CreateMappedView([device], mapper);
    view := mapped.value;
    assert MappedCoordinates([device], mapper) == [Coordinate(1, 0)];
    BoundsOfOne(Coordinate(1, 0), view.topLeft, view.bottomRight);
    r := view.GetLineDevices(MeshShape(1, 1));
  }

  // ----- looking up ids

  /** The device listed at each place of the grid of the view has that place's coordinate. */
  ghost predicate ListedByPlace(view: MeshDeviceView)
    requires view.NumRows() > 0 && view.NumCols() > 0
  {
    && view.NumPlaces() <= |view.devices|
    && forall i :: 0 <= i < view.NumPlaces() ==> IsListedAt(view, i)
  }

  predicate IsListedAt(view: MeshDeviceView, i: nat)
    requires view.NumCols() > 0 && i < |view.devices|
  {
    DivNonNegative(i, view.NumCols());
    view.FindDevice(view.devices[i].id) == Ok(Coordinate(i / view.NumCols(), i % view.NumCols()))
  }

  /**
   Looking up the id at a coordinate indexes the list, so it comes back everywhere exactly when the list is by
   place.
   */
  lemma FindsBackEverywhereIff(view: MeshDeviceView)
    requires view.NumRows() > 0 && view.NumCols() > 0
    ensures (forall c | InMesh(c, view.NumRows(), view.NumCols()) :: FindsBack(view, c)) <==> ListedByPlace(view)
  {
    var shape := MeshShape(view.NumRows(), view.NumCols());
    IndexIsProduct(shape);
    if forall c | InMesh(c, view.NumRows(), view.NumCols()) :: FindsBack(view, c) {
      var corner := Coordinate(view.NumRows() - 1, view.NumCols() - 1);
      assert FindsBack(view, corner);
      LastPlaceOfGrid(shape);
      forall i | 0 <= i < view.NumPlaces()
        ensures IsListedAt(view, i)
      {
        PlaceOfIndex(i, shape);
        assert FindsBack(view, Coordinate(i / view.NumCols(), i % view.NumCols()));
      }
    }
    if ListedByPlace(view) {
      forall c | InMesh(c, view.NumRows(), view.NumCols())
        ensures FindsBack(view, c)
      {
        PlaceInGrid(c, shape);
        var place := Index(c.row, shape.numCols, c.col);
        DivModUnique(place, c.row, c.col, shape.numCols);
        assert IsListedAt(view, place);
      }
    }
  }

  lemma LastPlaceOfGrid(shape: MeshShape)
    requires shape.numRows > 0 && shape.numCols > 0
    ensures Index(shape.numRows - 1, shape.numCols, shape.numCols - 1) == shape.numRows * shape.numCols - 1
  {
    MulDistribute(shape.numRows - 1, 1, shape.numCols);
  }

  /** The mapper sends the first devices to the places of the grid, row by row. */
  ghost predicate MapsInOrder(devices: seq<Device>, mapper: int -> Option<Coordinate>, places: nat, cols: nat)
    requires cols > 0
  {
    && places <= |devices|
    && forall i :: 0 <= i < places ==>
         i / cols >= 0 && mapper(devices[i].id) == Some(Coordinate(i / cols, i % cols))
  }

  /**
   For a mapped view the lookup comes back everywhere exactly when the mapper follows the list; distinct ids
   are not enough.
   */
  lemma MappedLookupInvertsIff(view: MeshDeviceView, mapper: int -> Option<Coordinate>)
    requires IsMappedView(view, mapper) && view.NumRows() > 0 && view.NumCols() > 0
    ensures (forall c | InMesh(c, view.NumRows(), view.NumCols()) :: FindsBack(view, c))
      <==> MapsInOrder(view.devices, mapper, view.NumPlaces(), view.NumCols())
  {
    FindsBackEverywhereIff(view);
    forall i | 0 <= i < |view.devices|
      ensures i / view.NumCols() >= 0
      ensures IsListedAt(view, i)
        <==> mapper(view.devices[i].id) == Some(Coordinate(i / view.NumCols(), i % view.NumCols()))
    {
      DivNonNegative(i, view.NumCols());
      assert Ids(view.devices)[i] in Ids(view.devices);
    }
  }

  /**
   Two devices with distinct ids listed against the order of their coordinates: the lookup at (0, 0) does not
   come back.
   */
  method ListedOutOfOrder() returns (view: MeshDeviceView)
    ensures DistinctIds(view.devices) && view.topLeft == Coordinate(0, 0) && view.NumRows() == 1 && view.NumCols() == 2
    ensures !FindsBack(view, Coordinate(0, 0))
  {
    hide Bounds;
    var a := new Device(7);
    var b := new Device(8);
    var mapper := (id: int) => Some(Coordinate(0, if id == 7 then 1 else 0));
    var mapped := CreateMappedView([a, b], mapper);
    view := mapped.value;
    assert MappedCoordinates([a, b], mapper) == [Coordinate(0, 1), Coordinate(0, 0)];
    BoundsOfTwo(view.topLeft, view.bottomRight);
    assert Ids([a, b]) == [7, 8];
  }

  lemma BoundsOfTwo(topLeft: Coordinate, bottomRight: Coordinate)
    requires Bounds([Coordinate(0, 1), Coordinate(0, 0)], topLeft, bottomRight)
    ensures topLeft == Coordinate(0, 0) && bottomRight == Coordinate(0, 1)
  {
    var coords := [Coordinate(0, 1), Coordinate(0, 0)];
    assert RowsOf(coords) == [0, 0] && ColsOf(coords) == [1, 0];
    assert RowsOf(coords)[0] == 0 && ColsOf(coords)[0] == 1 && ColsOf(coords)[1] == 0;
    assert topLeft.row <= RowsOf(coords)[0] <= bottomRight.row;
    assert topLeft.col <= ColsOf(coords)[1] && ColsOf(coords)[0] <= bottomRight.col;
  }

  // ----- walking through the view

  /** Every device has a coordinate within the extent of the view. */
  ghost predicate IsWithin(view: MeshDeviceView)
  {
    forall d :: d in view.devices ==>
      d.id in view.coordinates
      && view.coordinates[d.id].row < view.NumRows() && view.coordinates[d.id].col < view.NumCols()
  }

  /** The device is the first one listed at its coordinate. */
  ghost predicate IsFirst(view: MeshDeviceView, d: Device)
  {
    d.id in view.coordinates && FirstAt(view, view.devices, view.coordinates[d.id]) == Some(d)
  }

  ghost predicate AllDifferent(v: seq<Device>)
  {
    forall i, j :: 0 <= i < j < |v| ==> v[i] != v[j]
  }

  /** The devices met at some coordinates, each once where no coordinate repeats. */
  lemma {:induction false} MetAre(view: MeshDeviceView, coords: seq<Coordinate>)
    ensures forall d :: d in Met(view, coords) <==> IsFirst(view, d) && view.coordinates[d.id] in coords
    ensures NoDuplicates(coords) ==> AllDifferent(Met(view, coords))
  {
    hide FirstAt;
    if coords != [] {
      var last := |coords| - 1;
      assert coords == coords[..last] + [coords[last]];
      MetAre(view, coords[..last]);
      assert NoDuplicates(coords) ==> coords[last] !in coords[..last];
    }
  }

  /** The line through a view that starts at (0, 0) meets the first device at each coordinate, once. */
  lemma LineMeetsFirsts(view: MeshDeviceView)
    requires view.NumRows() > 0 && view.NumCols() > 0 && view.topLeft == Coordinate(0, 0) && IsWithin(view)
    ensures var met := Met(view, Line(view.NumPlaces(), view.topLeft, view.NumCols()));
            && AllDifferent(met)
            && (forall d :: d in met <==> d in view.devices && IsFirst(view, d))
  {
    hide FirstAt, Line, Met;
    LineIsHamiltonian(view.NumRows(), view.NumCols());
    MetAre(view, Line(view.NumPlaces(), view.topLeft, view.NumCols()));
    forall d | IsFirst(view, d)
      ensures d in view.devices
    {
      FirstIsListed(view, d);
    }
  }

  lemma FirstIsListed(view: MeshDeviceView, d: Device)
    requires IsFirst(view, d)
    ensures d in view.devices
  {
  }

  /** The ring round a view that starts at (0, 0) meets the first device at each boundary coordinate, once. */
  lemma RingMeetsFirsts(view: MeshDeviceView)
    requires view.NumRows() > 0 && view.NumCols() > 0 && view.topLeft == Coordinate(0, 0)
    ensures var shape := MeshShape(view.NumRows(), view.NumCols());
            var met := Met(view, Ring(shape, view.topLeft));
            && AllDifferent(met)
            && (forall d :: d in met <==>
                  d in view.devices && IsFirst(view, d) && OnBoundary(view.coordinates[d.id], shape, view.topLeft))
  {
    hide FirstAt, Ring, Met, OnBoundary;
    var shape := MeshShape(view.NumRows(), view.NumCols());
    RingIsBoundaryCycle(shape, view.topLeft);
    MetAre(view, Ring(shape, view.topLeft));
    forall d | IsFirst(view, d)
      ensures d in view.devices
    {
      FirstIsListed(view, d);
    }
  }

  /** The line meets every device exactly when no two of them share a coordinate. */
  lemma LineMeetsAllIff(view: MeshDeviceView)
    requires view.NumRows() > 0 && view.NumCols() > 0 && view.topLeft == Coordinate(0, 0) && IsWithin(view)
    ensures (forall d :: d in view.devices ==> d in Met(view, Line(view.NumPlaces(), view.topLeft, view.NumCols())))
      <==> (forall d, e | d in view.devices && e in view.devices ::
              view.coordinates[d.id] == view.coordinates[e.id] ==> d == e)
  {
    hide FirstAt, Line, Met;
    LineMeetsFirsts(view);
    forall d | d in view.devices
      ensures IsFirst(view, d) || exists e ::
        e in view.devices && view.coordinates[e.id] == view.coordinates[d.id] && e != d
    {
      SharesOrFirst(view, d);
    }
  }

  lemma SharesOrFirst(view: MeshDeviceView, d: Device)
    requires d in view.devices && d.id in view.coordinates
    ensures var first := FirstAt(view, view.devices, view.coordinates[d.id]);
            first.Some? && first.value in view.devices && first.value.id in view.coordinates
            && view.coordinates[first.value.id] == view.coordinates[d.id]
  {
    assert view.IsAt(d, view.coordinates[d.id]);
    var i :| 0 <= i < |view.devices| && view.devices[i] == d;
  }

  /** The devices of a mapped view that starts at (0, 0) are within its extent. */
  lemma MappedIsWithin(view: MeshDeviceView, mapper: int -> Option<Coordinate>)
    requires IsMappedView(view, mapper) && view.topLeft == Coordinate(0, 0)
    ensures IsWithin(view)
  {
    forall d | d in view.devices
      ensures d.id in view.coordinates
      ensures view.coordinates[d.id].row < view.NumRows() && view.coordinates[d.id].col < view.NumCols()
    {
      var i :| 0 <= i < |view.devices| && view.devices[i] == d;
      assert Ids(view.devices)[i] in Ids(view.devices);
      var coords := MappedCoordinates(view.devices, mapper);
      assert RowsOf(coords)[i] <= view.bottomRight.row && ColsOf(coords)[i] <= view.bottomRight.col;
    }
  }
}
