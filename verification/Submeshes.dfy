/** Meshes of devices, views of their sub-regions, and the partition of a mesh into submeshes. */
module Submeshes {
  import opened Outcomes
  import opened Arith
  import opened Collections
  import opened MeshTraversal

  class Device {
    const id: int

    constructor (id: int)
      ensures this.id == id
    {
      this.id := id;
    }
  }

  // ----- rows of a region

  /**
   The `shape` devices from row `top` and column `left` of devices listed row by row, `cols` to a row, are all
   there.
   */
  predicate HasRegion<T>(v: seq<T>, cols: nat, top: nat, left: nat, shape: MeshShape)
  {
    shape.numRows > 0 && shape.numCols > 0 ==> Index(top + shape.numRows - 1, cols, left + shape.numCols - 1) < |v|
  }

  /** The place among the devices of the region's device (row, col). */
  lemma RegionInRange<T>(v: seq<T>, cols: nat, top: nat, left: nat, shape: MeshShape, row: nat, col: nat)
    requires HasRegion(v, cols, top, left, shape) && row < shape.numRows && col < shape.numCols
    ensures Index(top + row, cols, left + col) < |v|
  {
    MulMono(top + row, top + shape.numRows - 1, cols);
  }

  /** A region's devices, row by row. */
  function Region<T>(v: seq<T>, cols: nat, top: nat, left: nat, shape: MeshShape): seq<T>
    requires HasRegion(v, cols, top, left, shape)
  {
    seq(Times(shape.numRows, shape.numCols), i requires 0 <= i < Times(shape.numRows, shape.numCols) =>
      DivInRange(i, shape.numRows, shape.numCols);
      RegionInRange(v, cols, top, left, shape, i / shape.numCols, i % shape.numCols);
      v[Index(top + i / shape.numCols, cols, left + i % shape.numCols)])
  }

  /** Device (row, col) of a region is the device of the whole at that place from the region's corner. */
  lemma RegionAt<T>(v: seq<T>, cols: nat, top: nat, left: nat, shape: MeshShape, row: nat, col: nat)
    requires HasRegion(v, cols, top, left, shape) && row < shape.numRows && col < shape.numCols
    ensures Index(row, shape.numCols, col) < |Region(v, cols, top, left, shape)|
    ensures Index(top + row, cols, left + col) < |v|
    ensures Region(v, cols, top, left, shape)[Index(row, shape.numCols, col)] == v[Index(top + row, cols, left + col)]
  {
    IndexInRange(row, col, shape.numRows, shape.numCols);
    DivModUnique(Index(row, shape.numCols, col), row, col, shape.numCols);
    RegionInRange(v, cols, top, left, shape, row, col);
  }

  // ----- the coordinates of devices

  /** Each id with the coordinate of the last device that has it. */
  function CoordinatesOf(ids: seq<int>, cols: nat): map<int, Coordinate>
    requires cols > 0
  {
    if ids == [] then map[]
    else
      var last := |ids| - 1;
      DivNonNegative(last, cols);
      CoordinatesOf(ids[..last], cols)[ids[last] := Coordinate(last / cols, last % cols)]
  }

  function Ids(devices: seq<Device>): seq<int>
  {
    seq(|devices|, i requires 0 <= i < |devices| => devices[i].id)
  }

  ghost predicate LastWith(ids: seq<int>, id: int, i: nat)
  {
    i < |ids| && ids[i] == id && forall j :: i < j < |ids| ==> ids[j] != id
  }

  lemma {:induction false} CoordinatesLast(ids: seq<int>, cols: nat, id: int)
    requires cols > 0
    ensures id in CoordinatesOf(ids, cols) <==> id in ids
    ensures forall i: nat :: LastWith(ids, id, i) ==>
      i / cols >= 0 && id in ids && CoordinatesOf(ids, cols)[id] == Coordinate(i / cols, i % cols)
  {
    if ids != [] {
      var last := |ids| - 1;
      CoordinatesLast(ids[..last], cols, id);
      assert ids == ids[..last] + [ids[last]];
      forall i: nat | LastWith(ids, id, i)
        ensures i / cols >= 0 && CoordinatesOf(ids, cols)[id] == Coordinate(i / cols, i % cols)
      {
        if i < last {
          assert ids[last] != id;
          assert LastWith(ids[..last], id, i);
        } else {
          DivNonNegative(i, cols);
        }
      }
    }
  }

  /** A grid of devices as seen by queries: the devices row by row, and the coordinate of each id. */
  class MeshDeviceView {
    const devices: seq<Device>
    const coordinates: map<int, Coordinate>
    const topLeft: Coordinate
    const bottomRight: Coordinate

    constructor (devices: seq<Device>, coordinates: map<int, Coordinate>, topLeft: Coordinate, bottomRight: Coordinate)
      ensures this.devices == devices && this.coordinates == coordinates
      ensures this.topLeft == topLeft && this.bottomRight == bottomRight
    {
      this.devices, this.coordinates, this.topLeft, this.bottomRight := devices, coordinates, topLeft, bottomRight;
    }

    function NumRows(): int
    {
      bottomRight.row - topLeft.row + 1
    }

    function NumCols(): int
    {
      bottomRight.col - topLeft.col + 1
    }

    /** The view of a grid of devices whose first coordinate is (0, 0). */
    ghost predicate ViewOf(devices: seq<Device>, shape: MeshShape)
    {
      && shape.numRows > 0 && shape.numCols > 0
      && this.devices == devices && |devices| == Times(shape.numRows, shape.numCols)
      && coordinates == CoordinatesOf(Ids(devices), shape.numCols)
      && topLeft == Coordinate(0, 0) && bottomRight == Coordinate(shape.numRows - 1, shape.numCols - 1)
    }

    function FindDevice(id: int): Result<Coordinate>
    {
      if id in coordinates then Ok(coordinates[id]) else Fatal
    }

    function FindDeviceId(c: Coordinate): Result<int>
    {
      if !(c.row < NumRows() && c.col < NumCols()) then Fatal
      else
        var place := Index(c.row, NumCols(), c.col);
        if place < |devices| then Ok(devices[place].id) else Fatal
    }

    /** The first device listed whose id has this coordinate. */
    method GetDevice(row: nat, col: nat) returns (device: Option<Device>)
      ensures device.None? <==> forall i :: 0 <= i < |devices| ==> !IsAt(devices[i], Coordinate(row, col))
      ensures device.Some? ==> device.value in devices && IsAt(device.value, Coordinate(row, col))
      ensures device == FirstAt(this, devices, Coordinate(row, col))
    {
      for i := 0 to |devices|
        invariant forall k :: 0 <= k < i ==> !IsAt(devices[k], Coordinate(row, col))
        invariant FirstAt(this, devices, Coordinate(row, col)) == FirstAt(this, devices[i..], Coordinate(row, col))
      {
        assert devices[i..][1..] == devices[i + 1..];
        if devices[i].id in coordinates && coordinates[devices[i].id].row == row
        && coordinates[devices[i].id].col == col {
          return Some(devices[i]);
        }
      }
      return None;
    }

    predicate IsAt(device: Device, c: Coordinate)
    {
      device.id in coordinates && coordinates[device.id] == c
    }

    /** The devices found at some coordinates; a coordinate with no device is passed over. */
    method GetDevicesFromCoordinates(coords: seq<Coordinate>, ghost shape: MeshShape) returns (found: seq<Device>)
      ensures ViewOf(devices, shape) && DistinctIds(devices) && AllInMesh(coords, shape) ==>
                AllPlaced(devices, shape, coords) && found == DevicesAlong(devices, shape, coords)
      ensures found == Met(this, coords)
    {
      hide CoordinatesOf, Index, Times, FirstAt;
      found := [];
      for i := 0 to |coords|
        invariant found == Met(this, coords[..i])
        invariant ViewOf(devices, shape) && DistinctIds(devices) && AllInMesh(coords, shape) ==>
                    |found| == i && forall k :: 0 <= k < i ==>
                      Index(coords[k].row, shape.numCols, coords[k].col) < |devices|
                      && found[k] == devices[Index(coords[k].row, shape.numCols, coords[k].col)]
      {
        var device := GetDevice(coords[i].row, coords[i].col);
        if ViewOf(devices, shape) && DistinctIds(devices) && AllInMesh(coords, shape) {
          AtItsPlace(this, shape, coords[i], device);
        }
        assert coords[..i + 1][..i] == coords[..i];
        if device.Some? {
          found := found + [device.value];
        }
      }
      assert coords[..|coords|] == coords;
    }

    function NumPlaces(): nat
      requires NumRows() > 0 && NumCols() > 0
    {
      MulPositive(NumRows(), NumCols());
      NumRows() * NumCols()
    }

    /** The devices met along the line through the whole view. */
    method GetLineDevices(ghost shape: MeshShape) returns (r: Result<seq<Device>>)
      requires NumRows() > 0 && NumCols() > 0
      ensures r.Ok? <==> topLeft == Coordinate(0, 0)
      ensures r.Ok? && ViewOf(devices, shape) && DistinctIds(devices) ==>
                Times(shape.numRows, shape.numCols) == |devices|
                && AllPlaced(devices, shape, Line(|devices|, topLeft, shape.numCols))
                && r.value == DevicesAlong(devices, shape, Line(|devices|, topLeft, shape.numCols))
      ensures r.Ok? ==> r.value == Met(this, Line(NumPlaces(), topLeft, NumCols()))
    {
      hide CoordinatesOf, DistinctIds, Met;
      MulPositive(NumRows(), NumCols());
      WholeLineFitsIff(topLeft, NumRows(), NumCols());
      var line := GetLineCoordinates(NumRows() * NumCols(), topLeft, NumRows(), NumCols());
      if line.Fatal? {
        return Fatal;
      }
      LineIsSimplePath(NumRows() * NumCols(), topLeft, NumRows(), NumCols());
      var found := GetDevicesFromCoordinates(line.value, shape);
      r := Ok(found);
    }

    /** The devices met round the boundary of the whole view. */
    method GetRingDevices(ghost shape: MeshShape) returns (r: Result<seq<Device>>)
      requires NumRows() > 0 && NumCols() > 0
      ensures r.Ok? <==> topLeft == Coordinate(0, 0)
      ensures r.Ok? && ViewOf(devices, shape) && DistinctIds(devices) ==>
                AllPlaced(devices, shape, Ring(shape, topLeft))
                && r.value == DevicesAlong(devices, shape, Ring(shape, topLeft))
      ensures r.Ok? ==> r.value == Met(this, Ring(MeshShape(NumRows(), NumCols()), topLeft))
    {
      hide CoordinatesOf, DistinctIds, Index, Times, Met;
      var extent := MeshShape(NumRows(), NumCols());
      var ring := GetRingCoordinates(extent, topLeft, NumRows(), NumCols());
      if ring.Fatal? {
        return Fatal;
      }
      RingIsBoundaryCycle(extent, topLeft);
      var found := GetDevicesFromCoordinates(ring.value, shape);
      r := Ok(found);
    }
  }

  /** The first of the devices that has coordinate `c` in the view. */
  ghost function FirstAt(view: MeshDeviceView, devices: seq<Device>, c: Coordinate): (first: Option<Device>)
    ensures first.None? <==> forall i :: 0 <= i < |devices| ==> !view.IsAt(devices[i], c)
    ensures first.Some? ==> first.value in devices && view.IsAt(first.value, c)
  {
    if devices == [] then None
    else if view.IsAt(devices[0], c) then Some(devices[0])
    else FirstAt(view, devices[1..], c)
  }

  /**
   The devices that lookups at some coordinates meet, one after the other; coordinates without one are passed
   over.
   */
  ghost function Met(view: MeshDeviceView, coords: seq<Coordinate>): seq<Device>
  {
    if coords == [] then []
    else
      var last := |coords| - 1;
      Met(view, coords[..last])
      + match FirstAt(view, view.devices, coords[last]) case Some(d) => [d] case None => []
  }

  ghost predicate AllInMesh(coords: seq<Coordinate>, shape: MeshShape)
  {
    forall i :: 0 <= i < |coords| ==> InMesh(coords[i], shape.numRows, shape.numCols)
  }

  ghost predicate AllPlaced(devices: seq<Device>, shape: MeshShape, coords: seq<Coordinate>)
  {
    forall i :: 0 <= i < |coords| ==> Index(coords[i].row, shape.numCols, coords[i].col) < |devices|
  }

  /** The devices of a grid at some of its coordinates. */
  ghost function DevicesAlong(devices: seq<Device>, shape: MeshShape, coords: seq<Coordinate>): seq<Device>
    requires AllPlaced(devices, shape, coords)
  {
    seq(|coords|, i requires 0 <= i < |coords| => devices[Index(coords[i].row, shape.numCols, coords[i].col)])
  }

  lemma AtItsPlace(view: MeshDeviceView, shape: MeshShape, c: Coordinate, device: Option<Device>)
    requires view.ViewOf(view.devices, shape) && DistinctIds(view.devices) && InMesh(c, shape.numRows, shape.numCols)
    requires device.None? ==> forall i :: 0 <= i < |view.devices| ==> !view.IsAt(view.devices[i], c)
    requires device.Some? ==> device.value in view.devices && view.IsAt(device.value, c)
    ensures Index(c.row, shape.numCols, c.col) < |view.devices|
    ensures device == Some(view.devices[Index(c.row, shape.numCols, c.col)])
  {
    hide CoordinatesOf, Index, Times;
    var place := Index(c.row, shape.numCols, c.col);
    CoordinateOfDevice(view, view.devices, shape, c);
    LastOfDistinct(view.devices, place);
    assert view.IsAt(view.devices[place], c);
    if device.Some? {
      var i: nat :| i < |view.devices| && view.devices[i] == device.value;
      PlaceOfIndex(i, shape);
      CoordinateOfDevice(view, view.devices, shape, Coordinate(i / shape.numCols, i % shape.numCols));
      LastOfDistinct(view.devices, i);
    }
  }

  /** The line through a grid of distinct devices meets each of them once, each next to the one before. */
  lemma LineDevicesAreAll(devices: seq<Device>, shape: MeshShape)
    requires shape.numRows > 0 && shape.numCols > 0 && |devices| == Times(shape.numRows, shape.numCols)
    requires DistinctIds(devices)
    ensures var line := Line(|devices|, Coordinate(0, 0), shape.numCols);
            && IsPath(line) && AllPlaced(devices, shape, line)
            && DistinctIds(DevicesAlong(devices, shape, line))
            && (forall d :: d in DevicesAlong(devices, shape, line) <==> d in devices)
  {
    hide Index, Times, Line;
    IndexIsProduct(shape);
    var line := Line(|devices|, Coordinate(0, 0), shape.numCols);
    LineIsHamiltonian(shape.numRows, shape.numCols);
    forall i | 0 <= i < |line|
      ensures Index(line[i].row, shape.numCols, line[i].col) < |devices|
    {
      assert line[i] in line;
      PlaceInGrid(line[i], shape);
    }
    var along := DevicesAlong(devices, shape, line);
    forall i, j | 0 <= i < j < |along|
      ensures Ids(along)[i] != Ids(along)[j]
    {
      assert line[i] in line && line[j] in line;
      PlacesDiffer(line[i], line[j], shape);
      DifferentIds(devices, Index(line[i].row, shape.numCols, line[i].col),
                   Index(line[j].row, shape.numCols, line[j].col));
    }
    forall d | d in devices
      ensures d in along
    {
      var k: nat :| k < |devices| && devices[k] == d;
      PlaceOfIndex(k, shape);
      var c := Coordinate(k / shape.numCols, k % shape.numCols);
      assert InMesh(c, shape.numRows, shape.numCols);
      var i :| 0 <= i < |line| && line[i] == c;
      assert along[i] == d;
    }
  }

  lemma LastOfDistinct(devices: seq<Device>, i: nat)
    requires DistinctIds(devices) && i < |devices|
    ensures LastWith(Ids(devices), devices[i].id, i)
  {
    forall j | i < j < |devices|
      ensures Ids(devices)[j] != devices[i].id
    {
      DifferentIds(devices, i, j);
    }
  }

  lemma DifferentIds(devices: seq<Device>, i: nat, j: nat)
    requires DistinctIds(devices) && i < |devices| && j < |devices| && i != j
    ensures devices[i].id != devices[j].id
  {
    assert Ids(devices)[i] != Ids(devices)[j];
  }

  lemma IndexIsProduct(shape: MeshShape)
    ensures Times(shape.numRows, shape.numCols) == shape.numRows * shape.numCols
  {
  }

  lemma PlaceInGrid(c: Coordinate, shape: MeshShape)
    requires InMesh(c, shape.numRows, shape.numCols)
    ensures Index(c.row, shape.numCols, c.col) < Times(shape.numRows, shape.numCols)
  {
    IndexInRange(c.row, c.col, shape.numRows, shape.numCols);
  }

  lemma PlacesDiffer(c: Coordinate, d: Coordinate, shape: MeshShape)
    requires c != d && c.col < shape.numCols && d.col < shape.numCols
    ensures Index(c.row, shape.numCols, c.col) != Index(d.row, shape.numCols, d.col)
  {
    DivModUnique(Index(c.row, shape.numCols, c.col), c.row, c.col, shape.numCols);
    DivModUnique(Index(d.row, shape.numCols, d.col), d.row, d.col, shape.numCols);
  }

  // ----- ids and coordinates

  /** Whether the devices can be told apart by their ids. */
  ghost predicate DistinctIds(devices: seq<Device>)
  {
    NoDuplicates(Ids(devices))
  }

  /** A grid's device (row, col) has that coordinate when ids are distinct. */
  lemma CoordinateOfDevice(view: MeshDeviceView, devices: seq<Device>, shape: MeshShape, c: Coordinate)
    requires view.ViewOf(devices, shape) && InMesh(c, shape.numRows, shape.numCols)
    ensures Index(c.row, shape.numCols, c.col) < |devices|
    ensures view.FindDeviceId(c) == Ok(devices[Index(c.row, shape.numCols, c.col)].id)
    ensures LastWith(Ids(devices), devices[Index(c.row, shape.numCols, c.col)].id,
                     Index(c.row, shape.numCols, c.col)) ==>
              view.FindDevice(devices[Index(c.row, shape.numCols, c.col)].id) == Ok(c)
  {
    IndexInRange(c.row, c.col, shape.numRows, shape.numCols);
    var place := Index(c.row, shape.numCols, c.col);
    DivModUnique(place, c.row, c.col, shape.numCols);
    CoordinatesLast(Ids(devices), shape.numCols, devices[place].id);
  }

  /**
   Looking up the id at a coordinate and then the coordinate of that id comes back everywhere exactly when ids
   are distinct.
   */
  lemma FindDeviceInvertsIff(view: MeshDeviceView, devices: seq<Device>, shape: MeshShape)
    requires view.ViewOf(devices, shape)
    ensures (forall c | InMesh(c, shape.numRows, shape.numCols) :: FindsBack(view, c)) <==> DistinctIds(devices)
  {
    hide Index, Times, CoordinatesOf, LastWith;
    if DistinctIds(devices) {
      forall c | InMesh(c, shape.numRows, shape.numCols)
        ensures FindsBack(view, c)
      {
        CoordinateOfDevice(view, devices, shape, c);
        LastOfDistinct(devices, Index(c.row, shape.numCols, c.col));
      }
    } else {
      var i: nat, j: nat :| i < j < |devices| && Ids(devices)[i] == Ids(devices)[j];
      PlaceOfIndex(i, shape);
      PlaceOfIndex(j, shape);
      var c, d := Coordinate(i / shape.numCols, i % shape.numCols), Coordinate(j / shape.numCols, j % shape.numCols);
      CoordinateOfDevice(view, devices, shape, c);
      CoordinateOfDevice(view, devices, shape, d);
      assert InMesh(c, shape.numRows, shape.numCols) && InMesh(d, shape.numRows, shape.numCols);
      assert !FindsBack(view, c) || !FindsBack(view, d);
    }
  }

  /** What lookups find in a view of a grid: ids at the coordinates of the grid, and coordinates of the grid's ids. */
  lemma LookupsSucceedIff(view: MeshDeviceView, devices: seq<Device>, shape: MeshShape, c: Coordinate, id: int)
    requires view.ViewOf(devices, shape)
    ensures view.FindDeviceId(c).Ok? <==> InMesh(c, shape.numRows, shape.numCols)
    ensures view.FindDevice(id).Ok? <==> exists d :: d in devices && d.id == id
  {
    hide Index, CoordinatesOf;
    if InMesh(c, shape.numRows, shape.numCols) {
      CoordinateOfDevice(view, devices, shape, c);
    }
    CoordinatesLast(Ids(devices), shape.numCols, id);
    if id in Ids(devices) {
      var i :| 0 <= i < |devices| && Ids(devices)[i] == id;
      assert devices[i] in devices;
    }
    if d :| d in devices && d.id == id {
      var i :| 0 <= i < |devices| && devices[i] == d;
      assert Ids(devices)[i] == id;
    }
  }

  /**
   In any view, a coordinate past the corners' extent has no id, and one within it that of the device at its
   place.
   */
  lemma IdsWithinExtent(view: MeshDeviceView, c: Coordinate)
    ensures view.topLeft.row + c.row > view.bottomRight.row || view.topLeft.col + c.col > view.bottomRight.col ==>
              view.FindDeviceId(c) == Fatal
    ensures view.topLeft.row + c.row <= view.bottomRight.row && view.topLeft.col + c.col <= view.bottomRight.col ==>
              var place := c.row * (view.bottomRight.col - view.topLeft.col + 1) + c.col;
              view.FindDeviceId(c) == if 0 <= place < |view.devices| then Ok(view.devices[place].id) else Fatal
  {
    if view.NumCols() > 0 {
      MulPositive(c.row, view.NumCols());
    }
  }

  /** The coordinate of the id at `c` is `c` again. */
  predicate FindsBack(view: MeshDeviceView, c: Coordinate)
  {
    view.FindDeviceId(c).Ok? && view.FindDevice(view.FindDeviceId(c).value) == Ok(c)
  }

  lemma PlaceOfIndex(i: nat, shape: MeshShape)
    requires i < Times(shape.numRows, shape.numCols)
    ensures shape.numCols > 0 && 0 <= i / shape.numCols < shape.numRows
    ensures Index(i / shape.numCols, shape.numCols, i % shape.numCols) == i
  {
    DivInRange(i, shape.numRows, shape.numCols);
    DivModSplit(i, shape.numCols);
  }

  // ----- meshes

  class MeshDevice {
    const shape: MeshShape
    var devices: seq<Device>
    var primaryView: MeshDeviceView?
    var submeshes: seq<MeshDevice>

    constructor (shape: MeshShape)
      ensures this.shape == shape && devices == [] && primaryView == null && submeshes == []
    {
      this.shape := shape;
      devices, primaryView, submeshes := [], null, [];
    }

    function GetDeviceIndex(i: nat): Result<Device>
      reads this
    {
      if i < |devices| then Ok(devices[i]) else Fatal
    }

    function GetDevice(row: nat, col: nat): Result<Device>
      reads this
    {
      GetDeviceIndex(Index(row, shape.numCols, col))
    }

    /** The mesh holds the region of `parent`'s devices that starts at (top, left), and a view of them. */
    ghost predicate IsRegionOf(parent: seq<Device>, cols: nat, top: nat, left: nat, shape: MeshShape)
      reads this
    {
      && this.shape == shape
      && HasRegion(parent, cols, top, left, shape)
      && devices == Region(parent, cols, top, left, shape)
      && primaryView != null && primaryView.ViewOf(devices, shape)
    }

    /** A view of the region between two corners; fails where the mesh has no device for a place of it. */
    method CreateView(topLeft: Coordinate, bottomRight: Coordinate) returns (r: Result<MeshDeviceView>)
      requires topLeft.row <= bottomRight.row && topLeft.col <= bottomRight.col
      ensures var shape' := MeshShape(bottomRight.row - topLeft.row + 1, bottomRight.col - topLeft.col + 1);
              && (r.Ok? <==> HasRegion(devices, shape.numCols, topLeft.row, topLeft.col, shape'))
              && (r.Ok? ==> r.value.ViewOf(Region(devices, shape.numCols, topLeft.row, topLeft.col, shape'), shape'))
    {
      hide Index, Times, HasRegion, CoordinatesOf;
      ghost var shape' := MeshShape(bottomRight.row - topLeft.row + 1, bottomRight.col - topLeft.col + 1);
      var found: seq<Device> := [];
      var coordinates: map<int, Coordinate> := map[];
      NoneTaken(devices, shape.numCols, topLeft, shape'.numCols);
      for row := topLeft.row to bottomRight.row + 1
        invariant Taken(found, devices, shape.numCols, topLeft, shape'.numCols,
                        Times(row - topLeft.row, shape'.numCols))
        invariant coordinates == CoordinatesOf(Ids(found), shape'.numCols)
      {
        GroupStarts(row - topLeft.row, shape'.numCols);
        for col := topLeft.col to bottomRight.col + 1
          invariant Taken(found, devices, shape.numCols, topLeft, shape'.numCols,
                      Index(row - topLeft.row, shape'.numCols, col - topLeft.col))
          invariant coordinates == CoordinatesOf(Ids(found), shape'.numCols)
        {
          var device := GetDevice(row, col);
          TakeNext(found, devices, shape.numCols, topLeft, shape', row - topLeft.row, col - topLeft.col);
          if device.Fatal? {
            return Fatal;
          }
          found := found + [device.value];
          coordinates := coordinates[device.value.id := Coordinate(row - topLeft.row, col - topLeft.col)];
        }
        NextGroup(row - topLeft.row, shape'.numCols);
      }
      AllTaken(found, devices, shape.numCols, topLeft, shape');
      var view := new MeshDeviceView(found, coordinates, Coordinate(0, 0),
        Coordinate(bottomRight.row - topLeft.row, bottomRight.col - topLeft.col));
      r := Ok(view);
    }

    /** What `create_submesh` accepts. */
    ghost predicate CanCreate(submeshShape: MeshShape, offsetRow: int, offsetCol: int)
      reads this
    {
      && submeshShape.numRows > 0 && submeshShape.numCols > 0
      && offsetRow >= 0 && offsetCol >= 0
      && offsetRow + submeshShape.numRows <= shape.numRows
      && offsetCol + submeshShape.numCols <= shape.numCols
      && HasRegion(devices, shape.numCols, offsetRow, offsetCol, submeshShape)
    }

    method CreateSubmesh(submeshShape: MeshShape, offsetRow: int, offsetCol: int) returns (r: Result<MeshDevice>)
      modifies this
      ensures devices == old(devices) && primaryView == old(primaryView)
      ensures submeshes == old(submeshes) + if r.Ok? then [r.value] else []
      ensures r.Ok? <==> old(CanCreate(submeshShape, offsetRow, offsetCol))
      ensures r.Ok? ==> fresh(r.value) && r.value.submeshes == []
                        && r.value.IsRegionOf(devices, shape.numCols, offsetRow, offsetCol, submeshShape)
    {
      hide Index, Times, HasRegion, CoordinatesOf, Region;
      if submeshShape.numRows <= 0 || submeshShape.numCols <= 0 {
        return Fatal;
      }
      if offsetRow < 0 || offsetCol < 0 {
        return Fatal;
      }
      if offsetRow + submeshShape.numRows > shape.numRows || offsetCol + submeshShape.numCols > shape.numCols {
        return Fatal;
      }
      var submesh := new MeshDevice(submeshShape);
      var start := Coordinate(offsetRow, offsetCol);
      var end := Coordinate(offsetRow + submeshShape.numRows - 1, offsetCol + submeshShape.numCols - 1);
      var view := CreateView(start, end);
      if view.Fatal? {
        return Fatal;
      }
      submesh.primaryView := view.value;
      submesh.devices := view.value.devices;
      submeshes := submeshes + [submesh];
      r := Ok(submesh);
    }

    /** After `count` submeshes of a split comes submesh (p, q), which `create_submesh` does not accept. */
    ghost predicate StopsAfter(submeshShape: MeshShape, count: nat, p: nat, q: nat)
      reads this
    {
      && Times(p, submeshShape.numRows) < shape.numRows && Times(q, submeshShape.numCols) < shape.numCols
      && !CanCreate(submeshShape, Times(p, submeshShape.numRows), Times(q, submeshShape.numCols))
      && count == Index(p, TimesIn(shape.numCols, submeshShape.numCols), q)
    }

    /** The inner loop of `create_submeshes`: one row of submeshes, up to the first that is not accepted. */
    method CreateSubmeshRow(submeshShape: MeshShape, row: nat, created: seq<MeshDevice>, ghost p: nat)
      returns (ok: bool, out: seq<MeshDevice>)
      requires row == Times(p, submeshShape.numRows) && row < shape.numRows
      requires this !in created
      requires AreSubmeshesOf(created, devices, shape, submeshShape)
      requires |created| == Times(p, TimesIn(shape.numCols, submeshShape.numCols))
      modifies this
      ensures devices == old(devices) && primaryView == old(primaryView)
      ensures created <= out && submeshes == old(submeshes) + out[|created|..]
      ensures forall m :: m in out[|created|..] ==> fresh(m)
      ensures AreSubmeshesOf(out, devices, shape, submeshShape)
      ensures !ok ==> !Splits(|devices|, shape, submeshShape)
      ensures !ok ==> exists q :: StopsAfter(submeshShape, |out|, p, q)
      ensures ok && shape.numCols > 0 ==> |out| == Times(p + 1, TimesIn(shape.numCols, submeshShape.numCols))
      ensures ok && shape.numCols == 0 ==> out == created
      ensures ok && shape.numCols > 0 ==> RowsSplit(devices, shape, submeshShape, row + submeshShape.numRows)
    {
      hide Index, Times, HasRegion, Region, AreSubmeshesOf, RowsSplit, Splits, TimesIn;
      out := created;
      ghost var added: seq<MeshDevice>, across := [], TimesIn(shape.numCols, submeshShape.numCols);
      var col: nat := 0;
      ghost var q: nat := 0;
      SplitStarts(devices, shape, submeshShape);
      GroupStarts(p, across);
      while col < shape.numCols
        invariant col == Times(q, submeshShape.numCols) && q <= across
        invariant devices == old(devices) && primaryView == old(primaryView)
        invariant submeshes == old(submeshes) + added && out == created + added
        invariant this !in out && forall m :: m in added ==> fresh(m)
        invariant shape.numCols == 0 ==> added == []
        invariant |out| == Index(p, across, q)
        invariant AreSubmeshesOf(out, devices, shape, submeshShape)
        invariant col > 0 ==> ColsSplit(devices, shape, submeshShape, row, col)
        decreases shape.numCols - col
      {
        if Splits(|devices|, shape, submeshShape) {
          SubmeshFits(devices, shape, submeshShape, p, q);
        }
        ghost var before := out;
        assert forall i :: 0 <= i < |before| ==> before[i] in before && before[i] != this;
        var submesh := CreateSubmesh(submeshShape, row, col);
        if submesh.Fatal? {
          assert out[|created|..] == added;
          assert StopsAfter(submeshShape, |out|, p, q);
          return false, out;
        }
        out := out + [submesh.value];
        added := added + [submesh.value];
        AddSubmesh(before, submesh.value, devices, shape, submeshShape, p, q);
        col := col + submeshShape.numCols;
        q := q + 1;
      }
      NextSubmeshRow(devices, shape, submeshShape, p, q);
      assert out[|created|..] == added;
      ok := true;
    }

    /**
     Splits the mesh row by row; without rows to advance by, a mesh with rows but no columns would never be done. Where
     it fails, the submeshes made before the one that is not accepted stay with the mesh.
     */
    method CreateSubmeshes(submeshShape: MeshShape) returns (r: Result<seq<MeshDevice>>)
      requires submeshShape.numRows > 0 || shape.numRows == 0 || shape.numCols > 0
      modifies this
      ensures devices == old(devices) && primaryView == old(primaryView)
      ensures r.Ok? <==> Splits(|devices|, shape, submeshShape)
      ensures old(submeshes) <= submeshes && (r.Ok? ==> submeshes == old(submeshes) + r.value)
      ensures r.Fatal? ==> AreSubmeshesOf(submeshes[|old(submeshes)|..], devices, shape, submeshShape)
      ensures r.Fatal? ==> exists p, q :: StopsAfter(submeshShape, |submeshes[|old(submeshes)|..]|, p, q)
      ensures r.Ok? ==> AreSubmeshesOf(r.value, devices, shape, submeshShape)
      ensures r.Ok? && shape.numRows > 0 && shape.numCols > 0 ==>
                |r.value| == Times(shape.numRows / submeshShape.numRows, shape.numCols / submeshShape.numCols)
      ensures forall m :: m in submeshes[|old(submeshes)|..] ==> fresh(m)
    {
      hide Index, Times, HasRegion, Region, AreSubmeshesOf, RowsSplit, Splits, TimesIn;
      var created: seq<MeshDevice> := [];
      var row: nat := 0;
      ghost var p: nat, across: nat := 0, TimesIn(shape.numCols, submeshShape.numCols);
      SplitStarts(devices, shape, submeshShape);
      while row < shape.numRows
        invariant row == Times(p, submeshShape.numRows)
        invariant devices == old(devices) && primaryView == old(primaryView)
        invariant submeshes == old(submeshes) + created
        invariant forall m :: m in created ==> fresh(m)
        invariant |created| == Times(p, across)
        invariant AreSubmeshesOf(created, devices, shape, submeshShape)
        invariant row > 0 && shape.numCols > 0 ==> RowsSplit(devices, shape, submeshShape, row)
        decreases shape.numRows - row
      {
        var ok, more := CreateSubmeshRow(submeshShape, row, created, p);
        if !ok {
          assert submeshes[|old(submeshes)|..] == created + more[|created|..] == more;
          return Fatal;
        }
        assert more == created + more[|created|..];
        created := more;
        NextRowStarts(shape, submeshShape, p);
        if shape.numCols > 0 {
          RowsAdvance(devices, shape, submeshShape, row + submeshShape.numRows);
        }
        row := row + submeshShape.numRows;
        p := p + 1;
      }
      AllSplit(devices, shape, submeshShape, p);
      r := Ok(created);
    }
  }

  // ----- splitting

  /** When a mesh splits into submeshes: none are needed, or their sides divide the mesh's and no device is missing. */
  predicate Splits(count: nat, shape: MeshShape, sub: MeshShape)
  {
    shape.numRows == 0 || shape.numCols == 0
    || (&& sub.numRows > 0 && sub.numCols > 0
        && shape.numRows % sub.numRows == 0 && shape.numCols % sub.numCols == 0
        && Times(shape.numRows, shape.numCols) <= count)
  }

  function TimesIn(total: nat, part: nat): nat
  {
    if part > 0 then DivNonNegative(total, part); total / part else 0
  }

  /** The corner of the `i`-th submesh, counted row by row. */
  function Corner(shape: MeshShape, sub: MeshShape, i: nat): Coordinate
  {
    var across := TimesIn(shape.numCols, sub.numCols);
    if across == 0 then Coordinate(0, 0)
    else
      DivNonNegative(i, across);
      Coordinate(Times(i / across, sub.numRows), Times(i % across, sub.numCols))
  }

  ghost predicate AreSubmeshesOf(subs: seq<MeshDevice>, devices: seq<Device>, shape: MeshShape, sub: MeshShape)
    reads subs
  {
    forall i :: 0 <= i < |subs| ==>
      subs[i].IsRegionOf(devices, shape.numCols, Corner(shape, sub, i).row, Corner(shape, sub, i).col, sub)
  }

  /** The columns before `col` of a row of submeshes were split off. */
  ghost predicate ColsSplit(devices: seq<Device>, shape: MeshShape, sub: MeshShape, row: nat, col: nat)
  {
    && sub.numRows > 0 && sub.numCols > 0 && row + sub.numRows <= shape.numRows && 0 < col <= shape.numCols
    && Index(row + sub.numRows - 1, shape.numCols, col - 1) < |devices|
  }

  /** The rows before `row` were split off. */
  ghost predicate RowsSplit(devices: seq<Device>, shape: MeshShape, sub: MeshShape, row: nat)
  {
    && sub.numRows > 0 && sub.numCols > 0 && shape.numCols % sub.numCols == 0 && 0 < row <= shape.numRows
    && shape.numCols > 0 && Index(row - 1, shape.numCols, shape.numCols - 1) < |devices|
  }

  lemma SplitStarts(devices: seq<Device>, shape: MeshShape, sub: MeshShape)
    ensures Times(0, sub.numRows) == 0 && Times(0, sub.numCols) == 0
    ensures Times(0, TimesIn(shape.numCols, sub.numCols)) == 0
    ensures AreSubmeshesOf([], devices, shape, sub)
  {
  }

  /** Each submesh of a mesh that splits fits. */
  lemma SubmeshFits(devices: seq<Device>, shape: MeshShape, sub: MeshShape, p: nat, q: nat)
    requires Splits(|devices|, shape, sub)
    requires Times(p, sub.numRows) < shape.numRows && Times(q, sub.numCols) < shape.numCols
    ensures sub.numRows > 0 && sub.numCols > 0
    ensures Times(p, sub.numRows) + sub.numRows <= shape.numRows
    ensures Times(q, sub.numCols) + sub.numCols <= shape.numCols
    ensures HasRegion(devices, shape.numCols, Times(p, sub.numRows), Times(q, sub.numCols), sub)
  {
    hide Index, Times;
    NextMultiple(p, sub.numRows, shape.numRows);
    NextMultiple(q, sub.numCols, shape.numCols);
    PlaceInGrid(Coordinate(Times(p, sub.numRows) + sub.numRows - 1, Times(q, sub.numCols) + sub.numCols - 1), shape);
  }

  lemma NextMultiple(p: nat, d: nat, n: nat)
    requires d > 0 && n % d == 0 && Times(p, d) < n
    ensures Times(p, d) + d <= n
  {
    DivModSplit(n, d);
    if n / d <= p {
      MulMono(n / d, p, d);
    }
    MulMono(p + 1, n / d, d);
    MulDistribute(p, 1, d);
  }

  lemma AddSubmesh(before: seq<MeshDevice>, m: MeshDevice, devices: seq<Device>, shape: MeshShape, sub: MeshShape,
                   p: nat, q: nat)
    requires AreSubmeshesOf(before, devices, shape, sub)
    requires |before| == Index(p, TimesIn(shape.numCols, sub.numCols), q)
    requires sub.numRows > 0 && sub.numCols > 0
    requires Times(p, sub.numRows) + sub.numRows <= shape.numRows
             && Times(q, sub.numCols) + sub.numCols <= shape.numCols
    requires m.IsRegionOf(devices, shape.numCols, Times(p, sub.numRows), Times(q, sub.numCols), sub)
    ensures AreSubmeshesOf(before + [m], devices, shape, sub)
    ensures |before| + 1 == Index(p, TimesIn(shape.numCols, sub.numCols), q + 1)
    ensures q + 1 <= TimesIn(shape.numCols, sub.numCols)
    ensures Times(q + 1, sub.numCols) == Times(q, sub.numCols) + sub.numCols
    ensures ColsSplit(devices, shape, sub, Times(p, sub.numRows), Times(q, sub.numCols) + sub.numCols)
  {
    hide Index, Times;
    var across := TimesIn(shape.numCols, sub.numCols);
    TimesFit(q, sub.numCols, shape.numCols);
    CornerOf(shape, sub, p, q);
    IndexNext(p, across, q);
  }

  lemma IndexNext(p: nat, d: nat, q: nat)
    ensures Index(p, d, q + 1) == Index(p, d, q) + 1
  {
  }

  lemma TimesFit(q: nat, d: nat, n: nat)
    requires d > 0 && Times(q, d) + d <= n
    ensures q + 1 <= TimesIn(n, d)
    ensures Times(q + 1, d) == Times(q, d) + d
  {
    MulDistribute(q, 1, d);
    DivMono((q + 1) * d, n, d);
    DivModUnique((q + 1) * d, q + 1, 0, d);
  }

  lemma CornerOf(shape: MeshShape, sub: MeshShape, p: nat, q: nat)
    requires q < TimesIn(shape.numCols, sub.numCols)
    ensures Corner(shape, sub, Index(p, TimesIn(shape.numCols, sub.numCols), q))
            == Coordinate(Times(p, sub.numRows), Times(q, sub.numCols))
  {
    hide TimesIn;
    var across := TimesIn(shape.numCols, sub.numCols);
    DivModUnique(Index(p, across, q), p, q, across);
  }

  /** A row of submeshes is done, and the next begins where it ends. */
  lemma NextSubmeshRow(devices: seq<Device>, shape: MeshShape, sub: MeshShape, p: nat, q: nat)
    requires shape.numCols > 0 ==>
               ColsSplit(devices, shape, sub, Times(p, sub.numRows), Times(q, sub.numCols))
               && Times(q, sub.numCols) >= shape.numCols
    ensures Times(p + 1, sub.numRows) == Times(p, sub.numRows) + sub.numRows
    ensures shape.numCols > 0 ==>
              && q == TimesIn(shape.numCols, sub.numCols)
              && Index(p, q, q) == Times(p + 1, q)
              && RowsSplit(devices, shape, sub, Times(p, sub.numRows) + sub.numRows)
  {
    NextGroup(p, sub.numRows);
    NextGroup(p, q);
    if shape.numCols > 0 {
      DivModUnique(shape.numCols, q, 0, sub.numCols);
    }
  }

  lemma NextRowStarts(shape: MeshShape, sub: MeshShape, p: nat)
    ensures Times(p + 1, sub.numRows) == Times(p, sub.numRows) + sub.numRows
    ensures shape.numCols == 0 ==>
      forall k: nat :: Times(k, TimesIn(shape.numCols, sub.numCols)) == 0
  {
    NextGroup(p, sub.numRows);
    if shape.numCols == 0 && sub.numCols > 0 {
      DivModUnique(0, 0, 0, sub.numCols);
    }
  }

  lemma RowsAdvance(devices: seq<Device>, shape: MeshShape, sub: MeshShape, row: nat)
    requires RowsSplit(devices, shape, sub, row)
    ensures sub.numRows > 0
  {
  }

  lemma AllSplit(devices: seq<Device>, shape: MeshShape, sub: MeshShape, p: nat)
    requires Times(p, sub.numRows) >= shape.numRows
    requires shape.numRows > 0 && shape.numCols > 0 ==> RowsSplit(devices, shape, sub, Times(p, sub.numRows))
    ensures Splits(|devices|, shape, sub)
    ensures shape.numRows > 0 && shape.numCols > 0 ==>
      p == shape.numRows / sub.numRows && TimesIn(shape.numCols, sub.numCols) == shape.numCols / sub.numCols
  {
    if shape.numRows > 0 && shape.numCols > 0 {
      DivModUnique(shape.numRows, p, 0, sub.numRows);
      MulDistribute(shape.numRows - 1, 1, shape.numCols);
    }
  }

  // ----- what splitting promises

  /** The submesh that holds device (row, col), and its coordinate there. */
  function HomeOf(shape: MeshShape, sub: MeshShape, c: Coordinate): (nat, Coordinate)
    requires sub.numRows > 0 && sub.numCols > 0
  {
    DivNonNegative(c.row, sub.numRows);
    DivNonNegative(c.col, sub.numCols);
    (Index(c.row / sub.numRows, TimesIn(shape.numCols, sub.numCols), c.col / sub.numCols),
     Coordinate(c.row % sub.numRows, c.col % sub.numCols))
  }

  /**
   The submeshes partition the mesh: every device of it is at its home, and every place of a submesh is a
   device's home.
   */
  lemma SubmeshesPartition(subs: seq<MeshDevice>, devices: seq<Device>, shape: MeshShape, sub: MeshShape, c: Coordinate,
                           k: nat, local: Coordinate)
    requires Splits(|devices|, shape, sub) && shape.numRows > 0 && shape.numCols > 0
    requires |subs| == Times(shape.numRows / sub.numRows, shape.numCols / sub.numCols)
    requires AreSubmeshesOf(subs, devices, shape, sub)
    requires InMesh(c, shape.numRows, shape.numCols) && k < |subs| && InMesh(local, sub.numRows, sub.numCols)
    ensures var (home, at) := HomeOf(shape, sub, c);
            && home < |subs| && InMesh(at, sub.numRows, sub.numCols)
            && Index(c.row, shape.numCols, c.col) < |devices|
            && subs[home].GetDevice(at.row, at.col) == Ok(devices[Index(c.row, shape.numCols, c.col)])
    ensures var whole := Coordinate(Corner(shape, sub, k).row + local.row, Corner(shape, sub, k).col + local.col);
            && InMesh(whole, shape.numRows, shape.numCols) && HomeOf(shape, sub, whole) == (k, local)
  {
    hide Index, Times, Region, HasRegion;
    var across := shape.numCols / sub.numCols;
    var (home, at) := HomeOf(shape, sub, c);
    var p, q := c.row / sub.numRows, c.col / sub.numCols;
    HomeDigits(shape.numRows, sub.numRows, c.row);
    HomeDigits(shape.numCols, sub.numCols, c.col);
    PlaceInGrid(Coordinate(p, q), MeshShape(shape.numRows / sub.numRows, across));
    PlaceInGrid(c, shape);
    CornerOf(shape, sub, p, q);
    RegionAt(devices, shape.numCols, Corner(shape, sub, home).row, Corner(shape, sub, home).col, sub, at.row, at.col);

    PlaceOfIndex(k, MeshShape(shape.numRows / sub.numRows, across));
    CornerOf(shape, sub, k / across, k % across);
    HomeOfPlace(shape.numRows, sub.numRows, k / across, local.row);
    HomeOfPlace(shape.numCols, sub.numCols, k % across, local.col);
  }

  lemma HomeDigits(n: nat, d: nat, x: nat)
    requires d > 0 && n % d == 0 && x < n
    ensures 0 <= x / d < n / d && 0 <= x % d < d && Times(x / d, d) + x % d == x
  {
    DivModSplit(n, d);
    DivInRange(x, n / d, d);
    DivModSplit(x, d);
  }

  lemma HomeOfPlace(n: nat, d: nat, p: nat, r: nat)
    requires d > 0 && n % d == 0 && p < n / d && r < d
    ensures var x := Times(p, d) + r; x < n && x / d == p && x % d == r
  {
    DivModSplit(n, d);
    IndexInRange(p, r, n / d, d);
    DivModUnique(Times(p, d) + r, p, r, d);
  }

  /** A region of a region is a region of the whole: offsets add up. */
  lemma NestedRegions<T>(v: seq<T>, cols: nat, outer: Coordinate, outerShape: MeshShape, inner: Coordinate,
                         innerShape: MeshShape)
    requires HasRegion(v, cols, outer.row, outer.col, outerShape)
    requires inner.row + innerShape.numRows <= outerShape.numRows
             && inner.col + innerShape.numCols <= outerShape.numCols
    ensures var region := Region(v, cols, outer.row, outer.col, outerShape);
            && HasRegion(region, outerShape.numCols, inner.row, inner.col, innerShape)
            && HasRegion(v, cols, outer.row + inner.row, outer.col + inner.col, innerShape)
            && Region(region, outerShape.numCols, inner.row, inner.col, innerShape)
               == Region(v, cols, outer.row + inner.row, outer.col + inner.col, innerShape)
  {
    hide Index, Times;
    var region := Region(v, cols, outer.row, outer.col, outerShape);
    if innerShape.numRows > 0 && innerShape.numCols > 0 {
      RegionAt(v, cols, outer.row, outer.col, outerShape,
        inner.row + innerShape.numRows - 1, inner.col + innerShape.numCols - 1);
    }
    forall i | 0 <= i < Times(innerShape.numRows, innerShape.numCols)
      ensures Region(region, outerShape.numCols, inner.row, inner.col, innerShape)[i]
              == Region(v, cols, outer.row + inner.row, outer.col + inner.col, innerShape)[i]
    {
      PlaceOfIndex(i, innerShape);
      var row, col := i / innerShape.numCols, i % innerShape.numCols;
      RegionAt(region, outerShape.numCols, inner.row, inner.col, innerShape, row, col);
      RegionAt(v, cols, outer.row + inner.row, outer.col + inner.col, innerShape, row, col);
      RegionAt(v, cols, outer.row, outer.col, outerShape, inner.row + row, inner.col + col);
    }
  }

  /** A submesh of a submesh is a submesh of the whole, at the sum of the offsets. */
  lemma NestedSubmesh(outer: MeshDevice, inner: MeshDevice, devices: seq<Device>, cols: nat, at: Coordinate,
                      within: Coordinate)
    requires outer.IsRegionOf(devices, cols, at.row, at.col, outer.shape)
    requires inner.IsRegionOf(outer.devices, outer.shape.numCols, within.row, within.col, inner.shape)
    requires within.row + inner.shape.numRows <= outer.shape.numRows
    requires within.col + inner.shape.numCols <= outer.shape.numCols
    ensures inner.IsRegionOf(devices, cols, at.row + within.row, at.col + within.col, inner.shape)
  {
    hide Index, Times, HasRegion, Region, CoordinatesOf;
    NestedRegions(devices, cols, at, outer.shape, within, inner.shape);
  }

  // ----- taking the devices of a region

  /** `found` is the first `count` devices of the region with corner `topLeft` and rows of `width`. */
  ghost predicate Taken(found: seq<Device>, devices: seq<Device>, cols: nat, topLeft: Coordinate, width: nat,
                        count: nat)
  {
    && width > 0 && |found| == count
    && forall i :: 0 <= i < count ==> PlaceInWhole(cols, topLeft, width, i) < |devices|
                                      && found[i] == devices[PlaceInWhole(cols, topLeft, width, i)]
  }

  /** The place in the whole of a region's `i`-th device. */
  function PlaceInWhole(cols: nat, topLeft: Coordinate, width: nat, i: nat): nat
    requires width > 0
  {
    DivNonNegative(i, width);
    Index(topLeft.row + i / width, cols, topLeft.col + i % width)
  }

  lemma NoneTaken(devices: seq<Device>, cols: nat, topLeft: Coordinate, width: nat)
    requires width > 0
    ensures Taken([], devices, cols, topLeft, width, Times(0, width))
    ensures CoordinatesOf(Ids([]), width) == map[]
  {
  }

  lemma GroupStarts(row: nat, width: nat)
    ensures Index(row, width, 0) == Times(row, width)
  {
  }

  lemma NextGroup(row: nat, width: nat)
    ensures Index(row, width, width) == Times(row + 1, width)
  {
    MulDistribute(row, 1, width);
  }

  /** Taking the device at (row, col) of the region, if there is one. */
  lemma TakeNext(found: seq<Device>, devices: seq<Device>, cols: nat, topLeft: Coordinate, shape: MeshShape,
                 row: nat, col: nat)
    requires row < shape.numRows && col < shape.numCols
    requires Taken(found, devices, cols, topLeft, shape.numCols, Index(row, shape.numCols, col))
    ensures var place := Index(topLeft.row + row, cols, topLeft.col + col);
            if place < |devices| then
              && Taken(found + [devices[place]], devices, cols, topLeft, shape.numCols,
                       Index(row, shape.numCols, col + 1))
              && CoordinatesOf(Ids(found + [devices[place]]), shape.numCols)
                 == CoordinatesOf(Ids(found), shape.numCols)[devices[place].id := Coordinate(row, col)]
            else !HasRegion(devices, cols, topLeft.row, topLeft.col, shape)
  {
    hide CoordinatesOf;
    var i, place := Index(row, shape.numCols, col), Index(topLeft.row + row, cols, topLeft.col + col);
    DivModUnique(i, row, col, shape.numCols);
    if place < |devices| {
      CoordinatesSnoc(Ids(found), devices[place].id, shape.numCols);
      assert Ids(found + [devices[place]]) == Ids(found) + [devices[place].id];
    } else if HasRegion(devices, cols, topLeft.row, topLeft.col, shape) {
      RegionInRange(devices, cols, topLeft.row, topLeft.col, shape, row, col);
      assert false;
    }
  }

  lemma CoordinatesSnoc(ids: seq<int>, id: int, cols: nat)
    requires cols > 0
    ensures |ids| / cols >= 0
    ensures CoordinatesOf(ids + [id], cols) == CoordinatesOf(ids, cols)[id := Coordinate(|ids| / cols, |ids| % cols)]
  {
    DivNonNegative(|ids|, cols);
    assert (ids + [id])[..|ids|] == ids;
  }

  lemma AllTaken(found: seq<Device>, devices: seq<Device>, cols: nat, topLeft: Coordinate, shape: MeshShape)
    requires shape.numRows > 0 && shape.numCols > 0
    requires Taken(found, devices, cols, topLeft, shape.numCols, Times(shape.numRows, shape.numCols))
    ensures HasRegion(devices, cols, topLeft.row, topLeft.col, shape)
    ensures found == Region(devices, cols, topLeft.row, topLeft.col, shape)
  {
    hide Index, Times;
    var last := Index(shape.numRows - 1, shape.numCols, shape.numCols - 1);
    PlaceInGrid(Coordinate(shape.numRows - 1, shape.numCols - 1), shape);
    LastPlace(cols, topLeft, shape);
    assert found[last] == devices[PlaceInWhole(cols, topLeft, shape.numCols, last)];
  }

  lemma LastPlace(cols: nat, topLeft: Coordinate, shape: MeshShape)
    requires shape.numRows > 0 && shape.numCols > 0
    ensures PlaceInWhole(cols, topLeft, shape.numCols, Index(shape.numRows - 1, shape.numCols, shape.numCols - 1))
            == Index(topLeft.row + shape.numRows - 1, cols, topLeft.col + shape.numCols - 1)
  {
    DivModUnique(Index(shape.numRows - 1, shape.numCols, shape.numCols - 1), shape.numRows - 1, shape.numCols - 1,
                 shape.numCols);
  }
}
