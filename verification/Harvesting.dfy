/**
 Harvested rows: UMD names the rows of worker cores by virtual coordinates, with the rows that were fused off
 last; the harvesting mask says which physical rows those are. The maps between the two are built here.
 */
module Harvesting {
  import opened Outcomes
  import opened Arith
  import opened Bits
  import opened OrderedSets
  import opened CoreRanges
  import opened Collections

  datatype CoreType = Worker | Harvested | NotTensix

  datatype CoreDescriptor = CoreDescriptor(coord: CoreCoord, kind: CoreType)

  predicate IsTensix(d: CoreDescriptor)
  {
    d.kind == Worker || d.kind == Harvested
  }

  /** What UMD's own descriptor says about a chip. */
  datatype Umd = Umd(
    grayskull: bool,
    cores: map<CoreCoord, CoreDescriptor>,
    workers: seq<CoreCoord>,
    harvestedWorkers: seq<CoreCoord>,
    logToRoutingX: map<nat, nat>,
    logToRoutingY: map<nat, nat>,
    gridX: nat,
    gridY: nat)

  /** The rows and columns that hold worker cores, harvested or not. */
  function Rows(u: Umd): set<nat>
  {
    set c | c in u.cores && IsTensix(u.cores[c]) :: c.y
  }

  function Cols(u: Umd): set<nat>
  {
    set c | c in u.cores && IsTensix(u.cores[c]) :: c.x
  }

  function HarvestedRows(u: Umd): set<nat>
  {
    set c | c in u.harvestedWorkers :: c.y
  }

  /** The rows and columns of the worker cores met so far. */
  function SeenRows(u: Umd, todo: set<CoreCoord>): set<nat>
  {
    set c | c in u.cores && IsTensix(u.cores[c]) && c !in todo :: c.y
  }

  function SeenCols(u: Umd, todo: set<CoreCoord>): set<nat>
  {
    set c | c in u.cores && IsTensix(u.cores[c]) && c !in todo :: c.x
  }

  lemma SeenNext(u: Umd, todo: set<CoreCoord>, c: CoreCoord)
    requires c in todo && c in u.cores
    ensures SeenRows(u, todo - {c}) == SeenRows(u, todo) + if IsTensix(u.cores[c]) then {c.y} else {}
    ensures SeenCols(u, todo - {c}) == SeenCols(u, todo) + if IsTensix(u.cores[c]) then {c.x} else {}
  {
  }

  lemma SeenBounds(u: Umd)
    ensures SeenRows(u, u.cores.Keys) == {} && SeenCols(u, u.cores.Keys) == {}
    ensures SeenRows(u, {}) == Rows(u) && SeenCols(u, {}) == Cols(u)
  {
  }

  /** The worker cores are the crossings of the worker rows and columns. */
  ghost predicate IsGrid(u: Umd)
  {
    && (forall x, y :: x in Cols(u) && y in Rows(u) ==>
          CoreCoord(x, y) in u.cores && IsTensix(u.cores[CoreCoord(x, y)]))
    && (forall c :: c in u.cores ==> u.cores[c].coord == c)
  }

  /** The logical rows and columns name all that are left. */
  ghost predicate WellFormed(u: Umd)
  {
    && IsGrid(u)
    && HarvestedRows(u) <= Rows(u)
    && Names(u.logToRoutingX, u.gridX, Cols(u))
    && Names(u.logToRoutingY, u.gridY, Rows(u) - HarvestedRows(u))
  }

  /** `m` numbers the members of `s` by 0 .. n - 1. */
  ghost predicate Names(m: map<nat, nat>, n: nat, s: set<nat>)
  {
    && (forall l: nat :: l in m <==> l < n)
    && m.Values == s
    && (forall k, l :: k in m && l in m && m[k] == m[l] ==> k == l)
  }

  // ----- rows in the mask

  /** The positions of the one bits of `mask`, counted from `row`. */
  function MaskRows(mask: nat, row: nat): set<nat>
  {
    if mask == 0 then {} else (if mask % 2 == 1 then {row} else {}) + MaskRows(mask / 2, row + 1)
  }

  /** A row is removed exactly when its bit is set. */
  lemma {:induction false} MaskRowsAreBits(mask: nat, row: nat, r: nat)
    ensures row + r in MaskRows(mask, row) <==> mask / Pow2(r) % 2 == 1
    ensures forall k :: k in MaskRows(mask, row) ==> k >= row
  {
    if mask > 0 {
      if r > 0 {
        MaskRowsAreBits(mask / 2, row + 1, r - 1);
        DivDiv(mask, 2, Pow2(r - 1));
      } else {
        MaskRowsAreBits(mask / 2, row + 1, 0);
      }
    } else {
      DivModUnique(0, 0, 0, Pow2(r));
    }
  }

  // ----- rows in order

  const LESS := (a: nat, b: nat) => a < b

  lemma LessIsTotal()
    ensures StrictTotalOrder(LESS)
  {
  }

  /** The members of `s` from the least to the greatest. */
  function Ascending(s: set<nat>): (v: seq<nat>)
    ensures |v| == |s| && Sorted(LESS, v)
    ensures forall k :: k in v <==> k in s
    ensures forall i, j :: 0 <= i < j < |v| ==> v[i] < v[j]
  {
    LessIsTotal();
    var v := InOrder(LESS, s);
    assert forall i, j :: 0 <= i < j < |v| ==> LESS(v[i], v[j]);
    v
  }

  function Without(v: seq<nat>, removed: set<nat>): seq<nat>
  {
    if v == [] then []
    else Without(v[..|v| - 1], removed) + if v[|v| - 1] in removed then [] else [v[|v| - 1]]
  }

  lemma {:induction false} WithoutMembers(v: seq<nat>, removed: set<nat>)
    requires Sorted(LESS, v)
    ensures Sorted(LESS, Without(v, removed))
    ensures forall k :: k in Without(v, removed) <==> k in v && k !in removed
  {
    if v != [] {
      var front, last := v[..|v| - 1], v[|v| - 1];
      WithoutMembers(front, removed);
      assert v == front + [last];
      assert forall k :: k in Without(front, removed) ==> k in front && LESS(k, last);
    }
  }

  /** Skipping the removed members of an ascending sequence leaves the others, ascending. */
  lemma WithoutIsAscending(s: set<nat>, removed: set<nat>)
    ensures Without(Ascending(s), removed) == Ascending(s - removed)
  {
    LessIsTotal();
    WithoutMembers(Ascending(s), removed);
    SortedUnique(LESS, Without(Ascending(s), removed), Ascending(s - removed));
  }

  lemma WithoutNext(v: seq<nat>, removed: set<nat>, k: nat)
    requires k < |v|
    ensures Without(v[..k + 1], removed) == Without(v[..k], removed) + if v[k] in removed then [] else [v[k]]
  {
    assert v[..k + 1][..k] == v[..k];
  }

  lemma {:induction false} WithoutGrows(v: seq<nat>, removed: set<nat>, k: nat)
    requires k <= |v|
    ensures |Without(v[..k], removed)| <= |Without(v, removed)|
    ensures Without(v[..k], removed) == Without(v, removed)[..|Without(v[..k], removed)|]
    decreases |v| - k
  {
    if k < |v| {
      WithoutNext(v, removed, k);
      WithoutGrows(v, removed, k + 1);
    } else {
      assert v[..k] == v;
    }
  }

  // ----- maps as pairs

  /** `std::unordered_map::insert`: a key that is there keeps its value. */
  function Insert<K, V>(m: map<K, V>, k: K, v: V): map<K, V>
  {
    if k in m then m else m[k := v]
  }

  /** The map sends keys[i] to values[i] and has no other key. */
  ghost predicate Pairs(m: map<nat, nat>, keys: seq<nat>, values: seq<nat>)
  {
    && |keys| == |values|
    && (forall k :: k in m <==> k in keys)
    && (forall i :: 0 <= i < |keys| ==> keys[i] in m && m[keys[i]] == values[i])
  }

  /** Inserting the next of some keys that are all different. */
  lemma PairsNext(m: map<nat, nat>, keys: seq<nat>, values: seq<nat>, i: nat)
    requires i < |keys| == |values| && NoDuplicates(keys) && Pairs(m, keys[..i], values[..i])
    ensures Pairs(Insert(m, keys[i], values[i]), keys[..i + 1], values[..i + 1])
  {
    assert keys[..i + 1] == keys[..i] + [keys[i]];
    assert keys[i] !in keys[..i];
  }

  /** The map sends each number below |v| to that item of `v`. */
  ghost predicate Numbers(m: map<nat, nat>, v: seq<nat>)
  {
    && (forall l: nat :: l in m <==> l < |v|)
    && (forall l :: l in m ==> m[l] == v[l])
  }

  lemma NumbersNext(m: map<nat, nat>, v: seq<nat>, l: nat)
    requires l < |v| && Numbers(m, v[..l])
    ensures Numbers(Insert(m, l, v[l]), v[..l + 1])
  {
  }

  function Elements(v: seq<nat>): set<nat>
  {
    set k | k in v
  }

  lemma {:induction false} DistinctSize(v: seq<nat>)
    requires NoDuplicates(v)
    ensures |Elements(v)| == |v|
  {
    if v != [] {
      var front, last := v[..|v| - 1], v[|v| - 1];
      DistinctSize(front);
      assert v == front + [last];
      assert forall i :: 0 <= i < |front| ==> front[i] == v[i];
      assert last !in Elements(front);
      assert Elements(v) == Elements(front) + {last};
    }
  }

  lemma PairsSize(m: map<nat, nat>, keys: seq<nat>, values: seq<nat>)
    requires Pairs(m, keys, values) && NoDuplicates(keys)
    ensures |m| == |keys|
  {
    DistinctSize(keys);
    assert m.Keys == Elements(keys);
  }

  lemma PairsKeys(m: map<nat, nat>, keys: seq<nat>, values: seq<nat>)
    requires Pairs(m, keys, values)
    ensures forall k :: k in m <==> k in keys
  {
  }

  /** Opposite pairs make inverse maps. */
  lemma PairsInverse(m: map<nat, nat>, w: map<nat, nat>, keys: seq<nat>, values: seq<nat>)
    requires Pairs(m, keys, values) && Pairs(w, values, keys)
    ensures forall k :: k in m ==> m[k] in w && w[m[k]] == k
    ensures forall v :: v in w ==> w[v] in m && m[w[v]] == v
  {
    forall k | k in m
      ensures m[k] in w && w[m[k]] == k
    {
      var i :| 0 <= i < |keys| && keys[i] == k;
    }
    forall v | v in w
      ensures w[v] in m && m[w[v]] == v
    {
      var i :| 0 <= i < |values| && values[i] == v;
    }
  }

  // ----- the maps that harvesting calls for

  function Identity(s: set<nat>): map<nat, nat>
  {
    map k | k in s :: k
  }

  lemma IdentityEmpty()
    ensures Identity({}) == map[]
  {
  }

  lemma IdentityInsert(s: set<nat>, k: nat)
    ensures Insert(Identity(s), k, k) == Identity(s + {k})
    ensures s + {} == s
  {
  }

  /** The physical rows left for logical rows 0 .. gridY - 1. */
  function LogicalRows(u: Umd, removed: set<nat>): seq<nat>
  {
    var left := Ascending(Rows(u) - removed);
    left[..if u.gridY <= |left| then u.gridY else |left|]
  }

  /** UMD's virtual rows for logical rows 0 .. gridY - 1. */
  function RoutingRows(u: Umd): seq<nat>
  {
    seq(u.gridY, l => if l in u.logToRoutingY then u.logToRoutingY[l] else 0)
  }

  /** UMD's virtual rows, those of logical rows first and the harvested ones after them. */
  function VirtualRows(u: Umd): seq<nat>
  {
    RoutingRows(u) + Ascending(HarvestedRows(u))
  }

  /** The physical rows in the same order. */
  function PhysicalRows(u: Umd, removed: set<nat>): seq<nat>
  {
    LogicalRows(u, removed) + Ascending(removed)
  }

  predicate Remaps(u: Umd, mask: nat)
  {
    mask != 0 && !u.grayskull
  }

  /** The cores as they are on the chip: a worker core is harvested exactly when its row was removed. */
  function PhysicalCores(u: Umd, removed: set<nat>): map<CoreCoord, CoreDescriptor>
  {
    map c | c in u.cores ::
      if IsTensix(u.cores[c]) then CoreDescriptor(c, if c.y in removed then Harvested else Worker) else u.cores[c]
  }

  // ----- facts about a well-formed descriptor

  lemma {:induction false} NamesSize(m: map<nat, nat>, n: nat, s: set<nat>)
    requires Names(m, n, s)
    ensures |s| == n
  {
    var v := seq(n, l requires 0 <= l < n => m[l]);
    DistinctSize(v);
    assert s == Elements(v) by {
      forall k | k in s
        ensures k in v
      {
        var l :| l in m && m[l] == k;
        assert v[l] == k;
      }
    }
  }

  lemma RowsNamed(u: Umd)
    requires WellFormed(u)
    ensures |Rows(u) - HarvestedRows(u)| == u.gridY && HarvestedRows(u) <= Rows(u)
  {
    hide Rows, HarvestedRows, IsGrid;
    NamesSize(u.logToRoutingY, u.gridY, Rows(u) - HarvestedRows(u));
  }

  lemma EnoughRows(u: Umd, removed: set<nat>)
    requires WellFormed(u) && |removed| == |HarvestedRows(u)|
    ensures u.gridY <= |Rows(u) - removed| && |LogicalRows(u, removed)| == u.gridY
    ensures removed <= Rows(u) ==> |Rows(u) - removed| == u.gridY
  {
    hide Rows, HarvestedRows, WellFormed;
    RowsNamed(u);
    PartCardinality(Rows(u), HarvestedRows(u));
    PartCardinality(Rows(u), removed * Rows(u));
    PartCardinality(removed, removed * Rows(u));
    assert Rows(u) - removed == Rows(u) - removed * Rows(u);
    assert removed <= Rows(u) ==> removed * Rows(u) == removed;
  }

  lemma SortedIsDistinct(v: seq<nat>)
    requires Sorted(LESS, v)
    ensures NoDuplicates(v)
  {
    forall i, j | 0 <= i < j < |v|
      ensures v[i] != v[j]
    {
      assert LESS(v[i], v[j]);
    }
  }

  /** The virtual rows are the worker rows, each once. */
  lemma VirtualRowsCover(u: Umd)
    requires WellFormed(u)
    ensures NoDuplicates(VirtualRows(u)) && |VirtualRows(u)| == u.gridY + |HarvestedRows(u)|
    ensures forall k :: k in VirtualRows(u) <==> k in Rows(u)
  {
    hide Rows, HarvestedRows, IsGrid, RoutingRows, Ascending, Names;
    RoutingRowsAre(u);
    SortedIsDistinct(Ascending(HarvestedRows(u)));
    NoDuplicatesConcat(RoutingRows(u), Ascending(HarvestedRows(u)));
  }

  lemma RoutingRowsAre(u: Umd)
    requires WellFormed(u)
    ensures NoDuplicates(RoutingRows(u)) && |RoutingRows(u)| == u.gridY
    ensures forall k :: k in RoutingRows(u) <==> k in Rows(u) - HarvestedRows(u)
  {
    hide Rows, HarvestedRows, IsGrid;
    var front := RoutingRows(u);
    forall k | k in Rows(u) - HarvestedRows(u)
      ensures k in front
    {
      assert k in u.logToRoutingY.Values;
      var l :| l in u.logToRoutingY && u.logToRoutingY[l] == k;
      assert front[l] == k;
    }
    forall l | 0 <= l < u.gridY
      ensures front[l] in Rows(u) - HarvestedRows(u)
    {
      assert u.logToRoutingY[l] in u.logToRoutingY.Values;
    }
  }

  /** The physical rows are each given once, and are the worker rows exactly when every removed row is one. */
  lemma PhysicalRowsCover(u: Umd, removed: set<nat>)
    requires WellFormed(u) && |removed| == |HarvestedRows(u)|
    ensures NoDuplicates(PhysicalRows(u, removed)) && |PhysicalRows(u, removed)| == u.gridY + |removed|
    ensures (forall k :: k in PhysicalRows(u, removed) <==> k in Rows(u)) <==> removed <= Rows(u)
  {
    hide Rows, HarvestedRows, WellFormed;
    EnoughRows(u, removed);
    var left, front, back := Ascending(Rows(u) - removed), LogicalRows(u, removed), Ascending(removed);
    SortedIsDistinct(left);
    SortedIsDistinct(back);
    NoDuplicatesConcat(front, back);
    if removed <= Rows(u) {
      assert front == left;
    } else {
      var k :| k in removed && k !in Rows(u);
      assert k in PhysicalRows(u, removed);
    }
  }

  // ----- moving the cores

  /** Rows renamed by two maps that undo each other. */
  ghost predicate Renames(u: Umd, toPhysical: map<nat, nat>, toVirtual: map<nat, nat>)
  {
    && (forall r :: r in toPhysical <==> r in Rows(u))
    && (forall r :: r in toPhysical ==> toPhysical[r] in toVirtual && toVirtual[toPhysical[r]] == r)
    && (forall r :: r in toVirtual ==> toVirtual[r] in toPhysical && toPhysical[toVirtual[r]] == r)
  }

  lemma RowOfTensix(u: Umd, c: CoreCoord)
    requires c in u.cores && IsTensix(u.cores[c])
    ensures c.x in Cols(u) && c.y in Rows(u)
  {
  }

  /** A worker core with its place on the chip, harvested exactly when its row was removed. */
  function Placed(removed: set<nat>, k: CoreCoord): CoreDescriptor
  {
    CoreDescriptor(k, if k.y in removed then Harvested else Worker)
  }

  /** `k` is where a worker core outside `todo` is on the chip. */
  ghost predicate FromWorker(u: Umd, toVirtual: map<nat, nat>, todo: set<CoreCoord>, k: CoreCoord)
  {
    k.x in Cols(u) && k.y in toVirtual && CoreCoord(k.x, toVirtual[k.y]) !in todo
  }

  /** `k` is a core outside `todo` that is no worker, and keeps its place. */
  ghost predicate FromOther(u: Umd, todo: set<CoreCoord>, k: CoreCoord)
  {
    k in u.cores && !IsTensix(u.cores[k]) && k !in todo
  }

  /** The physical cores and worker lists once the cores outside `todo` were moved. */
  ghost predicate Moved(u: Umd, removed: set<nat>, toVirtual: map<nat, nat>, todo: set<CoreCoord>,
                        cores: map<CoreCoord, CoreDescriptor>, workers: seq<CoreCoord>, harvested: seq<CoreCoord>)
  {
    && (forall k :: k in cores <==> FromWorker(u, toVirtual, todo, k) || FromOther(u, todo, k))
    && (forall k :: k in cores ==>
          || (FromWorker(u, toVirtual, todo, k) && cores[k] == Placed(removed, k))
          || (FromOther(u, todo, k) && cores[k] == u.cores[k]))
    && NoDuplicates(workers) && NoDuplicates(harvested)
    && (forall k :: k in workers <==> FromWorker(u, toVirtual, todo, k) && k.y !in removed)
    && (forall k :: k in harvested <==> FromWorker(u, toVirtual, todo, k) && k.y in removed)
  }

  lemma MoveWorker(u: Umd, removed: set<nat>, toPhysical: map<nat, nat>, toVirtual: map<nat, nat>, todo: set<CoreCoord>,
                   cores: map<CoreCoord, CoreDescriptor>, workers: seq<CoreCoord>, harvested: seq<CoreCoord>,
                   c: CoreCoord)
    requires Renames(u, toPhysical, toVirtual) && c in todo && c in u.cores && IsTensix(u.cores[c])
    requires Moved(u, removed, toVirtual, todo, cores, workers, harvested)
    ensures c.y in toPhysical
    ensures var k := CoreCoord(c.x, toPhysical[c.y]);
            Moved(u, removed, toVirtual, todo - {c}, Insert(cores, k, Placed(removed, k)),
              if k.y !in removed then workers + [k] else workers, if k.y in removed then harvested + [k] else harvested)
  {
    hide Rows, Cols, Placed;
    RowOfTensix(u, c);
    var k := CoreCoord(c.x, toPhysical[c.y]);
    forall k'
      ensures FromWorker(u, toVirtual, todo - {c}, k') <==> FromWorker(u, toVirtual, todo, k') || k' == k
      ensures FromOther(u, todo - {c}, k') <==> FromOther(u, todo, k')
    {
    }
    assert !FromWorker(u, toVirtual, todo, k);
    AddWorker(u, removed, toVirtual, todo, cores, workers, harvested, c, k);
  }

  lemma AddWorker(u: Umd, removed: set<nat>, toVirtual: map<nat, nat>, todo: set<CoreCoord>,
                  cores: map<CoreCoord, CoreDescriptor>, workers: seq<CoreCoord>, harvested: seq<CoreCoord>,
                  c: CoreCoord, k: CoreCoord)
    requires Moved(u, removed, toVirtual, todo, cores, workers, harvested) && !FromWorker(u, toVirtual, todo, k)
    requires forall k' :: FromWorker(u, toVirtual, todo - {c}, k') <==> FromWorker(u, toVirtual, todo, k') || k' == k
    requires forall k' :: FromOther(u, todo - {c}, k') <==> FromOther(u, todo, k')
    ensures Moved(u, removed, toVirtual, todo - {c}, Insert(cores, k, Placed(removed, k)),
              if k.y !in removed then workers + [k] else workers, if k.y in removed then harvested + [k] else harvested)
  {
    hide FromWorker, FromOther, Placed;
  }

  lemma MoveOther(u: Umd, removed: set<nat>, toPhysical: map<nat, nat>, toVirtual: map<nat, nat>, todo: set<CoreCoord>,
                  cores: map<CoreCoord, CoreDescriptor>, workers: seq<CoreCoord>, harvested: seq<CoreCoord>,
                  c: CoreCoord)
    requires IsGrid(u) && Renames(u, toPhysical, toVirtual) && c in todo && c in u.cores && !IsTensix(u.cores[c])
    requires Moved(u, removed, toVirtual, todo, cores, workers, harvested)
    ensures Moved(u, removed, toVirtual, todo - {c}, Insert(cores, c, u.cores[c]), workers, harvested)
  {
    hide Rows, Cols, Placed, IsTensix;
    forall k
      ensures FromWorker(u, toVirtual, todo - {c}, k) <==> FromWorker(u, toVirtual, todo, k)
      ensures FromOther(u, todo - {c}, k) <==> FromOther(u, todo, k) || k == c
    {
      if k.x in Cols(u) && k.y in toVirtual {
        assert toVirtual[k.y] in Rows(u);
      }
    }
    AddOther(u, removed, toVirtual, todo, cores, workers, harvested, c);
  }

  lemma AddOther(u: Umd, removed: set<nat>, toVirtual: map<nat, nat>, todo: set<CoreCoord>,
                 cores: map<CoreCoord, CoreDescriptor>, workers: seq<CoreCoord>, harvested: seq<CoreCoord>,
                 c: CoreCoord)
    requires Moved(u, removed, toVirtual, todo, cores, workers, harvested) && c in u.cores
    requires forall k :: FromWorker(u, toVirtual, todo - {c}, k) <==> FromWorker(u, toVirtual, todo, k)
    requires forall k :: FromOther(u, todo - {c}, k) <==> FromOther(u, todo, k) || k == c
    ensures Moved(u, removed, toVirtual, todo - {c}, Insert(cores, c, u.cores[c]), workers, harvested)
  {
    hide FromWorker, FromOther, Placed;
  }

  lemma NothingMoved(u: Umd, removed: set<nat>, toPhysical: map<nat, nat>, toVirtual: map<nat, nat>)
    requires IsGrid(u) && Renames(u, toPhysical, toVirtual)
    ensures Moved(u, removed, toVirtual, u.cores.Keys, map[], [], [])
  {
    hide Rows, Cols;
    forall k
      ensures !FromWorker(u, toVirtual, u.cores.Keys, k)
    {
      if k.x in Cols(u) && k.y in toVirtual {
        assert toVirtual[k.y] in Rows(u);
      }
    }
  }

  /** The row maps undo each other on the worker rows, so every lookup of a worker row succeeds. */
  lemma RowMapsRename(u: Umd, removed: set<nat>, toPhysical: map<nat, nat>, toVirtual: map<nat, nat>)
    requires WellFormed(u) && |removed| == |HarvestedRows(u)|
    requires Pairs(toPhysical, VirtualRows(u), PhysicalRows(u, removed))
    requires Pairs(toVirtual, PhysicalRows(u, removed), VirtualRows(u))
    ensures Renames(u, toPhysical, toVirtual)
    ensures forall r :: r in toVirtual <==> r in PhysicalRows(u, removed)
  {
    hide Rows, PhysicalRows, VirtualRows, HarvestedRows, WellFormed, Pairs, NoDuplicates, Renames;
    VirtualRowsCover(u);
    PhysicalRowsCover(u, removed);
    PairsKeys(toPhysical, VirtualRows(u), PhysicalRows(u, removed));
    PairsKeys(toVirtual, PhysicalRows(u, removed), VirtualRows(u));
    PairsInverse(toPhysical, toVirtual, VirtualRows(u), PhysicalRows(u, removed));
    RenamesFromRows(u, toPhysical, toVirtual);
  }

  lemma RenamesFromRows(u: Umd, toPhysical: map<nat, nat>, toVirtual: map<nat, nat>)
    requires forall r :: r in toPhysical <==> r in Rows(u)
    requires forall r :: r in toPhysical ==> toPhysical[r] in toVirtual && toVirtual[toPhysical[r]] == r
    requires forall r :: r in toVirtual ==> toVirtual[r] in toPhysical && toPhysical[toVirtual[r]] == r
    ensures Renames(u, toPhysical, toVirtual)
  {
  }

  /** `k` is the crossing of a worker column and a physical row. */
  ghost predicate OnChip(u: Umd, removed: set<nat>, k: CoreCoord)
  {
    k.x in Cols(u) && k.y in PhysicalRows(u, removed)
  }

  /** A list has the crossings of the worker columns with the removed rows, or with the others, each once. */
  ghost predicate ListsWorkers(u: Umd, removed: set<nat>, v: seq<CoreCoord>, fromRemoved: bool)
  {
    NoDuplicates(v) && forall k :: k in v <==> OnChip(u, removed, k) && (k.y in removed <==> fromRemoved)
  }

  /** The cores on the chip: the crossings, and UMD's other cores; where the two coincide either may be kept. */
  ghost predicate HoldsCores(u: Umd, removed: set<nat>, cores: map<CoreCoord, CoreDescriptor>)
  {
    && (forall k :: k in cores <==> OnChip(u, removed, k) || FromOther(u, {}, k))
    && (forall k :: k in cores ==>
          (OnChip(u, removed, k) && cores[k] == Placed(removed, k)) || (FromOther(u, {}, k) && cores[k] == u.cores[k]))
  }

  lemma AllMoved(u: Umd, removed: set<nat>, toVirtual: map<nat, nat>, cores: map<CoreCoord, CoreDescriptor>,
                 workers: seq<CoreCoord>, harvested: seq<CoreCoord>)
    requires Moved(u, removed, toVirtual, {}, cores, workers, harvested)
    requires forall r :: r in toVirtual <==> r in PhysicalRows(u, removed)
    ensures HoldsCores(u, removed, cores)
    ensures ListsWorkers(u, removed, workers, false) && ListsWorkers(u, removed, harvested, true)
  {
    hide Cols, PhysicalRows, Placed, FromOther;
    forall k
      ensures FromWorker(u, toVirtual, {}, k) <==> OnChip(u, removed, k)
    {
    }
  }

  /** When every removed row is a worker row, the cores on the chip are UMD's, with the removed rows harvested. */
  lemma CoresWhenContained(u: Umd, removed: set<nat>, cores: map<CoreCoord, CoreDescriptor>)
    requires WellFormed(u) && |removed| == |HarvestedRows(u)| && removed <= Rows(u) && HoldsCores(u, removed, cores)
    ensures cores == PhysicalCores(u, removed)
    ensures forall k :: OnChip(u, removed, k) <==> k in u.cores && IsTensix(u.cores[k])
  {
    hide Rows, Cols, HarvestedRows, WellFormed, PhysicalRows, IsTensix;
    PhysicalRowsCover(u, removed);
    forall k
      ensures OnChip(u, removed, k) <==> k in u.cores && IsTensix(u.cores[k])
    {
      if OnChip(u, removed, k) {
        Crossing(u, k.x, k.y);
      } else if k in u.cores && IsTensix(u.cores[k]) {
        RowOfTensix(u, k);
      }
    }
    hide OnChip;
    assert forall k :: k in cores ==> cores[k] == PhysicalCores(u, removed)[k];
  }

  /** The descriptor metal builds on top of UMD's. */
  class SocDescriptor {
    const umd: Umd
    var physicalCores: map<CoreCoord, CoreDescriptor>
    var physicalWorkers: seq<CoreCoord>
    var physicalHarvestedWorkers: seq<CoreCoord>
    var logToPhysicalX: map<nat, nat>
    var logToPhysicalY: map<nat, nat>
    var physicalToVirtualX: map<nat, nat>
    var physicalToVirtualY: map<nat, nat>

    constructor (umd: Umd)
      ensures this.umd == umd && Blank()
    {
      this.umd := umd;
      physicalCores, physicalWorkers, physicalHarvestedWorkers := map[], [], [];
      logToPhysicalX, logToPhysicalY, physicalToVirtualX, physicalToVirtualY := map[], map[], map[], map[];
    }

    ghost predicate Blank()
      reads this
    {
      && physicalCores == map[] && physicalWorkers == [] && physicalHarvestedWorkers == []
      && logToPhysicalX == map[] && logToPhysicalY == map[] && physicalToVirtualX == map[]
      && physicalToVirtualY == map[]
    }

    /** The state once the maps for `mask` are built. */
    ghost predicate RemappedBy(mask: nat)
      reads this
    {
      && logToPhysicalX == umd.logToRoutingX
      && physicalToVirtualX == Identity(Cols(umd))
      && if Remaps(umd, mask) then RowsRemapped(MaskRows(mask, 0)) && CoresRemapped(MaskRows(mask, 0)) else
           && logToPhysicalY == umd.logToRoutingY
           && physicalToVirtualY == Identity(Rows(umd))
           && physicalCores == umd.cores && physicalWorkers == umd.workers
           && physicalHarvestedWorkers == umd.harvestedWorkers
    }

    ghost predicate RowsRemapped(removed: set<nat>)
      reads this
    {
      && |LogicalRows(umd, removed)| == umd.gridY
      && Numbers(logToPhysicalY, LogicalRows(umd, removed))
      && Pairs(physicalToVirtualY, PhysicalRows(umd, removed), VirtualRows(umd))
    }

    ghost predicate CoresRemapped(removed: set<nat>)
      reads this
    {
      && HoldsCores(umd, removed, physicalCores)
      && ListsWorkers(umd, removed, physicalWorkers, false)
      && ListsWorkers(umd, removed, physicalHarvestedWorkers, true)
    }

    function GetPhysicalTensixCoreFromLogical(logical: CoreCoord): Result<CoreCoord>
      reads this
    {
      if !(logical.x < umd.gridX && logical.y < umd.gridY) then Fatal
      else if logical.x !in logToPhysicalX || logical.y !in logToPhysicalY then Fatal
      else Ok(CoreCoord(logToPhysicalX[logical.x], logToPhysicalY[logical.y]))
    }

    function ConvertToUmdCoordinates(physical: CoreCoord): Result<CoreCoord>
      reads this
    {
      if physical !in physicalCores then Fatal
      else if !IsTensix(physicalCores[physical]) then Ok(physical)
      else if physical.x !in physicalToVirtualX || physical.y !in physicalToVirtualY then Fatal
      else Ok(CoreCoord(physicalToVirtualX[physical.x], physicalToVirtualY[physical.y]))
    }

    method IsHarvestedCore(core: CoreCoord) returns (harvested: bool)
      ensures harvested <==> core in physicalHarvestedWorkers
    {
      for i := 0 to |physicalHarvestedWorkers|
        invariant core !in physicalHarvestedWorkers[..i]
      {
        if physicalHarvestedWorkers[i] == core {
          return true;
        }
      }
      return false;
    }

    /** The rows whose bit is set in the mask. */
    method RowsToRemove(mask: nat) returns (rows: set<nat>)
      ensures rows == MaskRows(mask, 0)
    {
      rows := {};
      var row: nat := 0;
      var tmp := mask;
      while tmp != 0
        invariant MaskRows(mask, 0) == rows + MaskRows(tmp, row)
      {
        if tmp % 2 == 1 {
          rows := rows + {row};
        }
        tmp := tmp / 2;
        row := row + 1;
      }
    }

    method Generate(mask: nat) returns (ok: bool)
      requires Blank() && WellFormed(umd)
      modifies this
      ensures ok <==> (Remaps(umd, mask) ==> |MaskRows(mask, 0)| == |HarvestedRows(umd)|)
      ensures if ok then RemappedBy(mask) else Blank()
      ensures ok && Remaps(umd, mask) ==>
                |physicalToVirtualY| == umd.gridY + |MaskRows(mask, 0)| && |physicalToVirtualX| == umd.gridX
    {
      hide Rows, Cols, HarvestedRows, WellFormed, IsGrid, Names, Pairs, PhysicalRows, VirtualRows, LogicalRows,
           RoutingRows, Ascending,
           Identity, Without, MaskRows, Numbers, NoDuplicates;
      if mask == 0 || umd.grayskull {
        KeepVirtual();
        return true;
      }
      var removed := RowsToRemove(mask);
      var harvested := HarvestedRows(umd);
      if |removed| != |harvested| {
        return false;
      }
      var rows := CollectRows();
      logToPhysicalX := umd.logToRoutingX;
      var virtualToPhysicalY := RemapRows(removed, rows);
      RemapCores(removed, virtualToPhysicalY);
      ClosingSizes(this, removed);
      // the source's closing check
      assert |physicalToVirtualY| == umd.gridY + |removed| && |physicalToVirtualX| == umd.gridX;
      ok := true;
    }

    method KeepVirtual()
      requires Blank()
      modifies this
      ensures logToPhysicalX == umd.logToRoutingX && logToPhysicalY == umd.logToRoutingY
      ensures physicalToVirtualX == Identity(Cols(umd)) && physicalToVirtualY == Identity(Rows(umd))
      ensures physicalCores == umd.cores && physicalWorkers == umd.workers
      ensures physicalHarvestedWorkers == umd.harvestedWorkers
    {
      hide Rows, Cols, SeenRows, SeenCols, Identity;
      logToPhysicalX, logToPhysicalY := umd.logToRoutingX, umd.logToRoutingY;
      physicalCores, physicalWorkers, physicalHarvestedWorkers := umd.cores, umd.workers, umd.harvestedWorkers;
      var todo := umd.cores.Keys;
      SeenBounds(umd);
      IdentityEmpty();
      while todo != {}
        invariant todo <= umd.cores.Keys
        invariant physicalToVirtualX == Identity(SeenCols(umd, todo))
        invariant physicalToVirtualY == Identity(SeenRows(umd, todo))
        modifies this`physicalToVirtualX, this`physicalToVirtualY
      {
        var c :| c in todo;
        SeenNext(umd, todo, c);
        IdentityInsert(SeenCols(umd, todo), c.x);
        IdentityInsert(SeenRows(umd, todo), c.y);
        todo := todo - {c};
        if IsTensix(umd.cores[c]) {
          physicalToVirtualX := Insert(physicalToVirtualX, c.x, c.x);
          physicalToVirtualY := Insert(physicalToVirtualY, c.y, c.y);
        }
      }
    }

    /** The worker rows; and columns are not harvested, so they keep their coordinate. */
    method CollectRows() returns (rows: set<nat>)
      requires physicalToVirtualX == map[]
      modifies this`physicalToVirtualX
      ensures rows == Rows(umd) && physicalToVirtualX == Identity(Cols(umd))
    {
      hide Rows, Cols, SeenRows, SeenCols, Identity;
      rows := {};
      var todo := umd.cores.Keys;
      SeenBounds(umd);
      IdentityEmpty();
      while todo != {}
        invariant todo <= umd.cores.Keys
        invariant physicalToVirtualX == Identity(SeenCols(umd, todo))
        invariant rows == SeenRows(umd, todo)
      {
        var c :| c in todo;
        SeenNext(umd, todo, c);
        IdentityInsert(SeenCols(umd, todo), c.x);
        IdentityInsert(SeenRows(umd, todo), c.y);
        todo := todo - {c};
        if IsTensix(umd.cores[c]) {
          rows := rows + {c.y};
          physicalToVirtualX := Insert(physicalToVirtualX, c.x, c.x);
        }
      }
    }

    method RemapRows(removed: set<nat>, rows: set<nat>) returns (virtualToPhysicalY: map<nat, nat>)
      requires WellFormed(umd) && rows == Rows(umd) && |removed| == |HarvestedRows(umd)|
      requires logToPhysicalY == map[] && physicalToVirtualY == map[]
      modifies this`logToPhysicalY, this`physicalToVirtualY
      ensures RowsRemapped(removed)
      ensures Pairs(virtualToPhysicalY, VirtualRows(umd), PhysicalRows(umd, removed))
      ensures forall r :: r in virtualToPhysicalY <==> r in Rows(umd)
    {
      hide Rows, Cols, HarvestedRows, WellFormed, IsGrid, Names, Pairs, PhysicalRows, VirtualRows, LogicalRows,
           RoutingRows, Ascending,
           Identity, Without, MaskRows, Numbers, NoDuplicates;
      RowsInOrder(umd, removed);
      ghost var ps, vs := PhysicalRows(umd, removed), VirtualRows(umd);
      var sorted := Ascending(rows);
      var it: nat := 0;
      virtualToPhysicalY := map[];
      NothingPaired(sorted, removed, ps, vs);
      for l := 0 to umd.gridY
        invariant it <= |sorted| && |Without(sorted[..it], removed)| == l
        invariant Numbers(logToPhysicalY, ps[..l])
        invariant Pairs(physicalToVirtualY, ps[..l], vs[..l])
        invariant Pairs(virtualToPhysicalY, vs[..l], ps[..l])
      {
        RowsAreLeft(umd, removed, it, l);
        it := SkipRemoved(sorted, removed, it);
        var physicalY := sorted[it];
        NextLogicalRow(umd, removed, it, l);
        it := it + 1;
        NumbersNext(logToPhysicalY, ps, l);
        logToPhysicalY := Insert(logToPhysicalY, l, physicalY);
        NextVirtualRow(umd, l);
        var virtualY := umd.logToRoutingY[l];
        PairsNext(physicalToVirtualY, ps, vs, l);
        PairsNext(virtualToPhysicalY, vs, ps, l);
        physicalToVirtualY := Insert(physicalToVirtualY, physicalY, virtualY);
        virtualToPhysicalY := Insert(virtualToPhysicalY, virtualY, physicalY);
      }
      var harvestedRows := Ascending(HarvestedRows(umd));
      var removedRows := Ascending(removed);
      for i := 0 to |harvestedRows|
        invariant Numbers(logToPhysicalY, ps[..umd.gridY])
        invariant Pairs(physicalToVirtualY, ps[..umd.gridY + i], vs[..umd.gridY + i])
        invariant Pairs(virtualToPhysicalY, vs[..umd.gridY + i], ps[..umd.gridY + i])
      {
        NextHarvestedRow(umd, removed, i);
        PairsNext(physicalToVirtualY, ps, vs, umd.gridY + i);
        PairsNext(virtualToPhysicalY, vs, ps, umd.gridY + i);
        virtualToPhysicalY := Insert(virtualToPhysicalY, harvestedRows[i], removedRows[i]);
        physicalToVirtualY := Insert(physicalToVirtualY, removedRows[i], harvestedRows[i]);
      }
      assert ps[..umd.gridY + |harvestedRows|] == ps && vs[..umd.gridY + |harvestedRows|] == vs;
      VirtualRowsCover(umd);
      PairsKeys(virtualToPhysicalY, vs, ps);
    }

    /** Moves the iterator on to a row that was not removed. */
    method SkipRemoved(sorted: seq<nat>, removed: set<nat>, start: nat) returns (it: nat)
      requires start <= |sorted| && |Without(sorted[..start], removed)| < |Without(sorted, removed)|
      ensures start <= it < |sorted| && sorted[it] !in removed
      ensures Without(sorted[..it], removed) == Without(sorted[..start], removed)
    {
      it := start;
      WithoutGrows(sorted, removed, start);
      NotAtEnd(sorted, removed, it);
      while sorted[it] in removed
        invariant start <= it < |sorted|
        invariant Without(sorted[..it], removed) == Without(sorted[..start], removed)
        decreases |sorted| - it
      {
        WithoutNext(sorted, removed, it);
        it := it + 1;
        NotAtEnd(sorted, removed, it);
      }
    }

    method RemapCores(removed: set<nat>, virtualToPhysicalY: map<nat, nat>)
      requires WellFormed(umd) && |removed| == |HarvestedRows(umd)|
      requires Pairs(virtualToPhysicalY, VirtualRows(umd), PhysicalRows(umd, removed))
      requires Pairs(physicalToVirtualY, PhysicalRows(umd, removed), VirtualRows(umd))
      requires physicalCores == map[] && physicalWorkers == [] && physicalHarvestedWorkers == []
      modifies this`physicalCores, this`physicalWorkers, this`physicalHarvestedWorkers
      ensures CoresRemapped(removed)
    {
      hide Rows, Cols, IsGrid, Pairs, PhysicalRows, VirtualRows, Renames, Moved, HoldsCores, ListsWorkers;
      RowMapsRename(umd, removed, virtualToPhysicalY, physicalToVirtualY);
      var todo := umd.cores.Keys;
      NothingMoved(umd, removed, virtualToPhysicalY, physicalToVirtualY);
      while todo != {}
        invariant todo <= umd.cores.Keys
        invariant Moved(umd, removed, physicalToVirtualY, todo, physicalCores, physicalWorkers,
                        physicalHarvestedWorkers)
      {
        var c :| c in todo;
        var physical, descriptor := c, umd.cores[c];
        if IsTensix(umd.cores[c]) {
          MoveWorker(umd, removed, virtualToPhysicalY, physicalToVirtualY, todo, physicalCores, physicalWorkers,
            physicalHarvestedWorkers, c);
          physical := CoreCoord(c.x, virtualToPhysicalY[c.y]);
          descriptor := descriptor.(coord := physical);
          if physical.y in removed {
            descriptor := descriptor.(kind := Harvested);
            physicalHarvestedWorkers := physicalHarvestedWorkers + [physical];
          } else {
            descriptor := descriptor.(kind := Worker);
            physicalWorkers := physicalWorkers + [physical];
          }
        } else {
          MoveOther(umd, removed, virtualToPhysicalY, physicalToVirtualY, todo, physicalCores, physicalWorkers,
            physicalHarvestedWorkers, c);
        }
        physicalCores := Insert(physicalCores, physical, descriptor);
        todo := todo - {c};
      }
      AllMoved(umd, removed, physicalToVirtualY, physicalCores, physicalWorkers, physicalHarvestedWorkers);
    }
  }

  lemma NotAtEnd(sorted: seq<nat>, removed: set<nat>, it: nat)
    requires it <= |sorted| && |Without(sorted[..it], removed)| < |Without(sorted, removed)|
    ensures it < |sorted|
  {
    assert sorted[..|sorted|] == sorted;
  }

  /** Lengths and distinctness of the two row sequences. */
  lemma RowsInOrder(u: Umd, removed: set<nat>)
    requires WellFormed(u) && |removed| == |HarvestedRows(u)|
    ensures |PhysicalRows(u, removed)| == |VirtualRows(u)| == u.gridY + |removed|
    ensures NoDuplicates(PhysicalRows(u, removed)) && NoDuplicates(VirtualRows(u))
    ensures |LogicalRows(u, removed)| == u.gridY && PhysicalRows(u, removed)[..u.gridY] == LogicalRows(u, removed)
  {
    EnoughRows(u, removed);
    PhysicalRowsCover(u, removed);
    VirtualRowsCover(u);
  }

  lemma NothingPaired(sorted: seq<nat>, removed: set<nat>, ps: seq<nat>, vs: seq<nat>)
    ensures Without(sorted[..0], removed) == [] && Numbers(map[], ps[..0])
    ensures Pairs(map[], ps[..0], vs[..0]) && Pairs(map[], vs[..0], ps[..0])
  {
    assert ps[..0] == [] && vs[..0] == [];
    var none: map<nat, nat> := map[];
    assert Numbers(none, []);
  }

  lemma RowsAreLeft(u: Umd, removed: set<nat>, it: nat, l: nat)
    requires WellFormed(u) && |removed| == |HarvestedRows(u)| && l < u.gridY
    requires it <= |Ascending(Rows(u))| && |Without(Ascending(Rows(u))[..it], removed)| == l
    ensures |Without(Ascending(Rows(u))[..it], removed)| < |Without(Ascending(Rows(u)), removed)|
  {
    hide Rows, WellFormed, Without, Ascending;
    EnoughRows(u, removed);
    WithoutIsAscending(Rows(u), removed);
  }

  lemma NextLogicalRow(u: Umd, removed: set<nat>, it: nat, l: nat)
    requires WellFormed(u) && |removed| == |HarvestedRows(u)| && l < u.gridY
    requires it < |Ascending(Rows(u))| && |Without(Ascending(Rows(u))[..it], removed)| == l
    requires Ascending(Rows(u))[it] !in removed
    ensures l < |PhysicalRows(u, removed)| && Ascending(Rows(u))[it] == PhysicalRows(u, removed)[l]
    ensures |Without(Ascending(Rows(u))[..it + 1], removed)| == l + 1
  {
    hide Rows, HarvestedRows, WellFormed, Without, Ascending;
    EnoughRows(u, removed);
    WithoutIsAscending(Rows(u), removed);
    NextKept(Ascending(Rows(u)), removed, it);
    assert LogicalRows(u, removed)[l] == Ascending(Rows(u) - removed)[l];
  }

  lemma NextKept(sorted: seq<nat>, removed: set<nat>, it: nat)
    requires it < |sorted| && sorted[it] !in removed
    ensures var l := |Without(sorted[..it], removed)|;
            && |Without(sorted[..it + 1], removed)| == l + 1 <= |Without(sorted, removed)|
            && sorted[it] == Without(sorted, removed)[l]
  {
    hide Without;
    WithoutNext(sorted, removed, it);
    WithoutGrows(sorted, removed, it + 1);
  }

  lemma NextVirtualRow(u: Umd, l: nat)
    requires WellFormed(u) && l < u.gridY
    ensures l in u.logToRoutingY && l < |VirtualRows(u)| && VirtualRows(u)[l] == u.logToRoutingY[l]
  {
    hide Rows, IsGrid;
  }

  lemma NextHarvestedRow(u: Umd, removed: set<nat>, i: nat)
    requires WellFormed(u) && |removed| == |HarvestedRows(u)| && i < |removed|
    ensures |PhysicalRows(u, removed)| == |VirtualRows(u)| == u.gridY + |removed|
    ensures PhysicalRows(u, removed)[u.gridY + i] == Ascending(removed)[i]
    ensures VirtualRows(u)[u.gridY + i] == Ascending(HarvestedRows(u))[i]
  {
    hide Rows, WellFormed, Ascending;
    EnoughRows(u, removed);
  }

  /** The sizes that the closing check compares. */
  lemma ClosingSizes(d: SocDescriptor, removed: set<nat>)
    requires WellFormed(d.umd) && |removed| == |HarvestedRows(d.umd)|
    requires d.RowsRemapped(removed) && d.physicalToVirtualX == Identity(Cols(d.umd))
    ensures |d.physicalToVirtualY| == d.umd.gridY + |removed|
    ensures |d.physicalToVirtualX| == d.umd.gridX
  {
    hide Rows, Cols, HarvestedRows, WellFormed, PhysicalRows, VirtualRows, LogicalRows, Numbers;
    PhysicalRowsCover(d.umd, removed);
    PairsSize(d.physicalToVirtualY, PhysicalRows(d.umd, removed), VirtualRows(d.umd));
    ColsNamed(d.umd);
    assert d.physicalToVirtualX.Keys == Cols(d.umd);
  }

  lemma ColsNamed(u: Umd)
    requires WellFormed(u)
    ensures |Cols(u)| == u.gridX
  {
    hide Rows, Cols, HarvestedRows, IsGrid;
    NamesSize(u.logToRoutingX, u.gridX, Cols(u));
  }

  // ----- what the maps promise

  ghost predicate IsBijection(m: map<nat, nat>, s: set<nat>)
  {
    && m.Keys == s && m.Values == s
    && forall j, k :: j in m && k in m && m[j] == m[k] ==> j == k
  }

  lemma PairsBijection(m: map<nat, nat>, keys: seq<nat>, values: seq<nat>, s: set<nat>)
    requires Pairs(m, keys, values) && NoDuplicates(values)
    requires forall k :: k in values <==> k in s
    ensures IsBijection(m, s) <==> (forall k :: k in keys <==> k in s)
  {
    forall j, k | j in m && k in m && m[j] == m[k]
      ensures j == k
    {
      var a :| 0 <= a < |keys| && keys[a] == j;
      var b :| 0 <= b < |keys| && keys[b] == k;
      assert values[a] == values[b];
    }
    assert m.Values == s by {
      forall v | v in s
        ensures v in m.Values
      {
        var i :| 0 <= i < |values| && values[i] == v;
        assert m[keys[i]] == v;
      }
      forall k | k in m
        ensures m[k] in s
      {
        var i :| 0 <= i < |keys| && keys[i] == k;
        assert values[i] in values;
      }
    }
    assert m.Keys == s <==> (forall k :: k in keys <==> k in s);
  }

  /** The physical to virtual row map is a bijection on the worker rows exactly when every removed row is one. */
  lemma RowMapIsBijectionIff(d: SocDescriptor, mask: nat)
    requires WellFormed(d.umd) && Remaps(d.umd, mask) && d.RemappedBy(mask)
    requires |MaskRows(mask, 0)| == |HarvestedRows(d.umd)|
    ensures IsBijection(d.physicalToVirtualY, Rows(d.umd)) <==> MaskRows(mask, 0) <= Rows(d.umd)
  {
    hide Rows, Cols, HarvestedRows, WellFormed, PhysicalRows, VirtualRows, LogicalRows, Numbers, Pairs, MaskRows,
         NoDuplicates;
    var removed := MaskRows(mask, 0);
    PhysicalRowsCover(d.umd, removed);
    VirtualRowsCover(d.umd);
    PairsBijection(d.physicalToVirtualY, PhysicalRows(d.umd, removed), VirtualRows(d.umd), Rows(d.umd));
  }

  /** A logical core, as UMD's own tables route it. */
  function Routed(u: Umd, logical: CoreCoord): Result<CoreCoord>
  {
    if logical.x in u.logToRoutingX && logical.y in u.logToRoutingY then
      Ok(CoreCoord(u.logToRoutingX[logical.x], u.logToRoutingY[logical.y]))
    else Fatal
  }

  /**
   Every logical core of the grid is a worker core in a row that was not removed, and converting it to UMD's
   coordinates gives UMD's own routing entry; outside the grid the lookup fails.
   */
  lemma LogicalCoresAreWorkers(d: SocDescriptor, mask: nat, logical: CoreCoord)
    requires WellFormed(d.umd) && Remaps(d.umd, mask) && d.RemappedBy(mask)
    requires |MaskRows(mask, 0)| == |HarvestedRows(d.umd)|
    ensures var r := d.GetPhysicalTensixCoreFromLogical(logical);
            && (r.Ok? <==> logical.x < d.umd.gridX && logical.y < d.umd.gridY)
            && (r.Ok? ==>
                 && r.value in d.physicalWorkers && r.value !in d.physicalHarvestedWorkers
                 && r.value.y !in MaskRows(mask, 0)
                 && d.physicalCores[r.value] == CoreDescriptor(r.value, Worker)
                 && d.ConvertToUmdCoordinates(r.value) == Routed(d.umd, logical))
  {
    hide Rows, Cols, HarvestedRows, WellFormed, LogicalRows, PhysicalRows, VirtualRows, Numbers, Pairs, MaskRows, Names,
         OnChip;
    if logical.x < d.umd.gridX && logical.y < d.umd.gridY {
      LogicalRow(d, MaskRows(mask, 0), logical.y);
      LogicalCol(d.umd, logical.x);
      var x, y := d.logToPhysicalX[logical.x], d.logToPhysicalY[logical.y];
      Crossing(d.umd, x, y);
      CrossingIsOnChip(d.umd, MaskRows(mask, 0), CoreCoord(x, y));
    }
  }

  lemma CrossingIsOnChip(u: Umd, removed: set<nat>, k: CoreCoord)
    requires k.x in Cols(u) && k.y in PhysicalRows(u, removed)
    ensures OnChip(u, removed, k)
  {
  }

  /** Row `r` is what logical row `l` is routed to, and the rows routed to below it are all that is left below it. */
  ghost predicate IsNextRow(d: SocDescriptor, removed: set<nat>, l: nat)
    reads d
  {
    && l in d.logToPhysicalY
    && (forall m: nat :: m < l ==> m in d.logToPhysicalY && d.logToPhysicalY[m] < d.logToPhysicalY[l])
    && (forall r :: r in Rows(d.umd) && r !in removed && r < d.logToPhysicalY[l] ==>
          exists m: nat :: m < l && m in d.logToPhysicalY && d.logToPhysicalY[m] == r)
  }

  /**
   The logical rows are routed upwards to the lowest worker rows that were not removed, without a gap; the removed rows
   are renamed upwards to the rows of UMD's harvested cores.
   */
  lemma RowsKeepTheirOrder(d: SocDescriptor, mask: nat)
    requires WellFormed(d.umd) && Remaps(d.umd, mask) && d.RemappedBy(mask)
    requires |MaskRows(mask, 0)| == |HarvestedRows(d.umd)|
    ensures forall l: nat :: l < d.umd.gridY ==> IsNextRow(d, MaskRows(mask, 0), l)
    ensures forall r :: r in MaskRows(mask, 0) ==>
              r in d.physicalToVirtualY && exists h :: h in d.umd.harvestedWorkers && h.y == d.physicalToVirtualY[r]
    ensures forall r, s :: r in MaskRows(mask, 0) && s in MaskRows(mask, 0) && r < s ==>
              d.physicalToVirtualY[r] < d.physicalToVirtualY[s]
  {
    hide Rows, Cols, HarvestedRows, WellFormed, MaskRows, Ascending, IsNextRow, PhysicalRows, VirtualRows, LogicalRows,
         HoldsCores, ListsWorkers, Numbers, Pairs;
    var removed := MaskRows(mask, 0);
    forall l: nat | l < d.umd.gridY
      ensures IsNextRow(d, removed, l)
    {
      LogicalRowIsNext(d, removed, l);
    }
    forall r | r in removed
      ensures r in d.physicalToVirtualY && exists h :: h in d.umd.harvestedWorkers && h.y == d.physicalToVirtualY[r]
    {
      var i := RemovedRowAt(d, removed, r);
      RowOfHarvested(d.umd, d.physicalToVirtualY[r]);
    }
    forall r, s | r in removed && s in removed && r < s
      ensures d.physicalToVirtualY[r] < d.physicalToVirtualY[s]
    {
      var i := RemovedRowAt(d, removed, r);
      var j := RemovedRowAt(d, removed, s);
      AscendingPlaces(removed, i, j);
      AscendingPlaces(HarvestedRows(d.umd), i, j);
    }
  }

  lemma AscendingPlaces(s: set<nat>, i: nat, j: nat)
    requires i < |s| && j < |s|
    ensures i < j <==> Ascending(s)[i] < Ascending(s)[j]
  {
    assert |Ascending(s)| == |s|;
  }

  lemma RowOfHarvested(u: Umd, r: nat)
    requires r in HarvestedRows(u)
    ensures exists h :: h in u.harvestedWorkers && h.y == r
  {
  }

  /** A removed row is renamed to the harvested row at the same place. */
  lemma RemovedRowAt(d: SocDescriptor, removed: set<nat>, r: nat) returns (i: nat)
    requires WellFormed(d.umd) && |removed| == |HarvestedRows(d.umd)| && d.RowsRemapped(removed) && r in removed
    ensures i < |removed| && Ascending(removed)[i] == r && r in d.physicalToVirtualY
    ensures d.physicalToVirtualY[r] == Ascending(HarvestedRows(d.umd))[i]
            && d.physicalToVirtualY[r] in HarvestedRows(d.umd)
  {
    hide Rows, HarvestedRows, WellFormed, PhysicalRows, VirtualRows, LogicalRows, Numbers;
    assert r in Ascending(removed);
    i :| 0 <= i < |removed| && Ascending(removed)[i] == r;
    NextHarvestedRow(d.umd, removed, i);
    assert Ascending(HarvestedRows(d.umd))[i] in Ascending(HarvestedRows(d.umd));
  }

  lemma LogicalRowIsNext(d: SocDescriptor, removed: set<nat>, l: nat)
    requires WellFormed(d.umd) && |removed| == |HarvestedRows(d.umd)| && d.RowsRemapped(removed) && l < d.umd.gridY
    ensures IsNextRow(d, removed, l)
  {
    hide Rows, HarvestedRows, WellFormed, Ascending, Pairs, PhysicalRows, VirtualRows, LogicalRows, Numbers;
    var left := Ascending(Rows(d.umd) - removed);
    forall m: nat | m <= l
      ensures m in d.logToPhysicalY && m < |left| && d.logToPhysicalY[m] == left[m]
    {
      RoutedToLeft(d, removed, m);
    }
    forall r | r in Rows(d.umd) && r !in removed && r < d.logToPhysicalY[l]
      ensures exists m: nat :: m < l && m in d.logToPhysicalY && d.logToPhysicalY[m] == r
    {
      assert r in left;
      var m: nat :| m < |left| && left[m] == r;
      assert m < l;
    }
  }

  lemma RoutedToLeft(d: SocDescriptor, removed: set<nat>, l: nat)
    requires WellFormed(d.umd) && |removed| == |HarvestedRows(d.umd)| && d.RowsRemapped(removed) && l < d.umd.gridY
    ensures l in d.logToPhysicalY && l < |Ascending(Rows(d.umd) - removed)|
    ensures d.logToPhysicalY[l] == Ascending(Rows(d.umd) - removed)[l]
  {
    hide Rows, HarvestedRows, WellFormed, Ascending, Pairs;
    EnoughRows(d.umd, removed);
  }

  /**
   Where conversion leads on a remapped chip, for every coordinate. Crossings of worker columns and physical rows have
   their row translated; UMD's other cores stay where they are; anything else fails.
   */
  lemma ConversionOf(d: SocDescriptor, mask: nat, c: CoreCoord)
    requires WellFormed(d.umd) && Remaps(d.umd, mask) && d.RemappedBy(mask)
    requires |MaskRows(mask, 0)| == |HarvestedRows(d.umd)|
    ensures var worker := c.x in Cols(d.umd) && (c.y in MaskRows(mask, 0) || c.y in d.logToPhysicalY.Values);
            var other := c in d.umd.cores && d.umd.cores[c].kind == NotTensix;
            var v := d.ConvertToUmdCoordinates(c);
            && (worker ==> c.y in d.physicalToVirtualY)
            && (worker && !other ==> v == Ok(CoreCoord(c.x, d.physicalToVirtualY[c.y])))
            && (other && !worker ==> v == Ok(c))
            && (worker && other ==> v == Ok(c) || v == Ok(CoreCoord(c.x, d.physicalToVirtualY[c.y])))
            && (!worker && !other ==> c !in d.physicalCores && v == Fatal)
  {
    hide Rows, Cols, HarvestedRows, WellFormed, LogicalRows, PhysicalRows, VirtualRows, Numbers, Pairs, MaskRows,
         ListsWorkers;
    var removed := MaskRows(mask, 0);
    PairsKeys(d.physicalToVirtualY, PhysicalRows(d.umd, removed), VirtualRows(d.umd));
    InPhysicalRows(d, removed, c.y);
    IdentityAt(Cols(d.umd), c.x);
  }

  lemma IdentityAt(s: set<nat>, k: nat)
    ensures k in Identity(s) <==> k in s
    ensures k in s ==> Identity(s)[k] == k
  {
  }

  lemma InPhysicalRows(d: SocDescriptor, removed: set<nat>, r: nat)
    requires WellFormed(d.umd) && |removed| == |HarvestedRows(d.umd)| && d.RowsRemapped(removed)
    ensures r in PhysicalRows(d.umd, removed) <==> r in removed || r in d.logToPhysicalY.Values
  {
    hide Rows, HarvestedRows, WellFormed, LogicalRows, Ascending, VirtualRows, Pairs;
    var front := LogicalRows(d.umd, removed);
    if r in front {
      var l: nat :| l < |front| && front[l] == r;
      assert d.logToPhysicalY[l] == r;
    }
    if r in d.logToPhysicalY.Values {
      var l :| l in d.logToPhysicalY && d.logToPhysicalY[l] == r;
      assert front[l] == r;
    }
  }

  /**
   Without a remap physical coordinates are UMD's own: conversion changes nothing, and logical cores are
   routed as UMD routes them.
   */
  lemma UnremappedIsIdentity(d: SocDescriptor, mask: nat, logical: CoreCoord, c: CoreCoord)
    requires WellFormed(d.umd) && !Remaps(d.umd, mask) && d.RemappedBy(mask)
    ensures var r := d.GetPhysicalTensixCoreFromLogical(logical);
            && (r.Ok? <==> logical.x < d.umd.gridX && logical.y < d.umd.gridY)
            && (r.Ok? ==> r == Routed(d.umd, logical) && d.ConvertToUmdCoordinates(r.value) == r)
    ensures d.ConvertToUmdCoordinates(c) == if c in d.umd.cores then Ok(c) else Fatal
  {
    hide Rows, Cols, HarvestedRows, WellFormed, Names;
    if logical.x < d.umd.gridX && logical.y < d.umd.gridY {
      LogicalCol(d.umd, logical.x);
      LogicalRouting(d.umd, logical.y);
      Crossing(d.umd, d.umd.logToRoutingX[logical.x], d.umd.logToRoutingY[logical.y]);
    }
    if c in d.umd.cores && IsTensix(d.umd.cores[c]) {
      RowOfTensix(d.umd, c);
    }
  }

  lemma LogicalRouting(u: Umd, l: nat)
    requires WellFormed(u) && l < u.gridY
    ensures l in u.logToRoutingY && u.logToRoutingY[l] in Rows(u)
  {
    hide Rows, Cols, HarvestedRows, IsGrid;
    assert l in u.logToRoutingY && u.logToRoutingY[l] in u.logToRoutingY.Values;
  }

  lemma LogicalRow(d: SocDescriptor, removed: set<nat>, l: nat)
    requires WellFormed(d.umd) && |removed| == |HarvestedRows(d.umd)|
    requires d.RowsRemapped(removed) && l < d.umd.gridY
    ensures l in d.logToPhysicalY && l in d.umd.logToRoutingY
    ensures var y := d.logToPhysicalY[l];
            y in Rows(d.umd) && y !in removed && y in PhysicalRows(d.umd, removed)
            && y in d.physicalToVirtualY && d.physicalToVirtualY[y] == d.umd.logToRoutingY[l]
  {
    hide Rows, HarvestedRows, WellFormed, Ascending;
    EnoughRows(d.umd, removed);
    NextVirtualRow(d.umd, l);
    var left := Ascending(Rows(d.umd) - removed);
    assert d.logToPhysicalY[l] == left[l] && left[l] in left;
    assert PhysicalRows(d.umd, removed)[l] == left[l];
  }

  lemma LogicalCol(u: Umd, l: nat)
    requires WellFormed(u) && l < u.gridX
    ensures l in u.logToRoutingX && u.logToRoutingX[l] in Cols(u)
  {
    hide Rows, Cols, HarvestedRows, IsGrid;
  }

  lemma Crossing(u: Umd, x: nat, y: nat)
    requires WellFormed(u) && x in Cols(u) && y in Rows(u)
    ensures CoreCoord(x, y) in u.cores && IsTensix(u.cores[CoreCoord(x, y)])
  {
    hide Rows, Cols, HarvestedRows;
  }

  /**
   Converting physical worker cores to UMD's coordinates gives worker cores of the same column, different ones for
   different cores, and harvested ones for harvested ones; no condition on the mask but the number of its rows.
   */
  lemma ConversionIsInjective(d: SocDescriptor, mask: nat, c: CoreCoord, e: CoreCoord)
    requires WellFormed(d.umd) && Remaps(d.umd, mask) && d.RemappedBy(mask)
    requires |MaskRows(mask, 0)| == |HarvestedRows(d.umd)|
    requires c in d.physicalCores && IsTensix(d.physicalCores[c]) && e in d.physicalCores
             && IsTensix(d.physicalCores[e])
    ensures var v := d.ConvertToUmdCoordinates(c);
            && v.Ok? && v.value in d.umd.cores && IsTensix(d.umd.cores[v.value]) && v.value.x == c.x
            && (d.physicalCores[c].kind == Harvested <==> v.value.y in HarvestedRows(d.umd))
            && (v == d.ConvertToUmdCoordinates(e) ==> c == e)
  {
    hide Rows, Cols, HarvestedRows, WellFormed, LogicalRows, PhysicalRows, VirtualRows, Numbers, Pairs, MaskRows,
         PhysicalCores, HoldsCores, ListsWorkers, IsTensix, Identity;
    var m := d.physicalToVirtualY;
    Converted(d, mask, c);
    Converted(d, mask, e);
    RowsPaired(d.umd, MaskRows(mask, 0), m, c.y, e.y);
    Crossing(d.umd, c.x, m[c.y]);
    HarvestedPair(d.umd, MaskRows(mask, 0), m, c.y);
  }

  /** When every removed row is a worker row, every worker core of UMD is what some physical worker core converts to. */
  lemma ConversionReachesAll(d: SocDescriptor, mask: nat, v: CoreCoord) returns (c: CoreCoord)
    requires WellFormed(d.umd) && Remaps(d.umd, mask) && d.RemappedBy(mask)
    requires |MaskRows(mask, 0)| == |HarvestedRows(d.umd)| && MaskRows(mask, 0) <= Rows(d.umd)
    requires v in d.umd.cores && IsTensix(d.umd.cores[v])
    ensures c in d.physicalCores && IsTensix(d.physicalCores[c]) && d.ConvertToUmdCoordinates(c) == Ok(v)
  {
    hide Rows, Cols, HarvestedRows, WellFormed, LogicalRows, PhysicalRows, VirtualRows, Numbers, Pairs, MaskRows,
         HoldsCores, ListsWorkers, OnChip, Identity, IsBijection;
    RowOfTensix(d.umd, v);
    RowMapIsBijectionIff(d, mask);
    BijectionSides(d.physicalToVirtualY, Rows(d.umd));
    var r := RowBefore(d.physicalToVirtualY, Rows(d.umd), v.y);
    c := CoreCoord(v.x, r);
    Crossing(d.umd, v.x, r);
    CoresWhenContained(d.umd, MaskRows(mask, 0), d.physicalCores);
    Converted(d, mask, c);
  }

  lemma RowBefore(m: map<nat, nat>, s: set<nat>, v: nat) returns (r: nat)
    requires m.Keys == s && m.Values == s && v in s
    ensures r in s && r in m && m[r] == v
  {
    r :| r in m && m[r] == v;
    assert r in m.Keys;
  }

  lemma BijectionSides(m: map<nat, nat>, s: set<nat>)
    requires IsBijection(m, s)
    ensures m.Keys == s && m.Values == s
  {
  }

  lemma Converted(d: SocDescriptor, mask: nat, c: CoreCoord)
    requires WellFormed(d.umd) && Remaps(d.umd, mask) && d.RemappedBy(mask)
    requires |MaskRows(mask, 0)| == |HarvestedRows(d.umd)|
    requires c in d.physicalCores && IsTensix(d.physicalCores[c])
    ensures c.x in Cols(d.umd) && c.y in d.physicalToVirtualY
    ensures d.ConvertToUmdCoordinates(c) == Ok(CoreCoord(c.x, d.physicalToVirtualY[c.y]))
    ensures d.physicalCores[c].kind == Harvested <==> c.y in MaskRows(mask, 0)
  {
    hide Rows, Cols, HarvestedRows, WellFormed, LogicalRows, PhysicalRows, VirtualRows, Numbers, Pairs, MaskRows,
         ListsWorkers;
    PairsKeys(d.physicalToVirtualY, PhysicalRows(d.umd, MaskRows(mask, 0)), VirtualRows(d.umd));
  }

  /** The row map sends physical rows to worker rows, different ones to different ones. */
  lemma RowsPaired(u: Umd, removed: set<nat>, m: map<nat, nat>, r: nat, s: nat)
    requires WellFormed(u) && |removed| == |HarvestedRows(u)|
    requires Pairs(m, PhysicalRows(u, removed), VirtualRows(u)) && r in m && s in m
    ensures m[r] in Rows(u) && (m[r] == m[s] ==> r == s)
  {
    hide Rows, HarvestedRows, WellFormed, Pairs, PhysicalRows, VirtualRows;
    VirtualRowsCover(u);
    var i := PairAt(m, PhysicalRows(u, removed), VirtualRows(u), r);
    var j := PairAt(m, PhysicalRows(u, removed), VirtualRows(u), s);
    assert VirtualRows(u)[i] in VirtualRows(u);
  }

  /** A removed physical row is paired with a harvested virtual one, any other with one that is not. */
  lemma HarvestedPair(u: Umd, removed: set<nat>, m: map<nat, nat>, r: nat)
    requires WellFormed(u) && |removed| == |HarvestedRows(u)|
    requires Pairs(m, PhysicalRows(u, removed), VirtualRows(u)) && r in m
    ensures r in removed <==> m[r] in HarvestedRows(u)
  {
    hide Rows, HarvestedRows, WellFormed, Ascending, Pairs;
    EnoughRows(u, removed);
    var ps, vs := PhysicalRows(u, removed), VirtualRows(u);
    assert Pairs(m, ps, vs);
    var i := PairAt(m, ps, vs, r);
    if i < u.gridY {
      var left := Ascending(Rows(u) - removed);
      assert ps[i] == left[i] && left[i] in left;
      RoutingRowsLeft(u, i);
    } else {
      assert ps[i] == Ascending(removed)[i - u.gridY] && ps[i] in Ascending(removed);
      assert vs[i] == Ascending(HarvestedRows(u))[i - u.gridY] && vs[i] in Ascending(HarvestedRows(u));
    }
  }

  lemma PairAt(m: map<nat, nat>, keys: seq<nat>, values: seq<nat>, k: nat) returns (i: nat)
    requires Pairs(m, keys, values) && k in m
    ensures i < |keys| == |values| && keys[i] == k && m[k] == values[i]
  {
    i :| 0 <= i < |keys| && keys[i] == k;
  }

  lemma RoutingRowsLeft(u: Umd, l: nat)
    requires WellFormed(u) && l < u.gridY
    ensures VirtualRows(u)[l] in Rows(u) && VirtualRows(u)[l] !in HarvestedRows(u)
  {
    hide Rows, HarvestedRows, IsGrid;
    assert u.logToRoutingY[l] in u.logToRoutingY.Values;
  }

  /** One worker, one harvested core, and a mask that names a third row: the remap succeeds, and is no bijection. */
  method RemoveRowOutside() returns (d: SocDescriptor, ok: bool)
    ensures ok && WellFormed(d.umd) && d.RemappedBy(4) && !IsBijection(d.physicalToVirtualY, Rows(d.umd))
  {
    hide Rows, Cols, HarvestedRows, WellFormed, MaskRows, IsBijection;
    var a, b := CoreCoord(0, 0), CoreCoord(0, 1);
    var u := Umd(false, map[a := CoreDescriptor(a, Worker), b := CoreDescriptor(b, Harvested)], [a], [b],
      map[0 := 0], map[0 := 0], 1, 1);
    TwoRows(u, a, b);
    d := new SocDescriptor(u);
    ok := d.Generate(4);
    assert ok && d.RemappedBy(4);
    assert 2 in MaskRows(4, 0) && 2 !in Rows(u);
    RowMapIsBijectionIff(d, 4);
  }

  lemma TwoRows(u: Umd, a: CoreCoord, b: CoreCoord)
    requires a == CoreCoord(0, 0) && b == CoreCoord(0, 1)
    requires u == Umd(false, map[a := CoreDescriptor(a, Worker), b := CoreDescriptor(b, Harvested)], [a], [b],
                      map[0 := 0], map[0 := 0], 1, 1)
    ensures WellFormed(u) && Rows(u) == {0, 1} && HarvestedRows(u) == {1} && |HarvestedRows(u)| == 1
    ensures MaskRows(4, 0) == {2} && |MaskRows(4, 0)| == 1
  {
    assert a in u.cores && b in u.cores && b in u.harvestedWorkers;
    assert Cols(u) == {0};
    assert Rows(u) == {0, 1} by {
      assert a.y in Rows(u) && b.y in Rows(u);
    }
    assert HarvestedRows(u) == {b.y};
    var m: map<nat, nat> := map[0 := 0];
    assert m[0] in m.Values && m.Values == {0};
    assert Rows(u) - HarvestedRows(u) == {0};
    assert MaskRows(4, 0) == {2} by {
      assert MaskRows(1, 2) == {2};
      assert MaskRows(2, 1) == {2};
    }
  }
}
