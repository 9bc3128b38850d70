/**
 im2col: an activation and a filter laid out as matrices whose product is their convolution.
 */
module Im2col {
  import opened Outcomes
  import opened Arith
  import opened Sums
  import opened Convolution

  /** `count` matrices in one buffer, with the distance between neighbours along a row and a column. */
  datatype View = View(count: nat, rows: nat, cols: nat, rowStep: nat, colStep: nat, data: seq<int>)
  {
    function At(i: nat, row: nat, col: nat): int
    {
      var place := Times(i, rows * cols) + Times(row, rowStep) + Times(col, colStep);
      if place < |data| then data[place] else 0
    }

    function Transposed(): View
    {
      View(count, cols, rows, colStep, rowStep, data)
    }
  }

  function Reshaped(data: seq<int>, count: nat, rows: nat, cols: nat): View
  {
    View(count, rows, cols, cols, 1, data)
  }

  /** The extents of the six nested loops, outermost first. */
  datatype Loops = Loops(n: nat, oh: nat, ow: nat, r: nat, s: nat, c: nat)

  ghost predicate Inside(l: Loops, d: Loops)
  {
    d.n < l.n && d.oh < l.oh && d.ow < l.ow && d.r < l.r && d.s < l.s && d.c < l.c
  }

  /** The place that iteration `d` fills. */
  function Place(l: Loops, d: Loops): nat
  {
    Index(Index(Index(Index(Index(d.n, l.oh, d.oh), l.ow, d.ow), l.r, d.r), l.s, d.s), l.c, d.c)
  }

  function Total(l: Loops): nat
  {
    Place(l, Loops(l.n, 0, 0, 0, 0, 0))
  }

  lemma IndexUnique(q: nat, r: nat, q': nat, r': nat, d: nat)
    requires r < d && r' < d && Index(q, d, r) == Index(q', d, r')
    ensures q == q' && r == r'
  {
    DivModUnique(Index(q, d, r), q, r, d);
    DivModUnique(Index(q, d, r), q', r', d);
  }

  lemma PlaceUnique(l: Loops, d: Loops, e: Loops)
    requires Inside(l, d) && Inside(l, e) && Place(l, d) == Place(l, e)
    ensures d == e
  {
    hide Index;
    var d1, e1 := Index(d.n, l.oh, d.oh), Index(e.n, l.oh, e.oh);
    var d2, e2 := Index(d1, l.ow, d.ow), Index(e1, l.ow, e.ow);
    var d3, e3 := Index(d2, l.r, d.r), Index(e2, l.r, e.r);
    var d4, e4 := Index(d3, l.s, d.s), Index(e3, l.s, e.s);
    IndexUnique(d4, d.c, e4, e.c, l.c);
    IndexUnique(d3, d.s, e3, e.s, l.s);
    IndexUnique(d2, d.r, e2, e.r, l.r);
    IndexUnique(d1, d.ow, e1, e.ow, l.ow);
    IndexUnique(d.n, d.oh, e.n, e.oh, l.oh);
  }

  lemma IndexBelow(q: nat, n: nat, d: nat, r: nat)
    requires q < n && r < d
    ensures Index(q, d, r) < Index(n, d, 0)
  {
    IndexInRange(q, r, n, d);
  }

  lemma PlaceBelowTotal(l: Loops, d: Loops)
    requires Inside(l, d)
    ensures Place(l, d) < Total(l)
  {
    hide Index;
    var d1 := Index(d.n, l.oh, d.oh);
    var d2 := Index(d1, l.ow, d.ow);
    var d3 := Index(d2, l.r, d.r);
    var d4 := Index(d3, l.s, d.s);
    var t1 := Index(l.n, l.oh, 0);
    var t2 := Index(t1, l.ow, 0);
    var t3 := Index(t2, l.r, 0);
    var t4 := Index(t3, l.s, 0);
    IndexBelow(d.n, l.n, l.oh, d.oh);
    IndexBelow(d1, t1, l.ow, d.ow);
    IndexBelow(d2, t2, l.r, d.r);
    IndexBelow(d3, t3, l.s, d.s);
    IndexBelow(d4, t4, l.c, d.c);
  }

  lemma Carry(q: nat, d: nat, r: nat)
    ensures Index(q, d, r + 1) == Index(q, d, r) + 1
    ensures Index(q, d, d) == Index(q + 1, d, 0)
  {
    MulDistribute(q, 1, d);
  }

  /** The running index when each loop goes on to its next iteration. */
  lemma Carries(l: Loops, n: nat, oh: nat, ow: nat, r: nat, s: nat, c: nat)
    ensures Place(l, Loops(n, oh, ow, r, s, c + 1)) == Place(l, Loops(n, oh, ow, r, s, c)) + 1
    ensures Place(l, Loops(n, oh, ow, r, s, l.c)) == Place(l, Loops(n, oh, ow, r, s + 1, 0))
    ensures Place(l, Loops(n, oh, ow, r, l.s, 0)) == Place(l, Loops(n, oh, ow, r + 1, 0, 0))
    ensures Place(l, Loops(n, oh, ow, l.r, 0, 0)) == Place(l, Loops(n, oh, ow + 1, 0, 0, 0))
    ensures Place(l, Loops(n, oh, l.ow, 0, 0, 0)) == Place(l, Loops(n, oh + 1, 0, 0, 0, 0))
    ensures Place(l, Loops(n, l.oh, 0, 0, 0, 0)) == Place(l, Loops(n + 1, 0, 0, 0, 0, 0))
  {
    hide Index;
    var q1 := Index(n, l.oh, oh);
    var q2 := Index(q1, l.ow, ow);
    var q3 := Index(q2, l.r, r);
    var q4 := Index(q3, l.s, s);
    Carry(q4, l.c, c);
    Carry(q3, l.s, s);
    Carry(q2, l.r, r);
    Carry(q1, l.ow, ow);
    Carry(n, l.oh, oh);
  }

  lemma FirstPlace(l: Loops)
    ensures Place(l, Loops(0, 0, 0, 0, 0, 0)) == 0
  {
  }

  // ----- the activation matrix

  function Extent(z: int): nat
  {
    if z < 0 then 0 else z
  }

  function ActLoops(x: Tensor, ky: nat, kx: nat, win: Window): Loops
    requires win.strideH > 0 && win.strideW > 0
  {
    Loops(x.n, Extent(OutLength(x.h, ky, win.strideH, win.padH)), Extent(OutLength(x.w, kx, win.strideW, win.padW)),
          ky, kx, x.c)
  }

  /** The activation that iteration `d` copies, zero outside the activation. */
  function ActEntry(x: Tensor, win: Window, d: Loops): int
  {
    x.AtOrZero(d.n, d.c, Offset(d.oh, win.strideH, win.padH) + d.r, Offset(d.ow, win.strideW, win.padW) + d.s)
  }

  ghost predicate ActFilled(data: seq<int>, x: Tensor, win: Window, l: Loops, count: nat)
  {
    forall d :: Inside(l, d) && Place(l, d) < count ==>
      Place(l, d) < |data| && data[Place(l, d)] == ActEntry(x, win, d)
  }

  lemma NothingCopied(data: seq<int>, x: Tensor, win: Window, l: Loops)
    ensures ActFilled(data, x, win, l, 0)
  {
  }

  lemma ActStep(before: seq<int>, after: seq<int>, x: Tensor, win: Window, l: Loops, d: Loops)
    requires Inside(l, d) && |before| == |after| && Place(l, d) < |before|
    requires ActFilled(before, x, win, l, Place(l, d))
    requires after == before[Place(l, d) := ActEntry(x, win, d)]
    ensures ActFilled(after, x, win, l, Place(l, d) + 1)
  {
    hide Place;
    forall e | Inside(l, e) && Place(l, e) < Place(l, d) + 1
      ensures Place(l, e) < |after| && after[Place(l, e)] == ActEntry(x, win, e)
    {
      if Place(l, e) == Place(l, d) {
        PlaceUnique(l, d, e);
      }
    }
  }

  /** The range the loops go over has as many members as the computed output length says. */
  lemma RangeLength(size: nat, kernel: nat, stride: nat, pad: nat, i: nat)
    requires stride > 0
    ensures Offset(i, stride, pad) < size + pad - kernel + 1 <==> i < Extent(OutLength(size, kernel, stride, pad))
    ensures Offset(0, stride, pad) == 0 - pad && Offset(i + 1, stride, pad) == Offset(i, stride, pad) + stride
  {
    MulDistribute(i, 1, stride);
    var z := size - kernel + 2 * pad;
    DivModSplit(z, stride);
    if i * stride <= z {
      DivModUnique(i * stride, i, 0, stride);
      DivMono(i * stride, z, stride);
    } else if i <= z / stride {
      MulMono(i, z / stride, stride);
    }
  }

  /**
   Row oh * OW + ow of matrix n holds what the filter covers at (oh, ow), by filter row, filter column and
   channel.
   */
  ghost predicate IsActMatrix(a: View, x: Tensor, ky: nat, kx: nat, win: Window)
    requires win.strideH > 0 && win.strideW > 0
  {
    var l := ActLoops(x, ky, kx, win);
    forall d :: Inside(l, d) ==>
      a.At(d.n, Index(d.oh, l.ow, d.ow), Index(Index(d.r, kx, d.s), x.c, d.c)) == ActEntry(x, win, d)
  }

  /** When the activation can be laid out: its loops must cover the matrix, and no side be negative. */
  predicate CanLayOut(x: Tensor, ky: nat, kx: nat, win: Window)
  {
    && win.strideH > 0 && win.strideW > 0
    && var oh, ow := OutLength(x.h, ky, win.strideH, win.padH), OutLength(x.w, kx, win.strideW, win.padW);
       && oh * ow >= 0
       && (oh < 0 && ow < 0 ==> x.n == 0 || x.c == 0 || ky == 0 || kx == 0)
  }

  /** How the size computed up front compares with the number of iterations. */
  lemma SizeOfMatrix(x: Tensor, ky: nat, kx: nat, win: Window)
    requires win.strideH > 0 && win.strideW > 0
    ensures var oh, ow := OutLength(x.h, ky, win.strideH, win.padH), OutLength(x.w, kx, win.strideW, win.padW);
            var size := x.n * (oh * ow) * (x.c * kx * ky);
            var l := ActLoops(x, ky, kx, win);
            && (CanLayOut(x, ky, kx, win) <==> oh * ow >= 0 && size == Total(l))
            && (l.oh > 0 && l.ow > 0 ==> size == Total(l))
  {
    var oh, ow := OutLength(x.h, ky, win.strideH, win.padH), OutLength(x.w, kx, win.strideW, win.padW);
    var l := ActLoops(x, ky, kx, win);
    TotalIsProduct(l);
    if oh >= 0 && ow >= 0 {
      MulPositive(oh, ow);
    } else if oh < 0 && ow < 0 {
      NoSize(x.n, oh * ow, x.c, kx, ky);
    }
  }

  lemma NoStride(x: Tensor, ky: nat, kx: nat, win: Window)
    ensures CanLayOut(x, ky, kx, win) ==> win.strideH > 0 && win.strideW > 0
  {
  }

  lemma TotalIsProduct(l: Loops)
    ensures Total(l) == l.n * (l.oh * l.ow) * (l.c * l.s * l.r)
    ensures l.oh == 0 || l.ow == 0 ==> Total(l) == 0
  {
  }

  lemma NoSize(n: nat, rows: nat, c: nat, s: nat, r: nat)
    requires rows > 0
    ensures n * rows * (c * s * r) == 0 <==> n == 0 || c == 0 || s == 0 || r == 0
  {
  }

  lemma IndexNested(q: nat, a: nat, i: nat, b: nat, j: nat)
    ensures a * b >= 0 && Index(Index(q, a, i), b, j) == Index(q, a * b, Index(i, b, j))
  {
    MulPositive(a, b);
    MulDistribute(q * a, i, b);
    MulAssoc(q, a, b);
  }

  lemma IndexParts(q: nat, a: nat, row: nat, b: nat, col: nat)
    ensures a * b >= 0
    ensures Index(q, a * b, Index(row, b, col)) == Times(q, a * b) + Times(row, b) + Times(col, 1)
  {
    MulPositive(a, b);
  }

  /** The running index, as the place of a matrix entry. */
  lemma PlaceInMatrix(l: Loops, d: Loops)
    ensures l.oh * l.ow >= 0 && l.r * l.s * l.c >= 0 && l.oh * l.ow * (l.r * l.s * l.c) >= 0
    ensures Place(l, d) == Times(d.n, l.oh * l.ow * (l.r * l.s * l.c))
                           + Times(Index(d.oh, l.ow, d.ow), l.r * l.s * l.c)
                           + Times(Index(Index(d.r, l.s, d.s), l.c, d.c), 1)
  {
    hide Index, Times;
    var image := Index(Index(d.n, l.oh, d.oh), l.ow, d.ow);
    var row := Index(d.oh, l.ow, d.ow);
    var tap := Index(d.r, l.s, d.s);
    var col := Index(tap, l.c, d.c);
    MulPositive(l.r, l.s);
    MulPositive(l.r * l.s, l.c);
    MulPositive(l.oh, l.ow);
    MulPositive(l.oh * l.ow, l.r * l.s * l.c);
    IndexNested(image, l.r, d.r, l.s, d.s);
    IndexNested(image, l.r * l.s, tap, l.c, d.c);
    IndexNested(d.n, l.oh, d.oh, l.ow, d.ow);
    IndexNested(d.n, l.oh * l.ow, row, l.r * l.s * l.c, col);
    IndexParts(d.n, l.oh * l.ow, row, l.r * l.s * l.c, col);
  }

  lemma ActMatrixFilled(data: seq<int>, x: Tensor, ky: nat, kx: nat, win: Window)
    requires CanLayOut(x, ky, kx, win)
    requires ActFilled(data, x, win, ActLoops(x, ky, kx, win), Total(ActLoops(x, ky, kx, win)))
    ensures var rows := OutLength(x.h, ky, win.strideH, win.padH) * OutLength(x.w, kx, win.strideW, win.padW);
            x.c * kx * ky >= 0 && IsActMatrix(Reshaped(data, x.n, rows, x.c * kx * ky), x, ky, kx, win)
  {
    hide Place, OutLength;
    var l := ActLoops(x, ky, kx, win);
    var oh, ow := OutLength(x.h, ky, win.strideH, win.padH), OutLength(x.w, kx, win.strideW, win.padW);
    MulPositive(x.c, kx);
    MulPositive(x.c * kx, ky);
    var a := Reshaped(data, x.n, oh * ow, x.c * kx * ky);
    forall d | Inside(l, d)
      ensures a.At(d.n, Index(d.oh, l.ow, d.ow), Index(Index(d.r, kx, d.s), x.c, d.c)) == ActEntry(x, win, d)
    {
      hide Index, Times, ActEntry;
      PlaceBelowTotal(l, d);
      PlaceInMatrix(l, d);
      SameColumns(x.c, kx, ky);
      assert l.oh == oh && l.ow == ow;
    }
  }

  lemma SameColumns(c: nat, s: nat, r: nat)
    ensures c * s * r == r * s * c
  {
  }

  /** Copies what the filter covers when its first row and column are at (h, w). */
  method CopyWindow(ret: array<int>, start: nat, x: Tensor, kernelY: nat, kernelX: nat, h: int, w: int,
                    ghost win: Window, ghost l: Loops, n: nat, ghost i: nat, ghost j: nat)
    returns (idx: nat)
    requires n < l.n && i < l.oh && j < l.ow && l.n == x.n && l.r == kernelY && l.s == kernelX && l.c == x.c
    requires h == Offset(i, win.strideH, win.padH) && w == Offset(j, win.strideW, win.padW)
    requires ret.Length == Total(l) && start == Place(l, Loops(n, i, j, 0, 0, 0))
    requires ActFilled(ret[..], x, win, l, start)
    modifies ret
    ensures idx == Place(l, Loops(n, i, j, kernelY, 0, 0)) && ActFilled(ret[..], x, win, l, idx)
  {
    hide Place, ActFilled, Offset;
    idx := start;
    for r := 0 to kernelY
      invariant idx == Place(l, Loops(n, i, j, r, 0, 0))
      invariant ActFilled(ret[..], x, win, l, idx)
    {
      for s := 0 to kernelX
        invariant idx == Place(l, Loops(n, i, j, r, s, 0))
        invariant ActFilled(ret[..], x, win, l, idx)
      {
        for c := 0 to x.c
          invariant idx == Place(l, Loops(n, i, j, r, s, c))
          invariant ActFilled(ret[..], x, win, l, idx)
        {
          var hOffs := h + r;
          var wOffs := w + s;
          var pad := hOffs < 0 || hOffs >= x.h || wOffs < 0 || wOffs >= x.w;
          ghost var d := Loops(n, i, j, r, s, c);
          ghost var before := ret[..];
          PlaceBelowTotal(l, d);
          ret[idx] := if pad then 0 else x.At(n, c, hOffs, wOffs);
          ActStep(before, ret[..], x, win, l, d);
          Carries(l, n, i, j, r, s, c);
          idx := idx + 1;
        }
        Carries(l, n, i, j, r, s, 0);
      }
      Carries(l, n, i, j, r, 0, 0);
    }
  }

  /** Copies what the filter covers at every place along row `h`. */
  method CopyRow(ret: array<int>, start: nat, x: Tensor, kernelY: nat, kernelX: nat, h: int, win: Window,
                 ghost l: Loops, n: nat, ghost i: nat)
    returns (idx: nat)
    requires win.strideH > 0 && win.strideW > 0 && l == ActLoops(x, kernelY, kernelX, win)
    requires n < l.n && i < l.oh && h == Offset(i, win.strideH, win.padH)
    requires (l.ow > 0 ==> ret.Length == Total(l)) && start == Place(l, Loops(n, i, 0, 0, 0, 0))
    requires ActFilled(ret[..], x, win, l, start)
    modifies ret
    ensures idx == Place(l, Loops(n, i, l.ow, 0, 0, 0)) && ActFilled(ret[..], x, win, l, idx)
  {
    hide Place, ActFilled, OutLength, Extent, Offset;
    idx := start;
    var w: int := -1 * win.padW;
    ghost var j: nat := 0;
    RangeLength(x.w, kernelX, win.strideW, win.padW, 0);
    while w < x.w + win.padW - kernelX + 1
      invariant w == Offset(j, win.strideW, win.padW) && j <= l.ow
      invariant idx == Place(l, Loops(n, i, j, 0, 0, 0))
      invariant ActFilled(ret[..], x, win, l, idx)
    {
      RangeLength(x.w, kernelX, win.strideW, win.padW, j);
      idx := CopyWindow(ret, idx, x, kernelY, kernelX, h, w, win, l, n, i, j);
      Carries(l, n, i, j, 0, 0, 0);
      w := w + win.strideW;
      j := j + 1;
    }
    RangeLength(x.w, kernelX, win.strideW, win.padW, j);
  }

  method ConvertAct2dMatrix(x: Tensor, kernelY: nat, kernelX: nat, win: Window) returns (result: Result<View>)
    ensures result.Ok? <==> CanLayOut(x, kernelY, kernelX, win)
    ensures result.Ok? ==> IsActMatrix(result.value, x, kernelY, kernelX, win)
    ensures result.Ok? ==> result.value.count == x.n && result.value.cols == x.c * kernelX * kernelY
    ensures result.Ok? ==>
              var oh := OutLength(x.h, kernelY, win.strideH, win.padH);
              var ow := OutLength(x.w, kernelX, win.strideW, win.padW);
              result.value.rows == oh * ow
  {
    hide Place, ActFilled, IsActMatrix, OutLength, CanLayOut, Extent, Offset;
    NoStride(x, kernelY, kernelX, win);
    if win.strideH == 0 || win.strideW == 0 {
      return Fatal;
    }
    var oh := OutLength(x.h, kernelY, win.strideH, win.padH);
    var ow := OutLength(x.w, kernelX, win.strideW, win.padW);
    var nrows := oh * ow;
    var ncols := x.c * kernelX * kernelY;
    var size := x.n * nrows * ncols;
    SizeOfMatrix(x, kernelY, kernelX, win);
    if size < 0 {
      return Fatal;
    }
    var ret := new int[size](_ => 0);
    ghost var l := ActLoops(x, kernelY, kernelX, win);
    var idx: nat := 0;
    FirstPlace(l);
    NothingCopied(ret[..], x, win, l);
    for n := 0 to x.n
      invariant idx == Place(l, Loops(n, 0, 0, 0, 0, 0))
      invariant ActFilled(ret[..], x, win, l, idx)
    {
      var h: int := -1 * win.padH;
      ghost var i: nat := 0;
      RangeLength(x.h, kernelY, win.strideH, win.padH, 0);
      while h < x.h + win.padH - kernelY + 1
        invariant h == Offset(i, win.strideH, win.padH) && i <= l.oh
        invariant idx == Place(l, Loops(n, i, 0, 0, 0, 0))
        invariant ActFilled(ret[..], x, win, l, idx)
      {
        RangeLength(x.h, kernelY, win.strideH, win.padH, i);
        idx := CopyRow(ret, idx, x, kernelY, kernelX, h, win, l, n, i);
        Carries(l, n, i, 0, 0, 0, 0);
        h := h + win.strideH;
        i := i + 1;
      }
      RangeLength(x.h, kernelY, win.strideH, win.padH, i);
      Carries(l, n, 0, 0, 0, 0, 0);
    }
    if idx != size {
      return Fatal;
    }
    if nrows < 0 {
      return Fatal;
    }
    var a := Reshaped(ret[..], x.n, nrows, ncols);
    ActMatrixFilled(ret[..], x, kernelY, kernelX, win);
    result := Ok(a);
  }

  // ----- the weight matrix

  /** A filter's loops: output channel, filter row, filter column, input channel. */
  function WeightLoops(f: Tensor): Loops
  {
    Loops(f.n, 1, 1, f.h, f.w, f.c)
  }

  /** Column k holds output channel k's weights, by filter row, filter column and input channel. */
  ghost predicate IsWeightMatrix(b: View, f: Tensor)
  {
    forall k, r, s, c | 0 <= k < f.n && 0 <= r < f.h && 0 <= s < f.w && 0 <= c < f.c ::
      b.At(0, Index(Index(r, f.w, s), f.c, c), k) == f.At(k, c, r, s)
  }

  ghost predicate WeightsFilled(data: seq<int>, f: Tensor, count: nat)
  {
    forall d :: Inside(WeightLoops(f), d) && Place(WeightLoops(f), d) < count ==>
      Place(WeightLoops(f), d) < |data| && data[Place(WeightLoops(f), d)] == f.At(d.n, d.c, d.r, d.s)
  }

  lemma WeightsStep(before: seq<int>, after: seq<int>, f: Tensor, d: Loops)
    requires Inside(WeightLoops(f), d) && |before| == |after| && Place(WeightLoops(f), d) < |before|
    requires WeightsFilled(before, f, Place(WeightLoops(f), d))
    requires after == before[Place(WeightLoops(f), d) := f.At(d.n, d.c, d.r, d.s)]
    ensures WeightsFilled(after, f, Place(WeightLoops(f), d) + 1)
  {
    hide Place;
    var l := WeightLoops(f);
    forall e | Inside(l, e) && Place(l, e) < Place(l, d) + 1
      ensures Place(l, e) < |after| && after[Place(l, e)] == f.At(e.n, e.c, e.r, e.s)
    {
      if Place(l, e) == Place(l, d) {
        PlaceUnique(l, d, e);
      }
    }
  }

  lemma WeightMatrixFilled(data: seq<int>, f: Tensor)
    requires WeightsFilled(data, f, Total(WeightLoops(f)))
    ensures f.c * f.h * f.w >= 0 && IsWeightMatrix(Reshaped(data, 1, f.n, f.c * f.h * f.w).Transposed(), f)
  {
    hide Place, Index, Times;
    var l := WeightLoops(f);
    MulPositive(f.c, f.h);
    MulPositive(f.c * f.h, f.w);
    var b := Reshaped(data, 1, f.n, f.c * f.h * f.w).Transposed();
    forall k, r, s, c | 0 <= k < f.n && 0 <= r < f.h && 0 <= s < f.w && 0 <= c < f.c
      ensures b.At(0, Index(Index(r, f.w, s), f.c, c), k) == f.At(k, c, r, s)
    {
      var d := Loops(k, 0, 0, r, s, c);
      PlaceBelowTotal(l, d);
      PlaceInMatrix(l, d);
      WeightPlace(l, d);
      MulPositive(f.c * f.h * f.w, f.n);
      FromZero(f.c * f.h * f.w * f.n);
    }
  }

  lemma WeightPlace(l: Loops, d: Loops)
    requires l.oh == 1 && l.ow == 1 && d.oh == 0 && d.ow == 0
    ensures l.c * l.r * l.s >= 0
    ensures Place(l, d) == Times(d.n, l.c * l.r * l.s) + Times(Index(Index(d.r, l.s, d.s), l.c, d.c), 1)
  {
    hide Place, Index, Times;
    PlaceInMatrix(l, d);
    FilterSize(l.c, l.r, l.s);
    FromZero(l.ow);
    FromZero(l.r * l.s * l.c);
  }

  lemma FilterSize(c: nat, r: nat, s: nat)
    ensures r * s * c == c * r * s && c * r * s >= 0
    ensures 1 * 1 * (r * s * c) == c * r * s
  {
    MulAssoc(c, r, s);
    MulPositive(c, r);
    MulPositive(c * r, s);
  }

  lemma FromZero(d: nat)
    ensures Times(0, d) == 0 && Index(0, d, 0) == 0
  {
  }

  /** The weights cut down to the shape the caller gives. */
  function WithShape(weights: Tensor, shape: Tensor): Tensor
  {
    Tensor(shape.n, shape.c, shape.h, shape.w, weights.entries)
  }

  /** When every index the loops use is within the weights. */
  predicate ShapeFits(weights: Tensor, shape: Tensor)
  {
    shape.n == 0 || shape.c == 0 || shape.h == 0 || shape.w == 0
    || (shape.n <= weights.n && shape.c <= weights.c && shape.h <= weights.h && shape.w <= weights.w)
  }

  /**
   Only the sides of `shape` are used. The transposition at the end takes a pair of dimensions, which torch tensors
   accept and numpy arrays do not.
   */
  method ConvertWeights2dMatrix(weights: Tensor, shape: Tensor, isTorch: bool) returns (result: Result<View>)
    ensures result.Ok? <==> isTorch && ShapeFits(weights, shape)
    ensures result.Ok? ==> IsWeightMatrix(result.value, WithShape(weights, shape))
    ensures result.Ok? ==> result.value.count == 1 && result.value.cols == shape.n
    ensures result.Ok? ==> result.value.rows == shape.c * shape.h * shape.w
  {
    hide Place, WeightsFilled, IsWeightMatrix;
    var f := WithShape(weights, shape);
    ghost var l := WeightLoops(f);
    var ncols := f.c * f.h * f.w;
    var size := f.n * ncols;
    WeightSize(f);
    var ret := new int[size](_ => 0);
    var idx: nat := 0;
    NoWeights(ret[..], f);
    for k := 0 to f.n
      invariant idx == Place(l, Loops(k, 0, 0, 0, 0, 0))
      invariant WeightsFilled(ret[..], f, idx)
      invariant k > 0 && f.h > 0 && f.w > 0 && f.c > 0 ==>
        k <= weights.n && f.h <= weights.h && f.w <= weights.w && f.c <= weights.c
    {
      for r := 0 to f.h
        invariant idx == Place(l, Loops(k, 0, 0, r, 0, 0))
        invariant WeightsFilled(ret[..], f, idx)
        invariant r > 0 && f.w > 0 && f.c > 0 ==>
          k < weights.n && r <= weights.h && f.w <= weights.w && f.c <= weights.c
      {
        for s := 0 to f.w
          invariant idx == Place(l, Loops(k, 0, 0, r, s, 0))
          invariant WeightsFilled(ret[..], f, idx)
          invariant s > 0 && f.c > 0 ==> k < weights.n && r < weights.h && s <= weights.w && f.c <= weights.c
        {
          for c := 0 to f.c
            invariant idx == Place(l, Loops(k, 0, 0, r, s, c))
            invariant WeightsFilled(ret[..], f, idx)
            invariant c > 0 ==> k < weights.n && r < weights.h && s < weights.w && c <= weights.c
          {
            if !weights.InBounds(k, c, r, s) {
              return Fatal;
            }
            ghost var d := Loops(k, 0, 0, r, s, c);
            ghost var before := ret[..];
            PlaceBelowTotal(l, d);
            ret[idx] := weights.At(k, c, r, s);
            WeightsStep(before, ret[..], f, d);
            Carries(l, k, 0, 0, r, s, c);
            idx := idx + 1;
          }
          Carries(l, k, 0, 0, r, s, 0);
        }
        Carries(l, k, 0, 0, r, 0, 0);
      }
      Carries(l, k, 0, 0, 0, 0, 0);
    }
    // the source's closing check: the running index ends at the array size
    assert idx == size;
    if !isTorch {
      return Fatal;
    }
    WeightMatrixFilled(ret[..], f);
    result := Ok(Reshaped(ret[..], 1, f.n, ncols).Transposed());
  }

  lemma NoWeights(data: seq<int>, f: Tensor)
    ensures Place(WeightLoops(f), Loops(0, 0, 0, 0, 0, 0)) == 0
    ensures WeightsFilled(data, f, 0)
  {
    FirstPlace(WeightLoops(f));
  }

  lemma WeightSize(f: Tensor)
    ensures f.c * f.h * f.w >= 0 && f.n * (f.c * f.h * f.w) >= 0
    ensures f.n * (f.c * f.h * f.w) == Total(WeightLoops(f))
  {
    MulPositive(f.c, f.h);
    MulPositive(f.c * f.h, f.w);
    MulPositive(f.n, f.c * f.h * f.w);
    TotalIsProduct(WeightLoops(f));
  }

  // ----- the product of the matrices

  /** Entry (row, k) of the product of matrix n of `a` with the weight matrix `b`. */
  function Product(a: View, b: View, n: nat, row: nat, k: nat): int
  {
    Sum(a.cols, q => if q >= 0 then a.At(n, row, q) * b.At(0, q, k) else 0)
  }

  /** The product of the two matrices is the convolution. */
  lemma ProductIsConvolution(x: Tensor, f: Tensor, win: Window, a: View, b: View, n: nat, k: nat, oh: nat, ow: nat)
    requires win.strideH > 0 && win.strideW > 0 && x.c == f.c
    requires a.cols == x.c * f.w * f.h && IsActMatrix(a, x, f.h, f.w, win) && IsWeightMatrix(b, f)
    requires n < x.n && k < f.n
    requires oh < OutLength(x.h, f.h, win.strideH, win.padH) && ow < OutLength(x.w, f.w, win.strideW, win.padW)
    ensures Product(a, b, n, Index(oh, OutLength(x.w, f.w, win.strideW, win.padW), ow), k)
            == Convolve(x, f, win, n, k, oh, ow)
  {
    hide Index, Times, OutLength, Offset, Sum, Sum2, Sum3, Extent;
    ExtentOf(OutLength(x.h, f.h, win.strideH, win.padH));
    ExtentOf(OutLength(x.w, f.w, win.strideW, win.padW));
    var l := ActLoops(x, f.h, f.w, win);
    var row := Index(oh, l.ow, ow);
    var products := q => if q >= 0 then a.At(n, row, q) * b.At(0, q, k) else 0;
    var taps := r => s => c => Terms(x, f, win, n, k, oh, ow)(c)(r)(s);
    forall r, s, c | 0 <= r < f.h && 0 <= s < f.w && 0 <= c < f.c
      ensures taps(r)(s)(c) == products(Index(Index(r, f.w, s), f.c, c))
    {
      var q := Index(Index(r, f.w, s), f.c, c);
      assert Inside(l, Loops(n, oh, ow, r, s, c));
      assert a.At(n, row, q) == ActEntry(x, win, Loops(n, oh, ow, r, s, c));
      assert b.At(0, q, k) == f.At(k, c, r, s);
      assert taps(r)(s)(c) == Terms(x, f, win, n, k, oh, ow)(c)(r)(s);
      assert Terms(x, f, win, n, k, oh, ow)(c)(r)(s)
           == ActEntry(x, win, Loops(n, oh, ow, r, s, c)) * f.AtOrZero(k, c, r, s);
      assert products(q) == a.At(n, row, q) * b.At(0, q, k);
    }
    SumFlat3(f.h, f.w, f.c, products, taps);
    FlatLength(f.c, f.w, f.h);
    Sum3Rotate(f.h, f.w, f.c, taps, Terms(x, f, win, n, k, oh, ow));
  }

  lemma ExtentOf(z: int)
    ensures z >= 0 ==> Extent(z) == z
  {
  }

  lemma FlatLength(c: nat, w: nat, h: nat)
    ensures Times(Times(h, w), c) == c * w * h
  {
  }
}
