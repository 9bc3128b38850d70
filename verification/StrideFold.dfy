/**
 Stride folding: a strided convolution turned into one of stride one, by folding the sub-planes that the
 stride picks into the channels of both the activation and the filter.
 */
module StrideFold {
  import opened Outcomes
  import opened Arith
  import opened Sums
  import opened Convolution

  /** The least multiple of `y` that is at least `x`. */
  function NearestY(x: nat, y: nat): nat
    requires y > 0
  {
    DivNonNegative(x + y - 1, y);
    Times((x + y - 1) / y, y)
  }

  /** A tensor with zeros put around its planes and after its channels. */
  function PadTensor(x: Tensor, left: nat, right: nat, top: nat, bottom: nat, back: nat): Tensor
  {
    Tensor(x.n, x.c + back, x.h + top + bottom, x.w + left + right, (i, j, y, z) => x.AtOrZero(i, j, y - top, z - left))
  }

  /** What the two folds need of the strides and sides, apart from the indices they use. */
  predicate Square(x: Tensor, strideH: nat, strideW: nat)
  {
    strideH == strideW && x.h == x.w && strideH > 0
  }

  lemma NearestIsLeast(x: nat, y: nat)
    requires y > 0
    ensures x <= NearestY(x, y) < x + y && NearestY(x, y) % y == 0
    ensures NearestY(x, y) / y == (x + y - 1) / y
  {
    DivNonNegative(x + y - 1, y);
    DivModSplit(x + y - 1, y);
    DivModUnique(NearestY(x, y), (x + y - 1) / y, 0, y);
  }

  function PaddedActivation(x: Tensor, padH: nat, padW: nat): Tensor
  {
    NearestIsLeast(x.c, 4);
    PadTensor(x, padW, padW, padH, padH, NearestY(x.c, 4) - x.c)
  }

  function PaddedFilter(f: Tensor, stride: nat): Tensor
    requires stride > 0
  {
    NearestIsLeast(f.c, 4);
    NearestIsLeast(f.h, stride);
    NearestIsLeast(f.w, stride);
    PadTensor(f, 0, NearestY(f.w, stride) - f.w, 0, NearestY(f.h, stride) - f.h, NearestY(f.c, 4) - f.c)
  }

  /** Entry (y, z) of the plane that folding puts at channel `q`, zero past the first `subs` sub-planes. */
  function FoldedEntry(p: Tensor, stride: nat, subs: nat, i: int, q: int, y: int, z: int): int
    requires stride > 0
  {
    if p.c > 0 && q >= 0 && q / p.c < subs then
      p.AtOrZero(i, q % p.c, y * stride + q / p.c / stride, z * stride + q / p.c % stride)
    else 0
  }

  /** The channels' first `subs` sub-planes, one after the other; zero for the other sub-planes. */
  function Folded(p: Tensor, stride: nat, subs: nat): Tensor
    requires stride > 0
  {
    DivNonNegative(p.h, stride);
    DivNonNegative(p.w, stride);
    Tensor(p.n, Times(Times(stride, stride), p.c), p.h / stride, p.w / stride,
      (i, q, y, z) => FoldedEntry(p, stride, subs, i, q, y, z))
  }

  function FoldedActivation(x: Tensor, padH: nat, padW: nat, stride: nat): Tensor
    requires stride > 0
  {
    Folded(PaddedActivation(x, padH, padW), stride, Times(stride, stride))
  }

  /** Only the first four sub-planes of the filter are folded, whatever the stride. */
  function FoldedFilter(f: Tensor, stride: nat): Tensor
    requires stride > 0
  {
    Folded(PaddedFilter(f, stride), stride, 4)
  }

  // ----- what folding preserves

  /** The filter without the taps that fall in the sub-planes past the fourth. */
  function Kept(f: Tensor, stride: nat): Tensor
    requires stride > 0
  {
    Tensor(f.n, f.c, f.h, f.w, (k, c, r, s) => if IsDropped(stride, r, s) then 0 else f.AtOrZero(k, c, r, s))
  }

  predicate IsDropped(stride: nat, r: int, s: int)
    requires stride > 0
  {
    Index(r % stride, stride, s % stride) >= 4
  }

  /** The products of the padded tensors, before folding. */
  function PaddedTerms(p: Tensor, g: Tensor, stride: nat, n: nat, k: nat, oh: nat, ow: nat): int -> int -> int -> int
    requires stride > 0
  {
    c => r => s =>
      p.AtOrZero(n, c, oh * stride + r, ow * stride + s)
      * (if IsDropped(stride, r, s) then 0 else g.AtOrZero(k, c, r, s))
  }

  /** The places of a folded row, and of the row it comes from. */
  lemma FoldedBounds(h: nat, stride: nat, y: int, a: nat)
    requires stride > 0 && h % stride == 0 && a < stride
    ensures 0 <= y < h / stride <==> 0 <= y * stride + a < h
  {
    DivModSplit(h, stride);
    if 0 <= y < h / stride {
      MulMono(y + 1, h / stride, stride);
      MulDistribute(y, 1, stride);
    } else if y < 0 {
      MulMono(y, -1, stride);
    } else {
      MulMono(h / stride, y, stride);
    }
  }

  lemma ChannelDigits(stride: nat, channels: nat, a: nat, b: nat, c: nat)
    requires a < stride && b < stride && c < channels
    ensures var q := Index(Index(a, stride, b), channels, c);
            && q / channels == Index(a, stride, b) && q % channels == c
            && q / channels / stride == a && q / channels % stride == b
            && q < Times(Times(stride, stride), channels)
  {
    var sub := Index(a, stride, b);
    DivModUnique(Index(sub, channels, c), sub, c, channels);
    DivModUnique(sub, a, b, stride);
    IndexInRange(a, b, stride, stride);
    IndexInRange(sub, c, Times(stride, stride), channels);
  }

  /** An entry of a folded tensor is the entry of the sub-plane it was folded from. */
  lemma FoldedAt(p: Tensor, stride: nat, subs: nat, i: int, a: nat, b: nat, c: nat, y: int, z: int)
    requires stride > 0 && p.h % stride == 0 && p.w % stride == 0 && a < stride && b < stride && c < p.c
    ensures Folded(p, stride, subs).AtOrZero(i, Index(Index(a, stride, b), p.c, c), y, z)
            == if Index(a, stride, b) < subs then p.AtOrZero(i, c, y * stride + a, z * stride + b) else 0
  {
    hide Index, Times;
    ChannelDigits(stride, p.c, a, b, c);
    FoldedBounds(p.h, stride, y, a);
    FoldedBounds(p.w, stride, z, b);
  }

  /** One product of the folded convolution is one product of the padded tensors. */
  lemma FoldedTerm(p: Tensor, g: Tensor, stride: nat, n: nat, k: nat, oh: nat, ow: nat,
                   a: nat, b: nat, c: nat, i: nat, j: nat)
    requires stride >= 2 && a < stride && b < stride && c < p.c && p.c == g.c
    requires p.h % stride == 0 && p.w % stride == 0 && g.h % stride == 0 && g.w % stride == 0
    ensures var q := Index(Index(a, stride, b), p.c, c);
            var u, v := Folded(p, stride, Times(stride, stride)), Folded(g, stride, 4);
            Terms(u, v, Window(1, 1, 0, 0), n, k, oh, ow)(q)(i)(j)
            == PaddedTerms(p, g, stride, n, k, oh, ow)(c)(Index(i, stride, a))(Index(j, stride, b))
  {
    hide Folded, Index, Times, IsDropped;
    FoldedAt(p, stride, Times(stride, stride), n, a, b, c, oh + i, ow + j);
    FoldedAt(g, stride, 4, k, a, b, c, i, j);
    UnitOffset(oh);
    UnitOffset(ow);
    IndexPlus(oh, i, stride, a);
    IndexPlus(ow, j, stride, b);
    DroppedDigits(stride, i, a, j, b);
    IndexBelow(a, b, stride);
  }

  lemma IndexBelow(a: nat, b: nat, stride: nat)
    requires a < stride && b < stride
    ensures Index(a, stride, b) < Times(stride, stride)
  {
    IndexInRange(a, b, stride, stride);
  }

  lemma UnitOffset(i: nat)
    ensures Offset(i, 1, 0) == i
  {
  }

  lemma IndexPlus(o: nat, i: nat, stride: nat, a: nat)
    ensures (o + i) * stride + a == o * stride + Index(i, stride, a)
    ensures i * stride + a == Index(i, stride, a)
  {
    MulDistribute(o, i, stride);
  }

  lemma DroppedDigits(stride: nat, i: nat, a: nat, j: nat, b: nat)
    requires a < stride && b < stride
    ensures IsDropped(stride, Index(i, stride, a), Index(j, stride, b)) <==> Index(a, stride, b) >= 4
  {
    DivModUnique(Index(i, stride, a), i, a, stride);
    DivModUnique(Index(j, stride, b), j, b, stride);
  }

  /** Padding and dropping taps, seen from the original tensors. */
  lemma PaddedTerm(x: Tensor, f: Tensor, stride: nat, padH: nat, padW: nat, n: nat, k: nat, oh: nat, ow: nat,
                   c: nat, r: nat, s: nat)
    requires stride > 0 && x.c == f.c
    ensures var t := PaddedTerms(PaddedActivation(x, padH, padW), PaddedFilter(f, stride), stride, n, k, oh,
                                 ow)(c)(r)(s);
            && (c < f.c ==> t == Terms(x, Kept(f, stride), Window(stride, stride, padH, padW), n, k, oh, ow)(c)(r)(s))
            && (c >= f.c || r >= f.h || s >= f.w ==> t == 0)
  {
    hide NearestY, IsDropped;
    NearestIsLeast(f.c, 4);
    NearestIsLeast(f.h, stride);
    NearestIsLeast(f.w, stride);
    var g, p := PaddedFilter(f, stride), PaddedActivation(x, padH, padW);
    assert g.AtOrZero(k, c, r, s) == f.AtOrZero(k, c, r, s);
    var y, z := oh * stride + r, ow * stride + s;
    assert c < f.c ==> p.AtOrZero(n, c, y, z) == x.AtOrZero(n, c, y - padH, z - padW);
    assert Kept(f, stride).AtOrZero(k, c, r, s) == if IsDropped(stride, r, s) then 0 else f.AtOrZero(k, c, r, s);
    assert Terms(x, Kept(f, stride), Window(stride, stride, padH, padW), n, k, oh, ow)(c)(r)(s)
        == x.AtOrZero(n, c, y - padH, z - padW) * Kept(f, stride).AtOrZero(k, c, r, s);
  }

  /** The padded activation has whole sub-planes. */
  predicate Divides(x: Tensor, stride: nat, padH: nat, padW: nat)
    requires stride > 0
  {
    (x.h + padH + padH) % stride == 0 && (x.w + padW + padW) % stride == 0
  }

  /** The convolution of the folded tensors with stride one is the strided one with the taps that folding keeps. */
  lemma FoldingKeepsConvolution(x: Tensor, f: Tensor, stride: nat, padH: nat, padW: nat, n: nat, k: nat, oh: nat,
                                ow: nat)
    requires stride >= 2 && x.c == f.c && Divides(x, stride, padH, padW)
    ensures Convolve(FoldedActivation(x, padH, padW, stride), FoldedFilter(f, stride), Window(1, 1, 0, 0), n, k, oh, ow)
            == Convolve(x, Kept(f, stride), Window(stride, stride, padH, padW), n, k, oh, ow)
  {
    hide Index, Times, Sum3, NearestY, Terms, PaddedTerms;
    var p, g := PaddedActivation(x, padH, padW), PaddedFilter(f, stride);
    var u, v := FoldedActivation(x, padH, padW, stride), FoldedFilter(f, stride);
    NearestIsLeast(f.h, stride);
    NearestIsLeast(f.w, stride);
    NearestIsLeast(f.c, 4);
    var folded := Terms(u, v, Window(1, 1, 0, 0), n, k, oh, ow);
    var padded := PaddedTerms(p, g, stride, n, k, oh, ow);
    forall a, b, c, i, j | 0 <= a < stride && 0 <= b < stride && 0 <= c < g.c && 0 <= i < v.h && 0 <= j < v.w
      ensures folded(Index(Index(a, stride, b), g.c, c))(i)(j) == padded(c)(Index(i, stride, a))(Index(j, stride, b))
    {
      FoldedTerm(p, g, stride, n, k, oh, ow, a, b, c, i, j);
    }
    SumOfFoldedPlanes(stride, g.c, v.h, v.w, folded, padded);
    WholeSubPlanes(g.h, stride);
    WholeSubPlanes(g.w, stride);
    var terms := Terms(x, Kept(f, stride), Window(stride, stride, padH, padW), n, k, oh, ow);
    forall c, r, s | 0 <= c < g.c && 0 <= r < g.h && 0 <= s < g.w
      ensures c < f.c ==> padded(c)(r)(s) == terms(c)(r)(s)
      ensures c >= f.c || r >= f.h || s >= f.w ==> padded(c)(r)(s) == 0
    {
      PaddedTerm(x, f, stride, padH, padW, n, k, oh, ow, c, r, s);
    }
    Sum3ZeroTail(f.c, f.h, f.w, g.c, g.h, g.w, padded);
    Sum3Same(f.c, f.h, f.w, padded, terms);
  }

  lemma WholeSubPlanes(h: nat, stride: nat)
    requires stride > 0 && h % stride == 0
    ensures h / stride >= 0 && Times(h / stride, stride) == h
  {
    DivNonNegative(h, stride);
    DivModSplit(h, stride);
  }

  /** Folding keeps the shape of the result along an axis. */
  lemma FoldingKeepsLength(size: nat, kernel: nat, stride: nat, pad: nat)
    requires stride > 0 && (size + pad + pad) % stride == 0
    ensures OutLength((size + pad + pad) / stride, NearestY(kernel, stride) / stride, 1, 0)
            == OutLength(size, kernel, stride, pad)
  {
    hide NearestY;
    NearestIsLeast(kernel, stride);
    var z, up := (size + pad + pad) / stride, (kernel + stride - 1) / stride;
    DivModSplit(size + pad + pad, stride);
    DivModSplit(kernel + stride - 1, stride);
    var rest := stride - 1 - (kernel + stride - 1) % stride;
    MulDistribute(z, -up, stride);
    NegateMul(up, stride);
    DivModUnique(size - kernel + 2 * pad, z - up, rest, stride);
  }

  lemma NegateMul(a: int, d: int)
    ensures (-a) * d == -(a * d)
  {
  }

  // ----- when folding is exact

  /** Every tap of the filter is one that folding keeps. */
  predicate NothingDropped(f: Tensor, stride: nat)
    requires stride > 0
  {
    forall k, c, r, s | 0 <= k < f.n && 0 <= c < f.c && 0 <= r < f.h && 0 <= s < f.w && IsDropped(stride, r, s) ::
      f.At(k, c, r, s) == 0
  }

  /** Folding changes no entry of the convolution of `x` with `f`. */
  ghost predicate ExactFor(f: Tensor, stride: nat, x: Tensor, padH: nat, padW: nat)
    requires stride > 0
  {
    var win := Window(stride, stride, padH, padW);
    forall n: nat, k: nat, oh: nat, ow: nat | n < x.n && k < f.n
      && oh < OutLength(x.h, f.h, stride, padH) && ow < OutLength(x.w, f.w, stride, padW) ::
      Convolve(FoldedActivation(x, padH, padW, stride), FoldedFilter(f, stride), Window(1, 1, 0, 0), n, k, oh, ow)
      == Convolve(x, f, win, n, k, oh, ow)
  }

  lemma NothingDroppedIsExact(f: Tensor, stride: nat, x: Tensor, padH: nat, padW: nat)
    requires stride >= 2 && x.c == f.c && Divides(x, stride, padH, padW) && NothingDropped(f, stride)
    ensures ExactFor(f, stride, x, padH, padW)
  {
    hide FoldedActivation, FoldedFilter, IsDropped;
    var win := Window(stride, stride, padH, padW);
    forall n: nat, k: nat, oh: nat, ow: nat | n < x.n && k < f.n
      && oh < OutLength(x.h, f.h, stride, padH) && ow < OutLength(x.w, f.w, stride, padW)
      ensures Convolve(FoldedActivation(x, padH, padW, stride), FoldedFilter(f, stride), Window(1, 1, 0, 0), n, k, oh,
                       ow)
              == Convolve(x, f, win, n, k, oh, ow)
    {
      FoldingKeepsConvolution(x, f, stride, padH, padW, n, k, oh, ow);
      var terms, kept := Terms(x, f, win, n, k, oh, ow), Terms(x, Kept(f, stride), win, n, k, oh, ow);
      forall c, r, s | 0 <= c < f.c && 0 <= r < f.h && 0 <= s < f.w
        ensures terms(c)(r)(s) == kept(c)(r)(s)
      {
        assert Kept(f, stride).AtOrZero(k, c, r, s) == f.AtOrZero(k, c, r, s);
      }
      Sum3Same(f.c, f.h, f.w, terms, kept);
    }
  }

  /** With stride two the four sub-planes that are folded are all there are. */
  lemma StrideTwoIsExact(f: Tensor, x: Tensor, padH: nat, padW: nat)
    requires x.c == f.c && Divides(x, 2, padH, padW)
    ensures ExactFor(f, 2, x, padH, padW)
  {
    NothingDroppedIsExact(f, 2, x, padH, padW);
  }

  /** An activation of one image that is one at (c, y, z) and zero elsewhere. */
  function Impulse(channels: nat, side: nat, c: int, y: int, z: int): Tensor
  {
    Tensor(1, channels, side, side, (i, j, y', z') => if j == c && y' == y && z' == z then 1 else 0)
  }

  /** A dropped tap that is not zero shows up in the convolution of an impulse. */
  lemma DroppedTapShows(f: Tensor, stride: nat, k: nat, c: nat, r: nat, s: nat)
    requires stride >= 2 && f.h == f.w && k < f.n && c < f.c && r < f.h && s < f.w
    requires IsDropped(stride, r, s) && f.At(k, c, r, s) != 0
    ensures var x := Impulse(f.c, NearestY(f.h, stride), c, r, s);
            Divides(x, stride, 0, 0) && !ExactFor(f, stride, x, 0, 0)
  {
    hide FoldedActivation, FoldedFilter, IsDropped, NearestY;
    NearestIsLeast(f.h, stride);
    var x := Impulse(f.c, NearestY(f.h, stride), c, r, s);
    var win := Window(stride, stride, 0, 0);
    FoldingKeepsConvolution(x, f, stride, 0, 0, 0, k, 0, 0);
    var terms, kept := Terms(x, f, win, 0, k, 0, 0), Terms(x, Kept(f, stride), win, 0, k, 0, 0);
    forall c', r', s' | 0 <= c' < f.c && 0 <= r' < f.h && 0 <= s' < f.w
      ensures terms(c')(r')(s') == if c' == c && r' == r && s' == s then f.At(k, c, r, s) else 0
      ensures kept(c')(r')(s') == 0
    {
      assert terms(c')(r')(s') == x.AtOrZero(0, c', r', s') * f.AtOrZero(k, c', r', s');
      assert kept(c')(r')(s') == x.AtOrZero(0, c', r', s') * Kept(f, stride).AtOrZero(k, c', r', s');
    }
    Sum3Single(f.c, f.h, f.w, c, r, s, terms);
    Sum3Zero(f.c, f.h, f.w, kept);
    OutputNotEmpty(NearestY(f.h, stride), f.h, stride);
  }

  lemma OutputNotEmpty(size: nat, kernel: nat, stride: nat)
    requires stride > 0 && kernel <= size
    ensures OutLength(size, kernel, stride, 0) > 0
  {
    DivNonNegative(size - kernel, stride);
  }

  /** What the original and the fold both take: square planes, as many channels as the filter, whole sub-planes. */
  ghost predicate Foldable(f: Tensor, stride: nat, x: Tensor, padH: nat, padW: nat)
    requires stride > 0
  {
    x.c == f.c && x.h == x.w && Divides(x, stride, padH, padW)
  }

  /** Folding is exact for every activation and padding exactly when it drops only zero taps. */
  lemma ExactIffNothingDropped(f: Tensor, stride: nat)
    requires stride >= 2 && f.h == f.w
    ensures (forall x, padH, padW :: Foldable(f, stride, x, padH, padW) ==> ExactFor(f, stride, x, padH, padW))
            <==> NothingDropped(f, stride)
  {
    hide ExactFor, IsDropped;
    if NothingDropped(f, stride) {
      forall x, padH, padW | Foldable(f, stride, x, padH, padW)
        ensures ExactFor(f, stride, x, padH, padW)
      {
        NothingDroppedIsExact(f, stride, x, padH, padW);
      }
    } else {
      var k, c, r, s :| 0 <= k < f.n && 0 <= c < f.c && 0 <= r < f.h && 0 <= s < f.w && IsDropped(stride, r, s)
                        && f.At(k, c, r, s) != 0;
      DroppedTapShows(f, stride, k, c, r, s);
      assert Foldable(f, stride, Impulse(f.c, NearestY(f.h, stride), c, r, s), 0, 0);
    }
  }

  // ----- the folds

  /** The array holds the tensor. */
  ghost predicate Holds(a: array4<int>, t: Tensor)
    reads a
  {
    && a.Length0 == t.n && a.Length1 == t.c && a.Length2 == t.h && a.Length3 == t.w
    && forall i, q, y, z :: 0 <= i < t.n && 0 <= q < t.c && 0 <= y < t.h && 0 <= z < t.w ==>
      a[i, q, y, z] == t.At(i, q, y, z)
  }

  /** Sub-plane `sub` at folded place (y, z) comes before iteration (fy, fz, i). */
  predicate Before(y: int, z: int, sub: int, fy: int, fz: int, i: int)
  {
    y < fy || (y == fy && (z < fz || (z == fz && sub < i)))
  }

  /** What the folded tensor holds once the iterations before (fy, fz, i) are done. */
  ghost predicate FoldedTo(a: array4<int>, p: Tensor, stride: nat, subs: nat, fy: int, fz: int, i: int)
    requires stride > 0
    reads a
  {
    var t := Folded(p, stride, subs);
    && a.Length0 == t.n && a.Length1 == t.c && a.Length2 == t.h && a.Length3 == t.w
    && (forall m, q, y, z :: 0 <= m < t.n && 0 <= q < t.c && 0 <= y < t.h && 0 <= z < t.w ==>
          a[m, q, y, z] == if p.c > 0 && Before(y, z, q / p.c, fy, fz, i) then t.At(m, q, y, z) else 0)
  }

  /**
   Copies the channels of `p` at (py, pz) to channels `start` onwards at (y, z); fails where an index or a
   slice does not fit.
   */
  method SetChannels(a: array4<int>, start: nat, y: nat, z: nat, p: Tensor, py: nat, pz: nat) returns (ok: bool)
    requires a.Length0 == p.n
    modifies a
    ensures ok <==> (py < p.h && pz < p.w && y < a.Length2 && z < a.Length3 && (p.c == 0 || start + p.c <= a.Length1))
    ensures ok ==>
              forall m, q, y', z'
                | 0 <= m < a.Length0 && 0 <= q < a.Length1 && 0 <= y' < a.Length2 && 0 <= z' < a.Length3 ::
                a[m, q, y', z'] == if start <= q < start + p.c && y' == y && z' == z then p.At(m, q - start, py, pz)
                                   else old(a[m, q, y', z'])
  {
    if !(py < p.h && pz < p.w && y < a.Length2 && z < a.Length3) {
      return false;
    }
    if p.c > 0 && start + p.c > a.Length1 {
      return false;
    }
    forall m, q | 0 <= m < p.n && start <= q < start + p.c {
      a[m, q, y, z] := p.At(m, q - start, py, pz);
    }
    ok := true;
  }

  lemma QuotientBand(q: nat, d: nat, i: nat)
    requires d > 0
    ensures q / d == i <==> Times(i, d) <= q < Times(i, d) + d
    ensures q / d == i ==> q % d == q - Times(i, d)
  {
    DivModSplit(q, d);
    if Times(i, d) <= q < Times(i, d) + d {
      DivModUnique(q, i, q - Times(i, d), d);
    }
  }

  /** One iteration of the innermost loop. */
  method FoldSubPlane(a: array4<int>, p: Tensor, stride: nat, subs: nat, fy: nat, fz: nat, h: nat, w: nat, i: nat)
    returns (ok: bool)
    requires stride > 0 && h == Times(fy, stride) && w == Times(fz, stride) && i < subs
    requires FoldedTo(a, p, stride, subs, fy, fz, i)
    modifies a
    ensures ok <==> (h + i / stride < p.h && w + i % stride < p.w && fy < p.h / stride && fz < p.w / stride
                     && (p.c == 0 || Times(i, p.c) + p.c <= Times(Times(stride, stride), p.c)))
    ensures ok ==> FoldedTo(a, p, stride, subs, fy, fz, i + 1)
  {
    hide Index, Times, FoldedEntry;
    DivNonNegative(i, stride);
    var start := Times(i, p.c);
    ghost var t := Folded(p, stride, subs);
    ok := SetChannels(a, start, fy, fz, p, h + i / stride, w + i % stride);
    if ok {
      forall m, q, y, z | 0 <= m < t.n && 0 <= q < t.c && 0 <= y < t.h && 0 <= z < t.w
        ensures a[m, q, y, z] == if p.c > 0 && Before(y, z, q / p.c, fy, fz, i + 1) then t.At(m, q, y, z) else 0
      {
        SubPlaneEntry(p, stride, subs, fy, fz, i, m, q);
      }
    }
  }

  lemma SubPlaneEntry(p: Tensor, stride: nat, subs: nat, fy: nat, fz: nat, i: nat, m: nat, q: nat)
    requires stride > 0 && i < subs && m < p.n
    ensures p.c > 0 && q / p.c == i <==> Times(i, p.c) <= q < Times(i, p.c) + p.c
    ensures p.c > 0 && q / p.c == i && Times(fy, stride) + i / stride < p.h && Times(fz, stride) + i % stride < p.w
            && i / stride >= 0 ==>
              FoldedEntry(p, stride, subs, m, q, fy, fz)
              == p.At(m, q - Times(i, p.c), Times(fy, stride) + i / stride, Times(fz, stride) + i % stride)
  {
    if p.c > 0 {
      QuotientBand(q, p.c, i);
      DivNonNegative(i, stride);
    }
  }

  /** When every index and slice of the loops fits. */
  predicate Fits(p: Tensor, stride: nat, subs: nat)
    requires stride > 0
  {
    p.h == 0 || p.w == 0 || (p.w % stride == 0 && subs <= Times(stride, stride))
  }

  lemma IterationFits(p: Tensor, stride: nat, subs: nat, fy: nat, fz: nat, i: nat)
    requires stride > 0 && p.h % stride == 0 && Fits(p, stride, subs) && i < subs
    requires Times(fy, stride) < p.h && Times(fz, stride) < p.w
    ensures i / stride >= 0 && Times(fy, stride) + i / stride < p.h && Times(fz, stride) + i % stride < p.w
    ensures fy < p.h / stride && fz < p.w / stride
    ensures Times(i, p.c) + p.c <= Times(Times(stride, stride), p.c)
  {
    DivInRange(i, stride, stride);
    FoldedBounds(p.h, stride, fy, 0);
    FoldedBounds(p.w, stride, fz, 0);
    FoldedBounds(p.h, stride, fy, i / stride);
    FoldedBounds(p.w, stride, fz, i % stride);
    MulMono(i + 1, Times(stride, stride), p.c);
    MulDistribute(i, 1, p.c);
  }

  /** Padded sides the stride does not divide leave a partial column of sub-planes. */
  lemma LastColumnFits(w: nat, stride: nat, fz: nat)
    requires stride > 0 && Times(fz, stride) >= w
    ensures fz >= w / stride
    ensures fz <= w / stride ==> w % stride == 0
  {
    DivModSplit(w, stride);
    if fz <= w / stride {
      MulMono(fz, w / stride, stride);
    }
    if fz < w / stride {
      MulMono(fz + 1, w / stride, stride);
      MulDistribute(fz, 1, stride);
    }
  }

  lemma NextStep(f: nat, stride: nat)
    requires stride > 0
    ensures Times(f + 1, stride) == Times(f, stride) + stride && Times(0, stride) == 0
    ensures Times(f, stride) / stride == f
  {
    MulDistribute(f, 1, stride);
    DivModUnique(Times(f, stride), f, 0, stride);
  }

  lemma PastSubPlanes(stride: nat)
    requires stride > 0
    ensures Times(stride, stride) / stride == stride
  {
    DivModUnique(Times(stride, stride), stride, 0, stride);
  }

  lemma StartOfFold(a: array4<int>, p: Tensor, stride: nat, subs: nat)
    requires stride > 0
    requires Folded(p, stride, subs).n == a.Length0 && Folded(p, stride, subs).c == a.Length1
    requires Folded(p, stride, subs).h == a.Length2 && Folded(p, stride, subs).w == a.Length3
    requires forall m, q, y, z
               | 0 <= m < a.Length0 && 0 <= q < a.Length1 && 0 <= y < a.Length2 && 0 <= z < a.Length3 ::
               a[m, q, y, z] == 0
    ensures FoldedTo(a, p, stride, subs, 0, 0, 0)
  {
  }

  /** A column, a row or the whole tensor done. */
  lemma FoldCarries(a: array4<int>, p: Tensor, stride: nat, subs: nat, fy: nat, fz: nat)
    requires stride > 0
    ensures FoldedTo(a, p, stride, subs, fy, fz, subs) ==> FoldedTo(a, p, stride, subs, fy, fz + 1, 0)
    ensures fz >= p.w / stride && FoldedTo(a, p, stride, subs, fy, fz, 0) ==> FoldedTo(a, p, stride, subs, fy + 1, 0, 0)
    ensures fy >= p.h / stride && FoldedTo(a, p, stride, subs, fy, 0, 0) ==> Holds(a, Folded(p, stride, subs))
  {
    hide Index, Times;
    var t := Folded(p, stride, subs);
    forall m, q, y, z | p.c == 0 && 0 <= m < t.n && 0 <= q < t.c && 0 <= y < t.h && 0 <= z < t.w
      ensures t.At(m, q, y, z) == 0
    {
    }
    if p.c > 0 {
      forall m, q, y, z | 0 <= m < t.n && 0 <= q < t.c && 0 <= y < t.h && 0 <= z < t.w && q / p.c >= subs
        ensures t.At(m, q, y, z) == 0
      {
      }
    }
  }

  /** The loops of both folds. */
  method FoldPlanes(p: Tensor, stride: nat, subs: nat) returns (r: Result<array4<int>>)
    requires stride > 0 && p.h % stride == 0 && subs > 0
    ensures r.Ok? <==> Fits(p, stride, subs)
    ensures r.Ok? ==> Holds(r.value, Folded(p, stride, subs))
  {
    hide Index, Times, FoldedTo, Holds, FoldedEntry;
    DivNonNegative(p.h, stride);
    DivNonNegative(p.w, stride);
    var a := new int[p.n, Times(Times(stride, stride), p.c), p.h / stride, p.w / stride]((_, _, _, _) => 0);
    StartOfFold(a, p, stride, subs);
    var h: nat := 0;
    ghost var fy: nat := 0;
    NextStep(0, stride);
    while h < p.h
      invariant h == Times(fy, stride)
      invariant FoldedTo(a, p, stride, subs, fy, 0, 0)
      invariant h > 0 && p.w > 0 ==> p.w % stride == 0 && (subs <= Times(stride, stride) || h < p.h)
    {
      var w: nat := 0;
      ghost var fz: nat := 0;
      NextStep(fy, stride);
      while w < p.w
        invariant w == Times(fz, stride)
        invariant FoldedTo(a, p, stride, subs, fy, fz, 0)
        invariant w > 0 ==> fz <= p.w / stride && (subs <= Times(stride, stride) || h + stride < p.h)
      {
        NextStep(fz, stride);
        var foldedH: nat := h / stride;
        var foldedW: nat := w / stride;
        for i := 0 to subs
          invariant FoldedTo(a, p, stride, subs, fy, fz, i)
          invariant i > 0 ==> fz < p.w / stride
          invariant i > Times(stride, stride) ==> h + stride < p.h
        {
          if Fits(p, stride, subs) {
            IterationFits(p, stride, subs, fy, fz, i);
          }
          PastSubPlanes(stride);
          var ok := FoldSubPlane(a, p, stride, subs, foldedH, foldedW, h, w, i);
          if !ok {
            return Fatal;
          }
        }
        FoldCarries(a, p, stride, subs, fy, fz);
        w := w + stride;
        fz := fz + 1;
      }
      LastColumnFits(p.w, stride, fz);
      FoldCarries(a, p, stride, subs, fy, fz);
      h := h + stride;
      fy := fy + 1;
    }
    LastColumnFits(p.h, stride, fy);
    FoldCarries(a, p, stride, subs, fy, 0);
    r := Ok(a);
  }

  // ----- the folded arrays, in terms of what was folded

  /** Channel c of sub-plane (a, b), at its place in the folded activation. */
  ghost predicate ActivationEntry(r: array4<int>, x: Tensor, padH: nat, padW: nat, s: nat, n: nat, a: nat, b: nat,
                                  c: nat, y: nat, z: nat)
    requires n < r.Length0 && y < r.Length2 && z < r.Length3
    reads r
  {
    var q := (a * s + b) * NearestY(x.c, 4) + c;
    0 <= q < r.Length1 && r[n, q, y, z] == x.AtOrZero(n, c, y * s + a - padH, z * s + b - padW)
  }

  /** The folded activation: `s` by `s` sub-planes of the zero-padded one, its channels filled up to a multiple of 4. */
  ghost predicate IsFoldedActivation(r: array4<int>, x: Tensor, padH: nat, padW: nat, s: nat)
    requires s > 0
    reads r
  {
    && r.Length0 == x.n && r.Length1 == NearestY(x.c, 4) * s * s
    && r.Length2 == (x.h + 2 * padH) / s && r.Length3 == (x.w + 2 * padW) / s
    && forall n, a, b, c, y, z | 0 <= n < x.n && 0 <= a < s && 0 <= b < s && 0 <= c < NearestY(x.c, 4)
         && 0 <= y < r.Length2 && 0 <= z < r.Length3 ::
         ActivationEntry(r, x, padH, padW, s, n, a, b, c, y, z)
  }

  /** Tap (y * s + a, z * s + b) of the filter, at its place in the folded one; zero from the fifth sub-plane on. */
  ghost predicate FilterEntry(r: array4<int>, f: Tensor, s: nat, k: nat, a: nat, b: nat, c: nat, y: nat, z: nat)
    requires k < r.Length0 && y < r.Length2 && z < r.Length3
    reads r
  {
    var q := (a * s + b) * NearestY(f.c, 4) + c;
    0 <= q < r.Length1 && r[k, q, y, z] == if a * s + b < 4 then f.AtOrZero(k, c, y * s + a, z * s + b) else 0
  }

  ghost predicate IsFoldedFilter(r: array4<int>, f: Tensor, s: nat)
    requires s > 0
    reads r
  {
    && r.Length0 == f.n && r.Length1 == NearestY(f.c, 4) * s * s
    && r.Length2 == NearestY(f.h, s) / s && r.Length3 == NearestY(f.w, s) / s
    && forall k, a, b, c, y, z | 0 <= k < f.n && 0 <= a < s && 0 <= b < s && 0 <= c < NearestY(f.c, 4)
         && 0 <= y < r.Length2 && 0 <= z < r.Length3 ::
         FilterEntry(r, f, s, k, a, b, c, y, z)
  }

  lemma ChannelCount(s: nat, channels: nat)
    ensures Times(Times(s, s), channels) == channels * s * s
  {
    MulAssoc(channels, s, s);
  }

  lemma FoldedActivationShape(r: array4<int>, x: Tensor, padH: nat, padW: nat, s: nat)
    requires s > 0 && Holds(r, FoldedActivation(x, padH, padW, s))
    requires (x.h + 2 * padH) % s == 0 && (x.h + 2 * padH == 0 || (x.w + 2 * padW) % s == 0)
    ensures IsFoldedActivation(r, x, padH, padW, s)
  {
    hide Index, Times, Folded, NearestY, FoldedEntry;
    var p, channels := PaddedActivation(x, padH, padW), NearestY(x.c, 4);
    NearestIsLeast(x.c, 4);
    ChannelCount(s, channels);
    FoldedDims(p, s, Times(s, s));
    forall n, a, b, c, y, z | 0 <= n < x.n && 0 <= a < s && 0 <= b < s && 0 <= c < channels
      && 0 <= y < r.Length2 && 0 <= z < r.Length3
      ensures ActivationEntry(r, x, padH, padW, s, n, a, b, c, y, z)
    {
      FoldedAt(p, s, Times(s, s), n, a, b, c, y, z);
      IndexBelow(a, b, s);
      PlaceOfChannel(s, channels, a, b, c);
      assert p.AtOrZero(n, c, y * s + a, z * s + b) == x.AtOrZero(n, c, y * s + a - padH, z * s + b - padW);
    }
  }

  lemma FoldedDims(p: Tensor, s: nat, subs: nat)
    requires s > 0
    ensures p.h / s >= 0 && p.w / s >= 0
    ensures var t := Folded(p, s, subs);
            t.n == p.n && t.c == Times(Times(s, s), p.c) && t.h == p.h / s && t.w == p.w / s
  {
    DivNonNegative(p.h, s);
    DivNonNegative(p.w, s);
  }

  lemma PlaceOfChannel(s: nat, channels: nat, a: nat, b: nat, c: nat)
    requires a < s && b < s && c < channels
    ensures Index(Index(a, s, b), channels, c) == (a * s + b) * channels + c < Times(Times(s, s), channels)
  {
    ChannelDigits(s, channels, a, b, c);
  }

  lemma FoldedFilterShape(r: array4<int>, f: Tensor, s: nat)
    requires s > 0 && Holds(r, FoldedFilter(f, s))
    ensures IsFoldedFilter(r, f, s)
  {
    hide Index, Times, Folded, NearestY, FoldedEntry;
    var p, channels := PaddedFilter(f, s), NearestY(f.c, 4);
    NearestIsLeast(f.c, 4);
    NearestIsLeast(f.h, s);
    NearestIsLeast(f.w, s);
    ChannelCount(s, channels);
    FoldedDims(p, s, 4);
    forall k, a, b, c, y, z | 0 <= k < f.n && 0 <= a < s && 0 <= b < s && 0 <= c < channels
      && 0 <= y < r.Length2 && 0 <= z < r.Length3
      ensures FilterEntry(r, f, s, k, a, b, c, y, z)
    {
      FoldedAt(p, s, 4, k, a, b, c, y, z);
      PlaceOfChannel(s, channels, a, b, c);
      SubPlaneNumber(a, s, b);
      assert p.AtOrZero(k, c, y * s + a, z * s + b) == f.AtOrZero(k, c, y * s + a, z * s + b);
    }
  }

  lemma SubPlaneNumber(a: nat, s: nat, b: nat)
    ensures Index(a, s, b) == a * s + b >= 0
  {
  }

  /** Folded arrays of one activation and filter fit together, and their unit-stride result keeps its size. */
  lemma FoldedArraysMatch(u: array4<int>, v: array4<int>, x: Tensor, f: Tensor, padH: nat, padW: nat, s: nat)
    requires s > 0 && x.c == f.c && Divides(x, s, padH, padW)
    requires IsFoldedActivation(u, x, padH, padW, s) && IsFoldedFilter(v, f, s)
    ensures u.Length1 == v.Length1
    ensures OutLength(u.Length2, v.Length2, 1, 0) == OutLength(x.h, f.h, s, padH)
    ensures OutLength(u.Length3, v.Length3, 1, 0) == OutLength(x.w, f.w, s, padW)
  {
    hide NearestY;
    FoldingKeepsLength(x.h, f.h, s, padH);
    FoldingKeepsLength(x.w, f.w, s, padW);
  }

  method PadAndFoldActivation(x: Tensor, padH: nat, padW: nat, strideH: nat, strideW: nat)
    returns (r: Result<array4<int>>)
    ensures r.Ok? <==> (Square(x, strideH, strideW) && (x.h + 2 * padH) % strideH == 0
                        && (x.h + 2 * padH == 0 || x.w + 2 * padW == 0 || (x.w + 2 * padW) % strideH == 0))
    ensures r.Ok? ==> IsFoldedActivation(r.value, x, padH, padW, strideH)
    ensures r.Ok? ==> Holds(r.value, FoldedActivation(x, padH, padW, strideH))
    ensures r.Ok? && x.h > 0 ==> Divides(x, strideH, padH, padW)
  {
    hide Index, Times, Folded, Holds, IsFoldedActivation;
    if strideH != strideW || x.h != x.w {
      return Fatal;
    }
    var padded := PaddedActivation(x, padH, padW);
    if strideH == 0 || padded.h % strideH != 0 {
      return Fatal;
    }
    SquareNotSmaller(strideH);
    r := FoldPlanes(padded, strideH, Times(strideH, strideW));
    if r.Ok? {
      FoldedActivationShape(r.value, x, padH, padW, strideH);
    }
  }

  lemma SquareNotSmaller(stride: nat)
    ensures stride > 0 ==> Times(stride, stride) > 0
    ensures stride >= 2 <==> Times(stride, stride) >= 4
  {
    MulPositive(stride, stride);
    if stride >= 2 {
      MulMono(2, stride, stride);
    }
  }

  method PadAndFoldFilter(f: Tensor, strideH: nat, strideW: nat) returns (r: Result<array4<int>>)
    ensures r.Ok? <==> Square(f, strideH, strideW) && (strideH >= 2 || f.h == 0)
    ensures r.Ok? ==> IsFoldedFilter(r.value, f, strideH)
    ensures r.Ok? ==> Holds(r.value, FoldedFilter(f, strideH))
  {
    hide Index, Times, Folded, Holds, NearestY, IsFoldedFilter;
    if strideH != strideW || f.h != f.w || strideH == 0 {
      return Fatal;
    }
    var padded := PaddedFilter(f, strideH);
    NearestIsLeast(f.h, strideH);
    SquareNotSmaller(strideH);
    r := FoldPlanes(padded, strideH, 4);
    if r.Ok? {
      FoldedFilterShape(r.value, f, strideH);
    }
  }

  // ----- strides other than two

  /** A 3 by 3 filter with its middle tap alone: with stride 3 that tap is in the fifth sub-plane, and is dropped. */
  lemma StrideThreeDropsMiddle()
    ensures var f := Impulse(1, 3, 0, 1, 1);
            !NothingDropped(f, 3) && Foldable(f, 3, f, 0, 0) && !ExactFor(f, 3, f, 0, 0)
  {
    hide ExactFor, IsDropped, NearestY, Divides;
    var f := Impulse(1, 3, 0, 1, 1);
    MiddleIsDropped();
    DroppedTapShows(f, 3, 0, 0, 1, 1);
  }

  lemma MiddleIsDropped()
    ensures IsDropped(3, 1, 1) && NearestY(3, 3) == 3
  {
  }

  /** With stride one no filter that is not empty can be folded. */
  method FoldFilterWithStrideOne(f: Tensor) returns (r: Result<array4<int>>)
    requires f.h == f.w && f.h > 0
    ensures r.Fatal?
  {
    r := PadAndFoldFilter(f, 1, 1);
  }
}
