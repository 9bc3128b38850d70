/** Finite sums of integers, and the rearrangements of them that a convolution goes through. */
module Sums {
  import opened Arith

  function Sum(n: nat, f: int -> int): int
  {
    if n == 0 then 0 else Sum(n - 1, f) + f(n - 1)
  }

  function Sum2(a: nat, b: nat, t: int -> int -> int): int
  {
    if a == 0 then 0 else Sum2(a - 1, b, t) + Sum(b, t(a - 1))
  }

  function Sum3(a: nat, b: nat, c: nat, t: int -> int -> int -> int): int
  {
    if a == 0 then 0 else Sum3(a - 1, b, c, t) + Sum2(b, c, t(a - 1))
  }

  // ----- term by term

  lemma {:induction false} SumSame(n: nat, f: int -> int, g: int -> int)
    requires forall i :: 0 <= i < n ==> f(i) == g(i)
    ensures Sum(n, f) == Sum(n, g)
  {
    if n > 0 {
      SumSame(n - 1, f, g);
    }
  }

  lemma {:induction false} Sum2Same(a: nat, b: nat, t: int -> int -> int, u: int -> int -> int)
    requires forall i, j :: 0 <= i < a && 0 <= j < b ==> t(i)(j) == u(i)(j)
    ensures Sum2(a, b, t) == Sum2(a, b, u)
  {
    if a > 0 {
      Sum2Same(a - 1, b, t, u);
      SumSame(b, t(a - 1), u(a - 1));
    }
  }

  lemma {:induction false} Sum3Same(a: nat, b: nat, c: nat, t: int -> int -> int -> int, u: int -> int -> int -> int)
    requires forall i, j, k :: 0 <= i < a && 0 <= j < b && 0 <= k < c ==> t(i)(j)(k) == u(i)(j)(k)
    ensures Sum3(a, b, c, t) == Sum3(a, b, c, u)
  {
    if a > 0 {
      Sum3Same(a - 1, b, c, t, u);
      Sum2Same(b, c, t(a - 1), u(a - 1));
    }
  }

  // ----- terms that are zero

  lemma {:induction false} SumZero(n: nat, f: int -> int)
    requires forall i :: 0 <= i < n ==> f(i) == 0
    ensures Sum(n, f) == 0
  {
    if n > 0 {
      SumZero(n - 1, f);
    }
  }

  /** Terms that are zero beyond the first `n` can be left out. */
  lemma {:induction false} SumZeroTail(n: nat, m: nat, f: int -> int)
    requires n <= m && forall i :: n <= i < m ==> f(i) == 0
    ensures Sum(m, f) == Sum(n, f)
  {
    if n < m {
      SumZeroTail(n, m - 1, f);
    }
  }

  lemma {:induction false} Sum2ZeroTail(b: nat, c: nat, b': nat, c': nat, t: int -> int -> int)
    requires b <= b' && c <= c'
    requires forall j, k :: 0 <= j < b' && 0 <= k < c' && !(j < b && k < c) ==> t(j)(k) == 0
    ensures Sum2(b', c', t) == Sum2(b, c, t)
  {
    if b' > b {
      Sum2ZeroTail(b, c, b' - 1, c', t);
      SumZero(c', t(b' - 1));
    } else if b > 0 {
      Sum2ZeroTail(b - 1, c, b - 1, c', t);
      SumZeroTail(c, c', t(b - 1));
    }
  }

  lemma NoTerms(c: nat, t: int -> int -> int)
    ensures Sum2(0, c, t) == 0
  {
  }

  lemma {:induction false} Sum3ZeroTail(a: nat, b: nat, c: nat, a': nat, b': nat, c': nat, t: int -> int -> int -> int)
    requires a <= a' && b <= b' && c <= c'
    requires forall i, j, k :: 0 <= i < a' && 0 <= j < b' && 0 <= k < c' && !(i < a && j < b && k < c) ==>
      t(i)(j)(k) == 0
    ensures Sum3(a', b', c', t) == Sum3(a, b, c, t)
  {
    hide Sum2;
    if a' > a {
      Sum3ZeroTail(a, b, c, a' - 1, b', c', t);
      Sum2ZeroTail(0, c, b', c', t(a' - 1));
      NoTerms(c, t(a' - 1));
    } else if a > 0 {
      Sum3ZeroTail(a - 1, b, c, a - 1, b', c', t);
      Sum2ZeroTail(b, c, b', c', t(a - 1));
    }
  }

  // ----- the order of summation

  lemma {:induction false} LastColumn(a: nat, b: nat, t: int -> int -> int, column: int -> int)
    requires b > 0 && forall i :: 0 <= i < a ==> column(i) == t(i)(b - 1)
    ensures Sum2(a, b, t) == Sum2(a, b - 1, t) + Sum(a, column)
  {
    if a > 0 {
      LastColumn(a - 1, b, t, column);
    }
  }

  lemma {:induction false} NoColumns(a: nat, t: int -> int -> int)
    ensures Sum2(a, 0, t) == 0
  {
    if a > 0 {
      NoColumns(a - 1, t);
    }
  }

  /** A sum over a product of ranges, whichever range is outermost. */
  lemma {:induction false} SumSwap(a: nat, b: nat, t: int -> int -> int, u: int -> int -> int)
    requires forall i, j :: 0 <= i < a && 0 <= j < b ==> t(i)(j) == u(j)(i)
    ensures Sum2(a, b, t) == Sum2(b, a, u)
  {
    if a == 0 {
      NoColumns(b, u);
    } else {
      SumSwap(a - 1, b, t, u);
      LastColumn(b, a, u, t(a - 1));
    }
  }

  /** Sums of sums, named. */
  lemma {:induction false} Sum2Outer(a: nat, b: nat, t: int -> int -> int, f: int -> int)
    requires forall i :: 0 <= i < a ==> f(i) == Sum(b, t(i))
    ensures Sum2(a, b, t) == Sum(a, f)
  {
    if a > 0 {
      Sum2Outer(a - 1, b, t, f);
    }
  }

  lemma {:induction false} Sum3Outer(a: nat, b: nat, c: nat, t: int -> int -> int -> int, f: int -> int)
    requires forall i :: 0 <= i < a ==> f(i) == Sum2(b, c, t(i))
    ensures Sum3(a, b, c, t) == Sum(a, f)
  {
    if a > 0 {
      Sum3Outer(a - 1, b, c, t, f);
    }
  }

  lemma {:induction false} Sum3Inner(a: nat, b: nat, c: nat, t: int -> int -> int -> int, f: int -> int -> int)
    requires forall i, j :: 0 <= i < a && 0 <= j < b ==> f(i)(j) == Sum(c, t(i)(j))
    ensures Sum3(a, b, c, t) == Sum2(a, b, f)
  {
    if a > 0 {
      Sum3Inner(a - 1, b, c, t, f);
      Sum2Outer(b, c, t(a - 1), f(a - 1));
    }
  }

  /** The innermost range taken outermost. */
  lemma Sum3Rotate(a: nat, b: nat, c: nat, t: int -> int -> int -> int, u: int -> int -> int -> int)
    requires forall i, j, k :: 0 <= i < a && 0 <= j < b && 0 <= k < c ==> t(i)(j)(k) == u(k)(i)(j)
    ensures Sum3(a, b, c, t) == Sum3(c, a, b, u)
  {
    // first swap the last two ranges, then the first two
    var m := i => k => j => t(i)(j)(k);
    forall i | 0 <= i < a
      ensures Sum2(b, c, t(i)) == Sum2(c, b, m(i))
    {
      SumSwap(b, c, t(i), m(i));
    }
    var rows := i => Sum2(c, b, m(i));
    Sum3Outer(a, b, c, t, rows);
    Sum3Outer(a, c, b, m, rows);
    var ik := i => k => Sum(b, m(i)(k));
    var ki := k => i => Sum(b, u(k)(i));
    Sum3Inner(a, c, b, m, ik);
    Sum3Inner(c, a, b, u, ki);
    forall i, k | 0 <= i < a && 0 <= k < c
      ensures ik(i)(k) == ki(k)(i)
    {
      SumSame(b, m(i)(k), u(k)(i));
    }
    SumSwap(a, c, ik, ki);
  }

  // ----- flat indices

  lemma {:induction false} SumTail(n: nat, b: nat, f: int -> int, g: int -> int)
    requires forall j :: 0 <= j < b ==> g(j) == f(n + j)
    ensures Sum(n + b, f) == Sum(n, f) + Sum(b, g)
  {
    if b > 0 {
      SumTail(n, b - 1, f, g);
    }
  }

  /** A sum over `a * b` indices, taken as `a` groups of `b`. */
  lemma {:induction false} SumSplit(a: nat, b: nat, f: int -> int, t: int -> int -> int)
    requires forall i, j :: 0 <= i < a && 0 <= j < b ==> t(i)(j) == f(Index(i, b, j))
    ensures Sum(Times(a, b), f) == Sum2(a, b, t)
  {
    hide Index, Times, Sum;
    GroupBounds(a, b, 0);
    if a == 0 {
      SumZero(0, f);
    } else {
      SumSplit(a - 1, b, f, t);
      var last, start := t(a - 1), Times(a - 1, b);
      forall j | 0 <= j < b
        ensures last(j) == f(start + j)
      {
        GroupBounds(a, b, j);
      }
      SumTail(start, b, f, last);
    }
  }

  lemma GroupBounds(a: nat, b: nat, j: nat)
    ensures Times(0, b) == 0
    ensures a > 0 ==> Times(a, b) == Times(a - 1, b) + b && Index(a - 1, b, j) == Times(a - 1, b) + j
  {
    if a > 0 {
      MulDistribute(a - 1, 1, b);
    }
  }

  /** A sum over flat indices is the sum over their three digits. */
  lemma SumFlat3(a: nat, b: nat, c: nat, f: int -> int, t: int -> int -> int -> int)
    requires forall i, j, k :: 0 <= i < a && 0 <= j < b && 0 <= k < c ==> t(i)(j)(k) == f(Index(Index(i, b, j), c, k))
    ensures Sum(Times(Times(a, b), c), f) == Sum3(a, b, c, t)
  {
    hide Index, Times;
    var flat := q => k => if q >= 0 && k >= 0 then f(Index(q, c, k)) else 0;
    SumSplit(Times(a, b), c, f, flat);
    var inner := q => Sum(c, flat(q));
    Sum2Outer(Times(a, b), c, flat, inner);
    var sums := i => j => if i >= 0 && j >= 0 then inner(Index(i, b, j)) else 0;
    SumSplit(a, b, inner, sums);
    forall i, j | 0 <= i < a && 0 <= j < b
      ensures sums(i)(j) == Sum(c, t(i)(j))
    {
      SumSame(c, flat(Index(i, b, j)), t(i)(j));
    }
    Sum3Inner(a, b, c, t, sums);
  }

  // ----- strided sub-planes

  /** A plane summed over its sub-planes: those of the cells with the same row and column modulo `s`. */
  lemma SumOfSubPlanes(s: nat, h: nat, w: nat, cells: int -> int -> int -> int, plane: int -> int -> int)
    requires forall a, b, i, j :: 0 <= a < s && 0 <= b < s && 0 <= i < h && 0 <= j < w ==>
      cells(Index(a, s, b))(i)(j) == plane(Index(i, s, a))(Index(j, s, b))
    ensures Sum3(Times(s, s), h, w, cells) == Sum2(Times(h, s), Times(w, s), plane)
  {
    hide Index, Times, Sum, Sum2, Sum3;
    var sub := q => Sum2(h, w, cells(q));
    Sum3Outer(Times(s, s), h, w, cells, sub);
    var subs := a => b => if a >= 0 && b >= 0 then sub(Index(a, s, b)) else 0;
    SumSplit(s, s, sub, subs);

    var line := r => Sum(Times(w, s), plane(r));
    var lines := i => a => if i >= 0 && a >= 0 then line(Index(i, s, a)) else 0;
    Sum2Outer(Times(h, s), Times(w, s), plane, line);
    SumSplit(h, s, line, lines);

    var linesOf := a => i => lines(i)(a);
    SumSwap(s, h, linesOf, lines);
    var byRow := a => Sum(h, linesOf(a));
    Sum2Outer(s, h, linesOf, byRow);
    forall a | 0 <= a < s
      ensures byRow(a) == Sum(s, subs(a))
    {
      SumOfSubRows(s, h, w, a, cells, plane, linesOf(a), subs(a));
    }
    Sum2Outer(s, s, subs, byRow);
  }

  lemma SumOfSubRows(s: nat, h: nat, w: nat, a: nat, cells: int -> int -> int -> int, plane: int -> int -> int,
                     lines: int -> int, subs: int -> int)
    requires a < s
    requires forall b, i, j :: 0 <= b < s && 0 <= i < h && 0 <= j < w ==>
      cells(Index(a, s, b))(i)(j) == plane(Index(i, s, a))(Index(j, s, b))
    requires forall b :: 0 <= b < s ==> subs(b) == Sum2(h, w, cells(Index(a, s, b)))
    requires forall i :: 0 <= i < h ==> lines(i) == Sum(Times(w, s), plane(Index(i, s, a)))
    ensures Sum(s, subs) == Sum(h, lines)
  {
    hide Index, Times, Sum, Sum2, Sum3;
    var t := b => i => j => if b >= 0 then cells(Index(a, s, b))(i)(j) else 0;
    var u := i => j => b => t(b)(i)(j);
    forall b | 0 <= b < s
      ensures subs(b) == Sum2(h, w, t(b))
    {
      Sum2Same(h, w, t(b), cells(Index(a, s, b)));
    }
    Sum3Outer(s, h, w, t, subs);
    Sum3Rotate(h, w, s, u, t);
    forall i | 0 <= i < h
      ensures lines(i) == Sum2(w, s, u(i))
    {
      SumSplit(w, s, plane(Index(i, s, a)), u(i));
    }
    Sum3Outer(h, w, s, u, lines);
  }

  /** Planes folded depthwise: every sub-plane of every channel, channel by channel within a sub-plane. */
  lemma SumOfFoldedPlanes(s: nat, c: nat, h: nat, w: nat, folded: int -> int -> int -> int, t: int -> int -> int -> int)
    requires forall a, b, k, i, j :: 0 <= a < s && 0 <= b < s && 0 <= k < c && 0 <= i < h && 0 <= j < w ==>
      folded(Index(Index(a, s, b), c, k))(i)(j) == t(k)(Index(i, s, a))(Index(j, s, b))
    ensures Sum3(Times(Times(s, s), c), h, w, folded) == Sum3(c, Times(h, s), Times(w, s), t)
  {
    hide Index, Times, Sum, Sum2, Sum3;
    var m := Times(s, s);
    var sheet := q => Sum2(h, w, folded(q));
    Sum3Outer(Times(m, c), h, w, folded, sheet);
    var sheets := q => k => if q >= 0 && k >= 0 then sheet(Index(q, c, k)) else 0;
    SumSplit(m, c, sheet, sheets);
    var channels := k => q => sheets(q)(k);
    SumSwap(m, c, sheets, channels);
    var channel := k => Sum(m, channels(k));
    Sum2Outer(c, m, channels, channel);
    forall k | 0 <= k < c
      ensures channel(k) == Sum2(Times(h, s), Times(w, s), t(k))
    {
      SumOfChannel(s, c, h, w, k, folded, t(k), channels(k));
    }
    Sum3Outer(c, Times(h, s), Times(w, s), t, channel);
  }

  lemma SumOfChannel(s: nat, c: nat, h: nat, w: nat, k: nat, folded: int -> int -> int -> int,
                     plane: int -> int -> int, sheets: int -> int)
    requires k < c
    requires forall a, b, i, j :: 0 <= a < s && 0 <= b < s && 0 <= i < h && 0 <= j < w ==>
      folded(Index(Index(a, s, b), c, k))(i)(j) == plane(Index(i, s, a))(Index(j, s, b))
    requires forall q :: 0 <= q < Times(s, s) ==> sheets(q) == Sum2(h, w, folded(Index(q, c, k)))
    ensures Sum(Times(s, s), sheets) == Sum2(Times(h, s), Times(w, s), plane)
  {
    hide Index, Times, Sum, Sum2, Sum3;
    var cells := q => i => j => if q >= 0 then folded(Index(q, c, k))(i)(j) else 0;
    SumOfSubPlanes(s, h, w, cells, plane);
    forall q | 0 <= q < Times(s, s)
      ensures sheets(q) == Sum2(h, w, cells(q))
    {
      Sum2Same(h, w, cells(q), folded(Index(q, c, k)));
    }
    Sum3Outer(Times(s, s), h, w, cells, sheets);
  }

  // ----- a single term

  lemma {:induction false} SumSingle(n: nat, k: nat, f: int -> int)
    requires k < n && forall i :: 0 <= i < n && i != k ==> f(i) == 0
    ensures Sum(n, f) == f(k)
  {
    if k == n - 1 {
      SumZero(n - 1, f);
    } else {
      SumSingle(n - 1, k, f);
    }
  }

  lemma Sum3Zero(a: nat, b: nat, c: nat, t: int -> int -> int -> int)
    requires forall i, j, k :: 0 <= i < a && 0 <= j < b && 0 <= k < c ==> t(i)(j)(k) == 0
    ensures Sum3(a, b, c, t) == 0
  {
    Sum3ZeroTail(0, b, c, a, b, c, t);
  }

  /** A sum with one term that may not be zero. */
  lemma Sum3Single(a: nat, b: nat, c: nat, i: nat, j: nat, k: nat, t: int -> int -> int -> int)
    requires i < a && j < b && k < c
    requires forall i', j', k' | 0 <= i' < a && 0 <= j' < b && 0 <= k' < c && (i' != i || j' != j || k' != k) ::
      t(i')(j')(k') == 0
    ensures Sum3(a, b, c, t) == t(i)(j)(k)
  {
    hide Sum, Sum2, Sum3;
    var f := p => Sum2(b, c, t(p));
    forall p | 0 <= p < a && p != i
      ensures f(p) == 0
    {
      Sum2ZeroTail(0, c, b, c, t(p));
      NoTerms(c, t(p));
    }
    Sum3Outer(a, b, c, t, f);
    SumSingle(a, i, f);
    var g := q => Sum(c, t(i)(q));
    forall q | 0 <= q < b && q != j
      ensures g(q) == 0
    {
      SumZero(c, t(i)(q));
    }
    Sum2Outer(b, c, t(i), g);
    SumSingle(b, j, g);
    SumSingle(c, k, t(i)(j));
  }
}
