/** Facts about quotients and remainders that the index arithmetic rests on. */
module Arith {

  lemma MulMono(a: int, b: int, d: nat)
    requires a <= b
    ensures a * d <= b * d
  {
  }

  lemma DivModUnique(a: int, q: int, r: int, d: int)
    requires d > 0 && 0 <= r < d && a == q * d + r
    ensures a / d == q && a % d == r
  {
    var q', r' := a / d, a % d;
    assert a == q' * d + r';
    if q' < q {
      MulMono(q' + 1, q, d);
    } else if q < q' {
      MulMono(q + 1, q', d);
    }
  }

  lemma DivModSplit(a: int, d: int)
    requires d > 0
    ensures a == (a / d) * d + a % d && 0 <= a % d < d
  {
  }

  lemma MulDistribute(a: int, b: int, d: int)
    ensures (a + b) * d == a * d + b * d
    ensures d * (a + b) == d * a + d * b
  {
  }

  /** An index below a product splits into a quotient and a remainder in range. */
  lemma DivInRange(i: int, n: int, d: int)
    requires d > 0 && 0 <= i < n * d
    ensures 0 <= i / d < n && 0 <= i % d < d
  {
    if i / d >= n {
      MulMono(n, i / d, d);
      DivModSplit(i, d);
    }
    if i / d < 0 {
      MulMono(i / d, -1, d);
      DivModSplit(i, d);
    }
  }

  lemma IndexInRange(q: nat, r: nat, n: nat, d: nat)
    requires q < n && r < d
    ensures q * d + r < n * d
  {
    MulMono(q + 1, n, d);
    MulDistribute(q, 1, d);
  }

  lemma MulAssoc(a: int, b: int, c: int)
    ensures (a * b) * c == a * (b * c)
  {
  }

  lemma DivDiv(a: nat, b: nat, c: nat)
    requires b > 0 && c > 0
    ensures b * c > 0 && a / b / c == a / (b * c)
  {
    var q, r := a / b / c, a / b % c;
    DivModSplit(a, b);
    DivModSplit(a / b, c);
    IndexInRange(r, a % b, c, b);
    MulDistribute(q * c, r, b);
    MulAssoc(q, c, b);
    assert c * b == b * c;
    DivModUnique(a, q, r * b + a % b, b * c);
  }

  lemma DivAddMultiple(a: nat, k: nat, d: nat)
    requires d > 0
    ensures (a + k * d) / d == a / d + k
  {
    DivModSplit(a, d);
    MulDistribute(a / d, k, d);
    DivModUnique(a + k * d, a / d + k, a % d, d);
  }

  lemma DivMono(a: int, b: int, d: int)
    requires a <= b && d > 0
    ensures a / d <= b / d
  {
    if b / d < a / d {
      DivModSplit(a, d);
      DivModSplit(b, d);
      MulMono(b / d + 1, a / d, d);
    }
  }

  lemma MulPositive(a: nat, b: nat)
    ensures a * b >= 0 && (a > 0 && b > 0 ==> a * b > 0)
  {
  }

  lemma DivNonNegative(a: nat, b: nat)
    requires b > 0
    ensures a / b >= 0
  {
  }

  /** The product, named so that it can be kept from being multiplied out. */
  function Times(a: nat, b: nat): nat
  {
    a * b
  }

  /** Item `i` of the `n`-th group of `size` items. */
  function Index(n: nat, size: nat, i: nat): nat
  {
    n * size + i
  }

  function Min(a: nat, b: nat): nat { if a <= b then a else b }
  function Max(a: nat, b: nat): nat { if a >= b then a else b }

  /** The largest `size_t`. */
  const SIZE_MAX: nat := 0xFFFF_FFFF_FFFF_FFFF
}
