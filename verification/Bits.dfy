/**
 Unsigned words as natural numbers: powers of two, bitwise or, and words as rows of equally wide digits.
 A left shift by k is a product with 2^k, a right shift a quotient, a mask of the low k bits a remainder.
 */
module Bits {
  import opened Arith

  function Pow2(n: nat): (p: nat)
    ensures p > 0
  {
    if n == 0 then 1 else 2 * Pow2(n - 1)
  }

  lemma {:induction false} Pow2Add(a: nat, b: nat)
    ensures Pow2(a + b) == Pow2(a) * Pow2(b)
  {
    if a > 0 {
      Pow2Add(a - 1, b);
      assert Pow2(a + b) == 2 * Pow2(a - 1 + b);
      MulAssoc(2, Pow2(a - 1), Pow2(b));
    }
  }

  lemma {:induction false} Pow2Mono(a: nat, b: nat)
    requires a <= b
    ensures Pow2(a) <= Pow2(b)
  {
    if a < b {
      Pow2Mono(a, b - 1);
    }
  }

  lemma Pow2Half(a: nat)
    requires a > 0
    ensures Pow2(a) == 2 * Pow2(a - 1) && Pow2(a) / 2 == Pow2(a - 1)
  {
  }

  function Shl(a: nat, k: nat): nat
  {
    MulPositive(a, Pow2(k));
    a * Pow2(k)
  }

  function Shr(a: nat, k: nat): nat
  {
    DivNonNegative(a, Pow2(k));
    a / Pow2(k)
  }

  lemma ShrShr(a: nat, j: nat, k: nat)
    ensures Shr(Shr(a, j), k) == Shr(a, j + k)
  {
    DivDiv(a, Pow2(j), Pow2(k));
    Pow2Add(j, k);
  }

  lemma ShrNone(a: nat)
    ensures Shr(a, 0) == a
  {
  }

  lemma ShlNone(a: nat)
    ensures Shl(a, 0) == a
  {
  }

  lemma ShlOnce(a: nat, k: nat)
    ensures Shl(a, k + 1) == 2 * Shl(a, k) && Shl(2 * a, k) == 2 * Shl(a, k)
  {
    MulAssoc(2, a, Pow2(k));
    assert a * (2 * Pow2(k)) == 2 * (a * Pow2(k));
  }

  lemma {:induction false} ShlMono(a: nat, j: nat, k: nat)
    requires j <= k
    ensures Shl(a, j) <= Shl(a, k)
  {
    Pow2Mono(j, k);
    MulMono(Pow2(j), Pow2(k), a);
  }

  lemma ShlAtLeast(a: nat, k: nat)
    requires a > 0
    ensures Shl(a, k) >= Pow2(k)
  {
    MulMono(1, a, Pow2(k));
  }

  /** The bitwise or of two words. */
  function BitOr(a: nat, b: nat): nat
    decreases a + b
  {
    if a == 0 then b
    else if b == 0 then a
    else 2 * BitOr(a / 2, b / 2) + (if a % 2 == 1 || b % 2 == 1 then 1 else 0)
  }

  /** Or-ing bits into positions that are clear adds them. */
  lemma {:induction false} OrDisjoint(a: nat, k: nat, b: nat)
    requires b < Pow2(k)
    ensures BitOr(a * Pow2(k), b) == a * Pow2(k) + b
  {
    if a > 0 && k > 0 {
      MulAssoc(a, 2, Pow2(k - 1));
      var h := a * Pow2(k - 1);
      assert a * Pow2(k) == 2 * h;
      OrDisjoint(a, k - 1, b / 2);
    }
  }

  lemma OrShifted(a: nat, k: nat, b: nat)
    requires b < Pow2(k)
    ensures BitOr(Shl(a, k), b) == a * Pow2(k) + b
  {
    OrDisjoint(a, k, b);
  }

  lemma {:induction false} OrCommutes(a: nat, b: nat)
    ensures BitOr(a, b) == BitOr(b, a)
    decreases a + b
  {
    if a != 0 && b != 0 {
      OrCommutes(a / 2, b / 2);
    }
  }

  lemma OrZero(a: nat)
    ensures BitOr(a, 0) == a && BitOr(0, a) == a
  {
  }

  /** Or works on the lowest bit and on the rest separately. */
  lemma {:induction false} OrHalves(a: nat, b: nat)
    ensures BitOr(a, b) / 2 == BitOr(a / 2, b / 2)
    ensures BitOr(a, b) % 2 == (if a % 2 == 1 || b % 2 == 1 then 1 else 0)
  {
  }

  lemma {:induction false} OrAssociates(a: nat, b: nat, c: nat)
    ensures BitOr(BitOr(a, b), c) == BitOr(a, BitOr(b, c))
    decreases a + b + c
  {
    hide BitOr;
    OrZero(a);
    OrZero(b);
    OrZero(c);
    OrZero(BitOr(a, b));
    OrZero(BitOr(b, c));
    if a != 0 && b != 0 && c != 0 {
      OrHalves(a, b);
      OrHalves(b, c);
      OrHalves(BitOr(a, b), c);
      OrHalves(a, BitOr(b, c));
      OrAssociates(a / 2, b / 2, c / 2);
    }
  }

  // ----- words made of digits

  /** The word whose digits in base `base` are `ds`, the first of them least significant. */
  function FromDigits(ds: seq<nat>, base: nat): nat
  {
    if ds == [] then 0 else ds[0] + base * FromDigits(ds[1..], base)
  }

  ghost predicate AreDigits(ds: seq<nat>, base: nat)
  {
    forall i :: 0 <= i < |ds| ==> ds[i] < base
  }

  function Pow(base: nat, n: nat): (p: nat)
    ensures base > 0 ==> p > 0
  {
    if n == 0 then 1 else
      MulPositive(base, Pow(base, n - 1));
      base * Pow(base, n - 1)
  }

  /** Digit `i` of a word: shift it down, mask the rest away. */
  function Digit(word: nat, base: nat, i: nat): nat
    requires base > 0
  {
    (word / Pow(base, i)) % base
  }

  lemma {:induction false} DigitOf(ds: seq<nat>, base: nat, i: nat)
    requires AreDigits(ds, base) && i < |ds|
    ensures base > 0 && Digit(FromDigits(ds, base), base, i) == ds[i]
  {
    assert ds[0] < base;
    var rest := FromDigits(ds[1..], base);
    assert FromDigits(ds, base) == rest * base + ds[0] by {
      assert rest * base == base * rest;
    }
    DivModUnique(FromDigits(ds, base), rest, ds[0], base);
    if i > 0 {
      DigitOf(ds[1..], base, i - 1);
      DivDiv(FromDigits(ds, base), base, Pow(base, i - 1));
    }
  }

  lemma {:induction false} DigitsFit(ds: seq<nat>, base: nat)
    requires AreDigits(ds, base)
    ensures FromDigits(ds, base) < Pow(base, |ds|)
  {
    if ds != [] {
      DigitsFit(ds[1..], base);
      var rest, p := FromDigits(ds[1..], base), Pow(base, |ds| - 1);
      IndexInRange(rest, ds[0], p, base);
      assert base * rest == rest * base && base * p == p * base;
    }
  }

  lemma {:induction false} DigitsSnoc(ds: seq<nat>, d: nat, base: nat)
    ensures FromDigits(ds + [d], base) == FromDigits(ds, base) + d * Pow(base, |ds|)
  {
    if ds == [] {
      assert ([d])[1..] == [];
    } else {
      DigitsSnoc(ds[1..], d, base);
      assert (ds + [d])[1..] == ds[1..] + [d];
      var p := Pow(base, |ds| - 1);
      MulDistribute(FromDigits(ds[1..], base), d * p, base);
      assert base * (d * p) == d * (base * p);
    }
  }

  lemma {:induction false} PowOfPow2(k: nat, n: nat)
    ensures Pow(Pow2(k), n) == Pow2(k * n)
  {
    if n > 0 {
      PowOfPow2(k, n - 1);
      Pow2Add(k, k * (n - 1));
      MulDistribute(n - 1, 1, k);
    }
  }
}
