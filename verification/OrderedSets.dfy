/**
 A finite set walked in the order of a strict total order, as `std::set` is walked.
 The order is a parameter: nothing below depends on which one it is.
 */
module OrderedSets {

  ghost predicate StrictTotalOrder<T(!new)>(less: (T, T) -> bool)
  {
    && (forall a :: !less(a, a))
    && (forall a, b :: a != b ==> less(a, b) || less(b, a))
    && (forall a, b, c :: less(a, b) && less(b, c) ==> less(a, c))
  }

  ghost predicate Sorted<T(!new)>(less: (T, T) -> bool, v: seq<T>)
  {
    forall i, j :: 0 <= i < j < |v| ==> less(v[i], v[j])
  }

  predicate IsLeast<T(==)>(less: (T, T) -> bool, s: set<T>, m: T)
  {
    m in s && forall x :: x in s && x != m ==> less(m, x)
  }

  lemma LeastExists<T(!new)>(less: (T, T) -> bool, s: set<T>)
    requires StrictTotalOrder(less) && s != {}
    ensures exists m :: IsLeast(less, s, m)
  {
    var x :| x in s;
    if s == {x} {
      assert IsLeast(less, s, x);
    } else {
      var rest := s - {x};
      assert s == rest + {x};
      LeastExists(less, rest);
      var m :| IsLeast(less, rest, m);
      assert IsLeast(less, s, if less(m, x) then m else x);
    }
  }

  /** The elements of `s` from the least to the greatest. */
  function InOrder<T(==, !new)>(less: (T, T) -> bool, s: set<T>): (v: seq<T>)
    requires StrictTotalOrder(less)
    ensures |v| == |s|
    ensures forall x :: x in v <==> x in s
    ensures Sorted(less, v)
    decreases |s|
  {
    if s == {} then []
    else
      LeastExists(less, s);
      var m :| IsLeast(less, s, m);
      [m] + InOrder(less, s - {m})
  }

  /** A sorted sequence is determined by its elements. */
  lemma SortedUnique<T(!new)>(less: (T, T) -> bool, v: seq<T>, w: seq<T>)
    requires StrictTotalOrder(less)
    requires Sorted(less, v) && Sorted(less, w)
    requires forall x :: x in v <==> x in w
    ensures v == w
  {
    assert (v != [] ==> v[0] in w) && (w != [] ==> w[0] in v);
    if v != [] && w != [] {
      assert v[0] in w && w[0] in v;
      assert v[0] == w[0];
      forall x
        ensures x in v[1..] <==> x in w[1..]
      {
        assert x in v <==> x == v[0] || x in v[1..];
        assert x in w <==> x == w[0] || x in w[1..];
      }
      SortedUnique(less, v[1..], w[1..]);
    }
  }
}
