/** Sequences without repetitions, and sizes of finite sets. */
module Collections {

  ghost predicate NoDuplicates<T(!new)>(s: seq<T>)
  {
    forall i, j :: 0 <= i < j < |s| ==> s[i] != s[j]
  }

  lemma NoDuplicatesConcat<T(!new)>(a: seq<T>, b: seq<T>)
    ensures NoDuplicates(a + b) <==> NoDuplicates(a) && NoDuplicates(b) && forall x :: x in a ==> x !in b
  {
    var ab := a + b;
    if NoDuplicates(ab) {
      assert forall i :: 0 <= i < |a| ==> a[i] == ab[i];
      assert forall j :: 0 <= j < |b| ==> b[j] == ab[|a| + j];
      forall i, j | 0 <= i < |a| && 0 <= j < |b|
        ensures a[i] != b[j]
      {
        assert ab[i] != ab[|a| + j];
      }
    }
    if NoDuplicates(a) && NoDuplicates(b) && forall x :: x in a ==> x !in b {
      forall i, j | 0 <= i < j < |ab|
        ensures ab[i] != ab[j]
      {
        assert i < |a| ==> ab[i] in a;
        assert j >= |a| ==> ab[j] in b;
      }
    }
  }

  lemma SubsetCardinality<T>(a: set<T>, b: set<T>)
    ensures a <= b ==> |a| <= |b|
  {
    if a <= b {
      assert b == a + (b - a);
    }
  }

  lemma PartCardinality<T>(whole: set<T>, part: set<T>)
    requires part <= whole
    ensures |part| <= |whole| && |whole - part| == |whole| - |part|
  {
    assert whole == (whole - part) + part;
  }
}
