/** Facts about finite sets that several proofs count with. */
module Sets {

  ghost predicate IsDistinct<T>(s: seq<T>) {
    forall i, j :: 0 <= i < j < |s| ==> s[i] != s[j]
  }

  lemma SubsetSize<T>(a: set<T>, b: set<T>)
    requires a <= b
    ensures |a| <= |b|
    ensures |a| == |b| ==> a == b
  {
    assert b == a + (b - a);
    assert |b| == |a| + |b - a|;
  }

  lemma AddOne<T>(a: set<T>, b: set<T>, x: T)
    requires a <= b && x !in a
    ensures |a + {x}| == |a| + 1 <= |b| + 1
  {
    SubsetSize(a, b);
  }

  lemma UnionSize<T>(a: set<T>, b: set<T>)
    ensures |a + b| <= |a| + |b|
  {
    assert a + b == a + (b - a);
    SubsetSize(b - a, b);
  }
}
