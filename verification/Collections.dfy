/** Facts about finite sets and sequences that several modules need. */
module Collections {

  ghost predicate Unique<T>(xs: seq<T>) {
    forall i, j :: 0 <= i < j < |xs| ==> xs[i] != xs[j]
  }

  lemma UniqueWith<T>(xs: seq<T>, x: T)
    requires Unique(xs) && x !in xs
    ensures Unique(xs + [x])
  {
  }

  lemma SubsetFewer<T>(a: set<T>, b: set<T>)
    requires a <= b
    ensures |a| <= |b| && (|a| == |b| ==> a == b)
  {
    assert b == a + (b - a);
  }
}
