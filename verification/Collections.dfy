/** Sizes of finite sets, and sequences without repeats. */
module Collections {
  predicate Distinct<T(==)>(s: seq<T>) {
    forall i, j | 0 <= i < j < |s| :: s[i] != s[j]
  }

  lemma SubsetSize<T>(a: set<T>, b: set<T>)
    requires a <= b
    ensures |a| <= |b|
  {
    assert b == a + (b - a);
  }

  lemma SmallerSubset<T>(a: set<T>, b: set<T>, x: T)
    requires a <= b && x in b && x !in a
    ensures |a| < |b|
  {
    SubsetSize(a, b - {x});
  }

  lemma SubsetOfEqualSize<T>(a: set<T>, b: set<T>)
    requires a <= b && |a| == |b|
    ensures a == b
  {
    if x :| x in b && x !in a {
      SubsetSize(a, b - {x});
    }
  }

  lemma DistinctPrefix<T>(xs: seq<T>, i: nat)
    requires i < |xs| && Distinct(xs[..i])
    ensures Distinct(xs[..i + 1]) <==> xs[i] !in xs[..i]
    ensures xs[i] in xs[..i] ==> !Distinct(xs)
    ensures forall x :: x in xs[..i + 1] <==> x in xs[..i] || x == xs[i]
  {
    assert xs[..i + 1] == xs[..i] + [xs[i]];
    if xs[i] in xs[..i] {
      var j :| 0 <= j < i && xs[..i][j] == xs[i];
      assert xs[j] == xs[i] && xs[..i + 1][j] == xs[..i + 1][i];
    }
  }
}
