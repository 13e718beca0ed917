/** Facts about sequences and sets. */
module Collections {
  ghost predicate NoDuplicates<T>(s: seq<T>) {
    forall i, j | 0 <= i < j < |s| :: s[i] != s[j]
  }

  lemma SubsetCardinality<T>(a: set<T>, b: set<T>)
    requires a <= b
    ensures |a| <= |b|
  {
    assert b == a + (b - a);
  }

  lemma SmallerSet<T>(a: set<T>, b: set<T>, x: T)
    requires a <= b && x in b && x !in a
    ensures |a| < |b|
  {
    SubsetCardinality(a, b - {x});
  }

  /** The elements of `s` taken in one after the other, the first one as it is. */
  ghost function Fold<T>(f: (T, T) -> T, s: seq<T>): T
    requires s != []
  {
    if |s| == 1 then s[0] else f(Fold(f, s[..|s| - 1]), s[|s| - 1])
  }
}
