/**
 * The similarity score of a candidate pair: the overlap of the two finds'
 * de-duplicated CoinGroups tuples, |S1 ∩ S2| / (|S1| + |S2| - |S1 ∩ S2|) * 100,
 * and 0 when the denominator is 0.
 */
module Overlap {

  function Percentage<T>(s1: set<T>, s2: set<T>): real {
    var common := |s1 * s2|;
    var total := |s1| + |s2| - common;
    if total > 0 then common as real / total as real * 100.0 else 0.0
  }

  /** The denominator `len(groups1) + len(groups2) - len(merged)` is the size of the union. */
  lemma UnionSize<T>(s1: set<T>, s2: set<T>)
    ensures |s1| + |s2| - |s1 * s2| == |s1 + s2|
  {
  }

  lemma {:induction false} SubsetSize<T>(a: set<T>, b: set<T>)
    requires a <= b
    ensures |a| <= |b|
    decreases a
  {
    if a != {} {
      var x :| x in a;
      SubsetSize(a - {x}, b - {x});
    }
  }

  /** The score is the Jaccard ratio of the two sets, as a percentage. */
  lemma IsJaccard<T>(s1: set<T>, s2: set<T>)
    ensures s1 + s2 != {} ==> Percentage(s1, s2) == |s1 * s2| as real / |s1 + s2| as real * 100.0
    ensures s1 + s2 == {} ==> Percentage(s1, s2) == 0.0
  {
    UnionSize(s1, s2);
  }

  /** The score lies in [0, 100] and is positive exactly when the two sets meet. */
  lemma Bounds<T>(s1: set<T>, s2: set<T>)
    ensures 0.0 <= Percentage(s1, s2) <= 100.0
    ensures Percentage(s1, s2) > 0.0 <==> s1 * s2 != {}
  {
    UnionSize(s1, s2);
    var common, total := |s1 * s2|, |s1 + s2|;
    SubsetSize(s1 * s2, s1 + s2);
    if s1 * s2 != {} {
      assert common > 0;
    }
    if total > 0 {
      assert common as real / total as real <= 1.0;
    }
  }

  /** The score does not depend on which find of the pair comes first. */
  lemma Symmetric<T>(s1: set<T>, s2: set<T>)
    ensures Percentage(s1, s2) == Percentage(s2, s1)
  {
    assert s1 * s2 == s2 * s1;
  }

  /** A non-empty set scores 100 against itself. */
  lemma EqualScoresHundred<T>(s: set<T>)
    requires s != {}
    ensures Percentage(s, s) == 100.0
  {
    assert s * s == s;
    var n := |s| as real;
    assert |s| + |s| - |s| == |s|;
    assert n / n == 1.0;
  }

  /** Disjoint sets score 0. */
  lemma DisjointScoresZero<T>(s1: set<T>, s2: set<T>)
    requires s1 * s2 == {}
    ensures Percentage(s1, s2) == 0.0
  {
  }
}
