/**
 * The final ordering of the scored pairs: `sorted(results, key=score,
 * reverse=True)`, a stable sort, so pairs of equal score keep the order in
 * which they were generated.
 */
module Ranking {

  /** One output line: the two find IDs and their similarity percentage. */
  datatype ScoredPair = ScoredPair(id1: int, id2: int, score: real)

  ghost predicate NonIncreasing(s: seq<ScoredPair>) {
    forall a, b :: 0 <= a < b < |s| ==> s[a].score >= s[b].score
  }

  /** Puts `x` in front of the first element that does not score strictly higher. */
  function Insert(x: ScoredPair, s: seq<ScoredPair>): (r: seq<ScoredPair>)
    ensures multiset(r) == multiset(s) + multiset{x}
  {
    if s == [] then [x]
    else if s[0].score <= x.score then [x] + s
    else
      assert s == [s[0]] + s[1..];
      [s[0]] + Insert(x, s[1..])
  }

  /** A pair followed by a ranked list is ranked when it scores at least as high as every pair of the list. */
  lemma ConsRanked(h: ScoredPair, t: seq<ScoredPair>)
    requires NonIncreasing(t)
    requires forall e :: e in t ==> e.score <= h.score
    ensures NonIncreasing([h] + t)
  {
    var r := [h] + t;
    forall a, b | 0 <= a < b < |r| ensures r[a].score >= r[b].score {
      assert r[b] == t[b - 1];
      if a > 0 {
        assert r[a] == t[a - 1];
      } else {
        assert t[b - 1] in t;
      }
    }
  }

  /** Inserting into a ranked list keeps it ranked. */
  lemma {:induction false} InsertRanked(x: ScoredPair, s: seq<ScoredPair>)
    requires NonIncreasing(s)
    ensures NonIncreasing(Insert(x, s))
  {
    if s == [] {
    } else if s[0].score <= x.score {
      forall e | e in s ensures e.score <= x.score {
        var k :| 0 <= k < |s| && s[k] == e;
        assert s[0].score >= s[k].score;
      }
      ConsRanked(x, s);
    } else {
      var t := s[1..];
      assert NonIncreasing(t) by {
        forall a, b | 0 <= a < b < |t| ensures t[a].score >= t[b].score {
          assert t[a] == s[a + 1] && t[b] == s[b + 1];
        }
      }
      InsertRanked(x, t);
      var rest := Insert(x, t);
      forall e | e in rest ensures e.score <= s[0].score {
        assert e in multiset(rest);
        assert e == x || e in multiset(t);
        if e != x {
          var k :| 0 <= k < |t| && t[k] == e;
          assert e == s[k + 1];
        }
      }
      ConsRanked(s[0], rest);
    }
  }

  /** Ranks the pairs by descending score; ties keep their input order. */
  function RankByScore(s: seq<ScoredPair>): (r: seq<ScoredPair>)
    ensures NonIncreasing(r)
    ensures multiset(r) == multiset(s)
  {
    if s == [] then []
    else
      assert s == [s[0]] + s[1..];
      var rest := RankByScore(s[1..]);
      InsertRanked(s[0], rest);
      Insert(s[0], rest)
  }

  /** The pairs of `s` whose score is `v`, in their order in `s`. */
  function WithScore(s: seq<ScoredPair>, v: real): seq<ScoredPair> {
    if s == [] then []
    else (if s[0].score == v then [s[0]] else []) + WithScore(s[1..], v)
  }

  /** Filtering a list that starts with `h` filters `h`, then the rest. */
  lemma WithScoreCons(h: ScoredPair, t: seq<ScoredPair>, v: real)
    ensures WithScore([h] + t, v) == (if h.score == v then [h] else []) + WithScore(t, v)
  {
    assert ([h] + t)[1..] == t;
  }

  /** Inserting moves `x` only past pairs that score strictly higher, never past one of its own score. */
  lemma {:induction false} InsertKeepsTies(x: ScoredPair, s: seq<ScoredPair>, v: real)
    ensures WithScore(Insert(x, s), v) == WithScore([x] + s, v)
  {
    if s != [] && s[0].score > x.score {
      var t := s[1..];
      var ins := Insert(x, t);
      assert Insert(x, s) == [s[0]] + ins;
      assert s == [s[0]] + t;
      InsertKeepsTies(x, t, v);
      var hs: seq<ScoredPair> := if s[0].score == v then [s[0]] else [];
      var hx: seq<ScoredPair> := if x.score == v then [x] else [];
      var w := WithScore(t, v);
      WithScoreCons(s[0], ins, v);
      WithScoreCons(x, t, v);
      WithScoreCons(s[0], t, v);
      WithScoreCons(x, s, v);
      assert WithScore(Insert(x, s), v) == hs + (hx + w);
      assert WithScore([x] + s, v) == hx + (hs + w);
      assert hs == [] || hx == [];
    } else {
      assert Insert(x, s) == [x] + s;
    }
  }

  /** The sort is stable: for every score, the pairs with that score appear in their input order. */
  lemma {:induction false} RankKeepsTies(s: seq<ScoredPair>, v: real)
    ensures WithScore(RankByScore(s), v) == WithScore(s, v)
  {
    if s != [] {
      RankKeepsTies(s[1..], v);
      InsertKeepsTies(s[0], RankByScore(s[1..]), v);
      assert ([s[0]] + RankByScore(s[1..]))[1..] == RankByScore(s[1..]);
    }
  }
}
