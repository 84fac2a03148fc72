/**
 * Candidate pairs: `itertools.combinations(indices, 2)` on every bucket,
 * concatenated bucket after bucket (`all_pairs_indices.extend(...)`).
 */
module PairGeneration {
  import opened Grouping

  /** C(n, 2), the number of unordered pairs among n items. */
  function Choose2(n: nat): nat {
    if n == 0 then 0 else (n - 1) + Choose2(n - 1)
  }

  lemma {:induction false} Choose2Closed(n: nat)
    ensures 2 * Choose2(n) == n * (n - 1)
  {
    if n > 0 {
      Choose2Closed(n - 1);
    }
  }

  /** No element occurs twice. */
  ghost predicate NoDuplicates<T>(s: seq<T>) {
    forall x, y :: 0 <= x < y < |s| ==> s[x] != s[y]
  }

  /** (a, t[0]), (a, t[1]), ... */
  function PairsWith(a: nat, t: seq<nat>): seq<(nat, nat)> {
    seq(|t|, k requires 0 <= k < |t| => (a, t[k]))
  }

  /**
   * `combinations(b, 2)`: the pairs (b[i], b[j]) with i < j, ordered by i and
   * then by j; there are C(|b|, 2) of them.
   */
  function Combinations(b: seq<nat>): (r: seq<(nat, nat)>)
    ensures |r| == Choose2(|b|)
  {
    if b == [] then [] else PairsWith(b[0], b[1..]) + Combinations(b[1..])
  }

  /** The combinations are exactly the pairs of an earlier and a later member of `b`. */
  lemma {:induction false} CombinationsMembers(b: seq<nat>)
    ensures forall p :: p in Combinations(b) <==> exists i, j :: 0 <= i < j < |b| && p == (b[i], b[j])
  {
    if b != [] {
      var t := b[1..];
      CombinationsMembers(t);
      var head, rest := PairsWith(b[0], t), Combinations(t);
      var r := head + rest;
      assert r == Combinations(b);
      forall i, j | 0 <= i < j < |b| ensures (b[i], b[j]) in r {
        if i == 0 {
          assert head[j - 1] == (b[i], b[j]);
        } else {
          assert (t[i - 1], t[j - 1]) in rest;
        }
      }
      forall p | p in r ensures exists i, j :: 0 <= i < j < |b| && p == (b[i], b[j]) {
        if p in head {
          var k :| 0 <= k < |head| && head[k] == p;
          assert p == (b[0], b[k + 1]);
        } else {
          var i, j :| 0 <= i < j < |t| && p == (t[i], t[j]);
          assert p == (b[i + 1], b[j + 1]);
        }
      }
    }
  }

  /** When the positions in `b` ascend, no pair repeats and each lists its smaller position first. */
  lemma {:induction false} CombinationsOnce(b: seq<nat>)
    requires Increasing(b)
    ensures NoDuplicates(Combinations(b))
    ensures forall p :: p in Combinations(b) ==> p.0 < p.1
  {
    CombinationsMembers(b);
    if b != [] {
      var t := b[1..];
      assert Increasing(t);
      CombinationsOnce(t);
      CombinationsMembers(t);
      var head, rest := PairsWith(b[0], t), Combinations(t);
      var r := head + rest;
      assert r == Combinations(b);
      forall x, y | 0 <= x < y < |r| ensures r[x] != r[y] {
        if y < |head| {
          assert r[x] == (b[0], t[x]) && r[y] == (b[0], t[y]);
        } else if x >= |head| {
          assert r[x] == rest[x - |head|] && r[y] == rest[y - |head|];
        } else {
          assert r[y] in rest;
          var i, j :| 0 <= i < j < |t| && r[y] == (t[i], t[j]);
          assert b[0] < t[i];
        }
      }
      forall p | p in r ensures p.0 < p.1 {
        var i, j :| 0 <= i < j < |b| && p == (b[i], b[j]);
      }
    }
  }

  /** The pairs of all buckets, bucket after bucket. */
  function AllPairs(buckets: seq<seq<nat>>): seq<(nat, nat)> {
    if buckets == [] then []
    else AllPairs(buckets[..|buckets| - 1]) + Combinations(buckets[|buckets| - 1])
  }

  /** Σ C(|b|, 2) over the buckets. */
  function TotalPairs(buckets: seq<seq<nat>>): nat {
    if buckets == [] then 0
    else TotalPairs(buckets[..|buckets| - 1]) + Choose2(|buckets[|buckets| - 1]|)
  }

  /** The loop over the buckets that extends the pair list with each bucket's combinations. */
  method GeneratePairs(buckets: seq<seq<nat>>) returns (pairs: seq<(nat, nat)>)
    ensures pairs == AllPairs(buckets)
    ensures |pairs| == TotalPairs(buckets)
  {
    pairs := [];
    for k := 0 to |buckets|
      invariant pairs == AllPairs(buckets[..k])
      invariant |pairs| == TotalPairs(buckets[..k])
    {
      assert buckets[..k + 1][..k] == buckets[..k];
      if |buckets[k]| > 1 {
        pairs := pairs + Combinations(buckets[k]);
      } else {
        assert Combinations(buckets[k]) == [];
      }
    }
    assert buckets[..|buckets|] == buckets;
  }

  /** Pair (p, q) comes from positions i < j of bucket k. */
  ghost predicate FromBucket(buckets: seq<seq<nat>>, p: (nat, nat), k: int) {
    0 <= k < |buckets| && exists i, j :: 0 <= i < j < |buckets[k]| && p == (buckets[k][i], buckets[k][j])
  }

  /**
   * The generated pairs are exactly the pairs of two members of one bucket;
   * no pair crosses buckets.
   */
  lemma {:induction false} AllPairsMembers(buckets: seq<seq<nat>>, p: (nat, nat))
    ensures p in AllPairs(buckets) <==> exists k :: FromBucket(buckets, p, k)
  {
    if buckets != [] {
      var n := |buckets| - 1;
      var init := buckets[..n];
      AllPairsMembers(init, p);
      CombinationsMembers(buckets[n]);
      assert AllPairs(buckets) == AllPairs(init) + Combinations(buckets[n]);
      assert p in AllPairs(buckets) <==> p in AllPairs(init) || p in Combinations(buckets[n]);
      assert p in Combinations(buckets[n]) <==> FromBucket(buckets, p, n);
      forall k | 0 <= k < n ensures FromBucket(init, p, k) <==> FromBucket(buckets, p, k) {
        assert init[k] == buckets[k];
      }
    }
  }

  /** Both positions of a generated pair lie in one bucket. */
  lemma PairInOneBucket(buckets: seq<seq<nat>>, p: (nat, nat))
    requires p in AllPairs(buckets)
    ensures exists b :: b in buckets && p.0 in b && p.1 in b
  {
    AllPairsMembers(buckets, p);
    var k :| FromBucket(buckets, p, k);
    var i, j :| 0 <= i < j < |buckets[k]| && p == (buckets[k][i], buckets[k][j]);
    assert buckets[k] in buckets;
  }

  /**
   * For ascending, disjoint buckets each unordered pair is emitted once: the
   * pair list has no repeats and every pair lists its smaller position first.
   */
  lemma {:induction false} AllPairsOnce(buckets: seq<seq<nat>>)
    requires DisjointAscending(buckets)
    ensures NoDuplicates(AllPairs(buckets))
    ensures forall p :: p in AllPairs(buckets) ==> p.0 < p.1
  {
    if buckets != [] {
      var n := |buckets| - 1;
      var init := buckets[..n];
      assert DisjointAscending(init);
      AllPairsOnce(init);
      CombinationsOnce(buckets[n]);
      CombinationsMembers(buckets[n]);
      var front, last := AllPairs(init), Combinations(buckets[n]);
      var r := front + last;
      forall x, y | 0 <= x < y < |r| ensures r[x] != r[y] {
        if y < |front| {
          assert r[x] == front[x] && r[y] == front[y];
        } else if x < |front| {
          assert r[x] in front && r[y] == last[y - |front|];
          AllPairsMembers(init, r[x]);
          var k :| FromBucket(init, r[x], k);
          var i, j :| 0 <= i < j < |init[k]| && r[x] == (init[k][i], init[k][j]);
          assert r[x].0 in buckets[k];
          assert r[x].0 !in buckets[n];
          assert r[y] in last;
          var i', j' :| 0 <= i' < j' < |buckets[n]| && r[y] == (buckets[n][i'], buckets[n][j']);
          assert r[y].0 in buckets[n];
        } else if x >= |front| {
          assert r[x] == last[x - |front|] && r[y] == last[y - |front|];
        }
      }
      forall p | p in r ensures p.0 < p.1 {
        assert p in front || p in last;
      }
    }
  }

  /** The number of pairs is Σ C(|b|, 2) = Σ |b|(|b| - 1)/2. */
  lemma {:induction false} TotalPairsClosed(buckets: seq<seq<nat>>)
    ensures 2 * TotalPairs(buckets) == SumOfProducts(buckets)
  {
    if buckets != [] {
      TotalPairsClosed(buckets[..|buckets| - 1]);
      Choose2Closed(|buckets[|buckets| - 1]|);
    }
  }

  /** Σ |b| (|b| - 1) over the buckets. */
  function SumOfProducts(buckets: seq<seq<nat>>): int {
    if buckets == [] then 0
    else
      var n := |buckets[|buckets| - 1]|;
      SumOfProducts(buckets[..|buckets| - 1]) + n * (n - 1)
  }
}
