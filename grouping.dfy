/**
 * `DataFrame.groupby(columns)` over a sequence of row keys: the rows are
 * split into classes of equal key, each class listing its row positions in
 * ascending order.
 */
module Grouping {

  /** Strictly ascending positions. */
  ghost predicate Increasing(s: seq<nat>) {
    forall a, b :: 0 <= a < b < |s| ==> s[a] < s[b]
  }

  /** The distinct keys of `ks`, in the order in which each first appears. */
  function DistinctKeys<K(==)>(ks: seq<K>): (d: seq<K>)
    ensures forall a :: 0 <= a < |ks| ==> ks[a] in d
    ensures forall a :: 0 <= a < |d| ==> d[a] in ks
    ensures forall a, b :: 0 <= a < b < |d| ==> d[a] != d[b]
  {
    if ks == [] then []
    else
      var init := ks[..|ks| - 1];
      assert ks == init + [ks[|ks| - 1]];
      var d := DistinctKeys(init);
      if ks[|ks| - 1] in d then d else d + [ks[|ks| - 1]]
  }

  /** The positions of the rows whose key is `k`, ascending. */
  function Class<K(==)>(ks: seq<K>, k: K): (c: seq<nat>)
    ensures forall i :: i in c <==> 0 <= i < |ks| && ks[i] == k
    ensures Increasing(c)
  {
    if ks == [] then []
    else
      var init := ks[..|ks| - 1];
      var c := Class(init, k);
      assert forall a :: 0 <= a < |c| ==> c[a] < |ks| - 1 by {
        forall a | 0 <= a < |c| ensures c[a] < |ks| - 1 {
          assert c[a] in c;
        }
      }
      if ks[|ks| - 1] == k then c + [|ks| - 1] else c
  }

  /** Row `i` belongs to some class of `g`. */
  ghost predicate Covered(g: seq<seq<nat>>, i: nat) {
    exists j :: 0 <= j < |g| && i in g[j]
  }

  /**
   * `g` splits the rows with keys `ks` into classes of equal key: each class
   * is non-empty and ascending, holds exactly the rows that share the key of
   * any of its members, every row is in a class, and no row is in two classes.
   */
  ghost predicate IsKeyPartition<K>(ks: seq<K>, g: seq<seq<nat>>) {
    && (forall j :: 0 <= j < |g| ==> |g[j]| > 0 && Increasing(g[j]))
    && (forall j, i :: 0 <= j < |g| && i in g[j] ==> i < |ks|)
    && (forall j, i, i' :: 0 <= j < |g| && i in g[j] && 0 <= i' < |ks| ==> (i' in g[j] <==> ks[i'] == ks[i]))
    && (forall i :: 0 <= i < |ks| ==> Covered(g, i))
    && (forall j, j', i :: 0 <= j < j' < |g| && i in g[j] ==> i !in g[j'])
  }

  /** One class per distinct key, in order of the key's first appearance. */
  function GroupBy<K(==)>(ks: seq<K>): (g: seq<seq<nat>>)
    ensures IsKeyPartition(ks, g)
  {
    var d := DistinctKeys(ks);
    var g := seq(|d|, j requires 0 <= j < |d| => Class(ks, d[j]));
    assert forall i :: 0 <= i < |ks| ==> ks[i] in d;
    assert forall i :: 0 <= i < |ks| ==> Covered(g, i) by {
      forall i | 0 <= i < |ks| ensures Covered(g, i) {
        var j :| 0 <= j < |d| && d[j] == ks[i];
        assert i in g[j];
      }
    }
    g
  }

  /** Lists of positions that each ascend and that share no position. */
  ghost predicate DisjointAscending(cs: seq<seq<nat>>) {
    && (forall k :: 0 <= k < |cs| ==> Increasing(cs[k]))
    && (forall k, k', x :: 0 <= k < k' < |cs| && x in cs[k] ==> x !in cs[k'])
  }

  /** The classes that hold more than one row, in their original order (`filter(lambda g: len(g) > 1)`). */
  function KeepRepeated(g: seq<seq<nat>>): (r: seq<seq<nat>>)
    ensures forall c :: c in r <==> c in g && |c| > 1
    ensures (forall a, b :: 0 <= a < b < |g| ==> g[a] != g[b]) ==> forall a, b :: 0 <= a < b < |r| ==> r[a] != r[b]
  {
    if g == [] then []
    else
      var init := g[..|g| - 1];
      assert g == init + [g[|g| - 1]];
      var r := KeepRepeated(init);
      if |g[|g| - 1]| > 1 then r + [g[|g| - 1]] else r
  }

  /** A row whose key another row shares lies in a class of more than one row. */
  lemma RepeatedCovers<K>(ks: seq<K>, g: seq<seq<nat>>, i: nat, i': nat)
    requires IsKeyPartition(ks, g)
    requires i < |ks| && i' < |ks| && i' != i && ks[i'] == ks[i]
    ensures exists c :: c in KeepRepeated(g) && i in c
  {
    assert Covered(g, i);
    var j :| 0 <= j < |g| && i in g[j];
    assert i' in g[j];
    var a :| 0 <= a < |g[j]| && g[j][a] == i;
    var b :| 0 <= b < |g[j]| && g[j][b] == i';
    assert a != b;
    assert g[j] in KeepRepeated(g);
  }

  /** Two rows with one key sit, in their order, in one class of more than one row. */
  lemma TwinsInRepeatedClass<K>(ks: seq<K>, g: seq<seq<nat>>, i: nat, i': nat) returns (c: seq<nat>, a: nat, b: nat)
    requires IsKeyPartition(ks, g)
    requires i < i' < |ks| && ks[i'] == ks[i]
    ensures c in KeepRepeated(g) && a < b < |c| && c[a] == i && c[b] == i'
  {
    RepeatedCovers(ks, g, i, i');
    c :| c in KeepRepeated(g) && i in c;
    var jc :| 0 <= jc < |g| && g[jc] == c;
    assert i' in c;
    a :| 0 <= a < |c| && c[a] == i;
    b :| 0 <= b < |c| && c[b] == i';
    assert Increasing(c);
  }

  /** A row in a class of more than one row shares its key with another row. */
  lemma RepeatedHasTwin<K>(ks: seq<K>, g: seq<seq<nat>>, c: seq<nat>, i: nat)
    requires IsKeyPartition(ks, g)
    requires c in KeepRepeated(g) && i in c
    ensures exists i' :: 0 <= i' < |ks| && i' != i && ks[i'] == ks[i]
  {
    var jc :| 0 <= jc < |g| && g[jc] == c;
    assert c[0] < c[1];
    var other := if c[0] == i then c[1] else c[0];
    assert other in g[jc] && other != i && other < |ks|;
    assert ks[other] == ks[i];
  }

  /**
   * The rows covered by the classes of more than one row are exactly the rows
   * whose key occurs at least twice.
   */
  lemma RepeatedCoverage<K>(ks: seq<K>, g: seq<seq<nat>>, i: nat)
    requires IsKeyPartition(ks, g)
    requires i < |ks|
    ensures (exists c :: c in KeepRepeated(g) && i in c) <==> (exists i' :: 0 <= i' < |ks| && i' != i && ks[i'] == ks[i])
  {
    if exists i' :: 0 <= i' < |ks| && i' != i && ks[i'] == ks[i] {
      var i' :| 0 <= i' < |ks| && i' != i && ks[i'] == ks[i];
      RepeatedCovers(ks, g, i, i');
    }
    if exists c :: c in KeepRepeated(g) && i in c {
      var c :| c in KeepRepeated(g) && i in c;
      RepeatedHasTwin(ks, g, c, i);
    }
  }

  /**
   * The classes of more than one row are ascending and pairwise disjoint;
   * each holds positions of rows with one common key.
   */
  lemma RepeatedClasses<K>(ks: seq<K>, g: seq<seq<nat>>)
    requires IsKeyPartition(ks, g)
    ensures DisjointAscending(KeepRepeated(g))
    ensures forall c :: c in KeepRepeated(g) ==> |c| > 1 && forall i :: i in c ==> i < |ks|
    ensures forall c, i, i' :: c in KeepRepeated(g) && i in c && i' in c ==> ks[i] == ks[i']
  {
    var r := KeepRepeated(g);
    assert forall a, b :: 0 <= a < b < |g| ==> g[a] != g[b] by {
      forall a, b | 0 <= a < b < |g| ensures g[a] != g[b] {
        assert g[a][0] in g[a] && g[a][0] !in g[b];
      }
    }
    forall k, k', x | 0 <= k < k' < |r| && x in r[k] ensures x !in r[k'] {
      assert r[k] in r && r[k'] in r;
      var j :| 0 <= j < |g| && g[j] == r[k];
      var j' :| 0 <= j' < |g| && g[j'] == r[k'];
      assert j != j';
    }
    forall c | c in r ensures Increasing(c) {
      var j :| 0 <= j < |g| && g[j] == c;
    }
    forall c, i, i' | c in r && i in c && i' in c ensures ks[i] == ks[i'] {
      var j :| 0 <= j < |g| && g[j] == c;
    }
  }
}
