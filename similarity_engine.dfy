/**
 * `calculate_similarity_between_pairs`: the candidate-pair similarity engine.
 * Finds with coins and with CoinGroups rows are bucketed by their exact-match
 * columns and two coordinate bins; the pairs inside each bucket pass a chain
 * of checks; the survivors are scored by the overlap of their CoinGroups
 * tuples, those with a positive score are kept and ranked.
 */
module SimilarityEngine {
  import opened Tables
  import opened Grouping
  import opened SharedSubstring
  import opened Binning
  import opened Overlap
  import opened PairGeneration
  import opened Ranking

  /** A CoinFinds row: `ID`, `cf_num_coins_found`, the two coordinates, `cf_publication_ref`, and its other columns. */
  datatype Find = Find(id: int, coins: int, x: real, y: real, ref: string, attrs: Row)

  /** A CoinGroups row: the find it is attributed to (`cfID`) and its other columns. */
  datatype CoinGroup = CoinGroup(cfID: int, attrs: Row)

  datatype Config = Config(
    similarityColumns: seq<Column>,  // CoinGroups columns whose tuples are compared
    compareColumns: seq<Column>,     // CoinFinds columns that must match exactly
    tolX: real,
    tolY: real,
    minCoins: int)

  /** What the run writes to its output file. */
  datatype Outcome =
    | MissingGroupColumn(column: Column)  // "Column ... does not exist in CoinGroups.csv."
    | MissingFindColumn(column: Column)   // "Column ... does not exist in CoinFinds.csv."
    | NoFindsRemaining                    // no find has coins and CoinGroups rows
    | NoSuspiciousFinds                   // no bucket holds two finds
    | Failed                              // an exception reached the generic handler
    | Ranked(pairs: seq<ScoredPair>)      // the ranked pairs; empty means "No pairs with non-zero similarity"

  /** The publication references must share a substring of this length. */
  const RefSubstringLength: nat := 3

  ghost predicate GroupsHave(groups: seq<CoinGroup>, cols: seq<Column>) {
    forall g :: g in groups ==> HasColumns(g.attrs, cols)
  }

  ghost predicate FindsHave(finds: seq<Find>, cols: seq<Column>) {
    forall f :: f in finds ==> HasColumns(f.attrs, cols)
  }

  /** Some CoinGroups row is attributed to the find with this ID (`ID in coin_groups["cfID"].unique()`). */
  predicate HasGroups(groups: seq<CoinGroup>, id: int) {
    exists k :: 0 <= k < |groups| && groups[k].cfID == id
  }

  predicate Eligible(f: Find, groups: seq<CoinGroup>) {
    f.coins > 0 && HasGroups(groups, f.id)
  }

  /** The finds that have coins and CoinGroups rows, in their original order. */
  function Survivors(finds: seq<Find>, groups: seq<CoinGroup>): (r: seq<Find>)
    ensures forall f :: f in r <==> f in finds && Eligible(f, groups)
  {
    if finds == [] then []
    else
      var init := finds[..|finds| - 1];
      var last := finds[|finds| - 1];
      assert finds == init + [last];
      var r := Survivors(init, groups);
      if Eligible(last, groups) then r + [last] else r
  }

  /** The bucket key: the exact-match values and the two coordinate bins. */
  function KeyOf(f: Find, cfg: Config): (seq<Value>, int, int)
    requires cfg.tolX != 0.0 && cfg.tolY != 0.0
    requires HasColumns(f.attrs, cfg.compareColumns)
  {
    (Project(f.attrs, cfg.compareColumns), Bin(f.x, cfg.tolX), Bin(f.y, cfg.tolY))
  }

  function Keys(finds: seq<Find>, cfg: Config): seq<(seq<Value>, int, int)>
    requires cfg.tolX != 0.0 && cfg.tolY != 0.0
    requires FindsHave(finds, cfg.compareColumns)
  {
    seq(|finds|, i requires 0 <= i < |finds| => KeyOf(finds[i], cfg))
  }

  /** The buckets of more than one find, as positions into `finds`. */
  function Buckets(finds: seq<Find>, cfg: Config): seq<seq<nat>>
    requires cfg.tolX != 0.0 && cfg.tolY != 0.0
    requires FindsHave(finds, cfg.compareColumns)
  {
    KeepRepeated(GroupBy(Keys(finds, cfg)))
  }

  /** Why the filter chain drops a pair, in the order the checks run, or that it lets the pair through. */
  datatype Verdict = TooFar | TooFewCoins | NoSharedReference | CompareMismatch | NoGroups | Passes

  /** The filter chain applied to one candidate pair. */
  function Check(f1: Find, f2: Find, groups: seq<CoinGroup>, cfg: Config): (v: Verdict)
    requires HasColumns(f1.attrs, cfg.compareColumns) && HasColumns(f2.attrs, cfg.compareColumns)
    ensures v == Passes <==>
              && Abs(f1.x - f2.x) <= cfg.tolX && Abs(f1.y - f2.y) <= cfg.tolY
              && f1.coins >= cfg.minCoins && f2.coins >= cfg.minCoins
              && HasSharedSubstringOfLengthN(f1.ref, f2.ref, RefSubstringLength)
              && AgreeOn(f1.attrs, f2.attrs, cfg.compareColumns)
              && HasGroups(groups, f1.id) && HasGroups(groups, f2.id)
  {
    if Abs(f1.x - f2.x) > cfg.tolX || Abs(f1.y - f2.y) > cfg.tolY then TooFar
    else if f1.coins < cfg.minCoins || f2.coins < cfg.minCoins then TooFewCoins
    else if !HasSharedSubstringOfLengthN(f1.ref, f2.ref, RefSubstringLength) then NoSharedReference
    else if !AgreeOn(f1.attrs, f2.attrs, cfg.compareColumns) then CompareMismatch
    else if !HasGroups(groups, f1.id) || !HasGroups(groups, f2.id) then NoGroups
    else Passes
  }

  /** The de-duplicated similarity-column tuples of the CoinGroups rows attributed to a find. */
  function TupleSet(groups: seq<CoinGroup>, id: int, cols: seq<Column>): set<seq<Value>>
    requires GroupsHave(groups, cols)
  {
    set g | g in groups && g.cfID == id :: Project(g.attrs, cols)
  }

  /** A find with CoinGroups rows has at least one tuple. */
  lemma TupleSetNonEmpty(groups: seq<CoinGroup>, id: int, cols: seq<Column>)
    requires GroupsHave(groups, cols)
    requires HasGroups(groups, id)
    ensures TupleSet(groups, id, cols) != {}
  {
    var k :| 0 <= k < |groups| && groups[k].cfID == id;
    assert Project(groups[k].attrs, cols) in TupleSet(groups, id, cols);
  }

  function Score(f1: Find, f2: Find, groups: seq<CoinGroup>, cfg: Config): real
    requires GroupsHave(groups, cfg.similarityColumns)
  {
    Percentage(TupleSet(groups, f1.id, cfg.similarityColumns), TupleSet(groups, f2.id, cfg.similarityColumns))
  }

  /** The preconditions every pair evaluation needs. */
  ghost predicate Evaluable(pairs: seq<(nat, nat)>, finds: seq<Find>, groups: seq<CoinGroup>, cfg: Config) {
    && (forall p :: p in pairs ==> p.0 < |finds| && p.1 < |finds|)
    && FindsHave(finds, cfg.compareColumns)
    && GroupsHave(groups, cfg.similarityColumns)
  }

  /** The pair at position k of `pairs` passes every check. */
  ghost predicate PassesAt(pairs: seq<(nat, nat)>, finds: seq<Find>, groups: seq<CoinGroup>, cfg: Config, k: int)
    requires Evaluable(pairs, finds, groups, cfg)
  {
    0 <= k < |pairs| && (assert pairs[k] in pairs; Check(finds[pairs[k].0], finds[pairs[k].1], groups, cfg) == Passes)
  }

  /** The result line of a passing pair. */
  function ResultOf(p: (nat, nat), finds: seq<Find>, groups: seq<CoinGroup>, cfg: Config): ScoredPair
    requires p.0 < |finds| && p.1 < |finds|
    requires GroupsHave(groups, cfg.similarityColumns)
  {
    ScoredPair(finds[p.0].id, finds[p.1].id, Score(finds[p.0], finds[p.1], groups, cfg))
  }

  /** A pair passes every check and scores above 0. */
  predicate Qualifies(p: (nat, nat), finds: seq<Find>, groups: seq<CoinGroup>, cfg: Config)
    requires p.0 < |finds| && p.1 < |finds|
    requires FindsHave(finds, cfg.compareColumns) && GroupsHave(groups, cfg.similarityColumns)
  {
    assert finds[p.0] in finds && finds[p.1] in finds;
    Check(finds[p.0], finds[p.1], groups, cfg) == Passes && Score(finds[p.0], finds[p.1], groups, cfg) > 0.0
  }

  /** The result lines of the pairs that pass every check and score above 0, in pair order. */
  function Kept(pairs: seq<(nat, nat)>, finds: seq<Find>, groups: seq<CoinGroup>, cfg: Config): seq<ScoredPair>
    requires Evaluable(pairs, finds, groups, cfg)
  {
    if pairs == [] then []
    else
      var init := pairs[..|pairs| - 1];
      var p := pairs[|pairs| - 1];
      assert p in pairs;
      assert forall q :: q in init ==> q in pairs;
      var rest := Kept(init, finds, groups, cfg);
      if Qualifies(p, finds, groups, cfg) then rest + [ResultOf(p, finds, groups, cfg)] else rest
  }

  /** Pair k of `pairs` passes every check and scores above 0. */
  ghost predicate QualifiesAt(pairs: seq<(nat, nat)>, finds: seq<Find>, groups: seq<CoinGroup>, cfg: Config, k: int)
    requires Evaluable(pairs, finds, groups, cfg)
  {
    0 <= k < |pairs| && (assert pairs[k] in pairs; Qualifies(pairs[k], finds, groups, cfg))
  }

  /** Every kept result line comes from a pair that passes every check and scores above 0. */
  lemma {:induction false} KeptSound(pairs: seq<(nat, nat)>, finds: seq<Find>, groups: seq<CoinGroup>, cfg: Config, r: ScoredPair)
    requires Evaluable(pairs, finds, groups, cfg)
    requires r in Kept(pairs, finds, groups, cfg)
    ensures exists k :: QualifiesAt(pairs, finds, groups, cfg, k) && r == ResultOf(pairs[k], finds, groups, cfg)
  {
    var n := |pairs| - 1;
    var init := pairs[..n];
    assert forall q :: q in init ==> q in pairs;
    if r in Kept(init, finds, groups, cfg) {
      KeptSound(init, finds, groups, cfg, r);
      var k :| QualifiesAt(init, finds, groups, cfg, k) && r == ResultOf(init[k], finds, groups, cfg);
      assert init[k] == pairs[k];
      assert QualifiesAt(pairs, finds, groups, cfg, k);
    } else {
      assert pairs[n] in pairs;
      assert QualifiesAt(pairs, finds, groups, cfg, n);
    }
  }

  /** Every pair that passes every check and scores above 0 gives a kept result line. */
  lemma {:induction false} KeptComplete(pairs: seq<(nat, nat)>, finds: seq<Find>, groups: seq<CoinGroup>, cfg: Config, k: nat)
    requires Evaluable(pairs, finds, groups, cfg)
    requires QualifiesAt(pairs, finds, groups, cfg, k)
    ensures ResultOf(pairs[k], finds, groups, cfg) in Kept(pairs, finds, groups, cfg)
  {
    var n := |pairs| - 1;
    var init := pairs[..n];
    assert forall q :: q in init ==> q in pairs;
    if k < n {
      assert init[k] == pairs[k];
      assert init[k] in init;
      KeptComplete(init, finds, groups, cfg, k);
    }
  }

  /** Every kept result line scores in (0, 100]. */
  lemma KeptScores(pairs: seq<(nat, nat)>, finds: seq<Find>, groups: seq<CoinGroup>, cfg: Config)
    requires Evaluable(pairs, finds, groups, cfg)
    ensures forall r :: r in Kept(pairs, finds, groups, cfg) ==> 0.0 < r.score <= 100.0
  {
    forall r | r in Kept(pairs, finds, groups, cfg) ensures 0.0 < r.score <= 100.0 {
      KeptSound(pairs, finds, groups, cfg, r);
      var k :| QualifiesAt(pairs, finds, groups, cfg, k) && r == ResultOf(pairs[k], finds, groups, cfg);
      var p := pairs[k];
      Bounds(TupleSet(groups, finds[p.0].id, cfg.similarityColumns), TupleSet(groups, finds[p.1].id, cfg.similarityColumns));
    }
  }

  /**
   * The loop over the candidate pairs: runs the checks on each, scores the
   * ones that pass and appends those scoring above 0. Scoring with no
   * similarity column makes `pd.merge` raise, which ends the run.
   */
  method ScorePairs(pairs: seq<(nat, nat)>, finds: seq<Find>, groups: seq<CoinGroup>, cfg: Config)
    returns (results: seq<ScoredPair>, failed: bool)
    requires Evaluable(pairs, finds, groups, cfg)
    ensures failed <==> cfg.similarityColumns == [] && exists k :: PassesAt(pairs, finds, groups, cfg, k)
    ensures !failed ==> results == Kept(pairs, finds, groups, cfg)
  {
    results := [];
    for k := 0 to |pairs|
      invariant forall q :: q in pairs[..k] ==> q in pairs
      invariant results == Kept(pairs[..k], finds, groups, cfg)
      invariant cfg.similarityColumns == [] ==> forall m :: 0 <= m < k ==> !PassesAt(pairs, finds, groups, cfg, m)
    {
      var p := pairs[k];
      assert p in pairs;
      assert pairs[..k + 1][..k] == pairs[..k];
      if Check(finds[p.0], finds[p.1], groups, cfg) == Passes {
        if cfg.similarityColumns == [] {
          assert PassesAt(pairs, finds, groups, cfg, k);
          return results, true;
        }
        var s := Score(finds[p.0], finds[p.1], groups, cfg);
        if s > 0.0 {
          results := results + [ScoredPair(finds[p.0].id, finds[p.1].id, s)];
        }
      }
    }
    assert pairs[..|pairs|] == pairs;
    failed := false;
  }

  /** The pairs that reach the filter chain: every pair of two finds of one bucket of the survivors. */
  function Candidates(finds: seq<Find>, groups: seq<CoinGroup>, cfg: Config): seq<(nat, nat)>
    requires cfg.tolX != 0.0 && cfg.tolY != 0.0
    requires FindsHave(finds, cfg.compareColumns)
  {
    AllPairs(Buckets(Survivors(finds, groups), cfg))
  }

  /** Positions i and i' of `finds` hold finds with the same bucket key. */
  ghost predicate SameKey(finds: seq<Find>, cfg: Config, i: nat, i': nat)
    requires cfg.tolX != 0.0 && cfg.tolY != 0.0
    requires FindsHave(finds, cfg.compareColumns)
  {
    i < |finds| && i' < |finds|
    && (assert finds[i] in finds && finds[i'] in finds; KeyOf(finds[i], cfg) == KeyOf(finds[i'], cfg))
  }

  /** Every survivor has coins and CoinGroups rows. */
  lemma SurvivorsEligible(finds: seq<Find>, groups: seq<CoinGroup>)
    ensures var s := Survivors(finds, groups);
            forall i :: 0 <= i < |s| ==> Eligible(s[i], groups)
  {
    var s := Survivors(finds, groups);
    assert forall i :: 0 <= i < |s| ==> s[i] in s;
  }

  /**
   * The buckets are ascending and disjoint; each holds more than one find,
   * and all its finds share one bucket key.
   */
  lemma BucketsFacts(finds: seq<Find>, cfg: Config)
    requires cfg.tolX != 0.0 && cfg.tolY != 0.0
    requires FindsHave(finds, cfg.compareColumns)
    ensures DisjointAscending(Buckets(finds, cfg))
    ensures forall b :: b in Buckets(finds, cfg) ==> |b| > 1
    ensures forall b, i, i' :: b in Buckets(finds, cfg) && i in b && i' in b ==> SameKey(finds, cfg, i, i')
  {
    var ks := Keys(finds, cfg);
    var g := GroupBy(ks);
    RepeatedClasses(ks, g);
    forall b, i, i' | b in KeepRepeated(g) && i in b && i' in b ensures SameKey(finds, cfg, i, i') {
      assert i < |ks| && i' < |ks| && ks[i] == ks[i'];
      assert finds[i] in finds && finds[i'] in finds;
    }
  }

  /** Candidate pairs never cross buckets, are emitted once each, and list the earlier find first. */
  lemma CandidatesOnce(finds: seq<Find>, groups: seq<CoinGroup>, cfg: Config)
    requires cfg.tolX != 0.0 && cfg.tolY != 0.0
    requires FindsHave(finds, cfg.compareColumns)
    ensures var bs := Buckets(Survivors(finds, groups), cfg);
            && NoDuplicates(Candidates(finds, groups, cfg))
            && |Candidates(finds, groups, cfg)| == TotalPairs(bs)
            && (forall p :: p in Candidates(finds, groups, cfg) ==> p.0 < p.1)
            && forall p :: p in Candidates(finds, groups, cfg) <==> exists k :: FromBucket(bs, p, k)
  {
    var bs := Buckets(Survivors(finds, groups), cfg);
    BucketsFacts(Survivors(finds, groups), cfg);
    AllPairsOnce(bs);
    forall p ensures p in AllPairs(bs) <==> exists k :: FromBucket(bs, p, k) {
      AllPairsMembers(bs, p);
    }
    CountMatches(bs);
  }

  /** Two positions with one key always form a pair of the classes of more than one position. */
  lemma TwinsPaired<K>(ks: seq<K>, i: nat, j: nat)
    requires i < j < |ks| && ks[i] == ks[j]
    ensures (i, j) in AllPairs(KeepRepeated(GroupBy(ks)))
  {
    var bs := KeepRepeated(GroupBy(ks));
    var c, a, b := TwinsInRepeatedClass(ks, GroupBy(ks), i, j);
    var k :| 0 <= k < |bs| && bs[k] == c;
    assert FromBucket(bs, (i, j), k);
    AllPairsMembers(bs, (i, j));
  }

  /**
   * Bucketing misses nothing: two survivors with the same bucket key (compare
   * columns and both bins) always form a candidate pair.
   */
  lemma SameKeyIsCandidate(finds: seq<Find>, groups: seq<CoinGroup>, cfg: Config, i: nat, j: nat)
    requires cfg.tolX != 0.0 && cfg.tolY != 0.0
    requires FindsHave(finds, cfg.compareColumns)
    requires i < j && SameKey(Survivors(finds, groups), cfg, i, j)
    ensures (i, j) in Candidates(finds, groups, cfg)
  {
    var ks := Keys(Survivors(finds, groups), cfg);
    assert ks[i] == ks[j];
    TwinsPaired(ks, i, j);
  }

  lemma {:induction false} CountMatches(bs: seq<seq<nat>>)
    ensures |AllPairs(bs)| == TotalPairs(bs)
  {
    if bs != [] {
      CountMatches(bs[..|bs| - 1]);
    }
  }

  /** The two finds of a pair from one bucket agree on every exact-match column. */
  lemma BucketPairColumns(s: seq<Find>, cfg: Config, p: (nat, nat))
    requires cfg.tolX != 0.0 && cfg.tolY != 0.0
    requires FindsHave(s, cfg.compareColumns)
    requires p in AllPairs(Buckets(s, cfg))
    ensures p.0 < |s| && p.1 < |s| && s[p.0] in s && s[p.1] in s
    ensures AgreeOn(s[p.0].attrs, s[p.1].attrs, cfg.compareColumns)
  {
    BucketsFacts(s, cfg);
    PairInOneBucket(Buckets(s, cfg), p);
    var b :| b in Buckets(s, cfg) && p.0 in b && p.1 in b;
    assert SameKey(s, cfg, p.0, p.1);
    ProjectEqual(s[p.0].attrs, s[p.1].attrs, cfg.compareColumns);
  }

  /**
   * Inside a bucket the exact-match check and the CoinGroups check never
   * reject: bucketing already guarantees both.
   */
  lemma BucketPairsAgree(finds: seq<Find>, groups: seq<CoinGroup>, cfg: Config, p: (nat, nat))
    requires cfg.tolX != 0.0 && cfg.tolY != 0.0
    requires FindsHave(finds, cfg.compareColumns)
    requires p in Candidates(finds, groups, cfg)
    ensures var s := Survivors(finds, groups);
            && p.0 < |s| && p.1 < |s|
            && Check(s[p.0], s[p.1], groups, cfg) != CompareMismatch
            && Check(s[p.0], s[p.1], groups, cfg) != NoGroups
  {
    var s := Survivors(finds, groups);
    BucketPairColumns(s, cfg, p);
    SurvivorsEligible(finds, groups);
    assert Eligible(s[p.0], groups) && Eligible(s[p.1], groups);
  }

  /**
   * With positive tolerances, a pair whose finds share non-zero bins on both
   * axes always passes the coordinate re-check; only bin 0 on some axis can
   * hold a pair that the re-check rejects.
   */
  lemma NonZeroBinsPassDistance(f1: Find, f2: Find, groups: seq<CoinGroup>, cfg: Config)
    requires cfg.tolX > 0.0 && cfg.tolY > 0.0
    requires HasColumns(f1.attrs, cfg.compareColumns) && HasColumns(f2.attrs, cfg.compareColumns)
    requires KeyOf(f1, cfg) == KeyOf(f2, cfg)
    requires Bin(f1.x, cfg.tolX) != 0 && Bin(f1.y, cfg.tolY) != 0
    ensures Check(f1, f2, groups, cfg) != TooFar
  {
    SameNonZeroBinWithinTolerance(f1.x, f2.x, cfg.tolX);
    SameNonZeroBinWithinTolerance(f1.y, f2.y, cfg.tolY);
  }

  /** A negative tolerance is not rejected up front: the coordinate re-check then drops every pair. */
  lemma NegativeToleranceRejectsAll(f1: Find, f2: Find, groups: seq<CoinGroup>, cfg: Config)
    requires cfg.tolX < 0.0 || cfg.tolY < 0.0
    requires HasColumns(f1.attrs, cfg.compareColumns) && HasColumns(f2.attrs, cfg.compareColumns)
    ensures Check(f1, f2, groups, cfg) == TooFar
  {
  }

  /** The checks and the score do not depend on the order of the two finds. */
  lemma PairSymmetric(f1: Find, f2: Find, groups: seq<CoinGroup>, cfg: Config)
    requires HasColumns(f1.attrs, cfg.compareColumns) && HasColumns(f2.attrs, cfg.compareColumns)
    requires GroupsHave(groups, cfg.similarityColumns)
    ensures Check(f1, f2, groups, cfg) == Passes <==> Check(f2, f1, groups, cfg) == Passes
    ensures Score(f1, f2, groups, cfg) == Score(f2, f1, groups, cfg)
  {
    SharedSymmetric(f1.ref, f2.ref, RefSubstringLength);
    assert Abs(f1.x - f2.x) == Abs(f2.x - f1.x) && Abs(f1.y - f2.y) == Abs(f2.y - f1.y);
    Symmetric(TupleSet(groups, f1.id, cfg.similarityColumns), TupleSet(groups, f2.id, cfg.similarityColumns));
  }

  /**
   * A passing pair scores 100 when the two finds have the same tuple set and 0
   * when their tuple sets are disjoint (and is then dropped).
   */
  lemma ScoreExtremes(f1: Find, f2: Find, groups: seq<CoinGroup>, cfg: Config)
    requires HasColumns(f1.attrs, cfg.compareColumns) && HasColumns(f2.attrs, cfg.compareColumns)
    requires GroupsHave(groups, cfg.similarityColumns)
    requires Check(f1, f2, groups, cfg) == Passes
    ensures var s1, s2 := TupleSet(groups, f1.id, cfg.similarityColumns), TupleSet(groups, f2.id, cfg.similarityColumns);
            && (s1 == s2 ==> Score(f1, f2, groups, cfg) == 100.0)
            && (s1 * s2 == {} <==> Score(f1, f2, groups, cfg) == 0.0)
  {
    var s1, s2 := TupleSet(groups, f1.id, cfg.similarityColumns), TupleSet(groups, f2.id, cfg.similarityColumns);
    TupleSetNonEmpty(groups, f1.id, cfg.similarityColumns);
    if s1 == s2 {
      EqualScoresHundred(s1);
    }
    Bounds(s1, s2);
  }

  /** The candidate pairs are positions into the survivors, so every check can run on them. */
  lemma CandidatesEvaluable(finds: seq<Find>, groups: seq<CoinGroup>, cfg: Config)
    requires cfg.tolX != 0.0 && cfg.tolY != 0.0
    requires FindsHave(finds, cfg.compareColumns) && GroupsHave(groups, cfg.similarityColumns)
    ensures Evaluable(Candidates(finds, groups, cfg), Survivors(finds, groups), groups, cfg)
  {
    var s := Survivors(finds, groups);
    BucketsFacts(s, cfg);
    forall p | p in Candidates(finds, groups, cfg) ensures p.0 < |s| && p.1 < |s| {
      PairInOneBucket(Buckets(s, cfg), p);
      assert SameKey(s, cfg, p.0, p.1);
    }
  }

  /** The output of a run that gets as far as ranking: the kept result lines, ranked. */
  function RankedPairs(finds: seq<Find>, groups: seq<CoinGroup>, cfg: Config): seq<ScoredPair>
    requires cfg.tolX != 0.0 && cfg.tolY != 0.0
    requires FindsHave(finds, cfg.compareColumns) && GroupsHave(groups, cfg.similarityColumns)
  {
    CandidatesEvaluable(finds, groups, cfg);
    RankByScore(Kept(Candidates(finds, groups, cfg), Survivors(finds, groups), groups, cfg))
  }

  /**
   * Ranking the kept result lines of any evaluable pair list: the output is
   * non-increasing in score; it holds exactly the result lines of the pairs
   * that pass every check and score above 0, each scoring in (0, 100]; and
   * lines of equal score keep the order of their pairs.
   */
  lemma RankedKept(pairs: seq<(nat, nat)>, finds: seq<Find>, groups: seq<CoinGroup>, cfg: Config)
    requires Evaluable(pairs, finds, groups, cfg)
    ensures NonIncreasing(RankByScore(Kept(pairs, finds, groups, cfg)))
    ensures forall r :: r in RankByScore(Kept(pairs, finds, groups, cfg)) ==> 0.0 < r.score <= 100.0
    ensures forall r :: r in RankByScore(Kept(pairs, finds, groups, cfg)) ==>
              exists k :: QualifiesAt(pairs, finds, groups, cfg, k) && r == ResultOf(pairs[k], finds, groups, cfg)
    ensures forall k :: QualifiesAt(pairs, finds, groups, cfg, k) ==>
              ResultOf(pairs[k], finds, groups, cfg) in RankByScore(Kept(pairs, finds, groups, cfg))
    ensures forall v :: WithScore(RankByScore(Kept(pairs, finds, groups, cfg)), v) == WithScore(Kept(pairs, finds, groups, cfg), v)
  {
    var kept := Kept(pairs, finds, groups, cfg);
    var out := RankByScore(kept);
    assert forall r :: r in out <==> r in kept by {
      forall r ensures r in out <==> r in kept {
        assert r in multiset(out) <==> r in multiset(kept);
      }
    }
    KeptScores(pairs, finds, groups, cfg);
    forall r | r in kept ensures exists k :: QualifiesAt(pairs, finds, groups, cfg, k) && r == ResultOf(pairs[k], finds, groups, cfg) {
      KeptSound(pairs, finds, groups, cfg, r);
    }
    forall k | QualifiesAt(pairs, finds, groups, cfg, k) ensures ResultOf(pairs[k], finds, groups, cfg) in kept {
      KeptComplete(pairs, finds, groups, cfg, k);
    }
    forall v ensures WithScore(out, v) == WithScore(kept, v) {
      RankKeepsTies(kept, v);
    }
  }

  /** The facts of `RankedKept` for the run's own candidate pairs. */
  lemma RankedPairsFacts(finds: seq<Find>, groups: seq<CoinGroup>, cfg: Config)
    requires cfg.tolX != 0.0 && cfg.tolY != 0.0
    requires FindsHave(finds, cfg.compareColumns) && GroupsHave(groups, cfg.similarityColumns)
    ensures Evaluable(Candidates(finds, groups, cfg), Survivors(finds, groups), groups, cfg)
    ensures NonIncreasing(RankedPairs(finds, groups, cfg))
    ensures forall r :: r in RankedPairs(finds, groups, cfg) ==> 0.0 < r.score <= 100.0
    ensures forall r :: r in RankedPairs(finds, groups, cfg) ==>
              exists k :: QualifiesAt(Candidates(finds, groups, cfg), Survivors(finds, groups), groups, cfg, k)
                          && r == ResultOf(Candidates(finds, groups, cfg)[k], Survivors(finds, groups), groups, cfg)
    ensures forall k :: QualifiesAt(Candidates(finds, groups, cfg), Survivors(finds, groups), groups, cfg, k) ==>
              ResultOf(Candidates(finds, groups, cfg)[k], Survivors(finds, groups), groups, cfg) in RankedPairs(finds, groups, cfg)
    ensures forall v :: WithScore(RankedPairs(finds, groups, cfg), v)
                        == WithScore(Kept(Candidates(finds, groups, cfg), Survivors(finds, groups), groups, cfg), v)
  {
    CandidatesEvaluable(finds, groups, cfg);
    var s, pairs := Survivors(finds, groups), Candidates(finds, groups, cfg);
    assert RankedPairs(finds, groups, cfg) == RankByScore(Kept(pairs, s, groups, cfg));
    RankedKept(pairs, s, groups, cfg);
  }

  /** Both headers hold every configured column. */
  ghost predicate ColumnsPresent(cfg: Config, groupHeader: seq<Column>, findHeader: seq<Column>) {
    && (forall c :: c in cfg.similarityColumns ==> c in groupHeader)
    && (forall c :: c in cfg.compareColumns ==> c in findHeader)
  }

  /** Some candidate pair passes every check while there is no similarity column to merge on. */
  ghost predicate ScoringFails(finds: seq<Find>, groups: seq<CoinGroup>, cfg: Config)
    requires cfg.tolX != 0.0 && cfg.tolY != 0.0
    requires FindsHave(finds, cfg.compareColumns) && GroupsHave(groups, cfg.similarityColumns)
  {
    CandidatesEvaluable(finds, groups, cfg);
    cfg.similarityColumns == [] && exists k :: PassesAt(Candidates(finds, groups, cfg), Survivors(finds, groups), groups, cfg, k)
  }

  /**
   * The whole run, from the two read files to what it writes: the first
   * missing column, "no finds remaining", a failure, "no suspicious finds",
   * or the ranked result lines, each exactly when the source reaches it.
   */
  method CalculateSimilarityBetweenPairs(
    groups: seq<CoinGroup>, groupHeader: seq<Column>,
    finds: seq<Find>, findHeader: seq<Column>,
    cfg: Config)
    returns (out: Outcome)
    requires GroupsHave(groups, groupHeader)
    requires FindsHave(finds, findHeader)
    ensures out.MissingGroupColumn? <==> exists c :: c in cfg.similarityColumns && c !in groupHeader
    ensures out.MissingGroupColumn? ==> out.column in cfg.similarityColumns && out.column !in groupHeader
    ensures out.MissingGroupColumn? ==> FirstMissing(cfg.similarityColumns, groupHeader) == Some(out.column)
    ensures out.MissingFindColumn? <==>
              (forall c :: c in cfg.similarityColumns ==> c in groupHeader)
              && exists c :: c in cfg.compareColumns && c !in findHeader
    ensures out.MissingFindColumn? ==> out.column in cfg.compareColumns && out.column !in findHeader
    ensures out.MissingFindColumn? ==> FirstMissing(cfg.compareColumns, findHeader) == Some(out.column)
    ensures out == NoFindsRemaining <==> ColumnsPresent(cfg, groupHeader, findHeader) && Survivors(finds, groups) == []
    ensures ColumnsPresent(cfg, groupHeader, findHeader) ==>
              FindsHave(finds, cfg.compareColumns) && GroupsHave(groups, cfg.similarityColumns)
    ensures out == Failed <==>
              && ColumnsPresent(cfg, groupHeader, findHeader) && Survivors(finds, groups) != []
              && (cfg.tolX == 0.0 || cfg.tolY == 0.0 || ScoringFails(finds, groups, cfg))
    ensures out == NoSuspiciousFinds <==>
              && ColumnsPresent(cfg, groupHeader, findHeader) && Survivors(finds, groups) != []
              && cfg.tolX != 0.0 && cfg.tolY != 0.0 && Buckets(Survivors(finds, groups), cfg) == []
    ensures out.Ranked? ==>
              && cfg.tolX != 0.0 && cfg.tolY != 0.0
              && FindsHave(finds, cfg.compareColumns) && GroupsHave(groups, cfg.similarityColumns)
              && out.pairs == RankedPairs(finds, groups, cfg)
  {
    var missing := FirstMissing(cfg.similarityColumns, groupHeader);
    if missing.Some? {
      return MissingGroupColumn(missing.value);
    }
    missing := FirstMissing(cfg.compareColumns, findHeader);
    if missing.Some? {
      return MissingFindColumn(missing.value);
    }
    var survivors := Survivors(finds, groups);
    if survivors == [] {
      return NoFindsRemaining;
    }
    if cfg.tolX == 0.0 || cfg.tolY == 0.0 {
      // the division yields inf or nan, and int() raises on it
      return Failed;
    }
    var buckets := Buckets(survivors, cfg);
    if buckets == [] {
      return NoSuspiciousFinds;
    }
    var pairs := GeneratePairs(buckets);
    CandidatesEvaluable(finds, groups, cfg);
    var results, failed := ScorePairs(pairs, survivors, groups, cfg);
    if failed {
      return Failed;
    }
    return Ranked(RankByScore(results));
  }
}
