/**
 * `find_conditioned_duplicates_with_join`: CoinGroups rows are joined to
 * their CoinFinds row (`cfID == ID`), grouped by the CoinGroups columns that
 * must be equal, and a group is reported when every "different" CoinGroups
 * column holds more than one distinct value in it and every "same" CoinFinds
 * column holds exactly one.
 */
module ConditionedDuplicates {
  import opened Tables
  import opened Grouping

  /** The CoinGroups column naming the find a group row belongs to. */
  const GroupKey: Column := "cfID"

  /** The CoinFinds column holding a find's ID. */
  const FindKey: Column := "ID"

  /** A row of the inner join: a CoinGroups row and a CoinFinds row whose ID is its cfID. */
  datatype Joined = Joined(group: Row, find: Row)

  /** What the run writes to its output file. */
  datatype Outcome =
    | MissingGroupColumn(column: Column)  // "Column ... does not exist in CoinGroups.csv."
    | MissingFindColumn(column: Column)   // "Column ... does not exist in CoinFinds.csv."
    | Failed                              // the join raised (no cfID column)
    | Written(joined: seq<Joined>, duplicates: seq<seq<nat>>, noDuplicatesLine: bool)
      // the reported groups, as positions into the joined rows, in the order written;
      // noDuplicatesLine: "No duplicates found meeting the specified conditions."

  ghost predicate RowsHave(rows: seq<Row>, c: Column) {
    forall r :: r in rows ==> c in r
  }

  /** The join rows of one CoinGroups row: one per CoinFinds row with a matching ID, in file order. */
  function MatchesOf(g: Row, finds: seq<Row>): (r: seq<Joined>)
    requires GroupKey in g && RowsHave(finds, FindKey)
    ensures forall j :: j in r <==> j.group == g && j.find in finds && j.find[FindKey] == g[GroupKey]
  {
    if finds == [] then []
    else
      var init := finds[..|finds| - 1];
      var f := finds[|finds| - 1];
      assert finds == init + [f];
      var r := MatchesOf(g, init);
      if f[FindKey] == g[GroupKey] then r + [Joined(g, f)] else r
  }

  /** `pd.merge(coin_groups, coin_finds, left_on="cfID", right_on="ID", how="inner")`, in CoinGroups order. */
  function Join(groups: seq<Row>, finds: seq<Row>): seq<Joined>
    requires RowsHave(groups, GroupKey) && RowsHave(finds, FindKey)
  {
    if groups == [] then []
    else
      var init := groups[..|groups| - 1];
      assert forall g :: g in init ==> g in groups;
      Join(init, finds) + MatchesOf(groups[|groups| - 1], finds)
  }

  /** The join holds exactly the pairs of a CoinGroups row and a CoinFinds row whose ID is its cfID. */
  lemma {:induction false} JoinMembers(groups: seq<Row>, finds: seq<Row>, j: Joined)
    requires RowsHave(groups, GroupKey) && RowsHave(finds, FindKey)
    ensures j in Join(groups, finds) <==>
              j.group in groups && j.find in finds && GroupKey in j.group && FindKey in j.find
              && j.find[FindKey] == j.group[GroupKey]
  {
    if groups != [] {
      var init := groups[..|groups| - 1];
      var g := groups[|groups| - 1];
      assert groups == init + [g];
      assert forall h :: h in init ==> h in groups;
      JoinMembers(init, finds, j);
    }
  }

  /** Every join row has the given CoinGroups columns and CoinFinds columns. */
  ghost predicate JoinedHave(joined: seq<Joined>, groupCols: seq<Column>, findCols: seq<Column>) {
    forall j :: j in joined ==> HasColumns(j.group, groupCols) && HasColumns(j.find, findCols)
  }

  /** Every position listed in `cs` is a position of `joined`. */
  ghost predicate InRange(cs: seq<seq<nat>>, joined: seq<Joined>) {
    forall c, i :: c in cs && i in c ==> i < |joined|
  }

  /** The key of each join row under the `same` CoinGroups columns. */
  function SameKeys(joined: seq<Joined>, same: seq<Column>): (ks: seq<seq<Value>>)
    requires JoinedHave(joined, same, [])
    ensures |ks| == |joined|
  {
    seq(|joined|, i requires 0 <= i < |joined| => assert joined[i] in joined; Project(joined[i].group, same))
  }

  /** The positions 0, 1, ..., n - 1. */
  function Positions(n: nat): (r: seq<nat>)
    ensures |r| == n && forall i :: 0 <= i < n ==> r[i] == i
  {
    seq(n, i requires 0 <= i < n => i)
  }

  /**
   * The groups the loop visits: `merged.groupby(same_columns)`, or the
   * whole join as a single group when there is no `same` column.
   */
  function CandidateGroups(joined: seq<Joined>, same: seq<Column>): seq<seq<nat>>
    requires JoinedHave(joined, same, [])
  {
    if same == [] then [Positions(|joined|)] else GroupBy(SameKeys(joined, same))
  }

  /**
   * The candidate groups are ascending and disjoint, cover every join row,
   * and the rows of each agree on every `same` column; with no `same` column
   * there is exactly one group, holding every join row.
   */
  lemma CandidateGroupsFacts(joined: seq<Joined>, same: seq<Column>)
    requires JoinedHave(joined, same, [])
    ensures DisjointAscending(CandidateGroups(joined, same))
    ensures InRange(CandidateGroups(joined, same), joined)
    ensures forall i :: 0 <= i < |joined| ==> Covered(CandidateGroups(joined, same), i)
    ensures forall c, i, i' :: c in CandidateGroups(joined, same) && i in c && i' in c ==>
              i < |joined| && i' < |joined| && joined[i] in joined && joined[i'] in joined
              && AgreeOn(joined[i].group, joined[i'].group, same)
    ensures same == [] ==> CandidateGroups(joined, same) == [Positions(|joined|)]
  {
    var cs := CandidateGroups(joined, same);
    assert forall i :: 0 <= i < |joined| ==> joined[i] in joined;
    if same == [] {
      var all := Positions(|joined|);
      forall i | 0 <= i < |joined| ensures Covered(cs, i) {
        assert all[i] == i;
        assert i in cs[0];
      }
    } else {
      var ks := SameKeys(joined, same);
      forall c, i, i' | c in cs && i in c && i' in c
        ensures AgreeOn(joined[i].group, joined[i'].group, same)
      {
        ProjectEqual(joined[i].group, joined[i'].group, same);
        var j :| 0 <= j < |cs| && cs[j] == c;
      }
    }
  }

  /** The distinct values of a CoinGroups column over the rows of group `c` (`group[col].nunique()` counts them). */
  function GroupValues(joined: seq<Joined>, c: seq<nat>, col: Column): set<Value>
    requires forall i :: i in c ==> i < |joined| && col in joined[i].group
  {
    set i | i in c :: joined[i].group[col]
  }

  /** The distinct values of a CoinFinds column over the rows of group `c`. */
  function FindValues(joined: seq<Joined>, c: seq<nat>, col: Column): set<Value>
    requires forall i :: i in c ==> i < |joined| && col in joined[i].find
  {
    set i | i in c :: joined[i].find[col]
  }

  /**
   * The two conditions on a group: every `different` CoinGroups column has
   * more than one distinct value and every `findSame` CoinFinds column has
   * exactly one (each vacuous when its list is empty).
   */
  predicate Qualifies(joined: seq<Joined>, c: seq<nat>, different: seq<Column>, findSame: seq<Column>)
    requires forall i :: i in c ==> i < |joined|
    requires JoinedHave(joined, different, findSame)
  {
    assert forall i :: i in c ==> joined[i] in joined;
    && (forall col :: col in different ==> |GroupValues(joined, c, col)| > 1)
    && (forall col :: col in findSame ==> |FindValues(joined, c, col)| == 1)
  }

  /** The candidate groups that meet both conditions, in the order visited. */
  function Qualifying(joined: seq<Joined>, cs: seq<seq<nat>>, different: seq<Column>, findSame: seq<Column>): (r: seq<seq<nat>>)
    requires InRange(cs, joined) && JoinedHave(joined, different, findSame)
    ensures forall c :: c in r <==> c in cs && Qualifies(joined, c, different, findSame)
  {
    if cs == [] then []
    else
      var init := cs[..|cs| - 1];
      var c := cs[|cs| - 1];
      assert cs == init + [c];
      var r := Qualifying(joined, init, different, findSame);
      if Qualifies(joined, c, different, findSame) then r + [c] else r
  }

  /** Two members of a one-element set are equal. */
  lemma OneValue<T>(s: set<T>, a: T, b: T)
    requires |s| == 1 && a in s && b in s
    ensures a == b
  {
    assert |s - {a}| == 0;
    assert b in s - {a} <==> a != b;
  }

  /** In a group meeting both conditions, the rows agree on every `findSame` CoinFinds column. */
  lemma QualifiesAgree(joined: seq<Joined>, c: seq<nat>, different: seq<Column>, findSame: seq<Column>, i: nat, i': nat)
    requires forall i :: i in c ==> i < |joined|
    requires JoinedHave(joined, different, findSame)
    requires Qualifies(joined, c, different, findSame)
    requires i in c && i' in c
    ensures joined[i] in joined && joined[i'] in joined
    ensures AgreeOn(joined[i].find, joined[i'].find, findSame)
  {
    assert joined[i] in joined && joined[i'] in joined;
    forall col | col in findSame ensures joined[i].find[col] == joined[i'].find[col] {
      OneValue(FindValues(joined, c, col), joined[i].find[col], joined[i'].find[col]);
    }
  }

  /** In a group meeting both conditions, a `different` CoinGroups column takes two different values on two of its rows. */
  lemma QualifiesDiffer(joined: seq<Joined>, c: seq<nat>, different: seq<Column>, findSame: seq<Column>, col: Column)
      returns (i: nat, i': nat)
    requires forall i :: i in c ==> i < |joined|
    requires JoinedHave(joined, different, findSame)
    requires Qualifies(joined, c, different, findSame)
    requires col in different
    ensures i in c && i' in c && i != i'
    ensures joined[i] in joined && joined[i'] in joined && joined[i].group[col] != joined[i'].group[col]
  {
    assert forall k :: k in c ==> joined[k] in joined;
    var vs := GroupValues(joined, c, col);
    assert |vs| > 1;
    var v :| v in vs;
    assert |vs - {v}| > 0;
    var w :| w in vs - {v};
    i :| i in c && joined[i].group[col] == v;
    i' :| i' in c && joined[i'].group[col] == w;
  }

  /**
   * In a reported group, the rows agree on every `same` CoinGroups column
   * and on every `findSame` CoinFinds column.
   */
  lemma ReportedRowsAgree(joined: seq<Joined>, same: seq<Column>, different: seq<Column>, findSame: seq<Column>,
                          c: seq<nat>, i: nat, i': nat)
    requires JoinedHave(joined, same, []) && JoinedHave(joined, different, findSame)
    requires InRange(CandidateGroups(joined, same), joined)
    requires c in Qualifying(joined, CandidateGroups(joined, same), different, findSame)
    requires i in c && i' in c
    ensures i < |joined| && i' < |joined| && joined[i] in joined && joined[i'] in joined
    ensures AgreeOn(joined[i].group, joined[i'].group, same)
    ensures AgreeOn(joined[i].find, joined[i'].find, findSame)
  {
    CandidateGroupsFacts(joined, same);
    QualifiesAgree(joined, c, different, findSame, i, i');
  }

  /**
   * In a reported group, every `different` CoinGroups column takes two
   * different values on two of its rows; so with a `different` column, a
   * group of one row is never reported.
   */
  lemma ReportedRowsDiffer(joined: seq<Joined>, same: seq<Column>, different: seq<Column>, findSame: seq<Column>,
                           c: seq<nat>, col: Column)
    requires JoinedHave(joined, same, []) && JoinedHave(joined, different, findSame)
    requires InRange(CandidateGroups(joined, same), joined)
    requires c in Qualifying(joined, CandidateGroups(joined, same), different, findSame)
    requires col in different
    ensures exists i, i' :: i in c && i' in c && i < |joined| && i' < |joined| && joined[i] in joined && joined[i'] in joined
                            && joined[i].group[col] != joined[i'].group[col]
    ensures |c| > 1
  {
    var cs := CandidateGroups(joined, same);
    assert c in cs && Qualifies(joined, c, different, findSame);
    assert forall k :: k in c ==> k < |joined|;
    var i, i' := QualifiesDiffer(joined, c, different, findSame, col);
    assert i in c && i' in c && i < |joined| && i' < |joined| && joined[i] in joined && joined[i'] in joined
           && joined[i].group[col] != joined[i'].group[col];
    var a :| 0 <= a < |c| && c[a] == i;
    var b :| 0 <= b < |c| && c[b] == i';
    assert a != b;
  }

  /** With neither a `different` nor a `findSame` column, every candidate group is reported. */
  lemma NoConditionsReportsAll(joined: seq<Joined>, same: seq<Column>)
    requires JoinedHave(joined, same, [])
    ensures InRange(CandidateGroups(joined, same), joined)
    ensures Qualifying(joined, CandidateGroups(joined, same), [], []) == CandidateGroups(joined, same)
  {
    CandidateGroupsFacts(joined, same);
    QualifyingAll(joined, CandidateGroups(joined, same));
  }

  lemma {:induction false} QualifyingAll(joined: seq<Joined>, cs: seq<seq<nat>>)
    requires InRange(cs, joined)
    ensures Qualifying(joined, cs, [], []) == cs
  {
    if cs != [] {
      var init := cs[..|cs| - 1];
      assert InRange(init, joined);
      QualifyingAll(joined, init);
      assert init + [cs[|cs| - 1]] == cs;
    }
  }

  /** Every join row has the columns its table's header lists. */
  lemma JoinedColumns(groups: Table, finds: Table, groupCols: seq<Column>, findCols: seq<Column>)
    requires WellFormed(groups) && WellFormed(finds)
    requires GroupKey in groups.header && FindKey in finds.header
    requires forall c :: c in groupCols ==> c in groups.header
    requires forall c :: c in findCols ==> c in finds.header
    ensures RowsHave(groups.rows, GroupKey) && RowsHave(finds.rows, FindKey)
    ensures JoinedHave(Join(groups.rows, finds.rows), groupCols, findCols)
  {
    forall j | j in Join(groups.rows, finds.rows)
      ensures HasColumns(j.group, groupCols) && HasColumns(j.find, findCols)
    {
      JoinMembers(groups.rows, finds.rows, j);
    }
  }

  /**
   * The loop over the candidate groups: evaluates both conditions on each,
   * writes the groups that meet them, and remembers whether any did.
   */
  method ReportGroups(joined: seq<Joined>, cands: seq<seq<nat>>, different: seq<Column>, findSame: seq<Column>)
    returns (reported: seq<seq<nat>>, found: bool)
    requires InRange(cands, joined) && JoinedHave(joined, different, findSame)
    ensures reported == Qualifying(joined, cands, different, findSame)
    ensures found <==> reported != []
  {
    found := false;
    reported := [];
    for k := 0 to |cands|
      invariant InRange(cands[..k], joined)
      invariant reported == Qualifying(joined, cands[..k], different, findSame)
      invariant found <==> reported != []
    {
      var c := cands[k];
      assert c in cands;
      assert cands[..k + 1] == cands[..k] + [c];
      assert forall i :: i in c ==> i < |joined| && joined[i] in joined;
      var differentCondition := true;
      if different != [] {
        differentCondition := forall col :: col in different ==> |GroupValues(joined, c, col)| > 1;
      }
      var consistent := true;
      if findSame != [] {
        consistent := forall col :: col in findSame ==> |FindValues(joined, c, col)| == 1;
      }
      assert differentCondition && consistent <==> Qualifies(joined, c, different, findSame);
      if differentCondition && consistent {
        found := true;
        reported := reported + [c];
      }
    }
    assert cands[..|cands|] == cands;
  }

  /** All the checked columns are in their files. */
  ghost predicate ColumnsPresent(groups: Table, finds: Table, same: seq<Column>, different: seq<Column>,
                                 extraFinds: seq<Column>, findSame: seq<Column>) {
    && (forall c :: c in same + different ==> c in groups.header)
    && (forall c :: c in findSame + extraFinds + [FindKey] ==> c in finds.header)
  }

  /**
   * The whole run: the first missing column, a failure when CoinGroups has no
   * cfID to join on, or the join, the groups reported (exactly the candidate
   * groups that meet both conditions, in order) and the "no duplicates" line
   * exactly when none is reported.
   */
  method FindConditionedDuplicatesWithJoin(
    groups: Table, finds: Table,
    same: seq<Column>, different: seq<Column>, extraFinds: seq<Column>, findSame: seq<Column>)
    returns (out: Outcome)
    requires WellFormed(groups) && WellFormed(finds)
    ensures out.MissingGroupColumn? <==> exists c :: c in same + different && c !in groups.header
    ensures out.MissingGroupColumn? ==> out.column in same + different && out.column !in groups.header
    ensures out.MissingGroupColumn? ==> FirstMissing(same + different, groups.header) == Some(out.column)
    ensures out.MissingFindColumn? <==>
              (forall c :: c in same + different ==> c in groups.header)
              && exists c :: c in findSame + extraFinds + [FindKey] && c !in finds.header
    ensures out.MissingFindColumn? ==> out.column in findSame + extraFinds + [FindKey] && out.column !in finds.header
    ensures out.MissingFindColumn? ==> FirstMissing(findSame + extraFinds + [FindKey], finds.header) == Some(out.column)
    ensures out == Failed <==> ColumnsPresent(groups, finds, same, different, extraFinds, findSame) && GroupKey !in groups.header
    ensures out.Written? ==>
              && ColumnsPresent(groups, finds, same, different, extraFinds, findSame) && GroupKey in groups.header
              && RowsHave(groups.rows, GroupKey) && RowsHave(finds.rows, FindKey)
              && out.joined == Join(groups.rows, finds.rows)
              && JoinedHave(out.joined, same, []) && JoinedHave(out.joined, different, findSame)
              && InRange(CandidateGroups(out.joined, same), out.joined)
              && out.duplicates == Qualifying(out.joined, CandidateGroups(out.joined, same), different, findSame)
              && (out.noDuplicatesLine <==> out.duplicates == [])
  {
    var missing := FirstMissing(same + different, groups.header);
    if missing.Some? {
      return MissingGroupColumn(missing.value);
    }
    missing := FirstMissing(findSame + extraFinds + [FindKey], finds.header);
    if missing.Some? {
      return MissingFindColumn(missing.value);
    }
    if GroupKey !in groups.header {
      // pd.merge raises KeyError on the missing join column
      return Failed;
    }
    assert FindKey in findSame + extraFinds + [FindKey];
    JoinedColumns(groups, finds, same, []);
    JoinedColumns(groups, finds, different, findSame);
    var joined := Join(groups.rows, finds.rows);
    var cands := CandidateGroups(joined, same);
    CandidateGroupsFacts(joined, same);
    var reported, found := ReportGroups(joined, cands, different, findSame);
    return Written(joined, reported, !found);
  }
}
