/**
 * `find_exact_duplicates`: the rows of one CSV file are grouped by the key
 * columns and every group of more than one row is reported.
 */
module ExactDuplicates {
  import opened Tables
  import opened Grouping

  /** What the run writes to its output file. */
  datatype Outcome =
    | MissingColumn(column: Column)  // "Column ... does not exist in the file."
    | Failed                         // groupby raised (no key column on a non-empty file)
    | Written(duplicates: seq<seq<nat>>, noDuplicatesLine: bool)
      // the reported groups, as row positions, in the order written;
      // noDuplicatesLine: "No exact duplicates found based on the specified columns."

  ghost predicate RowsHaveAll(rows: seq<Row>, cols: seq<Column>) {
    forall r :: r in rows ==> HasColumns(r, cols)
  }

  /** The key of each row: its cells under the key columns. */
  function RowKeys(rows: seq<Row>, cols: seq<Column>): (ks: seq<seq<Value>>)
    requires RowsHaveAll(rows, cols)
    ensures |ks| == |rows|
  {
    seq(|rows|, i requires 0 <= i < |rows| => assert rows[i] in rows; Project(rows[i], cols))
  }

  /** The row groups of more than one row: `df.groupby(column_names)` filtered by `len(group) > 1`. */
  function DuplicateGroups(rows: seq<Row>, cols: seq<Column>): seq<seq<nat>>
    requires RowsHaveAll(rows, cols)
  {
    KeepRepeated(GroupBy(RowKeys(rows, cols)))
  }

  /** Rows i and i' agree on every key column. */
  ghost predicate RowsAgree(rows: seq<Row>, cols: seq<Column>, i: nat, i': nat)
    requires RowsHaveAll(rows, cols)
  {
    i < |rows| && i' < |rows| && (assert rows[i] in rows && rows[i'] in rows; AgreeOn(rows[i], rows[i'], cols))
  }

  /**
   * The reported groups are ascending and pairwise disjoint; each holds more
   * than one row, and its rows agree on every key column.
   */
  lemma DuplicateGroupsAgree(rows: seq<Row>, cols: seq<Column>)
    requires RowsHaveAll(rows, cols)
    ensures DisjointAscending(DuplicateGroups(rows, cols))
    ensures forall c :: c in DuplicateGroups(rows, cols) ==> |c| > 1
    ensures forall c, i, i' :: c in DuplicateGroups(rows, cols) && i in c && i' in c ==> RowsAgree(rows, cols, i, i')
  {
    var ks := RowKeys(rows, cols);
    RepeatedClasses(ks, GroupBy(ks));
    forall c, i, i' | c in DuplicateGroups(rows, cols) && i in c && i' in c
      ensures RowsAgree(rows, cols, i, i')
    {
      assert rows[i] in rows && rows[i'] in rows;
      ProjectEqual(rows[i], rows[i'], cols);
    }
  }

  /**
   * A row is reported exactly when some other row agrees with it on every
   * key column.
   */
  lemma DuplicateGroupsCover(rows: seq<Row>, cols: seq<Column>, i: nat)
    requires RowsHaveAll(rows, cols)
    requires i < |rows|
    ensures (exists c :: c in DuplicateGroups(rows, cols) && i in c)
            <==> exists i' :: 0 <= i' < |rows| && i' != i && RowsAgree(rows, cols, i, i')
  {
    var ks := RowKeys(rows, cols);
    assert rows[i] in rows;
    RepeatedCoverage(ks, GroupBy(ks), i);
    forall i' | 0 <= i' < |rows|
      ensures ks[i'] == ks[i] <==> RowsAgree(rows, cols, i, i')
    {
      assert rows[i'] in rows;
      ProjectEqual(rows[i], rows[i'], cols);
    }
  }

  /**
   * A reported group is maximal: every row that agrees with one of its rows
   * on the key columns is in it.
   */
  lemma DuplicateGroupsMaximal(rows: seq<Row>, cols: seq<Column>, c: seq<nat>, i: nat, i': nat)
    requires RowsHaveAll(rows, cols)
    requires c in DuplicateGroups(rows, cols) && i in c && i' < |rows|
    ensures i < |rows|
    ensures i' in c <==> RowsAgree(rows, cols, i, i')
  {
    var ks := RowKeys(rows, cols);
    var g := GroupBy(ks);
    var j :| 0 <= j < |g| && g[j] == c;
    assert rows[i] in rows && rows[i'] in rows;
    ProjectEqual(rows[i], rows[i'], cols);
  }

  /** Nothing is reported exactly when no two rows agree on every key column. */
  lemma NoDuplicatesIffDistinct(rows: seq<Row>, cols: seq<Column>)
    requires RowsHaveAll(rows, cols)
    ensures DuplicateGroups(rows, cols) == [] <==> forall i, i' :: 0 <= i < i' < |rows| ==> !RowsAgree(rows, cols, i, i')
  {
    var d := DuplicateGroups(rows, cols);
    DuplicateGroupsAgree(rows, cols);
    if d != [] {
      var c := d[0];
      assert c in d;
      assert c[0] < c[1] && c[0] in c && c[1] in c;
      assert RowsAgree(rows, cols, c[0], c[1]);
    }
    if exists i, i' :: 0 <= i < i' < |rows| && RowsAgree(rows, cols, i, i') {
      var i, i' :| 0 <= i < i' < |rows| && RowsAgree(rows, cols, i, i');
      DuplicateGroupsCover(rows, cols, i);
      assert i' != i;
    }
  }

  /**
   * The loop over the groups: writes every group of more than one row and
   * remembers whether any was written.
   */
  method ReportRepeated(groups: seq<seq<nat>>) returns (reported: seq<seq<nat>>, found: bool)
    ensures reported == KeepRepeated(groups)
    ensures found <==> reported != []
  {
    found := false;
    reported := [];
    for k := 0 to |groups|
      invariant reported == KeepRepeated(groups[..k])
      invariant found <==> reported != []
    {
      assert groups[..k + 1] == groups[..k] + [groups[k]];
      assert groups[..k + 1][..k] == groups[..k];
      if |groups[k]| > 1 {
        found := true;
        reported := reported + [groups[k]];
      }
    }
    assert groups[..|groups|] == groups;
  }

  /**
   * The whole run: the first missing column, a failure when there is no key
   * column and the file has rows, or the groups of more than one row and the "no exact duplicates"
   * line exactly when there is none.
   */
  method FindExactDuplicates(t: Table, columnNames: seq<Column>, extraColumns: seq<Column>) returns (out: Outcome)
    requires WellFormed(t)
    ensures out.MissingColumn? <==> exists c :: c in columnNames + extraColumns && c !in t.header
    ensures out.MissingColumn? ==> out.column in columnNames + extraColumns && out.column !in t.header
    ensures out.MissingColumn? ==> FirstMissing(columnNames + extraColumns, t.header) == Some(out.column)
    ensures out == Failed <==>
              (forall c :: c in columnNames + extraColumns ==> c in t.header) && columnNames == [] && t.rows != []
    ensures out.Written? ==>
              && (columnNames != [] || t.rows == [])
              && (forall c :: c in columnNames + extraColumns ==> c in t.header)
              && RowsHaveAll(t.rows, columnNames)
              && out.duplicates == DuplicateGroups(t.rows, columnNames)
              && (out.noDuplicatesLine <==> out.duplicates == [])
  {
    var missing := FirstMissing(columnNames + extraColumns, t.header);
    if missing.Some? {
      return MissingColumn(missing.value);
    }
    if columnNames == [] && t.rows != [] {
      // groupby with an empty key list raises ("No group keys passed!") unless the frame is empty
      return Failed;
    }
    assert forall c :: c in columnNames ==> c in columnNames + extraColumns;
    var groups := GroupBy(RowKeys(t.rows, columnNames));
    var reported, found := ReportRepeated(groups);
    return Written(reported, !found);
  }
}
