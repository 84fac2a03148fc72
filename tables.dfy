/**
 * Cells, rows and tables as the three duplicate finders see them once a CSV
 * file has been read, and the column-presence check each of them runs
 * before doing any work.
 */
module Tables {

  type Column = string

  /** A cell: pandas reads every numeric column as a number and every other column as text. */
  datatype Value = Number(n: real) | Text(s: string)

  /** A row maps each column of its file to the cell under it. */
  type Row = map<Column, Value>

  datatype Option<T> = None | Some(value: T)

  /** A CSV file once read: the header and the rows. */
  datatype Table = Table(header: seq<Column>, rows: seq<Row>)

  /** Every row has a cell under every header column (a blank cell is still a value here). */
  ghost predicate WellFormed(t: Table) {
    forall r, c :: r in t.rows && c in t.header ==> c in r
  }

  /** All the given columns are present in the row. */
  ghost predicate HasColumns(row: Row, cols: seq<Column>) {
    forall c :: c in cols ==> c in row
  }

  /**
   * The column-presence check: walks `required` in order and reports the
   * first column that the header lacks, or None when all are present.
   */
  function FirstMissing(required: seq<Column>, header: seq<Column>): (r: Option<Column>)
    ensures r.None? <==> forall c :: c in required ==> c in header
    ensures r.Some? ==> exists k :: 0 <= k < |required| && required[k] == r.value && r.value !in header
                                     && forall m :: 0 <= m < k ==> required[m] in header
  {
    if required == [] then None
    else if required[0] !in header then Some(required[0])
    else
      var r := FirstMissing(required[1..], header);
      assert forall c :: c in required ==> c == required[0] || c in required[1..];
      if r.Some? then
        ghost var k :| 0 <= k < |required[1..]| && required[1..][k] == r.value && r.value !in header
                       && forall m :: 0 <= m < k ==> required[1..][m] in header;
        assert required[k + 1] == r.value;
        r
      else r
  }

  /** The tuple of a row's cells under the given columns, in column order (`row[cols]` in pandas). */
  function Project(row: Row, cols: seq<Column>): (r: seq<Value>)
    requires HasColumns(row, cols)
    ensures |r| == |cols|
  {
    if cols == [] then [] else [row[cols[0]]] + Project(row, cols[1..])
  }

  /** Two rows agree on every one of the given columns. */
  predicate AgreeOn(r1: Row, r2: Row, cols: seq<Column>)
    requires HasColumns(r1, cols) && HasColumns(r2, cols)
  {
    forall c :: c in cols ==> r1[c] == r2[c]
  }

  /** Two rows have the same key tuple exactly when they agree on every key column. */
  lemma {:induction false} ProjectEqual(r1: Row, r2: Row, cols: seq<Column>)
    requires HasColumns(r1, cols) && HasColumns(r2, cols)
    ensures Project(r1, cols) == Project(r2, cols) <==> AgreeOn(r1, r2, cols)
  {
    if cols != [] {
      ProjectEqual(r1, r2, cols[1..]);
      var p1, p2 := Project(r1, cols), Project(r2, cols);
      assert p1[0] == r1[cols[0]] && p2[0] == r2[cols[0]];
      assert p1[1..] == Project(r1, cols[1..]) && p2[1..] == Project(r2, cols[1..]);
      assert forall c :: c in cols ==> c == cols[0] || c in cols[1..];
      if p1 == p2 {
        assert p1[1..] == p2[1..];
      }
    }
  }
}
