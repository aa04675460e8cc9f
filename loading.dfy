/** The column checks `load_data` performs once the spreadsheet has been read
    and its cells coerced: the empty-table check, the required-column check
    and the per-column count of cells that did not coerce. */
module Loading {
  import opened Tables

  /** The columns every input must have, in the order the error lists them. */
  const REQUIRED_COLUMNS: seq<string> := [ACCOUNT_CODE, DATE, ACCOUNT_BOOK]

  /** The coerced columns whose null cells are reported after coercion. */
  const REPORTED_COLUMNS: seq<string> := [DATE, DEBIT, CREDIT]

  datatype LoadError = EmptyFile | MissingColumns(names: seq<string>)

  /** Advisory: `count` cells of `column` are null after coercion. */
  datatype ConversionIssue = InvalidValues(column: string, count: nat)

  datatype LoadResult =
    | Failed(error: LoadError)
    | Loaded(table: Table, issues: seq<ConversionIssue>)

  /** The advisory for one coerced column: present only when the column
      exists and holds at least one null after coercion. */
  function IssueFor(column: string, t: Table): (issue: seq<ConversionIssue>)
    ensures |issue| <= 1
    ensures issue != [] <==> column in t.columns && exists k :: 0 <= k < |t.rows| && Cell(t.rows[k], column).None?
    ensures issue != [] <==> column in t.columns && NullCount(t.rows, column) > 0
    ensures issue != [] ==> issue[0] == InvalidValues(column, NullCount(t.rows, column))
  {
    if column in t.columns && NullCount(t.rows, column) > 0 then [InvalidValues(column, NullCount(t.rows, column))] else []
  }

  /** The conversion advisories in the order the three coercions run: one
      per reported column that exists and holds a null, carrying its null
      count, no column twice, and nothing else. */
  function ConversionIssues(t: Table): (issues: seq<ConversionIssue>)
    ensures |issues| <= |REPORTED_COLUMNS|
    ensures forall x :: x in issues <==>
      && x.column in REPORTED_COLUMNS && x.column in t.columns
      && x.count == NullCount(t.rows, x.column) > 0
    ensures forall i, j :: 0 <= i < j < |issues| ==> issues[i].column != issues[j].column
    ensures issues != [] && DATE in t.columns && NullCount(t.rows, DATE) > 0 ==> issues[0].column == DATE
    ensures issues != [] && CREDIT in t.columns && NullCount(t.rows, CREDIT) > 0 ==> issues[|issues| - 1].column == CREDIT
  {
    assert forall c :: c in REPORTED_COLUMNS <==> c == DATE || c == DEBIT || c == CREDIT;
    assert DATE[0] != DEBIT[0] && DATE[0] != CREDIT[0] && DEBIT[0] != CREDIT[0];
    Concatenated(t, DATE, DEBIT, CREDIT);
    IssueFor(DATE, t) + IssueFor(DEBIT, t) + IssueFor(CREDIT, t)
  }

  /** The advisories of three different columns, one after another: each
      column's advisory, present when it exists and holds a null, no column
      twice, the first column's advisory first and the last one's last. */
  lemma Concatenated(t: Table, ca: string, cb: string, cc: string)
    requires ca != cb && ca != cc && cb != cc
    ensures var s := IssueFor(ca, t) + IssueFor(cb, t) + IssueFor(cc, t);
      && |s| <= 3
      && (forall x :: x in s <==>
            && (x.column == ca || x.column == cb || x.column == cc) && x.column in t.columns
            && x.count == NullCount(t.rows, x.column) > 0)
      && (forall i, j :: 0 <= i < j < |s| ==> s[i].column != s[j].column)
      && (ca in t.columns && NullCount(t.rows, ca) > 0 ==> s[0].column == ca)
      && (cc in t.columns && NullCount(t.rows, cc) > 0 ==> s[|s| - 1].column == cc)
  {
    var a, b, c := IssueFor(ca, t), IssueFor(cb, t), IssueFor(cc, t);
    ConcatenatedLists(a, b, c, ca, cb, cc);
    IssueMembership(ca, t);
    IssueMembership(cb, t);
    IssueMembership(cc, t);
    forall x: ConversionIssue ensures x in a + b + c <==>
      && (x.column == ca || x.column == cb || x.column == cc) && x.column in t.columns
      && x.count == NullCount(t.rows, x.column) > 0
    {
      assert x in a + b + c <==> x in a || x in b || x in c;
    }
  }

  /** Three lists of at most one advisory each, for three different columns,
      put one after another. */
  lemma ConcatenatedLists(a: seq<ConversionIssue>, b: seq<ConversionIssue>, c: seq<ConversionIssue>,
                          ca: string, cb: string, cc: string)
    requires |a| <= 1 && |b| <= 1 && |c| <= 1
    requires (a != [] ==> a[0].column == ca) && (b != [] ==> b[0].column == cb) && (c != [] ==> c[0].column == cc)
    requires ca != cb && ca != cc && cb != cc
    ensures var s := a + b + c;
      && |s| <= 3
      && (forall x :: x in s <==> x in a || x in b || x in c)
      && (forall i, j :: 0 <= i < j < |s| ==> s[i].column != s[j].column)
      && (a != [] ==> s[0] == a[0])
      && (c != [] ==> s[|s| - 1] == c[0])
  {
  }

  /** Which advisories the list for one column holds. */
  lemma IssueMembership(column: string, t: Table)
    ensures forall x :: x in IssueFor(column, t) <==>
      x.column == column && column in t.columns && x.count == NullCount(t.rows, column) > 0
  {
  }

  /** The checks of `load_data` in their order: an empty table fails, then a
      table lacking any required column fails naming all the missing ones;
      otherwise the table is accepted unchanged with its conversion issues. */
  function CheckLoaded(t: Table): (r: LoadResult)
    ensures r.Failed? <==> |t.rows| == 0 || |t.columns| == 0 || exists c :: c in REQUIRED_COLUMNS && c !in t.columns
    ensures r == Failed(EmptyFile) <==> |t.rows| == 0 || |t.columns| == 0
    ensures r.Failed? && r.error.MissingColumns? ==>
      && r.error.names == Absent(REQUIRED_COLUMNS, t.columns)
      && forall c :: c in r.error.names <==> c in REQUIRED_COLUMNS && c !in t.columns
    ensures r.Loaded? ==> r.table == t && r.issues == ConversionIssues(t)
  {
    if |t.rows| == 0 || |t.columns| == 0 then Failed(EmptyFile)
    else
      var missing := Absent(REQUIRED_COLUMNS, t.columns);
      if missing != [] then
        assert missing[0] in REQUIRED_COLUMNS && missing[0] !in t.columns;
        Failed(MissingColumns(missing))
      else
        assert forall c :: c in REQUIRED_COLUMNS ==> c in t.columns by {
          forall c | c in REQUIRED_COLUMNS ensures c in t.columns {
            assert c !in missing;
          }
        }
        Loaded(t, ConversionIssues(t))
  }
}
