/** `apply_top_n_filter`: order the filtered rows by an amount, largest
    first with null amounts last, and keep the first N. */
module Ranking {
  import opened Tables

  /** The `top_type` argument: `'debit'`, `'credit'`, `'both'`, or any other
      text, which orders nothing. */
  datatype TopType = ByDebit | ByCredit | ByLarger | NoOrder

  /** The helper column the `'both'` ordering adds and drops again. */
  const MAX_AMOUNT := "max_amount"

  /** What the rows end up ordered by. */
  datatype SortKey = Unsorted | ByColumn(column: string) | ByLargerAmount

  function Abs(n: int): nat
  {
    if n < 0 then -n else n
  }

  /** `df[[debit, credit]].abs().max(axis=1)`: the larger absolute amount of
      the two, skipping a null one; null when both are null. */
  function LargerAmount(r: Row): (a: Option<int>)
    ensures a.Some? <==> AmountIn(r, DEBIT).Some? || AmountIn(r, CREDIT).Some?
    ensures AmountIn(r, DEBIT).Some? ==> a.Some? && a.value >= Abs(AmountIn(r, DEBIT).value)
    ensures AmountIn(r, CREDIT).Some? ==> a.Some? && a.value >= Abs(AmountIn(r, CREDIT).value)
    ensures a.Some? ==>
      || (AmountIn(r, DEBIT).Some? && a.value == Abs(AmountIn(r, DEBIT).value))
      || (AmountIn(r, CREDIT).Some? && a.value == Abs(AmountIn(r, CREDIT).value))
  {
    match (AmountIn(r, DEBIT), AmountIn(r, CREDIT))
    case (Some(d), Some(c)) => Some(if Abs(d) >= Abs(c) then Abs(d) else Abs(c))
    case (Some(d), None) => Some(Abs(d))
    case (None, Some(c)) => Some(Abs(c))
    case (None, None) => None
  }

  /** The amount a row is ranked by. */
  function KeyOf(key: SortKey, r: Row): Option<int>
  {
    match key
    case Unsorted => None
    case ByColumn(c) => AmountIn(r, c)
    case ByLargerAmount => LargerAmount(r)
  }

  /** `v` may come before `w` in a descending order with nulls last
      (`sort_values(ascending=False)`, `na_position='last'`). */
  predicate AtLeast(v: Option<int>, w: Option<int>)
  {
    w.None? || (v.Some? && v.value >= w.value)
  }

  predicate Descending(s: seq<Row>, key: SortKey)
  {
    forall i, j :: 0 <= i < j < |s| ==> AtLeast(KeyOf(key, s[i]), KeyOf(key, s[j]))
  }

  /** Put `x` into a descending sequence, ahead of the rows ranked equal to it. */
  function Insert(x: Row, s: seq<Row>, key: SortKey): (r: seq<Row>)
    ensures |r| == |s| + 1
    ensures r[0] == x || (s != [] && r[0] == s[0])
    ensures multiset(r) == multiset(s) + multiset{x}
  {
    if s == [] || AtLeast(KeyOf(key, x), KeyOf(key, s[0])) then [x] + s
    else
      var rest := Insert(x, s[1..], key);
      assert s == [s[0]] + s[1..];
      [s[0]] + rest
  }

  lemma AtLeastTransitive(u: Option<int>, v: Option<int>, w: Option<int>)
    requires AtLeast(u, v) && AtLeast(v, w)
    ensures AtLeast(u, w)
  {
  }

  /** Inserting into a descending sequence keeps it descending. */
  lemma {:induction false} InsertKeepsDescending(x: Row, s: seq<Row>, key: SortKey)
    requires Descending(s, key)
    ensures Descending(Insert(x, s, key), key)
  {
    if s == [] || AtLeast(KeyOf(key, x), KeyOf(key, s[0])) {
      PrependDescending(x, s, key);
    } else {
      var rest := Insert(x, s[1..], key);
      assert Descending(s[1..], key);
      InsertKeepsDescending(x, s[1..], key);
      assert AtLeast(KeyOf(key, s[0]), KeyOf(key, rest[0]));
      PrependDescending(s[0], rest, key);
    }
  }

  /** A row ranked at least as high as the head of a descending sequence
      may go in front of it. */
  lemma PrependDescending(y: Row, s: seq<Row>, key: SortKey)
    requires Descending(s, key)
    requires s == [] || AtLeast(KeyOf(key, y), KeyOf(key, s[0]))
    ensures Descending([y] + s, key)
  {
    var r := [y] + s;
    forall i, j | 0 <= i < j < |r| ensures AtLeast(KeyOf(key, r[i]), KeyOf(key, r[j])) {
      if i == 0 && j > 1 {
        AtLeastTransitive(KeyOf(key, y), KeyOf(key, s[0]), KeyOf(key, s[j - 1]));
      }
    }
  }

  /** The rows in descending order of `key`, with nulls last: a descending
      permutation of the input. */
  function SortBy(rows: seq<Row>, key: SortKey): (s: seq<Row>)
    ensures |s| == |rows|
    ensures multiset(s) == multiset(rows)
    ensures Descending(s, key)
  {
    if rows == [] then []
    else
      assert rows == [rows[0]] + rows[1..];
      InsertKeepsDescending(rows[0], SortBy(rows[1..], key), key);
      Insert(rows[0], SortBy(rows[1..], key), key)
  }

  /** With no amount to rank by every row ranks equal, and the order stays. */
  lemma {:induction false} SortUnsorted(rows: seq<Row>)
    ensures SortBy(rows, Unsorted) == rows
  {
    if rows != [] {
      SortUnsorted(rows[1..]);
      assert [rows[0]] + rows[1..] == rows;
    }
  }

  /** The helper cell: the larger amount, or null. */
  function LargerCell(r: Row): Option<Value>
  {
    match LargerAmount(r)
    case Some(v) => Some(Amount(v))
    case None => None
  }

  /** `result_df['max_amount'] = ...`: every row gets the helper cell,
      overwriting a column of that name. Its amount is the row's larger
      amount, and every other cell is as it was. */
  function AddMaxAmount(rows: seq<Row>): (r: seq<Row>)
    ensures |r| == |rows|
    ensures forall i :: 0 <= i < |r| ==> r[i] == rows[i][MAX_AMOUNT := LargerCell(rows[i])]
    ensures forall i :: 0 <= i < |r| ==>
      && AmountIn(r[i], MAX_AMOUNT) == LargerAmount(rows[i])
      && r[i].Keys == rows[i].Keys + {MAX_AMOUNT}
      && forall c :: c != MAX_AMOUNT ==> Cell(r[i], c) == Cell(rows[i], c)
  {
    seq(|rows|, i requires 0 <= i < |rows| => rows[i][MAX_AMOUNT := LargerCell(rows[i])])
  }

  /** `drop(columns=['max_amount'])` on the rows. */
  function DropMaxAmount(rows: seq<Row>): (r: seq<Row>)
    ensures |r| == |rows|
    ensures forall i :: 0 <= i < |r| ==> r[i] == rows[i] - {MAX_AMOUNT}
  {
    if rows == [] then [] else [rows[0] - {MAX_AMOUNT}] + DropMaxAmount(rows[1..])
  }

  /** Which ordering governs, by `top_type` and the columns present. */
  function GoverningKey(topType: TopType, columns: seq<string>): (key: SortKey)
    ensures key.ByColumn? ==> key.column in columns && (key.column == DEBIT || key.column == CREDIT)
    ensures key.ByLargerAmount? <==> topType == ByLarger && DEBIT in columns && CREDIT in columns
    ensures key.ByColumn? && topType == ByDebit ==> key.column == DEBIT
    ensures key.ByColumn? && topType == ByCredit ==> key.column == CREDIT
    ensures topType == ByDebit ==> (key.Unsorted? <==> DEBIT !in columns)
    ensures topType == ByCredit ==> (key.Unsorted? <==> CREDIT !in columns)
    ensures topType == ByLarger ==> (key.Unsorted? <==> DEBIT !in columns && CREDIT !in columns)
    ensures topType == NoOrder ==> key.Unsorted?
  {
    match topType
    case ByDebit => if DEBIT in columns then ByColumn(DEBIT) else Unsorted
    case ByCredit => if CREDIT in columns then ByColumn(CREDIT) else Unsorted
    case ByLarger =>
      if DEBIT in columns && CREDIT in columns then ByLargerAmount
      else if DEBIT in columns then ByColumn(DEBIT)
      else if CREDIT in columns then ByColumn(CREDIT)
      else Unsorted
    case NoOrder => Unsorted
  }

  /** The rows the ordering ranks: the input rows, without their
      `max_amount` cell when the helper column was added and dropped. */
  function Candidates(rows: seq<Row>, key: SortKey): seq<Row>
  {
    if key.ByLargerAmount? then DropMaxAmount(rows) else rows
  }

  /** A row whose helper cell holds the larger amount of the row without it. */
  predicate Agrees(r: Row)
  {
    AmountIn(r, MAX_AMOUNT) == LargerAmount(r - {MAX_AMOUNT})
  }

  /** The helper column is not an amount column, so dropping it leaves the amounts alone. */
  lemma DropKeepsAmounts(r: Row)
    ensures LargerAmount(r - {MAX_AMOUNT}) == LargerAmount(r)
  {
    assert DEBIT != MAX_AMOUNT && CREDIT != MAX_AMOUNT by {
      assert DEBIT[0] != MAX_AMOUNT[0] && CREDIT[0] != MAX_AMOUNT[0];
    }
    assert Cell(r - {MAX_AMOUNT}, DEBIT) == Cell(r, DEBIT);
    assert Cell(r - {MAX_AMOUNT}, CREDIT) == Cell(r, CREDIT);
  }

  /** Every row with the helper cell added agrees. */
  lemma AddedRowsAgree(rows: seq<Row>)
    ensures forall i :: 0 <= i < |rows| ==> Agrees(AddMaxAmount(rows)[i])
  {
    forall i | 0 <= i < |rows| ensures Agrees(AddMaxAmount(rows)[i]) {
      var r := rows[i];
      var a := r[MAX_AMOUNT := LargerCell(r)];
      DropKeepsAmounts(r);
      DropKeepsAmounts(a);
      assert a - {MAX_AMOUNT} == r - {MAX_AMOUNT};
    }
  }

  /** Inserting keeps agreement. */
  lemma {:induction false} InsertAgrees(x: Row, s: seq<Row>, key: SortKey)
    requires Agrees(x) && forall i :: 0 <= i < |s| ==> Agrees(s[i])
    ensures forall i :: 0 <= i < |Insert(x, s, key)| ==> Agrees(Insert(x, s, key)[i])
  {
    if s != [] && !AtLeast(KeyOf(key, x), KeyOf(key, s[0])) {
      InsertAgrees(x, s[1..], key);
    }
  }

  lemma {:induction false} SortAgrees(rows: seq<Row>, key: SortKey)
    requires forall i :: 0 <= i < |rows| ==> Agrees(rows[i])
    ensures forall i :: 0 <= i < |SortBy(rows, key)| ==> Agrees(SortBy(rows, key)[i])
  {
    if rows != [] {
      SortAgrees(rows[1..], key);
      InsertAgrees(rows[0], SortBy(rows[1..], key), key);
    }
  }

  /** Ranking agreeing rows by their helper cell and then dropping it is
      ranking the dropped rows by the larger amount. */
  lemma {:induction false} InsertThenDrop(x: Row, s: seq<Row>)
    requires Agrees(x) && forall i :: 0 <= i < |s| ==> Agrees(s[i])
    ensures DropMaxAmount(Insert(x, s, ByColumn(MAX_AMOUNT))) == Insert(x - {MAX_AMOUNT}, DropMaxAmount(s), ByLargerAmount)
  {
    var x' := x - {MAX_AMOUNT};
    var d := DropMaxAmount(s);
    if s == [] {
      assert DropMaxAmount([x]) == [x'];
    } else {
      AgreeingKey(x);
      AgreeingKey(s[0]);
      assert d[0] == s[0] - {MAX_AMOUNT};
      if AtLeast(KeyOf(ByColumn(MAX_AMOUNT), x), KeyOf(ByColumn(MAX_AMOUNT), s[0])) {
        assert Insert(x, s, ByColumn(MAX_AMOUNT)) == [x] + s;
        assert Insert(x', d, ByLargerAmount) == [x'] + d;
        DropPrepend(x, s);
      } else {
        var rest := Insert(x, s[1..], ByColumn(MAX_AMOUNT));
        assert Insert(x, s, ByColumn(MAX_AMOUNT)) == [s[0]] + rest;
        assert Insert(x', d, ByLargerAmount) == [d[0]] + Insert(x', d[1..], ByLargerAmount);
        InsertThenDrop(x, s[1..]);
        assert DropMaxAmount(s[1..]) == d[1..];
        DropPrepend(s[0], rest);
      }
    }
  }

  /** An agreeing row ranks by its helper cell as it does by the larger
      amount once the cell is dropped. */
  lemma AgreeingKey(y: Row)
    requires Agrees(y)
    ensures KeyOf(ByColumn(MAX_AMOUNT), y) == KeyOf(ByLargerAmount, y - {MAX_AMOUNT})
  {
  }

  /** Dropping the helper cell distributes over putting a row in front. */
  lemma DropPrepend(x: Row, s: seq<Row>)
    ensures DropMaxAmount([x] + s) == [x - {MAX_AMOUNT}] + DropMaxAmount(s)
  {
  }

  lemma {:induction false} SortThenDrop(rows: seq<Row>)
    requires forall i :: 0 <= i < |rows| ==> Agrees(rows[i])
    ensures DropMaxAmount(SortBy(rows, ByColumn(MAX_AMOUNT))) == SortBy(DropMaxAmount(rows), ByLargerAmount)
  {
    if rows != [] {
      SortThenDrop(rows[1..]);
      SortAgrees(rows[1..], ByColumn(MAX_AMOUNT));
      InsertThenDrop(rows[0], SortBy(rows[1..], ByColumn(MAX_AMOUNT)));
      assert DropMaxAmount(rows)[1..] == DropMaxAmount(rows[1..]);
    }
  }

  /** How many rows `head(n)` keeps. */
  function Min(a: int, b: int): int
  {
    if a <= b then a else b
  }

  /** The `'both'` ordering with both amount columns present: add the
      helper column (appending it unless a column of that name exists), sort
      by it, drop it. The outcome is the rows without `max_amount`, sorted by
      the larger amount, and the columns without `max_amount`. */
  method RankByLargerAmount(columns: seq<string>, rows: seq<Row>) returns (columns': seq<string>, rows': seq<Row>)
    ensures columns' == Absent(columns, [MAX_AMOUNT])
    ensures rows' == SortBy(DropMaxAmount(rows), ByLargerAmount)
  {
    rows' := AddMaxAmount(rows);
    columns' := columns;
    if MAX_AMOUNT !in columns' {
      columns' := columns' + [MAX_AMOUNT];
    }
    AddedRowsAgree(rows);
    SortThenDrop(rows');
    AddThenDrop(rows);
    rows' := SortBy(rows', ByColumn(MAX_AMOUNT));
    rows' := DropMaxAmount(rows');
    if columns' != columns {
      DropAppended(columns, MAX_AMOUNT);
    }
    columns' := Absent(columns', [MAX_AMOUNT]);
  }

  /** Adding the helper cell and dropping it again gives the rows without it. */
  lemma {:induction false} AddThenDrop(rows: seq<Row>)
    ensures DropMaxAmount(AddMaxAmount(rows)) == DropMaxAmount(rows)
  {
    if rows != [] {
      var a := AddMaxAmount(rows);
      assert a[0] - {MAX_AMOUNT} == rows[0] - {MAX_AMOUNT};
      assert a[1..] == AddMaxAmount(rows[1..]);
      AddThenDrop(rows[1..]);
    }
  }

  /** `drop(columns=[name])` after appending that column is dropping it from
      the columns as they were. */
  lemma DropAppended(columns: seq<string>, name: string)
    ensures Absent(columns + [name], [name]) == Absent(columns, [name])
  {
    AbsentDistributes(columns, [name], [name]);
    assert Absent([name], [name]) == [];
  }

  /** A prefix of a descending sequence is descending. */
  lemma DescendingPrefix(s: seq<Row>, key: SortKey, n: nat)
    requires Descending(s, key) && n <= |s|
    ensures Descending(s[..n], key)
  {
    forall i, j | 0 <= i < j < n ensures AtLeast(KeyOf(key, s[..n][i]), KeyOf(key, s[..n][j])) {
      assert s[..n][i] == s[i] && s[..n][j] == s[j];
    }
  }

  /** The ordering step of `apply_top_n_filter`, branch by branch on
      `top_type` and the columns present: the rows end up sorted by the
      governing key and, with no usable amount column, stay as they are. */
  method Rank(t: Table, topType: TopType) returns (columns: seq<string>, rows: seq<Row>)
    ensures var key := GoverningKey(topType, t.columns);
      && columns == (if key.ByLargerAmount? then Absent(t.columns, [MAX_AMOUNT]) else t.columns)
      && rows == SortBy(Candidates(t.rows, key), key)
      && (key.Unsorted? ==> rows == t.rows)
  {
    columns := t.columns;
    rows := t.rows;
    if topType == ByDebit {
      if DEBIT in columns {
        rows := SortBy(rows, ByColumn(DEBIT));
      }
    } else if topType == ByCredit {
      if CREDIT in columns {
        rows := SortBy(rows, ByColumn(CREDIT));
      }
    } else if topType == ByLarger {
      if DEBIT in columns && CREDIT in columns {
        columns, rows := RankByLargerAmount(columns, rows);
      } else if DEBIT in columns {
        rows := SortBy(rows, ByColumn(DEBIT));
      } else if CREDIT in columns {
        rows := SortBy(rows, ByColumn(CREDIT));
      }
    }
    if GoverningKey(topType, t.columns).Unsorted? {
      SortUnsorted(t.rows);
    }
  }

  /** `apply_top_n_filter(df, top_n, top_type)`. Without a positive N, or on
      an empty table, the table is returned unchanged. Otherwise the result
      holds the first N rows (or all) of the governing descending order, with
      `max_amount` gone from the rows and the columns when that order is the
      larger amount; with no usable amount column it is the first N rows. */
  method ApplyTopN(t: Table, topN: Option<int>, topType: TopType) returns (r: Table)
    ensures topN.None? || topN.value <= 0 || |t.rows| == 0 ==> r == t
    ensures topN.Some? && topN.value > 0 && |t.rows| > 0 ==>
      var key := GoverningKey(topType, t.columns);
      && r.columns == (if key.ByLargerAmount? then Absent(t.columns, [MAX_AMOUNT]) else t.columns)
      && |r.rows| == Min(topN.value, |t.rows|)
      && Descending(r.rows, key)
      && r.rows == SortBy(Candidates(t.rows, key), key)[..|r.rows|]
      && (key.Unsorted? ==> r.rows == t.rows[..|r.rows|])
      && (key.ByLargerAmount? ==> MAX_AMOUNT !in r.columns && forall k :: 0 <= k < |r.rows| ==> MAX_AMOUNT !in r.rows[k])
  {
    if topN.None? || topN.value <= 0 {
      return t;
    }
    if |t.rows| == 0 {
      return t;
    }
    var key := GoverningKey(topType, t.columns);
    var columns, rows := Rank(t, topType);
    var n := Min(topN.value, |rows|);
    DescendingPrefix(rows, key, n);
    if key.ByLargerAmount? {
      HelperGone(t, columns, rows, n);
    }
    r := Table(columns, rows[..n]);
  }

  /** What the head of a descending order means: no row left out ranks
      above a row kept, and the kept rows are drawn from the input. */
  lemma {:induction false} TopRowsRankHighest(rows: seq<Row>, key: SortKey, n: nat)
    requires n <= |rows|
    ensures var s := SortBy(rows, key);
      && (forall i, j :: 0 <= i < n <= j < |s| ==> AtLeast(KeyOf(key, s[i]), KeyOf(key, s[j])))
      && multiset(s[..n]) <= multiset(rows)
  {
    var s := SortBy(rows, key);
    assert s == s[..n] + s[n..];
    assert multiset(s) == multiset(s[..n]) + multiset(s[n..]);
  }

  /** After the helper column is dropped no row holds a `max_amount` cell. */
  lemma NoHelperCellSurvives(rows: seq<Row>)
    ensures var s := SortBy(DropMaxAmount(rows), ByLargerAmount);
      forall k :: 0 <= k < |s| ==> MAX_AMOUNT !in s[k]
  {
    var d := DropMaxAmount(rows);
    var s := SortBy(d, ByLargerAmount);
    forall k | 0 <= k < |s| ensures MAX_AMOUNT !in s[k] {
      assert s[k] in multiset(d);
      var m :| 0 <= m < |d| && d[m] == s[k];
    }
  }

  /** In the `'both'` order neither the columns nor the first `n` rows keep
      the helper. */
  lemma HelperGone(t: Table, columns: seq<string>, rows: seq<Row>, n: nat)
    requires columns == Absent(t.columns, [MAX_AMOUNT])
    requires rows == SortBy(DropMaxAmount(t.rows), ByLargerAmount) && n <= |rows|
    ensures MAX_AMOUNT !in columns
    ensures forall k :: 0 <= k < n ==> MAX_AMOUNT !in rows[..n][k]
  {
    NoHelperCellSurvives(t.rows);
    forall k | 0 <= k < n ensures MAX_AMOUNT !in rows[..n][k] {
      assert rows[..n][k] == rows[k];
    }
  }

  /** A row ranking strictly above every other row comes first. */
  lemma StrictTopComesFirst(rows: seq<Row>, key: SortKey, i: nat)
    requires i < |rows|
    requires forall j :: 0 <= j < |rows| && j != i ==> !AtLeast(KeyOf(key, rows[j]), KeyOf(key, rows[i]))
    ensures SortBy(rows, key)[0] == rows[i]
  {
    var s := SortBy(rows, key);
    assert rows[i] in multiset(s);
    var k :| 0 <= k < |s| && s[k] == rows[i];
    assert AtLeast(KeyOf(key, s[0]), KeyOf(key, rows[i])) by {
      if k > 0 { assert AtLeast(KeyOf(key, s[0]), KeyOf(key, s[k])); }
    }
    assert s[0] in multiset(rows);
    var j :| 0 <= j < |rows| && rows[j] == s[0];
  }
}
