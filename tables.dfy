/** The journal-entry table after loading: an ordered sequence of rows, each a
    map from column name to a possibly-null typed cell, together with the
    table's ordered column list. */
module Tables {

  datatype Option<T> = None | Some(value: T)

  /** A typed cell: text, an amount in the smallest currency unit, or a
      timestamp as pandas stores `datetime64[ns]`, nanoseconds since the
      epoch (so a time of day is kept). */
  datatype Value = Text(text: string) | Amount(amount: int) | Date(time: int)

  type Row = map<string, Option<Value>>

  datatype Table = Table(columns: seq<string>, rows: seq<Row>)

  // The column names the analyzer knows by name.
  const ACCOUNT_CODE := "科目编码"
  const ACCOUNT_NAME := "科目全称"
  const DATE := "日期"
  const ACCOUNT_BOOK := "账套名称"
  const SUMMARY := "摘要"
  const VOUCHER_ID := "凭证唯一号"
  const VOUCHER_LINE := "凭证行号"
  const DEBIT := "借方金额"
  const CREDIT := "贷方金额"
  const SIGNED_AMOUNT := "借正贷负"
  const CUSTOMER := "客户名称"
  const SUPPLIER := "供应商名称"
  const PROJECT := "项目名称"

  /** The cell of `r` in `column`; a row without that key reads as null,
      as pandas fills a missing cell with NaN. */
  function Cell(r: Row, column: string): Option<Value>
  {
    if column in r then r[column] else None
  }

  /** The amount in `column`, or None for a null (NaN) cell. */
  function AmountIn(r: Row, column: string): (a: Option<int>)
    ensures a.Some? <==> Cell(r, column).Some? && Cell(r, column).value.Amount?
  {
    match Cell(r, column)
    case Some(Amount(n)) => Some(n)
    case _ => None
  }

  /** `df[column].isnull().all()`; true of a table without rows. */
  predicate AllNull(rows: seq<Row>, column: string)
  {
    forall k :: 0 <= k < |rows| ==> Cell(rows[k], column).None?
  }

  /** `df[column].isna().sum()`: how many rows hold null in `column`. */
  function NullCount(rows: seq<Row>, column: string): (n: nat)
    ensures n <= |rows|
    ensures n == 0 <==> forall k :: 0 <= k < |rows| ==> Cell(rows[k], column).Some?
    ensures n == |rows| <==> AllNull(rows, column)
  {
    if rows == [] then 0
    else (if Cell(rows[0], column).None? then 1 else 0) + NullCount(rows[1..], column)
  }

  /** `df[columns]`: the rows restricted to the chosen columns, in that column order. */
  function Project(t: Table, columns: seq<string>): (r: Table)
    ensures r.columns == columns && |r.rows| == |t.rows|
    ensures forall k, c :: 0 <= k < |r.rows| && c in columns ==> Cell(r.rows[k], c) == Cell(t.rows[k], c)
    ensures forall k :: 0 <= k < |r.rows| ==> r.rows[k].Keys <= set c | c in columns
  {
    Table(columns, seq(|t.rows|, k requires 0 <= k < |t.rows| =>
      map c | c in t.rows[k] && c in columns :: t.rows[k][c]))
  }

  /** `[n for n in names if n in pool]`. */
  function Present(names: seq<string>, pool: seq<string>): (r: seq<string>)
    ensures |r| <= |names|
    ensures forall n :: n in r <==> n in names && n in pool
  {
    if names == [] then []
    else (if names[0] in pool then [names[0]] else []) + Present(names[1..], pool)
  }

  /** `[n for n in names if n not in pool]`. */
  function Absent(names: seq<string>, pool: seq<string>): (r: seq<string>)
    ensures |r| <= |names|
    ensures forall n :: n in r <==> n in names && n !in pool
  {
    if names == [] then []
    else (if names[0] in pool then [] else [names[0]]) + Absent(names[1..], pool)
  }

  /** The positions, from `from` on, where the mask is set: strictly
      increasing, and exactly the positions whose entry is true. */
  function SetPositionsFrom(m: seq<bool>, from: nat): (idx: seq<nat>)
    requires from <= |m|
    ensures forall k :: 0 <= k < |idx| ==> from <= idx[k] < |m|
    ensures forall k, l :: 0 <= k < l < |idx| ==> idx[k] < idx[l]
    ensures forall i :: from <= i < |m| ==> (i in idx <==> m[i])
    decreases |m| - from
  {
    if from == |m| then []
    else if m[from] then [from] + SetPositionsFrom(m, from + 1)
    else SetPositionsFrom(m, from + 1)
  }

  /** Both selections keep the names' order: selecting from a concatenation
      concatenates the selections, and a single name is kept exactly when it
      passes. Together these determine the two functions. */
  lemma {:induction false} PresentDistributes(a: seq<string>, b: seq<string>, pool: seq<string>)
    ensures Present(a + b, pool) == Present(a, pool) + Present(b, pool)
  {
    if a == [] {
      assert a + b == b;
    } else {
      assert (a + b)[0] == a[0];
      assert (a + b)[1..] == a[1..] + b;
      PresentDistributes(a[1..], b, pool);
    }
  }

  lemma {:induction false} AbsentDistributes(a: seq<string>, b: seq<string>, pool: seq<string>)
    ensures Absent(a + b, pool) == Absent(a, pool) + Absent(b, pool)
  {
    if a == [] {
      assert a + b == b;
    } else {
      assert (a + b)[0] == a[0];
      assert (a + b)[1..] == a[1..] + b;
      AbsentDistributes(a[1..], b, pool);
    }
  }

  /** Every name lands in exactly one of the two selections. */
  lemma {:induction false} SelectionsPartition(names: seq<string>, pool: seq<string>)
    ensures |Present(names, pool)| + |Absent(names, pool)| == |names|
  {
    if names != [] {
      SelectionsPartition(names[1..], pool);
    }
  }
}
