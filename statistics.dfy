/** `calculate_statistics`: the record count and, for each amount column,
    the mean, the mode and the mode's frequency of its non-null amounts. */
module Statistics {
  import opened Tables

  /** One amount column's summary; `NoData` is the empty dict je_analyzer
      keeps for an absent or all-null column. */
  datatype Distribution = NoData | Summary(average: real, mode: int, modeFrequency: nat)

  datatype Stats = Stats(totalRecords: nat, debit: Distribution, credit: Distribution)

  /** `df[column].dropna()`: the non-null amounts of `column`, in row order. */
  function Amounts(rows: seq<Row>, column: string): (a: seq<int>)
    ensures |a| <= |rows|
    ensures a == [] <==> forall k :: 0 <= k < |rows| ==> AmountIn(rows[k], column).None?
    ensures forall k :: 0 <= k < |rows| && AmountIn(rows[k], column).Some? ==> AmountIn(rows[k], column).value in a
  {
    if rows == [] then []
    else
      var rest := Amounts(rows[1..], column);
      assert forall k :: 1 <= k < |rows| ==> rows[k] == rows[1..][k - 1];
      match AmountIn(rows[0], column)
      case Some(v) => [v] + rest
      case None => rest
  }

  /** The mask `df[column].notna()`. */
  function NonNull(rows: seq<Row>, column: string): (m: seq<bool>)
    ensures |m| == |rows|
    ensures forall i {:trigger m[i]} :: 0 <= i < |rows| ==> m[i] == AmountIn(rows[i], column).Some?
  {
    if rows == [] then [] else [AmountIn(rows[0], column).Some?] + NonNull(rows[1..], column)
  }

  lemma {:induction false} AmountsFrom(rows: seq<Row>, column: string, from: nat)
    requires from <= |rows|
    ensures var idx := SetPositionsFrom(NonNull(rows, column), from); var a := Amounts(rows[from..], column);
      |idx| == |a| && forall k :: 0 <= k < |idx| ==> AmountIn(rows[idx[k]], column) == Some(a[k])
    decreases |rows| - from
  {
    if from < |rows| {
      var m, rest := NonNull(rows, column), rows[from..];
      AmountsFrom(rows, column, from + 1);
      assert rest[0] == rows[from] && rest[1..] == rows[from + 1..];
      var idx, a := SetPositionsFrom(m, from + 1), Amounts(rows[from + 1..], column);
      if m[from] {
        var v := AmountIn(rows[from], column).value;
        assert SetPositionsFrom(m, from) == [from] + idx;
        assert Amounts(rest, column) == [v] + a;
        forall k | 0 <= k < |idx| + 1
          ensures AmountIn(rows[([from] + idx)[k]], column) == Some(([v] + a)[k])
        {
          if k > 0 {
            assert ([from] + idx)[k] == idx[k - 1] && ([v] + a)[k] == a[k - 1];
          }
        }
      } else {
        assert SetPositionsFrom(m, from) == idx;
        assert Amounts(rest, column) == a;
      }
    }
  }

  /** `Amounts` keeps each non-null amount once, in row order: the k-th
      amount is the amount of the k-th row, counted in increasing position,
      whose cell holds one. */
  lemma AmountsInRowOrder(rows: seq<Row>, column: string)
    ensures var idx := SetPositionsFrom(NonNull(rows, column), 0); var a := Amounts(rows, column);
      && |idx| == |a|
      && (forall k :: 0 <= k < |idx| ==> idx[k] < |rows| && AmountIn(rows[idx[k]], column) == Some(a[k]))
      && (forall k, l :: 0 <= k < l < |idx| ==> idx[k] < idx[l])
      && (forall i :: 0 <= i < |rows| ==> (i in idx <==> AmountIn(rows[i], column).Some?))
  {
    AmountsFrom(rows, column, 0);
    assert rows[0..] == rows;
  }

  function Sum(a: seq<int>): int
  {
    if a == [] then 0 else a[0] + Sum(a[1..])
  }

  /** How often `v` occurs in `a`. */
  function Count(a: seq<int>, v: int): (n: nat)
    ensures n <= |a|
    ensures n > 0 <==> v in a
  {
    if a == [] then 0 else (if a[0] == v then 1 else 0) + Count(a[1..], v)
  }

  /** Of the candidates, the one occurring most often in `a`, the smallest
      among those tied. */
  function MostFrequentOf(a: seq<int>, candidates: seq<int>): (m: int)
    requires candidates != []
    ensures m in candidates
    ensures forall x :: x in candidates ==>
      Count(a, x) < Count(a, m) || (Count(a, x) == Count(a, m) && m <= x)
  {
    if |candidates| == 1 then candidates[0]
    else
      var x := candidates[0];
      var best := MostFrequentOf(a, candidates[1..]);
      assert forall y :: y in candidates ==> y == x || y in candidates[1..];
      if Count(a, x) > Count(a, best) || (Count(a, x) == Count(a, best) && x < best) then x else best
  }

  /** `a.mode().iloc[0]`: pandas lists the most frequent values sorted, so
      the first is the smallest of them. */
  function ModeOf(a: seq<int>): (m: int)
    requires a != []
    ensures m in a
    ensures forall x :: x in a ==> Count(a, x) <= Count(a, m)
    ensures forall x :: x in a && Count(a, x) == Count(a, m) ==> m <= x
  {
    MostFrequentOf(a, a)
  }

  /** `x / n` scaled back by `n` is `x`. */
  lemma DivideThenScale(x: real, n: real)
    requires n > 0.0
    ensures (x / n) * n == x
  {
  }

  /** Scaling by a positive factor keeps the order. */
  lemma ScaledOrder(x: real, y: real, n: real)
    requires n > 0.0 && x * n <= y * n
    ensures x <= y
  {
  }

  /** Converting a product of integers is the product of the conversions. */
  lemma RealProduct(x: int, y: int)
    ensures (x * y) as real == (x as real) * (y as real)
  {
  }

  /** `a.mean()`: the total divided by the count. */
  function Mean(a: seq<int>): (m: real)
    requires a != []
    ensures m * (|a| as real) == Sum(a) as real
  {
    DivideThenScale(Sum(a) as real, |a| as real);
    Sum(a) as real / |a| as real
  }

  /** The mean, mode and mode frequency of a non-empty list of amounts: the
      mean times the count is the total, the mode occurs most often and is
      the smallest so occurring, and its frequency is how often it occurs. */
  function Summarize(a: seq<int>): (d: Distribution)
    requires a != []
    ensures d.Summary?
    ensures d.average * (|a| as real) == Sum(a) as real
    ensures d.mode in a
    ensures d.modeFrequency == Count(a, d.mode) >= 1
    ensures forall x :: x in a ==> Count(a, x) <= d.modeFrequency
    ensures forall x :: x in a && Count(a, x) == d.modeFrequency ==> d.mode <= x
  {
    var m := ModeOf(a);
    Summary(Mean(a), m, Count(a, m))
  }

  /** The summary of one amount column: present exactly when the column
      exists and holds an amount. */
  function Distribute(t: Table, column: string): (d: Distribution)
    ensures d.Summary? <==> column in t.columns && Amounts(t.rows, column) != []
    ensures d.Summary? ==> d == Summarize(Amounts(t.rows, column))
  {
    if column !in t.columns then NoData
    else
      var a := Amounts(t.rows, column);
      if a == [] then NoData else Summarize(a)
  }

  /** `calculate_statistics(df)`: the number of rows, and the debit and
      credit summaries described by `Distribute`. */
  function CalculateStatistics(t: Table): (s: Stats)
    ensures s.totalRecords == |t.rows|
    ensures s.debit.Summary? <==> DEBIT in t.columns && exists k :: 0 <= k < |t.rows| && AmountIn(t.rows[k], DEBIT).Some?
    ensures s.credit.Summary? <==> CREDIT in t.columns && exists k :: 0 <= k < |t.rows| && AmountIn(t.rows[k], CREDIT).Some?
    ensures s.debit == Distribute(t, DEBIT) && s.credit == Distribute(t, CREDIT)
  {
    Stats(|t.rows|, Distribute(t, DEBIT), Distribute(t, CREDIT))
  }

  /** Sums of bounded amounts are bounded. */
  lemma {:induction false} SumBounded(a: seq<int>, lo: int, hi: int)
    requires forall k :: 0 <= k < |a| ==> lo <= a[k] <= hi
    ensures lo * |a| <= Sum(a) <= hi * |a|
  {
    if a != [] {
      SumBounded(a[1..], lo, hi);
    }
  }

  /** A mean of `count` values totalling `total`, each between `lo` and `hi`. */
  lemma MeanBounded(total: int, count: nat, average: real, lo: int, hi: int)
    requires count > 0 && lo * count <= total <= hi * count
    requires average * (count as real) == total as real
    ensures lo as real <= average <= hi as real
  {
    var n := count as real;
    RealProduct(lo, count);
    RealProduct(hi, count);
    ScaledOrder(lo as real, average, n);
    ScaledOrder(average, hi as real, n);
  }

  /** The mean lies between the smallest and the largest amount. */
  lemma AverageWithinRange(a: seq<int>, lo: int, hi: int)
    requires a != []
    requires forall k :: 0 <= k < |a| ==> lo <= a[k] <= hi
    ensures lo as real <= Summarize(a).average <= hi as real
  {
    SumBounded(a, lo, hi);
    MeanBounded(Sum(a), |a|, Mean(a), lo, hi);
    assert Summarize(a).average == Mean(a);
  }

  /** When every amount is the same value, that value is the mean and the
      mode, occurring once per amount. */
  lemma ConstantAmounts(a: seq<int>, v: int)
    requires a != []
    requires forall k :: 0 <= k < |a| ==> a[k] == v
    ensures Summarize(a) == Summary(v as real, v, |a|)
  {
    AverageWithinRange(a, v, v);
    AllSame(a, v);
    assert forall x :: x in a ==> x == v;
  }

  lemma {:induction false} AllSame(a: seq<int>, v: int)
    requires forall k :: 0 <= k < |a| ==> a[k] == v
    ensures Count(a, v) == |a|
  {
    if a != [] {
      AllSame(a[1..], v);
    }
  }
}
