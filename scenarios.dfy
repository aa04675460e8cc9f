/** Worked examples on a three-row journal: codes 1001, 1002, 1001; dates
    2024-03-01, 2024-03-15, 2024-06-01 (as midnight timestamps); books
    A, A, B; debits 100, 0, 200; credits 0, 50, 0. */
module Scenarios {
  import opened Tables
  import Filtering
  import Ranking
  import Projection
  import Strings

  /** One day in nanoseconds; the dates below are midnights, in days since 1970-01-01. */
  const DAY := 86_400_000_000_000
  const JAN_1 := 19723 * DAY
  const MAR_1 := 19783 * DAY
  const MAR_15 := 19797 * DAY
  const JUN_1 := 19875 * DAY
  const DEC_31 := 20088 * DAY

  function Entry(code: string, time: int, book: string, debit: int, credit: int): Row
  {
    map[ACCOUNT_CODE := Some(Text(code)), DATE := Some(Date(time)), ACCOUNT_BOOK := Some(Text(book)),
        DEBIT := Some(Amount(debit)), CREDIT := Some(Amount(credit))]
  }

  const FIRST := Entry("1001", MAR_1, "A", 100, 0)
  const SECOND := Entry("1002", MAR_15, "A", 0, 50)
  const THIRD := Entry("1001", JUN_1, "B", 200, 0)

  const JOURNAL := Table([ACCOUNT_CODE, DATE, ACCOUNT_BOOK, DEBIT, CREDIT], [FIRST, SECOND, THIRD])

  /** The five named columns are distinct names, so each cell of an entry
      reads back what was put there. */
  lemma EntryCells(code: string, time: int, book: string, debit: int, credit: int)
    ensures var r := Entry(code, time, book, debit, credit);
      && Cell(r, ACCOUNT_CODE) == Some(Text(code)) && Cell(r, DATE) == Some(Date(time))
      && Cell(r, ACCOUNT_BOOK) == Some(Text(book))
      && Cell(r, DEBIT) == Some(Amount(debit)) && Cell(r, CREDIT) == Some(Amount(credit))
      && Ranking.MAX_AMOUNT !in r
  {
    assert ACCOUNT_CODE[0] != DATE[0] && ACCOUNT_CODE[0] != ACCOUNT_BOOK[0] && ACCOUNT_CODE[0] != DEBIT[0]
        && ACCOUNT_CODE[0] != CREDIT[0] && DATE[0] != ACCOUNT_BOOK[0] && DATE[0] != DEBIT[0]
        && DATE[0] != CREDIT[0] && ACCOUNT_BOOK[0] != DEBIT[0] && ACCOUNT_BOOK[0] != CREDIT[0]
        && DEBIT[0] != CREDIT[0];
    assert Ranking.MAX_AMOUNT[0] != ACCOUNT_CODE[0] && Ranking.MAX_AMOUNT[0] != DATE[0]
        && Ranking.MAX_AMOUNT[0] != ACCOUNT_BOOK[0] && Ranking.MAX_AMOUNT[0] != DEBIT[0]
        && Ranking.MAX_AMOUNT[0] != CREDIT[0];
  }

  lemma JournalCells()
    ensures Filtering.TextIn(FIRST, ACCOUNT_CODE) == Some("1001") && Cell(FIRST, DATE) == Some(Date(MAR_1))
    ensures Filtering.TextIn(FIRST, ACCOUNT_BOOK) == Some("A")
    ensures Filtering.TextIn(SECOND, ACCOUNT_CODE) == Some("1002") && Cell(SECOND, DATE) == Some(Date(MAR_15))
    ensures Filtering.TextIn(SECOND, ACCOUNT_BOOK) == Some("A")
    ensures Filtering.TextIn(THIRD, ACCOUNT_CODE) == Some("1001") && Cell(THIRD, DATE) == Some(Date(JUN_1))
    ensures Filtering.TextIn(THIRD, ACCOUNT_BOOK) == Some("B")
    ensures Ranking.LargerAmount(FIRST) == Some(100) && Ranking.LargerAmount(SECOND) == Some(50)
    ensures Ranking.LargerAmount(THIRD) == Some(200)
    ensures Ranking.MAX_AMOUNT !in FIRST && Ranking.MAX_AMOUNT !in SECOND && Ranking.MAX_AMOUNT !in THIRD
  {
    EntryCells("1001", MAR_1, "A", 100, 0);
    EntryCells("1002", MAR_15, "A", 0, 50);
    EntryCells("1001", JUN_1, "B", 200, 0);
  }

  /** A selection over three rows, spelled out. */
  lemma KeepThree(a: Row, b: Row, c: Row, test: Filtering.RowTest)
    ensures Filtering.Keep([a, b, c], test)
         == (if Filtering.Holds(test, a) then [a] else []) + (if Filtering.Holds(test, b) then [b] else [])
          + (if Filtering.Holds(test, c) then [c] else [])
  {
    var m := Filtering.Mask([a, b, c], test);
    Filtering.KeepIsSelect([a, b, c], test);
    assert m[0] == Filtering.Holds(test, a) && m[1] == Filtering.Holds(test, b) && m[2] == Filtering.Holds(test, c);
    SelectThree(a, b, c, m);
  }

  lemma SelectThree<T>(a: T, b: T, c: T, m: seq<bool>)
    requires |m| == 3
    ensures Filtering.Select([a, b, c], m)
         == (if m[0] then [a] else []) + (if m[1] then [b] else []) + (if m[2] then [c] else [])
  {
    assert [a, b, c][1..] == [b, c] && [b, c][1..] == [c] && [c][1..] == [];
    assert m[1..][0] == m[1] && m[1..][1..][0] == m[2] && m[1..][1..][1..] == [];
    assert Filtering.Select([c], m[1..][1..]) == (if m[2] then [c] else []);
    assert Filtering.Select([b, c], m[1..]) == (if m[1] then [b] else []) + (if m[2] then [c] else []);
  }

  /** The three stages on the journal for prefix "100", 2024 and book A. */
  lemma StagesOnJournal()
    ensures Filtering.Keep(JOURNAL.rows, Filtering.CodeTest("100", false)) == JOURNAL.rows
    ensures Filtering.Keep(JOURNAL.rows, Filtering.DateBetween(Filtering.At(JAN_1), Filtering.At(DEC_31))) == JOURNAL.rows
    ensures Filtering.Keep(JOURNAL.rows, Filtering.BookMatches(Filtering.Only("A"))) == [FIRST, SECOND]
  {
    JournalCells();
    assert "100" <= "1001" && "100" <= "1002";
    var code := Filtering.CodeStartsWith("100");
    assert Filtering.Holds(code, FIRST) && Filtering.Holds(code, SECOND) && Filtering.Holds(code, THIRD);
    KeepThree(FIRST, SECOND, THIRD, code);
    var dates := Filtering.DateBetween(Filtering.At(JAN_1), Filtering.At(DEC_31));
    assert Filtering.Holds(dates, FIRST) && Filtering.Holds(dates, SECOND) && Filtering.Holds(dates, THIRD);
    KeepThree(FIRST, SECOND, THIRD, dates);
    var book := Filtering.BookMatches(Filtering.Only("A"));
    assert Filtering.Holds(book, FIRST) && Filtering.Holds(book, SECOND) && !Filtering.Holds(book, THIRD);
    KeepThree(FIRST, SECOND, THIRD, book);
  }

  /** The arguments and columns pass every check before the selections. */
  lemma JournalPassesChecks()
    ensures !Strings.Blank("100") && !Strings.Blank("A")
    ensures ACCOUNT_CODE in JOURNAL.columns && DATE in JOURNAL.columns && ACCOUNT_BOOK in JOURNAL.columns
    ensures !Filtering.HasNullCode(JOURNAL.rows)
    ensures Filtering.ReadSelector("A") == Filtering.Only("A")
  {
    JournalCells();
    assert !Strings.IsSpace("100"[0]) && !Strings.IsSpace("A"[0]);
    var columns := JOURNAL.columns;
    assert columns[0] == ACCOUNT_CODE && columns[1] == DATE && columns[2] == ACCOUNT_BOOK;
    assert forall k :: 0 <= k < 3 ==> Filtering.TextIn(JOURNAL.rows[k], ACCOUNT_CODE).Some?;
  }

  /** Prefix "100" over 2024 in book A keeps the first two rows, since both
      codes start with "100"; the third is in book B. No book is missing. */
  lemma PrefixFilterKeepsBookA()
    ensures Filtering.FilterData(JOURNAL, "100", Filtering.At(JAN_1), Filtering.At(DEC_31), "A", false)
         == Filtering.Filtered(Table(JOURNAL.columns, [FIRST, SECOND]), [])
  {
    JournalPassesChecks();
    StagesOnJournal();
    assert Filtering.TextIn(JOURNAL.rows[0], ACCOUNT_BOOK) == Some("A") by {
      JournalCells();
    }
  }

  /** The first entry with its book cell left empty. */
  const BOOKLESS := FIRST - {ACCOUNT_BOOK}

  /** A journal where one row has a null book. */
  const PATCHY := Table(JOURNAL.columns, [FIRST, SECOND, BOOKLESS])

  lemma BooklessCells()
    ensures Filtering.TextIn(BOOKLESS, ACCOUNT_BOOK).None?
    ensures Filtering.TextIn(BOOKLESS, ACCOUNT_CODE) == Some("1001") && Cell(BOOKLESS, DATE) == Some(Date(MAR_1))
  {
    EntryCells("1001", MAR_1, "A", 100, 0);
    assert ACCOUNT_CODE[0] != ACCOUNT_BOOK[0] && DATE[0] != ACCOUNT_BOOK[0];
  }

  lemma PatchyCodeStage()
    ensures Filtering.Keep(PATCHY.rows, Filtering.CodeStartsWith("100")) == PATCHY.rows
  {
    JournalCells();
    BooklessCells();
    assert "100" <= "1001" && "100" <= "1002";
    var code := Filtering.CodeStartsWith("100");
    assert Filtering.Holds(code, FIRST) && Filtering.Holds(code, SECOND) && Filtering.Holds(code, BOOKLESS);
    KeepThree(FIRST, SECOND, BOOKLESS, code);
  }

  lemma PatchyDateStage()
    ensures Filtering.Keep(PATCHY.rows, Filtering.DateBetween(Filtering.At(JAN_1), Filtering.At(DEC_31))) == PATCHY.rows
  {
    JournalCells();
    BooklessCells();
    var dates := Filtering.DateBetween(Filtering.At(JAN_1), Filtering.At(DEC_31));
    assert Filtering.Holds(dates, FIRST) && Filtering.Holds(dates, SECOND) && Filtering.Holds(dates, BOOKLESS);
    KeepThree(FIRST, SECOND, BOOKLESS, dates);
  }

  /** Every row of the patchy journal reaches the book stage, and none has a null code. */
  lemma PatchyStages()
    ensures Filtering.TextIn(BOOKLESS, ACCOUNT_BOOK).None?
    ensures Filtering.ReachingBookStage(PATCHY, "100", false, Filtering.At(JAN_1), Filtering.At(DEC_31)) == PATCHY.rows
    ensures !Filtering.HasNullCode(PATCHY.rows)
  {
    BooklessCells();
    PatchyCodeStage();
    PatchyDateStage();
    assert Filtering.CodeTest("100", false) == Filtering.CodeStartsWith("100");
    assert forall k :: 0 <= k < 3 ==> Filtering.TextIn(PATCHY.rows[k], ACCOUNT_CODE).Some? by {
      JournalCells();
    }
  }

  /** Asking for book B, which no row carries, makes je_analyzer list the
      available books; one of them is NaN, so the listing raises and the
      run exits. */
  lemma NullBookInWarningExits()
    ensures Filtering.FilterData(PATCHY, "100", Filtering.At(JAN_1), Filtering.At(DEC_31), "B")
         == Filtering.Rejected(Filtering.UnlistableBooks)
  {
    JournalPassesChecks();
    PatchyStages();
    assert !Strings.IsSpace("B"[0]);
    assert PATCHY.rows[2] == BOOKLESS;
    assert !Filtering.BookPresent(PATCHY.rows, "B");
  }

  /** Asking for book A, which is there, raises no warning, so the null
      book does no harm: the first two rows are kept. */
  lemma NullBookWithoutWarningFilters()
    ensures Filtering.FilterData(PATCHY, "100", Filtering.At(JAN_1), Filtering.At(DEC_31), "A")
         == Filtering.Filtered(Table(PATCHY.columns, [FIRST, SECOND]), [])
  {
    JournalPassesChecks();
    PatchyStages();
    PatchyBookStage();
  }

  lemma PatchyBookStage()
    ensures Filtering.Keep(PATCHY.rows, Filtering.BookMatches(Filtering.Only("A"))) == [FIRST, SECOND]
    ensures Filtering.BookPresent(PATCHY.rows, "A")
  {
    JournalCells();
    BooklessCells();
    assert PATCHY.rows[0] == FIRST;
    KeepThree(FIRST, SECOND, BOOKLESS, Filtering.BookMatches(Filtering.Only("A")));
  }

  /** The journal has no `max_amount` column, so dropping it changes no row. */
  lemma DropLeavesJournal()
    ensures Ranking.DropMaxAmount(JOURNAL.rows) == JOURNAL.rows
  {
    JournalCells();
    var d := Ranking.DropMaxAmount(JOURNAL.rows);
    forall k | 0 <= k < 3 ensures d[k] == JOURNAL.rows[k] {
      assert JOURNAL.rows[k] - {Ranking.MAX_AMOUNT} == JOURNAL.rows[k];
    }
  }

  lemma BothAmountColumns()
    ensures DEBIT in JOURNAL.columns && CREDIT in JOURNAL.columns
    ensures Ranking.GoverningKey(Ranking.ByLarger, JOURNAL.columns) == Ranking.ByLargerAmount
  {
    var columns := JOURNAL.columns;
    assert columns[3] == DEBIT && columns[4] == CREDIT;
  }

  /** Ranking all three rows by the larger absolute amount and keeping one
      gives the third row (debit 200). */
  lemma LargestAmountRanksFirst()
    ensures Ranking.GoverningKey(Ranking.ByLarger, JOURNAL.columns) == Ranking.ByLargerAmount
    ensures Ranking.SortBy(Ranking.Candidates(JOURNAL.rows, Ranking.ByLargerAmount), Ranking.ByLargerAmount)[..1] == [THIRD]
  {
    BothAmountColumns();
    JournalCells();
    DropLeavesJournal();
    TopOfThree(FIRST, SECOND, THIRD, Ranking.ByLargerAmount);
  }

  /** Of three rows keyed 100, 50 and 200, the last sorts first. */
  lemma TopOfThree(a: Row, b: Row, c: Row, key: Ranking.SortKey)
    requires Ranking.KeyOf(key, a) == Some(100) && Ranking.KeyOf(key, b) == Some(50)
    requires Ranking.KeyOf(key, c) == Some(200)
    ensures Ranking.SortBy([a, b, c], key)[..1] == [c]
  {
    Ranking.StrictTopComesFirst([a, b, c], key, 2);
    Head(Ranking.SortBy([a, b, c], key));
  }

  lemma Head<T>(s: seq<T>)
    requires |s| >= 1
    ensures s[..1] == [s[0]]
  {
  }

  /** The custom list "日期,账套名称,nonexistent" selects the two columns the
      journal has, in that order, and reports the third as missing. */
  lemma CustomListReportsMissing()
    ensures Projection.Requested("日期,账套名称,nonexistent") == [DATE, ACCOUNT_BOOK, "nonexistent"]
    ensures Present(Projection.Requested("日期,账套名称,nonexistent"), JOURNAL.columns) == [DATE, ACCOUNT_BOOK]
    ensures forall c :: c in Projection.Requested("日期,账套名称,nonexistent") && c !in JOURNAL.columns <==> c == "nonexistent"
  {
    var names := [DATE, ACCOUNT_BOOK, "nonexistent"];
    JoinedList();
    PlainNames();
    Projection.RequestedNames(names);
    PresentOfNames();
  }

  lemma PresentOfNames()
    ensures Present([DATE, ACCOUNT_BOOK, "nonexistent"], JOURNAL.columns) == [DATE, ACCOUNT_BOOK]
    ensures forall c :: c in [DATE, ACCOUNT_BOOK, "nonexistent"] && c !in JOURNAL.columns <==> c == "nonexistent"
  {
    var names := [DATE, ACCOUNT_BOOK, "nonexistent"];
    var columns := JOURNAL.columns;
    assert columns[1] == DATE && columns[2] == ACCOUNT_BOOK;
    assert "nonexistent" !in columns by {
      assert forall k :: 0 <= k < |columns| ==> columns[k][0] != 'n';
    }
    assert names[1..] == [ACCOUNT_BOOK, "nonexistent"];
    assert names[1..][1..] == ["nonexistent"];
    assert names[1..][1..][1..] == [];
    assert Present(names[1..][1..], columns) == [];
    assert Present(names[1..], columns) == [ACCOUNT_BOOK];
    assert Present(names, columns) == [DATE] + [ACCOUNT_BOOK];
  }

  lemma JoinedList()
    ensures Strings.Join([DATE, ACCOUNT_BOOK, "nonexistent"], ',') == "日期,账套名称,nonexistent"
  {
    var names := [DATE, ACCOUNT_BOOK, "nonexistent"];
    assert names[1..] == [ACCOUNT_BOOK, "nonexistent"];
    assert names[1..][1..] == ["nonexistent"];
    assert Strings.Join(names[1..][1..], ',') == "nonexistent";
    assert Strings.Join(names[1..], ',') == ACCOUNT_BOOK + [','] + "nonexistent";
  }

  lemma PlainNames()
    ensures forall k :: 0 <= k < 3 ==>
      ',' !in [DATE, ACCOUNT_BOOK, "nonexistent"][k] && Strings.Unpadded([DATE, ACCOUNT_BOOK, "nonexistent"][k])
  {
  }
}
