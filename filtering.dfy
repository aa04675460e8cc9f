/** `filter_data`: argument validation, then three row selections applied in
    a fixed order (account code, date range, ledger book), each on what the
    previous one kept. */
module Filtering {
  import opened Tables
  import Strings

  /** A date argument as the caller holds it after `pd.to_datetime`: the
      empty string (rejected before parsing), text the parser refused,
      text it turned into NaT, or a timestamp in nanoseconds since the epoch
      (a date without a time is its midnight). */
  datatype DateArg = EmptyText | Unparsable | NotATime | At(time: int)

  /** The ledger-book selector after it has been read: every book, a list of
      trimmed names (the text held a comma), or one name taken verbatim. */
  datatype BookSelector = AllBooks | AnyOf(names: seq<string>) | Only(name: string)

  /** A test on one row: the three stages of the filter and their conjunction. */
  datatype RowTest =
    | CodeEquals(code: string)
    | CodeStartsWith(prefix: string)
    | DateBetween(start: DateArg, end: DateArg)
    | BookMatches(selector: BookSelector)
    | Both(first: RowTest, second: RowTest)

  datatype FilterError =
    | BlankAccountCode
    | MissingDate
    | BlankAccountBook
    | InvalidDate
    | StartAfterEnd
    | MissingColumn(column: string)
    | NullCodeInPrefixMatch
    | UnlistableBooks

  /** A rejection, or the kept table with the advisory list of selected
      book names that the data does not contain. */
  datatype FilterResult =
    | Rejected(error: FilterError)
    | Filtered(table: Table, missingBooks: seq<string>)

  /** `selector.lower() == 'all'`: no character other than A and L lowers to
      a or l, so this is the three-letter word in any letter case. */
  predicate IsAllKeyword(s: string)
  {
    |s| == 3 && (s[0] == 'a' || s[0] == 'A') && (s[1] == 'l' || s[1] == 'L') && (s[2] == 'l' || s[2] == 'L')
  }

  /** How the book argument is read: `all` in any case selects everything,
      text with a comma selects each stripped comma-separated name, and
      anything else is one name compared verbatim. */
  function ReadSelector(book: string): (sel: BookSelector)
    ensures sel.AllBooks? <==> IsAllKeyword(book)
    ensures sel.AnyOf? <==> !IsAllKeyword(book) && ',' in book
    ensures sel.AnyOf? ==> |sel.names| == |Strings.Split(book, ',')| >= 2
    ensures sel.AnyOf? ==> forall k :: 0 <= k < |sel.names| ==>
      ',' !in sel.names[k] && sel.names[k] == Strings.Strip(Strings.Split(book, ',')[k])
    ensures sel.Only? ==> sel.name == book
  {
    if IsAllKeyword(book) then AllBooks
    else if ',' in book then
      var parts := Strings.Split(book, ',');
      Strings.SplitAtSeparator(book, ',');
      var names := Strings.StripEach(parts);
      assert forall k :: 0 <= k < |names| ==> ',' !in names[k] by {
        forall k | 0 <= k < |names| ensures ',' !in names[k] {
          Strings.StripMeaning(parts[k]);
        }
      }
      AnyOf(names)
    else Only(book)
  }

  /** The text in `column`, when the cell holds text. */
  function TextIn(r: Row, column: string): Option<string>
  {
    match Cell(r, column)
    case Some(Text(s)) => Some(s)
    case _ => None
  }

  predicate Holds(test: RowTest, r: Row)
  {
    match test
    case CodeEquals(code) => TextIn(r, ACCOUNT_CODE) == Some(code)
    case CodeStartsWith(prefix) => TextIn(r, ACCOUNT_CODE).Some? && prefix <= TextIn(r, ACCOUNT_CODE).value
    case DateBetween(start, end) =>
      && start.At? && end.At?
      && Cell(r, DATE).Some? && Cell(r, DATE).value.Date?
      && start.time <= Cell(r, DATE).value.time <= end.time
    case BookMatches(selector) =>
      (match selector
       case AllBooks => true
       case AnyOf(names) => TextIn(r, ACCOUNT_BOOK).Some? && TextIn(r, ACCOUNT_BOOK).value in names
       case Only(name) => TextIn(r, ACCOUNT_BOOK) == Some(name))
    case Both(first, second) => Holds(first, r) && Holds(second, r)
  }

  /** A boolean-mask selection `df[mask]`: the rows passing `test`, in order.
      What it keeps, and where from, is stated by `KeepIsOrderedSelection`. */
  function Keep(rows: seq<Row>, test: RowTest): (kept: seq<Row>)
    ensures |kept| <= |rows|
  {
    if rows == [] then []
    else (if Holds(test, rows[0]) then [rows[0]] else []) + Keep(rows[1..], test)
  }

  /** The boolean mask `test` computes over `rows`; `KeepIsSelect` ties it to `Keep`. */
  function Mask(rows: seq<Row>, test: RowTest): (m: seq<bool>)
    ensures |m| == |rows|
    ensures forall i {:trigger m[i]} :: 0 <= i < |rows| ==> m[i] == Holds(test, rows[i])
  {
    if rows == [] then [] else [Holds(test, rows[0])] + Mask(rows[1..], test)
  }

  /** The elements whose mask entry is set, in order. */
  function Select<T>(xs: seq<T>, m: seq<bool>): (r: seq<T>)
    requires |m| == |xs|
  {
    if xs == [] then [] else (if m[0] then [xs[0]] else []) + Select(xs[1..], m[1..])
  }

  /** `Keep` is `df[mask]` for the mask its test computes. */
  lemma {:induction false} KeepIsSelect(rows: seq<Row>, test: RowTest)
    ensures Keep(rows, test) == Select(rows, Mask(rows, test))
  {
    if rows != [] {
      KeepIsSelect(rows[1..], test);
    }
  }

  /** The positions of the rows `Keep` selects. */
  function Positions(rows: seq<Row>, test: RowTest): seq<nat>
  {
    SetPositionsFrom(Mask(rows, test), 0)
  }

  /** The selected elements are the elements at the set positions, in that order. */
  lemma {:induction false} SelectAtPositionsFrom<T>(xs: seq<T>, m: seq<bool>, from: nat)
    requires |m| == |xs| && from <= |xs|
    ensures var idx := SetPositionsFrom(m, from); var kept := Select(xs[from..], m[from..]);
      |idx| == |kept| && forall k :: 0 <= k < |idx| ==> kept[k] == xs[idx[k]]
    decreases |xs| - from
  {
    if from < |xs| {
      SelectAtPositionsFrom(xs, m, from + 1);
      assert xs[from..][1..] == xs[from + 1..] && m[from..][1..] == m[from + 1..];
    }
  }

  /** `Keep` is an order-preserving selection: the kept rows are exactly the
      rows at the strictly increasing positions whose row passes `test`. */
  lemma KeepIsOrderedSelection(rows: seq<Row>, test: RowTest)
    ensures var idx := Positions(rows, test); var kept := Keep(rows, test);
      && |idx| == |kept|
      && (forall k :: 0 <= k < |idx| ==> idx[k] < |rows| && kept[k] == rows[idx[k]])
      && (forall k, l :: 0 <= k < l < |idx| ==> idx[k] < idx[l])
      && (forall i :: 0 <= i < |rows| ==> (i in idx <==> Holds(test, rows[i])))
  {
    KeepIsSelect(rows, test);
    SelectAtPositionsFrom(rows, Mask(rows, test), 0);
    assert rows[0..] == rows && Mask(rows, test)[0..] == Mask(rows, test);
  }

  /** Applying one selection after another is selecting by both tests. */
  lemma {:induction false} KeepKeep(rows: seq<Row>, first: RowTest, second: RowTest)
    ensures Keep(Keep(rows, first), second) == Keep(rows, Both(first, second))
  {
    if rows != [] {
      KeepKeep(rows[1..], first, second);
      if Holds(first, rows[0]) {
        assert Keep(rows, first) == [rows[0]] + Keep(rows[1..], first);
        assert Keep(rows, first)[1..] == Keep(rows[1..], first);
      } else {
        assert Keep(rows, first) == Keep(rows[1..], first);
      }
    }
  }

  /** Is some row's book cell exactly the text `name` (`name in df[book].unique()`)? */
  predicate BookPresent(rows: seq<Row>, name: string)
  {
    exists k :: 0 <= k < |rows| && TextIn(rows[k], ACCOUNT_BOOK) == Some(name)
  }

  /** The book names of `rows`, in row order (the pool the selector is checked against). */
  function BookNames(rows: seq<Row>): (names: seq<string>)
    ensures forall n :: n in names <==> BookPresent(rows, n)
  {
    if rows == [] then []
    else
      var rest := BookNames(rows[1..]);
      assert forall n :: BookPresent(rows[1..], n) ==> BookPresent(rows, n) by {
        forall n | BookPresent(rows[1..], n) ensures BookPresent(rows, n) {
          var k :| 0 <= k < |rows[1..]| && TextIn(rows[1..][k], ACCOUNT_BOOK) == Some(n);
          assert rows[k + 1] == rows[1..][k];
        }
      }
      assert forall n :: BookPresent(rows, n) ==> TextIn(rows[0], ACCOUNT_BOOK) == Some(n) || BookPresent(rows[1..], n) by {
        forall n | BookPresent(rows, n) ensures TextIn(rows[0], ACCOUNT_BOOK) == Some(n) || BookPresent(rows[1..], n) {
          var k :| 0 <= k < |rows| && TextIn(rows[k], ACCOUNT_BOOK) == Some(n);
          if k > 0 { assert rows[1..][k - 1] == rows[k]; }
        }
      }
      match TextIn(rows[0], ACCOUNT_BOOK)
      case Some(b) => [b] + rest
      case None => rest
  }

  /** The names the selector asks for that no row (of those reaching the
      book stage) carries; the warning of `filter_data`. */
  function MissingBooks(rows: seq<Row>, selector: BookSelector): (missing: seq<string>)
    ensures selector.AllBooks? ==> missing == []
    ensures selector.AnyOf? ==> missing == Absent(selector.names, BookNames(rows))
    ensures selector.Only? ==> missing == if BookPresent(rows, selector.name) then [] else [selector.name]
    ensures forall b :: b in missing ==> !BookPresent(rows, b)
  {
    match selector
    case AllBooks => []
    case AnyOf(names) => Absent(names, BookNames(rows))
    case Only(name) => if BookPresent(rows, name) then [] else [name]
  }

  /** Some row's book cell is not text (a null one, as `dtype=str` loading
      leaves nothing else); the same test as `HasNullCode` for codes. */
  predicate HasNonTextBook(rows: seq<Row>)
  {
    exists k :: 0 <= k < |rows| && TextIn(rows[k], ACCOUNT_BOOK).None?
  }

  /** The book warning fires while some row reaching the book stage has a
      book cell that is not text. The warning then lists the available books
      with `', '.join(sorted(...))`, and sorting a mix of text and NaN, or
      joining anything but text, raises. */
  predicate BooksUnlistable(rows: seq<Row>, selector: BookSelector)
  {
    MissingBooks(rows, selector) != [] && HasNonTextBook(rows)
  }

  /** The rows that reach the book stage: those passing the code and the date stages. */
  function ReachingBookStage(t: Table, code: string, exact: bool, start: DateArg, end: DateArg): seq<Row>
  {
    Keep(Keep(t.rows, CodeTest(code, exact)), DateBetween(start, end))
  }

  /** Some row's account code is not text, so `.str.startswith` gives NaN
      there and the prefix mask cannot index. Loading with `dtype=str` leaves
      a code cell text or null; the test is on `TextIn`, as for the books. */
  predicate HasNullCode(rows: seq<Row>)
  {
    exists k :: 0 <= k < |rows| && TextIn(rows[k], ACCOUNT_CODE).None?
  }

  function CodeTest(code: string, exact: bool): RowTest
  {
    if exact then CodeEquals(code) else CodeStartsWith(code)
  }

  /** The three stage tests combined, in the order the stages run. */
  function Criteria(code: string, exact: bool, start: DateArg, end: DateArg, selector: BookSelector): RowTest
  {
    Both(Both(CodeTest(code, exact), DateBetween(start, end)), BookMatches(selector))
  }

  /** The argument checks: a non-blank code and book, both date texts
      non-empty and parsed, and the start not after the end. */
  predicate ArgumentsValid(code: string, start: DateArg, end: DateArg, book: string)
  {
    && !Strings.Blank(code) && !Strings.Blank(book)
    && start != EmptyText && end != EmptyText && start != Unparsable && end != Unparsable
    && !(start.At? && end.At? && start.time > end.time)
  }

  /** `filter_data(df, account_code, start_date, end_date, account_book, exact_match)`.
      It fails exactly when an argument check fails, a governing column is
      absent, a prefix match meets a null code, or the book warning has to
      list a book cell that is not text; each argument check has
      its own error, checked in je_analyzer's order, so every failing case
      has exactly one error. On success the columns
      are unchanged and no row is added. */
  function FilterData(t: Table, code: string, start: DateArg, end: DateArg, book: string, exact: bool := false): (r: FilterResult)
    ensures r.Rejected? <==>
      || !ArgumentsValid(code, start, end, book)
      || ACCOUNT_CODE !in t.columns || DATE !in t.columns || ACCOUNT_BOOK !in t.columns
      || (!exact && HasNullCode(t.rows))
      || BooksUnlistable(ReachingBookStage(t, code, exact, start, end), ReadSelector(book))
    ensures Strings.Blank(code) ==> r == Rejected(BlankAccountCode)
    ensures !Strings.Blank(code) && (start == EmptyText || end == EmptyText) ==> r == Rejected(MissingDate)
    ensures !Strings.Blank(code) && start != EmptyText && end != EmptyText && Strings.Blank(book) ==> r == Rejected(BlankAccountBook)
    ensures (&& !Strings.Blank(code) && start != EmptyText && end != EmptyText && !Strings.Blank(book)
             && (start == Unparsable || end == Unparsable))
      ==> r == Rejected(InvalidDate)
    ensures (&& !Strings.Blank(code) && start != EmptyText && end != EmptyText && !Strings.Blank(book)
             && start != Unparsable && end != Unparsable && start.At? && end.At? && start.time > end.time)
      ==> r == Rejected(StartAfterEnd)
    ensures ArgumentsValid(code, start, end, book) && ACCOUNT_CODE !in t.columns ==> r == Rejected(MissingColumn(ACCOUNT_CODE))
    ensures ArgumentsValid(code, start, end, book) && ACCOUNT_CODE in t.columns && !exact && HasNullCode(t.rows)
      ==> r == Rejected(NullCodeInPrefixMatch)
    ensures (&& ArgumentsValid(code, start, end, book) && ACCOUNT_CODE in t.columns && !(!exact && HasNullCode(t.rows))
             && DATE !in t.columns)
      ==> r == Rejected(MissingColumn(DATE))
    ensures (&& ArgumentsValid(code, start, end, book) && ACCOUNT_CODE in t.columns && !(!exact && HasNullCode(t.rows))
             && DATE in t.columns && ACCOUNT_BOOK !in t.columns)
      ==> r == Rejected(MissingColumn(ACCOUNT_BOOK))
    ensures (&& ArgumentsValid(code, start, end, book) && ACCOUNT_CODE in t.columns && !(!exact && HasNullCode(t.rows))
             && DATE in t.columns && ACCOUNT_BOOK in t.columns
             && BooksUnlistable(ReachingBookStage(t, code, exact, start, end), ReadSelector(book)))
      ==> r == Rejected(UnlistableBooks)
    ensures r.Filtered? ==> r.table.columns == t.columns && |r.table.rows| <= |t.rows|
    ensures r.Filtered? ==> r.missingBooks == MissingBooks(ReachingBookStage(t, code, exact, start, end), ReadSelector(book))
  {
    if Strings.Blank(code) then Rejected(BlankAccountCode)
    else if start == EmptyText || end == EmptyText then Rejected(MissingDate)
    else if Strings.Blank(book) then Rejected(BlankAccountBook)
    else if start == Unparsable || end == Unparsable then Rejected(InvalidDate)
    else if start.At? && end.At? && start.time > end.time then Rejected(StartAfterEnd)
    else if ACCOUNT_CODE !in t.columns then Rejected(MissingColumn(ACCOUNT_CODE))
    else if !exact && HasNullCode(t.rows) then Rejected(NullCodeInPrefixMatch)
    else
      var byCode := Keep(t.rows, CodeTest(code, exact));
      if DATE !in t.columns then Rejected(MissingColumn(DATE))
      else
        var byDate := Keep(byCode, DateBetween(start, end));
        if ACCOUNT_BOOK !in t.columns then Rejected(MissingColumn(ACCOUNT_BOOK))
        else
          var selector := ReadSelector(book);
          if BooksUnlistable(byDate, selector) then Rejected(UnlistableBooks)
          else Filtered(Table(t.columns, Keep(byDate, BookMatches(selector))), MissingBooks(byDate, selector))
  }

  /** The filter's criteria for one row, spelled out: the code equals (or,
      for a prefix match, starts with) the requested code, the date lies in
      the closed range, and the book is selected. */
  predicate MeetsCriteria(r: Row, code: string, exact: bool, start: DateArg, end: DateArg, book: string)
  {
    && (exact ==> TextIn(r, ACCOUNT_CODE) == Some(code))
    && (!exact ==> TextIn(r, ACCOUNT_CODE).Some? && code <= TextIn(r, ACCOUNT_CODE).value)
    && start.At? && end.At? && Cell(r, DATE).Some? && Cell(r, DATE).value.Date?
    && start.time <= Cell(r, DATE).value.time <= end.time
    && (|| IsAllKeyword(book)
        || (!IsAllKeyword(book) && ',' in book && TextIn(r, ACCOUNT_BOOK).Some?
            && TextIn(r, ACCOUNT_BOOK).value in Strings.StripEach(Strings.Split(book, ',')))
        || (!IsAllKeyword(book) && ',' !in book && TextIn(r, ACCOUNT_BOOK) == Some(book)))
  }

  /** The combined stage test, with the book argument read, is exactly the
      spelled-out criteria. */
  lemma CriteriaMeaning(r: Row, code: string, exact: bool, start: DateArg, end: DateArg, book: string)
    ensures Holds(Criteria(code, exact, start, end, ReadSelector(book)), r) <==> MeetsCriteria(r, code, exact, start, end, book)
  {
    var selector := ReadSelector(book);
    assert Holds(Criteria(code, exact, start, end, selector), r) <==>
      Holds(CodeTest(code, exact), r) && Holds(DateBetween(start, end), r) && Holds(BookMatches(selector), r);
    if selector.AnyOf? {
      assert selector.names == Strings.StripEach(Strings.Split(book, ','));
    }
  }

  /** What `filter_data` keeps: the rows are selected by the three stage
      tests together, independently of the book warnings, and they are
      exactly the input rows meeting the criteria, in input order. */
  lemma FilterKeepsMatchingRows(t: Table, code: string, start: DateArg, end: DateArg, book: string, exact: bool)
    requires FilterData(t, code, start, end, book, exact).Filtered?
    ensures var out := FilterData(t, code, start, end, book, exact).table.rows;
      var test := Criteria(code, exact, start, end, ReadSelector(book));
      var idx := Positions(t.rows, test);
      && out == Keep(t.rows, test)
      && |idx| == |out|
      && (forall k :: 0 <= k < |idx| ==> idx[k] < |t.rows| && out[k] == t.rows[idx[k]])
      && (forall k, l :: 0 <= k < l < |idx| ==> idx[k] < idx[l])
      && (forall i :: 0 <= i < |t.rows| ==> (i in idx <==> MeetsCriteria(t.rows[i], code, exact, start, end, book)))
      && (forall k :: 0 <= k < |out| ==> MeetsCriteria(out[k], code, exact, start, end, book))
  {
    var selector := ReadSelector(book);
    var codeTest := CodeTest(code, exact);
    var test := Criteria(code, exact, start, end, selector);
    KeepKeep(t.rows, codeTest, DateBetween(start, end));
    KeepKeep(t.rows, Both(codeTest, DateBetween(start, end)), BookMatches(selector));
    KeepIsOrderedSelection(t.rows, test);
    forall r: Row { CriteriaMeaning(r, code, exact, start, end, book); }
  }

  /** The book warnings are advisory: no kept row carries a book named in them. */
  lemma MissingBooksHaveNoRows(t: Table, code: string, start: DateArg, end: DateArg, book: string, exact: bool)
    requires FilterData(t, code, start, end, book, exact).Filtered?
    ensures var r := FilterData(t, code, start, end, book, exact);
      forall b, k :: b in r.missingBooks && 0 <= k < |r.table.rows| ==> TextIn(r.table.rows[k], ACCOUNT_BOOK) != Some(b)
  {
    var selector := ReadSelector(book);
    var byDate := Keep(Keep(t.rows, CodeTest(code, exact)), DateBetween(start, end));
    var r := FilterData(t, code, start, end, book, exact);
    KeepIsOrderedSelection(byDate, BookMatches(selector));
    forall b, k | b in r.missingBooks && 0 <= k < |r.table.rows|
      ensures TextIn(r.table.rows[k], ACCOUNT_BOOK) != Some(b)
    {
      var j := Positions(byDate, BookMatches(selector))[k];
      assert r.table.rows[k] == byDate[j];
      assert !BookPresent(byDate, b);
    }
  }

  /** A date argument the parser turned into NaT compares false with every
      date, so the filter keeps no row at all. */
  lemma NotATimeKeepsNothing(t: Table, code: string, start: DateArg, end: DateArg, book: string, exact: bool)
    requires start == NotATime || end == NotATime
    requires FilterData(t, code, start, end, book, exact).Filtered?
    ensures FilterData(t, code, start, end, book, exact).table.rows == []
  {
    FilterKeepsMatchingRows(t, code, start, end, book, exact);
    KeepNone(t.rows, Criteria(code, exact, start, end, ReadSelector(book)));
  }

  /** A test that no row passes keeps nothing. */
  lemma {:induction false} KeepNone(rows: seq<Row>, test: RowTest)
    requires forall k :: 0 <= k < |rows| ==> !Holds(test, rows[k])
    ensures Keep(rows, test) == []
  {
    if rows != [] {
      assert !Holds(test, rows[0]);
      KeepNone(rows[1..], test);
    }
  }
}
