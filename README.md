# Journal-entry analyzer core, modelled in Dafny

This project models the analysis core of `je_analyzer`, a command-line tool
for accounting journal-entry spreadsheets. It covers:

- the column checks made when a spreadsheet is loaded;
- the filter by account code, date range and ledger book (`filter_data`);
- the Top-N ranking by debit, credit or the larger absolute amount
  (`apply_top_n_filter`);
- the column projection (`select_columns`);
- the debit and credit statistics (`calculate_statistics`);
- the summary-column word frequency (`analyze_summary_word_frequency` and
  `simple_word_frequency`).

A loaded table is a `Tables.Table`. It has an ordered column list and an
ordered sequence of rows. Each row is a map from column name to a cell that
may be null. A cell holds text, an amount or a date. A key missing from a
row reads as null, as a missing cell reads as NaN in pandas.

One module per file:

| file | module | models |
|---|---|---|
| `tables.dfy` | `Tables` | the table, cells, null counts, `df[columns]`, the order-keeping name selections |
| `strings.dfy` | `Strings` | `str.strip()`, `str.split(sep)`, `sep.join(parts)` |
| `loading.dfy` | `Loading` | the empty-table and required-column checks, the conversion advisories |
| `filtering.dfy` | `Filtering` | `filter_data` |
| `ranking.dfy` | `Ranking` | `apply_top_n_filter` |
| `projection.dfy` | `Projection` | `select_columns` |
| `statistics.dfy` | `Statistics` | `calculate_statistics` |
| `tokens.dfy` | `Tokens` | the tokenizer `re.findall(r'[一-鿿]+\|[a-zA-Z0-9]+', text)` |
| `wordfreq.dfy` | `WordFrequency` | `analyze_summary_word_frequency`, `simple_word_frequency` |
| `scenarios.dfy` | `Scenarios` | worked examples on a three-row journal |

The form follows the Python code:

- Pure decisions are functions: argument validation, the boolean masks, the
  statistics and the tokenizer.
- Operations that reassign a data frame step by step are methods: the Top-N
  copy, add column, sort, drop and head; the `columns_to_remove` loop; and
  the `word_freq` counting loop. Each method is proved against the functions
  that specify it.
- A `sys.exit(1)` after an error message becomes a `Rejected`/`Failed`
  result carrying the error.
- An advisory warning becomes a second result: the missing books, the
  missing projection columns, or the conversion issues.

## Behaviour of je_analyzer worth knowing

- **Prefix filters.** A prefix match keeps every code that starts with the
  prefix. On the three-row journal of `Scenarios`, prefix `100`, the year
  2024 and book `A` keep the first two rows (codes `1001` and `1002`).
  `Scenarios.PrefixFilterKeepsBookA` proves this.
- **Mode ties.** The mode is `mode().iloc[0]`. pandas lists tied modes
  sorted, so the smallest tied value is reported (`Statistics.ModeOf`).
- **Rank ties.** `sort_values` uses pandas' default quicksort, which
  promises nothing about ties. The contracts of `Ranking.ApplyTopN` claim
  only "descending, with nulls last, and a permutation" (see
  `Ranking.SortBy` under "Left out").
- **Null codes in prefix mode.** A null account code in prefix mode makes
  the mask hold NaN. Boolean indexing with that mask raises, the `except`
  at 196-198 catches it, and the run exits. This is modelled as the error
  `NullCodeInPrefixMatch`, not as a row that is dropped.
- **Null books in a warning.** When a requested book is not found,
  je_analyzer lists the available books with `', '.join(sorted(...))`
  (182 and 188). If a row that reached the book stage has a null or other
  non-text book cell, sorting text beside NaN, or joining a non-text value,
  raises. The `except` at 196-198 catches it and the run exits. This is
  modelled as the error `UnlistableBooks`. Without a warning the null book
  does no harm (`Scenarios.NullBookInWarningExits`,
  `Scenarios.NullBookWithoutWarningFilters`).
- **Load check order.** An empty table fails before any column is checked
  (`Loading.CheckLoaded`).

## Model

| member | source | states |
|---|---|---|
| Loading.CheckLoaded | je_analyzer.py:41-55 | an empty table fails first; otherwise it fails exactly when a required column (code, date, book) is absent, naming all absent ones in the fixed order; otherwise the table is accepted unchanged with its conversion advisories |
| Loading.ConversionIssues | je_analyzer.py:57-76 | one advisory per coerced date/debit/credit column that exists and holds a null, carrying that column's null count, and no other advisory; no column twice; the date advisory comes first and the credit advisory last, so a debit advisory sits between them |
| Loading.IssueFor | je_analyzer.py:60-64 | a column's advisory is present exactly when the column exists and some row holds a null in it, and then it carries the number of such rows |
| Tables.NullCount | je_analyzer.py:62 | the count is zero exactly when no cell is null, and is the row count exactly when every cell is null |
| Tables.Present | je_analyzer.py:283 | the kept names are exactly the names in the pool, never more than given |
| Tables.Absent | je_analyzer.py:51 | the kept names are exactly the names not in the pool: the missing required columns, and the column list after `drop(columns=['max_amount'])` at 241 |
| Tables.PresentDistributes | je_analyzer.py:297 | the list comprehension keeps the order: selecting from a concatenation concatenates the selections |
| Tables.AbsentDistributes | je_analyzer.py:179 | the same for the names left out |
| Tables.SelectionsPartition | je_analyzer.py:297-298 | every requested name is either available or missing, never both |
| Tables.Project | je_analyzer.py:292 | `df[columns]` has the chosen columns in the chosen order, the same number of rows, the same cells in those columns and no other cell |
| Strings.StripMeaning | je_analyzer.py:176 | `strip()` returns a substring with only whitespace around it in the input, starting and ending with non-whitespace, empty exactly when the input is blank |
| Strings.StripUnchanged | je_analyzer.py:296 | `strip()` returns its input unchanged exactly when the input neither starts nor ends with whitespace |
| Strings.Split | je_analyzer.py:176 | `split(',')` yields at least one piece, no piece holds a comma, and joining the pieces with commas gives the input back |
| Strings.SplitJoin | je_analyzer.py:296 | the other round trip: splitting a comma-join of comma-free names gives the names back |
| Strings.StripEach | je_analyzer.py:176 | each stripped name neither starts nor ends with whitespace, is empty exactly when its piece is blank, and is the piece itself when the piece had no whitespace margin |
| Strings.SplitAtSeparator | je_analyzer.py:174-176 | text holding a comma splits into at least two pieces |
| Filtering.FilterData | je_analyzer.py:105-198 | fails exactly when an argument check fails (blank code, empty date text, blank book, unparsable date, start after end), a governing column is absent, a prefix match meets a null code, or the book warning fires while a row reaching the book stage has a non-text book cell; reports je_analyzer's error for each case, checked in its order (blank code, missing date, blank book, unparsable date, start after end, then the code column, a null code in prefix mode, the date column, the book column, and last the unlistable books); `exact_match` defaults to false; on success keeps the columns, adds no row, and warns of exactly `MissingBooks` of the rows reaching the book stage: every requested book no such row carries, in request order |
| Filtering.ReadSelector | je_analyzer.py:171-189 | `all` in any letter case selects every book; otherwise text with a comma selects its stripped comma-separated names (at least two, none holding a comma); otherwise the text is one name used verbatim |
| Filtering.MissingBooks | je_analyzer.py:176-188 | the warning lists, in the given order, the requested names that no row reaching the book stage carries; it is empty for `all` |
| Filtering.BookNames | je_analyzer.py:178 | a name is among the rows' book names exactly when some row's book cell is that text |
| Filtering.Mask | je_analyzer.py:153-189 | the boolean mask has one entry per row, true exactly when the row passes the test |
| Filtering.KeepIsSelect | je_analyzer.py:164 | the row selection is `df[mask]` for the mask the test computes |
| Filtering.KeepIsOrderedSelection | je_analyzer.py:153-189 | a mask selection keeps exactly the rows passing the test, at strictly increasing positions, in input order |
| Filtering.KeepKeep | je_analyzer.py:149-189 | running one stage on what the previous stage kept is selecting by both tests at once |
| Filtering.CriteriaMeaning | je_analyzer.py:150-189 | the combined stage test, with the book argument read, holds exactly when the code equals (or, for a prefix match, starts with) the requested code, the date lies in the closed range, and the book is selected |
| Filtering.FilterKeepsMatchingRows | je_analyzer.py:149-194 | the output rows are exactly the input rows meeting every criterion, in input order; the book warnings do not affect them |
| Filtering.MissingBooksHaveNoRows | je_analyzer.py:176-189 | no kept row carries a book named in the warning |
| Filtering.NotATimeKeepsNothing | je_analyzer.py:136-164 | a date parsed to NaT passes the start-after-end check but compares false with every date, so nothing is kept |
| Filtering.KeepNone | je_analyzer.py:164 | a mask with no true entry selects no row |
| Ranking.LargerAmount | je_analyzer.py:239 | the row's value is the larger of the absolute debit and credit, skipping a null one; it is null only when both are null |
| Ranking.SortBy | je_analyzer.py:231 | `sort_values(ascending=False)` returns a permutation of the rows, descending by the key, with nulls last |
| Ranking.SortUnsorted | je_analyzer.py:228-245 | with no amount column to sort by, the row order stays |
| Ranking.AddMaxAmount | je_analyzer.py:239 | every row gains a `max_amount` cell holding the larger of its absolute debit and credit; its other cells are unchanged |
| Ranking.GoverningKey | je_analyzer.py:228-245 | `debit` sorts by the debit column and `credit` by the credit column when it exists; `both` sorts by the larger amount when both exist, else by whichever one exists; otherwise nothing is sorted |
| Ranking.DropMaxAmount | je_analyzer.py:241 | every row loses its `max_amount` cell and nothing else |
| Ranking.DropAppended | je_analyzer.py:239-241 | dropping `max_amount` after appending it gives back the original columns without that name |
| Ranking.HelperGone | je_analyzer.py:238-241 | in the `both` order neither the columns nor any kept row hold `max_amount` |
| Ranking.AddThenDrop | je_analyzer.py:239-241 | adding the helper column and dropping it again gives the rows without it |
| Ranking.SortThenDrop | je_analyzer.py:239-241 | sorting rows whose helper cell holds their larger amount by that cell, then dropping it, equals sorting the dropped rows by the larger amount |
| Ranking.RankByLargerAmount | je_analyzer.py:238-241 | the `both` ordering yields the columns without `max_amount`, and the rows without their `max_amount` cell sorted by the larger amount |
| Ranking.Rank | je_analyzer.py:228-245 | the rows end up sorted by the key that `top_type` and the columns present select, including the fallbacks to one amount column; with no usable column the order is unchanged |
| Ranking.ApplyTopN | je_analyzer.py:201-248 | without a positive N, or on an empty table, the table is returned unchanged; otherwise the result holds min(N, rows) rows, descending by the governing key, as the head of the sorted rows, with no `max_amount` column or cell in the `both` order |
| Ranking.DescendingPrefix | je_analyzer.py:248 | `head(n)` of a descending order is descending |
| Ranking.TopRowsRankHighest | je_analyzer.py:247-248 | no row left out of the head ranks above a row kept, and the kept rows come from the input |
| Ranking.NoHelperCellSurvives | je_analyzer.py:241 | after the drop no row holds a `max_amount` cell |
| Ranking.StrictTopComesFirst | je_analyzer.py:231-248 | a row that ranks strictly above every other row comes first |
| Projection.EmptyOnes | je_analyzer.py:286-289 | `columns_to_remove` holds exactly the optional columns that are available and wholly null |
| Projection.Requested | je_analyzer.py:296 | the custom list has one stripped name per comma-separated piece |
| Projection.RequestedNames | je_analyzer.py:296 | a comma-join of comma-free names, none starting or ending with whitespace, requests exactly those names |
| Projection.DefaultSelection | je_analyzer.py:274-292 | the default mode shows the present preset columns in preset order, except the customer, supplier and project columns when every cell is null, with their cells |
| Projection.EmptyOnesInPool | je_analyzer.py:283-288 | checking the optional columns against the available preset columns or against the table's columns gives the same removals |
| Projection.CustomSelection | je_analyzer.py:294-303 | the custom mode shows the requested names the table has, in the requested order, or the whole table when none matches; the warning set is exactly the requested names the table lacks |
| Projection.SelectColumns | je_analyzer.py:251-303 | `all` returns the table with no warning; `default` behaves as above, with each shown column's cells; custom returns `df` of the requested names present, in the requested order, or the whole table when none is present, warning of exactly the absent ones; every mode shows only columns of the input, with their cells |
| Statistics.Amounts | je_analyzer.py:324 | `dropna()` keeps the non-null amounts; the result is empty exactly when every amount is null |
| Statistics.NonNull | je_analyzer.py:324 | the `notna()` mask has one entry per row, true exactly when the row holds an amount |
| Statistics.AmountsInRowOrder | je_analyzer.py:324 | `dropna()` is an ordered selection: the k-th amount belongs to the k-th row, by increasing position, that holds one; each such row contributes exactly once |
| Statistics.Mean | je_analyzer.py:327 | the mean times the count is the total |
| Statistics.Count | je_analyzer.py:329 | a value's frequency is positive exactly when the value occurs |
| Statistics.MostFrequentOf | je_analyzer.py:328 | the chosen candidate occurs at least as often as any other, and is the smallest among those tied |
| Statistics.ModeOf | je_analyzer.py:328 | the mode is an amount occurring at least as often as any other, and is the smallest such |
| Statistics.Summarize | je_analyzer.py:326-330 | the mean times the count is the total; the mode is as above; the mode frequency is how often the mode occurs, which is the largest frequency |
| Statistics.Distribute | je_analyzer.py:322-330 | a column's summary is present exactly when the column exists and holds an amount |
| Statistics.CalculateStatistics | je_analyzer.py:306-342 | reports the row count, and a debit (credit) summary exactly when the column exists and some row holds an amount there |
| Statistics.AverageWithinRange | je_analyzer.py:327 | the mean lies between any lower and upper bound of the amounts |
| Statistics.ConstantAmounts | je_analyzer.py:326-330 | when all amounts are equal, that value is the mean and the mode, with frequency the count |
| Tokens.RunLength | je_analyzer.py:382 | a run is maximal: all its characters are of the class, and the next character is not |
| Tokens.Tokenize | je_analyzer.py:382 | every token is a non-empty run of CJK ideographs or of ASCII letters and digits |
| Tokens.TokenizeAcrossClassChange | je_analyzer.py:382 | tokens are maximal: a run followed by the end or by a character of another class is one whole token, and the rest tokenizes on its own |
| Tokens.TokenizeKeepsWordChars | je_analyzer.py:382 | no ideograph, letter or digit is lost or added: the tokens written one after another are the text without its separators |
| Tokens.RunThenOther | je_analyzer.py:382 | a run of one class ended by another class has exactly the run's length |
| Tokens.TokenizeAcrossDelimiter | je_analyzer.py:382 | no token spans a separator: text on either side tokenizes apart |
| Tokens.TokenizeToken | je_analyzer.py:382 | a single run on its own is one token |
| Tokens.TokenizeJoin | je_analyzer.py:378-382 | joining the summaries with spaces yields the tokens of each summary in turn |
| Tokens.TokenSpaceFree | je_analyzer.py:390 | a token holds no whitespace, so stripping it changes nothing |
| WordFrequency.SummaryTexts | je_analyzer.py:378 | one text per row: the summary's own text, or the empty string for a null summary |
| WordFrequency.Words | je_analyzer.py:378-382 | the token stream is the tokens of each summary in turn, a null summary read as empty, and each is a token |
| WordFrequency.Occurrences | je_analyzer.py:391 | a word's count is positive exactly when the word occurs |
| WordFrequency.First | je_analyzer.py:388-391 | the position of a word's first occurrence |
| WordFrequency.Vocabulary | je_analyzer.py:388-391 | the dict's keys are exactly the kept words, each once, in order of first occurrence |
| WordFrequency.VocabularyStep | je_analyzer.py:389-391 | one more token adds itself to the keys if it is kept and new; only its own count moves |
| WordFrequency.CountWords | je_analyzer.py:387-391 | after the loop the dict's key order is the vocabulary, and each key maps to its number of occurrences |
| WordFrequency.Tally | je_analyzer.py:387-394 | `word_freq.items()` lists every token passing the length and stop-word test exactly once, in order of first occurrence, each with its number of occurrences (at least one), and nothing else |
| WordFrequency.PrefixOfSorted | je_analyzer.py:395 | cutting the sorted list keeps each entry's word, count and order |
| WordFrequency.SortByCount | je_analyzer.py:394 | `sorted(..., key=count, reverse=True)` is a permutation, descending by count |
| WordFrequency.PrefixTo | je_analyzer.py:395 | `[:top_n]` has Python's slice length, a negative bound counting from the end, and is a prefix |
| WordFrequency.SortCountThenFirst | je_analyzer.py:394 | the sort is stable: equal counts keep the dict's key order |
| WordFrequency.RankedWordsMeaning | je_analyzer.py:387-395 | every listed word passes the length and stop-word test, carries its number of occurrences (at least one), and is listed once, with counts descending |
| WordFrequency.RankedTiesInFirstUseOrder | je_analyzer.py:394 | words with equal counts are listed in order of first use in the token stream |
| WordFrequency.RankedHoldsMostFrequent | je_analyzer.py:394-395 | no kept word left off the list occurs more often than a listed word, and with room for every word the list holds every kept word |
| WordFrequency.SortedPosition | je_analyzer.py:394 | every kept word stands somewhere in the sorted list with its count |
| WordFrequency.SimpleWordFrequency | je_analyzer.py:364-395 | with `top_n` defaulting to 10, the list is the sorted tally of the summary tokens, cut to `top_n`: kept words only, each with its number of occurrences, each once, counts descending |
| WordFrequency.AnalyzeSummaryWordFrequency | je_analyzer.py:345-361 | with `top_n` defaulting to 10: empty without a summary column; otherwise the list of `simple_word_frequency` |
| WordFrequency.KeepableToken | je_analyzer.py:390 | for a token, the test reads plainly: longer than one character and not a stop word |
| WordFrequency.ListedWordsAreTokens | je_analyzer.py:378-395 | the token stream is the tokens of each summary in turn, and every listed word is a token longer than one character that is not a stop word |
| Scenarios.JournalPassesChecks | je_analyzer.py:122-147 | the example's code `100`, book `A` and columns pass every argument and column check, and no code is null |
| Scenarios.StagesOnJournal | je_analyzer.py:149-189 | on the example, the prefix `100` keeps all rows, 2024 keeps all rows, and book `A` keeps the first two |
| Scenarios.PrefixFilterKeepsBookA | je_analyzer.py:149-194 | filtering the example by prefix `100`, 2024 and book `A` keeps the first two rows and warns of no book |
| Scenarios.NullBookInWarningExits | je_analyzer.py:185-188 | on a journal with a null book cell, asking for the absent book `B` makes the warning's book listing fail, so the filter exits |
| Scenarios.NullBookWithoutWarningFilters | je_analyzer.py:185-189 | on the same journal, asking for book `A` raises no warning and keeps its two rows |
| Scenarios.LargestAmountRanksFirst | je_analyzer.py:236-248 | with both amount columns, the `both` order puts the row with debit 200 first, so `head(1)` is that row |
| Scenarios.CustomListReportsMissing | je_analyzer.py:294-303 | the list `日期,账套名称,nonexistent` selects the date and book columns in that order and reports only `nonexistent` as missing |

## Left out

- Reading the spreadsheet is left out (existence and extension checks, `read_excel`, 27-47 and 87-102). The table is given as already read, with stripped column names and with the cells already coerced.
- Cell coercion is left out: `to_datetime` and `to_numeric` with `errors='coerce'` (60-79), and parsing the two date arguments (136-141). A cell that failed to coerce is a null cell. A date argument is a `DateArg`: empty, unparsable, NaT or a timestamp. Dates are timestamps in nanoseconds, as `datetime64[ns]` stores them, so the time of day is kept.
- The optional `df.query` expression of the CLI is not modelled: it is an evaluator the model cannot see.
- The overview report (`format_overview_report`, 398-449), the CLI and the tab-separated output (452-597) are left out. They are formatting and I/O.
- Message text and output streams are left out. Errors and warnings are values, not text.
- Loading.CheckLoaded: the sign-indicator coercion (78-79) is left out; it produces no advisory.
- Statistics.Summarize: amounts are integers (the smallest currency unit) and the mean is an exact real. Floating-point amounts and rounding are not modelled.
- Ranking.SortBy: ties are kept in input order. pandas' default quicksort promises no order among equal keys, so the model pins one of the orders pandas may return. Only "descending, nulls last, a permutation" is claimed as je_analyzer's promise.
- Ranking.ApplyTopN: `top_type` is one of `debit`, `credit`, `both`, or another value that orders nothing (`NoOrder`). Abs works on unbounded integers, with no float edge cases.
- WordFrequency.SimpleWordFrequency: requires a summary column, as je_analyzer does. Without one, `df['摘要']` raises; the only caller checks first.
- WordFrequency.SummaryText: the summary column is loaded as text and never coerced, so a cell is text or null. `astype(str)` of any other cell kind is not modelled.
- `src/je_analyzer/__init__.py` holds only the package docstring, the version string and the `cli` re-export; it is not part of this model.
