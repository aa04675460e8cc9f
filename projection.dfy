/** `select_columns`: which columns the `get` output shows. */
module Projection {
  import opened Tables
  import Strings

  /** The preset columns of the `default` mode, in output order. */
  const DEFAULT_COLUMNS := [ACCOUNT_BOOK, ACCOUNT_CODE, ACCOUNT_NAME, SUMMARY, VOUCHER_ID, VOUCHER_LINE,
                            DEBIT, CREDIT, DATE, CUSTOMER, SUPPLIER, PROJECT]

  /** The preset columns the `default` mode drops when they hold no value at all. */
  const OPTIONAL_COLUMNS := [CUSTOMER, SUPPLIER, PROJECT]

  /** Of `names`, those in `available` whose every cell is null, in order:
      what the `columns_to_remove` loop collects. */
  function EmptyOnes(names: seq<string>, available: seq<string>, rows: seq<Row>): (r: seq<string>)
    ensures forall c :: c in r <==> c in names && c in available && AllNull(rows, c)
  {
    if names == [] then []
    else
      var last := names[|names| - 1];
      EmptyOnes(names[..|names| - 1], available, rows)
        + (if last in available && AllNull(rows, last) then [last] else [])
  }

  /** The requested names of a custom selection: each comma-separated piece, stripped. */
  function Requested(config: string): (names: seq<string>)
    ensures |names| == |Strings.Split(config, ',')| >= 1
  {
    Strings.StripEach(Strings.Split(config, ','))
  }

  /** The `default` mode: the preset columns the table has, in preset order,
      except the optional ones whose every cell is null. */
  method DefaultSelection(t: Table) returns (r: Table)
    ensures r.columns == Absent(Present(DEFAULT_COLUMNS, t.columns), EmptyOnes(OPTIONAL_COLUMNS, t.columns, t.rows))
    ensures forall c :: c in r.columns <==>
      c in DEFAULT_COLUMNS && c in t.columns && !(c in OPTIONAL_COLUMNS && AllNull(t.rows, c))
    ensures r == Project(t, r.columns)
  {
    var available := Present(DEFAULT_COLUMNS, t.columns);
    var toRemove: seq<string> := [];
    for i := 0 to |OPTIONAL_COLUMNS|
      invariant toRemove == EmptyOnes(OPTIONAL_COLUMNS[..i], available, t.rows)
    {
      var column := OPTIONAL_COLUMNS[i];
      if column in available && AllNull(t.rows, column) {
        toRemove := toRemove + [column];
      }
      assert OPTIONAL_COLUMNS[..i + 1][..i] == OPTIONAL_COLUMNS[..i];
    }
    assert OPTIONAL_COLUMNS[..|OPTIONAL_COLUMNS|] == OPTIONAL_COLUMNS;
    assert EmptyOnes(OPTIONAL_COLUMNS, available, t.rows) == EmptyOnes(OPTIONAL_COLUMNS, t.columns, t.rows) by {
      EmptyOnesInPool(OPTIONAL_COLUMNS, available, t.columns, t.rows);
    }
    r := Project(t, Absent(available, toRemove));
  }

  /** Only names in both pools matter to `EmptyOnes`; the preset columns the
      table has and the table's columns agree on the optional ones. */
  lemma {:induction false} EmptyOnesInPool(names: seq<string>, a: seq<string>, b: seq<string>, rows: seq<Row>)
    requires forall c :: c in names ==> (c in a <==> c in b)
    ensures EmptyOnes(names, a, rows) == EmptyOnes(names, b, rows)
  {
    if names != [] {
      EmptyOnesInPool(names[..|names| - 1], a, b, rows);
    }
  }

  /** The custom mode: the requested names the table has, in the order
      given, or the whole table when none matches; and the set of requested
      names it lacks. */
  method CustomSelection(t: Table, config: string) returns (r: Table, missing: set<string>)
    ensures forall c :: c in missing <==> c in Requested(config) && c !in t.columns
    ensures Present(Requested(config), t.columns) == [] ==> r == t
    ensures Present(Requested(config), t.columns) != [] ==>
      r == Project(t, Present(Requested(config), t.columns))
  {
    var custom := Requested(config);
    var available := Present(custom, t.columns);
    missing := (set c | c in custom) - (set c | c in available);
    if available != [] {
      r := Project(t, available);
    } else {
      r := t;
    }
  }

  /** `select_columns(df, columns_config)`, with the set of requested names
      the data lacks (the warning of the custom mode; empty otherwise). In
      every mode the output shows only columns of the table, with their cells. */
  method SelectColumns(t: Table, config: string) returns (r: Table, missing: set<string>)
    ensures config == "all" ==> r == t && missing == {}
    ensures config == "default" ==>
      && (forall c :: c in r.columns <==>
            c in DEFAULT_COLUMNS && c in t.columns && !(c in OPTIONAL_COLUMNS && AllNull(t.rows, c)))
      && r.columns == Absent(Present(DEFAULT_COLUMNS, t.columns), EmptyOnes(OPTIONAL_COLUMNS, t.columns, t.rows))
      && r == Project(t, r.columns)
      && missing == {}
    ensures config != "all" && config != "default" ==>
      && (forall c :: c in missing <==> c in Requested(config) && c !in t.columns)
      && (Present(Requested(config), t.columns) == [] ==> r == t)
      && (Present(Requested(config), t.columns) != [] ==> r == Project(t, Present(Requested(config), t.columns)))
    ensures forall c :: c in r.columns ==> c in t.columns
    ensures r == Project(t, r.columns) || r == t
  {
    if config == "all" {
      r, missing := t, {};
    } else if config == "default" {
      r := DefaultSelection(t);
      missing := {};
    } else {
      r, missing := CustomSelection(t, config);
    }
  }

  /** Splitting the configuration at its commas and reading each piece back
      gives the requested names: a configuration of comma-free names, each
      without surrounding whitespace, requests exactly those names. */
  lemma RequestedNames(names: seq<string>)
    requires |names| >= 1
    requires forall k :: 0 <= k < |names| ==> ',' !in names[k] && Strings.Unpadded(names[k])
    ensures Requested(Strings.Join(names, ',')) == names
  {
    Strings.SplitJoin(names, ',');
    forall k | 0 <= k < |names| ensures Strings.Strip(names[k]) == names[k] {
      Strings.StripUnchanged(names[k]);
    }
  }
}
