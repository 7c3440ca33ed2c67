/** `common_constituents`: the symbols present in the index for the whole of a
    trading period, found by restricting a table of monthly constituent rows
    to the period, dropping incomplete rows, counting each symbol and keeping
    those whose count equals the number of months in the period. */
module Constituents {
  import opened Dates

  /** A field of the table that may be missing (NaN). */
  datatype Option = None | Some(value: string)

  /** One row of the historical constituents table: the date index and the
      Company and Symbol columns, either of which may be missing (NaN). */
  datatype Row = Row(date: Date, company: Option, symbol: Option)

  /** `dropna(how='any')` keeps a row only when no field is missing. */
  predicate Complete(r: Row)
  {
    r.company.Some? && r.symbol.Some?
  }

  /** `.loc[start:end]` on a sorted date index: inclusive at both ends. */
  predicate InPeriod(d: Date, start: Date, end: Date)
  {
    DateLe(start, d) && DateLe(d, end)
  }

  predicate Kept(r: Row, start: Date, end: Date)
  {
    InPeriod(r.date, start, end) && Complete(r)
  }

  /** The rows of the period with no missing field, in table order. */
  function KeepRows(rows: seq<Row>, start: Date, end: Date): (kept: seq<Row>)
    ensures |kept| <= |rows|
    ensures forall i :: 0 <= i < |kept| ==> Kept(kept[i], start, end)
  {
    if rows == [] then []
    else
      (if Kept(rows[0], start, end) then [rows[0]] else []) + KeepRows(rows[1..], start, end)
  }

  /** A row survives the filter exactly when it is in the table and kept. */
  lemma {:induction false} KeepRowsMembers(rows: seq<Row>, start: Date, end: Date)
    ensures forall r :: r in KeepRows(rows, start, end) <==> r in rows && Kept(r, start, end)
  {
    if rows != [] {
      KeepRowsMembers(rows[1..], start, end);
      assert rows == [rows[0]] + rows[1..];
    }
  }

  /** Each kept row keeps its multiplicity; every other row is gone. */
  lemma {:induction false} KeepRowsCounts(rows: seq<Row>, start: Date, end: Date)
    ensures forall r :: multiset(KeepRows(rows, start, end))[r]
                        == if Kept(r, start, end) then multiset(rows)[r] else 0
  {
    if rows != [] {
      KeepRowsCounts(rows[1..], start, end);
      assert rows == [rows[0]] + rows[1..];
    }
  }

  /** A table none of whose rows is kept filters to nothing. */
  lemma {:induction false} KeepRowsNone(rows: seq<Row>, start: Date, end: Date)
    requires forall r :: r in rows ==> !Kept(r, start, end)
    ensures KeepRows(rows, start, end) == []
  {
    if rows != [] {
      assert rows[0] in rows;
      assert forall r :: r in rows[1..] ==> r in rows;
      KeepRowsNone(rows[1..], start, end);
    }
  }

  /** Filtering distributes over concatenation of tables. */
  lemma {:induction false} KeepRowsAppend(a: seq<Row>, b: seq<Row>, start: Date, end: Date)
    ensures KeepRows(a + b, start, end) == KeepRows(a, start, end) + KeepRows(b, start, end)
  {
    if a != [] {
      assert (a + b)[0] == a[0] && (a + b)[1..] == a[1..] + b;
      KeepRowsAppend(a[1..], b, start, end);
      var head := if Kept(a[0], start, end) then [a[0]] else [];
      calc {
        KeepRows(a + b, start, end);
        head + KeepRows(a[1..] + b, start, end);
        head + (KeepRows(a[1..], start, end) + KeepRows(b, start, end));
        (head + KeepRows(a[1..], start, end)) + KeepRows(b, start, end);
      }
    } else {
      assert a + b == b;
    }
  }

  /** The Symbol column of complete rows. */
  function SymbolColumn(rows: seq<Row>): (col: seq<string>)
    requires forall i :: 0 <= i < |rows| ==> Complete(rows[i])
    ensures |col| == |rows|
    ensures forall i :: 0 <= i < |rows| ==> rows[i].symbol == Some(col[i])
  {
    if rows == [] then []
    else
      assert Complete(rows[0]);
      [rows[0].symbol.value] + SymbolColumn(rows[1..])
  }

  /** `value_counts()` of the Symbol column of the period's complete rows:
      how often each symbol occurs there. */
  function SymbolCounts(rows: seq<Row>, start: Date, end: Date): (counts: multiset<string>)
  {
    multiset(SymbolColumn(KeepRows(rows, start, end)))
  }

  predicate NoDuplicates(xs: seq<string>)
  {
    forall i, j :: 0 <= i < j < |xs| ==> xs[i] != xs[j]
  }

  /** The distinct values of a column, each once. */
  function Distinct(xs: seq<string>): (ds: seq<string>)
    ensures NoDuplicates(ds)
    ensures forall x :: x in ds <==> x in xs
  {
    if xs == [] then []
    else if xs[0] in xs[1..] then Distinct(xs[1..])
    else [xs[0]] + Distinct(xs[1..])
  }

  /** The keys whose count equals `f` (`freq.loc[freq == f]`). */
  function WithCount(keys: seq<string>, counts: multiset<string>, f: int): (sel: seq<string>)
    ensures NoDuplicates(keys) ==> NoDuplicates(sel)
    ensures forall x :: x in sel <==> x in keys && counts[x] == f
    ensures (forall x :: x in keys ==> counts[x] != f) ==> sel == []
  {
    if keys == [] then []
    else if counts[keys[0]] == f then [keys[0]] + WithCount(keys[1..], counts, f)
    else WithCount(keys[1..], counts, f)
  }

  /** `common_constituents` on parsed dates: each symbol whose number of
      complete rows inside the period equals the month count of the period,
      once. A symbol with no such row is never returned, even when the month
      count is zero or negative. */
  function CommonConstituentsOn(rows: seq<Row>, start: Date, end: Date): (symbols: seq<string>)
    ensures NoDuplicates(symbols)
    ensures forall s :: s in symbols <==>
      0 < SymbolCounts(rows, start, end)[s] == MonthsBetween(start, end)
  {
    var column := SymbolColumn(KeepRows(rows, start, end));
    WithCount(Distinct(column), multiset(column), MonthsBetween(start, end))
  }

  /** `common_constituents` on its "yyyy-mm-dd" arguments; a date that does
      not parse raises, and nothing is returned. */
  function CommonConstituents(rows: seq<Row>, start: string, end: string): (r: Result<seq<string>>)
    ensures r.Ok? <==> ParseDate(start).Ok? && ParseDate(end).Ok?
    ensures r.Ok? ==> NoDuplicates(r.value)
    ensures r.Ok? ==> forall s :: s in r.value <==>
      0 < SymbolCounts(rows, ParseDate(start).value, ParseDate(end).value)[s]
        == MonthsBetweenDate(start, end).value
  {
    match ParseDate(start)
    case Err(e) => Err(e)
    case Ok(s) =>
      match ParseDate(end)
      case Err(e) => Err(e)
      case Ok(e) => Ok(CommonConstituentsOn(rows, s, e))
  }

  /** Only the period's complete rows matter: appending rows that are outside
      the period or have a missing field changes nothing. */
  lemma IgnoresRowsOutsidePeriod(rows: seq<Row>, extra: seq<Row>, start: Date, end: Date)
    requires forall r :: r in extra ==> !Kept(r, start, end)
    ensures CommonConstituentsOn(rows + extra, start, end) == CommonConstituentsOn(rows, start, end)
  {
    KeepRowsAppend(rows, extra, start, end);
    KeepRowsNone(extra, start, end);
    assert KeepRows(rows, start, end) + [] == KeepRows(rows, start, end);
  }

  /** A period of zero or fewer months (start in a later month than end)
      selects nothing. */
  lemma EmptyWhenNoMonths(rows: seq<Row>, start: Date, end: Date)
    requires MonthsBetween(start, end) <= 0
    ensures CommonConstituentsOn(rows, start, end) == []
  {
  }

  // ---------------------------------------------------------------------------
  // What "present for the whole period" means

  /** The table holds at most one row per symbol per calendar month (one
      monthly snapshot per constituent). */
  predicate OnePerMonth(rows: seq<Row>)
  {
    forall i, j :: 0 <= i < j < |rows| && rows[i].symbol.Some? && rows[i].symbol == rows[j].symbol
      ==> MonthIndex(rows[i].date) != MonthIndex(rows[j].date)
  }

  /** Symbol `s` has a complete row in month number `m` within the period. */
  predicate PresentIn(rows: seq<Row>, start: Date, end: Date, s: string, m: int)
  {
    exists r :: r in rows && Kept(r, start, end) && r.symbol == Some(s) && MonthIndex(r.date) == m
  }

  /** The month numbers in which symbol `s` has a row. */
  function MonthsPresent(rows: seq<Row>, s: string): (ms: set<int>)
    ensures forall m :: m in ms <==> exists r :: r in rows && r.symbol == Some(s) && MonthIndex(r.date) == m
  {
    if rows == [] then {}
    else
      assert rows == [rows[0]] + rows[1..];
      (if rows[0].symbol == Some(s) then {MonthIndex(rows[0].date)} else {}) + MonthsPresent(rows[1..], s)
  }

  /** The month numbers lo..hi. */
  function Interval(lo: int, hi: int): (ms: set<int>)
    ensures forall m :: m in ms <==> lo <= m <= hi
    ensures |ms| == if lo <= hi then hi - lo + 1 else 0
    decreases if lo <= hi then hi - lo + 1 else 0
  {
    if lo > hi then {} else Interval(lo, hi - 1) + {hi}
  }

  lemma SubsetOfSameSize(a: set<int>, b: set<int>)
    requires a <= b && |a| == |b|
    ensures a == b
  {
    assert b == a + (b - a);
    assert |b - a| == 0;
  }

  /** OnePerMonth survives dropping rows. */
  lemma {:induction false} OnePerMonthKept(rows: seq<Row>, start: Date, end: Date)
    requires OnePerMonth(rows)
    ensures OnePerMonth(KeepRows(rows, start, end))
  {
    if rows != [] {
      var tail := rows[1..];
      OnePerMonthTail(rows);
      OnePerMonthKept(tail, start, end);
      var kt := KeepRows(tail, start, end);
      if Kept(rows[0], start, end) {
        var k := KeepRows(rows, start, end);
        assert k == [rows[0]] + kt;
        KeepRowsMembers(tail, start, end);
        forall i, j | 0 <= i < j < |k| && k[i].symbol.Some? && k[i].symbol == k[j].symbol
          ensures MonthIndex(k[i].date) != MonthIndex(k[j].date)
        {
          if i == 0 {
            assert k[j] == kt[j - 1];
            assert k[j] in tail;
            var jj :| 0 <= jj < |tail| && tail[jj] == k[j];
            assert rows[jj + 1] == k[j];
          } else {
            assert k[i] == kt[i - 1] && k[j] == kt[j - 1];
          }
        }
      }
    }
  }

  lemma OnePerMonthTail(rows: seq<Row>)
    requires rows != [] && OnePerMonth(rows)
    ensures OnePerMonth(rows[1..])
  {
    var tail := rows[1..];
    forall i, j | 0 <= i < j < |tail| && tail[i].symbol.Some? && tail[i].symbol == tail[j].symbol
      ensures MonthIndex(tail[i].date) != MonthIndex(tail[j].date)
    {
      assert tail[i] == rows[i + 1] && tail[j] == rows[j + 1];
    }
  }

  /** The month of a symbol's first row is not repeated by its later rows. */
  lemma FirstMonthIsNew(rows: seq<Row>, s: string)
    requires rows != [] && OnePerMonth(rows) && rows[0].symbol == Some(s)
    ensures MonthIndex(rows[0].date) !in MonthsPresent(rows[1..], s)
  {
    var tail := rows[1..];
    forall r | r in tail && r.symbol == Some(s)
      ensures MonthIndex(r.date) != MonthIndex(rows[0].date)
    {
      var j :| 0 <= j < |tail| && tail[j] == r;
      assert rows[j + 1] == r;
    }
  }

  /** With one row per symbol per month, the count of a symbol among rows is
      the number of distinct months it occupies. */
  lemma {:induction false} CountIsMonthsPresent(rows: seq<Row>, s: string)
    requires forall i :: 0 <= i < |rows| ==> Complete(rows[i])
    requires OnePerMonth(rows)
    ensures multiset(SymbolColumn(rows))[s] == |MonthsPresent(rows, s)|
  {
    if rows != [] {
      var tail := rows[1..];
      OnePerMonthTail(rows);
      CountIsMonthsPresent(tail, s);
      assert SymbolColumn(rows) == [rows[0].symbol.value] + SymbolColumn(tail);
      if rows[0].symbol == Some(s) {
        FirstMonthIsNew(rows, s);
      }
    }
  }

  /** The months a symbol occupies among the period's rows lie in the period. */
  lemma MonthsPresentInPeriod(rows: seq<Row>, start: Date, end: Date, s: string)
    requires ValidDate(start) && ValidDate(end)
    requires forall r :: r in rows ==> ValidDate(r.date)
    ensures MonthsPresent(KeepRows(rows, start, end), s) <= Interval(MonthIndex(start), MonthIndex(end))
  {
    var kept := KeepRows(rows, start, end);
    KeepRowsMembers(rows, start, end);
    forall m | m in MonthsPresent(kept, s) ensures MonthIndex(start) <= m <= MonthIndex(end) {
      var r :| r in kept && r.symbol == Some(s) && MonthIndex(r.date) == m;
      DateLeMonthIndex(start, r.date);
      DateLeMonthIndex(r.date, end);
    }
  }

  lemma PresentInMonthsPresent(rows: seq<Row>, start: Date, end: Date, s: string, m: int)
    ensures PresentIn(rows, start, end, s, m) <==> m in MonthsPresent(KeepRows(rows, start, end), s)
  {
    KeepRowsMembers(rows, start, end);
  }

  /** Present for the whole period: when the table has at most one row per
      symbol per calendar month, a symbol is returned exactly when the period
      is non-empty and the symbol has a complete row in every one of its
      months. A symbol missing from some month, or seen too often, is not
      returned. */
  lemma WholePeriodMeansEveryMonth(rows: seq<Row>, start: Date, end: Date, s: string)
    requires ValidDate(start) && ValidDate(end)
    requires forall r :: r in rows ==> ValidDate(r.date)
    requires OnePerMonth(rows)
    ensures s in CommonConstituentsOn(rows, start, end) <==>
      MonthIndex(start) <= MonthIndex(end)
      && forall m :: MonthIndex(start) <= m <= MonthIndex(end) ==> PresentIn(rows, start, end, s, m)
  {
    var kept := KeepRows(rows, start, end);
    var lo, hi := MonthIndex(start), MonthIndex(end);
    var present := MonthsPresent(kept, s);
    OnePerMonthKept(rows, start, end);
    CountIsMonthsPresent(kept, s);
    MonthsPresentInPeriod(rows, start, end, s);
    FullCountMeansFullCover(present, lo, hi);
    assert (forall m :: lo <= m <= hi ==> PresentIn(rows, start, end, s, m)) <==> Interval(lo, hi) <= present by {
      forall m {
        PresentInMonthsPresent(rows, start, end, s, m);
      }
    }
  }

  /** Months occupied within a period cover it exactly when they are as
      many as the period's months and there is at least one. */
  lemma FullCountMeansFullCover(present: set<int>, lo: int, hi: int)
    requires present <= Interval(lo, hi)
    ensures 0 < |present| == hi - lo + 1 <==> lo <= hi && Interval(lo, hi) <= present
  {
    if 0 < |present| == hi - lo + 1 {
      SubsetOfSameSize(present, Interval(lo, hi));
    }
    if lo <= hi && Interval(lo, hi) <= present {
      assert present == Interval(lo, hi);
    }
  }
}
