/** Calendar dates as the scraper reads them ("yyyy-mm-dd" text) and the
    inclusive month count `months_between_date` computes from two of them. */
module Dates {

  /** Outcome of an operation that may raise (the Python code raises a
      ValueError); the model's error reports the rejected text. */
  datatype Result<T> = Ok(value: T) | Err(text: string)

  /** A parsed `datetime` reduced to the fields the scraper uses. */
  datatype Date = Date(year: int, month: int, day: int)

  /** A calendar month, named by its year and month number. */
  datatype YearMonth = YearMonth(year: int, month: int)

  // ---------------------------------------------------------------------------
  // Calendar validity (the checks `datetime` makes on construction)

  predicate IsLeapYear(y: int)
  {
    y % 4 == 0 && (y % 100 != 0 || y % 400 == 0)
  }

  function DaysInMonth(y: int, m: int): (n: int)
    requires 1 <= m <= 12
    ensures 28 <= n <= 31
    ensures n == 29 <==> m == 2 && IsLeapYear(y)
  {
    if m == 2 then (if IsLeapYear(y) then 29 else 28)
    else if m == 4 || m == 6 || m == 9 || m == 11 then 30
    else 31
  }

  /** A date Python's `datetime` accepts: years 1..9999, a real month, and a
      day that exists in that month. */
  predicate ValidDate(d: Date)
  {
    1 <= d.year <= 9999 && 1 <= d.month <= 12 && 1 <= d.day <= DaysInMonth(d.year, d.month)
  }

  /** Chronological order of dates (the order of `datetime` comparison and of
      a sorted date index). */
  predicate DateLe(a: Date, b: Date)
  {
    a.year < b.year
    || (a.year == b.year && a.month < b.month)
    || (a.year == b.year && a.month == b.month && a.day <= b.day)
  }

  // ---------------------------------------------------------------------------
  // Fixed-width decimal fields

  function Pow10(n: nat): (p: nat)
    ensures p >= 1
  {
    if n == 0 then 1 else 10 * Pow10(n - 1)
  }

  predicate IsDigit(c: char)
  {
    '0' <= c <= '9'
  }

  predicate AllDigits(s: string)
  {
    forall i :: 0 <= i < |s| ==> IsDigit(s[i])
  }

  function DigitChar(d: nat): (c: char)
    requires d < 10
    ensures IsDigit(c) && c as int - '0' as int == d
  {
    (d + '0' as int) as char
  }

  /** The number a string of decimal digits denotes. */
  function DigitsValue(s: string): (v: nat)
    requires AllDigits(s)
    ensures v < Pow10(|s|)
  {
    if s == [] then 0
    else DigitsValue(s[..|s| - 1]) * 10 + (s[|s| - 1] as int - '0' as int)
  }

  /** The `w`-digit, zero-padded decimal text of `n`. */
  function Digits(n: nat, w: nat): (s: string)
    requires n < Pow10(w)
    ensures |s| == w && AllDigits(s)
  {
    if w == 0 then [] else Digits(n / 10, w - 1) + [DigitChar(n % 10)]
  }

  lemma {:induction false} DigitsRoundTrip(n: nat, w: nat)
    requires n < Pow10(w)
    ensures DigitsValue(Digits(n, w)) == n
  {
    if w > 0 {
      var s := Digits(n, w);
      assert s[..|s| - 1] == Digits(n / 10, w - 1);
      DigitsRoundTrip(n / 10, w - 1);
    }
  }

  lemma {:induction false} DigitsCanonical(s: string)
    requires AllDigits(s)
    ensures Digits(DigitsValue(s), |s|) == s
  {
    if s != [] {
      var init := s[..|s| - 1];
      var d := s[|s| - 1] as int - '0' as int;
      var v := DigitsValue(init);
      assert DigitsValue(s) == v * 10 + d;
      assert (v * 10 + d) / 10 == v && (v * 10 + d) % 10 == d;
      DigitsCanonical(init);
      assert DigitChar(d) == s[|s| - 1];
      assert init + [s[|s| - 1]] == s;
    }
  }

  // ---------------------------------------------------------------------------
  // "%Y-%m-%d" text

  /** Canonical "yyyy-mm-dd" text of a date. */
  function FormatDate(d: Date): (s: string)
    requires ValidDate(d)
    ensures |s| == 10 && s[4] == '-' && s[7] == '-'
  {
    Digits(d.year, 4) + "-" + Digits(d.month, 2) + "-" + Digits(d.day, 2)
  }

  /** Parses "yyyy-mm-dd" strictly: four-digit year, two-digit month and day,
      hyphen separators, and a date that exists in the Gregorian calendar.
      Anything else is the ValueError `strptime` raises. */
  function ParseDate(s: string): (r: Result<Date>)
    ensures r.Ok? ==> ValidDate(r.value)
    ensures r.Err? ==> r.text == s
  {
    if |s| == 10 && s[4] == '-' && s[7] == '-'
       && AllDigits(s[0..4]) && AllDigits(s[5..7]) && AllDigits(s[8..10])
    then
      var d := Date(DigitsValue(s[0..4]), DigitsValue(s[5..7]), DigitsValue(s[8..10]));
      if ValidDate(d) then Ok(d) else Err(s)
    else Err(s)
  }

  /** Every valid date survives formatting and parsing unchanged. */
  lemma ParseFormat(d: Date)
    requires ValidDate(d)
    ensures ParseDate(FormatDate(d)) == Ok(d)
  {
    var y, m, dd := Digits(d.year, 4), Digits(d.month, 2), Digits(d.day, 2);
    var s := FormatDate(d);
    assert s[0..4] == y && s[5..7] == m && s[8..10] == dd;
    DigitsRoundTrip(d.year, 4);
    DigitsRoundTrip(d.month, 2);
    DigitsRoundTrip(d.day, 2);
  }

  /** The parser accepts only canonical text: what it accepts is exactly the
      formatting of the date it returns. */
  lemma FormatParse(s: string)
    requires ParseDate(s).Ok?
    ensures FormatDate(ParseDate(s).value) == s
  {
    var y, m, d := s[0..4], s[5..7], s[8..10];
    DigitsCanonical(y);
    DigitsCanonical(m);
    DigitsCanonical(d);
    assert s == y + "-" + m + "-" + d;
  }

  // ---------------------------------------------------------------------------
  // Month arithmetic

  /** Months elapsed since January of year 0: consecutive calendar months have
      consecutive indices. */
  function MonthIndex(d: Date): (m: int)
  {
    d.year * 12 + d.month - 1
  }

  function YearMonthIndex(ym: YearMonth): (m: int)
  {
    ym.year * 12 + ym.month - 1
  }

  function MonthOf(d: Date): (ym: YearMonth)
  {
    YearMonth(d.year, d.month)
  }

  /** The number of calendar months the inclusive period start..end touches,
      computed as the scraper does from the year and month fields alone. The
      day of the month plays no part, and start is not required to precede
      end. */
  function MonthsBetween(start: Date, end: Date): (n: int)
    ensures n == MonthIndex(end) - MonthIndex(start) + 1
    ensures MonthOf(start) == MonthOf(end) ==> n == 1
    ensures n >= 1 <==> MonthIndex(start) <= MonthIndex(end)
    ensures MonthIndex(start) > MonthIndex(end) ==> n <= 0
  {
    (end.year - start.year) * 12 + (end.month - start.month) + 1
  }

  /** `months_between_date` on its two "yyyy-mm-dd" arguments: the end date
      is parsed first, so a bad end date is the one reported. */
  function MonthsBetweenDate(start: string, end: string): (r: Result<int>)
    ensures r.Ok? <==> ParseDate(start).Ok? && ParseDate(end).Ok?
    ensures ParseDate(end).Err? ==> r == Err(end)
    ensures ParseDate(end).Ok? && ParseDate(start).Err? ==> r == Err(start)
    ensures r.Ok? ==> r.value == MonthIndex(ParseDate(end).value) - MonthIndex(ParseDate(start).value) + 1
  {
    match ParseDate(end)
    case Err(e) => Err(e)
    case Ok(e) =>
      match ParseDate(start)
      case Err(s) => Err(s)
      case Ok(s) => Ok(MonthsBetween(s, e))
  }

  /** The count depends only on the (year, month) of each date. */
  lemma MonthsBetweenIgnoresDay(s1: Date, e1: Date, s2: Date, e2: Date)
    requires MonthOf(s1) == MonthOf(s2) && MonthOf(e1) == MonthOf(e2)
    ensures MonthsBetween(s1, e1) == MonthsBetween(s2, e2)
  {
  }

  /** The calendar month after `ym`. */
  function NextMonth(ym: YearMonth): (next: YearMonth)
    requires 1 <= ym.month <= 12
    ensures 1 <= next.month <= 12
    ensures YearMonthIndex(next) == YearMonthIndex(ym) + 1
  {
    if ym.month == 12 then YearMonth(ym.year + 1, 1) else YearMonth(ym.year, ym.month + 1)
  }

  /** Moving the end date into the following calendar month (any day of it)
      raises the count by exactly one. */
  lemma MonthsBetweenNextMonth(start: Date, end: Date, later: Date)
    requires 1 <= end.month <= 12
    requires MonthOf(later) == NextMonth(MonthOf(end))
    ensures MonthsBetween(start, later) == MonthsBetween(start, end) + 1
  {
  }

  /** Reference enumeration: the calendar months from `first` to `last`
      inclusive, in order, one step of NextMonth at a time. */
  function CalendarMonths(first: YearMonth, last: YearMonth): (ms: seq<YearMonth>)
    requires 1 <= first.month <= 12
    decreases if YearMonthIndex(first) <= YearMonthIndex(last)
              then YearMonthIndex(last) - YearMonthIndex(first) + 1 else 0
  {
    if YearMonthIndex(first) > YearMonthIndex(last) then []
    else [first] + CalendarMonths(NextMonth(first), last)
  }

  lemma {:induction false} CalendarMonthsShape(first: YearMonth, last: YearMonth)
    requires 1 <= first.month <= 12
    ensures var ms := CalendarMonths(first, last);
      && |ms| == (if YearMonthIndex(first) <= YearMonthIndex(last)
                  then YearMonthIndex(last) - YearMonthIndex(first) + 1 else 0)
      && forall i :: 0 <= i < |ms| ==>
           1 <= ms[i].month <= 12 && YearMonthIndex(ms[i]) == YearMonthIndex(first) + i
    decreases if YearMonthIndex(first) <= YearMonthIndex(last)
              then YearMonthIndex(last) - YearMonthIndex(first) + 1 else 0
  {
    if YearMonthIndex(first) <= YearMonthIndex(last) {
      var next := NextMonth(first);
      CalendarMonthsShape(next, last);
      var ms := CalendarMonths(first, last);
      assert ms == [first] + CalendarMonths(next, last);
      forall i | 0 < i < |ms|
        ensures 1 <= ms[i].month <= 12 && YearMonthIndex(ms[i]) == YearMonthIndex(first) + i
      {
        assert ms[i] == CalendarMonths(next, last)[i - 1];
      }
    }
  }

  /** What the count means: when start does not follow end, it is the number
      of distinct calendar months from start's month to end's month
      inclusive, and those months are exactly the ones whose index lies
      between theirs; otherwise no month is enumerated and the count is not
      positive. */
  lemma MonthsBetweenCountsCalendarMonths(start: Date, end: Date)
    requires ValidDate(start) && ValidDate(end)
    ensures var ms := CalendarMonths(MonthOf(start), MonthOf(end));
      && (MonthsBetween(start, end) >= 1 ==> |ms| == MonthsBetween(start, end))
      && (MonthsBetween(start, end) < 1 ==> ms == [])
      && (forall i, j :: 0 <= i < j < |ms| ==> ms[i] != ms[j])
      && (forall i :: 0 <= i < |ms| ==>
            MonthIndex(start) <= YearMonthIndex(ms[i]) <= MonthIndex(end))
  {
    CalendarMonthsShape(MonthOf(start), MonthOf(end));
    var ms := CalendarMonths(MonthOf(start), MonthOf(end));
    forall i, j | 0 <= i < j < |ms| ensures ms[i] != ms[j] {
      assert YearMonthIndex(ms[i]) < YearMonthIndex(ms[j]);
    }
  }

  /** A date inside start..end lies in a month between theirs. */
  lemma DateLeMonthIndex(a: Date, b: Date)
    requires ValidDate(a) && ValidDate(b) && DateLe(a, b)
    ensures MonthIndex(a) <= MonthIndex(b)
  {
  }
}
