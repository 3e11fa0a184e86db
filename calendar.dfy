/**
 * The date kernel shared by both identity-number decoders and by the report
 * formatters: the proleptic Gregorian calendar, ordinal dates (a year and a
 * day-of-year, section 4.1.3 of ISO 8601:2004), and whole years elapsed between
 * two dates.
 */
module Calendar {
  import opened Wrappers
  import opened Text

  /** A calendar date; `ValidDate` says when it names a real day. */
  datatype Date = Date(year: int, month: int, day: int)

  predicate IsLeap(y: int) { y % 4 == 0 && (y % 100 != 0 || y % 400 == 0) }

  function YearLength(y: int): int { if IsLeap(y) then 366 else 365 }

  function DaysInMonth(y: int, m: int): int
    requires 1 <= m <= 12
  {
    if m == 2 then (if IsLeap(y) then 29 else 28)
    else if m == 4 || m == 6 || m == 9 || m == 11 then 30
    else 31
  }

  predicate ValidDate(d: Date) { 1 <= d.month <= 12 && 1 <= d.day <= DaysInMonth(d.year, d.month) }

  /** Days of year `y` that lie in the months before month `m`; `m == 13` covers the whole year. */
  function DaysBeforeMonth(y: int, m: int): nat
    requires 1 <= m <= 13
  {
    if m == 1 then 0 else DaysBeforeMonth(y, m - 1) + DaysInMonth(y, m - 1)
  }

  /** The twelve months add up to the length of the year. */
  lemma {:induction false} MonthsFillYear(y: int)
    ensures DaysBeforeMonth(y, 13) == YearLength(y)
  {
    var feb := DaysInMonth(y, 2);
    assert DaysBeforeMonth(y, 2) == 31;
    assert DaysBeforeMonth(y, 3) == 31 + feb;
    assert DaysBeforeMonth(y, 4) == 62 + feb;
    assert DaysBeforeMonth(y, 5) == 92 + feb;
    assert DaysBeforeMonth(y, 6) == 123 + feb;
    assert DaysBeforeMonth(y, 7) == 153 + feb;
    assert DaysBeforeMonth(y, 8) == 184 + feb;
    assert DaysBeforeMonth(y, 9) == 215 + feb;
    assert DaysBeforeMonth(y, 10) == 245 + feb;
    assert DaysBeforeMonth(y, 11) == 276 + feb;
    assert DaysBeforeMonth(y, 12) == 306 + feb;
  }

  /** A later month starts at least a whole month later. */
  lemma {:induction false} DaysBeforeMonthGrows(y: int, m: int, m': int)
    requires 1 <= m < m' <= 13
    ensures DaysBeforeMonth(y, m) + DaysInMonth(y, m) <= DaysBeforeMonth(y, m')
  {
    if m' > m + 1 {
      DaysBeforeMonthGrows(y, m, m' - 1);
    }
  }

  /** The ordinal day of a valid date within its year (1 for January 1st). */
  function DayOfYear(d: Date): (n: int)
    requires ValidDate(d)
    ensures 1 <= n <= YearLength(d.year)
  {
    DaysBeforeMonthGrows(d.year, d.month, 13);
    MonthsFillYear(d.year);
    DaysBeforeMonth(d.year, d.month) + d.day
  }

  /** Walks forward from month `m`, `n` days into it, until the day fits in the month. */
  function MonthDayFrom(y: int, m: int, n: int): (d: Date)
    requires 1 <= m <= 12 && 1 <= n
    requires DaysBeforeMonth(y, m) + n <= YearLength(y)
    ensures ValidDate(d) && d.year == y && d.month >= m
    ensures DaysBeforeMonth(y, d.month) + d.day == DaysBeforeMonth(y, m) + n
    decreases 12 - m
  {
    MonthsFillYear(y);
    if n <= DaysInMonth(y, m) then Date(y, m, n)
    else
      MonthDayFrom(y, m + 1, n - DaysInMonth(y, m))
  }

  /** The date that is day `n` of year `y` (ISO 8601 ordinal date to calendar date). */
  function OrdinalToDate(y: int, n: int): (d: Date)
    requires 1 <= n <= YearLength(y)
    ensures ValidDate(d) && d.year == y && DayOfYear(d) == n
  {
    MonthDayFrom(y, 1, n)
  }

  /** Walking from month `m`, `n` days on, where `d` lies `n` days after month `m` begins, reaches `d`. */
  lemma {:induction false} MonthDayFromOf(y: int, m: int, n: int, d: Date)
    requires ValidDate(d) && d.year == y && 1 <= m <= d.month && 1 <= n
    requires DaysBeforeMonth(y, m) + n == DaysBeforeMonth(y, d.month) + d.day <= YearLength(y)
    ensures MonthDayFrom(y, m, n) == d
    decreases d.month - m
  {
    if m < d.month {
      DaysBeforeMonthGrows(y, m, d.month);
      var rest := n - DaysInMonth(y, m);
      assert DaysBeforeMonth(y, m + 1) == DaysBeforeMonth(y, m) + DaysInMonth(y, m);
      assert MonthDayFrom(y, m, n) == MonthDayFrom(y, m + 1, rest);
      MonthDayFromOf(y, m + 1, rest, d);
    }
  }

  /** Converting a date to its ordinal day and back gives the date again. */
  lemma {:induction false} OrdinalRoundTrip(d: Date)
    requires ValidDate(d)
    ensures OrdinalToDate(d.year, DayOfYear(d)) == d
  {
    MonthDayFromOf(d.year, 1, DayOfYear(d), d);
  }

  /** Ordinal days name distinct dates: the conversion is one-to-one. */
  lemma {:induction false} OrdinalInjective(y: int, n: int, n': int)
    requires 1 <= n <= YearLength(y) && 1 <= n' <= YearLength(y)
    requires OrdinalToDate(y, n) == OrdinalToDate(y, n')
    ensures n == n'
  {
  }

  /** Day 366 exists exactly in leap years. */
  lemma LastOrdinalDay(y: int)
    ensures 1 <= 366 <= YearLength(y) <==> IsLeap(y)
  {
  }

  /** Chronological order: `a` is strictly earlier than `b`. */
  predicate Before(a: Date, b: Date)
  {
    a.year < b.year || (a.year == b.year && (a.month < b.month || (a.month == b.month && a.day < b.day)))
  }

  /** The same month and day as `d`, `k` years later. */
  function Anniversary(d: Date, k: int): Date { Date(d.year + k, d.month, d.day) }

  /**
   * Whole years from `from` to `to`, signed, rounded toward zero: the number of
   * anniversaries of `from` reached by `to` (negative when `to` is earlier).
   */
  function WholeYears(from: Date, to: Date): (n: int)
    ensures !Before(to, from) ==>
      n >= 0 && !Before(to, Anniversary(from, n)) && Before(to, Anniversary(from, n + 1))
    ensures Before(to, from) ==>
      n <= 0 && !Before(from, Anniversary(to, -n)) && Before(from, Anniversary(to, -n + 1))
  {
    if Before(to, from) then
      -ElapsedYears(to, from)
    else ElapsedYears(from, to)
  }

  function ElapsedYears(from: Date, to: Date): (n: int)
    requires !Before(to, from)
    ensures n >= 0 && !Before(to, Anniversary(from, n)) && Before(to, Anniversary(from, n + 1))
  {
    var early := to.month < from.month || (to.month == from.month && to.day < from.day);
    (to.year - from.year) - (if early then 1 else 0)
  }

  /** Whole years are determined by the anniversary bracket. */
  lemma WholeYearsUnique(from: Date, to: Date, n: int)
    requires !Before(to, from) && n >= 0
    requires !Before(to, Anniversary(from, n)) && Before(to, Anniversary(from, n + 1))
    ensures n == WholeYears(from, to)
  {
  }

  /** Swapping the two dates negates the whole years. */
  lemma WholeYearsAntisymmetric(a: Date, b: Date)
    ensures WholeYears(a, b) == -WholeYears(b, a)
  {
  }

  /** Integer division truncating toward zero, as in Java and ECMAScript. */
  function TruncDiv(a: int, b: int): int
    requires b > 0
  {
    if a >= 0 then a / b else -((-a) / b)
  }

  /**
   * The years of java.time.Period.between(start, end): the month count between the
   * two dates, corrected by one when the day of month has not been reached, divided by 12
   * with truncation. On valid dates this is the whole years between them.
   */
  function PeriodYears(start: Date, end: Date): (r: int)
    ensures ValidDate(start) && ValidDate(end) ==> r == WholeYears(start, end)
  {
    var totalMonths := (end.year * 12 + end.month - 1) - (start.year * 12 + start.month - 1);
    var days := end.day - start.day;
    var months := if totalMonths > 0 && days < 0 then totalMonths - 1
                  else if totalMonths < 0 && days > 0 then totalMonths + 1
                  else totalMonths;
    assert totalMonths == 12 * (end.year - start.year) + (end.month - start.month);
    TruncDiv(months, 12)
  }

  /**
   * date-fns differenceInYears(later, earlier) at midnight: the sign of the comparison
   * times the calendar-year difference, less one when the last year is not full. This is
   * the whole years from `earlier` to `later`.
   */
  function DifferenceInYears(later: Date, earlier: Date): (r: int)
    ensures r == WholeYears(earlier, later)
  {
    var sign := if Before(earlier, later) then 1 else if Before(later, earlier) then -1 else 0;
    var difference := if later.year >= earlier.year then later.year - earlier.year else earlier.year - later.year;
    var l := Date(1584, later.month, later.day);
    var e := Date(1584, earlier.month, earlier.day);
    var cmp := if Before(e, l) then 1 else if Before(l, e) then -1 else 0;
    var lastYearNotFull := if cmp == -sign then 1 else 0;
    sign * (difference - lastYearNotFull)
  }

  /** The text "YYYY-MM-DD" (section 4.1.2.2 of ISO 8601:2004) read as a date, when it names one. */
  function ParseIsoDate(s: string): (r: Option<Date>)
    ensures r.Some? ==> ValidDate(r.value) && 0 <= r.value.year <= 9999
    ensures r.Some? ==> |s| == 10 && s[4] == '-' && s[7] == '-'
  {
    if |s| == 10 && AllDigits(s[..4]) && s[4] == '-' && AllDigits(s[5..7]) && s[7] == '-' && AllDigits(s[8..])
       && ValidDate(Date(DigitsValue(s[..4]), DigitsValue(s[5..7]), DigitsValue(s[8..])))
    then Some(Date(DigitsValue(s[..4]), DigitsValue(s[5..7]), DigitsValue(s[8..])))
    else None
  }

  /** The "YYYY-MM-DD" text of a date of the years 0000 to 9999; it parses back as the date. */
  function IsoText(d: Date): (r: string)
    requires ValidDate(d) && 0 <= d.year <= 9999
    ensures |r| == 10 && r[4] == '-' && r[7] == '-'
    ensures ParseIsoDate(r) == Some(d)
  {
    FieldWidths(d);
    ParseFields(PadNumeral(d.year, 4), PadNumeral(d.month, 2), PadNumeral(d.day, 2), d);
    PadNumeral(d.year, 4) + "-" + PadNumeral(d.month, 2) + "-" + PadNumeral(d.day, 2)
  }

  /** The padded fields of a date of the years 0000 to 9999 are four, two and two digits wide. */
  lemma FieldWidths(d: Date)
    requires ValidDate(d) && 0 <= d.year <= 9999
    ensures |PadNumeral(d.year, 4)| == 4 && |PadNumeral(d.month, 2)| == 2 && |PadNumeral(d.day, 2)| == 2
  {
    SmallPowers();
    PadNumeralWidth(d.year, 4);
    MonthDayWidths(d);
  }

  /** The month and day of a valid date pad to two digits each. */
  lemma MonthDayWidths(d: Date)
    requires ValidDate(d)
    ensures |PadNumeral(d.month, 2)| == 2 && |PadNumeral(d.day, 2)| == 2
  {
    SmallPowers();
    assert d.day <= 31 by { assert DaysInMonth(d.year, d.month) <= 31; }
    PadNumeralWidth(d.month, 2);
    PadNumeralWidth(d.day, 2);
  }

  /** Digit fields of the right widths, joined by '-', read back as the date they denote. */
  lemma ParseFields(y: string, m: string, dd: string, d: Date)
    requires |y| == 4 && |m| == 2 && |dd| == 2 && AllDigits(y) && AllDigits(m) && AllDigits(dd)
    requires DigitsValue(y) == d.year && DigitsValue(m) == d.month && DigitsValue(dd) == d.day
    requires ValidDate(d)
    ensures var r := y + "-" + m + "-" + dd;
      |r| == 10 && r[4] == '-' && r[7] == '-' && ParseIsoDate(r) == Some(d)
  {
    var r := y + "-" + m + "-" + dd;
    assert r[..4] == y && r[5..7] == m && r[8..] == dd;
  }

  /** The only text that parses as a date is that date's own "YYYY-MM-DD" text. */
  lemma {:induction false} ParsedIsIsoText(s: string)
    requires ParseIsoDate(s).Some?
    ensures IsoText(ParseIsoDate(s).value) == s
  {
    var d := ParseIsoDate(s).value;
    ParsedFields(s);
    FieldsArePadded(s, d);
    assert IsoText(d) == PadNumeral(d.year, 4) + "-" + PadNumeral(d.month, 2) + "-" + PadNumeral(d.day, 2);
  }

  /** Four, two and two digits around two dashes, worth a date's fields, are that date's padded fields. */
  lemma FieldsArePadded(s: string, d: Date)
    requires ValidDate(d) && 0 <= d.year <= 9999
    requires |s| == 10 && s[4] == '-' && s[7] == '-'
    requires AllDigits(s[..4]) && AllDigits(s[5..7]) && AllDigits(s[8..])
    requires d == Date(DigitsValue(s[..4]), DigitsValue(s[5..7]), DigitsValue(s[8..]))
    ensures s == PadNumeral(d.year, 4) + "-" + PadNumeral(d.month, 2) + "-" + PadNumeral(d.day, 2)
  {
    var y, m, dd := PadNumeral(d.year, 4), PadNumeral(d.month, 2), PadNumeral(d.day, 2);
    FieldWidths(d);
    assert s[..4] == y by { DigitsInjective(s[..4], y); }
    assert s[5..7] == m by { DigitsInjective(s[5..7], m); }
    assert s[8..] == dd by { DigitsInjective(s[8..], dd); }
    assert s == y + "-" + m + "-" + dd;
  }

  /** A text that parses is four, two and two digits around two dashes, worth the year, month and day. */
  lemma ParsedFields(s: string)
    requires ParseIsoDate(s).Some?
    ensures |s| == 10 && s[4] == '-' && s[7] == '-'
    ensures AllDigits(s[..4]) && AllDigits(s[5..7]) && AllDigits(s[8..])
    ensures ParseIsoDate(s).value == Date(DigitsValue(s[..4]), DigitsValue(s[5..7]), DigitsValue(s[8..]))
  {
  }

}
