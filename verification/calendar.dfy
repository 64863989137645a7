/**
 * Proleptic Gregorian calendar arithmetic on day numbers.
 *
 * A date is represented by its ordinal, as Python's `date.toordinal()` gives
 * it: 0001-01-01 is day 1 and every following day adds one.  `CivilDate` is
 * the year/month/day view of the same day; `ToOrdinal` and `FromOrdinal`
 * convert between the two and are proved inverse to each other.
 */
module Calendar {

  type Ordinal = n: int | 1 <= n witness 1

  datatype CivilDate = CivilDate(year: int, month: int, day: int)

  predicate IsLeapYear(y: int) {
    y % 4 == 0 && (y % 100 != 0 || y % 400 == 0)
  }

  function DaysInMonth(y: int, m: int): (n: int)
    requires 1 <= m <= 12
    ensures 28 <= n <= 31
  {
    if m == 2 then (if IsLeapYear(y) then 29 else 28)
    else if m == 4 || m == 6 || m == 9 || m == 11 then 30
    else 31
  }

  predicate Valid(d: CivilDate) {
    1 <= d.year && 1 <= d.month <= 12 && 1 <= d.day <= DaysInMonth(d.year, d.month)
  }

  function DaysInYear(y: int): int {
    if IsLeapYear(y) then 366 else 365
  }

  /** Number of days in the years 1 .. y-1. */
  function DaysBeforeYear(y: int): (n: int)
    requires 1 <= y
    ensures 0 <= n
  {
    if y == 1 then 0 else DaysBeforeYear(y - 1) + DaysInYear(y - 1)
  }

  /** Number of days in the months 1 .. m-1 of year y. */
  function DaysBeforeMonth(y: int, m: int): int
    requires 1 <= m <= 12
  {
    var cumulative := [0, 31, 59, 90, 120, 151, 181, 212, 243, 273, 304, 334];
    cumulative[m - 1] + (if m > 2 && IsLeapYear(y) then 1 else 0)
  }

  function ToOrdinal(d: CivilDate): int
    requires Valid(d)
  {
    DaysBeforeYear(d.year) + DaysBeforeMonth(d.year, d.month) + d.day
  }

  lemma DaysBeforeNextMonth(y: int, m: int)
    requires 1 <= m < 12
    ensures DaysBeforeMonth(y, m + 1) == DaysBeforeMonth(y, m) + DaysInMonth(y, m)
  {
  }

  /** Stepping the year count p by one raises p / k exactly when k divides p + 1. */
  lemma QuotientsStep(p: int)
    requires 0 <= p
    ensures (p + 1) / 4 == p / 4 + (if (p + 1) % 4 == 0 then 1 else 0)
    ensures (p + 1) / 100 == p / 100 + (if (p + 1) % 100 == 0 then 1 else 0)
    ensures (p + 1) / 400 == p / 400 + (if (p + 1) % 400 == 0 then 1 else 0)
  {
  }

  lemma DivisorsOfCentury(p: int)
    ensures p % 400 == 0 ==> p % 100 == 0
    ensures p % 100 == 0 ==> p % 4 == 0
  {
    if p % 400 == 0 {
      MultipleOfHundred(4 * (p / 400), p);
    }
    if p % 100 == 0 {
      MultipleOfFour(25 * (p / 100), p);
    }
  }

  lemma MultipleOfHundred(k: int, p: int)
    requires p == 100 * k
    ensures p % 100 == 0
  {
  }

  lemma MultipleOfFour(k: int, p: int)
    requires p == 4 * k
    ensures p % 4 == 0
  {
  }

  /** The count of days before year y in closed form, as Python's datetime module computes it. */
  lemma {:induction false} DaysBeforeYearClosedForm(y: int)
    requires 1 <= y
    ensures var p := y - 1; DaysBeforeYear(y) == 365 * p + p / 4 - p / 100 + p / 400
  {
    if y > 1 {
      var p := y - 1;
      DaysBeforeYearClosedForm(y - 1);
      QuotientsStep(p - 1);
      DivisorsOfCentury(p);
      assert DaysInYear(p) == 365 + (if p % 4 == 0 then 1 else 0)
        - (if p % 100 == 0 then 1 else 0) + (if p % 400 == 0 then 1 else 0);
    }
  }

  /** The day after d; its ordinal is one more than d's. */
  function NextDay(d: CivilDate): (r: CivilDate)
    requires Valid(d)
    ensures Valid(r) && ToOrdinal(r) == ToOrdinal(d) + 1
  {
    if d.day < DaysInMonth(d.year, d.month) then
      CivilDate(d.year, d.month, d.day + 1)
    else if d.month < 12 then
      DaysBeforeNextMonth(d.year, d.month);
      CivilDate(d.year, d.month + 1, 1)
    else
      CivilDate(d.year + 1, 1, 1)
  }

  /** The day before d, for every date after 0001-01-01. */
  function PrevDay(d: CivilDate): (r: CivilDate)
    requires Valid(d) && d != CivilDate(1, 1, 1)
    ensures Valid(r) && NextDay(r) == d
  {
    if d.day > 1 then CivilDate(d.year, d.month, d.day - 1)
    else if d.month > 1 then CivilDate(d.year, d.month - 1, DaysInMonth(d.year, d.month - 1))
    else CivilDate(d.year - 1, 12, 31)
  }

  /** The civil date of ordinal n: day 1 is 0001-01-01, each next ordinal the next day. */
  function FromOrdinal(n: Ordinal): (r: CivilDate)
    ensures Valid(r) && ToOrdinal(r) == n
  {
    if n == 1 then CivilDate(1, 1, 1) else NextDay(FromOrdinal(n - 1))
  }

  lemma {:induction false} FromToOrdinal(d: CivilDate)
    requires Valid(d)
    ensures ToOrdinal(d) >= 1 && FromOrdinal(ToOrdinal(d)) == d
    decreases ToOrdinal(d)
  {
    if d != CivilDate(1, 1, 1) {
      var p := PrevDay(d);
      assert ToOrdinal(p) == ToOrdinal(d) - 1;
      FromToOrdinal(p);
      calc {
        FromOrdinal(ToOrdinal(d));
        NextDay(FromOrdinal(ToOrdinal(p)));
        NextDay(p);
      }
    }
  }

  /** Distinct valid dates have distinct ordinals. */
  lemma OrdinalInjective(d: CivilDate, e: CivilDate)
    requires Valid(d) && Valid(e) && ToOrdinal(d) == ToOrdinal(e)
    ensures d == e
  {
    FromToOrdinal(d);
    FromToOrdinal(e);
  }

  // ---------------------------------------------------------------------------
  // Weekdays, and the first day of a week, month, quarter and year.

  /** Python's `date.weekday()`: Monday is 0 and Sunday is 6. */
  function Weekday(n: int): (w: int)
    ensures 0 <= w < 7
  {
    (n + 6) % 7
  }

  /** Day 1, 0001-01-01, is a Monday, and each next day is the next weekday, Sunday wrapping to Monday. */
  lemma WeekdayCycle(n: int)
    ensures Weekday(1) == 0
    ensures Weekday(n + 1) == (Weekday(n) + 1) % 7
  {
  }

  const Sunday := 6

  /**
   * The week start of the date dimension: n minus ((weekday + 1) % 7) days,
   * which is the Sunday on or before n.
   */
  function WeekStart(n: int): (r: int)
    ensures r <= n < r + 7
    ensures Weekday(r) == Sunday
  {
    n - (Weekday(n) + 1) % 7
  }

  /** Within any seven consecutive days exactly one is a Sunday, so the week start is unique. */
  lemma WeekStartIsLatestSunday(n: int, s: int)
    requires s <= n < s + 7 && Weekday(s) == Sunday
    ensures s == WeekStart(n)
  {
  }

  /** The first day of the month of n. */
  function MonthStart(n: Ordinal): (r: Ordinal)
    ensures r <= n && n - r == FromOrdinal(n).day - 1
    ensures FromOrdinal(r) == CivilDate(FromOrdinal(n).year, FromOrdinal(n).month, 1)
  {
    var c := FromOrdinal(n);
    var first := CivilDate(c.year, c.month, 1);
    FromToOrdinal(first);
    ToOrdinal(first)
  }

  /** The first month of the calendar quarter holding month m: 1, 4, 7 or 10. */
  function QuarterFirstMonth(m: int): (q: int)
    requires 1 <= m <= 12
    ensures q in {1, 4, 7, 10} && q <= m < q + 3
  {
    if m <= 3 then 1 else if m <= 6 then 4 else if m <= 9 then 7 else 10
  }

  /** The first day of the calendar quarter of n (pandas' quarterly period 'Q', ending in December). */
  function QuarterStart(n: Ordinal): (r: Ordinal)
    ensures r <= n
    ensures FromOrdinal(r) == CivilDate(FromOrdinal(n).year, QuarterFirstMonth(FromOrdinal(n).month), 1)
  {
    var c := FromOrdinal(n);
    var first := CivilDate(c.year, QuarterFirstMonth(c.month), 1);
    FromToOrdinal(first);
    assert ToOrdinal(first) <= ToOrdinal(c) by { MonthsBeforeOrdered(c.year, first.month, c.month); }
    ToOrdinal(first)
  }

  /** The first day of the year of n. */
  function YearStart(n: Ordinal): (r: Ordinal)
    ensures r <= n
    ensures FromOrdinal(r) == CivilDate(FromOrdinal(n).year, 1, 1)
  {
    var c := FromOrdinal(n);
    var first := CivilDate(c.year, 1, 1);
    FromToOrdinal(first);
    ToOrdinal(first)
  }

  lemma MonthsBeforeOrdered(y: int, m1: int, m2: int)
    requires 1 <= m1 <= m2 <= 12
    ensures DaysBeforeMonth(y, m1) <= DaysBeforeMonth(y, m2)
  {
  }

  /** English month names, as `strftime('%B')` prints them in the C locale. */
  const MonthNames: seq<string> := ["January", "February", "March", "April", "May", "June",
    "July", "August", "September", "October", "November", "December"]

  /** The quarter label of month m: the nested `np.where` over the month number. */
  function QuarterLabel(m: int): (q: string)
    ensures q == "Q1" <==> 1 <= m <= 3
    ensures q == "Q2" <==> 4 <= m <= 6
    ensures q == "Q3" <==> 7 <= m <= 9
    ensures q == "Q4" <==> !(1 <= m <= 9)
  {
    if m in {1, 2, 3} then "Q1"
    else if m in {4, 5, 6} then "Q2"
    else if m in {7, 8, 9} then "Q3"
    else "Q4"
  }

  /** The label agrees with the quarter start: quarter k starts in month 3k - 2. */
  lemma QuarterLabelMatchesStart(m: int)
    requires 1 <= m <= 12
    ensures QuarterLabel(m) == ["Q1", "Q2", "Q3", "Q4"][(QuarterFirstMonth(m) - 1) / 3]
  {
  }

  // ---------------------------------------------------------------------------
  // The date dimension table.

  datatype DateRow = DateRow(
    date: Ordinal,
    monthName: string,
    month: int,
    year: int,
    quarter: string,
    weekStart: int,
    monthStart: Ordinal,
    quarterStart: Ordinal,
    yearStart: Ordinal)

  /** What a date-dimension row must say about its date, stated independently of how it is computed. */
  ghost predicate DescribesItsDate(r: DateRow) {
    var c := FromOrdinal(r.date);
    var q := FromOrdinal(r.quarterStart);
    && r.year == c.year
    && r.month == c.month
    && r.monthName == MonthNames[c.month - 1]
    && (r.quarter == "Q1" <==> c.month <= 3)
    && (r.quarter == "Q2" <==> 4 <= c.month <= 6)
    && (r.quarter == "Q3" <==> 7 <= c.month <= 9)
    && (r.quarter == "Q4" <==> 10 <= c.month)
    && r.weekStart <= r.date < r.weekStart + 7 && Weekday(r.weekStart) == Sunday
    && FromOrdinal(r.monthStart) == CivilDate(c.year, c.month, 1)
    && r.quarterStart <= r.date
    && q.year == c.year && q.day == 1 && q.month in {1, 4, 7, 10} && q.month <= c.month < q.month + 3
    && FromOrdinal(r.yearStart) == CivilDate(c.year, 1, 1)
  }

  /** One row of the date table: the columns computed from a single day. */
  function DateRowOf(n: Ordinal): (r: DateRow)
    ensures r.date == n && DescribesItsDate(r)
  {
    var c := FromOrdinal(n);
    DateRow(n, MonthNames[c.month - 1], c.month, c.year, QuarterLabel(c.month),
            WeekStart(n), MonthStart(n), QuarterStart(n), YearStart(n))
  }

  /**
   * The date table: one row per calendar day from start to end inclusive
   * (a daily date range); empty when start is after end.
   */
  function DateDimension(start: Ordinal, end: Ordinal): (rows: seq<DateRow>)
    ensures |rows| == if start <= end then end - start + 1 else 0
    ensures forall i :: 0 <= i < |rows| ==> rows[i].date == start + i && DescribesItsDate(rows[i])
    decreases end - start
  {
    if start <= end then [DateRowOf(start)] + DateDimension(start + 1, end) else []
  }

  /** The dates of the table are strictly increasing, hence distinct, and leave no day out. */
  lemma DateDimensionConsecutive(start: Ordinal, end: Ordinal, i: int, j: int)
    requires 0 <= i < j < |DateDimension(start, end)|
    ensures DateDimension(start, end)[i].date < DateDimension(start, end)[j].date
    ensures DateDimension(start, end)[j].date - DateDimension(start, end)[i].date == j - i
  {
  }

  /** 2025-01-01 is a Wednesday; its week starts on Sunday 2024-12-29 (and not on a Saturday). */
  lemma WeekStartExample()
    ensures Valid(CivilDate(2025, 1, 1)) && Valid(CivilDate(2024, 12, 29))
    ensures Weekday(ToOrdinal(CivilDate(2025, 1, 1))) == 2
    ensures WeekStart(ToOrdinal(CivilDate(2025, 1, 1))) == ToOrdinal(CivilDate(2024, 12, 29))
  {
    DaysBeforeYearClosedForm(2025);
    DaysBeforeYearClosedForm(2024);
    assert ToOrdinal(CivilDate(2025, 1, 1)) == 739252;
    assert ToOrdinal(CivilDate(2024, 12, 29)) == 739249;
  }
}
