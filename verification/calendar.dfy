/**
 Calendar arithmetic of the habit tracker: proleptic Gregorian dates as Python's
 `datetime` represents them, their day ordinals (`toordinal`), the day before a date
 (`date - timedelta(days=1)`), the number of days in a month derived from the first day
 of the following month, and the Monday-first weekday labels of the calendar header.
 */
module Calendar {

  datatype Date = Date(year: int, month: int, day: int)

  /** `datetime.MINYEAR` and `datetime.MAXYEAR`. */
  const MinYear := 1
  const MaxYear := 9999

  predicate IsLeap(y: int) {
    y % 4 == 0 && (y % 100 != 0 || y % 400 == 0)
  }

  /** The fixed month-length table, with 29 days for February of a leap year. */
  function MonthLength(y: int, m: int): (n: int)
    requires 1 <= m <= 12
    ensures 28 <= n <= 31
  {
    if m == 2 then (if IsLeap(y) then 29 else 28)
    else if m == 4 || m == 6 || m == 9 || m == 11 then 30
    else 31
  }

  function DaysInYear(y: int): int {
    if IsLeap(y) then 366 else 365
  }

  /** A date `datetime(y, m, d)` accepts without raising. */
  predicate ValidDate(d: Date) {
    && MinYear <= d.year <= MaxYear
    && 1 <= d.month <= 12
    && 1 <= d.day <= MonthLength(d.year, d.month)
  }

  type CalendarDate = d: Date | ValidDate(d) witness Date(1, 1, 1)

  /** Days in the years before year y (year 1 starts at day 1). */
  function DaysBeforeYear(y: int): int {
    var p := y - 1;
    365 * p + p / 4 - p / 100 + p / 400
  }

  /** Days in year y before the first day of month m. */
  function DaysBeforeMonth(y: int, m: int): int
    requires 1 <= m <= 12
  {
    [0, 31, 59, 90, 120, 151, 181, 212, 243, 273, 304, 334][m - 1]
    + (if m > 2 && IsLeap(y) then 1 else 0)
  }

  /** The proleptic Gregorian ordinal of a date: 0001-01-01 is day 1. */
  function Ordinal(d: Date): int
    requires 1 <= d.month <= 12
  {
    DaysBeforeYear(d.year) + DaysBeforeMonth(d.year, d.month) + d.day
  }

  lemma YearStep(y: int)
    requires y >= 1
    ensures DaysBeforeYear(y + 1) == DaysBeforeYear(y) + DaysInYear(y)
  {
    var p := y - 1;
    assert y / 4 == p / 4 + (if y % 4 == 0 then 1 else 0);
    assert y / 100 == p / 100 + (if y % 100 == 0 then 1 else 0);
    assert y / 400 == p / 400 + (if y % 400 == 0 then 1 else 0);
  }

  lemma MonthStep(y: int, m: int)
    requires 1 <= m < 12
    ensures DaysBeforeMonth(y, m + 1) == DaysBeforeMonth(y, m) + MonthLength(y, m)
  {
  }

  lemma LastMonthEndsYear(y: int)
    ensures DaysBeforeMonth(y, 12) + MonthLength(y, 12) == DaysInYear(y)
  {
  }

  /** Lexicographic order of dates: year, then month, then day. */
  predicate Before(a: Date, b: Date) {
    || a.year < b.year
    || (a.year == b.year && a.month < b.month)
    || (a.year == b.year && a.month == b.month && a.day < b.day)
  }

  /** The date one day earlier: `d - timedelta(days=1)`. */
  function DayBefore(d: CalendarDate): (r: CalendarDate)
    requires d != Date(MinYear, 1, 1)
    ensures Ordinal(r) + 1 == Ordinal(d)
    ensures Before(r, d)
  {
    if d.day > 1 then Date(d.year, d.month, d.day - 1)
    else if d.month > 1 then
      MonthStep(d.year, d.month - 1);
      Date(d.year, d.month - 1, MonthLength(d.year, d.month - 1))
    else
      YearStep(d.year - 1);
      LastMonthEndsYear(d.year - 1);
      Date(d.year - 1, 12, 31)
  }

  /**
   The first day of the month after (y, m); December rolls over to January of y + 1.
   It is the day right after the last day of month (y, m).
   */
  function FirstOfNextMonth(y: int, m: int): (d: Date)
    requires 1 <= m <= 12
    ensures d.day == 1 && 1 <= d.month <= 12
    ensures m < 12 ==> d.year == y && d.month == m + 1
    ensures m == 12 ==> d.year == y + 1 && d.month == 1
    ensures y >= 1 ==> Ordinal(Date(y, m, MonthLength(y, m))) + 1 == Ordinal(d)
  {
    if m < 12 then
      MonthStep(y, m);
      Date(y, m + 1, 1)
    else if y >= 1 then
      YearStep(y);
      LastMonthEndsYear(y);
      Date(y + 1, 1, 1)
    else
      Date(y + 1, 1, 1)
  }

  /**
   A month whose calendar grid can be drawn: its first day and the first day of the
   following month are both representable, which rules out December of `MaxYear`.
   */
  predicate DisplayableMonth(y: int, m: int) {
    MinYear <= y <= MaxYear && 1 <= m <= 12 && !(y == MaxYear && m == 12)
  }

  /**
   The number of days in month m of year y, computed as the day-of-month of the day
   before the first day of the following month.
   */
  function DaysInMonth(y: int, m: int): (n: int)
    requires DisplayableMonth(y, m)
    ensures n == MonthLength(y, m)
  {
    var next: CalendarDate := FirstOfNextMonth(y, m);
    var last := DayBefore(next);
    assert last == Date(y, m, MonthLength(y, m));
    last.day
  }

  /** `datetime(y, m, d)` for a day d of a displayable month. */
  function MonthDay(y: int, m: int, d: int): (r: CalendarDate)
    requires DisplayableMonth(y, m) && 1 <= d <= DaysInMonth(y, m)
    ensures r.year == y && r.month == m && r.day == d
    ensures Ordinal(r) + (DaysInMonth(y, m) - d) + 1 == Ordinal(FirstOfNextMonth(y, m))
  {
    Date(y, m, d)
  }

  /**
   Days in a month lie in 28..31, February has 29 exactly in leap years, and the last
   day of the month is the day before the first day of the next month.
   */
  lemma DaysInMonthFacts(y: int, m: int)
    requires DisplayableMonth(y, m)
    ensures 28 <= DaysInMonth(y, m) <= 31
    ensures m == 2 ==> (DaysInMonth(y, m) == 29 <==> IsLeap(y))
    ensures ValidDate(Date(y, m, DaysInMonth(y, m)))
    ensures Ordinal(Date(y, m, DaysInMonth(y, m))) + 1 == Ordinal(FirstOfNextMonth(y, m))
  {
    var next: CalendarDate := FirstOfNextMonth(y, m);
    assert DayBefore(next) == Date(y, m, MonthLength(y, m));
  }

  lemma {:induction false} DaysBeforeYearMonotone(a: int, b: int)
    requires 1 <= a < b
    ensures DaysBeforeYear(a) + DaysInYear(a) <= DaysBeforeYear(b)
    decreases b - a
  {
    YearStep(a);
    if a + 1 < b {
      DaysBeforeYearMonotone(a + 1, b);
    }
  }

  lemma {:induction false} DaysBeforeMonthMonotone(y: int, a: int, b: int)
    requires 1 <= a < b <= 12
    ensures DaysBeforeMonth(y, a) + MonthLength(y, a) <= DaysBeforeMonth(y, b)
    decreases b - a
  {
    MonthStep(y, a);
    if a + 1 < b {
      DaysBeforeMonthMonotone(y, a + 1, b);
    }
  }

  /** The ordinal of a date lies within the ordinals of its own year. */
  lemma OrdinalWithinYear(d: CalendarDate)
    ensures DaysBeforeYear(d.year) < Ordinal(d) <= DaysBeforeYear(d.year) + DaysInYear(d.year)
  {
    if d.month < 12 {
      DaysBeforeMonthMonotone(d.year, d.month, 12);
    }
    LastMonthEndsYear(d.year);
  }

  /** The ordinal orders valid dates exactly as the calendar does. */
  lemma OrdinalOrder(a: CalendarDate, b: CalendarDate)
    ensures Before(a, b) <==> Ordinal(a) < Ordinal(b)
    ensures a == b <==> Ordinal(a) == Ordinal(b)
  {
    OrdinalWithinYear(a);
    OrdinalWithinYear(b);
    if a.year < b.year {
      DaysBeforeYearMonotone(a.year, b.year);
    } else if b.year < a.year {
      DaysBeforeYearMonotone(b.year, a.year);
    } else if a.month < b.month {
      DaysBeforeMonthMonotone(a.year, a.month, b.month);
    } else if b.month < a.month {
      DaysBeforeMonthMonotone(a.year, b.month, a.month);
    }
  }

  /** The day before a date is the only valid date one ordinal earlier. */
  lemma DayBeforeUnique(d: CalendarDate, e: CalendarDate)
    requires d != Date(MinYear, 1, 1)
    ensures Ordinal(e) + 1 == Ordinal(d) <==> e == DayBefore(d)
  {
    OrdinalOrder(e, DayBefore(d));
  }

  /** `date.weekday()`: 0 for Monday through 6 for Sunday. */
  function Weekday(d: CalendarDate): (w: int)
    ensures 0 <= w < 7
  {
    (Ordinal(d) + 6) % 7
  }

  /** Monday is weekday 0: 1 January 2024 was a Monday. */
  lemma WeekdayAnchor()
    ensures Weekday(Date(2024, 1, 1)) == 0
  {
  }

  /** The weekday initials of the calendar header, indexed by `Weekday`. */
  const WeekdayLetters: string := "MTWTFSS"

  function WeekdayLabel(d: CalendarDate): (c: char)
    ensures c in WeekdayLetters
    ensures c == 'M' <==> Weekday(d) == 0
    ensures c == 'T' <==> Weekday(d) == 1 || Weekday(d) == 3
    ensures c == 'W' <==> Weekday(d) == 2
    ensures c == 'F' <==> Weekday(d) == 4
    ensures c == 'S' <==> Weekday(d) >= 5
  {
    WeekdayLetters[Weekday(d)]
  }

  lemma ModSevenStep(x: int)
    ensures (x + 1) % 7 == (x % 7 + 1) % 7
    ensures (x + 7) % 7 == x % 7
  {
    var q := x / 7;
    var r := x % 7;
    assert x == 7 * q + r;
    if r == 6 {
      assert x + 1 == 7 * (q + 1);
    } else {
      assert x + 1 == 7 * q + (r + 1);
    }
    assert x + 7 == 7 * (q + 1) + r;
  }

  /** Consecutive days have consecutive weekdays, Sunday wrapping to Monday. */
  lemma WeekdayAdvances(d: CalendarDate)
    requires d != Date(MinYear, 1, 1)
    ensures Weekday(d) == (Weekday(DayBefore(d)) + 1) % 7
  {
    ModSevenStep(Ordinal(DayBefore(d)) + 6);
  }

  /** The header's weekday letters for days 1..k of month (y, m). */
  function WeekdayLabelsUpTo(y: int, m: int, k: int): (labels: string)
    requires DisplayableMonth(y, m) && 0 <= k <= DaysInMonth(y, m)
    ensures |labels| == k
    ensures forall i :: 0 <= i < k ==> labels[i] == WeekdayLabel(MonthDay(y, m, i + 1))
    decreases k
  {
    if k == 0 then [] else WeekdayLabelsUpTo(y, m, k - 1) + [WeekdayLabel(MonthDay(y, m, k))]
  }

  /** The header's weekday letter for each day 1..DaysInMonth(y, m) of the month. */
  function WeekdayHeader(y: int, m: int): (labels: string)
    requires DisplayableMonth(y, m)
    ensures |labels| == DaysInMonth(y, m)
    ensures forall i :: 0 <= i < |labels| ==> labels[i] == WeekdayLabel(MonthDay(y, m, i + 1))
  {
    WeekdayLabelsUpTo(y, m, DaysInMonth(y, m))
  }

  lemma SameMonthOrdinals(a: CalendarDate, b: CalendarDate)
    requires a.year == b.year && a.month == b.month
    ensures Ordinal(b) - Ordinal(a) == b.day - a.day
  {
  }

  /** A date seven days later falls on the same weekday. */
  lemma WeekLater(a: CalendarDate, b: CalendarDate)
    requires Ordinal(b) == Ordinal(a) + 7
    ensures Weekday(b) == Weekday(a)
  {
    ModSevenStep(Ordinal(a) + 6);
  }

  /** The header repeats with period seven within a month. */
  lemma WeekdayHeaderPeriodic(y: int, m: int, i: int)
    requires DisplayableMonth(y, m)
    requires 0 <= i && i + 7 < DaysInMonth(y, m)
    ensures WeekdayHeader(y, m)[i] == WeekdayHeader(y, m)[i + 7]
  {
    var header := WeekdayHeader(y, m);
    var a, b := MonthDay(y, m, i + 1), MonthDay(y, m, i + 8);
    assert header[i] == WeekdayLabel(a) && header[i + 7] == WeekdayLabel(b);
    SameMonthOrdinals(a, b);
    WeekLater(a, b);
  }
}
