/** The weeks and months internal/database/tracker.go counts by. Days are day numbers. */
module TrackerCalendar {
  import opened Calendar

  datatype Recurrence = Daily | Weekly | Monthly | Once | Unknown

  /** GetDueItems' start of the week: the Monday on or before the day. */
  function WeekStart(n: int): int {
    if WeekdayOf(n) == 0 then n - 6 else n - (WeekdayOf(n) - 1)
  }

  /** `ISOWeek`: the year of the week's Thursday, and the week's number in it (section 3.2.2 of
      ISO 8601:2004). */
  function ISOWeek(n: int): (int, int) {
    var thursday := WeekStart(n) + 3;
    var year := DateOf(thursday).year;
    (year, (thursday - DaysBeforeYear(year)) / 7 + 1)
  }

  function MonthKey(n: int): (int, int) {
    (DateOf(n).year, DateOf(n).month)
  }

  /** The period of a recurrence a day falls into, numbered consecutively. */
  function Period(r: Recurrence, n: int): int {
    match r
    case Daily => n
    case Weekly => n / 7
    case Monthly => DateOf(n).year * 12 + DateOf(n).month
    case _ => 0
  }

  lemma WeekStartIsMonday(n: int)
    ensures WeekStart(n) == n / 7 * 7 && WeekdayOf(WeekStart(n)) == 1
  {
  }

  /** ISO week keys name calendar weeks: two days share one exactly when they share their Monday. */
  lemma ISOWeekNamesWeeks(m: int, n: int)
    ensures ISOWeek(m) == ISOWeek(n) <==> Period(Weekly, m) == Period(Weekly, n)
  {
    WeekStartIsMonday(m);
    WeekStartIsMonday(n);
    hide DateOf, DaysBeforeYear, WeekStart, WeekdayOf;
  }

  lemma MonthKeyNamesMonths(m: int, n: int)
    ensures MonthKey(m) == MonthKey(n) <==> Period(Monthly, m) == Period(Monthly, n)
  {
    hide DayNumber;
  }

  /** From one day to the next the period stays or moves on by one. */
  lemma PeriodStep(r: Recurrence, n: int)
    ensures Period(r, n) <= Period(r, n + 1) <= Period(r, n) + 1
  {
    if r == Monthly {
      DateOfNext(n);
      hide DateOf;
    }
  }

  lemma {:induction false} PeriodMonotone(r: Recurrence, m: int, n: int)
    requires m <= n
    ensures Period(r, m) <= Period(r, n)
    decreases n - m
  {
    if m < n {
      PeriodMonotone(r, m, n - 1);
      PeriodStep(r, n - 1);
    }
  }
}
