/** The proleptic Gregorian calendar in UTC, as Go's `time` package presents it:
    civil dates, civil times with whole seconds, and the carries of its additions. */
module Calendar {

  datatype Option<+T> = None | Some(value: T)

  predicate IsLeap(y: int) {
    y % 4 == 0 && (y % 100 != 0 || y % 400 == 0)
  }

  function DaysIn(y: int, m: int): (n: int)
    requires 1 <= m <= 12
    ensures 28 <= n <= 31
  {
    if m == 2 then (if IsLeap(y) then 29 else 28)
    else if m == 4 || m == 6 || m == 9 || m == 11 then 30
    else 31
  }

  // ---------- dates ----------

  datatype Date = Date(year: int, month: int, day: int) {
    predicate Valid() {
      1 <= month <= 12 && 1 <= day <= DaysIn(year, month)
    }

    /** Earlier in the calendar: year, then month, then day. */
    predicate Before(d: Date) {
      || year < d.year
      || (year == d.year && (month < d.month || (month == d.month && day < d.day)))
    }

    function Next(): (d: Date)
      requires Valid()
      ensures d.Valid() && Before(d)
    {
      if day < DaysIn(year, month) then Date(year, month, day + 1)
      else if month < 12 then Date(year, month + 1, 1)
      else Date(year + 1, 1, 1)
    }

    function Prev(): (d: Date)
      requires Valid()
      ensures d.Valid() && d.Next() == this
    {
      if day > 1 then Date(year, month, day - 1)
      else if month > 1 then Date(year, month - 1, DaysIn(year, month - 1))
      else Date(year - 1, 12, 31)
    }
  }

  /** Days from 0001-01-01 to the first day of year `y`. */
  function DaysBeforeYear(y: int): int {
    365 * (y - 1) + (y - 1) / 4 - (y - 1) / 100 + (y - 1) / 400
  }

  function DaysBeforeMonth(y: int, m: int): (n: nat)
    requires 1 <= m <= 12
  {
    if m == 1 then 0 else DaysBeforeMonth(y, m - 1) + DaysIn(y, m - 1)
  }

  lemma MonthsFillYear(y: int)
    ensures DaysBeforeMonth(y, 12) + DaysIn(y, 12) == if IsLeap(y) then 366 else 365
  {
    var feb := DaysIn(y, 2);
    assert DaysBeforeMonth(y, 2) == 31;
    assert DaysBeforeMonth(y, 3) == 31 + feb;
    assert DaysBeforeMonth(y, 5) == 92 + feb;
    assert DaysBeforeMonth(y, 7) == 153 + feb;
    assert DaysBeforeMonth(y, 9) == 215 + feb;
    assert DaysBeforeMonth(y, 11) == 276 + feb;
  }

  /** The number of days since 0001-01-01. */
  function DayNumber(d: Date): int
    requires d.Valid()
  {
    DaysBeforeYear(d.year) + DaysBeforeMonth(d.year, d.month) + d.day - 1
  }

  lemma YearLength(y: int)
    ensures DaysBeforeYear(y + 1) == DaysBeforeYear(y) + if IsLeap(y) then 366 else 365
  {
    var k := y - 1;
    assert (k + 1) / 4 == k / 4 + if y % 4 == 0 then 1 else 0;
    assert (k + 1) / 100 == k / 100 + if y % 100 == 0 then 1 else 0;
    assert (k + 1) / 400 == k / 400 + if y % 400 == 0 then 1 else 0;
  }

  /** The closed form counts days: the day after a date has the next number. */
  lemma NextDayNumber(d: Date)
    requires d.Valid()
    ensures DayNumber(d.Next()) == DayNumber(d) + 1
  {
    if d.day == DaysIn(d.year, d.month) && d.month == 12 {
      MonthsFillYear(d.year);
      YearLength(d.year);
    }
  }

  lemma {:induction false} YearsGrow(y: int, z: int)
    requires y <= z
    ensures DaysBeforeYear(y) + 365 * (z - y) <= DaysBeforeYear(z)
    decreases z - y
  {
    if y < z {
      YearsGrow(y, z - 1);
      YearLength(z - 1);
    }
  }

  lemma {:induction false} MonthsGrow(y: int, m: int, n: int)
    requires 1 <= m < n <= 12
    ensures DaysBeforeMonth(y, m) + DaysIn(y, m) <= DaysBeforeMonth(y, n)
    decreases n - m
  {
    if m + 1 < n {
      MonthsGrow(y, m, n - 1);
    }
  }

  lemma DayOfYearBound(d: Date)
    requires d.Valid()
    ensures 0 <= DayNumber(d) - DaysBeforeYear(d.year) < if IsLeap(d.year) then 366 else 365
  {
    MonthsFillYear(d.year);
    if d.month < 12 {
      MonthsGrow(d.year, d.month, 12);
    }
  }

  lemma DateOrderForward(d: Date, e: Date)
    requires d.Valid() && e.Valid() && d.Before(e)
    ensures DayNumber(d) < DayNumber(e)
  {
    DayOfYearBound(d);
    DayOfYearBound(e);
    if d.year < e.year {
      YearLength(d.year);
      YearsGrow(d.year + 1, e.year);
    } else if d.month < e.month {
      MonthsGrow(d.year, d.month, e.month);
    }
  }

  /** Calendar order is the order of day numbers, so day numbers identify dates. */
  lemma DateOrder(d: Date, e: Date)
    requires d.Valid() && e.Valid()
    ensures d.Before(e) <==> DayNumber(d) < DayNumber(e)
    ensures d == e <==> DayNumber(d) == DayNumber(e)
  {
    if d.Before(e) {
      DateOrderForward(d, e);
    } else if e.Before(d) {
      DateOrderForward(e, d);
    }
  }

  function AddDays(d: Date, n: int): (e: Date)
    requires d.Valid()
    ensures e.Valid()
    decreases if n < 0 then -n else n
  {
    if n == 0 then d
    else if n > 0 then AddDays(d, n - 1).Next()
    else AddDays(d, n + 1).Prev()
  }

  lemma {:induction false} AddDaysNumber(d: Date, n: int)
    requires d.Valid()
    ensures DayNumber(AddDays(d, n)) == DayNumber(d) + n
    decreases if n < 0 then -n else n
  {
    if n > 0 {
      var e := AddDays(d, n - 1);
      AddDaysNumber(d, n - 1);
      NextDayNumber(e);
    } else if n < 0 {
      var e := AddDays(d, n + 1);
      AddDaysNumber(d, n + 1);
      NextDayNumber(e.Prev());
    }
  }

  lemma {:induction false} AddDaysWithinMonth(y: int, m: int, k: int)
    requires 1 <= m <= 12 && 0 <= k < DaysIn(y, m)
    ensures AddDays(Date(y, m, 1), k) == Date(y, m, 1 + k)
  {
    if k > 0 {
      AddDaysWithinMonth(y, m, k - 1);
    }
  }

  /** The date with the given day number. */
  function DateOf(n: int): (d: Date)
    ensures d.Valid() && DayNumber(d) == n
  {
    AddDaysNumber(Date(1, 1, 1), n);
    AddDays(Date(1, 1, 1), n)
  }

  lemma DateOfUnique(d: Date)
    requires d.Valid()
    ensures DateOf(DayNumber(d)) == d
  {
    DateOrder(DateOf(DayNumber(d)), d);
  }

  lemma DateOfNext(n: int)
    ensures DateOf(n + 1) == DateOf(n).Next()
  {
    NextDayNumber(DateOf(n));
    DateOfUnique(DateOf(n).Next());
  }

  /** `time.Date`'s normalization of an out-of-range month and day. */
  function Normalize(y: int, m: int, d: int): (r: Date)
    ensures r.Valid()
  {
    AddDays(Date(y + (m - 1) / 12, (m - 1) % 12 + 1, 1), d - 1)
  }

  /** 0 is Sunday; 0001-01-01 was a Monday. */
  function WeekdayOf(n: int): (w: int)
    ensures 0 <= w <= 6
  {
    (n + 1) % 7
  }

  function Weekday(d: Date): (w: int)
    requires d.Valid()
    ensures 0 <= w <= 6
  {
    WeekdayOf(DayNumber(d))
  }

  // ---------- times ----------

  datatype Civil = Civil(date: Date, hour: int, minute: int, second: int) {
    predicate Valid() {
      date.Valid() && 0 <= hour <= 23 && 0 <= minute <= 59 && 0 <= second <= 59
    }

    predicate Before(c: Civil) {
      || date.Before(c.date)
      || (date == c.date &&
          (hour < c.hour ||
           (hour == c.hour && (minute < c.minute || (minute == c.minute && second < c.second)))))
    }

    predicate AtOrBefore(c: Civil) {
      this == c || Before(c)
    }

    function AddDate(years: int, months: int, days: int): (c: Civil)
      requires Valid()
      ensures c.Valid() && c.hour == hour && c.minute == minute && c.second == second
    {
      this.(date := Normalize(date.year + years, date.month + months, date.day + days))
    }

    function AddHour(): (c: Civil)
      requires Valid()
      ensures c.Valid()
    {
      if hour < 23 then this.(hour := hour + 1) else this.(date := date.Next(), hour := 0)
    }

    function AddMinute(): (c: Civil)
      requires Valid()
      ensures c.Valid()
    {
      if minute < 59 then this.(minute := minute + 1) else this.(minute := 0).AddHour()
    }

    function AddSecond(): (c: Civil)
      requires Valid()
      ensures c.Valid()
    {
      if second < 59 then this.(second := second + 1) else this.(second := 0).AddMinute()
    }
  }

  /** Seconds since midnight of 0001-01-01. */
  function Seconds(c: Civil): int
    requires c.Valid()
  {
    DayNumber(c.date) * 86400 + c.hour * 3600 + c.minute * 60 + c.second
  }

  /** The field-by-field order of civil times is the order of instants. */
  lemma CivilOrder(b: Civil, c: Civil)
    requires b.Valid() && c.Valid()
    ensures b.Before(c) <==> Seconds(b) < Seconds(c)
    ensures b == c <==> Seconds(b) == Seconds(c)
  {
    DateOrder(b.date, c.date);
  }

  /** Each carry adds exactly its unit of time. */
  lemma AddHourSeconds(c: Civil)
    requires c.Valid()
    ensures Seconds(c.AddHour()) == Seconds(c) + 3600
  {
    NextDayNumber(c.date);
  }

  lemma AddMinuteSeconds(c: Civil)
    requires c.Valid()
    ensures Seconds(c.AddMinute()) == Seconds(c) + 60
  {
    AddHourSeconds(c.(minute := 0));
  }

  lemma AddSecondSeconds(c: Civil)
    requires c.Valid()
    ensures Seconds(c.AddSecond()) == Seconds(c) + 1
  {
    AddMinuteSeconds(c.(second := 0));
  }

  lemma AddDateDay(c: Civil)
    requires c.Valid()
    ensures c.AddDate(0, 0, 1).date == c.date.Next()
  {
    AddDaysWithinMonth(c.date.year, c.date.month, c.date.day - 1);
  }

  lemma AddDateMonth(c: Civil)
    requires c.Valid() && c.date.day == 1
    ensures c.AddDate(0, 1, 0).date ==
            if c.date.month < 12 then Date(c.date.year, c.date.month + 1, 1) else Date(c.date.year + 1, 1, 1)
  {
  }
}
