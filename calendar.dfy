/**
 * The proleptic Gregorian calendar as chrono's `NaiveDate` implements it, and the
 * local wall-clock instants of the ledger. An instant is a whole number of minutes
 * since 0001-01-01 00:00 local time; its calendar day is the floor of that number
 * divided by the 1440 minutes of a day, and its time of day is the remainder.
 */
module Calendar {
  import opened Durations

  const MinutesPerDay: int := 1440

  datatype Date = Date(year: int, month: int, day: int)

  predicate IsLeapYear(y: int) {
    y % 4 == 0 && (y % 100 != 0 || y % 400 == 0)
  }

  function YearLength(y: int): int {
    if IsLeapYear(y) then 366 else 365
  }

  function MonthLength(y: int, m: int): (n: int)
    requires 1 <= m <= 12
    ensures 28 <= n <= 31
    ensures n == 29 <==> m == 2 && IsLeapYear(y)
  {
    if m == 2 then (if IsLeapYear(y) then 29 else 28)
    else if m == 4 || m == 6 || m == 9 || m == 11 then 30
    else 31
  }

  predicate ValidDate(d: Date) {
    1 <= d.month <= 12 && 1 <= d.day <= MonthLength(d.year, d.month)
  }

  /** Days from 0001-01-01 to the first of January of year `y`. */
  function DaysBeforeYear(y: int): int {
    var k := y - 1;
    365 * k + k / 4 - k / 100 + k / 400
  }

  /** Days from the first of January of year `y` to the first day of month `m`; month 13 is the next year. */
  function DaysBeforeMonth(y: int, m: int): (n: int)
    requires 1 <= m <= 13
    ensures 0 <= n
  {
    var leap := if m > 2 && IsLeapYear(y) then 1 else 0;
    leap + (
      if m == 1 then 0 else if m == 2 then 31 else if m == 3 then 59
      else if m == 4 then 90 else if m == 5 then 120 else if m == 6 then 151
      else if m == 7 then 181 else if m == 8 then 212 else if m == 9 then 243
      else if m == 10 then 273 else if m == 11 then 304 else if m == 12 then 334
      else 365)
  }

  /** The day number of a date: 0001-01-01 is day 0. */
  function DayNumber(d: Date): int
    requires ValidDate(d)
  {
    DaysBeforeYear(d.year) + DaysBeforeMonth(d.year, d.month) + d.day - 1
  }

  lemma DaysBeforeNextMonth(y: int, m: int)
    requires 1 <= m <= 12
    ensures DaysBeforeMonth(y, m + 1) == DaysBeforeMonth(y, m) + MonthLength(y, m)
    ensures DaysBeforeMonth(y, 13) == YearLength(y)
  {
  }

  /** A year is as long as the distance between its first day and the next year's. */
  lemma DaysBeforeNextYear(y: int)
    ensures DaysBeforeYear(y + 1) == DaysBeforeYear(y) + YearLength(y)
  {
    DivStep(y - 1, 4);
    DivStep(y - 1, 100);
    DivStep(y - 1, 400);
  }

  /** The floor quotient by `c` grows by one exactly when the next number is a multiple of `c`. */
  lemma DivStep(k: int, c: int)
    requires c == 4 || c == 100 || c == 400
    ensures (k + 1) / c == k / c + (if (k + 1) % c == 0 then 1 else 0)
  {
    var q, r := k / c, k % c;
    assert k == c * q + r && 0 <= r < c;
    if r == c - 1 {
      assert k + 1 == c * (q + 1);
      DivExact(k + 1, c, q + 1, 0);
    } else {
      assert k + 1 == c * q + (r + 1);
      DivExact(k + 1, c, q, r + 1);
    }
  }

  lemma DivExact(n: int, c: int, q: int, r: int)
    requires c == 4 || c == 100 || c == 400
    requires n == c * q + r && 0 <= r < c
    ensures n / c == q && n % c == r
  {
  }

  /** The first days of the years lie within two days of the mean year of 146097/400 days. */
  lemma DaysBeforeYearBounds(y: int)
    ensures 146097 * (y - 1) - 800 < 400 * DaysBeforeYear(y) < 146097 * (y - 1) + 400
  {
    var k := y - 1;
    assert 4 * (k / 4) <= k < 4 * (k / 4) + 4;
    assert 100 * (k / 100) <= k < 100 * (k / 100) + 100;
    assert 400 * (k / 400) <= k < 400 * (k / 400) + 400;
  }

  /** The month of a day of the year, searched upward from month `m`. */
  function MonthOfDayOfYear(y: int, doy: int, m: int): (r: int)
    requires 1 <= m <= 12
    requires DaysBeforeMonth(y, m) <= doy < YearLength(y)
    ensures m <= r <= 12
    ensures DaysBeforeMonth(y, r) <= doy < DaysBeforeMonth(y, r + 1)
    decreases 12 - m
  {
    DaysBeforeNextMonth(y, m);
    if doy < DaysBeforeMonth(y, m + 1) then m else MonthOfDayOfYear(y, doy, m + 1)
  }

  /** The calendar date of day number `n`, the inverse of `DayNumber`. */
  function CivilFromDays(n: int): (d: Date)
    ensures ValidDate(d)
    ensures DayNumber(d) == n
  {
    var k0 := (400 * n) / 146097;
    DaysBeforeYearBounds(k0 + 1);
    DaysBeforeYearBounds(k0 + 3);
    DaysBeforeNextYear(k0 + 1);
    DaysBeforeNextYear(k0 + 2);
    var y := if DaysBeforeYear(k0 + 2) <= n then k0 + 2 else k0 + 1;
    var doy := n - DaysBeforeYear(y);
    var m := MonthOfDayOfYear(y, doy, 1);
    DaysBeforeNextMonth(y, m);
    Date(y, m, doy - DaysBeforeMonth(y, m) + 1)
  }

  /** Two valid dates with the same day number are the same date. */
  lemma DayNumberInjective(d: Date, e: Date)
    requires ValidDate(d) && ValidDate(e)
    requires DayNumber(d) == DayNumber(e)
    ensures d == e
  {
    if d.year < e.year {
      DayNumberBeforeNextYear(d);
      DaysBeforeYearMonotone(d.year + 1, e.year);
      assert false;
    } else if e.year < d.year {
      DayNumberBeforeNextYear(e);
      DaysBeforeYearMonotone(e.year + 1, d.year);
      assert false;
    } else if d.month < e.month {
      DaysBeforeNextMonth(d.year, d.month);
      DaysBeforeMonthMonotone(d.year, d.month + 1, e.month);
      assert false;
    } else if e.month < d.month {
      DaysBeforeNextMonth(e.year, e.month);
      DaysBeforeMonthMonotone(e.year, e.month + 1, d.month);
      assert false;
    }
  }

  lemma DayNumberBeforeNextYear(d: Date)
    requires ValidDate(d)
    ensures DayNumber(d) < DaysBeforeYear(d.year + 1)
  {
    DaysBeforeNextMonth(d.year, d.month);
    DaysBeforeMonthMonotone(d.year, d.month + 1, 13);
    DaysBeforeNextYear(d.year);
  }

  lemma DaysBeforeMonthMonotone(y: int, m1: int, m2: int)
    requires 1 <= m1 <= m2 <= 13
    ensures DaysBeforeMonth(y, m1) <= DaysBeforeMonth(y, m2)
  {
  }

  lemma {:induction false} DaysBeforeYearMonotone(y1: int, y2: int)
    requires y1 <= y2
    ensures DaysBeforeYear(y1) <= DaysBeforeYear(y2)
    decreases y2 - y1
  {
    if y1 < y2 {
      DaysBeforeNextYear(y1);
      DaysBeforeYearMonotone(y1 + 1, y2);
    }
  }

  lemma CivilFromDayNumber(d: Date)
    requires ValidDate(d)
    ensures CivilFromDays(DayNumber(d)) == d
  {
    DayNumberInjective(CivilFromDays(DayNumber(d)), d);
  }

  /**
   * chrono's `checked_add_months(Months::new(1))`: the same day of the next month,
   * clamped to that month's last day.
   */
  function AddOneMonth(d: Date): (r: Date)
    requires ValidDate(d)
    ensures ValidDate(r)
    ensures d.month < 12 ==> r.year == d.year && r.month == d.month + 1
    ensures d.month == 12 ==> r.year == d.year + 1 && r.month == 1
    ensures r.day == d.day || (r.day < d.day && r.day == MonthLength(r.year, r.month))
  {
    var (y, m) := if d.month == 12 then (d.year + 1, 1) else (d.year, d.month + 1);
    var last := MonthLength(y, m);
    Date(y, m, if d.day <= last then d.day else last)
  }

  /**
   * `days_in_month`: the days from a date to the same day of the next month. It is
   * the length of the date's month unless the next month is too short to hold the
   * day, when the count stops at that month's last day.
   */
  function DaysInMonth(d: Date): (n: int)
    requires ValidDate(d)
    ensures 28 <= n <= 31
    ensures AddOneMonth(d).day == d.day ==> n == MonthLength(d.year, d.month)
    ensures AddOneMonth(d).day < d.day ==>
      n == MonthLength(d.year, d.month) - d.day + AddOneMonth(d).day
  {
    var next := AddOneMonth(d);
    DaysBeforeNextMonth(d.year, d.month);
    DaysBeforeNextYear(d.year);
    DayNumber(next) - DayNumber(d)
  }

  /** The calendar date of an instant. */
  function DateOf(t: int): (d: Date)
    ensures ValidDate(d)
  {
    CivilFromDays(t / MinutesPerDay)
  }

  /** Two instants fall on the same date exactly when they fall on the same day number. */
  lemma SameDateSameDay(t: int, u: int)
    ensures DateOf(t) == DateOf(u) <==> t / MinutesPerDay == u / MinutesPerDay
  {
  }

  /** Dates never go backwards as time goes forward. */
  lemma DayNumberMonotone(t: int, u: int)
    requires t <= u
    ensures t / MinutesPerDay <= u / MinutesPerDay
  {
    var qt, qu := t / 1440, u / 1440;
    assert t == 1440 * qt + t % 1440;
    assert u == 1440 * qu + u % 1440;
  }

  /** The time of day of an instant, in minutes after midnight. */
  function TimeOfDay(t: int): (m: int)
    ensures 0 <= m < MinutesPerDay
  {
    t % MinutesPerDay
  }

  /** `NaiveDateTime::new`: the instant of a date and a time of day. */
  function At(d: Date, minute: int): (t: int)
    requires ValidDate(d)
    requires 0 <= minute < MinutesPerDay
    ensures DateOf(t) == d
    ensures TimeOfDay(t) == minute
  {
    var t := DayNumber(d) * MinutesPerDay + minute;
    assert t / MinutesPerDay == DayNumber(d) && t % MinutesPerDay == minute;
    CivilFromDayNumber(d);
    t
  }

  /**
   * chrono's `duration_round(Duration::minutes(1))` on a clock reading of `seconds`
   * seconds, giving minutes: Rust's `%` takes the sign of the dividend, and the
   * reading moves to the nearer whole minute, upward on a tie.
   */
  function RoundToMinute(seconds: int): (minutes: int)
    ensures 60 * minutes - 30 <= seconds < 60 * minutes + 30
  {
    var deltaDown := TruncRem60(seconds);
    if deltaDown == 0 then (seconds - deltaDown) / 60
    else
      var (up, down) := if deltaDown < 0 then (-deltaDown, 60 + deltaDown) else (60 - deltaDown, deltaDown);
      if up <= down then (seconds + up) / 60 else (seconds - down) / 60
  }

  /**
   * The start chosen for a time of day given alone: that time today when the
   * current time of day is strictly later, otherwise that time yesterday.
   */
  function TimeOnlyStart(now: int, time: int): (r: int)
    requires 0 <= time < MinutesPerDay
    ensures TimeOfDay(r) == time
    ensures r < now && now - r <= MinutesPerDay
    ensures DateOf(r) == DateOf(now) <==> TimeOfDay(now) > time
  {
    var today := DateOf(now);
    var date := if TimeOfDay(now) > time then today else CivilFromDays(DayNumber(today) - 1);
    assert DayNumber(today) == now / MinutesPerDay;
    At(date, time)
  }

  /** The chosen start is the latest instant before `now` with that time of day. */
  lemma TimeOnlyStartIsLatest(now: int, time: int, t: int)
    requires 0 <= time < MinutesPerDay
    requires TimeOfDay(t) == time && t < now
    ensures t <= TimeOnlyStart(now, time)
  {
    SameTimeOfDayCloserThanADay(t, TimeOnlyStart(now, time));
  }

  /** Two instants with the same time of day less than a day apart are equal or ordered the same way. */
  lemma SameTimeOfDayCloserThanADay(t: int, r: int)
    requires TimeOfDay(t) == TimeOfDay(r)
    requires t < r + MinutesPerDay
    ensures t <= r
  {
    var qt, qr := t / 1440, r / 1440;
    assert t == 1440 * qt + t % 1440;
    assert r == 1440 * qr + r % 1440;
  }
}
