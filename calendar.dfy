/** Proleptic Gregorian calendar arithmetic on instants counted in
    milliseconds since 1970-01-01T00:00:00Z: the breakdown pandas applies
    to a UTC timestamp before its year, month, day, hour and dayofweek
    accessors read it. */
module Calendar {

  datatype Date = Date(year: int, month: int, day: int)

  /** A wall-clock date and time, to the millisecond. */
  datatype DateTime = DateTime(date: Date, hour: int, minute: int, second: int, milli: int)

  const MillisPerDay := 86_400_000
  const MillisPerHour := 3_600_000
  const MillisPerMinute := 60_000

  predicate IsLeapYear(y: int) {
    y % 4 == 0 && (y % 100 != 0 || y % 400 == 0)
  }

  function DaysInYear(y: int): int {
    if IsLeapYear(y) then 366 else 365
  }

  function DaysInMonth(y: int, m: int): (n: int)
    requires 1 <= m <= 12
    ensures 28 <= n <= 31
    ensures n == 29 <==> m == 2 && IsLeapYear(y)
  {
    if m == 2 then (if IsLeapYear(y) then 29 else 28)
    else if m == 4 || m == 6 || m == 9 || m == 11 then 30
    else 31
  }

  predicate ValidDate(d: Date) {
    1 <= d.month <= 12 && 1 <= d.day <= DaysInMonth(d.year, d.month)
  }

  predicate ValidDateTime(t: DateTime) {
    ValidDate(t.date) && 0 <= t.hour < 24 && 0 <= t.minute < 60
    && 0 <= t.second < 60 && 0 <= t.milli < 1000
  }

  /** Days from 1970-01-01 to January 1st of year y (negative before 1970). */
  function DaysBeforeYear(y: int): int {
    var p := y - 1;
    365 * p + p / 4 - p / 100 + p / 400 - 719_162
  }

  /** Days from January 1st of year y to the first day of month m;
      month 13 stands for the first day of the next year. */
  function DaysBeforeMonth(y: int, m: int): int
    requires 1 <= m <= 13
  {
    var cumulative := [0, 31, 59, 90, 120, 151, 181, 212, 243, 273, 304, 334, 365];
    cumulative[m - 1] + (if m > 2 && IsLeapYear(y) then 1 else 0)
  }

  /** Days from 1970-01-01 to the given date. */
  function DaysFromCivil(d: Date): int
    requires ValidDate(d)
  {
    DaysBeforeYear(d.year) + DaysBeforeMonth(d.year, d.month) + d.day - 1
  }

  /** The instant denoted by a wall-clock time read at a UTC offset of
      offsetMinutes (east of Greenwich positive). */
  function InstantOf(t: DateTime, offsetMinutes: int): int
    requires ValidDate(t.date)
  {
    DaysFromCivil(t.date) * MillisPerDay + t.hour * MillisPerHour
    + t.minute * MillisPerMinute + t.second * 1000 + t.milli
    - offsetMinutes * MillisPerMinute
  }

  /** Floor division by each leap-rule period steps up exactly at its multiples. */
  lemma FloorStep(y: int)
    ensures y / 4 - (y - 1) / 4 == if y % 4 == 0 then 1 else 0
    ensures y / 100 - (y - 1) / 100 == if y % 100 == 0 then 1 else 0
    ensures y / 400 - (y - 1) / 400 == if y % 400 == 0 then 1 else 0
  {
  }

  /** The closed form of DaysBeforeYear agrees with counting year lengths. */
  lemma DaysBeforeYearStep(y: int)
    ensures DaysBeforeYear(y + 1) == DaysBeforeYear(y) + DaysInYear(y)
  {
    var d4, d100, d400 := y / 4 - (y - 1) / 4, y / 100 - (y - 1) / 100, y / 400 - (y - 1) / 400;
    assert DaysBeforeYear(y + 1) == DaysBeforeYear(y) + 365 + d4 - d100 + d400;
    FloorStep(y);
    PeriodsNest(y);
  }

  /** A multiple of 400 is one of 100, and a multiple of 100 one of 4. */
  lemma PeriodsNest(y: int)
    ensures y % 400 == 0 ==> y % 100 == 0
    ensures y % 100 == 0 ==> y % 4 == 0
  {
  }

  lemma {:induction false} DaysBeforeYearMonotone(a: int, b: int)
    requires a <= b
    ensures DaysBeforeYear(a) + 365 * (b - a) <= DaysBeforeYear(b)
    decreases b - a
  {
    if a < b {
      DaysBeforeYearMonotone(a, b - 1);
      DaysBeforeYearStep(b - 1);
    }
  }

  /** The cumulative month table agrees with the month lengths. */
  lemma DaysBeforeMonthStep(y: int, m: int)
    requires 1 <= m <= 12
    ensures DaysBeforeMonth(y, m + 1) == DaysBeforeMonth(y, m) + DaysInMonth(y, m)
    ensures DaysBeforeMonth(y, 1) == 0 && DaysBeforeMonth(y, 13) == DaysInYear(y)
  {
  }

  lemma {:induction false} DaysBeforeMonthMonotone(y: int, a: int, b: int)
    requires 1 <= a < b <= 13
    ensures DaysBeforeMonth(y, a) + DaysInMonth(y, a) <= DaysBeforeMonth(y, b)
    decreases b - a
  {
    DaysBeforeMonthStep(y, a);
    if a + 1 < b {
      DaysBeforeMonthMonotone(y, a + 1, b);
      DaysBeforeMonthStep(y, a + 1);
    }
  }

  /** The year containing day n, searched upwards from year y. */
  function YearUpFrom(n: int, y: int): (r: int)
    requires DaysBeforeYear(y) <= n
    ensures y <= r && DaysBeforeYear(r) <= n < DaysBeforeYear(r + 1)
    decreases n - DaysBeforeYear(y)
  {
    DaysBeforeYearStep(y);
    if n < DaysBeforeYear(y + 1) then y else YearUpFrom(n, y + 1)
  }

  /** The year containing day n, searched downwards from year y. */
  function YearDownFrom(n: int, y: int): (r: int)
    requires n < DaysBeforeYear(y + 1)
    ensures r <= y && DaysBeforeYear(r) <= n < DaysBeforeYear(r + 1)
    decreases DaysBeforeYear(y + 1) - n
  {
    DaysBeforeYearStep(y);
    if DaysBeforeYear(y) <= n then y else YearDownFrom(n, y - 1)
  }

  function YearOfDay(n: int): (y: int)
    ensures DaysBeforeYear(y) <= n < DaysBeforeYear(y + 1)
  {
    if n >= 0 then YearUpFrom(n, 1970) else YearDownFrom(n, 1969)
  }

  /** The month of year y that contains day-of-year doy, searched from month m. */
  function MonthFrom(y: int, doy: int, m: int): (r: int)
    requires 1 <= m <= 12 && DaysBeforeMonth(y, m) <= doy < DaysInYear(y)
    ensures m <= r <= 12
    ensures DaysBeforeMonth(y, r) <= doy < DaysBeforeMonth(y, r) + DaysInMonth(y, r)
    decreases 12 - m
  {
    DaysBeforeMonthStep(y, m);
    if m == 12 || doy < DaysBeforeMonth(y, m + 1) then m else MonthFrom(y, doy, m + 1)
  }

  /** The calendar date of day n counted from 1970-01-01. */
  function CivilFromDays(n: int): (d: Date)
    ensures ValidDate(d) && DaysFromCivil(d) == n
  {
    var y := YearOfDay(n);
    DaysBeforeYearStep(y);
    DaysBeforeMonthStep(y, 1);
    var m := MonthFrom(y, n - DaysBeforeYear(y), 1);
    Date(y, m, n - DaysBeforeYear(y) - DaysBeforeMonth(y, m) + 1)
  }

  lemma YearOfDayUnique(n: int, y: int)
    requires DaysBeforeYear(y) <= n < DaysBeforeYear(y + 1)
    ensures YearOfDay(n) == y
  {
    var r := YearOfDay(n);
    if r < y {
      DaysBeforeYearMonotone(r + 1, y);
    } else if r > y {
      DaysBeforeYearMonotone(y + 1, r);
    }
  }

  lemma MonthFromUnique(y: int, doy: int, m: int)
    requires 1 <= m <= 12 && 0 <= doy < DaysInYear(y)
    requires DaysBeforeMonth(y, m) <= doy < DaysBeforeMonth(y, m) + DaysInMonth(y, m)
    ensures MonthFrom(y, doy, 1) == m
  {
    DaysBeforeMonthStep(y, 1);
    var r := MonthFrom(y, doy, 1);
    if r < m {
      DaysBeforeMonthMonotone(y, r, m);
    } else if r > m {
      DaysBeforeMonthMonotone(y, m, r);
    }
  }

  /** Counting days from 1970-01-01 is a bijection between valid dates and integers. */
  lemma CivilFromDaysOfCivil(d: Date)
    requires ValidDate(d)
    ensures CivilFromDays(DaysFromCivil(d)) == d
  {
    var n := DaysFromCivil(d);
    DaysBeforeMonthMonotone(d.year, d.month, 13);
    DaysBeforeMonthStep(d.year, 1);
    DaysBeforeYearStep(d.year);
    YearOfDayUnique(n, d.year);
    MonthFromUnique(d.year, n - DaysBeforeYear(d.year), d.month);
  }

  /** The UTC wall-clock breakdown of an instant. */
  function UtcOf(ms: int): (t: DateTime)
    ensures ValidDateTime(t) && InstantOf(t, 0) == ms
  {
    var rem := ms % MillisPerDay;
    var inHour := rem % MillisPerHour;
    var inMinute := inHour % MillisPerMinute;
    DateTime(CivilFromDays(ms / MillisPerDay), rem / MillisPerHour,
             inHour / MillisPerMinute, inMinute / 1000, inMinute % 1000)
  }

  /** A valid UTC wall-clock time is the breakdown of the instant it denotes. */
  lemma UtcOfInstant(t: DateTime)
    requires ValidDateTime(t)
    ensures UtcOf(InstantOf(t, 0)) == t
  {
    var ms := InstantOf(t, 0);
    var inMinute := t.second * 1000 + t.milli;
    var inHour := t.minute * MillisPerMinute + inMinute;
    var rem := t.hour * MillisPerHour + inHour;
    assert ms == DaysFromCivil(t.date) * MillisPerDay + rem;
    assert ms / MillisPerDay == DaysFromCivil(t.date) && ms % MillisPerDay == rem;
    assert rem / MillisPerHour == t.hour && rem % MillisPerHour == inHour;
    assert inHour / MillisPerMinute == t.minute && inHour % MillisPerMinute == inMinute;
    assert inMinute / 1000 == t.second && inMinute % 1000 == t.milli;
    CivilFromDaysOfCivil(t.date);
  }

  /** Day of the week of an instant in UTC, Monday = 0 (1970-01-01 was a Thursday). */
  function DayOfWeek(ms: int): (w: int)
    ensures 0 <= w < 7
  {
    (ms / MillisPerDay + 3) % 7
  }

  /** Sakamoto's per-month key. */
  function MonthKey(m: int): int {
    if m == 1 || m == 5 then 0
    else if m == 8 then 1
    else if m == 3 || m == 11 then 2
    else if m == 2 || m == 6 then 3
    else if m == 9 || m == 12 then 4
    else if m == 4 || m == 7 then 5
    else 6
  }

  /** An independent weekday rule (Sakamoto's), shifted so that Monday = 0. */
  function WeekdayOfDate(d: Date): (w: int)
    ensures 0 <= w < 7
  {
    var y := if d.month < 3 then d.year - 1 else d.year;
    (y + y / 4 - y / 100 + y / 400 + MonthKey(d.month) + d.day + 6) % 7
  }

  /** Leap days before year y + 1, against those before year y. */
  lemma LeapCountStep(y: int)
    ensures y / 4 - y / 100 + y / 400
         == (y - 1) / 4 - (y - 1) / 100 + (y - 1) / 400 + (if IsLeapYear(y) then 1 else 0)
  {
    FloorStep(y);
    PeriodsNest(y);
  }

  /** Weeks, beyond the month key, in the days before month m of a common
      year, counted from March for months after February. */
  lemma MonthWeeks(y: int, m: int) returns (q: int)
    requires 1 <= m <= 12
    ensures DaysBeforeMonth(y, m) - (if m > 2 && IsLeapYear(y) then 1 else 0)
            == MonthKey(m) + (if m < 3 then 0 else 1) + 7 * q
  {
    q := if m == 1 then 0 else if m == 2 then 4 else if m == 3 then 8
      else if m == 4 then 12 else if m == 5 then 17 else if m == 6 then 21
      else if m == 7 then 25 else if m == 8 then 30 else if m == 9 then 34
      else if m == 10 then 38 else if m == 11 then 43 else 47;
  }

  lemma ModSevenShift(a: int, k: int)
    ensures (a + 7 * k) % 7 == a % 7
  {
  }

  lemma WeekdayOfDaysFromCivil(d: Date)
    requires ValidDate(d)
    ensures (DaysFromCivil(d) + 3) % 7 == WeekdayOfDate(d)
  {
    var y, m := d.year, d.month;
    var p := y - 1;
    var leaps := p / 4 - p / 100 + p / 400;
    var leap := if m > 2 && IsLeapYear(y) then 1 else 0;
    var q := MonthWeeks(y, m);
    var n := DaysFromCivil(d);
    assert n == 365 * p + leaps - 719_162 + DaysBeforeMonth(y, m) + d.day - 1;
    var sakamoto: int;
    if m < 3 {
      sakamoto := p + leaps + MonthKey(m) + d.day + 6;
    } else {
      LeapCountStep(y);
      sakamoto := y + leaps + leap + MonthKey(m) + d.day + 6;
    }
    assert sakamoto % 7 == WeekdayOfDate(d);
    assert n + 3 == sakamoto + 7 * (52 * p - 102_738 + q);
    ModSevenShift(sakamoto, 52 * p - 102_738 + q);
  }

  /** The epoch-based weekday of an instant agrees with the calendar rule
      applied to its UTC date. */
  lemma DayOfWeekAgreesWithCalendar(ms: int)
    ensures DayOfWeek(ms) == WeekdayOfDate(UtcOf(ms).date)
  {
    var d := CivilFromDays(ms / MillisPerDay);
    WeekdayOfDaysFromCivil(d);
  }
}
