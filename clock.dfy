/** Naive `datetime` values at whole-second resolution, the proleptic
    Gregorian calendar of Python's `datetime` module, and the conversion
    between a datetime and the number of seconds since 0001-01-01 00:00:00.
    Adding a `timedelta` to a datetime is adding seconds to that number. */
module Clock {

  datatype DateTime = DateTime(year: int, month: int, day: int, hour: int, minute: int, second: int)

  predicate IsLeap(y: int) {
    y % 4 == 0 && (y % 100 != 0 || y % 400 == 0)
  }

  /** The length of a year, leap or not. */
  function YearLength(leap: bool): nat {
    if leap then 366 else 365
  }

  function DaysInYear(y: int): nat {
    YearLength(IsLeap(y))
  }

  /** The length of month `m` in a leap year or a common one. */
  function DaysInMonth(leap: bool, m: int): (r: nat)
    ensures 28 <= r <= 31
  {
    if m == 2 then (if leap then 29 else 28)
    else if m == 4 || m == 6 || m == 9 || m == 11 then 30
    else 31
  }

  /** The values `datetime(year, month, day, hour, minute, second)` accepts. */
  predicate Valid(d: DateTime) {
    && 1 <= d.year <= 9999
    && 1 <= d.month <= 12
    && 1 <= d.day <= DaysInMonth(IsLeap(d.year), d.month)
    && 0 <= d.hour < 24
    && 0 <= d.minute < 60
    && 0 <= d.second < 60
  }

  /** Python's `a < b` on datetimes: comparison of the field tuples. */
  predicate Before(a: DateTime, b: DateTime) {
    if a.year != b.year then a.year < b.year
    else if a.month != b.month then a.month < b.month
    else if a.day != b.day then a.day < b.day
    else if a.hour != b.hour then a.hour < b.hour
    else if a.minute != b.minute then a.minute < b.minute
    else a.second < b.second
  }

  predicate NotAfter(a: DateTime, b: DateTime) {
    a == b || Before(a, b)
  }

  /** Days from 0001-01-01 to January 1st of year `y`. */
  function DaysBeforeYear(y: int): nat
    requires y >= 1
    decreases y
  {
    if y == 1 then 0 else DaysBeforeYear(y - 1) + DaysInYear(y - 1)
  }

  /** Days from January 1st to the first day of month `m` (`m == 13`
      stands for the next January 1st), in a leap year or a common one. */
  function DaysBeforeMonth(leap: bool, m: int): nat
    requires 1 <= m <= 13
  {
    CommonYearDaysBefore[m - 1] + if leap && m > 2 then 1 else 0
  }

  /** `DaysBeforeMonth` of a common year, month by month. */
  const CommonYearDaysBefore: seq<nat> := [0, 31, 59, 90, 120, 151, 181, 212, 243, 273, 304, 334, 365]

  /** The day count of a valid date: days since 0001-01-01. */
  function DayNumber(d: DateTime): nat
    requires Valid(d)
  {
    DaysBeforeYear(d.year) + DaysBeforeMonth(IsLeap(d.year), d.month) + d.day - 1
  }

  /** Seconds from 0001-01-01 00:00:00 to `d`. */
  function ToSeconds(d: DateTime): nat
    requires Valid(d)
  {
    DayNumber(d) * 86400 + d.hour * 3600 + d.minute * 60 + d.second
  }

  /** The first second that no valid datetime reaches (10000-01-01). */
  function EndOfTime(): nat {
    DaysBeforeYear(10000) * 86400
  }

  /** The month and day of the `n`-th day (from 0) of a year, counting
      from month `m`. */
  function MonthAndDay(leap: bool, m: int, n: nat): (int, int)
    requires 1 <= m <= 12
    requires DaysBeforeMonth(leap, m) + n < YearLength(leap)
    decreases 12 - m
  {
    if n < DaysInMonth(leap, m) then (m, n + 1)
    else
      MonthStep(leap, m);
      MonthAndDay(leap, m + 1, n - DaysInMonth(leap, m))
  }

  /** The calendar date of the `n`-th day (from 0) counted from January 1st of year `y`. */
  function CivilDate(n: nat, y: int): (int, int, int)
    requires y >= 1
    decreases n
  {
    if n < DaysInYear(y) then
      var (m, d) := MonthAndDay(IsLeap(y), 1, n);
      (y, m, d)
    else CivilDate(n - DaysInYear(y), y + 1)
  }

  /** The datetime `t` seconds after 0001-01-01 00:00:00. */
  function FromSeconds(t: nat): DateTime {
    var (y, m, d) := CivilDate(t / 86400, 1);
    var s := t % 86400;
    DateTime(y, m, d, s / 3600, s % 3600 / 60, s % 60)
  }

  // ---------------------------------------------------------------------
  // Calendar arithmetic

  lemma MonthsFillYear(leap: bool)
    ensures DaysBeforeMonth(leap, 13) == YearLength(leap)
  {
  }

  /** Each month starts where the one before it ends. */
  lemma MonthStep(leap: bool, m: int)
    requires 1 <= m <= 12
    ensures DaysBeforeMonth(leap, m + 1) == DaysBeforeMonth(leap, m) + DaysInMonth(leap, m)
  {
  }

  lemma {:induction false} DaysBeforeMonthMonotone(leap: bool, a: int, b: int)
    requires 1 <= a <= b <= 13
    ensures DaysBeforeMonth(leap, a) <= DaysBeforeMonth(leap, b)
    decreases b - a
  {
    if a < b {
      DaysBeforeMonthMonotone(leap, a, b - 1);
      MonthStep(leap, b - 1);
    }
  }

  lemma {:induction false} DaysBeforeYearMonotone(a: int, b: int)
    requires 1 <= a <= b
    ensures DaysBeforeYear(a) <= DaysBeforeYear(b)
    decreases b - a
  {
    if a < b {
      DaysBeforeYearMonotone(a, b - 1);
    }
  }

  lemma DayInsideYear(leap: bool, m: int, day: int)
    requires 1 <= m <= 12 && 1 <= day <= DaysInMonth(leap, m)
    ensures DaysBeforeMonth(leap, m) + day - 1 < YearLength(leap)
  {
    DaysBeforeMonthMonotone(leap, m + 1, 13);
    MonthsFillYear(leap);
  }

  /** The day of a valid date lies inside its year. */
  lemma DayOfYearBound(d: DateTime)
    requires Valid(d)
    ensures DaysBeforeMonth(IsLeap(d.year), d.month) + d.day - 1 < DaysInYear(d.year)
  {
    DayInsideYear(IsLeap(d.year), d.month, d.day);
  }

  lemma {:induction false} MonthAndDayOf(leap: bool, m0: int, m: int, day: int)
    requires 1 <= m0 <= m <= 12 && 1 <= day <= DaysInMonth(leap, m)
    ensures DaysBeforeMonth(leap, m0) <= DaysBeforeMonth(leap, m)
    ensures DaysBeforeMonth(leap, m) + day - 1 < YearLength(leap)
    ensures MonthAndDay(leap, m0, DaysBeforeMonth(leap, m) - DaysBeforeMonth(leap, m0) + day - 1) == (m, day)
    decreases m - m0
  {
    DaysBeforeMonthMonotone(leap, m0, m);
    DayInsideYear(leap, m, day);
    var n := DaysBeforeMonth(leap, m) - DaysBeforeMonth(leap, m0) + day - 1;
    if m0 < m {
      var dim := DaysInMonth(leap, m0);
      MonthStep(leap, m0);
      DaysBeforeMonthMonotone(leap, m0 + 1, m);
      MonthAndDayOf(leap, m0 + 1, m, day);
      assert n - dim == DaysBeforeMonth(leap, m) - DaysBeforeMonth(leap, m0 + 1) + day - 1;
      MonthAndDayNext(leap, m0, n);
    } else {
      assert n == day - 1;
    }
  }

  lemma MonthAndDayNext(leap: bool, m: int, n: nat)
    requires 1 <= m < 12 && DaysInMonth(leap, m) <= n
    requires DaysBeforeMonth(leap, m) + n < YearLength(leap)
    ensures DaysBeforeMonth(leap, m + 1) + n - DaysInMonth(leap, m) < YearLength(leap)
    ensures MonthAndDay(leap, m, n) == MonthAndDay(leap, m + 1, n - DaysInMonth(leap, m))
  {
    MonthStep(leap, m);
  }

  lemma {:induction false} MonthAndDayValid(leap: bool, m0: int, n: nat)
    requires 1 <= m0 <= 12
    requires DaysBeforeMonth(leap, m0) + n < YearLength(leap)
    ensures var (m, d) := MonthAndDay(leap, m0, n);
      && m0 <= m <= 12 && 1 <= d <= DaysInMonth(leap, m)
      && DaysBeforeMonth(leap, m) + d - 1 == DaysBeforeMonth(leap, m0) + n
    decreases 12 - m0
  {
    if n >= DaysInMonth(leap, m0) {
      MonthStep(leap, m0);
      MonthAndDayValid(leap, m0 + 1, n - DaysInMonth(leap, m0));
    }
  }

  lemma CivilDateOf(y0: int, d: DateTime)
    requires Valid(d) && 1 <= y0 <= d.year
    ensures DaysBeforeYear(y0) <= DaysBeforeYear(d.year)
    ensures CivilDate(DayNumber(d) - DaysBeforeYear(y0), y0) == (d.year, d.month, d.day)
  {
    DayOfYearBound(d);
    var k := DaysBeforeMonth(IsLeap(d.year), d.month) + d.day - 1;
    YearOffset(y0, d.year, k);
    MonthAndDayOf(IsLeap(d.year), 1, d.month, d.day);
    CivilDateSameYear(k, d.year);
  }

  /** Counting from an earlier year `y0` reaches the same date as counting
      from year `y` itself. */
  lemma {:induction false} YearOffset(y0: int, y: int, k: nat)
    requires 1 <= y0 <= y && k < DaysInYear(y)
    ensures DaysBeforeYear(y0) <= DaysBeforeYear(y)
    ensures CivilDate(DaysBeforeYear(y) - DaysBeforeYear(y0) + k, y0) == CivilDate(k, y)
    decreases y - y0
  {
    DaysBeforeYearMonotone(y0, y);
    if y0 < y {
      YearOffset(y0 + 1, y, k);
      var n := DaysBeforeYear(y) - DaysBeforeYear(y0) + k;
      assert DaysBeforeYear(y0 + 1) == DaysBeforeYear(y0) + DaysInYear(y0);
      CivilDateNextYear(n, y0);
    }
  }

  lemma CivilDateSameYear(n: nat, y: int)
    requires y >= 1 && n < DaysInYear(y)
    ensures CivilDate(n, y) == (y, MonthAndDay(IsLeap(y), 1, n).0, MonthAndDay(IsLeap(y), 1, n).1)
  {
  }

  lemma CivilDateNextYear(n: nat, y: int)
    requires y >= 1 && n >= DaysInYear(y)
    ensures CivilDate(n, y) == CivilDate(n - DaysInYear(y), y + 1)
  {
  }

  lemma {:induction false} CivilDateValid(n: nat, y0: int)
    requires y0 >= 1
    ensures var (y, m, d) := CivilDate(n, y0);
      && y >= y0 && 1 <= m <= 12 && 1 <= d <= DaysInMonth(IsLeap(y), m)
      && DaysBeforeYear(y) - DaysBeforeYear(y0) + DaysBeforeMonth(IsLeap(y), m) + d - 1 == n
    decreases n
  {
    var len := DaysInYear(y0);
    if n < len {
      MonthAndDayValid(IsLeap(y0), 1, n);
    } else {
      CivilDateValid(n - len, y0 + 1);
      assert CivilDate(n, y0) == CivilDate(n - len, y0 + 1);
      assert DaysBeforeYear(y0 + 1) == DaysBeforeYear(y0) + len;
    }
  }

  lemma SplitDay(t: nat, days: nat, h: int, mi: int, s: int)
    requires 0 <= h < 24 && 0 <= mi < 60 && 0 <= s < 60
    requires t == days * 86400 + h * 3600 + mi * 60 + s
    ensures t / 86400 == days && t % 86400 == h * 3600 + mi * 60 + s
    ensures (t % 86400) / 3600 == h && (t % 86400) % 3600 / 60 == mi && (t % 86400) % 60 == s
  {
    var r := h * 3600 + mi * 60 + s;
    assert 0 <= r < 86400;
    assert r / 3600 == h;
    assert r % 3600 == mi * 60 + s;
    assert (mi * 60 + s) / 60 == mi;
    assert r % 60 == s;
  }

  // ---------------------------------------------------------------------
  // The two round trips and the order between datetimes and second counts

  /** Every valid datetime is recovered from its second count. */
  lemma DateTimeRoundTrip(d: DateTime)
    requires Valid(d)
    ensures ToSeconds(d) < EndOfTime()
    ensures FromSeconds(ToSeconds(d)) == d
  {
    SplitDay(ToSeconds(d), DayNumber(d), d.hour, d.minute, d.second);
    CivilDateOf(1, d);
    DayOfYearBound(d);
    DaysBeforeYearMonotone(d.year + 1, 10000);
  }

  /** Every second count below year 10000 names a valid datetime, and
      converting it back gives the same count. */
  lemma SecondsRoundTrip(t: nat)
    requires t < EndOfTime()
    ensures Valid(FromSeconds(t))
    ensures ToSeconds(FromSeconds(t)) == t
  {
    var days := t / 86400;
    CivilDateValid(days, 1);
    var (y, m, d) := CivilDate(days, 1);
    if y >= 10000 {
      DaysBeforeYearMonotone(10000, y);
      assert false;
    }
    JoinDay(t);
  }

  /** A second count is its whole days and the hours, minutes and seconds
      of the day left over. */
  lemma JoinDay(t: nat)
    ensures var s := t % 86400;
      && t == t / 86400 * 86400 + s / 3600 * 3600 + s % 3600 / 60 * 60 + s % 60
      && s / 3600 < 24 && s % 3600 / 60 < 60
  {
    var s := t % 86400;
    assert s == s / 3600 * 3600 + s % 3600;
    assert s % 3600 == s % 3600 / 60 * 60 + s % 60 % 60 by {
      var r := s % 3600;
      assert r == r / 60 * 60 + r % 60;
      assert r % 60 == s % 60;
    }
  }

  /** `a < b` on datetimes is `<` on their second counts. */
  lemma BeforeIsEarlier(a: DateTime, b: DateTime)
    requires Valid(a) && Valid(b)
    ensures Before(a, b) <==> ToSeconds(a) < ToSeconds(b)
  {
    if Before(a, b) {
      EarlierWhenBefore(a, b);
    } else if a != b {
      assert Before(b, a);
      EarlierWhenBefore(b, a);
    }
  }

  lemma EarlierWhenBefore(a: DateTime, b: DateTime)
    requires Valid(a) && Valid(b) && Before(a, b)
    ensures ToSeconds(a) < ToSeconds(b)
  {
    if a.year != b.year {
      DayOfYearBound(a);
      DaysBeforeYearMonotone(a.year + 1, b.year);
      assert DayNumber(a) < DayNumber(b);
    } else if a.month != b.month {
      DaysBeforeMonthMonotone(IsLeap(a.year), a.month + 1, b.month);
      assert DayNumber(a) < DayNumber(b);
    }
  }

  /** Distinct valid datetimes have distinct second counts. */
  lemma ToSecondsInjective(a: DateTime, b: DateTime)
    requires Valid(a) && Valid(b) && ToSeconds(a) == ToSeconds(b)
    ensures a == b
  {
    DateTimeRoundTrip(a);
    DateTimeRoundTrip(b);
  }
}
