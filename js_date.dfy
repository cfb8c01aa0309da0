/**
 * The local-calendar part of JavaScript's `Date`: a date is its time value
 * counted in whole days from 1970-01-01 (local midnight), and the getters
 * and setters convert between that day number and the proleptic Gregorian
 * calendar.
 */
module JsDate {

  predicate IsLeapYear(y: int) {
    y % 4 == 0 && (y % 100 != 0 || y % 400 == 0)
  }

  function YearLength(y: int): int {
    if IsLeapYear(y) then 366 else 365
  }

  function DaysInMonth(y: int, m: int): (n: int)
    requires 1 <= m <= 12
    ensures 28 <= n <= 31
  {
    if m == 2 then (if IsLeapYear(y) then 29 else 28)
    else if m == 4 || m == 6 || m == 9 || m == 11 then 30
    else 31
  }

  /** Days of year `y` before the first of month `m` (1-based; 13 is the year's end). */
  function DaysBeforeMonth(y: int, m: int): int
    requires 1 <= m <= 13
  {
    [0, 31, 59, 90, 120, 151, 181, 212, 243, 273, 304, 334, 365][m - 1]
    + (if m > 2 && IsLeapYear(y) then 1 else 0)
  }

  lemma MonthStep(y: int, m: int)
    requires 1 <= m <= 12
    ensures DaysBeforeMonth(y, m + 1) == DaysBeforeMonth(y, m) + DaysInMonth(y, m)
    ensures DaysBeforeMonth(y, 1) == 0 && DaysBeforeMonth(y, 13) == YearLength(y)
  {
  }

  lemma {:induction false} DaysBeforeMonthMonotone(y: int, a: int, b: int)
    requires 1 <= a < b <= 13
    ensures DaysBeforeMonth(y, a) + DaysInMonth(y, a) <= DaysBeforeMonth(y, b)
    decreases b - a
  {
    MonthStep(y, a);
    if a + 1 < b {
      DaysBeforeMonthMonotone(y, a + 1, b);
    }
  }

  /** The Gregorian leap years among 1..n, extended to all n by floor division. */
  function LeapYearsThrough(n: int): int {
    n / 4 - n / 100 + n / 400
  }

  /** Day number of January 1 of year `y`. */
  function DaysBeforeYear(y: int): int {
    365 * (y - 1970) + LeapYearsThrough(y - 1) - LeapYearsThrough(1969)
  }

  lemma DivStep(n: int, k: int)
    requires k == 4 || k == 100 || k == 400
    ensures n / k - (n - 1) / k == if n % k == 0 then 1 else 0
  {
  }

  lemma MultipleOf(y: int, k: int, j: int)
    requires (k == 400 && j == 100) || (k == 100 && j == 4)
    requires y % k == 0
    ensures y % j == 0
  {
    var q := y / k;
    assert y == j * ((k / j) * q);
  }

  /** Exactly the leap years add one to the running leap-year count. */
  lemma LeapStep(y: int)
    ensures LeapYearsThrough(y) - LeapYearsThrough(y - 1) == if IsLeapYear(y) then 1 else 0
  {
    DivStep(y, 4);
    DivStep(y, 100);
    DivStep(y, 400);
    if y % 400 == 0 {
      MultipleOf(y, 400, 100);
      MultipleOf(y, 100, 4);
    } else if y % 100 == 0 {
      MultipleOf(y, 100, 4);
    }
  }

  lemma DaysBeforeNextYear(y: int)
    ensures DaysBeforeYear(y + 1) == DaysBeforeYear(y) + YearLength(y)
  {
    LeapStep(y);
  }

  lemma {:induction false} DaysBeforeYearMonotone(a: int, b: int)
    requires a < b
    ensures DaysBeforeYear(a + 1) <= DaysBeforeYear(b)
    decreases b - a
  {
    if a + 1 < b {
      DaysBeforeNextYear(a + 1);
      DaysBeforeYearMonotone(a + 1, b);
    }
  }

  /** Day number of the civil date y-m-d; `d` may overflow the month, as in JavaScript. */
  function DaysFromCivil(y: int, m: int, d: int): int
    requires 1 <= m <= 12
  {
    DaysBeforeYear(y) + DaysBeforeMonth(y, m) + d - 1
  }

  predicate ValidCivil(y: int, m: int, d: int) {
    1 <= m <= 12 && 1 <= d <= DaysInMonth(y, m)
  }

  function YearUp(y: int, t: int): (r: int)
    requires DaysBeforeYear(y) <= t
    ensures DaysBeforeYear(r) <= t < DaysBeforeYear(r + 1)
    decreases t - DaysBeforeYear(y)
  {
    DaysBeforeNextYear(y);
    if t < DaysBeforeYear(y + 1) then y else YearUp(y + 1, t)
  }

  function YearDown(y: int, t: int): (r: int)
    requires t < DaysBeforeYear(y + 1)
    ensures DaysBeforeYear(r) <= t < DaysBeforeYear(r + 1)
    decreases DaysBeforeYear(y + 1) - t
  {
    DaysBeforeNextYear(y);
    if DaysBeforeYear(y) <= t then y else YearDown(y - 1, t)
  }

  /** The year whose days contain day number `t`. */
  function YearOf(t: int): (r: int)
    ensures DaysBeforeYear(r) <= t < DaysBeforeYear(r + 1)
  {
    if t >= 0 then YearUp(1970, t) else YearDown(1969, t)
  }

  /** The month (1-based, from `m` on) of year `y` containing day `offset` of the year. */
  function MonthFrom(y: int, offset: int, m: int): (r: int)
    requires 1 <= m <= 12 && DaysBeforeMonth(y, m) <= offset < YearLength(y)
    ensures m <= r <= 12 && DaysBeforeMonth(y, r) <= offset < DaysBeforeMonth(y, r + 1)
    decreases 12 - m
  {
    if offset < DaysBeforeMonth(y, m + 1) then m else MonthFrom(y, offset, m + 1)
  }

  /** A `Date` object reduced to its time value, in whole local days since 1970-01-01. */
  datatype Date = Date(time: int) {

    /** `getFullYear()`: the year whose days contain this one. */
    function GetFullYear(): (r: int)
      ensures DaysBeforeYear(r) <= time < DaysBeforeYear(r + 1)
    {
      YearOf(time)
    }

    /** `getMonth()`: 0 for January up to 11 for December. */
    function GetMonth(): (r: int)
      ensures 0 <= r < 12
    {
      var y := YearOf(time);
      DaysBeforeNextYear(y);
      MonthFrom(y, time - DaysBeforeYear(y), 1) - 1
    }

    /** `getDate()`: the day of the month; with year and month it names this very day. */
    function GetDate(): (r: int)
      ensures 1 <= r <= DaysInMonth(GetFullYear(), GetMonth() + 1)
      ensures DaysFromCivil(GetFullYear(), GetMonth() + 1, r) == time
    {
      var y := YearOf(time);
      var m := GetMonth() + 1;
      MonthStep(y, m);
      time - DaysBeforeYear(y) - DaysBeforeMonth(y, m) + 1
    }

    /** `getDay()`: 0 for Sunday up to 6 for Saturday; 1970-01-01 was a Thursday. */
    function GetDay(): (r: int)
      ensures 0 <= r < 7
    {
      (time + 4) % 7
    }

    /** `setDate(dayOfMonth)`: the same year and month, day overflow carried into the time value. */
    function SetDate(dayOfMonth: int): (r: Date)
      ensures r.time == time + dayOfMonth - GetDate()
    {
      Date(DaysFromCivil(GetFullYear(), GetMonth() + 1, 1) + dayOfMonth - 1)
    }
  }

  /** A JavaScript `Date` object, whose `setDate` changes it in place. */
  class DateObject {
    var time: int

    /** `new Date(date)`: a fresh object holding the same day. */
    constructor (date: Date)
      ensures Value() == date
    {
      time := date.time;
    }

    function Value(): Date
      reads this
    {
      Date(time)
    }

    /** `d.setDate(dayOfMonth)` on the object itself. */
    method SetDate(dayOfMonth: int)
      modifies this
      ensures Value() == old(Value()).SetDate(dayOfMonth)
    {
      time := Value().SetDate(dayOfMonth).time;
    }
  }

  lemma YearUnique(y: int, z: int, t: int)
    requires DaysBeforeYear(y) <= t < DaysBeforeYear(y + 1)
    requires DaysBeforeYear(z) <= t < DaysBeforeYear(z + 1)
    ensures y == z
  {
    if y < z {
      DaysBeforeYearMonotone(y, z);
    } else if z < y {
      DaysBeforeYearMonotone(z, y);
    }
  }

  lemma MonthUnique(y: int, m: int, n: int, offset: int)
    requires 1 <= m <= 12 && 1 <= n <= 12
    requires DaysBeforeMonth(y, m) <= offset < DaysBeforeMonth(y, m + 1)
    requires DaysBeforeMonth(y, n) <= offset < DaysBeforeMonth(y, n + 1)
    ensures m == n
  {
    MonthStep(y, m);
    MonthStep(y, n);
    if m < n {
      DaysBeforeMonthMonotone(y, m, n);
    } else if n < m {
      DaysBeforeMonthMonotone(y, n, m);
    }
  }

  /** The getters read back the civil date a day number was built from. */
  lemma CivilRoundTrip(y: int, m: int, d: int)
    requires ValidCivil(y, m, d)
    ensures var date := Date(DaysFromCivil(y, m, d));
      date.GetFullYear() == y && date.GetMonth() == m - 1 && date.GetDate() == d
  {
    var t := DaysFromCivil(y, m, d);
    MonthStep(y, m);
    DaysBeforeMonthMonotone(y, m, 13);
    DaysBeforeNextYear(y);
    YearUnique(y, YearOf(t), t);
    var date := Date(t);
    var offset := t - DaysBeforeYear(y);
    MonthStep(y, date.GetMonth() + 1);
    MonthUnique(y, m, date.GetMonth() + 1, offset);
  }

  /**
   * `new Date(year, monthIndex, day)` in local time: a year 0..99 means 1900..1999,
   * a month index outside 0..11 carries into the year and a day outside the month
   * carries into the time value.
   */
  function NewDate(year: int, monthIndex: int, day: int): (r: Date)
    ensures 0 <= monthIndex < 12 && ValidCivil(FullYear(year), monthIndex + 1, day) ==>
      r.GetFullYear() == FullYear(year) && r.GetMonth() == monthIndex && r.GetDate() == day
  {
    var y := FullYear(year);
    var r := Date(DaysFromCivil(y + monthIndex / 12, monthIndex % 12 + 1, 1) + day - 1);
    NewDateInRange(y, monthIndex, day);
    r
  }

  /** The year `new Date` uses: 0..99 stand for 1900..1999. */
  function FullYear(year: int): (y: int)
    ensures 100 <= year ==> y == year
    ensures 0 <= year <= 99 ==> y == 1900 + year
  {
    if 0 <= year <= 99 then 1900 + year else year
  }

  lemma NewDateInRange(y: int, monthIndex: int, day: int)
    ensures 0 <= monthIndex < 12 && ValidCivil(y, monthIndex + 1, day) ==>
      var date := Date(DaysFromCivil(y + monthIndex / 12, monthIndex % 12 + 1, 1) + day - 1);
      date.GetFullYear() == y && date.GetMonth() == monthIndex && date.GetDate() == day
  {
    if 0 <= monthIndex < 12 && ValidCivil(y, monthIndex + 1, day) {
      assert monthIndex / 12 == 0 && monthIndex % 12 == monthIndex;
      assert DaysFromCivil(y, monthIndex + 1, 1) + day - 1 == DaysFromCivil(y, monthIndex + 1, day);
      CivilRoundTrip(y, monthIndex + 1, day);
    }
  }
}
