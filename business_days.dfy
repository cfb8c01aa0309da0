/**
 * The business-day calendar of the order manager (assets/js/app.js, lines
 * 9-46): `YYYY-MM-DD` strings from the date inputs become local dates, and
 * the business days of the inclusive range between two dates are counted,
 * skipping Saturdays, Sundays and the days an optional holiday predicate flags.
 */
module BusinessDays {
  import opened Wrappers
  import opened JsString
  import opened JsDate
  import Holidays

  /** What a date input holds when it is not empty: at least three '-'-separated fields of digits. */
  predicate IsDateInput(value: string) {
    var parts := Split(value, '-');
    |parts| >= 3 && IsDigits(parts[0]) && IsDigits(parts[1]) && IsDigits(parts[2])
  }

  /** `toDate(value)`: null for an empty input, otherwise `new Date(y, m - 1, d)` of its first three fields. */
  function ToDate(value: string): (r: Option<Date>)
    requires value == "" || IsDateInput(value)
    ensures r.None? <==> value == ""
  {
    if value == "" then None
    else
      var parts := Split(value, '-');
      Some(NewDate(Number(parts[0]), Number(parts[1]) - 1, Number(parts[2])))
  }

  /** `toISODateString(date)` of app.js: the year, then the 1-based month and the day zero-padded to two digits. */
  function ToIsoDateString(date: Date): (r: string)
    ensures r == IntToString(date.GetFullYear()) + "-" + TwoDigits(date.GetMonth() + 1)
      + "-" + TwoDigits(date.GetDate())
  {
    var y := date.GetFullYear();
    var m := PadStart(IntToString(date.GetMonth() + 1), 2, '0');
    var d := PadStart(IntToString(date.GetDate()), 2, '0');
    PadStartTwoDigits(date.GetMonth() + 1);
    PadStartTwoDigits(date.GetDate());
    IntToString(y) + "-" + m + "-" + d
  }

  /** app.js and holidays-br.js format a date the same way. */
  lemma IsoFormatsAgree(date: Date)
    ensures ToIsoDateString(date) == Holidays.ToIsoDateString(date)
  {
  }

  lemma DigitsHaveNoDash(s: string)
    requires IsDigits(s)
    ensures '-' !in s
  {
    assert forall i :: 0 <= i < |s| ==> s[i] != '-';
  }

  /** Three digit fields joined by dashes parse field by field. */
  lemma ToDateOfFields(ys: string, ms: string, ds: string)
    requires IsDigits(ys) && IsDigits(ms) && IsDigits(ds)
    ensures var s := ys + "-" + ms + "-" + ds;
      IsDateInput(s) && ToDate(s) == Some(NewDate(Number(ys), Number(ms) - 1, Number(ds)))
  {
    DigitsHaveNoDash(ys);
    DigitsHaveNoDash(ms);
    DigitsHaveNoDash(ds);
    SplitNoSeparator(ds, '-');
    SplitAtFirst(ms, '-', ds);
    SplitAtFirst(ys, '-', ms + "-" + ds);
    var s := ys + "-" + ms + "-" + ds;
    assert s == ys + ['-'] + (ms + ['-'] + ds);
    assert Split(s, '-') == [ys, ms, ds];
    assert s[|ys|] == '-';
  }

  /**
   * A `YYYY-MM-DD` string of a real calendar day whose year has no leading zero
   * and at least three digits formats back to itself. (Years 0..99 are remapped
   * by `new Date`, and the year is never zero-padded on output.)
   */
  predicate IsIsoFields(ys: string, ms: string, ds: string) {
    && IsDigits(ys) && 3 <= |ys| && ys[0] != '0'
    && IsDigits(ms) && |ms| == 2 && IsDigits(ds) && |ds| == 2
    && ValidCivil(Number(ys), Number(ms), Number(ds))
  }

  lemma ParseFormat(ys: string, ms: string, ds: string)
    requires IsIsoFields(ys, ms, ds)
    ensures var s := ys + "-" + ms + "-" + ds;
      IsDateInput(s) && ToDate(s).Some? && ToIsoDateString(ToDate(s).value) == s
  {
    ToDateOfFields(ys, ms, ds);
    var y, m, d := Number(ys), Number(ms), Number(ds);
    NatToStringOfNumber(ys);
    assert y >= 100;
    TwoDigitsOfNumber(ms);
    TwoDigitsOfNumber(ds);
    var date := NewDate(y, m - 1, d);
    assert date.GetFullYear() == y && date.GetMonth() == m - 1 && date.GetDate() == d;
  }

  /** Formatting a date whose year has three or more digits and parsing the string gives the date back. */
  lemma FormatParse(date: Date)
    requires date.GetFullYear() >= 100
    ensures var s := ToIsoDateString(date); IsDateInput(s) && ToDate(s) == Some(date)
  {
    ParseOfFormat(date);
    RebuildFromFields(date);
  }

  /** The formatted string of a date parses into `new Date` of the date's own fields. */
  lemma ParseOfFormat(date: Date)
    requires date.GetFullYear() >= 0
    ensures var s := ToIsoDateString(date);
      IsDateInput(s) && ToDate(s) == Some(NewDate(date.GetFullYear(), date.GetMonth(), date.GetDate()))
  {
    var y, m, d := date.GetFullYear(), date.GetMonth() + 1, date.GetDate();
    NumberOfNatToString(y);
    NumberOfTwoDigits(m);
    NumberOfTwoDigits(d);
    var ys, ms, ds := IntToString(y), TwoDigits(m), TwoDigits(d);
    assert ToIsoDateString(date) == ys + "-" + ms + "-" + ds;
    ToDateOfFields(ys, ms, ds);
    assert Number(ys) == y && Number(ms) == m && Number(ds) == d;
  }

  /** `new Date(y, m, d)` of a date's own fields, for a year from 100 on, is that date. */
  lemma RebuildFromFields(date: Date)
    requires date.GetFullYear() >= 100
    ensures NewDate(date.GetFullYear(), date.GetMonth(), date.GetDate()) == date
  {
    var y, m, d := date.GetFullYear(), date.GetMonth() + 1, date.GetDate();
    var rebuilt := NewDate(y, m - 1, d);
    assert FullYear(y) == y && ValidCivil(y, m, d);
    SameFieldsSameDate(rebuilt, date);
  }

  /** Two dates with the same year, month and day are the same date. */
  lemma SameFieldsSameDate(a: Date, b: Date)
    requires a.GetFullYear() == b.GetFullYear() && a.GetMonth() == b.GetMonth() && a.GetDate() == b.GetDate()
    ensures a == b
  {
  }

  /** The day `numDays` calendar days after `date` (before it when negative), moved with `setDate`. */
  function DaysAfter(date: Date, numDays: int): (r: Date)
    ensures r.time == date.time + numDays
  {
    date.SetDate(date.GetDate() + numDays)
  }

  /** `addDays(date, numDays)`: copies the date and moves the copy; the argument is left as it was. */
  method AddDays(date: DateObject, numDays: int) returns (d: DateObject)
    ensures fresh(d)
    ensures d.Value() == DaysAfter(date.Value(), numDays)
    ensures d.time == date.time + numDays
    ensures unchanged(date)
  {
    d := new DateObject(date.Value());
    d.SetDate(d.Value().GetDate() + numDays);
  }

  /** Moving within a month keeps the year and month and shifts the day of the month. */
  lemma DaysAfterWithinMonth(date: Date, numDays: int)
    requires 1 <= date.GetDate() + numDays <= DaysInMonth(date.GetFullYear(), date.GetMonth() + 1)
    ensures var r := DaysAfter(date, numDays);
      r.GetFullYear() == date.GetFullYear() && r.GetMonth() == date.GetMonth()
      && r.GetDate() == date.GetDate() + numDays
  {
    var y, m, d := date.GetFullYear(), date.GetMonth() + 1, date.GetDate();
    assert DaysFromCivil(y, m, d + numDays) == date.time + numDays;
    CivilRoundTrip(y, m, d + numDays);
    assert DaysAfter(date, numDays) == Date(DaysFromCivil(y, m, d + numDays));
  }

  lemma DaysAfterCompose(date: Date, a: int, b: int)
    ensures DaysAfter(DaysAfter(date, a), b) == DaysAfter(date, a + b)
  {
  }

  lemma DaysAfterWeekday(date: Date, numDays: int)
    ensures DaysAfter(date, numDays).GetDay() == (date.GetDay() + numDays) % 7
  {
    ModAdd(date.time + 4, numDays);
  }

  lemma ModAdd(a: int, n: int)
    ensures (a + n) % 7 == (a % 7 + n) % 7
  {
    var q := a / 7;
    assert a + n == 7 * q + (a % 7 + n);
    ModMultiple(a % 7 + n, q);
  }

  lemma ModMultiple(x: int, k: int)
    ensures (7 * k + x) % 7 == x % 7
  {
    var q, r := x / 7, x % 7;
    assert 7 * k + x == 7 * (k + q) + r;
  }

  /** `isWeekend(date)`: Sunday or Saturday; 1970-01-03 (day 2) was a Saturday. */
  function IsWeekend(date: Date): (r: bool)
    ensures r <==> date.time % 7 == 2 || date.time % 7 == 3
  {
    var day := date.GetDay();
    day == 0 || day == 6
  }

  /** Weekends recur every seven days. */
  lemma WeekendRecursWeekly(date: Date, weeks: int)
    ensures IsWeekend(DaysAfter(date, 7 * weeks)) == IsWeekend(date)
  {
    ModMultiple(date.time, weeks);
  }

  /** A day the loop counts: not a weekend, and not flagged by the holiday predicate when there is one. */
  predicate IsBusinessDay(date: Date, isHoliday: Option<Date -> bool>) {
    !IsWeekend(date) && !(isHoliday.Some? && isHoliday.value(date))
  }

  /** The business days among day numbers lo..hi, both included. */
  function BusinessDaySet(lo: int, hi: int, isHoliday: Option<Date -> bool>): set<int> {
    set t | lo <= t <= hi && IsBusinessDay(Date(t), isHoliday)
  }

  /** What `countBusinessDays(start, end)` returns: 0 without both dates, else the business days between them. */
  function BusinessDaysBetween(start: Option<Date>, end: Option<Date>, isHoliday: Option<Date -> bool>): nat {
    if start.None? || end.None? then 0
    else
      var a, b := start.value.time, end.value.time;
      if a <= b then |BusinessDaySet(a, b, isHoliday)| else |BusinessDaySet(b, a, isHoliday)|
  }

  lemma EmptyRange(lo: int, isHoliday: Option<Date -> bool>)
    ensures BusinessDaySet(lo, lo - 1, isHoliday) == {}
  {
  }

  /** Extending the range by one day adds that day exactly when it is a business day. */
  lemma SetStep(lo: int, hi: int, isHoliday: Option<Date -> bool>)
    requires lo <= hi + 1
    ensures hi + 1 !in BusinessDaySet(lo, hi, isHoliday)
    ensures BusinessDaySet(lo, hi + 1, isHoliday)
      == BusinessDaySet(lo, hi, isHoliday) + (if IsBusinessDay(Date(hi + 1), isHoliday) then {hi + 1} else {})
  {
    var s, s' := BusinessDaySet(lo, hi, isHoliday), BusinessDaySet(lo, hi + 1, isHoliday);
    if IsBusinessDay(Date(hi + 1), isHoliday) {
      assert s' == s + {hi + 1};
    } else {
      assert s' == s;
    }
  }

  lemma CountStep(lo: int, hi: int, isHoliday: Option<Date -> bool>)
    requires lo <= hi + 1
    ensures |BusinessDaySet(lo, hi + 1, isHoliday)|
      == |BusinessDaySet(lo, hi, isHoliday)| + (if IsBusinessDay(Date(hi + 1), isHoliday) then 1 else 0)
  {
    SetStep(lo, hi, isHoliday);
  }

  /** The loop's step on one day: the count over lo..day grows by one exactly when the day is a business day. */
  lemma CountDay(lo: int, day: Date, isHoliday: Option<Date -> bool>)
    requires lo <= day.time
    ensures |BusinessDaySet(lo, day.time, isHoliday)|
      == |BusinessDaySet(lo, day.time - 1, isHoliday)| + (if IsBusinessDay(day, isHoliday) then 1 else 0)
  {
    CountStep(lo, day.time - 1, isHoliday);
    assert Date(day.time) == day;
  }

  /** `countBusinessDays(start, end)`: walks from the earlier date to the later one, counting business days. */
  method CountBusinessDays(start: Option<Date>, end: Option<Date>, isHoliday: Option<Date -> bool>)
    returns (count: nat)
    ensures count == BusinessDaysBetween(start, end, isHoliday)
  {
    if start.None? || end.None? {
      return 0;
    }
    var forward := start.value.time <= end.value.time;
    var d0 := if forward then start.value else end.value;
    var d1 := if forward then end.value else start.value;
    count := 0;
    var d := new DateObject(d0);
    EmptyRange(d0.time, isHoliday);
    while d.time <= d1.time
      invariant d0.time <= d.time <= d1.time + 1
      invariant count == |BusinessDaySet(d0.time, d.time - 1, isHoliday)|
      decreases d1.time - d.time
    {
      var day := d.Value();
      CountDay(d0.time, day, isHoliday);
      if IsWeekend(day) {
      } else if isHoliday.Some? && isHoliday.value(day) {
      } else {
        count := count + 1;
      }
      assert count == |BusinessDaySet(d0.time, day.time, isHoliday)|;
      d := AddDays(d, 1);
      assert d.time - 1 == day.time;
    }
    assert count == |BusinessDaySet(d0.time, d1.time, isHoliday)|;
  }

  /** The count does not depend on the order of the endpoints. */
  lemma CountSymmetric(a: Option<Date>, b: Option<Date>, isHoliday: Option<Date -> bool>)
    ensures BusinessDaysBetween(a, b, isHoliday) == BusinessDaysBetween(b, a, isHoliday)
  {
  }

  lemma {:induction false} SetSize(lo: int, hi: int, isHoliday: Option<Date -> bool>)
    requires lo <= hi + 1
    ensures |BusinessDaySet(lo, hi, isHoliday)| <= hi - lo + 1
    decreases hi - lo
  {
    if lo <= hi {
      SetSize(lo, hi - 1, isHoliday);
      CountStep(lo, hi - 1, isHoliday);
    } else {
      EmptyRange(lo, isHoliday);
    }
  }

  /** The count is at most the number of days in the inclusive range, and 0 without both dates. */
  lemma CountBounds(a: Option<Date>, b: Option<Date>, isHoliday: Option<Date -> bool>)
    ensures a.None? || b.None? ==> BusinessDaysBetween(a, b, isHoliday) == 0
    ensures a.Some? && b.Some? ==>
      var diff := a.value.time - b.value.time;
      BusinessDaysBetween(a, b, isHoliday) <= (if diff < 0 then -diff else diff) + 1
  {
    if a.Some? && b.Some? {
      var x, y := a.value.time, b.value.time;
      if x <= y {
        SetSize(x, y, isHoliday);
      } else {
        SetSize(y, x, isHoliday);
      }
    }
  }

  /** A one-day range counts 1 exactly when that day is a business day. */
  lemma CountSingleDay(date: Date, isHoliday: Option<Date -> bool>)
    ensures BusinessDaysBetween(Some(date), Some(date), isHoliday)
      == if !IsWeekend(date) && !(isHoliday.Some? && isHoliday.value(date)) then 1 else 0
  {
    EmptyRange(date.time, isHoliday);
    CountStep(date.time, date.time - 1, isHoliday);
  }

  /** Counting over adjacent ranges adds up. */
  lemma {:induction false} CountSplit(lo: int, mid: int, hi: int, isHoliday: Option<Date -> bool>)
    requires lo <= mid + 1 && mid <= hi
    ensures |BusinessDaySet(lo, hi, isHoliday)|
      == |BusinessDaySet(lo, mid, isHoliday)| + |BusinessDaySet(mid + 1, hi, isHoliday)|
    decreases hi - mid
  {
    if mid == hi {
      EmptyRange(hi + 1, isHoliday);
    } else {
      CountSplit(lo, mid, hi - 1, isHoliday);
      CountStep(lo, hi - 1, isHoliday);
      CountStep(mid + 1, hi - 1, isHoliday);
    }
  }

  /** Without holidays, any seven consecutive days hold exactly five business days. */
  lemma FullWeek(lo: int)
    ensures |BusinessDaySet(lo, lo + 6, None)| == 5
  {
    WeekPrefix(lo, 7);
    var r := lo % 7;
    assert r == 0 || r == 1 || r == 2 || r == 3 || r == 4 || r == 5 || r == 6;
  }

  lemma {:induction false} WeekPrefix(lo: int, k: nat)
    ensures |BusinessDaySet(lo, lo + k - 1, None)| == WeekdaysBefore(lo % 7, k)
  {
    if k == 0 {
      EmptyRange(lo, None);
    } else {
      WeekPrefix(lo, k - 1);
      CountStep(lo, lo + k - 2, None);
      ModAdd(lo, k - 1);
    }
  }

  /** How many of the residues r, r + 1, ..., r + k - 1 (mod 7) are not weekend residues. */
  function WeekdaysBefore(r: int, k: nat): int {
    if k == 0 then 0
    else WeekdaysBefore(r, k - 1) + (if (r + k - 1) % 7 == 2 || (r + k - 1) % 7 == 3 then 0 else 1)
  }

  /** The weekday holidays of a range. */
  function HolidayWeekdays(lo: int, hi: int, isHoliday: Date -> bool): set<int> {
    set t | lo <= t <= hi && !IsWeekend(Date(t)) && isHoliday(Date(t))
  }

  /**
   * A holiday only removes a day that would otherwise count: a holiday falling on a
   * weekend is not subtracted a second time.
   */
  lemma HolidaysRemoveOnlyWeekdays(lo: int, hi: int, isHoliday: Date -> bool)
    ensures BusinessDaySet(lo, hi, Some(isHoliday)) == BusinessDaySet(lo, hi, None) - HolidayWeekdays(lo, hi, isHoliday)
    ensures |BusinessDaySet(lo, hi, None)|
      == |BusinessDaySet(lo, hi, Some(isHoliday))| + |HolidayWeekdays(lo, hi, isHoliday)|
  {
    var all, kept, removed := BusinessDaySet(lo, hi, None), BusinessDaySet(lo, hi, Some(isHoliday)),
      HolidayWeekdays(lo, hi, isHoliday);
    assert all == kept + removed;
    assert kept * removed == {};
  }
}
