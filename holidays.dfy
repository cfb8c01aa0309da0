/**
 * Brazil's fixed national holidays (assets/js/holidays-br.js): per year, the
 * set of the eight `YYYY-MM-DD` strings of the holidays whose month and day
 * never change, and the membership test the business-day count uses.
 * Movable holidays (Carnival, Corpus Christi, ...) are not part of it.
 */
module Holidays {
  import opened JsString
  import opened JsDate

  /** `pad2(n)`: `String(n)` left-padded with '0' to two characters. */
  function Pad2(n: int): (r: string)
    ensures |r| >= 2
    ensures 0 <= n < 100 ==> r == TwoDigits(n)
  {
    var r := PadStart(IntToString(n), 2, '0');
    if 0 <= n < 100 then
      PadStartTwoDigits(n);
      r
    else
      r
  }

  /** `toISODateString(date)`: the year, then the 1-based month and the day as two digits each. */
  function ToIsoDateString(date: Date): (r: string)
    ensures r == IntToString(date.GetFullYear()) + "-" + TwoDigits(date.GetMonth() + 1)
      + "-" + TwoDigits(date.GetDate())
  {
    var y := date.GetFullYear();
    var m := Pad2(date.GetMonth() + 1);
    var d := Pad2(date.GetDate());
    IntToString(y) + "-" + m + "-" + d
  }

  /** The (month, day) pairs of the fixed national holidays. */
  const FixedHolidays: seq<(int, int)> := [
    (1, 1),    // Confraternizacao Universal
    (4, 21),   // Tiradentes
    (5, 1),    // Dia do Trabalhador
    (9, 7),    // Independencia do Brasil
    (10, 12),  // Nossa Senhora Aparecida
    (11, 2),   // Finados
    (11, 15),  // Proclamacao da Republica
    (12, 25)   // Natal
  ]

  /** The set entry for month `m`, day `d` of `year`: `year + '-' + pad2(m) + '-' + pad2(d)`. */
  function HolidayKey(year: int, m: int, d: int): string {
    IntToString(year) + "-" + Pad2(m) + "-" + Pad2(d)
  }

  /** The keys of `year` for every (month, day) pair in `pairs`. */
  function KeySet(year: int, pairs: seq<(int, int)>): set<string> {
    set p | p in pairs :: HolidayKey(year, p.0, p.1)
  }

  /** The set `buildFixedHolidaySet(year)` returns. */
  function FixedHolidaySet(year: int): set<string> {
    KeySet(year, FixedHolidays)
  }

  predicate PairsInRange(pairs: seq<(int, int)>) {
    forall i :: 0 <= i < |pairs| ==> 0 <= pairs[i].0 < 100 && 0 <= pairs[i].1 < 100
  }

  lemma FixedHolidaysWellFormed()
    ensures PairsInRange(FixedHolidays)
    ensures forall i, j :: 0 <= i < j < |FixedHolidays| ==> FixedHolidays[i] != FixedHolidays[j]
  {
  }

  lemma KeySetSnoc(year: int, pairs: seq<(int, int)>, p: (int, int))
    ensures KeySet(year, pairs + [p]) == KeySet(year, pairs) + {HolidayKey(year, p.0, p.1)}
  {
    assert forall q :: q in pairs + [p] <==> q in pairs || q == p;
  }

  /** `buildFixedHolidaySet(year)`: adds one entry per fixed holiday to an empty set. */
  method BuildFixedHolidaySet(year: int) returns (holidays: set<string>)
    ensures holidays == FixedHolidaySet(year)
  {
    holidays := {};
    for i := 0 to |FixedHolidays|
      invariant holidays == KeySet(year, FixedHolidays[..i])
    {
      var (m, d) := FixedHolidays[i];
      assert FixedHolidays[..i + 1] == FixedHolidays[..i] + [(m, d)];
      KeySetSnoc(year, FixedHolidays[..i], (m, d));
      holidays := holidays + {HolidayKey(year, m, d)};
    }
    assert FixedHolidays[..|FixedHolidays|] == FixedHolidays;
  }

  /** `getBrazilHolidays(year)`. */
  method GetBrazilHolidays(year: int) returns (holidays: set<string>)
    ensures holidays == FixedHolidaySet(year)
  {
    holidays := BuildFixedHolidaySet(year);
  }

  /** `isBrazilHoliday(date)`: the date's ISO string is in its year's holiday set. */
  function IsBrazilHoliday(date: Date): (r: bool)
    ensures r <==> (date.GetMonth() + 1, date.GetDate()) in FixedHolidays
  {
    var year := date.GetFullYear();
    var iso := ToIsoDateString(date);
    KeyInHolidaySet(year, date.GetMonth() + 1, date.GetDate());
    iso in FixedHolidaySet(year)
  }

  /** The six characters after the year's numeral in a key. */
  function KeySuffix(m: int, d: int): (r: string)
    requires 0 <= m < 100 && 0 <= d < 100
    ensures |r| == 6
  {
    "-" + TwoDigits(m) + "-" + TwoDigits(d)
  }

  lemma KeyTwoDigits(year: int, m: int, d: int)
    requires 0 <= m < 100 && 0 <= d < 100
    ensures HolidayKey(year, m, d) == IntToString(year) + "-" + TwoDigits(m) + "-" + TwoDigits(d)
  {
  }

  /** Stated over an arbitrary prefix so that the year's numeral is never unfolded. */
  lemma SuffixAfter(y: string, m: int, d: int)
    requires 0 <= m < 100 && 0 <= d < 100
    ensures y + "-" + TwoDigits(m) + "-" + TwoDigits(d) == y + KeySuffix(m, d)
    ensures var s := y + KeySuffix(m, d);
      s[|y|] == '-' && s[|y| + 1..|y| + 3] == TwoDigits(m) && s[|y| + 3] == '-' && s[|y| + 4..] == TwoDigits(d)
  {
  }

  /** A key is the year's numeral followed by the six-character suffix. */
  lemma KeyShape(year: int, m: int, d: int)
    requires 0 <= m < 100 && 0 <= d < 100
    ensures HolidayKey(year, m, d) == IntToString(year) + KeySuffix(m, d)
  {
    KeyTwoDigits(year, m, d);
    SuffixAfter(IntToString(year), m, d);
  }

  lemma KeySuffixInjective(m1: int, d1: int, m2: int, d2: int)
    requires 0 <= m1 < 100 && 0 <= d1 < 100 && 0 <= m2 < 100 && 0 <= d2 < 100
    requires KeySuffix(m1, d1) == KeySuffix(m2, d2)
    ensures m1 == m2 && d1 == d2
  {
    var s1, s2 := KeySuffix(m1, d1), KeySuffix(m2, d2);
    assert TwoDigits(m1) == TwoDigits(m2) by {
      assert s1[1..3] == TwoDigits(m1) && s2[1..3] == TwoDigits(m2);
    }
    assert TwoDigits(d1) == TwoDigits(d2) by {
      assert s1[4..] == TwoDigits(d1) && s2[4..] == TwoDigits(d2);
    }
    TwoDigitsInjective(m1, m2);
    TwoDigitsInjective(d1, d2);
  }

  lemma PrefixedSuffixInjective(y: string, m1: int, d1: int, m2: int, d2: int)
    requires 0 <= m1 < 100 && 0 <= d1 < 100 && 0 <= m2 < 100 && 0 <= d2 < 100
    requires y + KeySuffix(m1, d1) == y + KeySuffix(m2, d2)
    ensures m1 == m2 && d1 == d2
  {
    var s1, s2 := KeySuffix(m1, d1), KeySuffix(m2, d2);
    assert (y + s1)[|y|..] == s1 && (y + s2)[|y|..] == s2;
    KeySuffixInjective(m1, d1, m2, d2);
  }

  /** Two keys of one year are equal only for the same month and day. */
  lemma KeyInjective(year: int, m1: int, d1: int, m2: int, d2: int)
    requires 0 <= m1 < 100 && 0 <= d1 < 100 && 0 <= m2 < 100 && 0 <= d2 < 100
    requires HolidayKey(year, m1, d1) == HolidayKey(year, m2, d2)
    ensures m1 == m2 && d1 == d2
  {
    KeyShape(year, m1, d1);
    KeyShape(year, m2, d2);
    PrefixedSuffixInjective(IntToString(year), m1, d1, m2, d2);
  }

  lemma KeyInKeySet(year: int, pairs: seq<(int, int)>, m: int, d: int)
    requires PairsInRange(pairs) && 0 <= m < 100 && 0 <= d < 100
    ensures HolidayKey(year, m, d) in KeySet(year, pairs) <==> (m, d) in pairs
  {
    if HolidayKey(year, m, d) in KeySet(year, pairs) {
      var p :| p in pairs && HolidayKey(year, p.0, p.1) == HolidayKey(year, m, d);
      KeyInjective(year, p.0, p.1, m, d);
    }
  }

  lemma KeyInHolidaySet(year: int, m: int, d: int)
    requires 0 <= m < 100 && 0 <= d < 100
    ensures HolidayKey(year, m, d) in FixedHolidaySet(year) <==> (m, d) in FixedHolidays
  {
    FixedHolidaysWellFormed();
    KeyInKeySet(year, FixedHolidays, m, d);
  }

  lemma {:induction false} KeySetSize(year: int, pairs: seq<(int, int)>)
    requires PairsInRange(pairs)
    requires forall i, j :: 0 <= i < j < |pairs| ==> pairs[i] != pairs[j]
    ensures |KeySet(year, pairs)| == |pairs|
  {
    if pairs != [] {
      var init, last := pairs[..|pairs| - 1], pairs[|pairs| - 1];
      assert pairs == init + [last];
      KeySetSize(year, init);
      KeySetSnoc(year, init, last);
      if HolidayKey(year, last.0, last.1) in KeySet(year, init) {
        KeyInKeySet(year, init, last.0, last.1);
      }
    }
  }

  /** Every year has exactly eight fixed holidays: no two of the pairs coincide. */
  lemma FixedHolidaySetSize(year: int)
    ensures |FixedHolidaySet(year)| == 8
  {
    FixedHolidaysWellFormed();
    KeySetSize(year, FixedHolidays);
  }

  /** `s` is `y`, a dash, two digits, a dash and two digits. */
  predicate IsEntry(y: string, s: string) {
    && |s| == |y| + 6 && s[..|y| + 1] == y + "-" && s[|y| + 3] == '-'
    && IsDigits(s[|y| + 1..|y| + 3]) && IsDigits(s[|y| + 4..])
  }

  /** The month and day an entry of year numeral `y` names. */
  function EntryPair(y: string, s: string): (int, int)
    requires IsEntry(y, s)
  {
    (Number(s[|y| + 1..|y| + 3]), Number(s[|y| + 4..]))
  }

  lemma EntryFields(y: string, m: int, d: int)
    requires 0 <= m < 100 && 0 <= d < 100
    ensures IsEntry(y, y + KeySuffix(m, d)) && EntryPair(y, y + KeySuffix(m, d)) == (m, d)
  {
    SuffixAfter(y, m, d);
    NumberOfTwoDigits(m);
    NumberOfTwoDigits(d);
    var s := y + KeySuffix(m, d);
    assert s[..|y| + 1] == y + [s[|y|]];
  }

  lemma KeySetEntry(year: int, pairs: seq<(int, int)>, s: string)
    requires PairsInRange(pairs) && s in KeySet(year, pairs)
    ensures IsEntry(IntToString(year), s) && EntryPair(IntToString(year), s) in pairs
  {
    var p :| p in pairs && s == HolidayKey(year, p.0, p.1);
    KeyShape(year, p.0, p.1);
    EntryFields(IntToString(year), p.0, p.1);
  }

  /** Each entry is the year, a dash, and the two-digit month and day of one fixed holiday. */
  lemma FixedHolidayEntry(year: int, s: string)
    requires s in FixedHolidaySet(year)
    ensures IsEntry(IntToString(year), s) && EntryPair(IntToString(year), s) in FixedHolidays
  {
    FixedHolidaysWellFormed();
    KeySetEntry(year, FixedHolidays, s);
  }

  /** Whether a day is a holiday depends on its month and day alone, not on its year or weekday. */
  lemma HolidayDependsOnMonthAndDay(a: Date, b: Date)
    requires a.GetMonth() == b.GetMonth() && a.GetDate() == b.GetDate()
    ensures IsBrazilHoliday(a) == IsBrazilHoliday(b)
  {
  }
}
