/**
 * The parts of JavaScript's string and number conversions that the order
 * manager relies on: `String(n)` for integers, `Number(s)` for strings of
 * ASCII digits, `padStart`, `split` on one separator character and `trim`.
 */
module JsString {

  predicate IsDigit(c: char) {
    '0' <= c <= '9'
  }

  predicate IsDigits(s: string) {
    forall i :: 0 <= i < |s| ==> IsDigit(s[i])
  }

  function DigitValue(c: char): (n: int)
    requires IsDigit(c)
    ensures 0 <= n < 10
  {
    c as int - '0' as int
  }

  function DigitChar(n: int): (c: char)
    requires 0 <= n < 10
    ensures IsDigit(c) && DigitValue(c) == n
  {
    ('0' as int + n) as char
  }

  /** `Number(s)` for a string of ASCII digits; `Number("")` is 0. */
  function Number(s: string): (n: nat)
    requires IsDigits(s)
    ensures n == 0 <==> forall k :: 0 <= k < |s| ==> s[k] == '0'
  {
    if s == [] then 0 else 10 * Number(s[..|s| - 1]) + DigitValue(s[|s| - 1])
  }

  /** The decimal numeral of a natural number, without leading zeros. */
  function NatToString(n: nat): (s: string)
    ensures 1 <= |s| && IsDigits(s)
    ensures s[0] == '0' ==> n == 0 && |s| == 1
    ensures n < 10 <==> |s| == 1
    ensures n < 100 <==> |s| <= 2
  {
    if n < 10 then [DigitChar(n)] else NatToString(n / 10) + [DigitChar(n % 10)]
  }

  /** `String(n)` for an integer-valued Number. */
  function IntToString(n: int): (s: string)
    ensures 0 <= n ==> IsDigits(s) && 1 <= |s|
  {
    if n < 0 then "-" + NatToString(-n) else NatToString(n)
  }

  lemma {:induction false} NumberOfNatToString(n: nat)
    ensures Number(NatToString(n)) == n
  {
    if n >= 10 {
      var s := NatToString(n);
      assert s[..|s| - 1] == NatToString(n / 10);
      NumberOfNatToString(n / 10);
    }
  }

  /** A numeral with a non-zero leading digit denotes a positive number. */
  lemma {:induction false} NumberPositive(s: string)
    requires IsDigits(s) && 1 <= |s| && s[0] != '0'
    ensures Number(s) >= 1
  {
    if |s| > 1 {
      NumberPositive(s[..|s| - 1]);
    }
  }

  lemma {:induction false} NatToStringOfNumber(s: string)
    requires IsDigits(s) && 1 <= |s| && (s[0] != '0' || |s| == 1)
    ensures NatToString(Number(s)) == s
  {
    if |s| > 1 {
      var init := s[..|s| - 1];
      NumberPositive(init);
      NatToStringOfNumber(init);
      assert Number(s) / 10 == Number(init);
      assert s == init + [s[|s| - 1]];
    }
  }

  /** `s.padStart(len, fill)` with a one-character fill string. */
  function PadStart(s: string, len: nat, fill: char): (r: string)
    ensures |r| == if |s| >= len then |s| else len
    ensures r[|r| - |s|..] == s
    ensures forall i :: 0 <= i < |r| - |s| ==> r[i] == fill
  {
    if |s| >= len then s else seq(len - |s|, _ => fill) + s
  }

  /** The two-character zero-padded numeral of a number below 100. */
  function TwoDigits(n: int): string
    requires 0 <= n < 100
  {
    [DigitChar(n / 10), DigitChar(n % 10)]
  }

  lemma PadStartTwoDigits(n: int)
    requires 0 <= n < 100
    ensures PadStart(IntToString(n), 2, '0') == TwoDigits(n)
  {
    if n >= 10 {
      assert NatToString(n / 10) == [DigitChar(n / 10)];
    }
  }

  lemma TwoDigitsInjective(a: int, b: int)
    requires 0 <= a < 100 && 0 <= b < 100
    ensures TwoDigits(a) == TwoDigits(b) ==> a == b
  {
    if TwoDigits(a) == TwoDigits(b) {
      assert DigitValue(TwoDigits(a)[0]) == a / 10 && DigitValue(TwoDigits(b)[0]) == b / 10;
      assert DigitValue(TwoDigits(a)[1]) == a % 10 && DigitValue(TwoDigits(b)[1]) == b % 10;
    }
  }

  lemma NumberOfTwoDigits(n: int)
    requires 0 <= n < 100
    ensures IsDigits(TwoDigits(n)) && Number(TwoDigits(n)) == n
  {
    var s := TwoDigits(n);
    assert s[..1] == [DigitChar(n / 10)];
    assert s[..1][..0] == [];
    assert Number(s[..1]) == n / 10;
  }

  /** A two-digit numeral reads back as itself, leading zero included. */
  lemma TwoDigitsOfNumber(s: string)
    requires IsDigits(s) && |s| == 2
    ensures Number(s) < 100 && TwoDigits(Number(s)) == s
  {
    assert s[..1][..0] == [];
    assert Number(s[..1]) == DigitValue(s[0]);
    var n := Number(s);
    assert n == 10 * DigitValue(s[0]) + DigitValue(s[1]);
    assert n / 10 == DigitValue(s[0]) && n % 10 == DigitValue(s[1]);
  }

  /** `s.split(sep)` for a one-character separator. */
  function Split(s: string, sep: char): (parts: seq<string>)
    ensures 1 <= |parts|
    ensures forall i :: 0 <= i < |parts| ==> sep !in parts[i]
  {
    if s == [] then [""]
    else
      var rest := Split(s[1..], sep);
      if s[0] == sep then [""] + rest else [[s[0]] + rest[0]] + rest[1..]
  }

  lemma {:induction false} SplitNoSeparator(s: string, sep: char)
    requires sep !in s
    ensures Split(s, sep) == [s]
  {
    if s != [] {
      SplitNoSeparator(s[1..], sep);
      assert [s[0]] + s[1..] == s;
    }
  }

  lemma {:induction false} SplitAtFirst(a: string, sep: char, b: string)
    requires sep !in a
    ensures Split(a + [sep] + b, sep) == [a] + Split(b, sep)
  {
    if a != [] {
      assert (a + [sep] + b)[1..] == a[1..] + [sep] + b;
      SplitAtFirst(a[1..], sep, b);
      assert [a[0]] + a[1..] == a;
    } else {
      assert (a + [sep] + b)[1..] == b;
    }
  }

  /** The characters `trim` removes: ECMAScript WhiteSpace and LineTerminator. */
  predicate IsWhitespace(c: char) {
    c == '\t' || c == '\n' || c == '\U{000B}' || c == '\U{000C}' || c == '\r' || c == ' '
    || c == '\U{00A0}' || c == '\U{1680}' || ('\U{2000}' <= c <= '\U{200A}')
    || c == '\U{2028}' || c == '\U{2029}' || c == '\U{202F}' || c == '\U{205F}'
    || c == '\U{3000}' || c == '\U{FEFF}'
  }

  function TrimStart(s: string): (r: string)
    ensures |r| <= |s| && r == s[|s| - |r|..]
    ensures forall i :: 0 <= i < |s| - |r| ==> IsWhitespace(s[i])
    ensures r == [] || !IsWhitespace(r[0])
  {
    if s != [] && IsWhitespace(s[0]) then
      var r := TrimStart(s[1..]);
      assert s[1..][|s| - 1 - |r|..] == s[|s| - |r|..];
      assert forall i :: 1 <= i < |s| - |r| ==> s[i] == s[1..][i - 1];
      r
    else
      s
  }

  function TrimEnd(s: string): (r: string)
    ensures |r| <= |s| && r == s[..|r|]
    ensures forall i :: |r| <= i < |s| ==> IsWhitespace(s[i])
    ensures r == [] || !IsWhitespace(r[|r| - 1])
  {
    if s != [] && IsWhitespace(s[|s| - 1]) then TrimEnd(s[..|s| - 1]) else s
  }

  /** `r` is the slice of `s` at `i` and everything around it is whitespace. */
  predicate TrimmedAt(s: string, i: int, r: string) {
    && 0 <= i <= |s| - |r| && r == s[i..i + |r|]
    && (forall k :: 0 <= k < i ==> IsWhitespace(s[k]))
    && (forall k :: i + |r| <= k < |s| ==> IsWhitespace(s[k]))
  }

  /** Neither end of `s` is whitespace. */
  predicate IsTrimmed(s: string) {
    s == [] || (!IsWhitespace(s[0]) && !IsWhitespace(s[|s| - 1]))
  }

  /** `s` holds at least one character that is not whitespace, so its trimmed form is not empty. */
  predicate HasText(s: string) {
    exists k :: 0 <= k < |s| && !IsWhitespace(s[k])
  }

  /** `s.trim()`: the slice of `s` left after dropping whitespace at both ends. */
  function Trim(s: string): (r: string)
    ensures IsTrimmed(r)
    ensures exists i :: TrimmedAt(s, i, r)
    ensures r == [] <==> forall k :: 0 <= k < |s| ==> IsWhitespace(s[k])
  {
    var r := TrimEnd(TrimStart(s));
    TrimBothEnds(s, TrimStart(s), r);
    r
  }

  lemma TrimBothEnds(s: string, t: string, r: string)
    requires |t| <= |s| && t == s[|s| - |t|..] && forall i :: 0 <= i < |s| - |t| ==> IsWhitespace(s[i])
    requires t == [] || !IsWhitespace(t[0])
    requires |r| <= |t| && r == t[..|r|] && forall i :: |r| <= i < |t| ==> IsWhitespace(t[i])
    ensures TrimmedAt(s, |s| - |t|, r)
    ensures r == [] <==> forall k :: 0 <= k < |s| ==> IsWhitespace(s[k])
  {
    var i := |s| - |t|;
    assert r == s[i..i + |r|];
    assert forall k :: i + |r| <= k < |s| ==> s[k] == t[k - i];
  }
}
