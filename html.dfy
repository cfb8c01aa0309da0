/**
 * `escapeHtml` (assets/js/app.js, lines 179-186): five global replacements, run
 * one after the other, that turn the characters & < > " ' into HTML entities
 * before a value is put into the table's markup.
 */
module Html {

  /** `s.replace(/c/g, rep)` for a one-character pattern. */
  function ReplaceAll(s: string, c: char, rep: string): (r: string)
    ensures c !in rep ==> c !in r
    ensures forall d :: d != c && d !in rep ==> (d in r <==> d in s)
  {
    if s == [] then [] else (if s[0] == c then rep else [s[0]]) + ReplaceAll(s[1..], c, rep)
  }

  lemma {:induction false} ReplaceAllAppend(a: string, b: string, c: char, rep: string)
    ensures ReplaceAll(a + b, c, rep) == ReplaceAll(a, c, rep) + ReplaceAll(b, c, rep)
  {
    if a == [] {
      assert a + b == b;
    } else {
      assert (a + b)[1..] == a[1..] + b;
      ReplaceAllAppend(a[1..], b, c, rep);
    }
  }

  /** Replacing a character that does not occur changes nothing. */
  lemma {:induction false} ReplaceAllAbsent(s: string, c: char, rep: string)
    requires c !in s
    ensures ReplaceAll(s, c, rep) == s
  {
    if s != [] {
      ReplaceAllAbsent(s[1..], c, rep);
      assert [s[0]] + s[1..] == s;
    }
  }

  /** `escapeHtml(str)` for a string argument. */
  function EscapeHtml(str: string): (r: string)
    ensures '<' !in r && '>' !in r && '"' !in r && '\'' !in r
  {
    Pass5(Pass4(Pass3(Pass2(Pass1(str)))))
  }

  function Pass1(s: string): string { ReplaceAll(s, '&', "&amp;") }
  function Pass2(s: string): string { ReplaceAll(s, '<', "&lt;") }
  function Pass3(s: string): string { ReplaceAll(s, '>', "&gt;") }
  function Pass4(s: string): string { ReplaceAll(s, '"', "&quot;") }
  function Pass5(s: string): string { ReplaceAll(s, '\'', "&#039;") }

  /** The entity for one of the five special characters, or the character itself. */
  function EscapeChar(c: char): string {
    if c == '&' then "&amp;"
    else if c == '<' then "&lt;"
    else if c == '>' then "&gt;"
    else if c == '"' then "&quot;"
    else if c == '\'' then "&#039;"
    else [c]
  }

  /** Escaping character by character, in a single pass. */
  function EscapeEach(s: string): string {
    if s == [] then [] else EscapeChar(s[0]) + EscapeEach(s[1..])
  }

  lemma ReplaceAllChar(d: char, c: char, rep: string)
    ensures ReplaceAll([d], c, rep) == if d == c then rep else [d]
  {
    assert [d][1..] == [];
  }

  /** A string free of the characters that later passes replace goes through them unchanged. */
  lemma LaterPassesKeep(e: string, from: nat)
    requires 2 <= from <= 5
    requires from <= 2 ==> '<' !in e
    requires from <= 3 ==> '>' !in e
    requires from <= 4 ==> '"' !in e
    requires '\'' !in e
    ensures from == 2 ==> Pass5(Pass4(Pass3(Pass2(e)))) == e
    ensures from == 3 ==> Pass5(Pass4(Pass3(e))) == e
    ensures from == 4 ==> Pass5(Pass4(e)) == e
    ensures from == 5 ==> Pass5(e) == e
  {
    if from <= 2 { ReplaceAllAbsent(e, '<', "&lt;"); }
    if from <= 3 { ReplaceAllAbsent(e, '>', "&gt;"); }
    if from <= 4 { ReplaceAllAbsent(e, '"', "&quot;"); }
    ReplaceAllAbsent(e, '\'', "&#039;");
  }

  /** The five passes applied to one character give that character's escape. */
  lemma PassesOnChar(c: char)
    ensures Pass5(Pass4(Pass3(Pass2(Pass1([c]))))) == EscapeChar(c)
  {
    ReplaceAllChar(c, '&', "&amp;");
    if c == '&' {
      LaterPassesKeep("&amp;", 2);
    } else {
      ReplaceAllChar(c, '<', "&lt;");
      if c == '<' {
        LaterPassesKeep("&lt;", 3);
      } else {
        PassesOnPlainChar(c);
      }
    }
  }

  lemma PassesOnPlainChar(c: char)
    requires c != '&' && c != '<'
    ensures Pass5(Pass4(Pass3([c]))) == EscapeChar(c)
  {
    ReplaceAllChar(c, '>', "&gt;");
    if c == '>' {
      LaterPassesKeep("&gt;", 4);
    } else {
      ReplaceAllChar(c, '"', "&quot;");
      if c == '"' {
        LaterPassesKeep("&quot;", 5);
      } else {
        ReplaceAllChar(c, '\'', "&#039;");
      }
    }
  }

  lemma PassesAppend(a: string, b: string)
    ensures Pass5(Pass4(Pass3(Pass2(Pass1(a + b)))))
      == Pass5(Pass4(Pass3(Pass2(Pass1(a))))) + Pass5(Pass4(Pass3(Pass2(Pass1(b)))))
  {
    ReplaceAllAppend(a, b, '&', "&amp;");
    ReplaceAllAppend(Pass1(a), Pass1(b), '<', "&lt;");
    ReplaceAllAppend(Pass2(Pass1(a)), Pass2(Pass1(b)), '>', "&gt;");
    ReplaceAllAppend(Pass3(Pass2(Pass1(a))), Pass3(Pass2(Pass1(b))), '"', "&quot;");
    ReplaceAllAppend(Pass4(Pass3(Pass2(Pass1(a)))), Pass4(Pass3(Pass2(Pass1(b)))), '\'', "&#039;");
  }

  /** The five passes in a row escape every character exactly once: an `&` they introduce is never escaped again. */
  lemma {:induction false} EscapeHtmlIsEscapeEach(s: string)
    ensures EscapeHtml(s) == EscapeEach(s)
  {
    if s != [] {
      assert s == [s[0]] + s[1..];
      PassesAppend([s[0]], s[1..]);
      PassesOnChar(s[0]);
      EscapeHtmlIsEscapeEach(s[1..]);
    }
  }

  /** One of the five entities starts at `s`. */
  predicate StartsWithEntity(s: string) {
    "&amp;" <= s || "&lt;" <= s || "&gt;" <= s || "&quot;" <= s || "&#039;" <= s
  }

  /** Every `&` of `s` begins an entity. */
  predicate AmpersandsStartEntities(s: string) {
    forall i :: 0 <= i < |s| && s[i] == '&' ==> StartsWithEntity(s[i..])
  }

  lemma AmpersandsAppend(a: string, b: string)
    requires AmpersandsStartEntities(a) && AmpersandsStartEntities(b)
    ensures AmpersandsStartEntities(a + b)
  {
    forall i | 0 <= i < |a + b| && (a + b)[i] == '&'
      ensures StartsWithEntity((a + b)[i..])
    {
      if i < |a| {
        assert (a + b)[i..] == a[i..] + b;
      } else {
        assert (a + b)[i..] == b[i - |a|..];
      }
    }
  }

  lemma {:induction false} EscapeEachAmpersands(s: string)
    ensures AmpersandsStartEntities(EscapeEach(s))
  {
    if s != [] {
      EscapeEachAmpersands(s[1..]);
      var e := EscapeChar(s[0]);
      assert AmpersandsStartEntities(e) by {
        if s[0] in "&<>\"'" {
          assert forall i :: 0 < i < |e| ==> e[i] != '&';
          assert e[0..] == e;
        }
      }
      AmpersandsAppend(e, EscapeEach(s[1..]));
    }
  }

  /** In the output of `escapeHtml` every `&` begins one of the five entities. */
  lemma EscapeHtmlAmpersands(s: string)
    ensures AmpersandsStartEntities(EscapeHtml(s))
  {
    EscapeHtmlIsEscapeEach(s);
    EscapeEachAmpersands(s);
  }

  /** Decoding the five entities, left to right. */
  function Unescape(s: string): string
    decreases |s|
  {
    if s == [] then []
    else if "&amp;" <= s then "&" + Unescape(s[5..])
    else if "&lt;" <= s then "<" + Unescape(s[4..])
    else if "&gt;" <= s then ">" + Unescape(s[4..])
    else if "&quot;" <= s then "\"" + Unescape(s[6..])
    else if "&#039;" <= s then "'" + Unescape(s[6..])
    else [s[0]] + Unescape(s[1..])
  }

  lemma UnescapeStep(c: char, rest: string)
    ensures Unescape(EscapeChar(c) + rest) == [c] + Unescape(rest)
  {
    var e := EscapeChar(c);
    var s := e + rest;
    assert s[..|e|] == e && s[|e|..] == rest;
    if c !in "&<>\"'" {
      assert s[0] == c && s[1..] == rest;
    } else if c != '&' {
      assert s[1] != 'a';
      if c != '<' {
        assert s[1] != 'l';
        if c != '>' {
          assert s[1] != 'g';
          if c != '"' {
            assert s[1] != 'q';
          }
        }
      }
    }
  }

  /** Decoding undoes `escapeHtml`: no information is lost. */
  lemma {:induction false} UnescapeEscapeHtml(s: string)
    ensures Unescape(EscapeHtml(s)) == s
  {
    EscapeHtmlIsEscapeEach(s);
    UnescapeEscapeEach(s);
  }

  lemma {:induction false} UnescapeEscapeEach(s: string)
    ensures Unescape(EscapeEach(s)) == s
  {
    if s != [] {
      UnescapeStep(s[0], EscapeEach(s[1..]));
      UnescapeEscapeEach(s[1..]);
      assert [s[0]] + s[1..] == s;
    }
  }
}
