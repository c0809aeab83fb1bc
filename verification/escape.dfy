/** `escapeXML`: substitution of the five predefined entities of XML 1.0
    (section 2.4 and 4.6 of the XML 1.0 recommendation). */
module Escape {

  predicate IsReserved(c: char) {
    c == '&' || c == '<' || c == '>' || c == '"' || c == '\''
  }

  /** The text a single character becomes: its entity when reserved, itself
      otherwise. */
  function EntityFor(c: char): string {
    match c
    case '&' => "&amp;"
    case '<' => "&lt;"
    case '>' => "&gt;"
    case '"' => "&quot;"
    case '\'' => "&apos;"
    case _ => [c]
  }

  /** Reference reading of the escape: each character replaced by its entity
      text, left to right. */
  function EscapeByChar(s: string): string
    decreases |s|
  {
    if |s| == 0 then "" else EntityFor(s[0]) + EscapeByChar(s[1..])
  }

  /** `s.replace(/c/g, rep)`: every occurrence of `c` replaced by `rep`. */
  function ReplaceAll(s: string, c: char, rep: string): string
    decreases |s|
  {
    if |s| == 0 then ""
    else (if s[0] == c then rep else [s[0]]) + ReplaceAll(s[1..], c, rep)
  }

  /** The five passes of `escapeXML` in source order, `&` first. */
  function ReplaceChain(s: string): string {
    var s1 := ReplaceAll(s, '&', "&amp;");
    var s2 := ReplaceAll(s1, '<', "&lt;");
    var s3 := ReplaceAll(s2, '>', "&gt;");
    var s4 := ReplaceAll(s3, '"', "&quot;");
    ReplaceAll(s4, '\'', "&apos;")
  }

  /** `escapeXML` as written: the empty string is returned as is, anything else
      goes through the five replacement passes. The passes together agree with
      the single left-to-right substitution, so no entity is escaped twice. */
  function EscapeXml(s: string): (r: string)
    ensures r == EscapeByChar(s)
    ensures r == "" <==> s == ""
  {
    ChainIsByChar(s);
    if s == "" then "" else ReplaceChain(s)
  }

  lemma {:induction false} ReplaceAllConcat(a: string, b: string, c: char, rep: string)
    ensures ReplaceAll(a + b, c, rep) == ReplaceAll(a, c, rep) + ReplaceAll(b, c, rep)
    decreases |a|
  {
    if |a| > 0 {
      assert (a + b)[1..] == a[1..] + b;
      ReplaceAllConcat(a[1..], b, c, rep);
    } else {
      assert a + b == b;
    }
  }

  lemma {:induction false} ReplaceAllAbsent(s: string, c: char, rep: string)
    requires c !in s
    ensures ReplaceAll(s, c, rep) == s
    decreases |s|
  {
    if |s| > 0 {
      assert c !in s[1..];
      ReplaceAllAbsent(s[1..], c, rep);
      assert [s[0]] + s[1..] == s;
    }
  }

  lemma ReplaceAllSingle(c: char, x: char, rep: string)
    ensures ReplaceAll([c], x, rep) == if c == x then rep else [c]
  {
    assert [c][1..] == "";
  }

  lemma ChainConcat(a: string, b: string)
    ensures ReplaceChain(a + b) == ReplaceChain(a) + ReplaceChain(b)
  {
    var a1, b1 := ReplaceAll(a, '&', "&amp;"), ReplaceAll(b, '&', "&amp;");
    ReplaceAllConcat(a, b, '&', "&amp;");
    var a2, b2 := ReplaceAll(a1, '<', "&lt;"), ReplaceAll(b1, '<', "&lt;");
    ReplaceAllConcat(a1, b1, '<', "&lt;");
    var a3, b3 := ReplaceAll(a2, '>', "&gt;"), ReplaceAll(b2, '>', "&gt;");
    ReplaceAllConcat(a2, b2, '>', "&gt;");
    var a4, b4 := ReplaceAll(a3, '"', "&quot;"), ReplaceAll(b3, '"', "&quot;");
    ReplaceAllConcat(a3, b3, '"', "&quot;");
    ReplaceAllConcat(a4, b4, '\'', "&apos;");
  }

  /** Passes that meet none of their characters leave a text unchanged. */
  lemma PassesAbsent(s: string, from: nat)
    requires 2 <= from <= 5
    requires from <= 2 ==> '<' !in s
    requires from <= 3 ==> '>' !in s
    requires from <= 4 ==> '"' !in s
    requires '\'' !in s
    ensures from == 2 ==> ReplaceAll(ReplaceAll(ReplaceAll(ReplaceAll(s, '<', "&lt;"), '>', "&gt;"), '"', "&quot;"), '\'', "&apos;") == s
    ensures from == 3 ==> ReplaceAll(ReplaceAll(ReplaceAll(s, '>', "&gt;"), '"', "&quot;"), '\'', "&apos;") == s
    ensures from == 4 ==> ReplaceAll(ReplaceAll(s, '"', "&quot;"), '\'', "&apos;") == s
    ensures from == 5 ==> ReplaceAll(s, '\'', "&apos;") == s
  {
    if from <= 2 { ReplaceAllAbsent(s, '<', "&lt;"); }
    if from <= 3 { ReplaceAllAbsent(s, '>', "&gt;"); }
    if from <= 4 { ReplaceAllAbsent(s, '"', "&quot;"); }
    ReplaceAllAbsent(s, '\'', "&apos;");
  }

  lemma ChainOfAmp()
    ensures ReplaceChain("&") == "&amp;"
  {
    ReplaceAllSingle('&', '&', "&amp;");
    PassesAbsent("&amp;", 2);
  }

  lemma ChainOfLt()
    ensures ReplaceChain("<") == "&lt;"
  {
    ReplaceAllSingle('<', '&', "&amp;");
    ReplaceAllSingle('<', '<', "&lt;");
    PassesAbsent("&lt;", 3);
  }

  lemma ChainOfGt()
    ensures ReplaceChain(">") == "&gt;"
  {
    ReplaceAllSingle('>', '&', "&amp;");
    ReplaceAllSingle('>', '<', "&lt;");
    ReplaceAllSingle('>', '>', "&gt;");
    PassesAbsent("&gt;", 4);
  }

  lemma ChainOfQuot()
    ensures ReplaceChain("\"") == "&quot;"
  {
    ReplaceAllSingle('"', '&', "&amp;");
    ReplaceAllSingle('"', '<', "&lt;");
    ReplaceAllSingle('"', '>', "&gt;");
    ReplaceAllSingle('"', '"', "&quot;");
    PassesAbsent("&quot;", 5);
  }

  lemma ChainOfApos()
    ensures ReplaceChain("'") == "&apos;"
  {
    ReplaceAllSingle('\'', '&', "&amp;");
    ReplaceAllSingle('\'', '<', "&lt;");
    ReplaceAllSingle('\'', '>', "&gt;");
    ReplaceAllSingle('\'', '"', "&quot;");
    ReplaceAllSingle('\'', '\'', "&apos;");
  }

  lemma ChainOfPlain(c: char)
    requires !IsReserved(c)
    ensures ReplaceChain([c]) == [c]
  {
    ReplaceAllSingle(c, '&', "&amp;");
    PassesAbsent([c], 2);
  }

  /** On one character the five passes produce its entity text. */
  lemma ChainOfChar(c: char)
    ensures ReplaceChain([c]) == EntityFor(c)
  {
    if c == '&' { ChainOfAmp(); }
    else if c == '<' { ChainOfLt(); }
    else if c == '>' { ChainOfGt(); }
    else if c == '"' { ChainOfQuot(); }
    else if c == '\'' { ChainOfApos(); }
    else { ChainOfPlain(c); }
  }

  /** The five sequential passes compute the per-character substitution. */
  lemma {:induction false} ChainIsByChar(s: string)
    ensures ReplaceChain(s) == EscapeByChar(s)
    decreases |s|
  {
    if |s| == 0 {
      assert ReplaceAll("", '&', "&amp;") == "";
    } else {
      assert s == [s[0]] + s[1..];
      ChainConcat([s[0]], s[1..]);
      ChainOfChar(s[0]);
      ChainIsByChar(s[1..]);
    }
  }

  /** Escaping distributes over concatenation, so each field can be escaped on
      its own. */
  lemma {:induction false} EscapeConcat(a: string, b: string)
    ensures EscapeXml(a + b) == EscapeXml(a) + EscapeXml(b)
    decreases |a|
  {
    if |a| > 0 {
      assert (a + b)[1..] == a[1..] + b;
      EscapeConcat(a[1..], b);
    } else {
      assert a + b == b;
    }
  }

  /** The entity sequences an `&` in escaped text may begin. */
  predicate EntityAt(t: string, i: nat)
    requires i <= |t|
  {
    "&amp;" <= t[i..] || "&lt;" <= t[i..] || "&gt;" <= t[i..]
    || "&quot;" <= t[i..] || "&apos;" <= t[i..]
  }

  /** Escaped text: no raw markup character, and every `&` starts an entity. */
  predicate WellEscaped(t: string) {
    forall i :: 0 <= i < |t| ==>
      t[i] != '<' && t[i] != '>' && t[i] != '"' && t[i] != '\''
      && (t[i] == '&' ==> EntityAt(t, i))
  }

  lemma EntityAtShift(e: string, t: string, i: nat)
    requires i <= |t| && EntityAt(t, i)
    ensures EntityAt(e + t, |e| + i)
  {
    assert (e + t)[|e| + i..] == t[i..];
  }

  lemma EntityWellEscaped(c: char, t: string)
    requires WellEscaped(t)
    ensures WellEscaped(EntityFor(c) + t)
  {
    var e := EntityFor(c);
    var u := e + t;
    forall i | 0 <= i < |u|
      ensures u[i] != '<' && u[i] != '>' && u[i] != '"' && u[i] != '\''
      ensures u[i] == '&' ==> EntityAt(u, i)
    {
      if i < |e| {
        assert u[i] == e[i];
        if i == 0 && c == '&' {
          assert u[0..] == "&amp;" + t;
        } else if i == 0 && c == '<' {
          assert u[0..] == "&lt;" + t;
        } else if i == 0 && c == '>' {
          assert u[0..] == "&gt;" + t;
        } else if i == 0 && c == '"' {
          assert u[0..] == "&quot;" + t;
        } else if i == 0 && c == '\'' {
          assert u[0..] == "&apos;" + t;
        }
      } else {
        assert u[i] == t[i - |e|];
        if u[i] == '&' {
          EntityAtShift(e, t, i - |e|);
        }
      }
    }
  }

  /** The output of `escapeXML` holds no raw `<`, `>`, `"` or `'`, and each of
      its `&` characters begins one of the five entities. */
  lemma {:induction false} EscapeIsWellEscaped(s: string)
    ensures WellEscaped(EscapeXml(s))
    decreases |s|
  {
    if |s| > 0 {
      EscapeIsWellEscaped(s[1..]);
      EntityWellEscaped(s[0], EscapeXml(s[1..]));
    }
  }

  predicate NoReserved(s: string) {
    forall k :: 0 <= k < |s| ==> !IsReserved(s[k])
  }

  lemma {:induction false} EscapeLength(s: string)
    ensures |EscapeXml(s)| >= |s|
    ensures !NoReserved(s) ==> |EscapeXml(s)| > |s|
    decreases |s|
  {
    if |s| > 0 {
      EscapeLength(s[1..]);
      if !IsReserved(s[0]) && !NoReserved(s) {
        var k :| 0 <= k < |s| && IsReserved(s[k]);
        assert s[1..][k - 1] == s[k];
      }
    }
  }

  /** `escapeXML` leaves a string unchanged exactly when it contains none of
      the five reserved characters. */
  lemma {:induction false} EscapeIdentity(s: string)
    ensures EscapeXml(s) == s <==> NoReserved(s)
    decreases |s|
  {
    EscapeLength(s);
    if |s| > 0 && NoReserved(s) {
      EscapeIdentity(s[1..]);
      assert NoReserved(s[1..]);
      assert [s[0]] + s[1..] == s;
    }
  }

  /** Decoding of the five entities; any other character is taken literally. */
  function Unescape(t: string): string
    decreases |t|
  {
    if |t| == 0 then ""
    else if "&amp;" <= t then "&" + Unescape(t[5..])
    else if "&lt;" <= t then "<" + Unescape(t[4..])
    else if "&gt;" <= t then ">" + Unescape(t[4..])
    else if "&quot;" <= t then "\"" + Unescape(t[6..])
    else if "&apos;" <= t then "'" + Unescape(t[6..])
    else [t[0]] + Unescape(t[1..])
  }

  lemma UnescapeEntity(c: char, t: string)
    ensures Unescape(EntityFor(c) + t) == [c] + Unescape(t)
  {
    var e := EntityFor(c);
    var u := e + t;
    assert u[..|e|] == e;
    assert u[|e|..] == t;
    if c == '&' {
    } else if c == '<' {
      assert u[1] == 'l';
    } else if c == '>' {
      assert u[1] == 'g';
    } else if c == '"' {
      assert u[1] == 'q';
    } else if c == '\'' {
      assert u[1] == 'a' && u[2] == 'p';
    } else {
      assert u[0] == c;
    }
  }

  /** Decoding undoes `escapeXML`: no information is lost by escaping. */
  lemma {:induction false} UnescapeEscape(s: string)
    ensures Unescape(EscapeXml(s)) == s
    decreases |s|
  {
    if |s| > 0 {
      UnescapeEntity(s[0], EscapeXml(s[1..]));
      UnescapeEscape(s[1..]);
      assert [s[0]] + s[1..] == s;
    }
  }

  /** Distinct texts escape to distinct texts. */
  lemma EscapeInjective(a: string, b: string)
    requires EscapeXml(a) == EscapeXml(b)
    ensures a == b
  {
    UnescapeEscape(a);
    UnescapeEscape(b);
  }
}
