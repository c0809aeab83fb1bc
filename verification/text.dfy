/** String helpers the content script relies on: `String.prototype.trim`,
    `Array.prototype.join("\n")` and the ASCII digit class `\d` of a regular
    expression. */
module Text {

  /** The characters `String.prototype.trim` removes: the WhiteSpace and
      LineTerminator code points of section 12.2 and 12.3 of ECMA-262. */
  predicate IsSpace(c: char) {
    || c == '\t' || c == '\n' || c == '\U{000B}' || c == '\U{000C}' || c == '\r'
    || c == ' ' || c == '\U{00A0}' || c == '\U{1680}'
    || ('\U{2000}' <= c <= '\U{200A}')
    || c == '\U{2028}' || c == '\U{2029}' || c == '\U{202F}' || c == '\U{205F}'
    || c == '\U{3000}' || c == '\U{FEFF}'
  }

  predicate AllSpace(s: string) {
    forall k :: 0 <= k < |s| ==> IsSpace(s[k])
  }

  /** Neither the first nor the last character of `s` is white space. */
  predicate Trimmed(s: string) {
    |s| == 0 || (!IsSpace(s[0]) && !IsSpace(s[|s| - 1]))
  }

  /** Index of the first non-space character of `s` (or `|s|`). */
  function SkipLeading(s: string): (i: nat)
    ensures i <= |s|
    ensures forall k :: 0 <= k < i ==> IsSpace(s[k])
    ensures i < |s| ==> !IsSpace(s[i])
    decreases |s|
  {
    if |s| > 0 && IsSpace(s[0]) then 1 + SkipLeading(s[1..]) else 0
  }

  /** End of `s[lo..]` once its trailing spaces are dropped. */
  function SkipTrailing(s: string, lo: nat): (j: nat)
    requires lo <= |s|
    ensures lo <= j <= |s|
    ensures forall k :: j <= k < |s| ==> IsSpace(s[k])
    ensures j > lo ==> !IsSpace(s[j - 1])
    decreases |s|
  {
    if |s| > lo && IsSpace(s[|s| - 1]) then SkipTrailing(s[..|s| - 1], lo) else |s|
  }

  /** `String.prototype.trim`: `s` without its leading and trailing white
      space. */
  function Trim(s: string): (r: string)
    ensures Trimmed(r)
  {
    var i := SkipLeading(s);
    s[i..SkipTrailing(s, i)]
  }

  /** The trimmed text is an infix of `s` reached by removing only white space,
      and it is empty exactly when `s` is all white space. */
  lemma TrimSpec(s: string)
    ensures exists i, j :: 0 <= i <= j <= |s| && Trim(s) == s[i..j]
                           && AllSpace(s[..i]) && AllSpace(s[j..])
    ensures Trim(s) == "" <==> AllSpace(s)
  {
    var i := SkipLeading(s);
    var j := SkipTrailing(s, i);
    assert AllSpace(s[..i]) && AllSpace(s[j..]);
    if s[i..j] == "" {
      assert i == j == |s|;
    }
  }

  /** A text with no white space at either end is its own trim. */
  lemma TrimOfTrimmed(s: string)
    requires Trimmed(s)
    ensures Trim(s) == s
  {
    var i := SkipLeading(s);
    if i < |s| {
      assert i == 0;
      var j := SkipTrailing(s, i);
      assert j == |s|;
    }
  }

  /** Trimming twice is trimming once. */
  lemma TrimIdempotent(s: string)
    ensures Trim(Trim(s)) == Trim(s)
  {
    TrimOfTrimmed(Trim(s));
  }

  /** The regular-expression class `\d`: ASCII digits only. */
  predicate IsDigit(c: char) {
    '0' <= c <= '9'
  }

  predicate AllDigits(s: string) {
    forall k :: 0 <= k < |s| ==> IsDigit(s[k])
  }

  /** Length of the leading run of digits of `s` (the greedy `\d+`). */
  function DigitRun(s: string): (n: nat)
    ensures n <= |s|
    ensures AllDigits(s[..n])
    ensures n < |s| ==> !IsDigit(s[n])
    decreases |s|
  {
    if |s| > 0 && IsDigit(s[0]) then 1 + DigitRun(s[1..]) else 0
  }

  /** `lines.join("\n")`. */
  function JoinLines(lines: seq<string>): string
    decreases |lines|
  {
    if |lines| == 0 then ""
    else if |lines| == 1 then lines[0]
    else lines[0] + "\n" + JoinLines(lines[1..])
  }

  /** `text.split("\n")`: the reference reading of a newline-joined text. */
  function SplitLines(t: string): (ls: seq<string>)
    ensures |ls| > 0
    decreases |t|
  {
    if |t| == 0 then [""]
    else
      var rest := SplitLines(t[1..]);
      if t[0] == '\n' then [""] + rest else [[t[0]] + rest[0]] + rest[1..]
  }

  predicate NoNewline(s: string) {
    forall k :: 0 <= k < |s| ==> s[k] != '\n'
  }

  lemma {:induction false} SplitSingle(x: string)
    requires NoNewline(x)
    ensures SplitLines(x) == [x]
    decreases |x|
  {
    if |x| > 0 {
      SplitSingle(x[1..]);
      assert [x[0]] + x[1..] == x;
    }
  }

  lemma {:induction false} SplitAfterLine(x: string, y: string)
    requires NoNewline(x)
    ensures SplitLines(x + "\n" + y) == [x] + SplitLines(y)
    decreases |x|
  {
    if |x| == 0 {
      assert x + "\n" + y == ['\n'] + y;
      assert (['\n'] + y)[1..] == y;
    } else {
      var t := x + "\n" + y;
      assert t[1..] == x[1..] + "\n" + y;
      SplitAfterLine(x[1..], y);
      assert [x[0]] + x[1..] == x;
    }
  }

  /** Joining lines with no newline of their own and splitting the result
      gives the lines back, in order. */
  lemma {:induction false} SplitJoin(lines: seq<string>)
    requires |lines| > 0
    requires forall k :: 0 <= k < |lines| ==> NoNewline(lines[k])
    ensures SplitLines(JoinLines(lines)) == lines
    decreases |lines|
  {
    if |lines| == 1 {
      SplitSingle(lines[0]);
    } else {
      SplitJoin(lines[1..]);
      SplitAfterLine(lines[0], JoinLines(lines[1..]));
      assert [lines[0]] + lines[1..] == lines;
    }
  }
}
