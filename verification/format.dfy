/** `formatCommentAsXML`: the text placed on the clipboard for one comment, and
    a reader for that text. */
module Format {
  import opened Options
  import opened Escape

  /** `CommentData`: author and content always, file/line/code optional. An
      optional field that is absent or empty is not written. */
  datatype CommentData = CommentData(
    author: string,
    content: string,
    file: Option<string>,
    line: Option<string>,
    code: Option<string>)

  const FileOpen: string := "  <file>"
  const FileClose: string := "</file>\n"
  const LineOpen: string := "  <line>"
  const LineClose: string := "</line>\n"
  const CodeOpen: string := "  <code>\n"
  const CodeClose: string := "\n  </code>\n"
  const ContentOpen: string := "  <content>"
  const ContentClose: string := "</content>\n"
  const CommentOpen: string := "<comment>\n"
  const CommentClose: string := "</comment>"
  const AuthorOpen: string := "  <author>"
  const AuthorClose: string := "</author>\n"

  /** Text before the optional elements. */
  function Header(author: string): string {
    CommentOpen + AuthorOpen + EscapeXml(author) + AuthorClose
  }

  /** Text after the optional elements. */
  function Footer(content: string): string {
    ContentOpen + EscapeXml(content) + ContentClose + CommentClose
  }

  /** An optional element: written only when its field is a non-empty string. */
  function Optional(open: string, close: string, o: Option<string>): string {
    if Present(o) then open + EscapeXml(o.value) + close else ""
  }

  function FormatComment(d: CommentData): (xml: string)
    ensures Header(d.author) <= xml
    ensures |Footer(d.content)| <= |xml|
    ensures xml[|xml| - |Footer(d.content)|..] == Footer(d.content)
    ensures !Present(d.file) && !Present(d.line) && !Present(d.code) ==>
              xml == Header(d.author) + Footer(d.content)
  {
    var opt := Optional(FileOpen, FileClose, d.file)
               + Optional(LineOpen, LineClose, d.line)
               + Optional(CodeOpen, CodeClose, d.code);
    Split3(Header(d.author), opt, Footer(d.content));
    Header(d.author) + opt + Footer(d.content)
  }

  /** The pieces of a three-part concatenation are found at their offsets. */
  lemma Split3(a: string, b: string, c: string)
    ensures a <= a + b + c
    ensures |c| <= |a + b + c|
    ensures (a + b + c)[|a + b + c| - |c|..] == c
    ensures b == "" ==> a + b + c == a + c
  {
    assert a + b + c == a + (b + c);
    assert (a + b + c)[..|a|] == a;
  }

  /** A concatenation starts with its first part, and the rest is the second. */
  lemma Split2(a: string, b: string)
    ensures a <= a + b
    ensures (a + b)[|a|..] == b
  {
    assert (a + b)[..|a|] == a;
  }

  /** The record as the formatter sees it: an empty optional field is the same
      as an absent one. */
  function Canonical(d: CommentData): CommentData {
    d.(file := if Present(d.file) then d.file else None,
       line := if Present(d.line) then d.line else None,
       code := if Present(d.code) then d.code else None)
  }

  /** Splits `t` at its first `<`. */
  function TextBefore(t: string): (p: (string, string))
    ensures p.0 + p.1 == t
    ensures '<' !in p.0
    decreases |t|
  {
    if |t| == 0 || t[0] == '<' then ("", t)
    else
      var p := TextBefore(t[1..]);
      assert [t[0]] + p.0 + p.1 == t;
      ([t[0]] + p.0, p.1)
  }

  /** Reads `open`, escaped text and `close`; returns the decoded text and
      what follows. */
  function ReadElement(open: string, close: string, t: string): Option<(string, string)> {
    if !(open <= t) then None
    else
      var p := TextBefore(t[|open|..]);
      if close <= p.1 then Some((Unescape(p.0), p.1[|close|..])) else None
  }

  /** Like `ReadElement`, for an element that may be missing. */
  function ReadOptional(open: string, close: string, t: string): Option<(Option<string>, string)> {
    if !(open <= t) then Some((None, t))
    else
      match ReadElement(open, close, t)
      case None => None
      case Some(p) => Some((Some(p.0), p.1))
  }

  /** The code element: its body is followed by a newline and two spaces. */
  function ReadCode(t: string): Option<(Option<string>, string)> {
    if !(CodeOpen <= t) then Some((None, t))
    else
      var p := TextBefore(t[|CodeOpen|..]);
      var body := p.0;
      if |body| >= 3 && body[|body| - 3..] == "\n  " && "</code>\n" <= p.1 then
        Some((Some(Unescape(body[..|body| - 3])), p.1[8..]))
      else None
  }

  /** Reads the text `formatCommentAsXML` writes back into a record. */
  function ParseComment(xml: string): Option<CommentData> {
    if !(CommentOpen <= xml) then None
    else match ReadElement(AuthorOpen, AuthorClose, xml[|CommentOpen|..])
    case None => None
    case Some(a) => ReadFields(a.0, a.1)
  }

  /** Reads the elements after the author: file, line and code when present,
      then content and the closing tag. */
  function ReadFields(author: string, t: string): Option<CommentData> {
    match ReadOptional(FileOpen, FileClose, t)
    case None => None
    case Some(f) =>
      match ReadOptional(LineOpen, LineClose, f.1)
      case None => None
      case Some(l) =>
        match ReadCode(l.1)
        case None => None
        case Some(c) =>
          match ReadElement(ContentOpen, ContentClose, c.1)
          case None => None
          case Some(k) =>
            if k.1 == CommentClose then Some(CommentData(author, k.0, f.0, l.0, c.0)) else None
  }

  lemma {:induction false} TextBeforeEscaped(x: string, y: string)
    requires '<' !in x
    requires |y| > 0 && y[0] == '<'
    ensures TextBefore(x + y) == (x, y)
    decreases |x|
  {
    if |x| == 0 {
      assert x + y == y;
    } else {
      assert (x + y)[1..] == x[1..] + y;
      TextBeforeEscaped(x[1..], y);
      assert [x[0]] + x[1..] == x;
    }
  }

  lemma NoLtInEscaped(s: string)
    ensures '<' !in EscapeXml(s)
  {
    EscapeIsWellEscaped(s);
  }

  lemma NotPrefixAt(p: string, t: string, k: nat)
    requires k < |p| && k < |t| && p[k] != t[k]
    ensures !(p <= t)
  {
  }

  lemma ReadElementOf(open: string, close: string, v: string, rest: string)
    requires |close| > 0 && close[0] == '<'
    ensures ReadElement(open, close, open + EscapeXml(v) + close + rest) == Some((v, rest))
  {
    var e := EscapeXml(v);
    var tail := close + rest;
    assert open + e + close + rest == open + (e + tail);
    Split2(open, e + tail);
    NoLtInEscaped(v);
    TextBeforeEscaped(e, tail);
    Split2(close, rest);
    UnescapeEscape(v);
  }

  lemma ReadOptionalOf(open: string, close: string, o: Option<string>, rest: string)
    requires |close| > 0 && close[0] == '<'
    requires !Present(o) ==> !(open <= rest)
    ensures ReadOptional(open, close, Optional(open, close, o) + rest)
            == Some((if Present(o) then o else None, rest))
  {
    if Present(o) {
      var e := EscapeXml(o.value);
      ReadElementOf(open, close, o.value, rest);
      assert open + e + close + rest == open + (e + close + rest);
      Split2(open, e + close + rest);
    } else {
      assert Optional(open, close, o) + rest == rest;
    }
  }

  lemma ReadCodeOf(o: Option<string>, rest: string)
    requires !Present(o) ==> !(CodeOpen <= rest)
    ensures ReadCode(Optional(CodeOpen, CodeClose, o) + rest)
            == Some((if Present(o) then o else None, rest))
  {
    if Present(o) {
      NoLtInEscaped(o.value);
      ReadCodeBody(EscapeXml(o.value), rest);
      UnescapeEscape(o.value);
    } else {
      assert Optional(CodeOpen, CodeClose, o) + rest == rest;
    }
  }

  lemma ReadCodeBody(e: string, rest: string)
    requires '<' !in e
    ensures ReadCode(CodeOpen + e + CodeClose + rest) == Some((Some(Unescape(e)), rest))
  {
    var body := e + "\n  ";
    var tail := "</code>\n" + rest;
    CodeCloseParts();
    Regroup4(CodeOpen, e, "\n  ", "</code>\n", rest);
    Split2(CodeOpen, body + tail);
    assert '<' !in body;
    assert |tail| > 0 && tail[0] == '<';
    TextBeforeEscaped(body, tail);
    Split2(e, "\n  ");
    assert body[..|body| - 3] == e;
    Split2("</code>\n", rest);
  }

  lemma CodeCloseParts()
    ensures CodeClose == "\n  " + "</code>\n"
  {
  }

  lemma Regroup4(a: string, e: string, b: string, c: string, rest: string)
    ensures a + e + (b + c) + rest == a + ((e + b) + (c + rest))
  {
  }

  /** Reading the written text recovers the record: author and content, and
      exactly the optional fields that are non-empty, in the order file, line,
      code. So a `<file>`, `<line>` or `<code>` element is written if and only
      if its field is a non-empty string. */
  lemma ParseFormat(d: CommentData)
    ensures ParseComment(FormatComment(d)) == Some(Canonical(d))
  {
    var f := Optional(FileOpen, FileClose, d.file)
             + (Optional(LineOpen, LineClose, d.line)
             + (Optional(CodeOpen, CodeClose, d.code) + Footer(d.content)));
    var a := AuthorOpen + EscapeXml(d.author) + AuthorClose + f;
    FormatAsNested(d, f);
    Split2(CommentOpen, a);
    ReadElementOf(AuthorOpen, AuthorClose, d.author, f);
    ReadFieldsOf(d, f);
  }

  lemma ReadFieldsOf(d: CommentData, f: string)
    requires f == Optional(FileOpen, FileClose, d.file)
                  + (Optional(LineOpen, LineClose, d.line)
                  + (Optional(CodeOpen, CodeClose, d.code) + Footer(d.content)))
    ensures ReadFields(d.author, f) == Some(Canonical(d))
  {
    var k := Footer(d.content);
    var c := Optional(CodeOpen, CodeClose, d.code) + k;
    var l := Optional(LineOpen, LineClose, d.line) + c;
    OptionalsDoNotClash(d, k, c, l);
    ReadOptionalOf(FileOpen, FileClose, d.file, l);
    ReadOptionalOf(LineOpen, LineClose, d.line, c);
    ReadCodeOf(d.code, k);
    ReadElementOf(ContentOpen, ContentClose, d.content, CommentClose);
  }

  lemma FormatAsNested(d: CommentData, f: string)
    requires f == Optional(FileOpen, FileClose, d.file)
                  + (Optional(LineOpen, LineClose, d.line)
                  + (Optional(CodeOpen, CodeClose, d.code) + Footer(d.content)))
    ensures FormatComment(d)
            == CommentOpen + (AuthorOpen + EscapeXml(d.author) + AuthorClose + f)
  {
    var o1 := Optional(FileOpen, FileClose, d.file);
    var o2 := Optional(LineOpen, LineClose, d.line);
    var o3 := Optional(CodeOpen, CodeClose, d.code);
    var e := EscapeXml(d.author);
    var k := Footer(d.content);
    Regroup(CommentOpen, AuthorOpen, e, AuthorClose, o1, o2, o3, k);
  }

  lemma Regroup(p1: string, p2: string, e: string, p3: string,
                o1: string, o2: string, o3: string, k: string)
    ensures p1 + p2 + e + p3 + (o1 + o2 + o3) + k
            == p1 + (p2 + e + p3 + (o1 + (o2 + (o3 + k))))
  {
  }

  /** An absent element is never mistaken for the one that follows it. */
  lemma OptionalsDoNotClash(d: CommentData, k: string, c: string, l: string)
    requires k == Footer(d.content)
    requires c == Optional(CodeOpen, CodeClose, d.code) + k
    requires l == Optional(LineOpen, LineClose, d.line) + c
    ensures !(CodeOpen <= k) && !(LineOpen <= c) && !(FileOpen <= l)
  {
    FooterStart(d.content);
    NotPrefixAt(CodeOpen, k, 5);
    OptionalStart(CodeOpen, CodeClose, d.code, k);
    NotPrefixAt(LineOpen, c, 3);
    OptionalStart(LineOpen, LineClose, d.line, c);
    NotPrefixAt(FileOpen, l, 3);
  }

  lemma FooterStart(content: string)
    ensures |Footer(content)| > 5
    ensures Footer(content)[3] == 'c' && Footer(content)[5] == 'n'
  {
  }

  /** An optional element followed by `rest` starts like its opening tag, or
      like `rest` when it is not written. */
  lemma OptionalStart(open: string, close: string, o: Option<string>, rest: string)
    requires |open| > 3 && |rest| > 3
    ensures |Optional(open, close, o) + rest| > 3
    ensures (Optional(open, close, o) + rest)[3] == if Present(o) then open[3] else rest[3]
  {
    if !Present(o) {
      assert Optional(open, close, o) + rest == rest;
    }
  }

  /** Two records with different author, content or written fields never
      produce the same clipboard text. */
  lemma FormatInjective(d1: CommentData, d2: CommentData)
    requires FormatComment(d1) == FormatComment(d2)
    ensures Canonical(d1) == Canonical(d2)
  {
    ParseFormat(d1);
    ParseFormat(d2);
  }
}
