/** The field derivation of `addCopyButtonToComment`, with every DOM lookup
    replaced by the value it yields (`None` for a `null` result). */
module Extract {
  import opened Options
  import opened Text
  import opened Format

  /** One `tr` of a diff table. `lineNum` is the `data-line-number` attribute of
      its `td[data-line-number]` cell, `codeCell` the text of its
      `td.blob-code` cell; `None` when the row has no such cell. */
  datatype Row = Row(lineNum: Option<string>, codeCell: Option<string>)

  /** The enclosing review-thread container: the text of its file link
      (`a.text-mono, a[href*="/files/"]`) and the rows of its `.diff-table`. */
  datatype ThreadContainer = ThreadContainer(
    fileLink: Option<string>,
    diffTable: Option<seq<Row>>)

  /** The enclosing diff-file container (`.js-file, [data-path], .file`): its two
      path attributes, the text of its `.file-info a` link and the `data-path`
      of a nested element. */
  datatype DiffFile = DiffFile(
    dataPath: Option<string>,
    dataFilePath: Option<string>,
    fileInfoLink: Option<string>,
    nestedDataPath: Option<string>)

  /** What the page offers for one comment element. */
  datatype CommentElement = CommentElement(
    authorText: Option<string>,
    bodyText: Option<string>,
    thread: Option<ThreadContainer>,
    diffFile: Option<DiffFile>,
    enclosingTable: Option<seq<Row>>)

  /** `x?.textContent?.trim()`. */
  function TrimmedText(o: Option<string>): (r: Option<string>)
    ensures r.Some? <==> o.Some?
    ensures r.Some? ==> Trimmed(r.value)
  {
    match o
    case None => None
    case Some(t) => Some(Trim(t))
  }

  /** The author: the trimmed `.author` text, or `Unknown` when that is missing
      or blank. */
  function ResolveAuthor(authorText: Option<string>): (a: string)
    ensures a != "" && Trimmed(a)
    ensures Present(TrimmedText(authorText)) ==> a == Trim(authorText.value)
    ensures !Present(TrimmedText(authorText)) ==> a == "Unknown"
  {
    OrElse(TrimmedText(authorText), "Unknown")
  }

  /** The content: the trimmed `.comment-body` text, `""` when missing. */
  function ResolveContent(bodyText: Option<string>): (c: string)
    ensures Trimmed(c)
    ensures c == "" <==> bodyText.None? || AllSpace(bodyText.value)
    ensures bodyText.Some? ==> c == Trim(bodyText.value)
  {
    match bodyText
    case None => ""
    case Some(t) => TrimSpec(t); Trim(t)
  }

  // ---------------------------------------------------------------- file path

  /** First tier: the trimmed text of the thread header's file link, when the
      comment has a thread container holding such a link. */
  function HeaderFile(thread: Option<ThreadContainer>): Option<string> {
    if thread.Some? && thread.value.fileLink.Some? then Some(Trim(thread.value.fileLink.value))
    else None
  }

  /** The fallback tiers of a diff-file container, in the order they are tried. */
  function FallbackTiers(df: DiffFile): seq<Option<string>> {
    [df.dataPath, df.dataFilePath, TrimmedText(df.fileInfoLink), df.nestedDataPath]
  }

  /** Reference reading of an ordered fallback: the first non-empty tier. */
  function FirstNonEmpty(tiers: seq<Option<string>>): string
    decreases |tiers|
  {
    if |tiers| == 0 then ""
    else if Present(tiers[0]) then tiers[0].value
    else FirstNonEmpty(tiers[1..])
  }

  lemma FirstNonEmptyCons(t: Option<string>, rest: seq<Option<string>>)
    ensures FirstNonEmpty([t] + rest) == OrElse(t, FirstNonEmpty(rest))
  {
    assert ([t] + rest)[1..] == rest;
  }

  /** `a || b || c || d || ""` over the diff-file container, as written. */
  function FallbackChain(df: DiffFile): (f: string)
    ensures f == FirstNonEmpty(FallbackTiers(df))
  {
    var c := TrimmedText(df.fileInfoLink);
    assert FallbackTiers(df) == [df.dataPath] + ([df.dataFilePath] + ([c] + ([df.nestedDataPath] + [])));
    FirstNonEmptyCons(df.nestedDataPath, []);
    FirstNonEmptyCons(c, [df.nestedDataPath]);
    FirstNonEmptyCons(df.dataFilePath, [c, df.nestedDataPath]);
    FirstNonEmptyCons(df.dataPath, [df.dataFilePath, c, df.nestedDataPath]);
    OrElse(df.dataPath,
      OrElse(df.dataFilePath,
        OrElse(TrimmedText(df.fileInfoLink),
          OrElse(df.nestedDataPath, ""))))
  }

  /** The file path of a review comment: the header link first; only when that
      gave nothing non-empty, the diff-file container's chain. */
  function ResolveFile(thread: Option<ThreadContainer>, diffFile: Option<DiffFile>): (f: Option<string>)
    ensures Present(HeaderFile(thread)) ==> f == HeaderFile(thread)
    ensures f.None? <==> HeaderFile(thread).None? && diffFile.None?
    ensures !Present(HeaderFile(thread)) && diffFile.Some? ==>
              f == Some(FirstNonEmpty(FallbackTiers(diffFile.value)))
  {
    var header := HeaderFile(thread);
    if Present(header) then header
    else match diffFile
      case None => header
      case Some(df) => Some(FallbackChain(df))
  }

  /** Every tier a comment offers for its file path, in order. */
  function FileTiers(thread: Option<ThreadContainer>, diffFile: Option<DiffFile>): seq<Option<string>> {
    [HeaderFile(thread)] + (if diffFile.Some? then FallbackTiers(diffFile.value) else [])
  }

  /** The search gives `""` only when every tier is missing or empty, and
      otherwise the value of the first tier that is present and non-empty. */
  lemma {:induction false} FirstNonEmptySpec(tiers: seq<Option<string>>)
    ensures FirstNonEmpty(tiers) == "" <==> forall k :: 0 <= k < |tiers| ==> !Present(tiers[k])
    ensures FirstNonEmpty(tiers) != "" ==>
              exists k :: 0 <= k < |tiers| && tiers[k] == Some(FirstNonEmpty(tiers))
                          && forall j :: 0 <= j < k ==> !Present(tiers[j])
    decreases |tiers|
  {
    if |tiers| > 0 && !Present(tiers[0]) {
      FirstNonEmptySpec(tiers[1..]);
      var r := FirstNonEmpty(tiers);
      if r != "" {
        var k :| 0 <= k < |tiers[1..]| && tiers[1..][k] == Some(r)
                 && forall j :: 0 <= j < k ==> !Present(tiers[1..][j]);
        assert tiers[k + 1] == Some(r);
        forall j | 0 <= j < k + 1 ensures !Present(tiers[j]) {
          if j > 0 { assert tiers[j] == tiers[1..][j - 1]; }
        }
      } else {
        forall k | 0 <= k < |tiers| ensures !Present(tiers[k]) {
          if k > 0 { assert tiers[k] == tiers[1..][k - 1]; }
        }
      }
    }
  }

  /** The resolved file path is the first non-empty tier of the whole chain,
      header link included; it is absent or empty only when every tier is. */
  lemma ResolveFileIsFirstNonEmpty(thread: Option<ThreadContainer>, diffFile: Option<DiffFile>)
    ensures OrElse(ResolveFile(thread, diffFile), "") == FirstNonEmpty(FileTiers(thread, diffFile))
    ensures !Present(ResolveFile(thread, diffFile)) <==>
              forall k :: 0 <= k < |FileTiers(thread, diffFile)| ==> !Present(FileTiers(thread, diffFile)[k])
  {
    var tiers := FileTiers(thread, diffFile);
    assert tiers[1..] == if diffFile.Some? then FallbackTiers(diffFile.value) else [];
    FirstNonEmptySpec(tiers);
  }

  // ------------------------------------------------------------ diff rows

  /** A row contributes a code line when both cells exist, the line number is
      non-empty and the trimmed code text is non-empty. */
  predicate Qualifies(r: Row) {
    r.lineNum.Some? && r.codeCell.Some? && r.lineNum.value != "" && Trim(r.codeCell.value) != ""
  }

  /** The line a qualifying row contributes: `N: text`. */
  function RowLine(r: Row): string
    requires Qualifies(r)
  {
    r.lineNum.value + ": " + Trim(r.codeCell.value)
  }

  /** Reference reading of the collector: the lines of the qualifying rows, in
      row order. */
  function CollectLines(rows: seq<Row>): seq<string>
    decreases |rows|
  {
    if |rows| == 0 then []
    else (if Qualifies(rows[0]) then [RowLine(rows[0])] else []) + CollectLines(rows[1..])
  }

  /** Collection distributes over consecutive runs of rows. */
  lemma {:induction false} CollectLinesAppend(a: seq<Row>, b: seq<Row>)
    ensures CollectLines(a + b) == CollectLines(a) + CollectLines(b)
    decreases |a|
  {
    if |a| == 0 {
      assert a + b == b;
    } else {
      assert (a + b)[1..] == a[1..] + b;
      CollectLinesAppend(a[1..], b);
    }
  }

  /** Nothing is collected exactly when no row qualifies. */
  lemma {:induction false} CollectLinesEmpty(rows: seq<Row>)
    ensures |CollectLines(rows)| == 0 <==> forall j :: 0 <= j < |rows| ==> !Qualifies(rows[j])
    decreases |rows|
  {
    if |rows| > 0 {
      CollectLinesEmpty(rows[1..]);
      assert forall j :: 0 < j < |rows| ==> rows[j] == rows[1..][j - 1];
    }
  }

  /** The `rows.forEach` loop of the source. */
  method CollectCodeLines(rows: seq<Row>) returns (lines: seq<string>)
    ensures lines == CollectLines(rows)
    ensures |lines| <= |rows|
  {
    lines := [];
    var i := 0;
    while i < |rows|
      invariant 0 <= i <= |rows|
      invariant lines == CollectLines(rows[..i])
      invariant |lines| <= i
    {
      var row := rows[i];
      CollectLinesAppend(rows[..i], [row]);
      assert rows[..i + 1] == rows[..i] + [row];
      if row.lineNum.Some? && row.codeCell.Some? {
        var lineNum := row.lineNum.value;
        var codeText := Trim(row.codeCell.value);
        if lineNum != "" && codeText != "" {
          lines := lines + [lineNum + ": " + codeText];
        }
      }
      i := i + 1;
    }
    assert rows[..|rows|] == rows;
  }

  /** The collected lines are exactly the lines of the qualifying rows, in row
      order: `idx` lists the rows they come from, strictly increasing, and
      misses no qualifying row. */
  lemma {:induction false} CollectLinesIsOrderedFilter(rows: seq<Row>) returns (idx: seq<nat>)
    ensures IndexesLines(rows, idx)
    ensures forall k, l :: 0 <= k < l < |idx| ==> idx[k] < idx[l]
    ensures forall j :: 0 <= j < |rows| && Qualifies(rows[j]) ==> j in idx
    decreases |rows|
  {
    if |rows| == 0 {
      idx := [];
    } else {
      var tail := CollectLinesIsOrderedFilter(rows[1..]);
      var shifted := Incr(tail);
      var head: seq<nat> := if Qualifies(rows[0]) then [0] else [];
      idx := head + shifted;
      OrderedFilterStep(rows, tail, head, idx);
    }
  }

  /** `idx` names, for each collected line, the qualifying row it comes from. */
  predicate IndexesLines(rows: seq<Row>, idx: seq<nat>) {
    && |idx| == |CollectLines(rows)|
    && (forall k :: 0 <= k < |idx| ==>
          idx[k] < |rows| && Qualifies(rows[idx[k]]) && CollectLines(rows)[k] == RowLine(rows[idx[k]]))
  }

  lemma OrderedFilterStep(rows: seq<Row>, tail: seq<nat>, head: seq<nat>, idx: seq<nat>)
    requires |rows| > 0
    requires IndexesLines(rows[1..], tail)
    requires forall k, l :: 0 <= k < l < |tail| ==> tail[k] < tail[l]
    requires forall j :: 0 <= j < |rows[1..]| && Qualifies(rows[1..][j]) ==> j in tail
    requires head == if Qualifies(rows[0]) then [0] else []
    requires idx == head + Incr(tail)
    ensures IndexesLines(rows, idx)
    ensures forall k, l :: 0 <= k < l < |idx| ==> idx[k] < idx[l]
    ensures forall j :: 0 <= j < |rows| && Qualifies(rows[j]) ==> j in idx
  {
    StepIndexes(rows, tail, head, idx);
    StepSorted(tail, head, idx);
    StepComplete(rows, tail, head, idx);
  }

  lemma StepIndexes(rows: seq<Row>, tail: seq<nat>, head: seq<nat>, idx: seq<nat>)
    requires |rows| > 0
    requires IndexesLines(rows[1..], tail)
    requires head == if Qualifies(rows[0]) then [0] else []
    requires idx == head + Incr(tail)
    ensures IndexesLines(rows, idx)
  {
    var rest := rows[1..];
    var lines := CollectLines(rows);
    var tailLines := CollectLines(rest);
    var first: seq<string> := if Qualifies(rows[0]) then [RowLine(rows[0])] else [];
    assert lines == first + tailLines;
    forall k | 0 <= k < |idx|
      ensures idx[k] < |rows| && Qualifies(rows[idx[k]]) && lines[k] == RowLine(rows[idx[k]])
    {
      if k >= |head| {
        var t := k - |head|;
        assert idx[k] == tail[t] + 1;
        assert rows[idx[k]] == rest[tail[t]];
        assert lines[k] == tailLines[t];
      }
    }
  }

  lemma StepSorted(tail: seq<nat>, head: seq<nat>, idx: seq<nat>)
    requires forall k, l :: 0 <= k < l < |tail| ==> tail[k] < tail[l]
    requires head == [] || head == [0]
    requires idx == head + Incr(tail)
    ensures forall k, l :: 0 <= k < l < |idx| ==> idx[k] < idx[l]
  {
    forall k, l | 0 <= k < l < |idx| ensures idx[k] < idx[l] {
      assert idx[l] == tail[l - |head|] + 1;
      if k >= |head| {
        assert idx[k] == tail[k - |head|] + 1;
      }
    }
  }

  lemma StepComplete(rows: seq<Row>, tail: seq<nat>, head: seq<nat>, idx: seq<nat>)
    requires |rows| > 0
    requires forall j :: 0 <= j < |rows[1..]| && Qualifies(rows[1..][j]) ==> j in tail
    requires head == if Qualifies(rows[0]) then [0] else []
    requires idx == head + Incr(tail)
    ensures forall j :: 0 <= j < |rows| && Qualifies(rows[j]) ==> j in idx
  {
    forall j | 0 <= j < |rows| && Qualifies(rows[j]) ensures j in idx {
      if j > 0 {
        assert rows[j] == rows[1..][j - 1];
        var k :| 0 <= k < |tail| && tail[k] == j - 1;
        assert idx[|head| + k] == j;
      } else {
        assert idx[0] == 0;
      }
    }
  }

  /** Row indices of a run, seen from one row earlier. */
  function Incr(s: seq<nat>): (t: seq<nat>)
    ensures |t| == |s|
    ensures forall k :: 0 <= k < |s| ==> t[k] == s[k] + 1
  {
    seq(|s|, k requires 0 <= k < |s| => s[k] + 1)
  }

  /** `^(\d+):` matched against a collected line: its leading digit run, when
      that run is followed by a colon. */
  function MatchLineNumber(s: string): Option<string> {
    var n := DigitRun(s);
    if n > 0 && n < |s| && s[n] == ':' then Some(s[..n]) else None
  }

  /** The match yields `d` exactly when `d` is a non-empty run of digits and
      `s` starts with `d` followed by a colon. */
  lemma MatchLineNumberSpec(s: string, d: string)
    ensures MatchLineNumber(s) == Some(d) <==> |d| > 0 && AllDigits(d) && d + ":" <= s
  {
    if |d| > 0 && AllDigits(d) && d + ":" <= s {
      assert s[|d|] == (d + ":")[|d|];
      DigitRunOfDigits(s, |d|);
      assert s[..|d|] == d;
    }
  }

  lemma {:induction false} DigitRunOfDigits(s: string, n: nat)
    requires n < |s| && AllDigits(s[..n]) && !IsDigit(s[n])
    ensures DigitRun(s) == n
    decreases n
  {
    if n > 0 {
      assert s[1..][..n - 1] == s[..n][1..];
      DigitRunOfDigits(s[1..], n - 1);
    }
  }

  /** The diff anchor of a comment: `code` and `line`. */
  datatype DiffAnchor = DiffAnchor(code: Option<string>, line: Option<string>)

  /** The code lines of the table joined by newlines, and the line number of
      the last collected line. Nothing is set when no row qualifies. */
  function AnchorOf(rows: seq<Row>): (a: DiffAnchor)
    ensures a.code.None? <==> forall j :: 0 <= j < |rows| ==> !Qualifies(rows[j])
    ensures a.code.None? ==> a.line.None?
    ensures a.line.Some? ==> |a.line.value| > 0 && AllDigits(a.line.value)
  {
    var lines := CollectLines(rows);
    CollectLinesEmpty(rows);
    if |lines| == 0 then
      DiffAnchor(None, None)
    else
      var m := MatchLineNumber(lines[|lines| - 1]);
      assert m.Some? ==> AllDigits(m.value) by {
        var s := lines[|lines| - 1];
        if m.Some? { assert m.value == s[..DigitRun(s)]; }
      }
      DiffAnchor(Some(JoinLines(lines)), m)
  }

  /** Rows after the last qualifying one add nothing. */
  lemma LastQualifyingRow(rows: seq<Row>, j: nat)
    requires j < |rows| && Qualifies(rows[j])
    requires forall i :: j < i < |rows| ==> !Qualifies(rows[i])
    ensures |CollectLines(rows)| > 0
    ensures CollectLines(rows) == CollectLines(rows[..j]) + [RowLine(rows[j])]
  {
    var rest := rows[j + 1..];
    CollectLinesEmpty(rest);
    assert forall i :: 0 <= i < |rest| ==> rest[i] == rows[j + 1 + i];
    assert rows == rows[..j] + [rows[j]] + rest;
    CollectLinesAppend(rows[..j] + [rows[j]], rest);
    CollectLinesAppend(rows[..j], [rows[j]]);
    assert [rows[j]][1..] == [];
  }

  /** `line` is what `^(\d+):` yields on the line of the last qualifying row,
      whatever its line-number attribute holds: a digit run followed by a colon
      at the start of `N: text`, or nothing (an attribute `12a` leaves `line`
      unset). */
  lemma LineOfLastRow(rows: seq<Row>, j: nat)
    requires j < |rows| && Qualifies(rows[j])
    requires forall i :: j < i < |rows| ==> !Qualifies(rows[i])
    ensures AnchorOf(rows).code.Some?
    ensures AnchorOf(rows).line == MatchLineNumber(RowLine(rows[j]))
  {
    LastQualifyingRow(rows, j);
  }

  /** `line` is the number of the LAST qualifying row, whatever the numbers of
      the rows before it: no sorting takes place. */
  lemma LineIsLastQualifyingRow(rows: seq<Row>, j: nat)
    requires j < |rows| && Qualifies(rows[j])
    requires forall i :: j < i < |rows| ==> !Qualifies(rows[i])
    requires AllDigits(rows[j].lineNum.value)
    ensures AnchorOf(rows).line == rows[j].lineNum
  {
    LineOfLastRow(rows, j);
    var ln := rows[j].lineNum.value;
    var s := RowLine(rows[j]);
    assert s == (ln + ":") + (" " + Trim(rows[j].codeCell.value));
    MatchLineNumberSpec(s, ln);
  }

  /** The code text lists the collected lines in row order: splitting it at
      newlines gives them back, when no line carries a newline of its own. */
  lemma CodeListsRowsInOrder(rows: seq<Row>)
    requires forall k :: 0 <= k < |CollectLines(rows)| ==> NoNewline(CollectLines(rows)[k])
    requires exists j :: 0 <= j < |rows| && Qualifies(rows[j])
    ensures AnchorOf(rows).code.Some?
    ensures SplitLines(AnchorOf(rows).code.value) == CollectLines(rows)
  {
    CollectLinesEmpty(rows);
    SplitJoin(CollectLines(rows));
  }

  /** A table whose rows are numbered 20 then 3 anchors the comment at line 3. */
  lemma NoSortingExample()
    ensures AnchorOf([Row(Some("20"), Some("b")), Row(Some("3"), Some("a"))]).line == Some("3")
  {
    var rows := [Row(Some("20"), Some("b")), Row(Some("3"), Some("a"))];
    TrimOfTrimmed("a");
    assert AllDigits("3");
    LineIsLastQualifyingRow(rows, 1);
  }

  /** A line-number attribute that is not a digit run leaves `line` unset while
      `code` is still written. */
  lemma NonNumericLineExample()
    ensures AnchorOf([Row(Some("12a"), Some("x"))]).code == Some("12a: x")
    ensures AnchorOf([Row(Some("12a"), Some("x"))]).line.None?
  {
    var rows := [Row(Some("12a"), Some("x"))];
    TrimOfTrimmed("x");
    assert RowLine(rows[0]) == "12a: x";
    LineOfLastRow(rows, 0);
    assert CollectLines(rows) == ["12a: x"];
    assert DigitRun("12a: x") == 2 by {
      assert DigitRun("12a: x"[2..]) == 0;
      assert "12a: x"[1..][1..] == "12a: x"[2..];
    }
  }

  // ------------------------------------------------------------ the record

  /** The diff table searched: the thread container's own table first, then
      the table enclosing the comment. */
  function DiffTableOf(el: CommentElement): (t: Option<seq<Row>>)
    ensures el.thread.Some? && el.thread.value.diffTable.Some? ==> t == el.thread.value.diffTable
    ensures t.None? <==> (el.thread.None? || el.thread.value.diffTable.None?) && el.enclosingTable.None?
    ensures t.Some? && t != el.enclosingTable ==> el.thread.Some? && t == el.thread.value.diffTable
  {
    if el.thread.Some? && el.thread.value.diffTable.Some? then el.thread.value.diffTable
    else el.enclosingTable
  }

  /** The record `addCopyButtonToComment` builds for a comment element, or
      `None` when the comment has no content (no button is added then). */
  function ExtractComment(el: CommentElement, isReview: bool): (r: Option<CommentData>)
    ensures r.None? <==> el.bodyText.None? || AllSpace(el.bodyText.value)
    ensures r.Some? ==> r.value.content == Trim(el.bodyText.value) && r.value.content != ""
    ensures r.Some? ==> r.value.author == ResolveAuthor(el.authorText)
    ensures r.Some? && !isReview ==>
              r.value.file.None? && r.value.line.None? && r.value.code.None?
    ensures r.Some? && isReview ==> r.value.file == ResolveFile(el.thread, el.diffFile)
    ensures r.Some? && isReview ==>
              var a := if DiffTableOf(el).Some? then AnchorOf(DiffTableOf(el).value) else DiffAnchor(None, None);
              r.value.code == a.code && r.value.line == a.line
    ensures r.Some? && r.value.line.Some? ==> isReview && r.value.code.Some?
    ensures r.Some? && r.value.code.Some? ==>
              DiffTableOf(el).Some? && exists j :: 0 <= j < |DiffTableOf(el).value| && Qualifies(DiffTableOf(el).value[j])
  {
    var content := ResolveContent(el.bodyText);
    if content == "" then None
    else
      var author := ResolveAuthor(el.authorText);
      if !isReview then Some(CommentData(author, content, None, None, None))
      else
        var file := ResolveFile(el.thread, el.diffFile);
        var anchor := match DiffTableOf(el)
          case None => DiffAnchor(None, None)
          case Some(rows) => AnchorOf(rows);
        Some(CommentData(author, content, file, anchor.line, anchor.code))
  }

  /** A conversation comment is copied as exactly its author and content. */
  lemma ConversationCommentText(el: CommentElement)
    requires ExtractComment(el, false).Some?
    ensures var d := ExtractComment(el, false).value;
            FormatComment(d) == Header(d.author) + Footer(Trim(el.bodyText.value))
  {
  }
}
