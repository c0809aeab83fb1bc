# GitHub PR comment copier — data path model

The browser extension adds a "Copy" button to every comment on a GitHub pull
request page. A click puts an XML-like record of the comment on the clipboard.
This project models, in Dafny, the pure part of that pipeline in
`src/content.ts`:

- **escaping** (`escapeXML`): the five predefined entities of section 2.4 of the
  XML 1.0 recommendation (`&amp; &lt; &gt; &quot; &apos;`), applied as five
  sequential replace-all passes with `&` first;
- **serialisation** (`formatCommentAsXML`): `<comment>`, `<author>`, the
  optional `<file>`, `<line>` and `<code>`, the mandatory `<content>`, then
  `</comment>`, with each field escaped on its own;
- **field derivation** (`addCopyButtonToComment`, lines 78-159): the author
  default, the empty-content abort, the file-path fallback chain and the
  diff-row collector that yields `code` and `line`;
- **activation** (`init`): the page path must match `/\/pull\/\d+/`.

Every DOM lookup (`querySelector`, `closest`, `getAttribute`, `textContent`)
becomes an input value. A `null` result is `None`. A comment element is a
`CommentElement` record. A diff-table row is a `Row(lineNum, codeCell)`. The
thread container and the diff-file container are records of the values their
lookups return.

Modules:

- `Options` (options.dfy): `Option`, and JavaScript truthiness of a string.
- `Text` (text.dfy): `trim`, the `\d` class, `join("\n")` and its splitting
  partner.
- `Escape` (escape.dfy): `escapeXML` as written, a per-character reference, and
  a decoder.
- `Format` (format.dfy): the serialiser and a reader for its output.
- `Extract` (extract.dfy): field derivation.
- `Activation` (activation.dfy): the pull-request path test.

Each operation has a partner it is proved against:

- the five-pass escape is proved equal to a per-character substitution, and a
  decoder inverts it;
- the serialiser is inverted by a parser;
- the short-circuit `||` chain for the file path is proved equal to a
  first-non-empty search over the ordered tiers, which is characterised
  separately;
- the `forEach` row loop is proved equal to an ordered filter, characterised by
  an increasing index map;
- the regular expressions are proved equal to their existential readings.

## Model

| member | source | states |
|---|---|---|
| Escape.EscapeXml | src/content.ts:12-20 | the result is the per-character entity substitution of the input; it is empty exactly when the input is empty |
| Escape.ChainIsByChar | src/content.ts:14-19 | the five replace-all passes, `&` first, compute the single left-to-right substitution, so no entity produced by one pass is rewritten by a later one |
| Escape.EscapeIsWellEscaped | src/content.ts:14-19 | escaped text contains no raw `<`, `>`, `"` or `'`, and every `&` in it begins one of the five entities |
| Escape.EscapeIdentity | src/content.ts:14-19 | escaping leaves a string unchanged if and only if it contains none of `& < > " '` |
| Escape.EscapeLength | src/content.ts:14-19 | escaping never shortens a string and strictly lengthens one holding a reserved character |
| Escape.EscapeConcat | src/content.ts:14-19 | escaping a concatenation is concatenating the escapes: characters are copied or replaced in order, independently of their neighbours |
| Escape.UnescapeEscape | src/content.ts:12-20 | decoding the five entities recovers the original text from its escape |
| Escape.EscapeInjective | src/content.ts:12-20 | two different texts never escape to the same text |
| Format.FormatComment | src/content.ts:22-42 | the output starts with the comment and author lines and ends with the content line and `</comment>`; with no non-empty optional field it is exactly those two parts |
| Format.ParseFormat | src/content.ts:22-42 | reading the output back gives the author, the content and exactly the non-empty optional fields, in the order file, line, code (so an optional element is written if and only if its field is a non-empty string), with the code body between `  <code>\n` and `\n  </code>\n` |
| Format.FormatInjective | src/content.ts:22-42 | records that differ in author, content or a written field yield different clipboard text |
| Text.TrimSpec | src/content.ts:79-82 | trimming removes only white space, from both ends, and gives the empty string exactly for all-white-space text |
| Text.TrimIdempotent | src/content.ts:79-82 | trimming a trimmed text changes nothing |
| Text.SplitJoin | src/content.ts:152 | splitting the newline-joined code lines at newlines gives the lines back in order, when no line holds a newline |
| Extract.ResolveAuthor | src/content.ts:78-80 | the author is never empty and never has surrounding white space; it is the trimmed author text when that is non-empty and `Unknown` otherwise |
| Extract.ResolveContent | src/content.ts:81-82 | the content is the trimmed body text; it is empty exactly when the body is missing or all white space |
| Extract.FallbackChain | src/content.ts:114-123 | the short-circuit OR chain over `data-path`, `data-file-path`, the `.file-info a` text and the nested `data-path` is the first non-empty of those tiers, in that order |
| Extract.FirstNonEmptySpec | src/content.ts:114-123 | the first-non-empty search returns `""` exactly when every tier is missing or empty, and otherwise the value of a tier all of whose predecessors are missing or empty |
| Extract.ResolveFile | src/content.ts:98-125 | a non-empty header link wins; otherwise the diff-file container's chain decides; the file stays unset only when there is neither a header link nor a diff-file container |
| Extract.ResolveFileIsFirstNonEmpty | src/content.ts:98-125 | the resolved path is the first non-empty tier of the whole ordered chain, header link first, and is empty or unset exactly when every tier is |
| Extract.CollectCodeLines | src/content.ts:133-149 | the row loop collects `N: text` for exactly the rows with both cells, a non-empty line number and non-empty trimmed code, in row order |
| Extract.CollectLinesAppend | src/content.ts:136-149 | the collected lines of consecutive row runs are the concatenation of each run's lines: row order is kept and nothing is sorted |
| Extract.CollectLinesIsOrderedFilter | src/content.ts:136-149 | each collected line comes from a qualifying row, the source rows strictly increase, and no qualifying row is missed |
| Extract.CollectLinesEmpty | src/content.ts:140-151 | nothing is collected if and only if no row qualifies |
| Extract.MatchLineNumberSpec | src/content.ts:155-157 | `^(\d+):` yields `d` if and only if `d` is a non-empty digit run and the line starts with `d` followed by `:` |
| Extract.AnchorOf | src/content.ts:151-159 | `code` is unset exactly when no row qualifies; `line` is set only with `code` and is always a non-empty digit string |
| Extract.LastQualifyingRow | src/content.ts:153-154 | the last collected line is the line of the last qualifying row |
| Extract.LineOfLastRow | src/content.ts:151-158 | `code` is set and `line` is what `^(\d+):` yields on the `N: text` line of the last qualifying row, whatever the rows before it hold |
| Extract.LineIsLastQualifyingRow | src/content.ts:151-158 | with an all-digit line number on the last qualifying row, `line` is that number, whatever the rows before it hold |
| Extract.CodeListsRowsInOrder | src/content.ts:152 | the `code` text splits back into the collected lines in row order, when none of them holds a newline |
| Extract.NoSortingExample | src/content.ts:151-158 | rows numbered 20 then 3 give `line` 3 |
| Extract.NonNumericLineExample | src/content.ts:151-158 | a single row with line-number attribute `12a` and code `x` gives `code` `12a: x` and leaves `line` unset |
| Extract.DiffTableOf | src/content.ts:128-130 | the thread container's own diff table is searched when it has one; otherwise the table enclosing the comment; there is no table only when neither exists |
| Extract.ExtractComment | src/content.ts:78-159 | no record exactly when the body is missing or blank; otherwise trimmed content, resolved author, and for review comments only the resolved file, and `code`/`line` equal to the anchor of the searched diff table (unset when there is no table); `line` never without `code`, `code` only when a row of the searched table qualifies |
| Extract.ConversationCommentText | src/content.ts:86-92 | a conversation comment is copied as exactly its author part followed by its content part |
| Activation.MatchesFrom | src/content.ts:208 | scanning from a position finds a match exactly when `/pull/` followed by a digit starts at or after that position |
| Activation.IsPullRequestPath | src/content.ts:208 | a path activates the script if and only if it contains `/pull/` followed by at least one digit |

## Left out

- `copyCommentToClipboard` (src/content.ts:44-67): an asynchronous clipboard write with timed label and colour reverts. This is I/O and timers.
- Button creation and placement (src/content.ts:163-190): DOM mutation.
- The existing-button check (src/content.ts:74-76): it depends on the live document. A comment element here carries no button.
- `addCopyButtonsToAllComments`, `init`'s document scan, the `readyState` listener and the `MutationObserver` (src/content.ts:193-249): event wiring over the live document. Only the path test of line 208 is modelled.
- CSS selector matching (`closest`, `querySelector`, `getAttribute`): replaced by the values those lookups return.
- Multi-comment thread records (`<thread>`, per-comment timestamps) and a second, line-number-only row collector: src/content.ts produces neither. The model follows the code, which has one collector requiring both a line number and code text.
- Text.Trim: strings are sequences of Unicode scalar values, not UTF-16 code units, so lone surrogates cannot be expressed. The trimmed set is the WhiteSpace and LineTerminator set of section 12.2 and 12.3 of ECMA-262, all of it in the Basic Multilingual Plane.
- Text.SplitJoin: the round trip requires that no line holds a newline. A code cell's trimmed text can contain inner newlines, and then splitting `code` does not recover the rows.
- Extract.CodeListsRowsInOrder: the same newline restriction as Text.SplitJoin.
- `escapeXML` on `null`/`undefined` (the `!str` guard, src/content.ts:13): every field reaching it is a string here, and the empty-string case is kept.
