# SQL post-formatter

A model of the SQL post-formatter of the SQL formatting page in
`script.js`. `customSqlPostFormatter` takes the text an external SQL
formatter produced and rewrites it in nine fixed stages. The last stage is
`indentMultiLineParentheses`. The model proves what each stage keeps and
changes, and what holds of the whole.

The stages, one module each, in the order the source runs them:

1. `Normalize`: line breaks become spaces, whitespace runs collapse to one
   space, leading blanks of lines go, and `( ` / ` )` are tightened.
2. `Keywords`: a line break goes before each of the 13 clause keywords and
   before CASE. Each is a global, case-insensitive `\sKW\s` replacement.
3. `CaseBlocks`: the `CASE ... END` scan. For each block, one space is
   inserted after the first WHEN, later WHENs move to their own indented
   line, and END moves to its own line.
4. `Connectors`: a character scan that tracks the parenthesis depth and an
   "inside CASE" flag. It breaks the line before AND/OR at depth 0 outside
   a CASE.
5. `DataTypes`: whole-word data type names are upper-cased.
6. `Semicolons`: a line feed goes after every `;`.
7. `Indentation`: lines that do not start with a keyword get four spaces.
8. `Comments`: indented `--` comment lines are moved to the start of their
   line.
9. `ParenBlocks`: a stack finds the outermost parenthesised blocks. Every
   block that spans several lines has its later lines indented.

`PostFormatter` composes them.

Shared modules:

- `Chars`: character classes, ASCII upper case, the case-insensitive
  comparison of the `i` flag, and the *skeleton* of a text. The skeleton
  is its non-whitespace characters, upper-cased, in order.
- `Texts`: `indexOf`.
- `Lines`: `split('\n')`, `join('\n')` and `trim()`.
- `Rewrite` and `Patterns`: a left-to-right global `replace` over a
  hand-written matcher for each regular expression of the source.

The central end-to-end facts:

- The post-formatter changes only whitespace and the case of letters, so
  the skeleton of result and input agree.
- Every semicolon of the result is followed by a line feed.

The three loops of the source are methods proved against the functions
that specify them, together with their inner loops and the two `forEach`
pass lists:

- the CASE block loop;
- the connector scan;
- the parenthesis stack.

Quirks of the source that the model keeps as written:

- JOIN is broken before LEFT JOIN, so the LEFT JOIN pass never fires
  (`Keywords.LeftJoinIsDead`).
- The first WHEN of a CASE block is broken too, and keeps a double space
  after it (`CaseBlocks.FirstWhenBroken`).
- The CASE flag of the connector scan is set by words such as CASEY
  (`Connectors.CaseyHidesConnector`).
- The connector stage is thrown away when its last break ends the text
  (`Connectors.Discarded`).
- A line starting with "ORDERS" counts as starting with OR
  (`Indentation.OrdersNotIndented`).
- The comment fix leaves a blank line before a moved comment
  (`Comments.IndentedCommentGetsBlankLine`).
- A block is put back at the first occurrence of its text, not at its own
  position (`ParenBlocks.ReplaceFirst`).

Character classes:

- `\s` is `Chars.IsWs`: the ECMAScript white space and line terminator
  characters.
- `\b` uses the ASCII word characters.
- `toUpperCase` and the `i` flag are modelled on ASCII letters. For the
  `i` flag this is exact: its case folding never maps a non-ASCII
  character onto an ASCII one. It is not exact for the plain
  `toUpperCase()` comparisons (see "Left out").

## Model

| member | source | states |
|---|---|---|
| Normalize.CollapseWs | script.js:58 | each whitespace run becomes one space: the result has only single spaces, is no longer, is empty exactly when the input is, and starts with a space exactly where the input starts with whitespace |
| Normalize.CollapseWsSkeleton | script.js:58 | collapsing whitespace keeps the skeleton |
| Normalize.LineBreaksToSpacesSkeleton | script.js:55 | turning `\r?\n` into a space keeps the skeleton |
| Normalize.StripIndentSkeleton | script.js:61 | removing blanks at line starts keeps the skeleton |
| Normalize.StripIndentOneLine | script.js:61 | without line terminators the only line start removed from is the start of the text |
| Normalize.StripIndentTidy | script.js:61 | on a text of single spaces the pass leaves single spaces and no leading space |
| Normalize.TightenOpenFrom | script.js:64 | removing `( ` leaves single spaces and no `( ` |
| Normalize.TightenCloseFrom | script.js:65 | removing ` )` leaves single spaces, no `( ` and no ` )` |
| Normalize.NormalizeShape | script.js:55-65 | after stage 1 the only whitespace is single spaces (no line feed, carriage return or tab), the text does not start with a space, contains neither `( ` nor ` )`, and has the input's skeleton |
| Rewrite.SameWidthWindows | script.js:77-78 | a global replacement whose text is as long as a match keeps the length; every changed character lies in a rewritten window that starts at a match and holds the replacement; every match of the input lies in such a window |
| Rewrite.ReplaceFromSkeleton | script.js:78 | a global replacement whose text has the skeleton of each match keeps the skeleton |
| Rewrite.FixedPoint | script.js:181 | a text whose matches already hold the replacement is left as it is |
| Rewrite.CopyUntil | script.js:78 | without a match in a stretch, the stretch is copied unchanged |
| Rewrite.NextHit | script.js:78 | the first match at or after the scan position, with no match before it; none only when no match follows |
| Rewrite.ReplaceFromNextHit | script.js:78 | a global replacement copies the text up to the next match, writes the replacement in its place and goes on after it; with no match left it copies the rest |
| Patterns.PatternKeepsSkeleton | script.js:64-185 | each constant-text pattern of the source matches only text with the skeleton of its replacement |
| Patterns.ReplaceAllSkeleton | script.js:64-185 | so each global replacement keeps the skeleton |
| Keywords.KeywordPasses | script.js:75-79 | the `forEach` loop over the keywords computes one pass per keyword, in list order |
| Keywords.KeywordPassWindows | script.js:77-78 | a keyword pass rewrites every whitespace-keyword-whitespace match it meets with "\n" + KEYWORD + " " and keeps the length |
| Keywords.BreakKeywordsSkeleton | script.js:69-83 | stage 2 keeps the skeleton |
| Keywords.LeftJoinNeverMatches | script.js:69-79 | after the JOIN pass no `\sLEFT JOIN\s` is left anywhere |
| Keywords.LeftJoinPassIdle | script.js:75-79 | so the LEFT JOIN pass after the JOIN pass changes nothing |
| Keywords.LeftJoinIsDead | script.js:69-79 | stage 2 equals stage 2 with LEFT JOIN dropped from the list |
| CaseBlocks.FindCase | script.js:89-92 | a found block starts at or after `lastIndex` and spans at least CASE and END |
| CaseBlocks.FindCaseLeftmost | script.js:89-92 | the block found is a word CASE up to a word END; it starts at the leftmost start of a match and ends at the nearest END (the lazy `.*?`); there is none exactly when no match starts at or after `lastIndex` |
| CaseBlocks.FirstWhen | script.js:99 | the index is -1 or the place of a WHEN in any case |
| CaseBlocks.FirstWhenIsFirst | script.js:98-99 | in a block starting with CASE, no WHEN comes before that index |
| CaseBlocks.BlockCaseStart | script.js:98 | a block of the scan starts with CASE, so the WHEN search starts at 0 |
| CaseBlocks.SpaceAfterWhenShape | script.js:103-105 | one space is inserted right after the first WHEN and everything else stays in place |
| CaseBlocks.FirstWhenBroken | script.js:101-108 | the first WHEN after whitespace is broken onto its own line as well; the space inserted after it survives next to the character that followed it |
| CaseBlocks.EndPassWindows | script.js:111 | the END pass rewrites every whitespace-END-boundary match it meets with "\nEND" and leaves every other character |
| CaseBlocks.WhenPassScan | script.js:108 | the WHEN pass turns every `\sWHEN\s` it meets that has no whole word CASE followed by a WHEN later on its line into "\n    WHEN "; the text between such matches is copied |
| CaseBlocks.WhenBeforeCaseCopied | script.js:108 | a `\sWHEN\s` followed on its line by a whole word CASE with a WHEN after it is not rewritten: the whitespace and the WHEN are copied as they are |
| CaseBlocks.ProcessBlockSkeleton | script.js:101-116 | processing a block changes only whitespace and the case of letters |
| CaseBlocks.ExpandCaseBlocks | script.js:87-126 | the `exec` loop builds the stage's text |
| CaseBlocks.CaseBlocksSkeleton | script.js:87-126 | stage 3 keeps the skeleton |
| CaseBlocks.CaseBlocksWithoutBlock | script.js:92-124 | without a CASE ... END match the stage changes nothing |
| Connectors.UpdateFlags | script.js:137-151 | the flag updates of one character, with the depth clamped at 0 |
| Connectors.MatchConnector | script.js:154-166 | the inner loop finds the first connector of the list standing between two spaces |
| Connectors.FirstConnector | script.js:154-166 | the connector found stands at the position between spaces, and none is found only when none does |
| Connectors.ScanConnectors | script.js:135-169 | the scan loop, with its index jump, builds the loop's text up to `lastIndex` and stops with the loop's `lastIndex` |
| Connectors.BreakConnectors | script.js:129-174 | stage 4: the scan's text, committed only when `lastIndex` stops short of the end |
| Connectors.LoopIsScan | script.js:159-163 | jumping over a connector and its space loses no break: the loop's text is the text with a break before each connector, and `lastIndex` ends at the last break |
| Connectors.ConnectIsLoop | script.js:171-174 | the stage is the loop's text when `lastIndex` is below the length, otherwise the input |
| Connectors.Commit | script.js:171-174 | `lastIndex` is below the length exactly when the last break does not end the text |
| Connectors.BreakAtExactly | script.js:146-158 | the scan breaks at a position exactly when AND, or else OR, stands between spaces there at depth 0 with the CASE flag clear |
| Connectors.DepthBounds | script.js:147-151 | the depth never exceeds the `(` seen and never drops below them minus the `)` seen |
| Connectors.SkipKeepsFlags | script.js:162-163 | the characters jumped over after a break change no flag |
| Connectors.ConnectEdits | script.js:129-174 | apart from the added line feeds and the case of letters the text is unchanged: one line feed per break, the length grows by the breaks, the skeleton is kept; nothing changes if the scan is thrown away |
| Connectors.CaseyHidesConnector | script.js:137-138 | in "CASEY AND x" the AND stands between spaces but is not broken |
| DataTypes.TypePasses | script.js:178-182 | the `forEach` loop over the type names computes one pass per name |
| DataTypes.TypePassUpcases | script.js:180-181 | a pass only upper-cases letters |
| DataTypes.TypePassUpper | script.js:180-181 | after a pass every whole-word occurrence of its name is upper case |
| DataTypes.TypePassIdempotent | script.js:180-181 | running a pass again changes nothing |
| DataTypes.NoOverlap | script.js:180 | two whole-word occurrences of a name never overlap |
| DataTypes.UpcaseEachUpper | script.js:178-182 | later passes keep earlier names upper case |
| DataTypes.UpcaseTypesSpec | script.js:177-182 | after stage 5 every whole-word occurrence of the 11 names is upper case; only the case of letters changed, and only inside whole-word occurrences of the names in the input; the skeleton is kept; running the stage again changes nothing |
| Semicolons.BreakSemicolonsSpec | script.js:185 | every semicolon is followed by a line feed; dropping those line feeds gives the input back; the length and the line feeds grow by the semicolons; the skeleton is kept |
| Lines.Split | script.js:188 | `split` always gives at least one piece |
| Lines.JoinSplit | script.js:188-208 | joining the pieces of a split gives the text back |
| Lines.SplitJoin | script.js:208 | splitting joined pieces without line feeds gives the pieces back |
| Lines.SplitLineFeeds | script.js:188 | the pieces hold no line feed and there is one more than there are line feeds |
| Lines.Trim | script.js:191 | `trim` cuts whitespace off both ends and leaves no whitespace at either end |
| Lines.TrimEmpty | script.js:191 | a line trims to empty exactly when it is all whitespace |
| Lines.PaddedJoin | script.js:202-208 | putting four spaces in front of some lines keeps the skeleton, the line feeds and every semicolon followed by a line feed |
| Indentation.AnyPrefix | script.js:194-198 | `some(startsWith)` holds exactly when one of the keywords is a prefix |
| Indentation.IndentLineChoice | script.js:191-205 | a line gets four spaces exactly when it holds non-whitespace and does not start with a keyword; otherwise it stays as it is |
| Indentation.IndentLinesByLine | script.js:188-208 | the lines of the result are the lines of the input, indented, and there are as many |
| Indentation.IndentLinesKeeps | script.js:188-208 | stage 7 keeps the line feeds, the skeleton, and every semicolon followed by a line feed |
| Indentation.OrdersNotIndented | script.js:194-198 | the line "orders" is not indented, since it starts with OR |
| Comments.CommentAtMeans | script.js:211 | `^\s+--` matches at a position exactly when it is a line start followed by a non-empty whitespace run and "--" |
| Comments.FixFromSkeleton | script.js:211 | the fix changes only whitespace |
| Comments.FixFromSemicolons | script.js:211 | a semicolon followed by a line feed stays so |
| Comments.FixStable | script.js:211 | after the fix, every match left in the text is a lone line feed before "--" |
| Comments.StableFixed | script.js:211 | the fix copies such a text unchanged |
| Comments.FixCommentsSpec | script.js:211 | stage 8 keeps the skeleton and every semicolon followed by a line feed, and a second run changes nothing |
| Comments.IndentedCommentGetsBlankLine | script.js:211 | "a\n --" becomes "a\n\n--" |
| ParenBlocks.FindParenBlocks | script.js:228-250 | the stack scan collects the blocks of its specification |
| ParenBlocks.ParenBlocksSpec | script.js:231-250 | every block is a balanced group of the text, from a `(` to the `)` that balances it, with its text; the blocks are in order and do not overlap |
| ParenBlocks.GroupIsBlock | script.js:231-250 | every balanced group starting where no parenthesis is open is one of the blocks |
| ParenBlocks.StrayCloseIgnored | script.js:235 | a `)` with an empty stack is ignored |
| ParenBlocks.UnclosedHidesLater | script.js:231-250 | a `(` pushed on an empty stack and never closed hides every later group: the blocks are those that end before it |
| ParenBlocks.ReindentSpec | script.js:258-265 | re-indenting keeps the first line, adds four spaces at most to each other line, leaves every later line starting with four spaces, keeps lines that already do, and is idempotent |
| ParenBlocks.PadLines | script.js:260-264 | the loop over the lines of a block pads the later lines |
| ParenBlocks.ReplaceFirstAt | script.js:267 | the first occurrence of the block's text is the one replaced |
| ParenBlocks.ReplaceFirstAbsent | script.js:267 | without an occurrence nothing changes |
| ParenBlocks.IndentMultiLineParentheses | script.js:226-271 | the function computes the stage, with the new text put back literally |
| ParenBlocks.IndentParensKeeps | script.js:226-271 | stage 9 only puts spaces at the start of lines: the skeleton, the line feeds and every semicolon followed by a line feed are kept |
| ParenBlocks.AsWrittenAgrees | script.js:267 | on a text without `$` the stage as written equals the literal one |
| ParenBlocks.DollarCounterexample | script.js:267 | on "($$\n)" the stage as written gives "($\n    )" while the literal one gives "($$\n    )" |
| PostFormatter.CustomSqlPostFormatter | script.js:53-217 | the function runs the nine stages in order |
| PostFormatter.PostFormatSkeleton | script.js:53-217 | the post-formatter changes only whitespace and the case of letters: the skeleton of the result is that of the input |
| PostFormatter.PostFormatSemicolons | script.js:185-216 | every semicolon of the result is followed by a line feed |

## Left out

- The page around the formatter is not modelled: the editors, the DOM, the
  notification timer, the event handlers, the clipboard and
  `clearContent`. All of these are UI, timers or browser APIs.
- `formatSQL` is not modelled. It calls an external formatting library
  whose code is not part of this model. The post-formatter is modelled on
  any input text instead.
- The general regular-expression engine is not modelled. Each expression
  of the source has its own hand-written matcher.
- `\b` and Unicode case: the model uses ASCII word characters, and
  `toUpperCase` and the `i` flag act on ASCII letters only. A non-ASCII
  letter whose upper case differs, such as "ß", keeps its spelling in the
  model.
- The plain `toUpperCase()` comparisons act on ASCII letters only in the
  model. These are the `indexOf` searches of the CASE block (script.js:98-99),
  the CASE, END, AND and OR tests of the connector scan (script.js:137-157)
  and the keyword prefix tests of the indentation (script.js:194-198).
  JavaScript maps some non-ASCII letters onto ASCII ones: "ſ" (U+017F)
  becomes "S" and "ı" (U+0131) becomes "I". So "caſe" sets the CASE flag,
  and a line "ſelect x" is not indented, where the model does neither.
  JavaScript also lengthens "ß" to "SS", which shifts the index of the first
  WHEN: for "CASE ßß WHEN a END" JavaScript inserts the space after the
  wrong characters and gives "CASE ßß\n    WHEN a \nEND", where the model
  gives "CASE ßß\n    WHEN  a\nEND".
- Strings are sequences of characters, not UTF-16 code units, so
  surrogate pairs are not modelled.
- ParenBlocks.IndentParens: the composed post-formatter puts a re-indented
  block back literally. JavaScript's `replace` would expand `$` patterns
  in the new text. The as-written behaviour is `IndentParensAsWritten`,
  and `AsWrittenAgrees` shows the two agree on every text without `$`.
- ParenBlocks.IndentMultiLineParentheses: the stack of open positions is
  a sequence value. The block list and the lines of a block are sequence
  values that the loop reassigns; they are not arrays updated in place.

## Findings

| source | as written | input that shows it | evidently intended | confidence | as-written member | corrected member |
|---|---|---|---|---|---|---|
| script.js:267 | `sql.replace(block.content, newContent)` passes the re-indented text as a replacement string, so `$$`, `$&`, `` $` `` and `$'` in it are expanded | "($$\n)": the block becomes "($\n    )" and one `$` is lost | the re-indented block is put back as it is, so stage 9 changes only spaces at line starts | high; not executed | ParenBlocks.DollarCounterexample | ParenBlocks.IndentParensKeeps |
