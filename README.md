# markdown_2_docx text normalisation, modelled in Dafny

The Flask application `app.py` runs a Markdown text through a fixed chain of
regular-expression rewrites before it hands the text to external tools:

- `preview()` (lines 63-77) does two passes that put blank lines around block
  formulas `\[...\]`, then replaces the fenced diagram blocks
  (mermaid, sequence, flowchart) with the inline image the mermaid renderer
  makes, or with an error note when rendering fails;
- `export()` (lines 104-121) does the `\[1mm]` to `\vspace{1mm}` rewrite, the same
  two block-formula passes, one level of `<span class="arithmatex">` unwrapping,
  the four delimiter rewrites `\(` `\)` to `$` and `\[` `\]` to `$$`, and the
  collapse of `$ formula $` to `$formula$`.

The project models every one of these `re.sub` calls with Python's own
semantics, and proves what each pass does to a text.

- `ReSub.Sub` is the one scanner model shared by all passes. Matches are
  leftmost and do not overlap, and the scan resumes after each match. Where no
  match starts, one character is copied.
- A matcher per pattern tries the alternatives in the order Python's engine
  does: a greedy `\s*` from its longest run down, a lazy `(.*?)` from the empty
  string up, and an alternation left to right.
- `^` (MULTILINE), `(?<!\$)`, `(?=\n|$)` and `(?!\$)` read the input, never the
  output. The scanner passes every matcher the input character before it.
- `\s` and `str.strip()` are the characters for which `str.isspace()` holds.
- The renderer `generate_mermaid_image` is a parameter of the preview. It is a
  function from diagram source to `Ok(base64 text)` or `Err(message)`.

Modules:

| module | file | what it holds |
|---|---|---|
| `Regex` | regex.dfy | characters, whitespace runs, `NonSpace` (a text without its whitespace), `Occurs`, the `Hit` datatype |
| `BlockMath` | block_math.dfy | the two block-formula patterns of lines 63 and 64 (again at 107-108) |
| `Diagram` | diagram.dfy | the fence pattern of line 67, `str.strip()`, and `repl` (lines 69-75) |
| `ExportRules` | export_rules.dfy | the span pattern of line 111 and the collapse pattern of line 121 |
| `ReSub` | resub.dfy | `Rule`, `MatchAt`, `Sub`/`Apply` (one `re.sub` call), and facts true of every pattern |
| `Preview` | preview.dfy | the preview chain (`PreviewMarkdown`) and what it does to block formulas and diagram blocks |
| `Export` | export.dfy | the export chain (`ExportMarkdown`), the literal rewrites, the remap, unwrapping and collapse |

### Where the patterns do less, or other, than their comments say

The comments in `app.py` state what each rewrite is for. The model follows the
patterns under them:

- The comment at line 62 says that `\[...\]` formulas get blank lines before
  and after them. The isolation pattern of line 63 needs a character other than
  a newline on BOTH sides of `\[...\]`, not on one side. It consumes those two
  characters and puts them back, and it drops the whitespace between the first
  one and `\[`. Its lazy inner text runs past a `\]` that ends a line (see
  `Preview.IsolatePastBreak`).
- The line pattern of line 64, under the same comment, puts a newline before
  the formula. After a line of text, that newline and the line break already
  there make a blank line (`Preview.LineAloneAfterBreak`). Only at the very
  start of the text does the formula get a single newline before it and no
  blank line (`Preview.LineAlone`). Its greedy trailing `(\s*)` swallows
  every blank line after the formula, up to the last line break in that
  whitespace run (`BlockMath.LineGreedyEnd`).
- The comment at line 119 says that the blanks between `$` and the formula are
  removed. The pattern of line 121 needs at least one blank after the opening
  `$` and one before the closing `$`. The formula must not be empty and must not
  hold a line break. The closing `$` of one formula can also open the next
  match: `$x$ and $ y $` becomes `$x$and$ y $` (`Export.CollapsePairsAcross`).
- The comment at line 120 says that the lookarounds keep `$$` display formulas
  out of the collapse. `Export.DisplayMathKept` shows that they do for
  `$$g$$` with any g holding no `$`. They also keep the blanks of an inline
  formula followed directly by another `$` (`Export.CollapseBeforeDollar`).

## Model

| member | source | states |
|---|---|---|
| `BlockMath.IsolateAtLongestRun` | app.py:63 | a match of `([^\n])(\s*)` always takes the whole whitespace run after its first character: the hit is the one found with `\[` right after that run |
| `BlockMath.IsolateShape` | app.py:63 | every match is a non-newline character, whitespace, `\[`, the shortest inner text after which `\]` and a non-newline character follow, `\]`, and a non-newline character |
| `BlockMath.IsolateFinds` | app.py:63 | conversely, when those pieces are present at the start of the text, the pattern matches there |
| `BlockMath.IsolateNeedsOpen` | app.py:63 | the isolation pattern matches only where `\[` occurs |
| `BlockMath.IsolateKeepsNonSpace` | app.py:63 | the replacement `\1\n\n\\[\3\\]\n\n\4` differs from the text it replaces only in whitespace |
| `BlockMath.LineAtLongestRun` | app.py:64 | a match of the line pattern starts a line (the start of the text or just after a newline), and its leading `(\s*)` takes the whole whitespace run |
| `BlockMath.LineShape` | app.py:64 | every match is a line's leading whitespace, `\[`, an inner text, `\]`, and whitespace that ends at a line break or at the end of the text |
| `BlockMath.LineLazyInner` | app.py:64 | the inner text of a match is the shortest one after which the rest of the pattern matches |
| `BlockMath.LineGreedyEnd` | app.py:64 | the trailing whitespace of a match reaches the last line break inside the whitespace run after `\]` |
| `BlockMath.LineNeedsOpen` | app.py:64 | the line pattern matches only where `\[` occurs |
| `BlockMath.LineFinds` | app.py:64 | conversely, at the start of a line with `\[` after the leading whitespace and, later, `\]` followed by whitespace up to a line break or the end of the text, the line pattern matches |
| `BlockMath.LineKeepsNonSpace` | app.py:64 | the replacement `\n\\[\2\\]\n` differs from the text it replaces only in whitespace |
| `Diagram.FenceCloseFirst` | app.py:67 | the lazy body `(.*?)` stops at the first three backquotes after the tag, or finds none |
| `Diagram.FenceCloseFinds` | app.py:67 | the lazy search misses no three backquotes |
| `Diagram.DiagramShape` | app.py:67 | every match is three backquotes, one of the three tags, the shortest body, and the first three backquotes after it |
| `Diagram.DiagramFinds` | app.py:67 | conversely, a fence with a diagram tag and closing backquotes after it is matched, with that tag |
| `Diagram.StripShape` | app.py:70 | `strip()` removes a whitespace prefix and a whitespace suffix, and what remains neither starts nor ends with whitespace |
| `Diagram.StripKeepsNonSpace` | app.py:70 | stripping removes whitespace only |
| `ExportRules.SpanShape` | app.py:111 | every match is `<span class="arithmatex">`, the shortest content on one line, and the first `</span>` after it |
| `ExportRules.SpanFinds` | app.py:111 | conversely, a span whose content up to a `</span>` holds no newline is matched, and the match ends no later than that `</span>` |
| `ExportRules.SpanCloseInside` | app.py:111 | `</span>` cannot overlap itself: none starts inside a content that holds none |
| `ExportRules.CollapseFormulaFirst` | app.py:121 | the lazy `(.+?)` stops at the first end after which blanks and a lone `$` follow: no earlier end admits the closing part |
| `ExportRules.CollapseCloseMiss` | app.py:121 | the closing ` +\$(?!\$)` fails when, after each blank of the run, there is no `$` that is not followed by another `$` |
| `ExportRules.CollapseShape` | app.py:121 | every match is a `$` not after a `$`, blanks, a non-empty one-line formula, blanks, and a `$` not followed by a `$` |
| `ExportRules.CollapseOneLine` | app.py:121 | a match never spans a line break |
| `ExportRules.CollapseShrinks` | app.py:121 | the replacement `$\1$` is shorter than the text it replaces |
| `ExportRules.CollapseLazyFormula` | app.py:121 | the formula of a match is the shortest one after which the closing part matches |
| `ExportRules.CollapseGreedyBlanks` | app.py:121 | the leading ` +` is greedy: the formula of a match starts at the latest position of the blank run after `$` from which the rest of the pattern matches |
| `ExportRules.CloseAfterFinds` | app.py:121 | the closing ` +\$(?!\$)` matches blanks up to a `$` not followed by another `$` |
| `ExportRules.CollapseFormulaFinds` | app.py:121 | the lazy formula misses no end after which the closing part matches |
| `ExportRules.CollapseFinds` | app.py:121 | conversely, a `$` not after a `$`, blanks, a formula on one line, blanks, and a `$` not followed by a `$` are matched |
| `ReSub.SubPassThrough` | app.py:63-121 | a stretch of text where no match starts is copied as it is, and scanning goes on after it with the input character before it as context |
| `ReSub.SubPrevFree` | app.py:63-121 | a pattern with neither `^` nor a lookbehind rewrites a text the same way whatever came before it |
| `ReSub.LineStartAfterBreak` | app.py:64 | after a newline the line pattern rewrites the rest as it would the start of a text |
| `ReSub.LineBreakCopied` | app.py:64 | a newline that does not start a line (it follows some other character) is copied, and the next line is rewritten as from the start of a text |
| `ReSub.MatchNeedsAnchor` | app.py:63-121 | every pattern matches only where its leading literal (`\[`, three backquotes, the literal itself, the span opening, `$`) occurs |
| `ReSub.SubWithoutAnchor` | app.py:63-121 | a text without that literal goes through the pass unchanged |
| `ReSub.MatchKeepsNonSpace` | app.py:63-64 | a match of either block-formula pattern differs from its replacement only in whitespace |
| `ReSub.SubKeepsNonSpace` | app.py:63-64 | either block-formula pass changes whitespace only (the formula and every other visible character stay) |
| `ReSub.MatchShrinks` | app.py:111-121 | for the span unwrap, the collapse and every literal rewrite whose replacement is no longer than its pattern (lines 113-117), a replacement is no longer than its match |
| `ReSub.SubNoLonger` | app.py:111-121 | such a pass never makes the text longer (the `\vspace` rewrite of line 104 is the one literal rewrite that does) |
| `Preview.BlockPassesKeepNonSpace` | app.py:63-64 | the two block-formula passes together change whitespace only |
| `Preview.BlockPassesPlain` | app.py:63-64 | a text without `\[` goes through both passes unchanged |
| `Preview.PreviewPlain` | app.py:63-77 | a text with neither `\[` nor three backquotes is previewed as it is |
| `Preview.DiagramAtBlock` | app.py:67 | a diagram block in whose body no three backquotes start (not even running into the closing fence) is matched whole, with exactly its tag and body |
| `Preview.DiagramPassThrough` | app.py:77 | text in which no three backquotes start is copied by the diagram pass, and scanning goes on after it |
| `Preview.DiagramBlockFirst` | app.py:67-77 | such a diagram block is replaced by `repl`'s text, and the text after it is converted on its own |
| `Preview.DiagramBlock` | app.py:67-77 | text before a block in which no three backquotes start is kept. The renderer gets the stripped body. The block becomes `\n![](data:image/png;base64,b64)\n` on success and `\n**[Mermaid Error: msg]**\n` on failure. The rest of the text is converted on its own |
| `Preview.InlineIsolateAt` | app.py:63 | for `c \[x\]d` with c and d not newlines, and no `\]` inside x followed by a character other than a newline, the isolation pattern matches all of it, with c, x and d as its groups |
| `Preview.InlineIsolate` | app.py:63 | under the same conditions `c \[x\]d` becomes c, two newlines, `\[x\]`, two newlines, d: the blank before `\[` is dropped, x is copied verbatim, and the rest is converted on its own |
| `Preview.IsolatePastBreakAt` | app.py:63 | when the first `\]` of a formula ends a line and no other `\]` before the closing one is followed by a character other than a newline, the lazy inner text runs past it to the closing `\]` |
| `Preview.IsolatePastBreak` | app.py:63 | such a formula is isolated as one match, the `\]` that ended a line kept inside it |
| `Preview.LineAloneAt` | app.py:64 | for a formula at the start of the text, alone on its line, with no earlier `\]` ending a line and followed by a line that does not start with whitespace, the line pattern stops before the newline |
| `Preview.LineAlone` | app.py:64 | such a formula becomes `\n\[x\]\n`, the newline after it stays, and the next line is converted on its own |
| `Preview.LineAloneAfterBreak` | app.py:64 | after a character other than a newline, the line break before such a formula and the newline the replacement starts with make a blank line: `\n\n\[x\]\n\n` |
| `Export.LiteralBlock` | app.py:104 | text in which the pattern does not occur is copied, and the pattern after it is replaced (for a pattern that cannot overlap itself) |
| `Export.VspaceGone` | app.py:104 | after the rewrite no `\[1mm]` is left in the text |
| `Export.LiteralAbsent` | app.py:104 | a text without the pattern is unchanged |
| `Export.RemapDelimiter` | app.py:113-117 | the four rewrites in a row turn a leading `\(` or `\)` into `$` and a leading `\[` or `\]` into `$$`, and treat the rest independently |
| `Export.RemapCopy` | app.py:113-117 | the four rewrites in a row copy a leading character that does not start a delimiter |
| `Export.RemapIsDelimRef` | app.py:113-117 | the four rewrites in a row are the same as one left-to-right pass that maps each delimiter to its dollars and alters nothing else |
| `Export.RemapLeavesNoDelim` | app.py:113-117 | after the four rewrites none of `\(`, `\)`, `\[`, `\]` occurs |
| `Export.RemapIdempotent` | app.py:113-117 | so remapping twice is remapping once |
| `Export.RemapBackslashFree` | app.py:113-117 | text without a backslash is carried through the remap as it is |
| `Export.RemapPair` | app.py:113-117 | a pair of delimiters around a text with no delimiter in it becomes their dollars around that text (`\(a\)` gives `$a$`, `\[b\]` gives `$$b$$`), and the rest is remapped on its own |
| `Export.RemapKeepsVspace` | app.py:104-117 | the remap keeps `\vspace{1mm}` and remaps the texts on either side of it on their own |
| `Export.RemapNoDelimChar` | app.py:113-117 | a text without `(`, `)`, `[`, `]` is not changed by the remap |
| `Export.ExportPlain` | app.py:103-121 | a text without `[`, `(`, `)`, `]`, `<` and `$` is exported as it is |
| `Export.VspaceExport` | app.py:103-121 | because the `\[1mm]` rewrite runs first, `\[1mm]` between texts that the later passes leave alone is exported as `\vspace{1mm}` |
| `Export.RemapMisreadsVspace` | app.py:112-117 | had the remap run first, `\[1mm]` would have become `$$1mm]` |
| `Export.UnwrapOneAt` | app.py:111 | a span whose content is on one line and holds no `</span>` is matched whole, with that content |
| `Export.UnwrapOne` | app.py:111 | such a span is replaced by its content, and the text after it is unwrapped on its own |
| `Export.UnwrapNested` | app.py:111 | for inner content a on one line without `</span>`, of two nested spans around it only one level is removed: the inner opening tag and the outer closing tag stay |
| `Export.CollapseSingleAt` | app.py:121 | for a non-empty one-line formula f without `$` that neither starts nor ends with a blank, `$ f $`, followed by anything that does not start with `$`, is matched whole, with f as the formula |
| `Export.CollapseSingle` | app.py:121 | for a non-empty one-line formula f without `$` that neither starts nor ends with a blank, `$ f $` followed by a text r that does not start with `$` becomes `$f$`, and r is collapsed on its own after that `$` |
| `Export.CollapseBeforeDollar` | app.py:121 | for a non-empty one-line formula f without `$` that neither starts nor ends with a blank, `$ f $$b$`, with no `$` in b and b not ending in a blank, is left untouched: a formula followed directly by `$` keeps its blanks |
| `Export.CollapseNeedsLoneOpen` | app.py:121 | a match starts at a `$` that is not after a `$` and is followed by a blank |
| `Export.CollapseWithoutLoneOpen` | app.py:121 | a text where no such `$` occurs is not changed by the collapse |
| `Export.DisplayMathKept` | app.py:120-121 | `$$g$$`, for any g without `$`, is left untouched |
| `Export.CollapsePairsAcross` | app.py:121 | `$x$ g $ y $`, with x tight (non-empty, without `$`, not starting with a blank), g a non-empty one-line formula without `$` that neither starts nor ends with a blank, and y without `$`, becomes `$x$g$ y $`: the closing `$` of the first formula opens the match |
| `Export.CollapseKeepsTight` | app.py:121 | `$a$`, with no `$` in a and no blank right after the first `$`, is left untouched |
| `Export.ExportInlineMath` | app.py:103-121 | `\(a\)`, with no delimiter and no `<span class="arithmatex">` in a, reaches the collapse as `$a$` |
| `Export.ExportTightMath` | app.py:103-121 | so it is exported as `$a$` when a holds no `$` and does not start with a blank |
| `Export.ExportPaddedMath` | app.py:103-121 | and `\( f \)` is exported as `$f$`, for a non-empty one-line formula f without `$` that neither starts nor ends with a blank, with no delimiter and no `<span class="arithmatex">` in f |

## Left out

- Flask routing, reading the form and the query string, and building the
  response (lines 22-30, 55-60, 95-101, 150-169). These are framework surface.
- `markdown.markdown` (lines 80-90) and `pypandoc.convert_file`. These are foreign
  libraries, and the model stops at the text handed to them.
- The body of `generate_mermaid_image` (lines 33-52): temporary files, the
  `mmdc` subprocess, `os.remove`, and `base64.b64encode`. It is a parameter
  `Renderer` of the preview. Any exception it raises is an `Err(message)`, and
  `str(e)` is that message.
- Temporary files and cleanup in `export()` (lines 123-168), the export-type
  dispatch, and the pandoc argument lists. These are I/O and arguments for an
  external tool.
- The WeasyPrint import check (lines 15-20). It is an import-time side effect.
- Preview.DiagramBlock: stated for a block before which no three backquotes
  start, so no other code fence comes first, and whose body holds none either.
  A text with another fence first is covered only by the scanner lemma
  `ReSub.SubPassThrough` and the matcher lemmas `Diagram.DiagramShape` and
  `Diagram.DiagramFinds`, not by one closed formula.
- Preview.InlineIsolate: stated for exactly one blank before `\[`. Any
  whitespace run is covered by `BlockMath.IsolateShape` and
  `BlockMath.IsolateFinds`. An inner text in which an earlier `\]` is followed
  by a character other than a newline ends the match there; that case is covered
  only by `BlockMath.IsolateShape`.
- Preview.LineAlone: stated for a formula followed by a newline and a line that
  starts with something other than whitespace. The general case is
  `BlockMath.LineShape` and its companions.
- Export.VspaceExport: stated for surrounding texts that hold none of `[`, `(`,
  `)`, `]`, `<` and `$`. For other texts, `Export.VspaceGone` and
  `Export.RemapKeepsVspace` show that no `\[1mm]` is left for the later passes
  and that the remap keeps `\vspace{1mm}`. What the block-formula passes and the
  span unwrap do around it is not stated.
- Export.ExportInlineMath: stated for a formula with no delimiter and no
  arithmatex span inside it, as the whole text. In a longer text the collapse
  can pair its dollar signs with others (`Export.CollapsePairsAcross`), and that
  is not stated as one closed formula.
- Export.CollapseSingle: stated for a rest that does not start with `$`. When
  it does, the formula keeps its blanks (`Export.CollapseBeforeDollar`, for a
  rest of the form `$b$`); other rests starting with `$` are covered only by
  `ExportRules.CollapseShape`.
