# ipnb2tex in Dafny

`ipnb2tex.py` turns a Jupyter notebook into a LaTeX document. This project models the
program's text-transformation core and proves properties of it:

- **Cells.** Each cell of the notebook is converted in turn:
  - a code cell becomes an `lstlisting` block, either inline or floated to a chapter of listings at the end, followed by its outputs;
  - a markdown or heading cell goes through a `$$` pass and a math-span pass, the Markdown translator, and a walk over the resulting element tree;
  - a raw cell is copied as it is.
- **The walk.** It writes headings, paragraphs, lists, quotations, images and HTML tables.
  - Each link becomes a `\cite` with a `@MISC` bibliography entry.
  - The percent step and the underscore-escaping pass run over the text the walk writes.
- **The bibliography.** The accumulators `bibtexlist`, `bibxref` and `bibtexindex` are one object, `Bib.BibState`, whose methods update its fields in place.
  - A cell's metadata can add entries and cross-references.
  - The document ends with the floated listings, a `\bibliography` directive when there is an entry, and `\end{document}`.
- **Tables.** The HTML table renderer counts columns, fills the `rowspan`/`colspan` grids and writes the rows with their `\hline`/`\cline` rules. The grids are two `array2<int>`.
- **Loops.** Almost every loop of the source is a `method` proved against a specification function, with lemmas beside it stating what the source promises. Three small loops are functions only, because they only compute a value:
  - the `while` of `findAllStr` (ipnb2tex.py:399-403) is `Text.FindFrom`;
  - the `for mathcar` loop (ipnb2tex.py:227-228) is `Escape.WrapMathChars`;
  - the comprehension of `cleanFilename` (ipnb2tex.py:444) is `Escape.CleanFilename`.

Modules, in dependency order:

| module | what it models |
|---|---|
| `Wrappers` | `Option`, `Result` and Python's exception kinds |
| `Text` | `find`/`findAllStr`, `in`, `replace`, `strip`, `split`, `join`, `str(n)`, `'{:05d}'` |
| `Escape` | `cleanFilename`, `latexEscapeForHtmlTableOutput`, `processHeading`, `processVerbatim` |
| `Metadata` | cell metadata and `getMetaDataString` |
| `Bib` | the bibliography state, `extractBibtexXref`, the link case of `processParagraph` |
| `HtmlTable`, `TableGrid`, `TableLatex` | the three stages of `convertHtmlTable` |
| `Underscore` | the underscore pass at the end of `processHTMLTree` |
| `Tree` | the element tree, `text_content()`, `int()`, and reading a `table` element |
| `Walk` | `processHTMLTree`, `processList`, `processParagraph` |
| `Markdown` | the `$$` pass and the math-span pass of `convertMarkdownCell` |
| `Listing` | `prepInput` |
| `Document` | the cell dispatch, `convertCodeCell`, `convertRawCell`, the cell loop of `processOneIPynbFile` |

In a few places the code does something a reader of the program's description might not expect. The model follows the code:

- A table with no rows raises `ValueError`, because `len(set([]))` is 0 and not 1. A table whose rows all have width 0 is skipped.
- The default header goes in front of the document only when the FIRST cell's type does not contain `raw`. It is not placed before the first non-raw cell.
- With floated listings, the `\chapter{Listings}` heading is always written, even when no cell has a listing, because `listingsstring` starts with it.
- A cell whose first line is `#-- suppress`:
  - with a second line that is not a comment, `prepInput` returns the string `"\n\n"`, which the caller unpacks into two newlines;
  - with no second line, it fails on a variable that was never assigned.
- A `rowspan` that reaches past the last row raises `IndexError` in the column-counting loop.

The two slips listed under "## Findings" are modelled both ways. The conversion itself follows the code as written:
- `Escape.LatexEscapeForHtmlTableOutput` writes exponents with `Escape.SciReplacement`, which strips zeros at both ends (`Escape.ExponentAsWritten`);
- `Markdown.PrePass`, `Markdown.ConvertMarkdownCell` and the document use `Markdown.DollarPass`, whose test meant to spare indented code never holds.

The corrected halves stand beside them with their own proofs:
- `Escape.Exponent`, `Escape.ExponentValue` and `Escape.SciReplacementIntended`;
- `Markdown.DollarPassIntended` and `Markdown.LinesDollarsSpec`.

## Model

| member | source | states |
|---|---|---|
| `Text.FindFromSpec` | ipnb2tex.py:399-403 | `findAllStr` yields only indices where the pattern occurs, in increasing order, and yields every one of them |
| `Text.FindFromHead` | ipnb2tex.py:399-403 | the first index yielded is the first occurrence; the rest are found from the next index on, so occurrences may overlap |
| `Text.FindFromEmpty` | ipnb2tex.py:399-403 | when nothing is found there is no occurrence at or after the start |
| `Text.CountBelowFindFrom` | ipnb2tex.py:1103-1112 | `sum([1 for i in findAllStr(t, pat) if i < loc])` is the number of occurrences starting before `loc` |
| `Text.Contains` | ipnb2tex.py:958 | `sub in s` holds exactly when `sub` occurs at some index |
| `Text.LStrip` | ipnb2tex.py:1253 | the leading white space, and only that, is removed |
| `Text.RStrip` | ipnb2tex.py:418 | the trailing white space, and only that, is removed |
| `Text.Split` | ipnb2tex.py:592 | `split('\n')` gives at least one piece and no piece holds the separator |
| `Text.JoinSplit` | ipnb2tex.py:951-963 | joining the pieces of a split with the separator gives back the string |
| `Text.Slice` | ipnb2tex.py:997-999 | Python slicing: the sequence slice for bounds in range, empty for crossed bounds |
| `Text.NatToStringDigits` | ipnb2tex.py:607 | `str(n)` is a string of decimal digits whose value is `n` |
| `Text.ZeroPad5` | ipnb2tex.py:1206 | `'{:05d}'` gives at least five digits with the value `n`, exactly five below 100000 |
| `Text.ZeroPad5Injective` | ipnb2tex.py:1206 | different counters are formatted differently |
| `Escape.CleanFilename` | ipnb2tex.py:426-444 | the result is no longer than the input, holds no removed character, and keeps every other character |
| `Escape.CleanFilenameAppend` | ipnb2tex.py:444 | cleaning works piece by piece, so the kept characters stay in their order |
| `Escape.CleanFilenameKeepsClean` | ipnb2tex.py:444 | a string with nothing to remove is unchanged |
| `Escape.CleanFilenameIdempotent` | ipnb2tex.py:444 | cleaning twice is cleaning once |
| `Escape.EscapeEachPercentGuarded` | ipnb2tex.py:225 | after `replace('%', '\\%')` every `%` directly follows a backslash |
| `Escape.UnescapeAfterEscape` | ipnb2tex.py:224-225 | un-escaping undoes escaping: every `\%` found was inserted by the escape |
| `Escape.PercentEscaped` | ipnb2tex.py:224-225 | after the percent step every `%` is preceded by a backslash |
| `Escape.EscapePercentIdempotent` | ipnb2tex.py:224-225 | the percent step applied to its own output changes nothing |
| `Escape.MathStageOne` | ipnb2tex.py:227-228 | one stage wraps its own character in `$` and leaves the wrapped form alone in later stages |
| `Escape.WrapMathCharsMatchesRef` | ipnb2tex.py:227-228 | the four sequential replacements wrap each of `< > \| =` exactly once and keep every other character |
| `Escape.ParseSciMatches` | ipnb2tex.py:230 | the parse returns groups exactly when the stripped text matches `^([0-9,.\-]+)e(\+\|\-)([0-9]+)$`, and they are the only groups |
| `Escape.SciUnique` | ipnb2tex.py:230 | the groups of a match are determined: the lead is the longest prefix in the class, then `e`, the sign and the digits |
| `Escape.ExponentAsWrittenLosesValue` | ipnb2tex.py:235 | `pw.strip('0')` turns the exponent `10` into `1` |
| `Escape.ExponentValue` | ipnb2tex.py:235 | the corrected exponent is a non-empty digit string without leading zero and with the value of the matched digits |
| `Escape.StrippedCoreReplaced` | ipnb2tex.py:235 | replacing the matched token replaces just the stripped core and keeps the white space around it |
| `Escape.ExponentAsWrittenNoZeroEnds` | ipnb2tex.py:235 | the exponent as written has no zero at either end, is no longer than the digits, and is empty exactly when all the digits are zeros |
| `Escape.SciReplacementsAgree` | ipnb2tex.py:235 | the replacement as written and the corrected one agree exactly when stripping zeros at both ends gives the corrected exponent |
| `Escape.SciNotationRendered` | ipnb2tex.py:219-236 | a cell whose stripped text is a number in e-notation becomes `$lead\times 10^{sign exp}$`: the sign only when it is `-`, the exponent with zeros stripped at both ends as the code does, and the surrounding white space kept |
| `Escape.HeadingCommand` | ipnb2tex.py:1034-1050 | a heading level from 1 to 6 gives a backslash command |
| `Escape.ProcessHeading` | ipnb2tex.py:1121-1125 | the command with the text, then `\label{sec:...}` whose label is `cleanFilename` of the text with the heading's removal set, so no longer than the text and without a removed character |
| `Escape.HeadingLabelIsText` | ipnb2tex.py:1121-1125 | a heading text that is already a legal label is its own label |
| `Escape.ProcessVerbatim` | ipnb2tex.py:412-419 | fails exactly when the node has no text; more than one line gives a `verbatim` block; one line gives `\verb+...+` with only the trailing white space removed, so its last character is no white space; the tail follows |
| `Metadata.Lookup` | ipnb2tex.py:734-739 | absent exactly when the key is missing; otherwise the value of the pair with that key (keys are distinct, as in a `dict`) |
| `Metadata.GetMetaDataString` | ipnb2tex.py:728-749 | the default when the key is missing or the value is empty; the value itself when it is not a list; the item at the output index of a list, or the default past its end |
| `Metadata.MetaDataStringSource` | ipnb2tex.py:728-749 | the result is always the default, the stored string, or an item of its list |
| `Metadata.ScalarIgnoresIndex` | ipnb2tex.py:740-742 | a plain string value is shared by every output index |
| `Bib.ShortLabel` | ipnb2tex.py:1205-1206 | a shortened label keeps the first 20 characters and has 25 characters while the counter is below 100000 |
| `Bib.PairsToMap` | ipnb2tex.py:717-719 | the merged map has exactly the keys of the metadata pairs |
| `Bib.EntryTexts` | ipnb2tex.py:722-724 | one entry per `bibtexentry` key, in the object's order, each value followed by a blank line |
| `Bib.Cite` | ipnb2tex.py:1201-1227 | the counter advances only for a shortened label; an unknown label maps to itself and a known one keeps its key; no other key changes; exactly one `@MISC` entry is appended; the text is the link text (in `\url{}` when it holds `http`, nothing when empty or absent), then `\cite{key}` and the tail |
| `Bib.BibState.constructor` | ipnb2tex.py:46-49 | the accumulators start empty, with the counter at 0 |
| `Bib.BibState.ExtractBibtexXref` | ipnb2tex.py:714-724 | the cell's `bibxref` pairs override the map, its `bibtexentry` values are appended, and the counter is unchanged |
| `Bib.BibState.MergeXref` | ipnb2tex.py:717-719 | the `bibxref` loop writes every pair into the map and leaves the other fields alone |
| `Bib.BibState.AppendEntries` | ipnb2tex.py:722-724 | the `bibtexentry` loop appends every value and leaves the other fields alone |
| `Bib.BibState.CiteLink` | ipnb2tex.py:1201-1227 | the link case on the object writes the text and leaves the fields as `Cite` states |
| `Bib.CiteLabelClean` | ipnb2tex.py:1203-1206 | a citation label never holds a character of the removal set |
| `Bib.CiteLabelLength` | ipnb2tex.py:1205-1206 | a label has at most 25 characters while the counter is below 100000 |
| `Bib.ShortLabelsDistinct` | ipnb2tex.py:1205-1207 | shortened labels made with different counter values differ, whatever their URLs |
| `Bib.PairsToMapLast` | ipnb2tex.py:717-719 | every `bibxref` pair is found in the merged map with its value |
| `HtmlTable.CountColumns` | ipnb2tex.py:270-281 | the counting loop fails with `IndexError` exactly when a `rowspan` reaches past the last row; otherwise it gives each row's effective width |
| `HtmlTable.Width` | ipnb2tex.py:282-284 | succeeds exactly when there is at least one count and all counts are equal, with that count; otherwise `ValueError` |
| `HtmlTable.PlainTableWidth` | ipnb2tex.py:270-284 | without spans a row's width is its number of cells and no span overflows |
| `HtmlTable.RowsCountSplit` | ipnb2tex.py:272-281 | only the rows down to row `k` add to its width |
| `Tree.ParseInt` | ipnb2tex.py:276 | `int()` on an attribute fails only with `ValueError` |
| `Tree.ParseIntRoundTrip` | ipnb2tex.py:276 | `int(str(n)) == n` |
| `Tree.Trs` | ipnb2tex.py:270 | `findall('tr')` keeps exactly the `tr` children, in order |
| `Tree.Unwrapped` | ipnb2tex.py:254 | deleting the bare `<thead>`, `<tbody>` tags and their closing tags keeps every other child |
| `Tree.RowNodes` | ipnb2tex.py:254-272 | the rows found are all `tr` elements, and every `tr` child of the table is among them |
| `Tree.RowNodesSpec` | ipnb2tex.py:254-272 | the rows are the `tr` children of the table after the bare `thead`/`tbody` tags are deleted, in document order |
| `Tree.RowNodesKept` | ipnb2tex.py:254-272 | without a bare `thead`/`tbody`, the rows are the table's own `tr` children |
| `Tree.CellOf` | ipnb2tex.py:273-276 | a row child keeps its tag and its text content; only `td`/`th` carry spans |
| `Tree.CellsOf` | ipnb2tex.py:273-276 | a row reads as one cell per child, in order; it fails with the error of its first child that cannot be read |
| `Tree.RowsOf` | ipnb2tex.py:272-276 | one row per `tr`, each read by `CellsOf`; it fails exactly when some row fails, with the first failing row's error |
| `Tree.TableOfRows` | ipnb2tex.py:272-276 | the table of the rows read from the given `tr` elements, failing exactly when one row fails, with the first failure |
| `Tree.TableOf` | ipnb2tex.py:254-276 | one row per `tr` found, each read by `CellsOf`; it fails exactly when some row fails, with the first failing row's error |
| `Tree.PlainTableRead` | ipnb2tex.py:270-281 | a table of `tr` rows of `td` cells without attributes reads without error and without spans |
| `Tree.LeafContent` | ipnb2tex.py:341 | `text_content()` of an element without children is its own text |
| `TableGrid.Zeros` | ipnb2tex.py:293-294 | `np.zeros` has the shape asked for and holds only zeros |
| `TableGrid.MarkSpanned` | ipnb2tex.py:309-311 | the spanned columns of the row are set to 1 and nothing else changes |
| `TableGrid.CountDown` | ipnb2tex.py:314-315 | the rows below get `k - i` in the column and nothing else changes |
| `TableGrid.PlaceCell` | ipnb2tex.py:298-315 | a placed cell keeps the grids' shape and moves the column forward, never past the last one |
| `TableGrid.FillRow` | ipnb2tex.py:297-316 | filling a row keeps the grids' shape |
| `TableGrid.FillRows` | ipnb2tex.py:296-316 | filling the rows keeps the grids' shape |
| `TableGrid.RowspanCountsDown` | ipnb2tex.py:312-315 | a cell with `rowspan = k` leaves 0 in its own row and `k - i` in the `i`-th row below, so the carry counts down to 1; nothing else in the grid changes |
| `TableGrid.ColspanMarked` | ipnb2tex.py:301-311 | a cell starts at the column asked for, or one further when that one is carried from above; its first column gets 0 and the columns it spans 1; nothing else changes |
| `TableGrid.PlaceCellInto` | ipnb2tex.py:298-315 | one cell placed on the two arrays leaves them holding `PlaceCell`'s grids, or returns its error |
| `TableGrid.MarkSpannedInto` | ipnb2tex.py:309-311 | the `colspan` loop on the array: `IndexError` past the last column, otherwise the array holds `MarkSpanned` |
| `TableGrid.CountDownInto` | ipnb2tex.py:313-315 | the `rowspan` loop on the array: `IndexError` past the last row, otherwise the array holds `CountDown` |
| `TableGrid.FillRowInto` | ipnb2tex.py:297-316 | a row placed on the arrays leaves them holding `FillRow`'s grids, or returns its error |
| `TableGrid.FillGridsInto` | ipnb2tex.py:293-316 | the filling loop leaves the arrays holding `FillGrids`, or returns its error |
| `TableLatex.FirstZero` | ipnb2tex.py:334-336 | the first column from `icol` whose entry is 0, every column before it being non-zero; `IndexError` when there is none |
| `TableLatex.ClineColumns` | ipnb2tex.py:357-360 | exactly the columns whose next-row carry is below 1, in increasing order |
| `TableLatex.DefaultFormat` | ipnb2tex.py:322-323 | `\|c\|c\|...\|`: one `c` per column, with rules between and around |
| `TableLatex.ClinesFromColumns` | ipnb2tex.py:357-360 | the `\cline` loop writes one `\cline{i+1-i+1}` per such column, in order |
| `TableLatex.RuleMiddle` | ipnb2tex.py:350-360 | under a middle row whose next row carries a column, the rule is the `\cline`s of the columns not carried |
| `TableLatex.PlainCells` | ipnb2tex.py:332-348 | in a row with nothing carried and nothing spanned, each cell is written as its text and an `&` |
| `TableLatex.PlainEmitRows` | ipnb2tex.py:331-363 | the rows of a uniform table without spans are written one line each, in order |
| `TableLatex.PlainTable` | ipnb2tex.py:267-393 | a table of R rows of n plain cells is a `tabular` of exactly R lines after the opening `\hline`, each the cell texts joined by `&` and closed by `\\` and `\hline`, wrapped as usual |
| `TableLatex.PlainRowAmpersands` | ipnb2tex.py:339-348 | when the cell texts hold no `&`, splitting a plain row's cells at `&` gives back the cell texts |
| `TableLatex.CarriedColumn` | ipnb2tex.py:334-338 | a column carried from above, met while looking for the next cell, is written as one `&` and nothing else |
| `TableLatex.RowspanFillers` | ipnb2tex.py:312-360 | a `rowspan` of n ending at column c of row r makes column c a lone `&` filler in rows r+1 to r+n-1; the rule under each of rows r to r+n-2 (except the first row) is the `\cline`s of the other columns, with none for c; under the first row it is `\hline` |
| `TableLatex.PlacedRowspanFillers` | ipnb2tex.py:312-315 | a placed cell with `rowspan` of at least 2 leaves the carries `RowspanFillers` needs |
| `TableLatex.TableLatexErrors` | ipnb2tex.py:270-289 | a `rowspan` past the last row gives `IndexError`; no rows or unequal widths give `ValueError`; all widths 0 write nothing |
| `TableLatex.SkipNonZero` | ipnb2tex.py:334-336 | the `while` over a grid row stops at `FirstZero` |
| `TableLatex.RuleOf` | ipnb2tex.py:350-360 | the rule read off the `rowspan` array is `Rule` of the grid it holds |
| `TableLatex.EmitRowInto` | ipnb2tex.py:332-348 | the cells of a row appended from the arrays are the row as `EmitCells` writes it |
| `TableLatex.WriteRow` | ipnb2tex.py:331-363 | one pass of the row loop continues the tabular as `EmitRows` does |
| `TableLatex.TabularOf` | ipnb2tex.py:326-365 | the tabular written from the arrays is `Tabular` of the grids they hold |
| `TableLatex.ConvertTable` | ipnb2tex.py:267-393 | one table element gives what `TableLatex` states |
| `TableLatex.AppendTable` | ipnb2tex.py:392-393 | one pass of the table loop continues `TablesFrom`, the index counting only tables written |
| `TableLatex.ConvertHtmlTable` | ipnb2tex.py:245-395 | every table of the fragment in turn, as `TablesFrom` states |
| `Underscore.CountBefore` | ipnb2tex.py:1103 | the count of a delimiter starting before `loc` |
| `Underscore.OutsideTest` | ipnb2tex.py:1103-1115 | the loop's test is `OutsideAt`: all five delimiter counts before the position are even |
| `Underscore.EscapeUnderscores` | ipnb2tex.py:1099-1117 | the loop inserts one backslash before each underscore of the input that passes the test on the input, and changes nothing else |
| `Underscore.StepInserted` | ipnb2tex.py:1115-1117 | for any choice of which underscores to escape, inserting a backslash at the shifted index of a chosen underscore extends the rewritten prefix by that underscore's piece |
| `Underscore.StepKept` | ipnb2tex.py:1115 | any character that is not a chosen underscore stays where it is, and the rewritten prefix grows by that character |
| `Underscore.EscapeOne` | ipnb2tex.py:1103-1117 | one underscore handled: the text, the offset and the position move on together, with the test made on the text rewritten so far |
| `Underscore.DelimitersSafe` | ipnb2tex.py:1105-1112 | no delimiter holds `_` or ends in a backslash |
| `Underscore.CountsPreserved` | ipnb2tex.py:1102-1112 | whichever underscores were escaped, a delimiter counted in the rewritten text before the shifted index has the count it has in the input before the original index |
| `Underscore.OutsidePreserved` | ipnb2tex.py:1102-1115 | whichever underscores were escaped, the five parity tests come out the same on the rewritten text as on the input, so testing the text being rewritten is testing the input |
| `Underscore.UnderscoresAllEscaped` | ipnb2tex.py:1099-1117 | without delimiters the pass is `replace('_', '\\_')` |
| `Underscore.UnderscoresInMathKept` | ipnb2tex.py:1103-1115 | underscores that all lie inside inline math are left alone |
| `Walk.Styled` | ipnb2tex.py:1175-1182 | `\textit{...}`/`\textbf{...}` with the tail; `TypeError` exactly when the element has no text |
| `Walk.ParagraphChild` | ipnb2tex.py:1249-1250 | an inline tag the paragraph does not know raises `ValueError` |
| `Walk.HeadingLevel` | ipnb2tex.py:1034-1050 | the level is 0 exactly when the tag is no `h1`-`h6` and the cell is no heading of level 1 to 6 |
| `Walk.Block` | ipnb2tex.py:1034-1086 | an unknown top-level tag raises `ValueError`; only paragraphs, lists and quotations can touch the bibliography |
| `Walk.ParagraphChildInto` | ipnb2tex.py:1163-1250 | one child on the bibliography object agrees with `ParagraphChild` |
| `Walk.ProcessParagraph` | ipnb2tex.py:1153-1253 | `processParagraph` on the object agrees with `Paragraph`: the same error, or the same text and accumulators |
| `Walk.ListChildInto` | ipnb2tex.py:1136-1144 | one list child on the object agrees with `ListChild` |
| `Walk.ProcessList` | ipnb2tex.py:1130-1149 | `processList` on the object agrees with `List` |
| `Walk.ListHead` | ipnb2tex.py:1132-1134 | a list opens an environment exactly when it is `ul` or `ol` |
| `Walk.ListFails` | ipnb2tex.py:1136-1144 | a list fails with the first error among its items |
| `Walk.ListCloses` | ipnb2tex.py:1146-1149 | a list whose items convert is their text, closed, stripped and ended by a newline |
| `Walk.NestedInto` | ipnb2tex.py:1052-1061 | a paragraph, list or quotation at the top level agrees with `Nested` |
| `Walk.TableBlockOf` | ipnb2tex.py:1063-1065 | a table element is rendered as `TableBlock` states |
| `Walk.LeafOf` | ipnb2tex.py:1063-1086 | the elements that leave the bibliography alone agree with `Leaf` |
| `Walk.BlockInto` | ipnb2tex.py:1034-1086 | one pass of the top-level loop agrees with `Block`, text, table index and accumulators |
| `Walk.ProcessHTMLTree` | ipnb2tex.py:1024-1118 | `processHTMLTree` on the object agrees with `HtmlTree` |
| `Walk.ParagraphChildGrows` | ipnb2tex.py:1200-1227 | a paragraph child only appends entries, never lowers the counter and keeps every label given out |
| `Walk.ParagraphGrows` | ipnb2tex.py:1153-1253 | a paragraph only appends entries, never lowers the counter and keeps every label given out |
| `Walk.ListGrows` | ipnb2tex.py:1130-1149 | a list only appends entries, never lowers the counter and keeps every label given out |
| `Walk.BlocksGrow` | ipnb2tex.py:1034-1086 | one top-level element only appends entries and keeps every label given out |
| `Walk.TreeFromGrows` | ipnb2tex.py:1029-1086 | a top-level loop whose every pass only appends entries only appends entries and keeps every label given out |
| `Walk.HtmlTreeGrows` | ipnb2tex.py:1024-1118 | converting a cell's markup only appends entries and keeps every label given out |
| `Walk.BlocksCountTables` | ipnb2tex.py:1063-1065 | one top-level element moves `table_index` on by one exactly when it is a table that is not a heading, even one skipped for having no columns |
| `Walk.TreeFromTables` | ipnb2tex.py:1029-1086 | a loop whose passes count tables ends with `table_index` raised by the number of tables walked |
| `Walk.HtmlTreeTables` | ipnb2tex.py:1024-1086 | after a cell's top-level loop, `table_index` is the number of its tables, skipped tables included |
| `Walk.ParagraphTags` | ipnb2tex.py:1163-1250 | a paragraph that converts has only known inline children |
| `Walk.BlocksKnown` | ipnb2tex.py:1034-1086 | one top-level element converts only when it is a heading or a known top-level tag |
| `Walk.TreeFromTags` | ipnb2tex.py:1029-1086 | a loop that succeeds, with passes that fail on unknown tags, has met only headings and known top-level elements |
| `Walk.HtmlTreeTags` | ipnb2tex.py:1024-1086 | a cell that converts has only headings and known top-level elements |
| `Walk.ParagraphChildP` | ipnb2tex.py:1183-1184 | a nested `p` writes the text so far, its own paragraph stripped, a blank line and its tail |
| `Walk.NestedParagraphRepeats` | ipnb2tex.py:1183-1184 | a nested `p` without children is handed the text so far, so that text is written twice |
| `Walk.LeafParagraphChild` | ipnb2tex.py:1183-1184 | the same, with the blank line given as a value |
| `Walk.LeafParagraph` | ipnb2tex.py:1153-1253 | a paragraph without children or tail is the text it is handed and its own text, stripped, then a blank line |
| `Markdown.Delimiter` | ipnb2tex.py:946 | the delimiters hold neither `$` nor a newline |
| `Markdown.LineDollars` | ipnb2tex.py:958-960 | no `$$` is left in the line, the counter never goes back, and a line without `$$` is unchanged |
| `Markdown.VerbatimTestNeverHolds` | ipnb2tex.py:954 | the source's test `line[0:4] == '        '` holds for no line |
| `Markdown.LinesDollars` | ipnb2tex.py:952-961 | one output line per input line, after the lines already written |
| `Markdown.LinesDollarsSpec` | ipnb2tex.py:951-963 | corrected: indented code lines are kept and every other line is left without `$$` |
| `Markdown.LinesDollarsAsWritten` | ipnb2tex.py:951-963 | as written: no line is left with `$$`, indented or not |
| `Markdown.LinesStepAsWritten` | ipnb2tex.py:952-961 | as written, each line is rewritten by `LineDollars` and the counter moves on, whatever its indentation |
| `Markdown.DelimitersAlternate` | ipnb2tex.py:946-960 | consecutive counter values select different delimiters |
| `Markdown.LineDollarsStep` | ipnb2tex.py:958-960 | the leftmost `$$` is replaced by the delimiter the counter selects, and the counter moves on |
| `Markdown.OneDelimiter` | ipnb2tex.py:958-960 | a line with one `$$` gets the selected delimiter and the counter moves on by one |
| `Markdown.VerbatimLineRewritten` | ipnb2tex.py:954-955 | an indented line with `$$` is rewritten as written and kept as corrected |
| `Markdown.SharedCounter` | ipnb2tex.py:947-960 | the counter runs on across lines, so two lines with one `$$` each get opposite delimiters |
| `Markdown.DollarPassOf` | ipnb2tex.py:945-963 | the `$$` loop on the text is `DollarPass`, the pass as written, whose lines `LinesDollarsAsWritten` shows are all left without `$$` |
| `Markdown.Evens` | ipnb2tex.py:967 | `xs[::2]`: the elements at even indices |
| `Markdown.Odds` | ipnb2tex.py:966 | `xs[1::2]`: the elements at odd indices |
| `Markdown.Zip` | ipnb2tex.py:970 | `zip` pairs elements up to the shorter list |
| `Markdown.Shift` | ipnb2tex.py:973 | each end index moved by the width of the closing command |
| `Markdown.DollarSpansPaired` | ipnb2tex.py:965-970 | the `$` signs are paired in order, first with second and so on; an unpaired last one is dropped |
| `Markdown.SortSpec` | ipnb2tex.py:977 | `sorted` returns its argument in order, as a permutation |
| `Markdown.MathSpansSorted` | ipnb2tex.py:965-991 | the spans come out sorted and are exactly the dollar and environment spans |
| `Markdown.EscapableChars` | ipnb2tex.py:1000 | the characters escaped are exactly those of `` \`*_{}[]()#+-.! `` |
| `Markdown.CleanSpanRef` | ipnb2tex.py:999-1002 | the replacements one after the other escape each such character once, as one pass over the span would |
| `Markdown.CleanRefOneLine` | ipnb2tex.py:1002 | a cleaned span holds no newline |
| `Markdown.CleanRefEscaped` | ipnb2tex.py:1000-1001 | every markdown character left in a cleaned span follows a backslash |
| `Markdown.CleanSpanOf` | ipnb2tex.py:999-1003 | the cleaning loop on one span gives `CleanRef` |
| `Markdown.OneSpan` | ipnb2tex.py:993-1004 | with one span the text before and after it is kept and the span is cleaned |
| `Markdown.RewriteLast` | ipnb2tex.py:996-1004 | the last span: the gap before it, the span cleaned, then the rest of the text |
| `Markdown.RewriteStep` | ipnb2tex.py:996-1003 | one pass of the span loop continues `RewriteFrom` |
| `Markdown.RewriteSpansOf` | ipnb2tex.py:993-1004 | the span loop on the text is `RewriteSpans` |
| `Markdown.PlainTextUnchanged` | ipnb2tex.py:945-1004 | a text without `$$` and without math spans reaches the translator unchanged |
| `Markdown.ConvertMarkdownCell` | ipnb2tex.py:930-1007 | the metadata is merged, both passes run as written (`DollarPass`, then the span pass), and the walk on the translator's tree agrees with `HtmlTree` |
| `Listing.ListedCode` | ipnb2tex.py:591-600 | without the suppress mark the whole source is listed; the listing is unbound exactly for a one-line suppressed cell |
| `Listing.SplitOneLine` | ipnb2tex.py:592-594 | a text splits into one line exactly when it holds no newline |
| `Listing.Purpose` | ipnb2tex.py:610-618 | a first line `#text` longer than two characters and not `##` gives ` text`; a non-empty first line that is no comment gives the empty purpose; an empty text, an empty first line or any other comment gives none |
| `Listing.FirstLineStart` | ipnb2tex.py:611-612 | the first line is a prefix of the text, empty exactly when the text starts with a newline |
| `Listing.AutoLabelsDistinct` | ipnb2tex.py:606-607 | different cells get different automatic labels |
| `Listing.CaptionOption` | ipnb2tex.py:622-623 | the caption option is empty exactly when the caption is |
| `Listing.PrepInput` | ipnb2tex.py:585-643 | nothing for a cell without source; an error exactly for a one-line suppressed cell; two newlines for a skipped one; inline, nothing floated; floated, a listing always and a reference exactly when there is a purpose |
| `Listing.FloatedListing` | ipnb2tex.py:603-640 | a floated listing carries `Code Listing in cell N`, the cell's or the automatic label and the code unchanged; the text is the sentence referring to that label with the first line's purpose, or empty when the first line gives none |
| `Listing.InlineListing` | ipnb2tex.py:603-634 | an inline listing stands in the text with the metadata's caption and label, and nothing is floated |
| `Listing.SuppressedListsComment` | ipnb2tex.py:593-596 | a suppressed cell with a comment on its second line lists only that comment |
| `Listing.UnmarkedListsSource` | ipnb2tex.py:599-600 | a cell that does not start with the mark lists its whole source |
| `Document.OutputStep` | ipnb2tex.py:925 | an output with a text of its own appends it and leaves the bibliography alone; the text only grows |
| `Document.OutputStepGrows` | ipnb2tex.py:925 | one output's handler only adds to the bibliography |
| `Document.OutputsFromFails` | ipnb2tex.py:920-925 | an output of unknown type or of a type sent to `prepNotYet` (ipnb2tex.py:708-711) fails the loop, and only such an output or an HTML fragment can |
| `Document.OutputsFromGrows` | ipnb2tex.py:920-925 | the text and the bibliography only grow along the output loop |
| `Document.OutputsFromJoined` | ipnb2tex.py:920-925 | without HTML fragments the outputs' texts are appended in order and the bibliography is unchanged |
| `Document.OutputsFromSpec` | ipnb2tex.py:920-925 | an output of unknown type, or of type `svg`, `png` or `text` (`prepNotYet`, ipnb2tex.py:708-711), fails the loop, and only such an output or an HTML fragment can; the next such output gives `Unknown output type T.`, or `Unable to process cell type` with the cell's first output type; the text and the bibliography only grow; without HTML fragments the outputs' texts are appended in order and the bibliography is unchanged |
| `Document.OutputsOf` | ipnb2tex.py:920-925 | the output loop on the bibliography object, HTML fragments going through `processHTMLTree` and `prepNotYet` types raising, agrees with `OutputsFrom` |
| `Document.OutputInto` | ipnb2tex.py:925 | one handler call on the bibliography object agrees with `OutputStep` |
| `Document.ConvertCell` | ipnb2tex.py:1339-1342 | an unknown cell type raises `NotImplementedError`; only code cells give a listing; a raw cell gives its source as it is |
| `Document.ConvertCodeCell` | ipnb2tex.py:915-928 | `convertCodeCell` on the object (metadata entries, listing, then the outputs with their links, failing on unknown and `prepNotYet` types) agrees with `CodeCell` |
| `Document.MarkdownCellInto` | ipnb2tex.py:930-1017 | `convertMarkdownCell` on the object agrees with `MarkdownCell` |
| `Document.ConvertCellInto` | ipnb2tex.py:1258-1263 | the dispatch table on the object agrees with `ConvertCell` |
| `Document.CodeCellKeepsEntries` | ipnb2tex.py:915-928 | a code cell keeps the entries collected before and those of its metadata; without HTML outputs it adds only those of its metadata |
| `Document.MarkdownCellKeepsEntries` | ipnb2tex.py:930-1007 | a markdown cell keeps the entries collected before |
| `Document.ConvertCellKeepsEntries` | ipnb2tex.py:1342 | any cell keeps the entries collected before |
| `Document.DispatchConverts` | ipnb2tex.py:1258-1263 | the dispatch keeps entries, refuses unknown cell types and sets raw cells as they are |
| `Document.BibDirective` | ipnb2tex.py:1354-1356 | the bibliography directive is written exactly when there is an entry |
| `Document.CellStep` | ipnb2tex.py:1335-1349 | one pass of the cell loop continues `CellsFrom` |
| `Document.Finish` | ipnb2tex.py:1351-1358 | the listings, the directive and `\end{document}` close the document as `Closing` states |
| `Document.ProcessNotebook` | ipnb2tex.py:1301-1358 | the cell loop and the closing lines on the object agree with `Notebook` |
| `Document.CellsGrow` | ipnb2tex.py:1333-1349 | the loop only appends text, listings and entries, and every cell it passed has a known type |
| `Document.DocumentFrame` | ipnb2tex.py:1322-1358 | the document opens with a newline and ends with the directive (present exactly when there is an entry) and `\end{document}`; earlier entries are kept; every cell had a known type |
| `Document.HeaderFirst` | ipnb2tex.py:1335-1337 | when the first cell's type does not hold `raw`, the document opens with the header |
| `Document.RawFirstNoHeader` | ipnb2tex.py:1335-1337 | a raw first cell gets no header: the document opens with its source |
| `Document.Outcomes` | ipnb2tex.py:1333-1342 | one outcome per cell, each converted with the bibliography the cells before it left |
| `Document.CellsFromParts` | ipnb2tex.py:1333-1348 | the cell loop appends each cell's text (header first when due, markers removed) and each cell's listing, in cell order, ends with the last cell's bibliography, and fails with the first failing cell |
| `Document.FloatedListingsAtEnd` | ipnb2tex.py:1333-1358 | with floated listings, the document is a newline, the cells' texts in order, `\chapter{Listings}` with the cells' listings in order, the directive and the closing line; the bibliography is the last cell's |
| `Document.StripMarkersAbsent` | ipnb2tex.py:1345-1346 | text without protect markers is kept as it is |

## Left out

- Reading the notebook (`nbformat.read`, the Notebook 2 worksheet branch), every file write, the image directory, the command line and `getInfileNames`. The model starts from the parsed cells and ends with the document text.
- `Tree.RowNodes`: the markup edit of `convertHtmlTable` deletes the literal strings `<thead>`, `<tbody>` and their closing tags. The model dissolves a `thead` or `tbody` exactly when it has no attributes, so a bare opening tag written with other spacing or in capitals, and what the parser makes of a deleted closing tag whose opening tag stays, are not modelled.
- The Markdown translator and lxml's parsing and serialisation are left out. `markdown: string -> seq<Node>` stands for `markdown.markdown` followed by `lxml.html.fromstring`, and `Tree.TableOf` reads a `table` element directly. The `<div` test of `convertHtmlTable` (ipnb2tex.py:251-252), which matters only when a table holds a `div`, is not modelled.
- `eval` of list-valued metadata: `evalList: string -> seq<string>` stands for it.
- The output handlers of code cells (`prepOutput`, `prepExecuteResult`, `processDisplayOutput`, `prepError`) are not modelled key by key; `prepNotYet` is, as it always raises. Each output of the other types carries either the text its handler writes or, where the handler hands HTML to `processHTMLTree` (ipnb2tex.py:549-551, 665-666, 781-782), the parsed fragment, which goes through the walk with the cell and adds its links to the bibliography. Which data key a handler picks is not modelled, and neither are the tables and figures of `processLaTeXOutCell`.
- `standardHeader` is an opaque string, `Options.header`.
- `print` calls, Python 2 branches and the `unicode()` conversions.
- `Tree.ParseInt`: Python's `int()` also accepts underscores between digits and non-ASCII digits; the model accepts only optional white space, an optional sign and ASCII digits.
- The grids are unbounded integers; numpy's 64-bit `int` overflow is not modelled.
- A heading cell without a `level` key (a `KeyError` in the source) is modelled as a heading cell without a level.
- The second `br` branch of `processParagraph` (ipnb2tex.py:1236-1237) can never be reached, as the first one (ipnb2tex.py:1187-1188) catches every `br`, so it is not modelled.
- The source can fail in more than one way on the same input. When that happens, the model raises one of those errors; which one is not stated.
- `Walk.ProcessHTMLTree`: after an error the contract says nothing about the bibliography object. The source's globals keep what was appended before the exception, and the conversion stops there.
- `Document.ProcessNotebook`: likewise, the state of the bibliography after an error is not stated.
- `Document.ConvertCell`: the contract states the dispatch's error case, the raw case and the absence of listings outside code cells. The code and markdown results are stated by `Document.ConvertCodeCell` and `Document.MarkdownCellInto`.

## Findings

| source | as written | input that shows it | evidently intended | confidence | as-written member | corrected member |
|---|---|---|---|---|---|---|
| ipnb2tex.py:235 | `pw.strip('0')` removes zeros at both ends of the exponent | a table cell `1.5e+10` is rendered as `$1.5\times 10^{1}$` | only leading zeros dropped, giving `10^{10}` | not executed | `Escape.ExponentAsWrittenLosesValue` | `Escape.ExponentValue` |
| ipnb2tex.py:954 | `line[0:4] == '        '` compares at most four characters with eight spaces | a line `    $$x` in a cell with `$$` has its `$$` replaced although it is indented code | an indented code line (four leading spaces) is left alone | not executed | `Markdown.VerbatimLineRewritten` | `Markdown.LinesDollarsSpec` |
