/**
 * The last stage of `convertHtmlTable` (ipnb2tex.py:320-395): the filled grids are walked row by
 * row to write the `tabular` body, with `&` for columns carried from above, `\multicolumn` for
 * spanning cells and a `\hline` or `\cline` rule under every row; the result is wrapped in a
 * `table` float (with a caption) or a `center` block, inside a font-size group.
 *
 * Each specification function takes the text written so far (`acc`), as the source appends to
 * one string.
 */
module TableLatex {
  import opened Wrappers
  import opened Text
  import Escape
  import opened Metadata
  import opened HtmlTable
  import opened TableGrid

  function Ampersands(n: nat): (r: string)
    ensures |r| == n && forall i :: 0 <= i < n ==> r[i] == '&'
  {
    seq(n, _ => '&')
  }

  // ---------------------------------------------------------------- one row of cells

  /**
   * `while line[icol]: icol += 1`: the first column from `icol` on whose entry is 0.  Running off
   * the end of the row raises `IndexError`.
   */
  function FirstZero(line: seq<int>, icol: nat): (r: Result<nat>)
    ensures r.Ok? ==> icol <= r.value < |line| && line[r.value] == 0
                      && forall l :: icol <= l < r.value ==> line[l] != 0
    ensures r.Err? ==> r.error == IndexError("index out of bounds")
                       && forall l :: icol <= l < |line| ==> line[l] != 0
    decreases |line| - icol
  {
    if icol >= |line| then Err(IndexError("index out of bounds"))
    else if line[icol] != 0 then FirstZero(line, icol + 1)
    else Ok(icol)
  }

  /** A cell's text: stripped and escaped, inside `\multicolumn{n}{|c|}{...}` when it has a `colspan`. */
  function CellText(c: TCell): string {
    var txt := Escape.LatexEscapeForHtmlTableOutput(Strip(c.text));
    if c.colspan.Some? then "\\multicolumn{" + IntToString(c.colspan.value) + "}{|c|}{" + txt + "}" else txt
  }

  /** The texts of a row's cells, in order. */
  function RowTexts(row: Row): (r: seq<string>)
    ensures |r| == |row|
  {
    if row == [] then [] else [CellText(row[0])] + RowTexts(row[1..])
  }

  /**
   * The cells of a row from the `j`-th on (`texts` holds their texts), written after `acc`, the
   * next one looked for at column `icol`: an `&` for every column carried from above (`rs` is the
   * row's `rowspan` line), the cell's text and an `&`; then the columns the cell spans (`cs`, its
   * `colspan` line) are stepped over.
   */
  function EmitCells(rs: seq<int>, cs: seq<int>, texts: seq<string>, j: nat, icol: nat, acc: string): Result<string>
    requires j <= |texts|
    decreases |texts| - j
  {
    if j == |texts| then Ok(acc)
    else
      var c0 :- FirstZero(rs, icol);
      var c1 :- FirstZero(cs, c0);
      EmitCells(rs, cs, texts, j + 1, c1 + 1, acc + Ampersands(c0 - icol) + texts[j] + "&")
  }

  // ---------------------------------------------------------------- the rule under a row

  /** `\cline{i+1-i+1}`: a rule under column `i` alone. */
  function Cline(i: nat): string {
    "\\cline{" + NatToString(i + 1) + "-" + NatToString(i + 1) + "}"
  }

  /** The loop over the next row's carries from column `i` on: a `\cline` where `1 - carry > 0`. */
  function ClinesFrom(next: seq<int>, i: nat, acc: string): string
    requires i <= |next|
    decreases |next| - i
  {
    if i == |next| then acc
    else ClinesFrom(next, i + 1, if 1 - next[i] > 0 then acc + Cline(i) else acc)
  }

  /**
   * The rule under row `irow`: `\hline` under the first and the last row and when no column of
   * the next row is carried; otherwise the `\cline`s of the next row.
   */
  function Rule(rs: Grid, cols: nat, irow: nat): string
    requires Shaped(rs, |rs|, cols) && irow < |rs|
  {
    if irow == 0 || irow == |rs| - 1 then "\\hline"
    else
      var next := rs[irow + 1];
      if forall i :: 0 <= i < cols ==> next[i] == 0 then "\\hline"
      else ClinesFrom(next, 0, "")
  }

  /** The columns `i >= from` whose carry in `next` is below 1, in increasing order. */
  function ClineColumns(next: seq<int>, from: nat): (r: seq<nat>)
    requires from <= |next|
    ensures forall k :: 0 <= k < |r| ==> from <= r[k] < |next| && next[r[k]] < 1
    ensures forall l :: from <= l < |next| && next[l] < 1 ==> l in r
    ensures forall a, b :: 0 <= a < b < |r| ==> r[a] < r[b]
    decreases |next| - from
  {
    if from == |next| then []
    else if next[from] < 1 then [from] + ClineColumns(next, from + 1)
    else ClineColumns(next, from + 1)
  }

  function Clines(columns: seq<nat>): string {
    if columns == [] then "" else Cline(columns[0]) + Clines(columns[1..])
  }

  // ---------------------------------------------------------------- the whole tabular

  /** `latexTabular[:-1] + '\\\\' + hline + '\n'`: the closing `&` becomes the end of the row. */
  function CloseRow(s: string, rule: string): string {
    (if |s| > 0 then s[..|s| - 1] else "") + "\\\\" + rule + "\n"
  }

  /**
   * The rows from `irow` on, written after `acc`: each row's cells, then its last character
   * (the closing `&`) is replaced by `\\`, the rule and a newline.
   */
  function EmitRows(g: Grids, t: Table, cols: nat, irow: nat, acc: string): Result<string>
    requires GridsShaped(g, |t.rows|, cols) && irow <= |t.rows|
    decreases |t.rows| - irow
  {
    if irow == |t.rows| then Ok(acc)
    else
      var withCells :- EmitCells(g.rowspan[irow], g.colspan[irow], RowTexts(t.rows[irow]), 0, 0, acc);
      EmitRows(g, t, cols, irow + 1, CloseRow(withCells, Rule(g.rowspan, cols, irow)))
  }

  function TabularHead(format: string): string {
    "\n\\begin{tabular}{" + format + "}\n" + "\\hline\n"
  }

  function Tabular(g: Grids, t: Table, cols: nat, format: string): Result<string>
    requires GridsShaped(g, |t.rows|, cols)
  {
    var body :- EmitRows(g, t, cols, 0, TabularHead(format));
    Ok(body + "\n" + "\\end{tabular}\n")
  }

  /** `'|' + '|'.join(['c'] * cols) + '|'`: one centred column each, with rules between and around. */
  function DefaultFormat(cols: nat): (r: string)
    ensures cols > 0 ==> |r| == 2 * cols + 1 && forall k :: 0 <= k < |r| ==> r[k] == if k % 2 == 0 then '|' else 'c'
  {
    JoinedCs(cols);
    "|" + Join('|', seq(cols, _ => "c")) + "|"
  }

  lemma {:induction false} JoinedCs(n: nat)
    ensures n > 0 ==> var j := Join('|', seq(n, _ => "c"));
                      |j| == 2 * n - 1 && forall k :: 0 <= k < |j| ==> j[k] == if k % 2 == 0 then 'c' else '|'
  {
    if n > 1 {
      JoinedCs(n - 1);
      var cs := seq(n, _ => "c");
      assert cs[1..] == seq(n - 1, _ => "c");
    }
  }

  /** The column format: the metadata `format` for this table, or the default when it is empty. */
  function Format(meta: CellMetadata, tableIndex: nat, cols: nat, evalList: string -> seq<string>): string {
    var f := GetMetaDataString(meta, tableIndex, "tableCaption", "format", "", evalList);
    if f == "" then DefaultFormat(cols) else f
  }

  /**
   * The tabular wrapped for the page (ipnb2tex.py:368-390): with a caption, a `table` float with
   * the caption and (when given) the label suffixed by the table index; without one, a `center`
   * block and no label.  Inside, a font-size group, `normalsize` by default.
   */
  function Wrap(meta: CellMetadata, tableIndex: nat, tabular: string, evalList: string -> seq<string>): string {
    var caption := GetMetaDataString(meta, tableIndex, "tableCaption", "caption", "", evalList);
    var fontsize := GetMetaDataString(meta, tableIndex, "tableCaption", "fontsize", "normalsize", evalList);
    var labelID := GetMetaDataString(meta, tableIndex, "tableCaption", "label", "", evalList);
    var labelStr := if labelID != "" then "\\label{" + labelID + "-" + NatToString(tableIndex) + "}" else "";
    (if caption != "" then "\n\\begin{table}[htb]\n" + "\\centering\n" + "\\caption{" + caption + labelStr + "}\n"
     else "\\begin{center}\n")
    + "\n\\begin{" + fontsize + "}\n" + tabular + "\\end{" + fontsize + "}\n"
    + (if caption != "" then "\\end{table}\n\n" else "\\end{center}\n\n")
  }

  /** The column counts as the counting loop leaves them. */
  function ColumnCounts(t: Table): Result<seq<int>> {
    if SpanOverflow(t) then Err(IndexError("list index out of range"))
    else Ok(seq(|t.rows|, k requires 0 <= k => ColCount(t, k)))
  }

  /**
   * One `table` element: its LaTeX, or `None` when it has no columns (the loop `continue`s).
   * Inconsistent counts and a negative width raise `ValueError`.
   */
  function TableLatex(t: Table, meta: CellMetadata, tableIndex: nat, evalList: string -> seq<string>): Result<Option<string>> {
    var counts :- ColumnCounts(t);
    var width :- Width(counts);
    if width == 0 then Ok(None)
    else if width < 0 then Err(ValueError("negative dimensions are not allowed"))
    else
      var g :- FillGrids(t, width);
      var tabular :- Tabular(g, t, width, Format(meta, tableIndex, width, evalList));
      Ok(Some(Wrap(meta, tableIndex, tabular, evalList)))
  }

  /**
   * The `table` elements of one HTML fragment from the `i`-th on, written after `acc`; the index
   * counts the tables written, not the ones skipped.
   */
  function TablesFrom(ts: seq<Table>, i: nat, meta: CellMetadata, tableIndex: nat, evalList: string -> seq<string>,
                      acc: string): Result<string>
    requires i <= |ts|
    decreases |ts| - i
  {
    if i == |ts| then Ok(acc)
    else
      var one :- TableLatex(ts[i], meta, tableIndex, evalList);
      if one.Some? then TablesFrom(ts, i + 1, meta, tableIndex + 1, evalList, acc + one.value)
      else TablesFrom(ts, i + 1, meta, tableIndex, evalList, acc)
  }

  lemma EmitRowsStep(g: Grids, t: Table, cols: nat, irow: nat, acc: string, withCells: string)
    requires GridsShaped(g, |t.rows|, cols) && irow < |t.rows|
    requires EmitCells(g.rowspan[irow], g.colspan[irow], RowTexts(t.rows[irow]), 0, 0, acc) == Ok(withCells)
    ensures EmitRows(g, t, cols, irow, acc) == EmitRows(g, t, cols, irow + 1, CloseRow(withCells, Rule(g.rowspan, cols, irow)))
  {
  }

  lemma TablesFromStep(ts: seq<Table>, i: nat, meta: CellMetadata, tableIndex: nat, evalList: string -> seq<string>,
                       acc: string, one: Result<Option<string>>)
    requires i < |ts| && TableLatex(ts[i], meta, tableIndex, evalList) == one
    ensures TablesFrom(ts, i, meta, tableIndex, evalList, acc)
            == if one.Err? then Err(one.error)
               else if one.value.Some? then TablesFrom(ts, i + 1, meta, tableIndex + 1, evalList, acc + one.value.value)
               else TablesFrom(ts, i + 1, meta, tableIndex, evalList, acc)
  {
  }

  // ---------------------------------------------------------------- properties

  /** The `\cline` loop writes one `\cline` for each column whose carry is below 1, in order. */
  lemma {:induction false} ClinesFromColumns(next: seq<int>, i: nat, acc: string)
    requires i <= |next|
    ensures ClinesFrom(next, i, acc) == acc + Clines(ClineColumns(next, i))
    decreases |next| - i
  {
    if i < |next| {
      if 1 - next[i] > 0 {
        ClinesFromColumns(next, i + 1, acc + Cline(i));
        ClinesCons(acc, i, ClineColumns(next, i + 1));
      } else {
        ClinesFromColumns(next, i + 1, acc);
      }
    }
  }

  /** One more column in front: its `\cline` comes first. */
  lemma ClinesCons(acc: string, i: nat, rest: seq<nat>)
    ensures (acc + Cline(i)) + Clines(rest) == acc + Clines([i] + rest)
  {
    assert ([i] + rest)[1..] == rest;
  }

  /**
   * Under a middle row whose next row carries a column, the rule is exactly the `\cline`s of the
   * columns the next row does not carry from above.
   */
  lemma RuleMiddle(rs: Grid, cols: nat, irow: nat)
    requires Shaped(rs, |rs|, cols) && 0 < irow < |rs| - 1
    requires var next := rs[irow + 1]; exists i :: 0 <= i < cols && next[i] != 0
    ensures Rule(rs, cols, irow) == Clines(ClineColumns(rs[irow + 1], 0))
  {
    ClinesFromColumns(rs[irow + 1], 0, "");
  }

  /**
   * The errors of one table: a `rowspan` past the last row raises `IndexError`; otherwise rows of
   * different widths, or no rows at all, raise `ValueError`; a table whose rows are all of width 0
   * writes nothing.
   */
  lemma TableLatexErrors(t: Table, meta: CellMetadata, tableIndex: nat, evalList: string -> seq<string>)
    ensures var r := TableLatex(t, meta, tableIndex, evalList);
            && (SpanOverflow(t) ==> r == Err(IndexError("list index out of range")))
            && ((!SpanOverflow(t) && (|t.rows| == 0 || exists k :: 0 <= k < |t.rows| && ColCount(t, k) != ColCount(t, 0)))
                ==> r.Err? && r.error.ValueError?)
            && ((!SpanOverflow(t) && |t.rows| > 0 && forall k :: 0 <= k < |t.rows| ==> ColCount(t, k) == 0)
                ==> r == Ok(None))
  {
    if !SpanOverflow(t) {
      var counts := ColumnCounts(t).value;
      assert forall k :: 0 <= k < |t.rows| ==> counts[k] == ColCount(t, k);
    }
  }

  // ---------------------------------------------------------------- a table without spans

  /** The line a row of a table without spans becomes: its cell texts joined by `&`, `\\`, `\hline`. */
  function PlainRowLine(texts: seq<string>): string {
    Join('&', texts) + "\\\\" + "\\hline" + "\n"
  }

  /** One such line per row, in order. */
  function PlainRowLines(rows: seq<Row>): string {
    if rows == [] then "" else PlainRowLine(RowTexts(rows[0])) + PlainRowLines(rows[1..])
  }

  /** Every row of the table has `cols` cells, none of them spanning. */
  predicate Uniform(t: Table, cols: nat) {
    NoSpans(t) && forall i :: 0 <= i < |t.rows| ==> |t.rows[i]| == cols
  }

  /** Placing a cell without spans into all-zero grids changes nothing and moves one column on. */
  lemma PlainPlaceCell(rows: nat, cols: nat, irow: nat, icol: nat, cell: TCell)
    requires irow < rows && icol < cols
    requires IsDataCell(cell) && cell.colspan.None? && cell.rowspan.None?
    ensures var z := Zeros(rows, cols);
            PlaceCell(Grids(z, z), rows, cols, irow, icol, cell) == Ok(Placed(Grids(z, z), icol + 1))
  {
    var z := Zeros(rows, cols);
    assert z[irow][icol := 0] == z[irow];
    assert Set(z, irow, icol, 0) == z;
  }

  lemma {:induction false} PlainFillRow(rows: nat, cols: nat, irow: nat, row: Row, j: nat)
    requires irow < rows && j <= |row| <= cols
    requires forall k :: 0 <= k < |row| ==> IsDataCell(row[k]) && row[k].colspan.None? && row[k].rowspan.None?
    ensures var z := Zeros(rows, cols);
            FillRow(Grids(z, z), rows, cols, irow, row, j, j) == Ok(Grids(z, z))
    decreases |row| - j
  {
    if j < |row| {
      PlainPlaceCell(rows, cols, irow, j, row[j]);
      PlainFillRow(rows, cols, irow, row, j + 1);
    }
  }

  /** Filling the grids of a uniform table leaves both of them all zero. */
  lemma {:induction false} PlainFillRows(t: Table, cols: nat, irow: nat)
    requires Uniform(t, cols) && irow <= |t.rows|
    ensures var z := Zeros(|t.rows|, cols);
            FillRows(Grids(z, z), t, cols, irow) == Ok(Grids(z, z))
    decreases |t.rows| - irow
  {
    if irow < |t.rows| {
      PlainFillRow(|t.rows|, cols, irow, t.rows[irow], 0);
      PlainFillRows(t, cols, irow + 1);
    }
  }

  /** With nothing carried and nothing spanned, each cell is its text and an `&`. */
  lemma {:induction false} PlainCells(zero: seq<int>, texts: seq<string>, j: nat, acc: string)
    requires j < |texts| <= |zero| && forall l :: 0 <= l < |zero| ==> zero[l] == 0
    ensures EmitCells(zero, zero, texts, j, j, acc) == Ok(acc + Join('&', texts[j..]) + "&")
    decreases |texts| - j
  {
    var rest := texts[j..];
    assert rest[1..] == texts[j + 1..];
    assert FirstZero(zero, j) == Ok(j);
    assert Ampersands(0) == "";
    var acc' := acc + texts[j] + "&";
    assert acc + Ampersands(j - j) + texts[j] + "&" == acc';
    assert EmitCells(zero, zero, texts, j, j, acc) == EmitCells(zero, zero, texts, j + 1, j + 1, acc');
    if j + 1 < |texts| {
      PlainCells(zero, texts, j + 1, acc');
      assert Join('&', rest) == texts[j] + ['&'] + Join('&', texts[j + 1..]);
      assert acc' + Join('&', texts[j + 1..]) + "&" == acc + Join('&', rest) + "&";
    } else {
      assert Join('&', rest) == texts[j];
    }
  }

  /** The rule under any row of all-zero carries is `\hline`. */
  lemma PlainRule(rows: nat, cols: nat, irow: nat)
    requires irow < rows
    ensures Rule(Zeros(rows, cols), cols, irow) == "\\hline"
  {
  }

  /** One row of a uniform table: its line is appended and the next row follows. */
  lemma PlainRow(t: Table, cols: nat, irow: nat, acc: string)
    requires Uniform(t, cols) && cols > 0 && irow < |t.rows|
    ensures var z := Zeros(|t.rows|, cols);
            EmitRows(Grids(z, z), t, cols, irow, acc)
            == EmitRows(Grids(z, z), t, cols, irow + 1, acc + PlainRowLine(RowTexts(t.rows[irow])))
  {
    var z := Zeros(|t.rows|, cols);
    var texts := RowTexts(t.rows[irow]);
    PlainCells(z[irow], texts, 0, acc);
    var joined := Join('&', texts);
    assert texts[0..] == texts;
    var withCells := acc + joined + "&";
    EmitRowsStep(Grids(z, z), t, cols, irow, acc, withCells);
    var rule := Rule(z, cols, irow);
    PlainRule(|t.rows|, cols, irow);
    ClosePlainRow(acc, texts, rule);
  }

  /** A plain row's cells, closed under `\hline`, are its line. */
  lemma ClosePlainRow(acc: string, texts: seq<string>, rule: string)
    requires rule == "\\hline"
    ensures CloseRow(acc + Join('&', texts) + "&", rule) == acc + PlainRowLine(texts)
  {
    var joined := Join('&', texts);
    CloseAmpersand(acc + joined, rule);
    assert acc + joined + "\\\\" + rule + "\n" == acc + (joined + "\\\\" + rule + "\n");
  }

  /** Closing a row replaces its final `&` by `\\`, the rule and a newline. */
  lemma CloseAmpersand(s: string, rule: string)
    ensures CloseRow(s + "&", rule) == s + "\\\\" + rule + "\n"
  {
    assert (s + "&")[..|s|] == s;
  }

  lemma {:induction false} PlainEmitRows(t: Table, cols: nat, irow: nat, acc: string)
    requires Uniform(t, cols) && cols > 0 && irow <= |t.rows|
    ensures var z := Zeros(|t.rows|, cols);
            EmitRows(Grids(z, z), t, cols, irow, acc) == Ok(acc + PlainRowLines(t.rows[irow..]))
    decreases |t.rows| - irow
  {
    if irow < |t.rows| {
      var line := PlainRowLine(RowTexts(t.rows[irow]));
      PlainRow(t, cols, irow, acc);
      PlainEmitRows(t, cols, irow + 1, acc + line);
      assert t.rows[irow..][1..] == t.rows[irow + 1..];
      assert acc + PlainRowLines(t.rows[irow..]) == acc + line + PlainRowLines(t.rows[irow + 1..]);
    } else {
      assert t.rows[irow..] == [];
      assert acc + "" == acc;
    }
  }

  /**
   * A table of `R` rows of `n > 0` plain cells each is written as a `tabular` of exactly `R`
   * lines after the opening `\hline`, each the row's cell texts joined by `&` and closed by `\\`
   * and `\hline`; the table is wrapped as usual.
   */
  lemma PlainTable(t: Table, n: nat, meta: CellMetadata, tableIndex: nat, evalList: string -> seq<string>)
    requires Uniform(t, n) && n > 0 && |t.rows| > 0
    ensures TableLatex(t, meta, tableIndex, evalList)
            == Ok(Some(Wrap(meta, tableIndex,
                            TabularHead(Format(meta, tableIndex, n, evalList)) + PlainRowLines(t.rows)
                            + "\n" + "\\end{tabular}\n", evalList)))
  {
    PlainTableWidth(t);
    var counts := ColumnCounts(t).value;
    assert forall k :: 0 <= k < |t.rows| ==> counts[k] == n;
    assert Width(counts) == Ok(n);
    PlainFillRows(t, n, 0);
    PlainEmitRows(t, n, 0, TabularHead(Format(meta, tableIndex, n, evalList)));
    assert t.rows[0..] == t.rows;
  }

  /** The line a plain row becomes has one `&` between cells when the texts hold none. */
  lemma {:induction false} PlainRowAmpersands(texts: seq<string>)
    requires |texts| > 0 && forall k, l :: 0 <= k < |texts| && 0 <= l < |texts[k]| ==> texts[k][l] != '&'
    ensures Split(Join('&', texts), '&') == texts
    decreases |texts|
  {
    assert '&' !in texts[0];
    if |texts| > 1 {
      PlainRowAmpersands(texts[1..]);
      SplitPiece(texts[0], '&', Join('&', texts[1..]));
    } else {
      SplitNone(texts[0], '&');
    }
  }

  // ---------------------------------------------------------------- columns carried from above

  /**
   * While the next cell of a row is looked for, a column carried from above is written as one
   * `&` and nothing else, and the search goes on at the next column.
   */
  lemma CarriedColumn(rs: seq<int>, cs: seq<int>, texts: seq<string>, j: nat, icol: nat, acc: string)
    requires j < |texts| && icol < |rs| && rs[icol] != 0
    ensures EmitCells(rs, cs, texts, j, icol, acc) == EmitCells(rs, cs, texts, j, icol + 1, acc + "&")
  {
    var c0 := FirstZero(rs, icol);
    assert c0 == FirstZero(rs, icol + 1);
    if c0.Ok? {
      assert acc + Ampersands(c0.value - icol) == (acc + "&") + Ampersands(c0.value - (icol + 1));
    }
  }

  /**
   * A cell with `rowspan = n` (`n >= 2`) in row `r` ending at column `c` leaves the carries
   * `n - 1, ..., 1` in column `c` of rows `r + 1 .. r + n - 1`.  In each of those rows, column
   * `c` is written as a lone `&` filler, and the rule under each row from `r` to `r + n - 2` is
   * the `\cline`s of the other columns, with none for column `c`; under the first row the rule
   * is `\hline` whatever is carried.
   */
  lemma RowspanFillers(rs: Grid, cols: nat, r: nat, c: nat, n: int)
    requires Shaped(rs, |rs|, cols) && c < cols && 2 <= n && r + n <= |rs|
    requires forall m :: r < m < r + n ==> rs[m][c] == n - (m - r)
    ensures forall m, cs: seq<int>, texts: seq<string>, j: nat, acc: string :: r < m < r + n && j < |texts| ==>
              EmitCells(rs[m], cs, texts, j, c, acc) == EmitCells(rs[m], cs, texts, j, c + 1, acc + "&")
    ensures forall m :: r <= m < r + n - 1 && 0 < m ==>
              Rule(rs, cols, m) == Clines(ClineColumns(rs[m + 1], 0)) && c !in ClineColumns(rs[m + 1], 0)
    ensures r == 0 ==> Rule(rs, cols, r) == "\\hline"
  {
    if r == 0 {
      assert Rule(rs, cols, r) == "\\hline";
    }
    forall m, cs: seq<int>, texts: seq<string>, j: nat, acc: string | r < m < r + n && j < |texts|
      ensures EmitCells(rs[m], cs, texts, j, c, acc) == EmitCells(rs[m], cs, texts, j, c + 1, acc + "&")
    {
      CarriedColumn(rs[m], cs, texts, j, c, acc);
    }
    forall m | r <= m < r + n - 1 && 0 < m
      ensures Rule(rs, cols, m) == Clines(ClineColumns(rs[m + 1], 0)) && c !in ClineColumns(rs[m + 1], 0)
    {
      assert rs[m + 1][c] == n - (m + 1 - r) >= 1;
      RuleMiddle(rs, cols, m);
      var columns := ClineColumns(rs[m + 1], 0);
      assert forall k :: 0 <= k < |columns| ==> columns[k] != c;
    }
  }

  /** The grids a placed cell with `rowspan >= 2` leaves meet the conditions of `RowspanFillers`. */
  lemma PlacedRowspanFillers(g: Grids, rows: nat, cols: nat, irow: nat, icol: nat, cell: TCell)
    requires GridsShaped(g, rows, cols) && irow < rows
    requires PlaceCell(g, rows, cols, irow, icol, cell).Ok? && cell.rowspan.Some? && cell.rowspan.value >= 2
    ensures var p := PlaceCell(g, rows, cols, irow, icol, cell).value;
            var n := cell.rowspan.value;
            irow + n <= rows && forall m :: irow < m < irow + n ==> p.g.rowspan[m][p.icol - 1] == n - (m - irow)
  {
    RowspanCountsDown(g, rows, cols, irow, icol, cell);
  }

  // ---------------------------------------------------------------- the loops over the arrays

  /** The `while` over one row of a grid. */
  method SkipNonZero(a: array2<int>, irow: nat, icol: nat, ghost line: seq<int>) returns (r: Result<nat>)
    requires irow < a.Length0 && |line| == a.Length1
    requires forall l :: 0 <= l < a.Length1 ==> a[irow, l] == line[l]
    ensures r == FirstZero(line, icol)
  {
    var c := icol;
    while c < a.Length1 && a[irow, c] != 0
      invariant icol <= c && FirstZero(line, icol) == FirstZero(line, c)
      decreases a.Length1 - c
    {
      c := c + 1;
    }
    if c >= a.Length1 {
      return Err(IndexError("index out of bounds"));
    }
    return Ok(c);
  }

  /** The rule under row `irow`, read off the `rowspan` array (ipnb2tex.py:350-360). */
  method RuleOf(rs: array2<int>, irow: nat, ghost g: Grid) returns (hline: string)
    requires irow < rs.Length0 && Holds(rs, g)
    ensures hline == Rule(g, rs.Length1, irow)
  {
    var rows := rs.Length0;
    var cols := rs.Length1;
    if irow == 0 || irow == rows - 1 {
      return "\\hline";
    }
    ghost var next := g[irow + 1];
    assert forall l :: 0 <= l < cols ==> rs[irow + 1, l] == next[l];
    var nonzero: nat := 0;
    for i := 0 to cols
      invariant (nonzero == 0) <==> (forall l :: 0 <= l < i ==> next[l] == 0)
    {
      if rs[irow + 1, i] != 0 {
        nonzero := nonzero + 1;
      }
    }
    if nonzero == 0 {
      return "\\hline";
    }
    hline := "";
    for i := 0 to cols
      invariant ClinesFrom(next, 0, "") == ClinesFrom(next, i, hline)
    {
      if 1 - rs[irow + 1, i] > 0 {
        hline := hline + Cline(i);
      }
    }
  }

  /** The cells of row `irow` appended to `latex` (ipnb2tex.py:332-348). */
  method EmitRowInto(rs: array2<int>, cs: array2<int>, irow: nat, texts: seq<string>, latex: string,
                     ghost rl: seq<int>, ghost cl: seq<int>)
    returns (r: Result<string>)
    requires irow < rs.Length0 && irow < cs.Length0 && |rl| == rs.Length1 && |cl| == cs.Length1
    requires forall l :: 0 <= l < rs.Length1 ==> rs[irow, l] == rl[l]
    requires forall l :: 0 <= l < cs.Length1 ==> cs[irow, l] == cl[l]
    ensures r == EmitCells(rl, cl, texts, 0, 0, latex)
  {
    var out := latex;
    var icol := 0;
    for j := 0 to |texts|
      invariant EmitCells(rl, cl, texts, 0, 0, latex) == EmitCells(rl, cl, texts, j, icol, out)
    {
      var c0 :- SkipNonZero(rs, irow, icol, rl);
      out := out + Ampersands(c0 - icol);
      out := out + texts[j] + "&";
      var c1 :- SkipNonZero(cs, irow, c0, cl);
      icol := c1 + 1;
    }
    return Ok(out);
  }

  /** One pass of the row loop: row `irow`'s cells and its rule appended to `latex`. */
  method WriteRow(rs: array2<int>, cs: array2<int>, t: Table, irow: nat, latex: string, ghost g: Grids)
    returns (r: Result<string>)
    requires rs.Length0 == cs.Length0 == |t.rows| && rs.Length1 == cs.Length1 && irow < |t.rows|
    requires Holds(rs, g.rowspan) && Holds(cs, g.colspan)
    ensures EmitRows(g, t, rs.Length1, irow, latex)
            == if r.Err? then Err(r.error) else EmitRows(g, t, rs.Length1, irow + 1, r.value)
  {
    var texts := RowTexts(t.rows[irow]);
    var withCells := EmitRowInto(rs, cs, irow, texts, latex, g.rowspan[irow], g.colspan[irow]);
    if withCells.Err? {
      return Err(withCells.error);
    }
    var hline := RuleOf(rs, irow, g.rowspan);
    EmitRowsStep(g, t, rs.Length1, irow, latex, withCells.value);
    return Ok(CloseRow(withCells.value, hline));
  }

  /** The tabular written from the two arrays (ipnb2tex.py:327-366). */
  method TabularOf(rs: array2<int>, cs: array2<int>, t: Table, format: string, ghost g: Grids)
    returns (r: Result<string>)
    requires rs.Length0 == cs.Length0 == |t.rows| && rs.Length1 == cs.Length1
    requires Holds(rs, g.rowspan) && Holds(cs, g.colspan)
    ensures r == Tabular(g, t, rs.Length1, format)
  {
    var latex := TabularHead(format);
    for irow := 0 to |t.rows|
      invariant EmitRows(g, t, rs.Length1, 0, TabularHead(format)) == EmitRows(g, t, rs.Length1, irow, latex)
    {
      latex :- WriteRow(rs, cs, t, irow, latex, g);
    }
    return Ok(latex + "\n" + "\\end{tabular}\n");
  }

  /** One `table` element, from the column count to the wrapped tabular (ipnb2tex.py:267-393). */
  method ConvertTable(t: Table, meta: CellMetadata, tableIndex: nat, evalList: string -> seq<string>)
    returns (r: Result<Option<string>>)
    ensures r == TableLatex(t, meta, tableIndex, evalList)
  {
    var counts :- CountColumns(t);
    assert counts == seq(|t.rows|, k requires 0 <= k => ColCount(t, k));
    var width :- Width(counts);
    if width == 0 {
      return Ok(None);
    }
    if width < 0 {
      return Err(ValueError("negative dimensions are not allowed"));
    }
    var rows := |t.rows|;
    var rs := new int[rows, width]((i, j) => 0);
    var cs := new int[rows, width]((i, j) => 0);
    var filled := FillGridsInto(t, rs, cs);
    if filled.Err? {
      return Err(filled.error);
    }
    ghost var g := FillGrids(t, width).value;
    var format := Format(meta, tableIndex, width, evalList);
    var tabular :- TabularOf(rs, cs, t, format, g);
    return Ok(Some(Wrap(meta, tableIndex, tabular, evalList)));
  }

  /** One pass of the loop of `convertHtmlTable`: the `i`-th table appended to `out`, and the next index. */
  method AppendTable(ts: seq<Table>, i: nat, meta: CellMetadata, index: nat, evalList: string -> seq<string>, out: string)
    returns (r: Result<(string, nat)>)
    requires i < |ts|
    ensures TablesFrom(ts, i, meta, index, evalList, out)
            == if r.Err? then Err(r.error) else TablesFrom(ts, i + 1, meta, r.value.1, evalList, r.value.0)
  {
    var one := ConvertTable(ts[i], meta, index, evalList);
    TablesFromStep(ts, i, meta, index, evalList, out, one);
    if one.Err? {
      return Err(one.error);
    }
    if one.value.Some? {
      return Ok((out + one.value.value, index + 1));
    }
    return Ok((out, index));
  }

  /** `convertHtmlTable` (ipnb2tex.py:245-395): every `table` of the fragment in turn. */
  method ConvertHtmlTable(ts: seq<Table>, meta: CellMetadata, tableIndex: nat, evalList: string -> seq<string>)
    returns (r: Result<string>)
    ensures r == TablesFrom(ts, 0, meta, tableIndex, evalList, "")
  {
    var out := "";
    var index := tableIndex;
    for i := 0 to |ts|
      invariant TablesFrom(ts, 0, meta, tableIndex, evalList, "") == TablesFrom(ts, i, meta, index, evalList, out)
    {
      var next :- AppendTable(ts, i, meta, index, evalList, out);
      out, index := next.0, next.1;
    }
    return Ok(out);
  }
}
