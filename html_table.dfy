/**
 * The first stage of `convertHtmlTable` (ipnb2tex.py:267-289): the table's rows of cells, the
 * number of columns each row takes up once `colspan` and `rowspan` are counted, and the check
 * that every row takes up the same number.
 */
module HtmlTable {
  import opened Wrappers

  /**
   * One child of a `tr`: its tag, its `text_content()`, and its `colspan` and `rowspan`
   * attributes as `int()` reads them, when present.
   */
  datatype TCell = TCell(tag: string, text: string, colspan: Option<int>, rowspan: Option<int>)

  type Row = seq<TCell>

  /** A `table` element reduced to its `tr` rows (`thead` and `tbody` are dissolved first). */
  datatype Table = Table(rows: seq<Row>)

  predicate IsDataCell(c: TCell) {
    c.tag == "td" || c.tag == "th"
  }

  // ---------------------------------------------------------------- what each cell counts

  /**
   * What the cell in row `i` adds to the count of row `k`: `colspan - 1` to its own row, and 1
   * to its own row, or with a `rowspan` to each of the rows `i .. i + rowspan - 1`.  Cells that are
   * not `td` or `th` count nothing.
   */
  function CellCount(c: TCell, i: nat, k: nat): int {
    if !IsDataCell(c) then 0
    else
      (if k == i && c.colspan.Some? then c.colspan.value - 1 else 0)
      + (if c.rowspan.Some? then (if i <= k < i + c.rowspan.value then 1 else 0)
         else (if k == i then 1 else 0))
  }

  /** What the cells of `row` (row `i`) add to the count of row `k`. */
  function RowCount(row: Row, i: nat, k: nat): int {
    if row == [] then 0 else RowCount(row[..|row| - 1], i, k) + CellCount(row[|row| - 1], i, k)
  }

  /** What the first `n` rows add to the count of row `k`. */
  function RowsCount(rows: seq<Row>, n: nat, k: nat): int
    requires n <= |rows|
  {
    if n == 0 then 0 else RowsCount(rows, n - 1, k) + RowCount(rows[n - 1], n - 1, k)
  }

  /** The effective number of columns of row `k`. */
  function ColCount(t: Table, k: nat): int {
    RowsCount(t.rows, |t.rows|, k)
  }

  /** A data cell whose `rowspan` reaches past the last row. */
  predicate SpanOverflow(t: Table) {
    exists i, j :: 0 <= i < |t.rows| && 0 <= j < |t.rows[i]| && IsDataCell(t.rows[i][j])
                   && t.rows[i][j].rowspan.Some? && i + t.rows[i][j].rowspan.value > |t.rows|
  }

  /**
   * The counting loop of `convertHtmlTable` (ipnb2tex.py:270-281).  The list index `ind + j`
   * runs past the end when a `rowspan` reaches past the last row, and Python raises `IndexError`.
   */
  method CountColumns(t: Table) returns (r: Result<seq<int>>)
    ensures r.Err? <==> SpanOverflow(t)
    ensures r.Err? ==> r.error == IndexError("list index out of range")
    ensures r.Ok? ==> |r.value| == |t.rows| && forall k :: 0 <= k < |t.rows| ==> r.value[k] == ColCount(t, k)
  {
    var n := |t.rows|;
    var counts := seq(n, _ => 0);
    for ind := 0 to n
      invariant |counts| == n
      invariant forall k :: 0 <= k < n ==> counts[k] == RowsCount(t.rows, ind, k)
      invariant forall i, j :: (0 <= i < ind && 0 <= j < |t.rows[i]| && IsDataCell(t.rows[i][j])
                                && t.rows[i][j].rowspan.Some?) ==> i + t.rows[i][j].rowspan.value <= n
    {
      var row := t.rows[ind];
      for j := 0 to |row|
        invariant |counts| == n
        invariant forall k :: 0 <= k < n ==> counts[k] == RowsCount(t.rows, ind, k) + RowCount(row[..j], ind, k)
        invariant forall jj :: (0 <= jj < j && IsDataCell(row[jj]) && row[jj].rowspan.Some?)
                                 ==> ind + row[jj].rowspan.value <= n
      {
        var c := row[j];
        assert row[..j + 1][..j] == row[..j];
        if IsDataCell(c) {
          ghost var before := counts;
          if c.colspan.Some? {
            counts := counts[ind := counts[ind] + c.colspan.value - 1];
          }
          ghost var mid := counts;
          if c.rowspan.Some? {
            var top := if c.rowspan.value > 0 then c.rowspan.value else 0;
            for m := 0 to top
              invariant |counts| == n && (m == 0 || ind + m <= n)
              invariant forall k :: 0 <= k < n ==> counts[k] == mid[k] + (if ind <= k < ind + m then 1 else 0)
            {
              if ind + m >= n {
                assert SpanOverflow(t) by {
                  assert IsDataCell(t.rows[ind][j]) && t.rows[ind][j].rowspan.value > m;
                }
                return Err(IndexError("list index out of range"));
              }
              counts := counts[ind + m := counts[ind + m] + 1];
            }
          } else {
            counts := counts[ind := counts[ind] + 1];
          }
          assert forall k :: 0 <= k < n ==> counts[k] == before[k] + CellCount(c, ind, k);
        }
      }
      assert row[..|row|] == row;
    }
    return Ok(counts);
  }

  /** `len(set(col_counts)) != 1` raises `ValueError`; otherwise the one count is the table's width. */
  function Width(counts: seq<int>): (r: Result<int>)
    ensures r.Ok? <==> |counts| > 0 && forall k :: 0 <= k < |counts| ==> counts[k] == counts[0]
    ensures r.Ok? ==> r.value == counts[0]
    ensures r.Err? ==> r.error.ValueError?
  {
    if |counts| == 0 then Err(ValueError("inconsistent number of column counts"))
    else if exists k :: 0 <= k < |counts| && counts[k] != counts[0] then
      Err(ValueError("inconsistent number of column counts"))
    else Ok(counts[0])
  }

  // ---------------------------------------------------------------- tables without spans

  predicate NoSpans(t: Table) {
    forall i, j :: 0 <= i < |t.rows| && 0 <= j < |t.rows[i]| ==>
      IsDataCell(t.rows[i][j]) && t.rows[i][j].colspan.None? && t.rows[i][j].rowspan.None?
  }

  /** In a table without spans, a row's own cells count once each, in its own row only. */
  lemma {:induction false} PlainRowCount(row: Row, i: nat, k: nat)
    requires forall j :: 0 <= j < |row| ==> IsDataCell(row[j]) && row[j].colspan.None? && row[j].rowspan.None?
    ensures RowCount(row, i, k) == if k == i then |row| else 0
  {
    if row != [] {
      PlainRowCount(row[..|row| - 1], i, k);
    }
  }

  lemma {:induction false} PlainRowsCount(t: Table, n: nat, k: nat)
    requires NoSpans(t) && n <= |t.rows| && k < |t.rows|
    ensures RowsCount(t.rows, n, k) == if k < n then |t.rows[k]| else 0
  {
    if n > 0 {
      PlainRowsCount(t, n - 1, k);
      PlainRowCount(t.rows[n - 1], n - 1, k);
    }
  }

  /** Without spans the width of a row is its number of cells, so the check passes exactly when all rows are equally long. */
  lemma PlainTableWidth(t: Table)
    requires NoSpans(t)
    ensures forall k :: 0 <= k < |t.rows| ==> ColCount(t, k) == |t.rows[k]|
    ensures !SpanOverflow(t)
  {
    forall k | 0 <= k < |t.rows| ensures ColCount(t, k) == |t.rows[k]| {
      PlainRowsCount(t, |t.rows|, k);
    }
  }

  /** Only the rows down to row `k` count toward its width; the rows below it add nothing. */
  lemma {:induction false} RowsCountSplit(rows: seq<Row>, n: nat, k: nat)
    requires k < n <= |rows|
    ensures RowsCount(rows, n, k) == RowsCount(rows, k + 1, k)
    decreases n
  {
    if n > k + 1 {
      RowsCountSplit(rows, n - 1, k);
      BelowRowCountsNothing(rows[n - 1], n - 1, k);
    }
  }

  /** Cells of a row below row `k` add nothing to row `k`. */
  lemma {:induction false} BelowRowCountsNothing(row: Row, i: nat, k: nat)
    requires k < i
    ensures RowCount(row, i, k) == 0
  {
    if row != [] {
      BelowRowCountsNothing(row[..|row| - 1], i, k);
    }
  }
}
