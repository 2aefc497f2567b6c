/**
 * The second stage of `convertHtmlTable` (ipnb2tex.py:293-316): two integer grids, one row per
 * `tr` and one column per effective column.  `colspan[r, c]` is 1 where column `c` of row `r`
 * is covered by a cell that starts further left; `rowspan[r, c]` counts down the rows a cell
 * from above still covers in column `c`.
 */
module TableGrid {
  import opened Wrappers
  import opened HtmlTable

  type Grid = seq<seq<int>>

  predicate Shaped(g: Grid, rows: nat, cols: nat) {
    |g| == rows && forall i :: 0 <= i < rows ==> |g[i]| == cols
  }

  /** `np.zeros((rows, cols))`. */
  function Zeros(rows: nat, cols: nat): (g: Grid)
    ensures Shaped(g, rows, cols)
    ensures forall i, j :: 0 <= i < rows && 0 <= j < cols ==> g[i][j] == 0
  {
    seq(rows, _ => seq(cols, _ => 0))
  }

  /** `g[i, j] = v`. */
  function Set(g: Grid, i: nat, j: nat, v: int): (r: Grid)
    requires i < |g| && j < |g[i]|
    ensures |r| == |g| && forall k :: 0 <= k < |g| ==> |r[k]| == |g[k]|
    ensures forall k, l :: 0 <= k < |g| && 0 <= l < |g[k]| ==> r[k][l] == if k == i && l == j then v else g[k][l]
  {
    g[i := g[i][j := v]]
  }

  /** The `colspan` loop: `count` columns from `from` on in row `irow` are marked as spanned. */
  function MarkSpanned(g: Grid, cols: nat, irow: nat, from: nat, count: nat): (r: Grid)
    requires Shaped(g, |g|, cols) && irow < |g| && from + count <= cols
    ensures Shaped(r, |g|, cols)
    ensures forall k, l :: 0 <= k < |g| && 0 <= l < cols ==>
              r[k][l] == if k == irow && from <= l < from + count then 1 else g[k][l]
    decreases count
  {
    if count == 0 then g else MarkSpanned(Set(g, irow, from, 1), cols, irow, from + 1, count - 1)
  }

  /** The `rowspan` loop: row `irow + i` of column `c`, for `i` from `i` to `down`, is set to `k - i`. */
  function CountDown(g: Grid, cols: nat, irow: nat, c: nat, k: int, i: nat, down: nat): (r: Grid)
    requires Shaped(g, |g|, cols) && c < cols && irow + down < |g|
    ensures Shaped(r, |g|, cols)
    ensures forall m, l :: 0 <= m < |g| && 0 <= l < cols ==>
              r[m][l] == if l == c && irow + i <= m <= irow + down then k - (m - irow) else g[m][l]
    decreases down + 1 - i
  {
    if i > down then g else CountDown(Set(g, irow + i, c, k - i), cols, irow, c, k, i + 1, down)
  }

  datatype Grids = Grids(rowspan: Grid, colspan: Grid)

  predicate GridsShaped(g: Grids, rows: nat, cols: nat) {
    Shaped(g.rowspan, rows, cols) && Shaped(g.colspan, rows, cols)
  }

  /** The grids after a cell, and the column the next cell is looked for at. */
  datatype Placed = Placed(g: Grids, icol: nat)

  /** How many columns a `colspan` adds beyond the cell's own (`range(1, colspan)`). */
  function Extra(c: TCell): nat {
    if c.colspan.Some? then Down(c.colspan.value) else 0
  }

  /** How many passes `range(1, k)` makes. */
  function Down(k: int): nat {
    if k > 1 then k - 1 else 0
  }

  /**
   * One cell of the filling loop (ipnb2tex.py:298-315).  A cell that is not `td`/`th` raises
   * `NotImplementedError`; an index past the last column or row raises `IndexError`.  A column
   * still covered from above moves the cell one column right (once only); the cell's own column
   * gets `colspan` 0, the columns it spans 1; with a `rowspan` of `k` its last column gets
   * `rowspan` 0 in its own row and `k - i` in the `i`-th row below.
   */
  function PlaceCell(g: Grids, rows: nat, cols: nat, irow: nat, icol: nat, cell: TCell): (r: Result<Placed>)
    requires GridsShaped(g, rows, cols) && irow < rows
    ensures r.Ok? ==> GridsShaped(r.value.g, rows, cols) && icol < r.value.icol <= cols
  {
    if !IsDataCell(cell) then Err(NotImplementedError("Expecting either TD or TH tag under row"))
    else if icol >= cols then Err(IndexError("index out of bounds"))
    else
      var carried := g.rowspan[irow][icol] != 0;
      var cs1 := if carried then Set(g.colspan, irow, icol, 0) else g.colspan;
      var start := if carried then icol + 1 else icol;
      if start >= cols then Err(IndexError("index out of bounds"))
      else
        var cs2 := Set(cs1, irow, start, 0);
        var next := start + 1 + Extra(cell);
        if next > cols then Err(IndexError("index out of bounds"))
        else
          var cs3 := MarkSpanned(cs2, cols, irow, start + 1, Extra(cell));
          if cell.rowspan.None? then Ok(Placed(Grids(g.rowspan, cs3), next))
          else
            var k := cell.rowspan.value;
            var rs1 := Set(g.rowspan, irow, next - 1, 0);
            if irow + Down(k) >= rows then Err(IndexError("index out of bounds"))
            else Ok(Placed(Grids(CountDown(rs1, cols, irow, next - 1, k, 1, Down(k)), cs3), next))
  }

  /** The cells of row `irow` from the `j`-th on, the next one looked for at column `icol`. */
  function FillRow(g: Grids, rows: nat, cols: nat, irow: nat, row: Row, j: nat, icol: nat): (r: Result<Grids>)
    requires GridsShaped(g, rows, cols) && irow < rows && j <= |row|
    ensures r.Ok? ==> GridsShaped(r.value, rows, cols)
    decreases |row| - j
  {
    if j == |row| then Ok(g)
    else
      var p :- PlaceCell(g, rows, cols, irow, icol, row[j]);
      FillRow(p.g, rows, cols, irow, row, j + 1, p.icol)
  }

  /** The rows from `irow` on. */
  function FillRows(g: Grids, t: Table, cols: nat, irow: nat): (r: Result<Grids>)
    requires GridsShaped(g, |t.rows|, cols) && irow <= |t.rows|
    ensures r.Ok? ==> GridsShaped(r.value, |t.rows|, cols)
    decreases |t.rows| - irow
  {
    if irow == |t.rows| then Ok(g)
    else
      var g1 :- FillRow(g, |t.rows|, cols, irow, t.rows[irow], 0, 0);
      FillRows(g1, t, cols, irow + 1)
  }

  /** Both grids for the whole table, starting from zeros. */
  function FillGrids(t: Table, cols: nat): Result<Grids> {
    FillRows(Grids(Zeros(|t.rows|, cols), Zeros(|t.rows|, cols)), t, cols, 0)
  }

  // ---------------------------------------------------------------- what a placed cell leaves in the grids

  /**
   * A cell with `rowspan = k` ending at column `c` of row `r` leaves `rowspan[r, c] = 0` and
   * `rowspan[r + i, c] = k - i` for `i = 1 .. k - 1`, so the carry counts down to 1; nothing else
   * in the `rowspan` grid changes.
   */
  lemma RowspanCountsDown(g: Grids, rows: nat, cols: nat, irow: nat, icol: nat, cell: TCell)
    requires GridsShaped(g, rows, cols) && irow < rows
    requires PlaceCell(g, rows, cols, irow, icol, cell).Ok? && cell.rowspan.Some?
    ensures var p := PlaceCell(g, rows, cols, irow, icol, cell).value;
            var c := p.icol - 1;
            var k := cell.rowspan.value;
            irow + Down(k) < rows
            && p.g.rowspan[irow][c] == 0
            && (forall m :: irow < m < irow + k ==> p.g.rowspan[m][c] == k - (m - irow))
            && (forall m, l :: 0 <= m < rows && 0 <= l < cols && !(l == c && irow <= m <= irow + Down(k))
                  ==> p.g.rowspan[m][l] == g.rowspan[m][l])
  {
  }

  /**
   * A cell with `colspan = n` starting at column `s` leaves `colspan[r, s] = 0` and
   * `colspan[r, s + 1 .. s + n - 1] = 1`; the next cell is looked for right after those columns.
   */
  lemma ColspanMarked(g: Grids, rows: nat, cols: nat, irow: nat, icol: nat, cell: TCell)
    requires GridsShaped(g, rows, cols) && irow < rows
    requires PlaceCell(g, rows, cols, irow, icol, cell).Ok?
    ensures var p := PlaceCell(g, rows, cols, irow, icol, cell).value;
            var s := p.icol - 1 - Extra(cell);
            (s == icol || (s == icol + 1 && g.rowspan[irow][icol] != 0))
            && p.g.colspan[irow][s] == 0
            && (forall l :: s < l < p.icol ==> p.g.colspan[irow][l] == 1)
            && (forall m, l :: 0 <= m < rows && 0 <= l < cols && !(m == irow && icol <= l < p.icol)
                  ==> p.g.colspan[m][l] == g.colspan[m][l])
  {
  }

  // ---------------------------------------------------------------- the loops over arrays

  /** The array holds the grid. */
  ghost predicate Holds(a: array2<int>, g: Grid)
    reads a
  {
    Shaped(g, a.Length0, a.Length1)
    && forall i, j :: 0 <= i < a.Length0 && 0 <= j < a.Length1 ==> a[i, j] == g[i][j]
  }

  /** One cell of the filling loop, on the two arrays. */
  method PlaceCellInto(rs: array2<int>, cs: array2<int>, irow: nat, icol: nat, cell: TCell, ghost g: Grids)
    returns (r: Result<nat>)
    requires rs != cs && rs.Length0 == cs.Length0 && rs.Length1 == cs.Length1 && irow < rs.Length0
    requires Holds(rs, g.rowspan) && Holds(cs, g.colspan)
    modifies rs, cs
    ensures var spec := PlaceCell(g, rs.Length0, rs.Length1, irow, icol, cell);
            match spec
            case Ok(p) => r == Ok(p.icol) && Holds(rs, p.g.rowspan) && Holds(cs, p.g.colspan)
            case Err(e) => r == Err(e)
  {
    var cols := rs.Length1;
    if !IsDataCell(cell) {
      return Err(NotImplementedError("Expecting either TD or TH tag under row"));
    }
    if icol >= cols {
      return Err(IndexError("index out of bounds"));
    }
    var col := icol;
    ghost var cs1 := g.colspan;
    if rs[irow, col] != 0 {
      cs[irow, col] := 0;
      cs1 := Set(g.colspan, irow, icol, 0);
      col := col + 1;
    }
    if col >= cols {
      return Err(IndexError("index out of bounds"));
    }
    cs[irow, col] := 0;
    ghost var cs2 := Set(cs1, irow, col, 0);
    col := col + 1;
    var span := if cell.colspan.Some? then cell.colspan.value else 1;
    var marked := MarkSpannedInto(cs, irow, col, span, cs2);
    if marked.Err? {
      return Err(marked.error);
    }
    col := marked.value;
    if cell.rowspan.Some? {
      var down := CountDownInto(rs, irow, col - 1, cell.rowspan.value, g.rowspan);
      if down.Err? {
        return Err(down.error);
      }
    }
    return Ok(col);
  }

  /** `for i in range(1, span): colspan[irow, icol] = 1; icol += 1`. */
  method MarkSpannedInto(cs: array2<int>, irow: nat, from: nat, span: int, ghost g: Grid) returns (r: Result<nat>)
    requires irow < cs.Length0 && from <= cs.Length1 && Holds(cs, g)
    modifies cs
    ensures from + Down(span) > cs.Length1 ==> r == Err(IndexError("index out of bounds"))
    ensures from + Down(span) <= cs.Length1 ==>
              r == Ok(from + Down(span)) && Holds(cs, MarkSpanned(g, cs.Length1, irow, from, Down(span)))
  {
    var col := from;
    var i := 1;
    while i < span
      invariant 1 <= i && (i <= span || i == 1) && col == from + i - 1
      invariant col <= cs.Length1
      invariant forall m, l :: 0 <= m < cs.Length0 && 0 <= l < cs.Length1 ==>
                  cs[m, l] == if m == irow && from <= l < col then 1 else g[m][l]
    {
      if col >= cs.Length1 {
        return Err(IndexError("index out of bounds"));
      }
      cs[irow, col] := 1;
      col := col + 1;
      i := i + 1;
    }
    return Ok(col);
  }

  /** `rowspan[irow, c] = 0`, then `rowspan[irow + i, c] = k - i` for `i` in `range(1, k)`. */
  method CountDownInto(rs: array2<int>, irow: nat, c: nat, k: int, ghost g: Grid) returns (r: Result<()>)
    requires irow < rs.Length0 && c < rs.Length1 && Holds(rs, g)
    modifies rs
    ensures irow + Down(k) >= rs.Length0 ==> r == Err(IndexError("index out of bounds"))
    ensures irow + Down(k) < rs.Length0 ==>
              r.Ok? && Holds(rs, CountDown(Set(g, irow, c, 0), rs.Length1, irow, c, k, 1, Down(k)))
  {
    rs[irow, c] := 0;
    ghost var g1 := Set(g, irow, c, 0);
    var i := 1;
    while i < k
      invariant 1 <= i && (i <= k || i == 1) && irow + i - 1 < rs.Length0
      invariant forall m, l :: 0 <= m < rs.Length0 && 0 <= l < rs.Length1 ==>
                  rs[m, l] == if l == c && irow + 1 <= m < irow + i then k - (m - irow) else g1[m][l]
    {
      if irow + i >= rs.Length0 {
        return Err(IndexError("index out of bounds"));
      }
      rs[irow + i, c] := k - i;
      i := i + 1;
    }
    return Ok(());
  }

  /** The cells of one row, placed one after another (ipnb2tex.py:297-316). */
  method FillRowInto(rs: array2<int>, cs: array2<int>, irow: nat, row: Row, ghost g: Grids)
    returns (r: Result<()>)
    requires rs != cs && rs.Length0 == cs.Length0 && rs.Length1 == cs.Length1 && irow < rs.Length0
    requires Holds(rs, g.rowspan) && Holds(cs, g.colspan)
    modifies rs, cs
    ensures var spec := FillRow(g, rs.Length0, rs.Length1, irow, row, 0, 0);
            match spec
            case Ok(h) => r.Ok? && Holds(rs, h.rowspan) && Holds(cs, h.colspan)
            case Err(e) => r == Err(e)
  {
    var rows := rs.Length0;
    var cols := rs.Length1;
    var icol := 0;
    ghost var h := g;
    for j := 0 to |row|
      invariant Holds(rs, h.rowspan) && Holds(cs, h.colspan) && GridsShaped(h, rows, cols)
      invariant FillRow(g, rows, cols, irow, row, 0, 0) == FillRow(h, rows, cols, irow, row, j, icol)
    {
      var placed := PlaceCellInto(rs, cs, irow, icol, row[j], h);
      if placed.Err? {
        return Err(placed.error);
      }
      var p := PlaceCell(h, rows, cols, irow, icol, row[j]).value;
      h := p.g;
      icol := placed.value;
    }
    return Ok(());
  }

  /**
   * The filling loop of `convertHtmlTable` (ipnb2tex.py:293-316) on grids that start at zero;
   * the arrays end up holding `FillGrids`.
   */
  method FillGridsInto(t: Table, rs: array2<int>, cs: array2<int>) returns (r: Result<()>)
    requires rs != cs && rs.Length0 == cs.Length0 == |t.rows| && rs.Length1 == cs.Length1
    requires Holds(rs, Zeros(|t.rows|, rs.Length1)) && Holds(cs, Zeros(|t.rows|, rs.Length1))
    modifies rs, cs
    ensures match FillGrids(t, rs.Length1)
            case Ok(h) => r.Ok? && Holds(rs, h.rowspan) && Holds(cs, h.colspan)
            case Err(e) => r == Err(e)
  {
    var cols := rs.Length1;
    ghost var h := Grids(Zeros(|t.rows|, cols), Zeros(|t.rows|, cols));
    for irow := 0 to |t.rows|
      invariant Holds(rs, h.rowspan) && Holds(cs, h.colspan) && GridsShaped(h, |t.rows|, cols)
      invariant FillGrids(t, cols) == FillRows(h, t, cols, irow)
    {
      var filled := FillRowInto(rs, cs, irow, t.rows[irow], h);
      if filled.Err? {
        return Err(filled.error);
      }
      h := FillRow(h, |t.rows|, cols, irow, t.rows[irow], 0, 0).value;
    }
    return Ok(());
  }
}
