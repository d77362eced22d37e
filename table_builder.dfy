/** The table branch of `markdown_to_docx` (py_zerox/src/run_to_docx.py,
    lines 53-65), modelled on its own: the word-processing table it fills
    is a grid whose column count and rows the code grows in place. */
module TableBuilder {

  /** What a table holds: its number of grid columns and, per row, the
      text of each of its cells. */
  datatype Grid = Grid(cols: nat, rows: seq<seq<string>>)

  /** Every row has exactly one cell per grid column. */
  predicate Rectangular(g: Grid) {
    forall i :: 0 <= i < |g.rows| ==> |g.rows[i]| == g.cols
  }

  function Max(a: nat, b: nat): nat {
    if a < b then b else a
  }

  /** `n` empty cells: a fresh cell holds no text. */
  function Blank(n: nat): (r: seq<string>)
    ensures |r| == n && forall j :: 0 <= j < n ==> r[j] == ""
  {
    seq(n, _ => "")
  }

  // ---------------------------------------------------------------------
  // The three operations of the table object that the code uses.
  // ---------------------------------------------------------------------

  /** `table.add_column(...)`: one more grid column, so every existing
      row gets one more (empty) cell at its end. */
  function ColumnAdded(g: Grid): (r: Grid)
    ensures Rectangular(g) ==> Rectangular(r)
    ensures r.cols == g.cols + 1 && |r.rows| == |g.rows|
    ensures forall i :: 0 <= i < |g.rows| ==> r.rows[i] == g.rows[i] + [""]
  {
    Grid(g.cols + 1, seq(|g.rows|, i requires 0 <= i < |g.rows| => g.rows[i] + [""]))
  }

  /** `table.add_row()`: a new last row with one empty cell per column. */
  function RowAdded(g: Grid): (r: Grid)
    ensures Rectangular(g) ==> Rectangular(r)
    ensures r.cols == g.cols && |r.rows| == |g.rows| + 1
    ensures r.rows[..|g.rows|] == g.rows && r.rows[|g.rows|] == Blank(g.cols)
  {
    Grid(g.cols, g.rows + [Blank(g.cols)])
  }

  /** `cell.text = text` on the cell at row `r`, column `c`. */
  function CellSet(g: Grid, r: nat, c: nat, text: string): (h: Grid)
    requires r < |g.rows| && c < |g.rows[r]|
    ensures Rectangular(g) ==> Rectangular(h)
    ensures h.cols == g.cols && |h.rows| == |g.rows|
    ensures forall i :: 0 <= i < |g.rows| ==> |h.rows[i]| == |g.rows[i]|
    ensures h.rows[r][c] == text
    ensures forall i, j :: 0 <= i < |g.rows| && 0 <= j < |g.rows[i]| && (i, j) != (r, c) ==>
              j < |h.rows[i]| && h.rows[i][j] == g.rows[i][j]
  {
    Grid(g.cols, g.rows[r := g.rows[r][c := text]])
  }

  // ---------------------------------------------------------------------
  // Reference definition of what the loop produces.
  // ---------------------------------------------------------------------

  /** The rows of `g`, each widened with empty cells to `n` columns. */
  function Padded(g: Grid, n: nat): (rows: seq<seq<string>>)
    requires Rectangular(g) && g.cols <= n
    ensures |rows| == |g.rows| && forall i :: 0 <= i < |rows| ==> |rows[i]| == n
  {
    var rows := seq(|g.rows|, i requires 0 <= i < |g.rows| => g.rows[i] + Blank(n - g.cols));
    assert forall i :: 0 <= i < |rows| ==> rows[i] == g.rows[i] + Blank(n - g.cols);
    rows
  }

  /** The number of cells of a row that do not fit the columns the table
      has when the row starts (it has at least one by then). */
  function Overflow(g: Grid, cells: seq<string>): nat {
    var c := Max(g.cols, 1);
    if |cells| > c then |cells| - c else 0
  }

  /** The grid after one `tr` with the given cell texts (lines 57-65).
      With `c` columns at the start of the row (at least one), the first
      cells fill a new row; each cell from index `c` on adds a column and
      then a row of its own, and lands in that row. */
  function AfterRow(g: Grid, cells: seq<string>): (r: Grid)
    requires Rectangular(g)
    ensures Rectangular(r)
  {
    var c := Max(g.cols, 1);
    var w := Max(c, |cells|);
    var first := seq(w, j requires 0 <= j < w => if j < |cells| && j < c then cells[j] else "");
    var extra := seq(Overflow(g, cells), m requires 0 <= m < Overflow(g, cells) =>
                   seq(w, j requires 0 <= j < w => if j == c + m then cells[j] else ""));
    Grid(w, Padded(g, w) + [first] + extra)
  }

  /** The grid after all rows of a table, starting from the empty table
      that `doc.add_table(rows=0, cols=0)` creates. */
  function Built(tableRows: seq<seq<string>>): (g: Grid)
    ensures Rectangular(g)
  {
    if tableRows == [] then Grid(0, [])
    else AfterRow(Built(tableRows[..|tableRows| - 1]), tableRows[|tableRows| - 1])
  }

  /** The widest row of a table. */
  function MaxWidth(tableRows: seq<seq<string>>): nat {
    if tableRows == [] then 0
    else Max(MaxWidth(tableRows[..|tableRows| - 1]), |tableRows[|tableRows| - 1]|)
  }

  // ---------------------------------------------------------------------
  // The table object and the loop that fills it.
  // ---------------------------------------------------------------------

  /** The table being filled: its grid column count and its rows. */
  class Table {
    var cols: nat
    var rows: seq<seq<string>>

    function View(): Grid
      reads this
    {
      Grid(cols, rows)
    }

    ghost predicate Valid()
      reads this
    {
      Rectangular(View())
    }

    /** `doc.add_table(rows=0, cols=0)`. */
    constructor ()
      ensures Valid() && View() == Grid(0, [])
    {
      cols := 0;
      rows := [];
    }

    method AddColumn()
      requires Valid()
      modifies this
      ensures Valid() && View() == ColumnAdded(old(View()))
    {
      var before := rows;
      rows := seq(|before|, i requires 0 <= i < |before| => before[i] + [""]);
      cols := cols + 1;
    }

    /** `table.add_row().cells`: the new row's index and its number of
        cells stand for the tuple of cells the code keeps. */
    method AddRow() returns (r: nat, width: nat)
      requires Valid()
      modifies this
      ensures Valid() && View() == RowAdded(old(View()))
      ensures r == |old(rows)| && width == cols
    {
      r, width := |rows|, cols;
      rows := rows + [Blank(cols)];
    }

    /** `row_cells[c].text = text` for the row with index `r`. */
    method SetCellText(r: nat, c: nat, text: string)
      requires Valid() && r < |rows| && c < cols
      modifies this
      ensures Valid() && View() == CellSet(old(View()), r, c, text)
    {
      rows := rows[r := rows[r][c := text]];
    }
  }

  /** Lines 54-65: build the table from the cell texts of its rows. */
  method BuildTable(tableRows: seq<seq<string>>) returns (table: Table)
    ensures fresh(table) && table.Valid() && table.View() == Built(tableRows)
  {
    table := new Table();
    for i := 0 to |tableRows|
      invariant table.Valid() && table.View() == Built(tableRows[..i])
    {
      FillRow(table, tableRows[i]);
      assert tableRows[..i + 1][..i] == tableRows[..i];
    }
    assert tableRows[..|tableRows|] == tableRows;
  }

  /** Lines 57-65: one `tr` of the table, whose `td`/`th` cells have the
      given texts. */
  method FillRow(table: Table, cells: seq<string>)
    requires table.Valid()
    modifies table
    ensures table.Valid() && table.View() == AfterRow(old(table.View()), cells)
  {
    ghost var before := table.View();
    if table.cols == 0 {
      table.AddColumn();
    }
    var r, width := table.AddRow();
    AfterRowStart(before);
    for idx := 0 to |cells|
      invariant table.Valid() && table.View() == AfterRow(before, cells[..idx])
      invariant r == |table.rows| - 1 && width == table.cols
    {
      AfterRowNext(before, cells, idx);
      if idx >= width {
        table.AddColumn();
        r, width := table.AddRow();
      }
      table.SetCellText(r, idx, cells[idx]);
    }
    assert cells[..|cells|] == cells;
  }

  // ---------------------------------------------------------------------
  // The step lemmas that tie the loop to the reference definition.
  // ---------------------------------------------------------------------

  /** Before any cell: the code gives an empty table its first column and
      then adds one row. */
  lemma AfterRowStart(g: Grid)
    requires Rectangular(g)
    ensures g.cols == 0 ==> AfterRow(g, []) == RowAdded(ColumnAdded(g))
    ensures g.cols != 0 ==> AfterRow(g, []) == RowAdded(g)
    ensures |AfterRow(g, []).rows| == |g.rows| + 1
  {
    var a := AfterRow(g, []);
    var b := if g.cols == 0 then RowAdded(ColumnAdded(g)) else RowAdded(g);
    assert a.cols == b.cols;
    assert |a.rows| == |b.rows|;
    forall i | 0 <= i < |a.rows|
      ensures a.rows[i] == b.rows[i]
    {
      if i < |g.rows| {
        assert g.cols == 0 ==> a.rows[i] == g.rows[i] + [""];
      }
    }
  }

  /** The cell with index `idx` of the row: if it fits the columns there
      are, it is written into the last row; if not, the code adds a column
      and a row and writes it into that new row. */
  lemma AfterRowNext(g: Grid, cells: seq<string>, idx: nat)
    requires Rectangular(g) && idx < |cells|
    ensures var a := AfterRow(g, cells[..idx]);
      a.cols == Max(Max(g.cols, 1), idx) && |a.rows| == |g.rows| + 1 + Overflow(g, cells[..idx]) &&
      (idx < a.cols ==> AfterRow(g, cells[..idx + 1]) == CellSet(a, |a.rows| - 1, idx, cells[idx])) &&
      (idx >= a.cols ==> AfterRow(g, cells[..idx + 1]) == CellSet(RowAdded(ColumnAdded(a)), |a.rows|, idx, cells[idx]))
  {
    assert cells[..idx] + [cells[idx]] == cells[..idx + 1];
    if idx < Max(g.cols, 1) {
      AfterRowSnocFits(g, cells[..idx], cells[idx]);
    } else {
      AfterRowSnocOverflow(g, cells[..idx], cells[idx]);
    }
  }

  /** One more cell `x` after the cells `s` of the row, when it fits the
      columns the table has: it is written into the last row. */
  lemma AfterRowSnocFits(g: Grid, s: seq<string>, x: string)
    requires Rectangular(g) && |s| < Max(g.cols, 1)
    ensures var a := AfterRow(g, s);
      a.cols == Max(g.cols, 1) && |a.rows| == |g.rows| + 1 &&
      AfterRow(g, s + [x]) == CellSet(a, |a.rows| - 1, |s|, x)
  {
    var a := AfterRow(g, s);
    var t := s + [x];
    var b := AfterRow(g, t);
    var e := CellSet(a, |a.rows| - 1, |s|, x);
    assert Overflow(g, t) == 0 && Overflow(g, s) == 0;
    assert b.cols == e.cols;
    forall i | 0 <= i < |b.rows|
      ensures b.rows[i] == e.rows[i]
    {
      if i < |g.rows| {
        assert b.rows[i] == g.rows[i] + Blank(b.cols - g.cols);
      } else {
        assert i == |g.rows|;
        forall j | 0 <= j < b.cols
          ensures b.rows[i][j] == e.rows[i][j]
        {
          if j < |s| {
            assert t[j] == s[j];
          }
        }
      }
    }
  }

  /** One more cell `x` after the cells `s` of the row, when it does not
      fit: the code adds a column and a row, and writes `x` into that new
      row. */
  lemma AfterRowSnocOverflow(g: Grid, s: seq<string>, x: string)
    requires Rectangular(g) && |s| >= Max(g.cols, 1)
    ensures var a := AfterRow(g, s);
      a.cols == |s| && |a.rows| == |g.rows| + 1 + Overflow(g, s) &&
      AfterRow(g, s + [x]) == CellSet(RowAdded(ColumnAdded(a)), |a.rows|, |s|, x)
  {
    var a := AfterRow(g, s);
    var t := s + [x];
    var b := AfterRow(g, t);
    var c := Max(g.cols, 1);
    var n := |g.rows| + 1 + Overflow(g, s);
    var e := CellSet(RowAdded(ColumnAdded(a)), |a.rows|, |s|, x);
    assert Overflow(g, t) == Overflow(g, s) + 1;
    assert b.cols == e.cols == a.cols + 1;
    assert |b.rows| == |e.rows| == n + 1;
    forall i | 0 <= i < |b.rows|
      ensures b.rows[i] == e.rows[i]
    {
      if i < |g.rows| {
        assert a.rows[i] == g.rows[i] + Blank(a.cols - g.cols);
        assert b.rows[i] == g.rows[i] + Blank(b.cols - g.cols);
        assert b.rows[i] == a.rows[i] + [""];
      } else if i == |g.rows| {
        forall j | 0 <= j < b.cols
          ensures b.rows[i][j] == e.rows[i][j]
        {
          if j < a.cols {
            assert e.rows[i][j] == a.rows[i][j];
            if j < |s| {
              assert t[j] == s[j];
            }
          }
        }
      } else if i < n {
        var m := i - |g.rows| - 1;
        forall j | 0 <= j < b.cols
          ensures b.rows[i][j] == e.rows[i][j]
        {
          if j < a.cols {
            assert e.rows[i][j] == a.rows[i][j];
            if j == c + m {
              assert t[j] == s[j];
            }
          }
        }
      } else {
        assert c + (i - |g.rows| - 1) == |s|;
      }
    }
  }

  // ---------------------------------------------------------------------
  // What the table builder guarantees.
  // ---------------------------------------------------------------------

  /** Grid `b` keeps every cell of grid `a`: it has at least its columns
      and rows, and the rows of `a` only gained empty cells at their ends. */
  predicate Extends(a: Grid, b: Grid) {
    Rectangular(a) && Rectangular(b) && a.cols <= b.cols && |a.rows| <= |b.rows| &&
    forall r, c :: 0 <= r < |a.rows| && 0 <= c < b.cols ==>
      b.rows[r][c] == if c < a.cols then a.rows[r][c] else ""
  }

  lemma ExtendsReflexive(a: Grid)
    requires Rectangular(a)
    ensures Extends(a, a)
  {
  }

  lemma ExtendsTransitive(a: Grid, b: Grid, c: Grid)
    requires Extends(a, b) && Extends(b, c)
    ensures Extends(a, c)
  {
    forall r, k | 0 <= r < |a.rows| && 0 <= k < c.cols
      ensures c.rows[r][k] == if k < a.cols then a.rows[r][k] else ""
    {
      assert c.rows[r][k] == if k < b.cols then b.rows[r][k] else "";
    }
  }

  /** Processing one row keeps every cell already in the table. */
  lemma AfterRowKeepsCells(g: Grid, cells: seq<string>)
    requires Rectangular(g)
    ensures Extends(g, AfterRow(g, cells))
  {
    var r := AfterRow(g, cells);
    forall i, j | 0 <= i < |g.rows| && 0 <= j < r.cols
      ensures r.rows[i][j] == if j < g.cols then g.rows[i][j] else ""
    {
      assert r.rows[i] == g.rows[i] + Blank(r.cols - g.cols);
    }
  }

  /** Where the cells of one row land: with `c` columns at the start of
      the row (at least one), cell `j < c` is in the first new row and
      cell `j >= c` in new row `j - c + 1`, always at column `j`; every
      other cell of the new rows is empty. */
  lemma AfterRowPlacesCells(g: Grid, cells: seq<string>)
    requires Rectangular(g)
    ensures var r := AfterRow(g, cells);
      var c := Max(g.cols, 1);
      r.cols == Max(c, |cells|) &&
      |r.rows| == |g.rows| + 1 + Overflow(g, cells) &&
      (forall j :: 0 <= j < |cells| ==>
        r.rows[|g.rows| + (if j < c then 0 else j - c + 1)][j] == cells[j]) &&
      (forall j :: 0 <= j < r.cols && (j >= |cells| || j >= c) ==> r.rows[|g.rows|][j] == "") &&
      (forall k, j :: |g.rows| < k < |r.rows| && 0 <= j < r.cols && j != c + (k - |g.rows| - 1) ==>
        r.rows[k][j] == "")
  {
  }

  /** Built on a prefix one row longer is one more step of the loop. */
  lemma BuiltPrefix(tableRows: seq<seq<string>>, k: nat)
    requires k < |tableRows|
    ensures Built(tableRows[..k + 1]) == AfterRow(Built(tableRows[..k]), tableRows[k])
  {
    assert tableRows[..k + 1][..k] == tableRows[..k];
  }

  /** An empty table keeps no rows and no columns; otherwise the table
      ends with as many columns as its widest row, and at least one. */
  lemma {:induction false} BuiltColumns(tableRows: seq<seq<string>>)
    ensures Built(tableRows).cols == if tableRows == [] then 0 else Max(1, MaxWidth(tableRows))
    ensures Built(tableRows).rows == [] <==> tableRows == []
  {
    if tableRows != [] {
      var k := |tableRows| - 1;
      BuiltColumns(tableRows[..k]);
      AfterRowPlacesCells(Built(tableRows[..k]), tableRows[k]);
    }
  }

  /** Every cell that does not fit adds exactly one column and one row, so
      a table with `n > 0` rows in the markup ends with `n + cols - 1`
      rows. */
  lemma {:induction false} BuiltRowCount(tableRows: seq<seq<string>>)
    requires tableRows != []
    ensures |Built(tableRows).rows| == |tableRows| + Built(tableRows).cols - 1
  {
    var k := |tableRows| - 1;
    var g := Built(tableRows[..k]);
    AfterRowPlacesCells(g, tableRows[k]);
    if k == 0 {
      assert tableRows[..k] == [];
    } else {
      BuiltRowCount(tableRows[..k]);
      BuiltColumns(tableRows[..k]);
    }
  }

  /** The column count and the row count never decrease as rows are
      processed, later rows never change a cell written by an earlier one,
      and the columns added since only extend the earlier rows with empty
      cells. */
  lemma {:induction false} BuiltKeepsCells(tableRows: seq<seq<string>>, i: nat, j: nat)
    requires i <= j <= |tableRows|
    ensures Extends(Built(tableRows[..i]), Built(tableRows[..j]))
    decreases j - i
  {
    if i < j {
      BuiltKeepsCells(tableRows, i, j - 1);
      BuiltPrefix(tableRows, j - 1);
      AfterRowKeepsCells(Built(tableRows[..j - 1]), tableRows[j - 1]);
      ExtendsTransitive(Built(tableRows[..i]), Built(tableRows[..j - 1]), Built(tableRows[..j]));
    } else {
      ExtendsReflexive(Built(tableRows[..i]));
    }
  }

  /** The row of the final table that holds cell `j` of markup row `i`. */
  function CellRow(tableRows: seq<seq<string>>, i: nat, j: nat): nat
    requires i < |tableRows|
  {
    var g := Built(tableRows[..i]);
    var c := Max(g.cols, 1);
    |g.rows| + if j < c then 0 else j - c + 1
  }

  /** No cell text is lost: cell `j` of markup row `i` ends up in column
      `j` of row `CellRow(tableRows, i, j)`, and those rows follow the
      markup's row order. */
  lemma BuiltPlacesEveryCell(tableRows: seq<seq<string>>, i: nat, j: nat)
    requires i < |tableRows| && j < |tableRows[i]|
    ensures var b := Built(tableRows);
      CellRow(tableRows, i, j) < |b.rows| && j < b.cols &&
      b.rows[CellRow(tableRows, i, j)][j] == tableRows[i][j]
    ensures i + 1 < |tableRows| ==> CellRow(tableRows, i, j) < CellRow(tableRows, i + 1, 0)
  {
    var g := Built(tableRows[..i]);
    BuiltPrefix(tableRows, i);
    AfterRowPlacesCells(g, tableRows[i]);
    BuiltKeepsCells(tableRows, i + 1, |tableRows|);
    assert tableRows[..|tableRows|] == tableRows;
  }
}
