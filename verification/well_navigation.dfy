/**
 * Keyboard navigation of the plate viewer (labman/gui/static/js/plateViewer.js).
 *
 * Every well of the viewer is a text input; pressing Enter in one moves the
 * focus one row down, from the last row to the top of the next column, and
 * from the bottom-right well back to the top-left one. Rows and columns are
 * 0-based, as the viewer stores them on its inputs. Reading the wells down
 * each column, column after column, Enter is "go to the next well" in that
 * order, cyclically.
 */
module WellNavigation {
  import opened DivMod

  /** The (row, column) a viewer input carries. */
  datatype Cell = Cell(row: int, col: int)

  predicate InPlate(c: Cell, rows: int, cols: int) {
    0 <= c.row < rows && 0 <= c.col < cols
  }

  /** The Enter branch of the keypress handler that constructWell installs. */
  function EnterNext(c: Cell, rows: int, cols: int): (next: Cell)
    ensures InPlate(c, rows, cols) ==> InPlate(next, rows, cols)
  {
    var row := c.row + 1;
    if row == rows then
      var col := c.col + 1;
      if col == cols then Cell(0, 0) else Cell(0, col)
    else
      Cell(row, c.col)
  }

  /** The position of a well when the plate is read down each column, column after column. */
  function ColumnMajor(c: Cell, rows: int): int {
    c.col * rows + c.row
  }

  /** The well at a column-major position. */
  function CellAt(k: int, rows: int): Cell
    requires rows > 0
  {
    Cell(k % rows, k / rows)
  }

  /** Reading a position and going back to the well are inverse to each other. */
  lemma ColumnMajorRoundTrip(c: Cell, k: int, rows: int)
    requires 0 <= c.row < rows
    ensures CellAt(ColumnMajor(c, rows), rows) == c
    ensures ColumnMajor(CellAt(k, rows), rows) == k
  {
    DivModUnique(ColumnMajor(c, rows), rows, c.col, c.row);
  }

  /** The wells of a plate occupy exactly the positions 0 .. rows * cols - 1. */
  lemma ColumnMajorInPlate(c: Cell, rows: int, cols: int)
    requires InPlate(c, rows, cols)
    ensures 0 <= ColumnMajor(c, rows) < rows * cols
  {
    MulAtLeast(rows, cols - c.col);
    assert rows * (cols - c.col) == rows * cols - c.col * rows;
  }

  /** Enter moves to the next column-major position, wrapping after the last well. */
  lemma EnterAdvancesColumnMajor(c: Cell, rows: int, cols: int)
    requires InPlate(c, rows, cols)
    ensures ColumnMajor(EnterNext(c, rows, cols), rows) == (ColumnMajor(c, rows) + 1) % (rows * cols)
  {
    var k := ColumnMajor(c, rows);
    var n := rows * cols;
    var next := EnterNext(c, rows, cols);
    ColumnMajorInPlate(next, rows, cols);
    if c.row + 1 == rows && c.col + 1 == cols {
      assert k + 1 == n;
      DivModUnique(k + 1, n, 1, 0);
    } else {
      assert ColumnMajor(next, rows) == k + 1;
      DivModUnique(k + 1, n, 0, k + 1);
    }
  }

  /** The well reached from `c` after `presses` presses of Enter. */
  function Walk(c: Cell, rows: int, cols: int, presses: nat): Cell {
    if presses == 0 then c else EnterNext(Walk(c, rows, cols, presses - 1), rows, cols)
  }

  /** From the well at column-major position p mod (rows * cols), Enter reaches position p + 1 mod (rows * cols). */
  lemma EnterFromPosition(rows: int, cols: int, p: nat)
    requires rows > 0 && cols > 0
    ensures InPlate(CellAt(p % (rows * cols), rows), rows, cols)
    ensures EnterNext(CellAt(p % (rows * cols), rows), rows, cols) == CellAt((p + 1) % (rows * cols), rows)
  {
    var n := rows * cols;
    MulAtLeast(rows, cols);
    var m := p % n;
    var c := CellAt(m, rows);
    ColumnMajorRoundTrip(c, m, rows);
    assert 0 <= c.row < rows;
    DivMonotone(m, n - 1, rows);
    DivModUnique(n - 1, rows, cols - 1, rows - 1);
    assert InPlate(c, rows, cols);
    EnterAdvancesColumnMajor(c, rows, cols);
    var next := EnterNext(c, rows, cols);
    ModStep(p, n);
    assert ColumnMajor(next, rows) == (p + 1) % n;
    ColumnMajorRoundTrip(next, 0, rows);
  }

  /**
   * Pressing Enter repeatedly from the top-left well visits the wells in
   * column-major order and starts over after rows * cols presses.
   */
  lemma {:induction false} WalkFromFirstWell(rows: int, cols: int, presses: nat)
    requires rows > 0 && cols > 0
    ensures InPlate(Walk(Cell(0, 0), rows, cols, presses), rows, cols)
    ensures Walk(Cell(0, 0), rows, cols, presses) == CellAt(presses % (rows * cols), rows)
  {
    if presses == 0 {
      MulAtLeast(rows, cols);
      DivModUnique(0, rows * cols, 0, 0);
    } else {
      WalkFromFirstWell(rows, cols, presses - 1);
      EnterFromPosition(rows, cols, presses - 1);
    }
  }

  /** Every well of the plate is reached from the top-left one, after as many presses as its column-major position. */
  lemma WalkVisitsEveryWell(c: Cell, rows: int, cols: int)
    requires InPlate(c, rows, cols)
    ensures Walk(Cell(0, 0), rows, cols, ColumnMajor(c, rows)) == c
  {
    var k := ColumnMajor(c, rows);
    ColumnMajorInPlate(c, rows, cols);
    WalkFromFirstWell(rows, cols, k);
    DivModUnique(k, rows * cols, 0, k);
    ColumnMajorRoundTrip(c, k, rows);
  }
}
