/**
  The grid model of the maze: cells, the passages between neighbouring
  cells, and paths through open passages.  Everything here is a value; the
  mutable matrices that hold a maze under construction are in module Mazes.
*/
module MazeGrid {

  /** A cell, addressed by its row and its column. */
  datatype Cell = Cell(row: int, column: int)

  /**
    The gap between two neighbouring cells.  `Vertical(r, c)` is entry
    `[r][c]` of the `verticals` matrix and separates cell (r, c) from
    (r, c + 1); `Horizontal(r, c)` is entry `[r][c]` of `horizontals` and
    separates (r, c) from (r + 1, c).
  */
  datatype Passage = Vertical(row: int, column: int) | Horizontal(row: int, column: int)

  /** The four directions in which the carve looks for a neighbour. */
  datatype Direction = Up | Right | Down | Left

  predicate InGrid(x: Cell, rows: int, columns: int) {
    0 <= x.row < rows && 0 <= x.column < columns
  }

  /** The passage is an entry of `verticals` (rows x (columns - 1)) or of `horizontals` ((rows - 1) x columns). */
  predicate PassageInGrid(p: Passage, rows: int, columns: int) {
    match p
    case Vertical(r, c) => 0 <= r < rows && 0 <= c < columns - 1
    case Horizontal(r, c) => 0 <= r < rows - 1 && 0 <= c < columns
  }

  /** The cells of row `r` whose column is below `n`. */
  function RowCells(r: int, n: nat): (s: set<Cell>)
    ensures forall x :: x in s <==> x.row == r && 0 <= x.column < n
  {
    set c | 0 <= c < n :: Cell(r, c)
  }

  /** All cells of a rows x columns grid. */
  function Cells(rows: nat, columns: nat): (s: set<Cell>)
    ensures forall x :: x in s <==> InGrid(x, rows, columns)
  {
    set r, c | 0 <= r < rows && 0 <= c < columns :: Cell(r, c)
  }

  lemma {:induction false} RowCount(r: int, n: nat)
    ensures |RowCells(r, n)| == n
  {
    if n > 0 {
      RowCount(r, n - 1);
      assert RowCells(r, n) == RowCells(r, n - 1) + {Cell(r, n - 1)};
    }
  }

  /** The grid is the grid one row shorter plus its last row, which shares no cell with it. */
  lemma CellsByRows(rows: nat, columns: nat)
    requires rows > 0
    ensures Cells(rows, columns) == Cells(rows - 1, columns) + RowCells(rows - 1, columns)
    ensures Cells(rows - 1, columns) * RowCells(rows - 1, columns) == {}
  {
  }

  lemma ProductStep(rows: nat, columns: nat)
    requires rows > 0
    ensures (rows - 1) * columns + columns == rows * columns
  {
  }

  /** The grid has rows * columns cells: one more row adds `columns` new ones. */
  lemma {:induction false} CellCount(rows: nat, columns: nat)
    ensures |Cells(rows, columns)| == rows * columns
  {
    if rows > 0 {
      CellCount(rows - 1, columns);
      RowCount(rows - 1, columns);
      CellsByRows(rows, columns);
      var above, last := Cells(rows - 1, columns), RowCells(rows - 1, columns);
      assert |above + last| == |above| + |last|;
      ProductStep(rows, columns);
    } else {
      assert Cells(rows, columns) == {};
    }
  }

  /** The cell one step from `x` in direction `d`. */
  function Toward(x: Cell, d: Direction): Cell {
    match d
    case Up => Cell(x.row - 1, x.column)
    case Right => Cell(x.row, x.column + 1)
    case Down => Cell(x.row + 1, x.column)
    case Left => Cell(x.row, x.column - 1)
  }

  predicate Adjacent(a: Cell, b: Cell) {
    (a.row == b.row && (b.column == a.column + 1 || a.column == b.column + 1)) ||
    (a.column == b.column && (b.row == a.row + 1 || a.row == b.row + 1))
  }

  /** The two cells a passage separates, the upper or left one first. */
  function Near(p: Passage): Cell {
    Cell(p.row, p.column)
  }

  function Far(p: Passage): Cell {
    match p
    case Vertical(r, c) => Cell(r, c + 1)
    case Horizontal(r, c) => Cell(r + 1, c)
  }

  /** The passage between two adjacent cells; it is the same passage whichever cell is named first. */
  function Between(a: Cell, b: Cell): (p: Passage)
    requires Adjacent(a, b)
    ensures (Near(p) == a && Far(p) == b) || (Near(p) == b && Far(p) == a)
  {
    if a.row == b.row then
      Vertical(a.row, if a.column < b.column then a.column else b.column)
    else
      Horizontal(if a.row < b.row then a.row else b.row, a.column)
  }

  lemma BetweenSymmetric(a: Cell, b: Cell)
    requires Adjacent(a, b)
    ensures Between(a, b) == Between(b, a)
  {
  }

  /** A passage between two cells of the grid is an entry of one of the two matrices. */
  lemma BetweenInGrid(a: Cell, b: Cell, rows: int, columns: int)
    requires Adjacent(a, b) && InGrid(a, rows, columns) && InGrid(b, rows, columns)
    ensures PassageInGrid(Between(a, b), rows, columns)
  {
  }

  /** `a` and `b` are neighbours with an open passage between them. */
  ghost predicate Joined(a: Cell, b: Cell, open: set<Passage>) {
    Adjacent(a, b) && Between(a, b) in open
  }

  /** A walk through the maze, one open passage at a time. */
  ghost predicate IsPath(path: seq<Cell>, open: set<Passage>) {
    |path| > 0 && forall i :: 0 <= i < |path| - 1 ==> Joined(path[i], path[i + 1], open)
  }

  ghost predicate Connected(a: Cell, b: Cell, open: set<Passage>) {
    exists path :: IsPath(path, open) && path[0] == a && path[|path| - 1] == b
  }

  /** Every passage that is open has both of its cells in `cells`. */
  ghost predicate OpenWithin(open: set<Passage>, cells: set<Cell>) {
    forall p :: p in open ==> Near(p) in cells && Far(p) in cells
  }

  /** Each in-grid neighbour of `x` is in `cells`. */
  predicate NeighboursIn(x: Cell, cells: set<Cell>, rows: int, columns: int) {
    (x.row > 0 ==> Cell(x.row - 1, x.column) in cells) &&
    (x.column < columns - 1 ==> Cell(x.row, x.column + 1) in cells) &&
    (x.row < rows - 1 ==> Cell(x.row + 1, x.column) in cells) &&
    (x.column > 0 ==> Cell(x.row, x.column - 1) in cells)
  }

  /** Visiting more cells keeps every neighbour that was already visited. */
  lemma NeighboursInMonotone(x: Cell, cells: set<Cell>, more: set<Cell>, rows: int, columns: int)
    requires NeighboursIn(x, cells, rows, columns) && cells <= more
    ensures NeighboursIn(x, more, rows, columns)
  {
  }

  lemma ConnectedToItself(a: Cell, open: set<Passage>)
    ensures Connected(a, a, open)
  {
    assert IsPath([a], open);
  }

  /** Opening more passages keeps every path. */
  lemma ConnectedMonotone(a: Cell, b: Cell, open: set<Passage>, more: set<Passage>)
    requires Connected(a, b, open) && open <= more
    ensures Connected(a, b, more)
  {
    var path :| IsPath(path, open) && path[0] == a && path[|path| - 1] == b;
    assert IsPath(path, more);
  }

  /** A step through one open passage followed by a path is a path. */
  lemma ConnectedPrepend(a: Cell, b: Cell, c: Cell, open: set<Passage>)
    requires Joined(a, b, open) && Connected(b, c, open)
    ensures Connected(a, c, open)
  {
    var path :| IsPath(path, open) && path[0] == b && path[|path| - 1] == c;
    var longer := [a] + path;
    forall i | 0 <= i < |longer| - 1
      ensures Joined(longer[i], longer[i + 1], open)
    {
      if i > 0 {
        assert longer[i] == path[i - 1] && longer[i + 1] == path[i];
      }
    }
    assert IsPath(longer, open);
  }

  lemma ConnectedSymmetric(a: Cell, b: Cell, open: set<Passage>)
    requires Connected(a, b, open)
    ensures Connected(b, a, open)
  {
    var path :| IsPath(path, open) && path[0] == a && path[|path| - 1] == b;
    var n := |path|;
    var back := seq(n, i requires 0 <= i < n => path[n - 1 - i]);
    forall i | 0 <= i < n - 1
      ensures Joined(back[i], back[i + 1], open)
    {
      assert Joined(path[n - 2 - i], path[n - 1 - i], open);
    }
    assert IsPath(back, open);
  }

  lemma ConnectedTransitive(a: Cell, b: Cell, c: Cell, open: set<Passage>)
    requires Connected(a, b, open) && Connected(b, c, open)
    ensures Connected(a, c, open)
  {
    var p :| IsPath(p, open) && p[0] == a && p[|p| - 1] == b;
    var q :| IsPath(q, open) && q[0] == b && q[|q| - 1] == c;
    var joined := p + q[1..];
    forall i | 0 <= i < |joined| - 1
      ensures Joined(joined[i], joined[i + 1], open)
    {
      if i < |p| - 1 {
        assert joined[i] == p[i] && joined[i + 1] == p[i + 1];
      } else {
        assert joined[i] == q[i - |p| + 1] && joined[i + 1] == q[i - |p| + 2];
      }
    }
    assert IsPath(joined, open);
  }

  /** Walking along the row of `x`, a neighbour-closed set reaches every column. */
  lemma {:induction false} ReachAlongRow(cells: set<Cell>, x: Cell, c: int, rows: int, columns: int)
    requires x in cells && InGrid(x, rows, columns) && 0 <= c < columns
    requires forall y {:trigger NeighboursIn(y, cells, rows, columns)} :: y in cells ==> NeighboursIn(y, cells, rows, columns)
    ensures Cell(x.row, c) in cells
    decreases if c < x.column then x.column - c else c - x.column
  {
    if c > x.column {
      ReachAlongRow(cells, x, c - 1, rows, columns);
      assert NeighboursIn(Cell(x.row, c - 1), cells, rows, columns);
    } else if c < x.column {
      ReachAlongRow(cells, x, c + 1, rows, columns);
      assert NeighboursIn(Cell(x.row, c + 1), cells, rows, columns);
    }
  }

  /** Walking along the column of `x`, a neighbour-closed set reaches every row. */
  lemma {:induction false} ReachAlongColumn(cells: set<Cell>, x: Cell, r: int, rows: int, columns: int)
    requires x in cells && InGrid(x, rows, columns) && 0 <= r < rows
    requires forall y {:trigger NeighboursIn(y, cells, rows, columns)} :: y in cells ==> NeighboursIn(y, cells, rows, columns)
    ensures Cell(r, x.column) in cells
    decreases if r < x.row then x.row - r else r - x.row
  {
    if r > x.row {
      ReachAlongColumn(cells, x, r - 1, rows, columns);
      assert NeighboursIn(Cell(r - 1, x.column), cells, rows, columns);
    } else if r < x.row {
      ReachAlongColumn(cells, x, r + 1, rows, columns);
      assert NeighboursIn(Cell(r + 1, x.column), cells, rows, columns);
    }
  }

  /**
    The grid is connected: a set of cells that contains one cell and, with
    every cell, each of its neighbours, is the whole grid.
  */
  lemma ClosedRegionIsGrid(cells: set<Cell>, start: Cell, rows: nat, columns: nat)
    requires start in cells && cells <= Cells(rows, columns)
    requires forall y {:trigger NeighboursIn(y, cells, rows, columns)} :: y in cells ==> NeighboursIn(y, cells, rows, columns)
    ensures cells == Cells(rows, columns)
  {
    forall x | x in Cells(rows, columns)
      ensures x in cells
    {
      ReachAlongRow(cells, start, x.column, rows, columns);
      ReachAlongColumn(cells, Cell(start.row, x.column), x.row, rows, columns);
    }
  }
}
