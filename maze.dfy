/**
  The maze under construction: the matrix of visited flags, the two
  passage matrices, the randomized depth-first carve that opens passages,
  and the loops that turn the closed entries into wall bodies.
*/
module Mazes {
  import opened MazeGrid
  import opened Shuffling
  import opened Geometry

  /** The maze is 15 cells across and 10 cells down. */
  const CellsHorizontal: nat := 15
  const CellsVertical: nat := 10

  /** A candidate next cell and the direction of travel to it. */
  datatype Neighbour = Neighbour(row: int, column: int, direction: Direction)

  /** The candidates around (row, column), listed up, right, down, left; each lies one step away in its direction. */
  function Candidates(row: int, column: int): (ns: seq<Neighbour>)
    ensures |ns| == 4
    ensures forall k :: 0 <= k < 4 ==> Cell(ns[k].row, ns[k].column) == Toward(Cell(row, column), ns[k].direction)
    ensures ns[0].direction == Up && ns[1].direction == Right && ns[2].direction == Down && ns[3].direction == Left
  {
    [ Neighbour(row - 1, column, Up),
      Neighbour(row, column + 1, Right),
      Neighbour(row + 1, column, Down),
      Neighbour(row, column - 1, Left) ]
  }

  /** The matrix entry opened when the carve moves from `x` in direction `d`: the passage between `x` and that neighbour. */
  function PassageToward(x: Cell, d: Direction): (p: Passage)
    ensures Adjacent(x, Toward(x, d)) && p == Between(x, Toward(x, d))
  {
    match d
    case Left => Vertical(x.row, x.column - 1)
    case Right => Vertical(x.row, x.column)
    case Up => Horizontal(x.row - 1, x.column)
    case Down => Horizontal(x.row, x.column)
  }

  /**
    The candidates around (row, column) in a random order: the contents of
    a fresh array holding the four, shuffled in place with draws from `rnd`
    at `pos`, so that each candidate appears exactly once.
  */
  method ShuffledCandidates(row: int, column: int, rnd: nat -> real, pos: nat) returns (order: seq<Neighbour>, next: nat)
    requires IsRandomSource(rnd)
    ensures |order| == 4 && order == Shuffled(Candidates(row, column), 4, rnd, pos)
    ensures multiset(order) == multiset(Candidates(row, column))
    ensures forall n :: n in order <==> n in Candidates(row, column)
    ensures next == pos + 4
  {
    var candidates := Candidates(row, column);
    var neighbours := new Neighbour[4](i requires 0 <= i < 4 => candidates[i]);
    assert neighbours[..] == candidates;
    next := Shuffle(neighbours, rnd, pos);
    order := neighbours[..];
    forall n
      ensures n in order <==> n in Candidates(row, column)
    {
      assert n in order <==> n in multiset(order);
      assert n in Candidates(row, column) <==> n in multiset(Candidates(row, column));
    }
  }

  /** The candidate, if it lies inside the grid, has been visited. */
  predicate Settled(n: Neighbour, visited: set<Cell>, rows: int, columns: int) {
    InGrid(Cell(n.row, n.column), rows, columns) ==> Cell(n.row, n.column) in visited
  }

  lemma SettledMonotone(n: Neighbour, visited: set<Cell>, more: set<Cell>, rows: int, columns: int)
    requires Settled(n, visited, rows, columns) && visited <= more
    ensures Settled(n, more, rows, columns)
  {
  }

  /** Once every candidate in a shuffled order is settled, every in-grid neighbour of the cell is visited. */
  lemma AllSettled(here: Cell, order: seq<Neighbour>, visited: set<Cell>, rows: int, columns: int)
    requires InGrid(here, rows, columns)
    requires |order| == 4 && forall n :: n in order <==> n in Candidates(here.row, here.column)
    requires forall j :: 0 <= j < 4 ==> Settled(order[j], visited, rows, columns)
    ensures NeighboursIn(here, visited, rows, columns)
  {
    var cs := Candidates(here.row, here.column);
    forall k | 0 <= k < 4
      ensures Settled(cs[k], visited, rows, columns)
    {
      assert cs[k] in order;
    }
    assert Settled(cs[0], visited, rows, columns) && Settled(cs[1], visited, rows, columns);
    assert Settled(cs[2], visited, rows, columns) && Settled(cs[3], visited, rows, columns);
  }

  /** The cells new since `visited0` are `here` and those new since `visited1`, which adds only `here`. */
  lemma NewCellsSettled(here: Cell, visited0: set<Cell>, visited1: set<Cell>, visited: set<Cell>, carved: set<Passage>, rows: int, columns: int)
    requires visited1 == visited0 + {here}
    requires NeighboursIn(here, visited, rows, columns) && Connected(here, here, carved)
    requires forall x {:trigger NeighboursIn(x, visited, rows, columns)} ::
      x in visited && x !in visited1 ==> NeighboursIn(x, visited, rows, columns)
    requires forall x {:trigger Connected(here, x, carved)} ::
      x in visited && x !in visited1 ==> Connected(here, x, carved)
    ensures forall x {:trigger NeighboursIn(x, visited, rows, columns)} ::
      x in visited && x !in visited0 ==> NeighboursIn(x, visited, rows, columns)
    ensures forall x {:trigger Connected(here, x, carved)} ::
      x in visited && x !in visited0 ==> Connected(here, x, carved)
  {
  }

  /** The entries of a matrix, row by row. */
  ghost function Contents(a: array2<bool>): (m: seq<seq<bool>>)
    reads a
    ensures |m| == a.Length0
    ensures forall i :: 0 <= i < a.Length0 ==> |m[i]| == a.Length1
    ensures forall i, j :: 0 <= i < a.Length0 && 0 <= j < a.Length1 ==> m[i][j] == a[i, j]
  {
    seq(a.Length0, i requires 0 <= i < a.Length0 reads a =>
      seq(a.Length1, j requires 0 <= j < a.Length1 reads a => a[i, j]))
  }

  class Maze {
    const rows: nat
    const columns: nat
    /** `grid[r, c]`: cell (r, c) has been visited. */
    const grid: array2<bool>
    /** `verticals[r, c]`: the passage between (r, c) and (r, c + 1) is open. */
    const verticals: array2<bool>
    /** `horizontals[r, c]`: the passage between (r, c) and (r + 1, c) is open. */
    const horizontals: array2<bool>

    /** The abstract state: the visited cells and the open passages. */
    ghost var visited: set<Cell>
    ghost var carved: set<Passage>

    /** The matrices have the grid's shapes and are three distinct arrays. */
    ghost predicate Shaped() {
      && rows >= 1 && columns >= 1
      && grid.Length0 == rows && grid.Length1 == columns
      && verticals.Length0 == rows && verticals.Length1 == columns - 1
      && horizontals.Length0 == rows - 1 && horizontals.Length1 == columns
      && grid != verticals && grid != horizontals && verticals != horizontals
    }

    /**
      The matrices have their shapes, `visited` is exactly the set of true
      entries of `grid`, and `carved` exactly the set of true entries of
      `verticals` and `horizontals`.
    */
    ghost predicate Valid()
      reads this, grid, verticals, horizontals
    {
      && Shaped()
      && (forall x :: x in visited ==> InGrid(x, rows, columns))
      && (forall r, c {:trigger grid[r, c]} :: 0 <= r < rows && 0 <= c < columns ==> (grid[r, c] <==> Cell(r, c) in visited))
      && (forall p :: p in carved ==> PassageInGrid(p, rows, columns))
      && (forall r, c {:trigger verticals[r, c]} :: 0 <= r < rows && 0 <= c < columns - 1 ==> (verticals[r, c] <==> Vertical(r, c) in carved))
      && (forall r, c {:trigger horizontals[r, c]} :: 0 <= r < rows - 1 && 0 <= c < columns ==> (horizontals[r, c] <==> Horizontal(r, c) in carved))
    }

    /** A fresh maze: nothing visited, every passage closed. */
    constructor (cellsVertical: nat, cellsHorizontal: nat)
      requires cellsVertical >= 1 && cellsHorizontal >= 1
      ensures Valid() && rows == cellsVertical && columns == cellsHorizontal
      ensures fresh(grid) && fresh(verticals) && fresh(horizontals)
      ensures forall r, c :: 0 <= r < rows && 0 <= c < columns ==> !grid[r, c]
      ensures forall r, c :: 0 <= r < rows && 0 <= c < columns - 1 ==> !verticals[r, c]
      ensures forall r, c :: 0 <= r < rows - 1 && 0 <= c < columns ==> !horizontals[r, c]
      ensures visited == {} && carved == {}
    {
      rows, columns := cellsVertical, cellsHorizontal;
      grid := new bool[cellsVertical, cellsHorizontal]((_, _) => false);
      verticals := new bool[cellsVertical, cellsHorizontal - 1]((_, _) => false);
      horizontals := new bool[cellsVertical - 1, cellsHorizontal]((_, _) => false);
      visited, carved := {}, {};
    }

    /** Marks one cell visited; no other flag changes. */
    method MarkVisited(x: Cell)
      requires Valid() && InGrid(x, rows, columns)
      modifies this, grid
      ensures Valid()
      ensures forall r, c :: 0 <= r < rows && 0 <= c < columns ==> grid[r, c] == (old(grid[r, c]) || Cell(r, c) == x)
      ensures visited == old(visited) + {x} && carved == old(carved)
      ensures x !in old(visited) ==> |visited| == |old(visited)| + 1
    {
      grid[x.row, x.column] := true;
      visited := visited + {x};
    }

    /** Opens one passage; no other entry of either matrix changes. */
    method OpenPassage(p: Passage)
      requires Valid() && PassageInGrid(p, rows, columns)
      modifies this, verticals, horizontals
      ensures Valid()
      ensures forall r, c :: 0 <= r < rows && 0 <= c < columns - 1 ==>
        verticals[r, c] == (old(verticals[r, c]) || p == Vertical(r, c))
      ensures forall r, c :: 0 <= r < rows - 1 && 0 <= c < columns ==>
        horizontals[r, c] == (old(horizontals[r, c]) || p == Horizontal(r, c))
      ensures carved == old(carved) + {p} && visited == old(visited)
      ensures p !in old(carved) ==> |carved| == |old(carved)| + 1
    {
      carved := carved + {p};
      match p
      case Vertical(r, c) => verticals[r, c] := true;
      case Horizontal(r, c) => horizontals[r, c] := true;
    }

    /**
      The recursive carve from (row, column), drawing from `rnd` at `pos`
      on; returns the position of the next unused draw.  Nothing changes if
      the cell is already visited.  Otherwise the cell is marked, its four
      candidates are shuffled, and the carve tries each of them in turn.
      Flags only ever go from false to true; every cell newly visited ends
      with all its in-grid neighbours visited and is reachable from
      (row, column); and each newly visited cell apart from (row, column)
      comes with exactly one newly opened passage.
    */
    method StepThroughCell(row: int, column: int, rnd: nat -> real, pos: nat) returns (next: nat)
      requires Valid() && IsRandomSource(rnd)
      requires InGrid(Cell(row, column), rows, columns)
      requires OpenWithin(carved, visited + {Cell(row, column)})
      modifies this, grid, verticals, horizontals
      ensures Valid()
      ensures old(grid[row, column]) ==> unchanged(this, grid, verticals, horizontals) && next == pos
      ensures Cell(row, column) in visited
      ensures old(visited) <= visited && old(carved) <= carved
      ensures OpenWithin(carved, visited)
      ensures !old(grid[row, column]) ==> |carved| + |old(visited)| + 1 == |visited| + |old(carved)|
      ensures forall x {:trigger NeighboursIn(x, visited, rows, columns)} ::
        x in visited && x !in old(visited) ==> NeighboursIn(x, visited, rows, columns)
      ensures forall x {:trigger Connected(Cell(row, column), x, carved)} ::
        x in visited && x !in old(visited) ==> Connected(Cell(row, column), x, carved)
      ensures next == pos + 4 * (|visited| - |old(visited)|)
      decreases Cells(rows, columns) - visited, 0
    {
      var here := Cell(row, column);
      if grid[row, column] {
        return pos;
      }
      ghost var visited0 := visited;
      MarkVisited(here);
      ghost var visited1 := visited;
      var neighbours;
      neighbours, next := ShuffledCandidates(row, column, rnd, pos);
      assert Cells(rows, columns) - visited < Cells(rows, columns) - visited0 by {
        assert here in Cells(rows, columns) - visited0 && here !in Cells(rows, columns) - visited;
      }
      next := CarveAll(here, neighbours, rnd, next);
      ConnectedToItself(here, carved);
      NewCellsSettled(here, visited0, visited1, visited, carved, rows, columns);
    }

    /**
      The loop over the shuffled candidates of the just-visited cell
      `here`: each is tried in turn.  Afterwards every in-grid neighbour of
      `here` is visited, and so is every cell newly visited meanwhile;
      those cells are reachable from `here` and each came with exactly one
      newly opened passage.
    */
    method CarveAll(here: Cell, neighbours: seq<Neighbour>, rnd: nat -> real, pos: nat) returns (next: nat)
      requires Valid() && IsRandomSource(rnd)
      requires InGrid(here, rows, columns) && here in visited
      requires OpenWithin(carved, visited)
      requires |neighbours| == 4 && forall n :: n in neighbours <==> n in Candidates(here.row, here.column)
      modifies this, grid, verticals, horizontals
      ensures Valid()
      ensures old(visited) <= visited && old(carved) <= carved
      ensures OpenWithin(carved, visited)
      ensures |carved| + |old(visited)| == |visited| + |old(carved)|
      ensures NeighboursIn(here, visited, rows, columns)
      ensures forall x {:trigger NeighboursIn(x, visited, rows, columns)} ::
        x in visited && x !in old(visited) ==> NeighboursIn(x, visited, rows, columns)
      ensures forall x {:trigger Connected(here, x, carved)} ::
        x in visited && x !in old(visited) ==> Connected(here, x, carved)
      ensures next == pos + 4 * (|visited| - |old(visited)|)
      decreases Cells(rows, columns) - visited, 2
    {
      ghost var visited0, open0 := visited, carved;
      next := pos;
      assert forall j :: 0 <= j < 4 ==> neighbours[j] in Candidates(here.row, here.column);
      for i := 0 to 4
        modifies this, grid, verticals, horizontals
        invariant Valid()
        invariant visited0 <= visited && open0 <= carved
        invariant OpenWithin(carved, visited)
        invariant |carved| + |visited0| == |visited| + |open0|
        invariant forall x {:trigger NeighboursIn(x, visited, rows, columns)} ::
          x in visited && x !in visited0 ==> NeighboursIn(x, visited, rows, columns)
        invariant forall j :: 0 <= j < i ==> Settled(neighbours[j], visited, rows, columns)
        invariant forall x {:trigger Connected(here, x, carved)} ::
          x in visited && x !in visited0 ==> Connected(here, x, carved)
        invariant next == pos + 4 * (|visited| - |visited0|)
      {
        ghost var visited1, open1 := visited, carved;
        next := CarveToward(here, neighbours[i], rnd, next);
        forall x | x in visited1 && x !in visited0
          ensures Connected(here, x, carved) && NeighboursIn(x, visited, rows, columns)
        {
          ConnectedMonotone(here, x, open1, carved);
          NeighboursInMonotone(x, visited1, visited, rows, columns);
        }
        forall j | 0 <= j <= i
          ensures Settled(neighbours[j], visited, rows, columns)
        {
          if j < i {
            SettledMonotone(neighbours[j], visited1, visited, rows, columns);
          }
        }
      }
      AllSettled(here, neighbours, visited, rows, columns);
    }

    /**
      One pass of the carve's loop at the visited cell `here`: if the
      candidate `n` is inside the grid and not yet visited, opens the
      passage from `here` towards it and carves on from there; otherwise
      changes nothing.  Afterwards the candidate, if inside the grid, is
      visited.
    */
    method CarveToward(here: Cell, n: Neighbour, rnd: nat -> real, pos: nat) returns (next: nat)
      requires Valid() && IsRandomSource(rnd)
      requires InGrid(here, rows, columns) && here in visited
      requires Cell(n.row, n.column) == Toward(here, n.direction)
      requires OpenWithin(carved, visited)
      modifies this, grid, verticals, horizontals
      ensures Valid()
      ensures old(visited) <= visited && old(carved) <= carved
      ensures OpenWithin(carved, visited)
      ensures |carved| + |old(visited)| == |visited| + |old(carved)|
      ensures Settled(n, visited, rows, columns)
      ensures forall x {:trigger NeighboursIn(x, visited, rows, columns)} ::
        x in visited && x !in old(visited) ==> NeighboursIn(x, visited, rows, columns)
      ensures forall x {:trigger Connected(here, x, carved)} ::
        x in visited && x !in old(visited) ==> Connected(here, x, carved)
      ensures next == pos + 4 * (|visited| - |old(visited)|)
      ensures !InGrid(Cell(n.row, n.column), rows, columns) || Cell(n.row, n.column) in old(visited) ==>
        unchanged(this, grid, verticals, horizontals) && next == pos
      ensures InGrid(Cell(n.row, n.column), rows, columns) && Cell(n.row, n.column) !in old(visited) ==>
        PassageToward(here, n.direction) in carved && PassageToward(here, n.direction) !in old(carved)
      decreases Cells(rows, columns) - visited, 1
    {
      var nextRow, nextColumn := n.row, n.column;
      if nextRow < 0 || nextRow >= rows || nextColumn < 0 || nextColumn >= columns {
        return pos;
      }
      if grid[nextRow, nextColumn] {
        return pos;
      }
      var there := Cell(nextRow, nextColumn);
      var passage := PassageToward(here, n.direction);
      BetweenInGrid(here, there, rows, columns);
      assert passage !in carved by {
        assert Near(passage) == there || Far(passage) == there;
      }
      OpenPassage(passage);
      ghost var open1 := carved;
      next := StepThroughCell(nextRow, nextColumn, rnd, pos);
      forall x | x in visited && x !in old(visited)
        ensures Connected(here, x, carved)
      {
        ConnectedPrepend(here, there, x, carved);
      }
    }

    /**
      The carve from a random start cell on a fresh maze (two draws pick the
      start row and column).  Afterwards every cell is visited, exactly
      rows * columns - 1 passages are open, and every two cells are joined
      by a path through open passages: the open passages form a spanning
      tree of the grid.
    */
    method Generate(rnd: nat -> real) returns (start: Cell)
      requires Valid() && IsRandomSource(rnd)
      requires visited == {} && carved == {}
      modifies this, grid, verticals, horizontals
      ensures Valid()
      ensures InGrid(start, rows, columns)
      ensures start == Cell(DrawIndex(rnd(0), rows), DrawIndex(rnd(1), columns))
      ensures forall r, c :: 0 <= r < rows && 0 <= c < columns ==> grid[r, c]
      ensures visited == Cells(rows, columns)
      ensures |carved| == rows * columns - 1
      ensures forall a, b :: a in Cells(rows, columns) && b in Cells(rows, columns) ==> Connected(a, b, carved)
    {
      var startRow := DrawIndex(rnd(0), rows);
      var startColumn := DrawIndex(rnd(1), columns);
      start := Cell(startRow, startColumn);
      var _ := StepThroughCell(startRow, startColumn, rnd, 2);
      ClosedRegionIsGrid(visited, start, rows, columns);
      CellCount(rows, columns);
      forall r, c | 0 <= r < rows && 0 <= c < columns
        ensures grid[r, c]
      {
        assert Cell(r, c) in visited;
      }
      forall a, b | a in Cells(rows, columns) && b in Cells(rows, columns)
        ensures Connected(a, b, carved)
      {
        ConnectedSymmetric(start, a, carved);
        ConnectedTransitive(a, start, b, carved);
      }
    }

    /** The walls of row `r` of `horizontals`: one horizontal wall per closed entry, left to right. */
    method HorizontalRowWalls(r: nat, ux: real, uy: real) returns (ws: seq<Body>)
      requires r < horizontals.Length0
      ensures ws == HorizontalWalls(ClosedInRow(Contents(horizontals)[r], r), ux, uy)
    {
      ghost var m := Contents(horizontals);
      ws := [];
      for c := 0 to horizontals.Length1
        invariant ws == HorizontalWalls(ClosedInRow(m[r][..c], r), ux, uy)
      {
        HorizontalRowStep(m, r, c, ux, uy);
        if !horizontals[r, c] {
          ws := ws + [HorizontalWall(Cell(r, c), ux, uy)];
        }
      }
      assert m[r][..horizontals.Length1] == m[r];
    }

    /**
      The walls on horizontal lines, built by walking `horizontals` row by row and
      adding one wall per closed entry.
    */
    method EmitHorizontalWalls(ux: real, uy: real) returns (bodies: seq<Body>)
      ensures bodies == HorizontalWalls(ClosedEntries(Contents(horizontals)), ux, uy)
    {
      ghost var m := Contents(horizontals);
      bodies := [];
      for r := 0 to horizontals.Length0
        invariant bodies == HorizontalWalls(ClosedEntries(m[..r]), ux, uy)
      {
        var ws := HorizontalRowWalls(r, ux, uy);
        HorizontalMatrixStep(m, r, ux, uy);
        bodies := bodies + ws;
      }
      assert m[..horizontals.Length0] == m;
    }

    /** The walls of row `r` of `verticals`: one vertical wall per closed entry, left to right. */
    method VerticalRowWalls(r: nat, ux: real, uy: real) returns (ws: seq<Body>)
      requires r < verticals.Length0
      ensures ws == VerticalWalls(ClosedInRow(Contents(verticals)[r], r), ux, uy)
    {
      ghost var m := Contents(verticals);
      ws := [];
      for c := 0 to verticals.Length1
        invariant ws == VerticalWalls(ClosedInRow(m[r][..c], r), ux, uy)
      {
        VerticalRowStep(m, r, c, ux, uy);
        if !verticals[r, c] {
          ws := ws + [VerticalWall(Cell(r, c), ux, uy)];
        }
      }
      assert m[r][..verticals.Length1] == m[r];
    }

    /**
      The walls on vertical lines, built by walking `verticals` row by row and
      adding one wall per closed entry.
    */
    method EmitVerticalWalls(ux: real, uy: real) returns (bodies: seq<Body>)
      ensures bodies == VerticalWalls(ClosedEntries(Contents(verticals)), ux, uy)
    {
      ghost var m := Contents(verticals);
      bodies := [];
      for r := 0 to verticals.Length0
        invariant bodies == VerticalWalls(ClosedEntries(m[..r]), ux, uy)
      {
        var ws := VerticalRowWalls(r, ux, uy);
        VerticalMatrixStep(m, r, ux, uy);
        bodies := bodies + ws;
      }
      assert m[..verticals.Length0] == m;
    }

    /** All maze walls: the horizontal loop's, then the vertical loop's. */
    method EmitWalls(ux: real, uy: real) returns (bodies: seq<Body>)
      ensures bodies == Walls(Contents(horizontals), Contents(verticals), ux, uy)
    {
      var hs := EmitHorizontalWalls(ux, uy);
      var vs := EmitVerticalWalls(ux, uy);
      bodies := hs + vs;
    }
  }

  /**
    The whole script: a fresh 10 x 15 maze carved from a random start, with
    the frame, the walls, the goal and the ball laid out on a view of the
    given size, in the order they are added to the world.
  */
  method BuildScene(width: real, height: real, rnd: nat -> real) returns (maze: Maze, scene: seq<Body>)
    requires width > 0.0 && height > 0.0 && IsRandomSource(rnd)
    ensures fresh(maze) && maze.Valid()
    ensures maze.rows == CellsVertical && maze.columns == CellsHorizontal
    ensures maze.visited == Cells(maze.rows, maze.columns)
    ensures |maze.carved| == maze.rows * maze.columns - 1
    ensures forall a, b :: a in Cells(maze.rows, maze.columns) && b in Cells(maze.rows, maze.columns) ==>
      Connected(a, b, maze.carved)
    ensures scene == Scene(Contents(maze.horizontals), Contents(maze.verticals), width, height, maze.rows, maze.columns)
  {
    maze := new Maze(CellsVertical, CellsHorizontal);
    var _ := maze.Generate(rnd);
    var ux, uy := UnitLength(width, CellsHorizontal), UnitLength(height, CellsVertical);
    var walls := maze.EmitWalls(ux, uy);
    scene := Frame(width, height) + walls + [GoalBody(width, height, ux, uy), BallBody(ux, uy)];
  }
}
