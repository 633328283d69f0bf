/**
  The geometry mapper: from the finished passage matrices and the size of a
  cell to the bodies placed in the physics world.  A cell (r, c) occupies
  [c * ux, (c + 1) * ux] x [r * uy, (r + 1) * uy], with y growing downwards.
  The arithmetic is exact (`real`), where the browser uses floating point.
*/
module Geometry {
  import opened MazeGrid

  /**
    The label a body carries.  The four frame walls carry no label of their
    own (`Boundary`); the maze walls are labelled "wall", and only those
    are released when the player wins.
  */
  datatype Kind = Boundary | Wall | Goal | Ball

  /** The two body shapes created: `Bodies.rectangle` and `Bodies.circle`, by centre. */
  datatype Body =
    | Rectangle(cx: real, cy: real, width: real, height: real, kind: Kind)
    | Circle(cx: real, cy: real, radius: real, kind: Kind)

  /** Thickness of the maze walls and of the frame. */
  const WallThickness: real := 5.0
  const FrameThickness: real := 2.0

  /** The size of one cell: the view divided evenly among the cells. */
  function UnitLength(extent: real, cells: nat): (u: real)
    requires extent > 0.0 && cells >= 1
    ensures u > 0.0 && u * cells as real == extent
  {
    extent / cells as real
  }

  function Min(a: real, b: real): real {
    if a <= b then a else b
  }

  /**
    The four frame walls, top, bottom, left and right: each lies on one
    edge of the view and spans it from end to end.
  */
  function Frame(width: real, height: real): (f: seq<Body>)
    ensures |f| == 4
    ensures forall i :: 0 <= i < 4 ==> f[i].Rectangle? && f[i].kind == Boundary
    ensures f[0].cy == 0.0 && f[1].cy == height
    ensures f[2].cx == 0.0 && f[3].cx == width
    ensures forall i :: 0 <= i < 2 ==>
      f[i].cx - f[i].width / 2.0 == 0.0 && f[i].cx + f[i].width / 2.0 == width && f[i].height == FrameThickness
    ensures forall i :: 2 <= i < 4 ==>
      f[i].cy - f[i].height / 2.0 == 0.0 && f[i].cy + f[i].height / 2.0 == height && f[i].width == FrameThickness
  {
    [ Rectangle(width / 2.0, 0.0, width, FrameThickness, Boundary),
      Rectangle(width / 2.0, height, width, FrameThickness, Boundary),
      Rectangle(0.0, height / 2.0, FrameThickness, height, Boundary),
      Rectangle(width, height / 2.0, FrameThickness, height, Boundary) ]
  }

  /**
    The wall for a closed entry `[r][c]` of `horizontals`: it lies on the
    line between rows r and r + 1 and spans the width of column c.
  */
  function HorizontalWall(x: Cell, ux: real, uy: real): (w: Body)
    ensures w.Rectangle? && w.kind == Wall && w.height == WallThickness
    ensures w.cy == (x.row + 1) as real * uy
    ensures w.cx - w.width / 2.0 == x.column as real * ux
    ensures w.cx + w.width / 2.0 == (x.column + 1) as real * ux
  {
    Rectangle(x.column as real * ux + ux / 2.0, x.row as real * uy + uy, ux, WallThickness, Wall)
  }

  /**
    The wall for a closed entry `[r][c]` of `verticals`: it lies on the
    line between columns c and c + 1 and spans the height of row r.
  */
  function VerticalWall(x: Cell, ux: real, uy: real): (w: Body)
    ensures w.Rectangle? && w.kind == Wall && w.width == WallThickness
    ensures w.cx == (x.column + 1) as real * ux
    ensures w.cy - w.height / 2.0 == x.row as real * uy
    ensures w.cy + w.height / 2.0 == (x.row + 1) as real * uy
  {
    Rectangle(x.column as real * ux + ux, x.row as real * uy + uy / 2.0, WallThickness, uy, Wall)
  }

  /** A closed horizontal entry [0][1] with cells 100 wide and 50 high gives a wall centred at (150, 50), 100 wide. */
  lemma HorizontalWallExample()
    ensures HorizontalWall(Cell(0, 1), 100.0, 50.0) == Rectangle(150.0, 50.0, 100.0, 5.0, Wall)
  {
  }

  /** The positions of the closed (false) entries of one matrix row `r`, left to right. */
  function ClosedInRow(row: seq<bool>, r: int): seq<Cell>
  {
    if |row| == 0 then []
    else ClosedInRow(row[..|row| - 1], r) + (if row[|row| - 1] then [] else [Cell(r, |row| - 1)])
  }

  /** The positions of the closed entries of a matrix, in row-major order. */
  function ClosedEntries(m: seq<seq<bool>>): seq<Cell>
  {
    if |m| == 0 then []
    else ClosedEntries(m[..|m| - 1]) + ClosedInRow(m[|m| - 1], |m| - 1)
  }

  /** `a` comes strictly before `b` in row-major order. */
  predicate RowMajorBefore(a: Cell, b: Cell) {
    a.row < b.row || (a.row == b.row && a.column < b.column)
  }

  predicate RowMajorSorted(xs: seq<Cell>) {
    forall i, j :: 0 <= i < j < |xs| ==> RowMajorBefore(xs[i], xs[j])
  }

  lemma {:induction false} ClosedInRowExact(row: seq<bool>, r: int)
    ensures forall x :: x in ClosedInRow(row, r) <==> x.row == r && 0 <= x.column < |row| && !row[x.column]
    ensures forall i :: 0 <= i < |ClosedInRow(row, r)| ==> ClosedInRow(row, r)[i].row == r
    ensures RowMajorSorted(ClosedInRow(row, r))
  {
    if |row| > 0 {
      var init := row[..|row| - 1];
      ClosedInRowExact(init, r);
      forall x
        ensures x in ClosedInRow(row, r) <==> x.row == r && 0 <= x.column < |row| && !row[x.column]
      {
        if x.row == r && 0 <= x.column < |row| - 1 {
          assert row[x.column] == init[x.column];
        }
      }
    }
  }

  /**
    The closed entries are listed exactly once each: a position is listed
    iff it is in the matrix and its entry is false, and the list is strictly
    increasing in row-major order, so it has no repetition.
  */
  lemma {:induction false} ClosedEntriesExact(m: seq<seq<bool>>)
    ensures forall x :: x in ClosedEntries(m) <==>
      0 <= x.row < |m| && 0 <= x.column < |m[x.row]| && !m[x.row][x.column]
    ensures forall i :: 0 <= i < |ClosedEntries(m)| ==> 0 <= ClosedEntries(m)[i].row < |m|
    ensures RowMajorSorted(ClosedEntries(m))
  {
    if |m| > 0 {
      var init, last := m[..|m| - 1], m[|m| - 1];
      ClosedEntriesExact(init);
      ClosedInRowExact(last, |m| - 1);
      var a, b := ClosedEntries(init), ClosedInRow(last, |m| - 1);
      assert ClosedEntries(m) == a + b;
      forall i, j | 0 <= i < j < |a + b|
        ensures RowMajorBefore((a + b)[i], (a + b)[j])
      {
        if j < |a| {
        } else if i < |a| {
          assert (a + b)[j] == b[j - |a|];
        } else {
          assert (a + b)[i] == b[i - |a|] && (a + b)[j] == b[j - |a|];
        }
      }
      forall x
        ensures x in a + b <==> 0 <= x.row < |m| && 0 <= x.column < |m[x.row]| && !m[x.row][x.column]
      {
        if 0 <= x.row < |m| - 1 {
          assert m[x.row] == init[x.row];
        }
      }
    }
  }

  /** One horizontal wall per listed position, in list order. */
  function HorizontalWalls(xs: seq<Cell>, ux: real, uy: real): (ws: seq<Body>)
    ensures |ws| == |xs|
    ensures forall k :: 0 <= k < |xs| ==> ws[k] == HorizontalWall(xs[k], ux, uy)
  {
    seq(|xs|, k requires 0 <= k < |xs| => HorizontalWall(xs[k], ux, uy))
  }

  /** One vertical wall per listed position, in list order. */
  function VerticalWalls(xs: seq<Cell>, ux: real, uy: real): (ws: seq<Body>)
    ensures |ws| == |xs|
    ensures forall k :: 0 <= k < |xs| ==> ws[k] == VerticalWall(xs[k], ux, uy)
  {
    seq(|xs|, k requires 0 <= k < |xs| => VerticalWall(xs[k], ux, uy))
  }

  lemma HorizontalWallsAppend(xs: seq<Cell>, ys: seq<Cell>, ux: real, uy: real)
    ensures HorizontalWalls(xs + ys, ux, uy) == HorizontalWalls(xs, ux, uy) + HorizontalWalls(ys, ux, uy)
  {
  }

  lemma VerticalWallsAppend(xs: seq<Cell>, ys: seq<Cell>, ux: real, uy: real)
    ensures VerticalWalls(xs + ys, ux, uy) == VerticalWalls(xs, ux, uy) + VerticalWalls(ys, ux, uy)
  {
  }

  /** Walking one more entry of row `r`: a closed entry adds its horizontal wall. */
  lemma HorizontalRowStep(m: seq<seq<bool>>, r: nat, c: nat, ux: real, uy: real)
    requires r < |m| && c < |m[r]|
    ensures HorizontalWalls(ClosedInRow(m[r][..c + 1], r), ux, uy) ==
      HorizontalWalls(ClosedInRow(m[r][..c], r), ux, uy) + (if m[r][c] then [] else [HorizontalWall(Cell(r, c), ux, uy)])
  {
    assert m[r][..c + 1][..c] == m[r][..c];
    if !m[r][c] {
      HorizontalWallsAppend(ClosedInRow(m[r][..c], r), [Cell(r, c)], ux, uy);
    }
  }

  /** Walking one more entry of row `r`: a closed entry adds its vertical wall. */
  lemma VerticalRowStep(m: seq<seq<bool>>, r: nat, c: nat, ux: real, uy: real)
    requires r < |m| && c < |m[r]|
    ensures VerticalWalls(ClosedInRow(m[r][..c + 1], r), ux, uy) ==
      VerticalWalls(ClosedInRow(m[r][..c], r), ux, uy) + (if m[r][c] then [] else [VerticalWall(Cell(r, c), ux, uy)])
  {
    assert m[r][..c + 1][..c] == m[r][..c];
    if !m[r][c] {
      VerticalWallsAppend(ClosedInRow(m[r][..c], r), [Cell(r, c)], ux, uy);
    }
  }

  /** Walking a whole row appends that row's horizontal walls. */
  lemma HorizontalMatrixStep(m: seq<seq<bool>>, r: nat, ux: real, uy: real)
    requires r < |m|
    ensures HorizontalWalls(ClosedEntries(m[..r + 1]), ux, uy) ==
      HorizontalWalls(ClosedEntries(m[..r]), ux, uy) + HorizontalWalls(ClosedInRow(m[r], r), ux, uy)
  {
    assert m[..r + 1][..r] == m[..r];
    HorizontalWallsAppend(ClosedEntries(m[..r]), ClosedInRow(m[r], r), ux, uy);
  }

  /** Walking a whole row appends that row's vertical walls. */
  lemma VerticalMatrixStep(m: seq<seq<bool>>, r: nat, ux: real, uy: real)
    requires r < |m|
    ensures VerticalWalls(ClosedEntries(m[..r + 1]), ux, uy) ==
      VerticalWalls(ClosedEntries(m[..r]), ux, uy) + VerticalWalls(ClosedInRow(m[r], r), ux, uy)
  {
    assert m[..r + 1][..r] == m[..r];
    VerticalWallsAppend(ClosedEntries(m[..r]), ClosedInRow(m[r], r), ux, uy);
  }

  /** All maze walls: those of `horizontals` first, then those of `verticals`, each in row-major order. */
  function Walls(horizontals: seq<seq<bool>>, verticals: seq<seq<bool>>, ux: real, uy: real): seq<Body>
  {
    HorizontalWalls(ClosedEntries(horizontals), ux, uy) + VerticalWalls(ClosedEntries(verticals), ux, uy)
  }

  /**
    The walls are exactly one per closed entry and none per open entry.
    A wall on a horizontal line comes from `horizontals`, one on a vertical
    line from `verticals`, and the list is sorted in row-major order within
    each part.
  */
  lemma WallsMatchClosedEntries(horizontals: seq<seq<bool>>, verticals: seq<seq<bool>>, ux: real, uy: real)
    ensures |Walls(horizontals, verticals, ux, uy)| == |ClosedEntries(horizontals)| + |ClosedEntries(verticals)|
    ensures forall x :: x in ClosedEntries(horizontals) <==>
      0 <= x.row < |horizontals| && 0 <= x.column < |horizontals[x.row]| && !horizontals[x.row][x.column]
    ensures forall x :: x in ClosedEntries(verticals) <==>
      0 <= x.row < |verticals| && 0 <= x.column < |verticals[x.row]| && !verticals[x.row][x.column]
    ensures RowMajorSorted(ClosedEntries(horizontals)) && RowMajorSorted(ClosedEntries(verticals))
    ensures forall k :: 0 <= k < |ClosedEntries(horizontals)| ==>
      Walls(horizontals, verticals, ux, uy)[k] == HorizontalWall(ClosedEntries(horizontals)[k], ux, uy)
    ensures forall k :: |ClosedEntries(horizontals)| <= k < |Walls(horizontals, verticals, ux, uy)| ==>
      Walls(horizontals, verticals, ux, uy)[k] == VerticalWall(ClosedEntries(verticals)[k - |ClosedEntries(horizontals)|], ux, uy)
  {
    var hs, vs := ClosedEntries(horizontals), ClosedEntries(verticals);
    assert forall x :: x in hs <==>
      0 <= x.row < |horizontals| && 0 <= x.column < |horizontals[x.row]| && !horizontals[x.row][x.column]
    by {
      ClosedEntriesExact(horizontals);
    }
    assert forall x :: x in vs <==>
      0 <= x.row < |verticals| && 0 <= x.column < |verticals[x.row]| && !verticals[x.row][x.column]
    by {
      ClosedEntriesExact(verticals);
    }
    assert RowMajorSorted(hs) && RowMajorSorted(vs) by {
      ClosedEntriesExact(horizontals);
      ClosedEntriesExact(verticals);
    }
    WallsByPart(horizontals, verticals, ux, uy);
  }

  /** The walls, position by position: first those of `horizontals`, then those of `verticals`. */
  lemma WallsByPart(horizontals: seq<seq<bool>>, verticals: seq<seq<bool>>, ux: real, uy: real)
    ensures |Walls(horizontals, verticals, ux, uy)| == |ClosedEntries(horizontals)| + |ClosedEntries(verticals)|
    ensures forall k :: 0 <= k < |ClosedEntries(horizontals)| ==>
      Walls(horizontals, verticals, ux, uy)[k] == HorizontalWall(ClosedEntries(horizontals)[k], ux, uy)
    ensures forall k :: |ClosedEntries(horizontals)| <= k < |Walls(horizontals, verticals, ux, uy)| ==>
      Walls(horizontals, verticals, ux, uy)[k] == VerticalWall(ClosedEntries(verticals)[k - |ClosedEntries(horizontals)|], ux, uy)
  {
  }

  /** Every maze wall is labelled "wall", one per closed entry. */
  lemma WallKinds(horizontals: seq<seq<bool>>, verticals: seq<seq<bool>>, ux: real, uy: real)
    ensures |Walls(horizontals, verticals, ux, uy)| == |ClosedEntries(horizontals)| + |ClosedEntries(verticals)|
    ensures forall k :: 0 <= k < |Walls(horizontals, verticals, ux, uy)| ==> Walls(horizontals, verticals, ux, uy)[k].kind == Wall
  {
    var hw := HorizontalWalls(ClosedEntries(horizontals), ux, uy);
    var vw := VerticalWalls(ClosedEntries(verticals), ux, uy);
    assert Walls(horizontals, verticals, ux, uy) == hw + vw;
  }

  /** The centre of a cell. */
  function CentreX(x: Cell, ux: real): real {
    x.column as real * ux + ux / 2.0
  }

  function CentreY(x: Cell, uy: real): real {
    x.row as real * uy + uy / 2.0
  }

  /** The goal: a rectangle 70% of a cell in each axis, centred half a cell in from the far corner. */
  function GoalBody(width: real, height: real, ux: real, uy: real): Body {
    Rectangle(width - ux / 2.0, height - uy / 2.0, ux * 0.7, uy * 0.7, Goal)
  }

  /** The ball: a circle centred half a cell in from the near corner, its radius a quarter of the shorter cell side. */
  function BallBody(ux: real, uy: real): Body {
    Circle(ux / 2.0, uy / 2.0, Min(ux, uy) / 4.0, Ball)
  }

  /**
    With cells of size width / columns by height / rows, the goal is centred
    in the last cell (last row, last column) and lies strictly inside it.
  */
  lemma GoalInLastCell(width: real, height: real, rows: nat, columns: nat)
    requires width > 0.0 && height > 0.0 && rows >= 1 && columns >= 1
    ensures var ux, uy := UnitLength(width, columns), UnitLength(height, rows);
      var g, last := GoalBody(width, height, ux, uy), Cell(rows - 1, columns - 1);
      && g.Rectangle? && g.kind == Goal
      && g.cx == CentreX(last, ux) && g.cy == CentreY(last, uy)
      && g.width == 0.7 * ux && g.height == 0.7 * uy
      && (columns - 1) as real * ux < g.cx - g.width / 2.0 && g.cx + g.width / 2.0 < width
      && (rows - 1) as real * uy < g.cy - g.height / 2.0 && g.cy + g.height / 2.0 < height
  {
    var ux, uy := UnitLength(width, columns), UnitLength(height, rows);
    assert (columns - 1) as real * ux == width - ux;
    assert (rows - 1) as real * uy == height - uy;
  }

  /**
    The ball is centred in the first cell, its diameter is half the shorter
    side of a cell, so it lies strictly inside that cell.
  */
  lemma BallInFirstCell(ux: real, uy: real)
    requires ux > 0.0 && uy > 0.0
    ensures var b := BallBody(ux, uy);
      && b.Circle? && b.kind == Ball
      && b.cx == CentreX(Cell(0, 0), ux) && b.cy == CentreY(Cell(0, 0), uy)
      && 4.0 * b.radius == Min(ux, uy)
      && 0.0 < b.cx - b.radius && b.cx + b.radius < ux
      && 0.0 < b.cy - b.radius && b.cy + b.radius < uy
  {
  }

  /** Everything added to the world, in the order it is added: frame, horizontal walls, vertical walls, goal, ball. */
  function Scene(horizontals: seq<seq<bool>>, verticals: seq<seq<bool>>, width: real, height: real, rows: nat, columns: nat): seq<Body>
    requires width > 0.0 && height > 0.0 && rows >= 1 && columns >= 1
  {
    var ux, uy := UnitLength(width, columns), UnitLength(height, rows);
    Frame(width, height) + Walls(horizontals, verticals, ux, uy) + [GoalBody(width, height, ux, uy), BallBody(ux, uy)]
  }

  /** Frame, then walls, then goal and ball: the kinds of the concatenation, position by position. */
  lemma LayoutKinds(f: seq<Body>, w: seq<Body>, t: seq<Body>)
    requires |f| == 4 && forall i :: 0 <= i < 4 ==> f[i].kind == Boundary
    requires forall i :: 0 <= i < |w| ==> w[i].kind == Wall
    requires |t| == 2 && t[0].kind == Goal && t[1].kind == Ball
    ensures var s := f + w + t;
      && |s| == 4 + |w| + 2
      && (forall i :: 0 <= i < 4 ==> s[i].kind == Boundary)
      && (forall i :: 4 <= i < 4 + |w| ==> s[i].kind == Wall)
      && s[4 + |w|].kind == Goal && s[4 + |w| + 1].kind == Ball
  {
    var s := f + w + t;
    forall i | 4 <= i < 4 + |w|
      ensures s[i].kind == Wall
    {
      assert s[i] == w[i - 4];
    }
    assert s[4 + |w|] == t[0] && s[4 + |w| + 1] == t[1];
  }

  /** The scene holds the four frame walls, then one wall per closed entry, then exactly one goal and one ball, last. */
  lemma SceneLayout(horizontals: seq<seq<bool>>, verticals: seq<seq<bool>>, width: real, height: real, rows: nat, columns: nat)
    requires width > 0.0 && height > 0.0 && rows >= 1 && columns >= 1
    ensures var s, n := Scene(horizontals, verticals, width, height, rows, columns),
      |ClosedEntries(horizontals)| + |ClosedEntries(verticals)|;
      && |s| == 4 + n + 2
      && (forall i :: 0 <= i < 4 ==> s[i].kind == Boundary)
      && (forall i :: 4 <= i < 4 + n ==> s[i].kind == Wall)
      && s[4 + n].kind == Goal && s[4 + n + 1].kind == Ball
  {
    var ux, uy := UnitLength(width, columns), UnitLength(height, rows);
    WallKinds(horizontals, verticals, ux, uy);
    LayoutKinds(Frame(width, height), Walls(horizontals, verticals, ux, uy),
      [GoalBody(width, height, ux, uy), BallBody(ux, uy)]);
  }
}
