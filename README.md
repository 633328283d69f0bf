# Maze generator model

The repository is a browser maze game in one script, `index.js`. It builds the
maze in these steps:

- It sets up a grid of `cellsVertical` rows by `cellsHorizontal` columns.
- It carves the maze with a randomized depth-first search.
- The search starts from a random cell and shuffles each cell's four
  neighbours with a Fisher–Yates shuffle.
- It turns every passage left closed into a wall rectangle on a Matter.js
  world.
- It adds a rectangular frame, a goal rectangle in the last cell and a ball
  in the first cell.

This project models that core in Dafny. It has four modules:

- `Shuffling` (`shuffle.dfy`) is the in-place shuffle on an `array`. It is
  specified by a recursive function of the draws it makes.
- `MazeGrid` (`grid.dfy`) holds cells, passages, paths through open passages
  and the grid's connectivity.
- `Geometry` (`geometry.dfy`) holds the bodies placed in the world. Their
  arithmetic is exact `real` arithmetic.
- `Mazes` (`maze.dfy`) holds the class `Maze`:
  - its three `array2<bool>` matrices `grid`, `verticals` and `horizontals`;
  - the recursive carve `StepThroughCell` and its start `Generate`;
  - the loops that emit the walls;
  - `BuildScene`, the whole script from a fresh 10 x 15 maze to the list
    of bodies.

The matrices are tied by the predicate `Valid` to two ghost sets:

- `visited`, the cells whose `grid` flag is true;
- `carved`, the passages whose entry is true.

The carve is proved to leave:

- every cell visited;
- exactly rows * columns - 1 open passages;
- every two cells joined by a path through open passages.

`Math.random` is replaced by a stream `rnd: nat -> real`. Every value of the
stream lies in [0, 1). The carve threads through it a position that counts the
draws made so far.

## Model

| member | source | states |
|---|---|---|
| `Shuffling.DrawIndex` | index.js:48 | `Math.floor(Math.random() * counter)` lies in [0, counter), so both swapped indices are in bounds |
| `Shuffling.DrawIndexOnto` | index.js:48 | every index in [0, counter) is drawn by some random value in [0, 1) |
| `Shuffling.DrawIndexIsFloor` | index.js:48 | in exact real arithmetic the draw is `Math.floor(r * counter)`: it is at most `r * counter`, which is less than the draw plus one |
| `Shuffling.Scaled` | index.js:48 | `r * n`, written as repeated addition, lies in [0, n) for r in [0, 1) and n > 0 |
| `Shuffling.ScaledIsProduct` | index.js:48 | that repeated addition equals the product `r * n` |
| `Shuffling.FloorBelow` | index.js:48 | the largest index below n that does not exceed x lies in [0, n) |
| `Shuffling.FloorBelowIsFloor` | index.js:48 | for x in [0, n) that index is `Math.floor(x)` |
| `Shuffling.Swap` | index.js:52-54 | the swap through `temp` exchanges the two entries and leaves every other entry as it was |
| `Shuffling.SwapIsPermutation` | index.js:52-54 | one swap keeps the multiset of elements |
| `Shuffling.ShuffledIsPermutation` | index.js:44-58 | the shuffle keeps the length and the multiset of elements: it is a permutation |
| `Shuffling.ShuffledKeepsAt` | index.js:47-55 | a single position at or beyond `counter` comes out of the remaining steps unchanged |
| `Shuffling.ShuffledKeepsSuffix` | index.js:47-55 | positions at or beyond `counter` are final and are never touched again |
| `Shuffling.LastPositionIsFirstDraw` | index.js:48-54 | the element ending in the last position is the one at the first drawn index |
| `Shuffling.Shuffle` | index.js:44-58 | the in-place loop leaves the array equal to the shuffle function of its old contents, permuted, after exactly `arr.length` draws |
| `MazeGrid.CellCount` | index.js:60-62 | a grid of rows x columns has rows * columns cells |
| `MazeGrid.Between` | index.js:104-113 | the passage between two adjacent cells separates exactly those two cells |
| `MazeGrid.BetweenSymmetric` | index.js:104-113 | it is the same passage whichever of the two cells is named first |
| `MazeGrid.BetweenInGrid` | index.js:93-113 | the passage between two in-grid neighbours is an in-bounds entry of `verticals` or `horizontals` |
| `MazeGrid.NeighboursInMonotone` | index.js:100-103 | visiting more cells keeps every neighbour already visited |
| `MazeGrid.ConnectedToItself` | index.js:81 | a cell is joined to itself by the one-cell path |
| `MazeGrid.ConnectedMonotone` | index.js:104-115 | opening more passages keeps every path |
| `MazeGrid.ConnectedPrepend` | index.js:104-115 | stepping through the passage just opened and then along a path from the neighbour is a path |
| `MazeGrid.ConnectedSymmetric` | index.js:104-115 | paths can be walked backwards |
| `MazeGrid.ConnectedTransitive` | index.js:104-115 | two paths end to end form a path |
| `MazeGrid.ReachAlongRow` | index.js:84-88 | a neighbour-closed set of cells that holds one cell of a row holds the whole row |
| `MazeGrid.ReachAlongColumn` | index.js:84-88 | a neighbour-closed set of cells that holds one cell of a column holds the whole column |
| `MazeGrid.ClosedRegionIsGrid` | index.js:83-116 | a set of cells that holds the start and every in-grid neighbour of each of its cells is the whole grid |
| `Geometry.UnitLength` | index.js:15-16 | a cell is a positive length, and `cells` of them span the view exactly |
| `Geometry.Frame` | index.js:34-39 | four frame rectangles, 2 thick, each on one edge of the view and spanning it end to end |
| `Geometry.HorizontalWall` | index.js:129-133 | a closed `horizontals[r][c]` gives a wall 5 high on the line below row r, spanning column c |
| `Geometry.VerticalWall` | index.js:154-158 | a closed `verticals[r][c]` gives a wall 5 wide on the line right of column c, spanning row r |
| `Geometry.HorizontalWallExample` | index.js:129-133 | with ux = 100 and uy = 50, a closed horizontal [0][1] gives a wall centred at (150, 50), 100 wide |
| `Geometry.ClosedInRowExact` | index.js:124-127 | one row's listed positions are exactly its false entries, left to right |
| `Geometry.ClosedEntriesExact` | index.js:123-127 | a matrix's listed positions are exactly its false entries, each once, in row-major order |
| `Geometry.HorizontalWallsAppend` | index.js:123-145 | the walls of two lists end to end are the walls of each in turn |
| `Geometry.VerticalWallsAppend` | index.js:148-169 | the walls of two lists end to end are the walls of each in turn |
| `Geometry.HorizontalRowStep` | index.js:124-143 | one more entry of a `horizontals` row adds its wall if it is closed and nothing if it is open |
| `Geometry.VerticalRowStep` | index.js:149-168 | one more entry of a `verticals` row adds its wall if it is closed and nothing if it is open |
| `Geometry.HorizontalMatrixStep` | index.js:123-144 | one more row of `horizontals` appends that row's walls |
| `Geometry.VerticalMatrixStep` | index.js:148-169 | one more row of `verticals` appends that row's walls |
| `Geometry.WallsMatchClosedEntries` | index.js:123-169 | one wall per false entry and none per true entry; horizontals first, each part in row-major order |
| `Geometry.WallsByPart` | index.js:123-169 | the walls list holds the horizontal walls of the closed `horizontals` entries, in order, followed by the vertical walls of the closed `verticals` entries |
| `Geometry.WallKinds` | index.js:123-169 | there is one maze wall per closed entry, and every one carries the label "wall" |
| `Geometry.GoalInLastCell` | index.js:172-176 | the goal is 0.7 of a cell in each axis, centred in the last cell, and lies strictly inside it |
| `Geometry.BallInFirstCell` | index.js:190-194 | the ball's radius is a quarter of the shorter cell side; it is centred in the first cell and lies strictly inside it |
| `Geometry.SceneLayout` | index.js:34-202 | the bodies are the frame, then one wall per closed entry, then the goal, then the ball |
| `Geometry.LayoutKinds` | index.js:34-202 | a frame of four boundary bodies, then walls, then goal and ball, keeps those kinds at those positions once concatenated |
| `Mazes.Candidates` | index.js:83-88 | the four candidates up, right, down, left, each one step away in its direction |
| `Mazes.PassageToward` | index.js:105-113 | the entry written for each direction is the passage between the cell and the neighbour that way |
| `Mazes.ShuffledCandidates` | index.js:83-88 | the shuffled neighbour list is the shuffle of the four candidates, each exactly once, after four draws |
| `Mazes.SettledMonotone` | index.js:100-103 | a candidate once visited stays visited |
| `Mazes.AllSettled` | index.js:90-103 | when every shuffled candidate is out of bounds or visited, every in-grid neighbour of the cell is visited |
| `Mazes.Maze.constructor` | index.js:60-70 | the three matrices have the shapes rows x columns, rows x (columns - 1) and (rows - 1) x columns, and are all false |
| `Mazes.Maze.MarkVisited` | index.js:81 | sets one `grid` flag and no other |
| `Mazes.Maze.OpenPassage` | index.js:104-113 | sets one entry of `verticals` or `horizontals` and no other |
| `Mazes.Maze.StepThroughCell` | index.js:75-117 | on a visited cell nothing changes. Otherwise flags only go from false to true, and each newly visited cell has its in-grid neighbours visited and is reachable from the start. Each new cell but the first came with one new open passage |
| `Mazes.Maze.CarveAll` | index.js:90-116 | the loop over the shuffled candidates leaves every in-grid neighbour visited, and opens one passage per newly visited cell |
| `Mazes.Maze.CarveToward` | index.js:91-115 | a candidate that is out of bounds or visited changes nothing and uses no draw. Otherwise the entry `PassageToward(here, direction)` becomes open, and the carve goes on from the candidate, which ends visited |
| `Mazes.Maze.Generate` | index.js:72-119 | the start cell is the first two draws scaled to rows and columns. On a fresh maze the carve leaves every cell visited and exactly rows * columns - 1 passages open, with every two cells joined by open passages |
| `Mazes.Maze.HorizontalRowWalls` | index.js:124-144 | one row of `horizontals` gives one wall per false entry, left to right |
| `Mazes.Maze.EmitHorizontalWalls` | index.js:123-145 | the horizontal loop emits the walls of the closed `horizontals` entries in row-major order |
| `Mazes.Maze.VerticalRowWalls` | index.js:149-168 | one row of `verticals` gives one wall per false entry, left to right |
| `Mazes.Maze.EmitVerticalWalls` | index.js:148-169 | the vertical loop emits the walls of the closed `verticals` entries in row-major order |
| `Mazes.Maze.EmitWalls` | index.js:123-169 | the horizontal walls, then the vertical walls |
| `Mazes.BuildScene` | index.js:10-202 | a fresh 10 x 15 maze is fully carved into a spanning set of passages, and the bodies added are the scene of its matrices |

## Left out

- The Matter.js engine, renderer and runner are not modelled (index.js:1-31). Every `World.add` call is left out too. The model returns the list of bodies that those calls would add.
- `window.innerWidth` and `innerHeight` are not modelled; width and height are positive `real` parameters.
- Floating point is not modelled: all geometry is exact `real` arithmetic. So is the draw `Math.floor(Math.random() * counter)`. The double product can round up to the next integer, so the source may draw one index higher than `DrawIndex` for the same random value. Both stay within [0, counter).
- `Math.random` is a caller-supplied stream of reals in [0, 1). Whether the shuffle is uniform is a probabilistic claim and is not stated.
- The keyboard handler (index.js:204-219) is DOM input and physics velocity, and is not modelled.
- The win handler (index.js:223-244) toggles DOM classes and changes gravity and the bodies' static flags. It is not modelled.
- The empty `reset` stub (index.js:248-251) is not modelled.
- Render options (colours, `isStatic`) are not modelled. A body keeps only its shape, centre, size and kind.
- Mazes.Maze.Generate: states connectivity and exactly rows * columns - 1 open passages, not acyclicity as such. A connected graph on n vertices with n - 1 edges is a tree, but that theorem is not proved here.
- The source builds each matrix row as its own JavaScript array (the comment at index.js:62). The model uses `array2`, so distinct rows hold by construction and no aliasing between rows is modelled.
- The source iterates the shuffled array with `for...of`. The model reads that array's contents as a sequence once the shuffle is done; the loop never writes to that array.
- The loop body of `stepThroughCell` (index.js:91-115) is modelled as the separate method `CarveToward`. The loop itself (index.js:90-116) is the method `CarveAll`.
