# MazeGame engine in Dafny

This project models the game logic of MazeGame, a small SFML maze game written in C++.

- **The grid.** `class Maze` holds a `width` × `height` grid of `WALL` (0) and `PASS` (1) cells. It has border-safe accessors `get`, `set`, `isWall` and `isDeadEnd`.
- **Generation.** `generate` builds the maze by randomized depth-first carving on the lattice of odd "room" cells:
  - reset the grid to walls;
  - from room (3, 3), carve two cells at a time in random directions until the cursor is at a dead end;
  - teleport to a random carved room;
  - repeat for 10000 outer passes, then force the goal cell (width-2, height-2) open.
- **Path finding.** `findShortestPath` is a breadth-first search over in-grid PASS cells. It keeps a parent map keyed by (row, column) pairs, with the sentinel (-1, -1) as the start's parent. It rebuilds the path by following parents back from the end and reversing.
- **The player.** The player moves one cell at a time unless the target reports as a wall. When a new game starts, a row-major scan from (1, 1) picks the player's first position.

Files:

- `seqs.dfy` (module `Seqs`): `Reverse`, the `std::reverse` at the end of path reconstruction.
- `maze.dfy` (module `MazeEngine`): cells, directions and `class Maze`.
  - The grid is a `const cells: array2<int>` indexed `cells[y, x]`.
  - Everything that writes to it is a method with `modifies cells`.
  - The accessors are functions that `reads cells`.
  - Walks, reachability and the bookkeeping of both algorithms are ghost predicates and lemmas.
- `player.dfy` (module `MazePlayer`): `class Player` with fields `x`, `y` and `isMoving`, the move rule, walks made of key presses, and the start-position scan.

How the randomness is modelled:

- `rand()` becomes a nondeterministic choice (`:|`); the proofs hold for every choice.
- A random direction whose probe is blocked changes neither grid nor cursor (`Probe` states this), so the inner walk picks among the directions that can be carved.
- The teleport picks among the odd rooms that are already PASS, as the `do … while` does.

How the proofs work:

- **Generation.**
  - A ghost carving tree records, for every carved cell, the cell it was carved from. The tree and its depth map give a walk from (3, 3) to each carved cell.
  - Two more invariants rule out loops (`Loopless`). Every carved passage cell lies between two carved rooms (`Flanked`). Every two side-adjacent carved cells are parent and child in the tree (`TreeEdges`).
  - A carve only fires when the room two steps away is WALL. The passage cell before it is then WALL too, so each carve adds two new tree edges and no other adjacency.
  - `Generate` returns the tree as ghost outputs. Every side adjacency between two PASS cells of the finished grid is a tree edge, so the passages hold no loop.
- **Path finding.**
  - Ghost distances and a ghost set of expanded cells carry the standard breadth-first invariant (`Frontier`). It says the queue is in distance order, is at most one level deep, and everything expanded has all of its neighbours discovered.
  - When the end is dequeued, no walk to it is shorter than its distance.
  - When the queue runs empty, no walk reaches it at all.
  - `Bfs` is a ghost reference of the same search as a function on values. It dequeues, expands in the order up, down, left, right, and traces back from the end. `FindShortestPath` returns exactly what `Bfs` returns, so the result is the one shortest walk that this order selects. `Bfs` (main.cpp:108-126), `Trace` (main.cpp:111-114), `NextParent` and `NextDist` (main.cpp:118-126) are reference definitions with no contract of their own. Their properties are carried by `FindShortestPath`, `TraceBack` and `ExpandMatches`, which tie the imperative search to them.

## Model

| member | source | states |
|---|---|---|
| MazeEngine.DX | main.cpp:105 | the column offset is a unit offset, zero for up and down and negative exactly for left |
| MazeEngine.DY | main.cpp:106 | the row offset is a unit offset, zero for left and right and negative exactly for up |
| MazeEngine.Maze.constructor | main.cpp:23-27 | allocates a `height` × `width` grid and records both dimensions |
| MazeEngine.Maze.Get | main.cpp:36-39 | any coordinate outside the grid reads as WALL; inside, the stored value |
| MazeEngine.Maze.Set | main.cpp:41-44 | an in-grid write changes exactly that one cell; an out-of-grid write changes nothing |
| MazeEngine.Maze.IsWall | main.cpp:46-48 | true outside the grid; inside, true exactly when the cell holds WALL |
| MazeEngine.Maze.DeadEndTerm | main.cpp:55-58 | one side adds 1 to the count exactly when the cursor is on that side's outermost room line or the cell two steps away is PASS, and 0 otherwise |
| MazeEngine.Maze.IsDeadEnd | main.cpp:53-60 | the four-way count reaches 4 exactly when, on each side, the cursor is on that side's outermost room line or the cell two steps away is PASS |
| MazeEngine.Maze.DeadEndProgress | main.cpp:53-60 | on a WALL/PASS grid and a room cursor, IsDeadEnd holds exactly when none of the four carve cases of the switch can fire |
| MazeEngine.Maze.AtLimit | main.cpp:73-84 | on an odd-sized grid, the border test of a switch case holds for a room exactly when the cell two steps that way is not a room |
| MazeEngine.Maze.CanCarve | main.cpp:73-84 | a switch case can fire exactly when the cell two steps that way is a room that is still WALL |
| MazeEngine.Maze.CarveChoice | main.cpp:70-87 | a room that is not a dead end has a direction that can be carved, so the inner loop can always progress |
| MazeEngine.Maze.Probe | main.cpp:71-85 | when the case can fire, exactly the one-step and two-step cells become PASS and the cursor moves 2 along one axis, staying on a room; otherwise grid and cursor are unchanged |
| MazeEngine.Maze.ResetToWalls | main.cpp:63-65 | afterwards every cell of the grid is WALL |
| MazeEngine.Maze.MarkPass | main.cpp:69 | the assignment `maze[y][x] = PASS` makes that cell PASS and leaves every other cell as it was |
| MazeEngine.Maze.CarveStep | main.cpp:70-86 | one successful probe keeps the grid, its layout and the loop-free carving tree in step, and leaves strictly fewer uncarved rooms |
| MazeEngine.Maze.PassageNew | main.cpp:73-84 | when a case fires, the room two steps away is uncarved, so the passage cell between is uncarved too |
| MazeEngine.Maze.FlankedGrowth | main.cpp:73-84 | carving a passage and the room beyond it keeps every carved passage between two carved rooms |
| MazeEngine.Maze.EdgesGrowth | main.cpp:73-84 | carving to an uncarved room adds the two new parent-child edges and no other side adjacency between carved cells |
| MazeEngine.Maze.TreeGrowth | main.cpp:73-84 | the new tree is the old one with the passage cell hanging from the cursor's room and the far room hanging from the passage cell, keeping it a tree of side-adjacent cells of decreasing depth with no adjacency besides its edges |
| MazeEngine.Maze.CarveWalk | main.cpp:70-87 | the inner loop terminates on a dead-end room, and every cell it carved hangs in the loop-free carving tree |
| MazeEngine.Maze.CarvePass | main.cpp:68-94 | one outer pass marks the cursor's room, carves to a dead end and teleports to a PASS room; the tree keeps every cell carved before and gains the cursor's room, and stays loop-free |
| MazeEngine.Maze.MarkGoal | main.cpp:95 | after the goal is forced open, the grid is WALL/PASS, PASS exactly on the tree's cells and the goal, the border and even-even cells are WALL, every PASS cell but the goal is reachable from (3, 3), and every two side-adjacent PASS cells are parent and child in the tree |
| MazeEngine.Maze.Generate | main.cpp:62-96 | the whole generation leaves border and even-even cells WALL, (3, 3) and the goal PASS, and every other cell PASS exactly when it is in the returned carving tree, and every PASS cell but the goal connected to (3, 3); it returns the carving tree, and every side adjacency between PASS cells is one of its edges, so the passages contain no loop |
| MazeEngine.Maze.MirrorsShape | main.cpp:63-95 | a grid that is PASS exactly on the carved cells, all off the border and never even-even, is WALL/PASS and keeps those walls |
| MazeEngine.Maze.TreeReaches | main.cpp:73-84 | following carve parents from any carved cell leads back to (3, 3) through PASS cells |
| MazeEngine.Maze.GeneratedShape | main.cpp:62-96 | the carving tree makes every PASS cell except the forced goal reachable from the root, and every side adjacency between PASS cells is a tree edge |
| MazeEngine.Maze.GoalApart | main.cpp:95 | a room outside the loop-free tree, like a forced goal that was never carved, has no carved side neighbour |
| MazeEngine.Maze.OpenEdges | main.cpp:62-96 | when the PASS cells are the tree's cells plus the goal room, every two side-adjacent PASS cells are parent and child |
| MazeEngine.Maze.NoOpenSquare | main.cpp:62-96 | a grid that keeps the even-even walls has no 2x2 block of PASS cells |
| MazeEngine.Maze.Visit | main.cpp:119-125 | one direction of the neighbour loop: an in-grid, PASS, undiscovered neighbour gets the dequeued cell as parent and is queued; otherwise nothing changes |
| MazeEngine.Maze.Expand | main.cpp:118-126 | after the four directions, the discovered neighbours are queued in order up, down, left, right and every neighbour one step away has a parent |
| MazeEngine.Maze.FrontierStep | main.cpp:108-126 | dequeuing and expanding a cell other than the end keeps the queue in distance order and every expanded cell's neighbours discovered |
| MazeEngine.Maze.FrontierFound | main.cpp:108-110 | when the end is at the front of the queue, every walk from the start to it has at least that many steps |
| MazeEngine.Maze.FrontierExhausted | main.cpp:108-127 | when the queue runs empty without reaching the end, no walk leads from the start to it |
| MazeEngine.Maze.Discovered | main.cpp:118-126 | every cell one expansion appends is an in-grid PASS neighbour of the dequeued cell that has no parent yet |
| MazeEngine.Maze.ExpandMatches | main.cpp:118-126 | the parent map and distances the `for` loop leaves are those of the functional expansion step |
| MazeEngine.Maze.BfsNext | main.cpp:108-126 | dequeuing and expanding a cell other than the end does not change what the functional search returns |
| MazeEngine.Maze.TraceBack | main.cpp:111-114 | following parents from the end collects dist+1 cells, from the end back to the start, each next one a step back, and equal to the functional trace; with the sentinel as start it collects nothing |
| MazeEngine.Maze.TrailDone | main.cpp:111-114 | once the parent walk reaches the sentinel, the trail holds dist+1 cells from the end back to the start, each next one a step back, or nothing when the start is the sentinel |
| MazeEngine.Maze.TrailShortest | main.cpp:110-116 | the reversed trail is a walk from start to end that no walk between them undercuts |
| MazeEngine.Maze.Reconstruct | main.cpp:110-116 | the reconstructed path is the reversed functional trace, and a shortest walk from the start to the end |
| MazeEngine.Maze.FindShortestPath | main.cpp:98-129 | the result is empty exactly when the end is unreachable from the start; otherwise it is a shortest walk through in-grid PASS cells from (startY, startX) to (endY, endX); in every case it equals what the functional search `Bfs` returns, so the direction order fixes which shortest walk it is |
| MazeEngine.Maze.ShortestWalkSimple | main.cpp:98-129 | a shortest walk never repeats a cell, and from a cell to itself it is that single cell |
| MazeEngine.Maze.CutLoop | main.cpp:98-129 | cutting the loop between two visits of the same cell leaves a shorter walk between the same ends |
| Seqs.Reverse | main.cpp:115 | the result has the same length and the elements in the opposite order |
| MazePlayer.Destination | main.cpp:205-215 | a move lands on the target when it is not a wall and otherwise stays in place, so it never lands on a wall |
| MazePlayer.MoveStep | main.cpp:205-215 | on a WALL/PASS grid, a one-cell move from a PASS cell stays put or steps to an adjacent PASS cell |
| MazePlayer.Positions | main.cpp:358-373 | pressing n keys passes through n+1 positions, the first being where the player starts |
| MazePlayer.PositionsOpen | main.cpp:358-373 | pressing any sequence of W/S/A/D keys from a PASS cell keeps the player on PASS cells, each reachable from the start |
| MazePlayer.ReachableBack | main.cpp:205-215 | a step onto a cell from which a walk goes on gives a walk from the first cell |
| MazePlayer.Player.constructor | main.cpp:162-163 | the player starts at the given position, (1, 1) by default, and is not moving |
| MazePlayer.Player.Move | main.cpp:205-215 | the position becomes (x+dx, y+dy) exactly when that cell is not a wall, and `isMoving` records whether it did |
| MazePlayer.StartPosition | main.cpp:327-337 | the scan stops at the first PASS cell in row-major order from (1, 1), with column 0 skipped; it fails exactly when there is none, which the game treats as the error exit |

## Left out

- Rendering via SFML is not modelled: `Maze::draw`, `Player::draw`, the game's render and the camera clamp and centring. It is graphics output.
- Texture and font loading, and the `exit(1)` calls on failure, are not modelled; they are file I/O. `StartPosition` returns `false` where the game prints its error and exits.
- Event polling, the keyboard and mouse handling, and the menu/playing/finished states are not modelled beyond the four movement keys they map to directions.
- Clocks, animation frames and the floating-point timing are not modelled.
- `srand(time(NULL))` and the distribution of `rand()` are not modelled. Each random pick becomes a nondeterministic choice.
- The random direction pick is modelled only through enabled directions. A probe whose case cannot fire changes nothing (`Probe`), so it is skipped.
- The C++ inner loop probes once before its first dead-end test; `CarveWalk` tests first. On a WALL/PASS grid the extra probe at a dead end cannot fire, so the two loops leave the same state.
- Manual `new`/`delete` of the row arrays is not modelled. The grid is one `array2`, allocated by the constructor and reclaimed by Dafny.
- C++ `int` overflow is not modelled. Coordinates are unbounded integers; the game uses a 61 × 61 grid.
- MazeEngine.Maze.Generate: requires odd `width` and `height` of at least 5, because the C++ indexes `maze[y][x]` without bounds checks. With even sizes the probes read past the grid.
- MazeEngine.Maze.Generate: does not claim that every room is carved. With an arbitrary sequence of random picks, 10000 passes need not visit every room on a large grid. The passages are proved loop-free, so the carved part is a tree; only its coverage is not claimed.
- MazeEngine.Maze.Generate: does not claim that the forced goal cell is connected to (3, 3), for the same reason. When the goal room was never carved, `GoalApart` shows it has no PASS neighbour.
- MazeEngine.Maze.FindShortestPath: a start at the sentinel position (-1, -1) always gives the empty path, even when the end equals the start. The reconstruction loop stops there at once. The contract states this case separately instead of claiming the reachability equivalence for it.
- MazeEngine.Maze.FindShortestPath: the C++ `break` after reconstruction is modelled as `return`. Only `return path` follows the loop.
