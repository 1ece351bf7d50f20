module MazePlayer {
  import opened MazeEngine

  /** Where a move by (dx, dy) from (x, y) leaves the player: on the target
      cell when the maze does not report a wall there, otherwise in place. */
  function Destination(maze: Maze, x: int, y: int, dx: int, dy: int): (r: Cell)
    requires maze.Valid()
    reads maze.cells
    ensures r == Cell(y, x) || !maze.IsWall(r.col, r.row)
    ensures !maze.IsWall(x + dx, y + dy) ==> r == Cell(y + dy, x + dx)
    ensures maze.IsWall(x + dx, y + dy) ==> r == Cell(y, x)
  {
    if maze.IsWall(x + dx, y + dy) then Cell(y, x) else Cell(y + dy, x + dx)
  }

  /** On a grid of WALL and PASS cells, a move in one of the four directions
      from an open cell either stays put or is a Step, so the player never
      leaves the passages. */
  lemma MoveStep(maze: Maze, x: int, y: int, i: int)
    requires maze.Valid() && maze.Binary() && maze.Open(Cell(y, x)) && 0 <= i < 4
    ensures var d := Destination(maze, x, y, DX(i), DY(i));
      maze.Open(d) && (d == Cell(y, x) || maze.Step(Cell(y, x), d))
  {
    var d := Destination(maze, x, y, DX(i), DY(i));
    if d != Cell(y, x) {
      assert d == Cell(y + DY(i), x + DX(i));
    }
  }

  /** The positions the player passes through when the keys selecting the
      directions in `dirs` are pressed one after another from (x, y); the keys
      W, S, A and D select directions 0 to 3 (up, down, left, right). */
  ghost function Positions(maze: Maze, x: int, y: int, dirs: seq<int>): (r: seq<Cell>)
    requires maze.Valid() && forall k :: 0 <= k < |dirs| ==> 0 <= dirs[k] < 4
    reads maze.cells
    ensures |r| == |dirs| + 1 && r[0] == Cell(y, x)
    decreases |dirs|
  {
    if dirs == [] then [Cell(y, x)]
    else
      var d := Destination(maze, x, y, DX(dirs[0]), DY(dirs[0]));
      [Cell(y, x)] + Positions(maze, d.col, d.row, dirs[1..])
  }

  /** Prepending a Step to a walk gives a walk. */
  lemma ReachableBack(maze: Maze, s: Cell, d: Cell, e: Cell)
    requires maze.Valid() && maze.Step(s, d) && maze.Reachable(d, e)
    ensures maze.Reachable(s, e)
  {
    var p :| maze.WalkBetween(p, d, e);
    var p' := [s] + p;
    assert maze.WalkBetween(p', s, e) by {
      forall k | 0 <= k < |p'| - 1
        ensures maze.Step(p'[k], p'[k + 1])
      {
        if k > 0 {
          assert p'[k] == p[k - 1] && p'[k + 1] == p[k];
        }
      }
    }
  }

  /** Starting on an open cell of a WALL/PASS grid, every position the player
      passes through is open, each move stays put or is a Step, and every
      position is Reachable from the start. */
  lemma {:induction false} PositionsOpen(maze: Maze, x: int, y: int, dirs: seq<int>)
    requires maze.Valid() && maze.Binary() && maze.Open(Cell(y, x))
    requires forall k :: 0 <= k < |dirs| ==> 0 <= dirs[k] < 4
    ensures forall k :: 0 <= k < |dirs| + 1 ==>
      maze.Open(Positions(maze, x, y, dirs)[k]) && maze.Reachable(Cell(y, x), Positions(maze, x, y, dirs)[k])
    ensures forall k :: 0 <= k < |dirs| ==>
      Positions(maze, x, y, dirs)[k] == Positions(maze, x, y, dirs)[k + 1] ||
      maze.Step(Positions(maze, x, y, dirs)[k], Positions(maze, x, y, dirs)[k + 1])
    decreases |dirs|
  {
    var r := Positions(maze, x, y, dirs);
    assert maze.WalkBetween([Cell(y, x)], Cell(y, x), Cell(y, x));
    if dirs != [] {
      var d := Destination(maze, x, y, DX(dirs[0]), DY(dirs[0]));
      MoveStep(maze, x, y, dirs[0]);
      assert Cell(d.row, d.col) == d;
      PositionsOpen(maze, d.col, d.row, dirs[1..]);
      var t := Positions(maze, d.col, d.row, dirs[1..]);
      assert r == [Cell(y, x)] + t;
      forall k | 0 <= k < |dirs| + 1
        ensures maze.Open(r[k]) && maze.Reachable(Cell(y, x), r[k])
      {
        if k > 0 {
          assert r[k] == t[k - 1];
          if d != Cell(y, x) {
            ReachableBack(maze, Cell(y, x), d, t[k - 1]);
          }
        }
      }
      forall k | 0 <= k < |dirs|
        ensures r[k] == r[k + 1] || maze.Step(r[k], r[k + 1])
      {
        if k > 0 {
          assert r[k] == t[k - 1] && r[k + 1] == t[k];
        }
      }
    }
  }

  /** The player's grid position and whether the last move succeeded; its
      sprite and animation are not part of this model. */
  class Player {
    var x: int
    var y: int
    var isMoving: bool

    /** A player standing at (startX, startY), not moving; by default at (1, 1). */
    constructor (startX: int := 1, startY: int := 1)
      ensures x == startX && y == startY && !isMoving
    {
      x, y, isMoving := startX, startY, false;
    }

    /** Move by (dx, dy) unless the maze reports a wall there. */
    method Move(dx: int, dy: int, maze: Maze)
      requires maze.Valid()
      modifies this
      ensures Cell(y, x) == Destination(maze, old(x), old(y), dx, dy)
      ensures isMoving <==> !maze.IsWall(old(x) + dx, old(y) + dy)
    {
      var newX := x + dx;
      var newY := y + dy;
      if !maze.IsWall(newX, newY) {
        x, y := newX, newY;
        isMoving := true;
      } else {
        isMoving := false;
      }
    }
  }

  /** The scan for the player's first position after a new maze: start at
      (1, 1) and go right along the row and then to column 1 of the next row
      until a PASS cell turns up. The first result is false when the scan runs
      past the last row, where the game reports that no starting position was
      found and exits. Column 0 is never looked at. */
  method StartPosition(maze: Maze) returns (ok: bool, x: int, y: int)
    requires maze.Valid()
    ensures ok ==> maze.Get(x, y) == PASS && 1 <= y < maze.height && 1 <= x < maze.width
    ensures ok ==> forall j, i :: 1 <= j < y && 1 <= i < maze.width ==> maze.Get(i, j) != PASS
    ensures ok ==> forall i :: 1 <= i < x ==> maze.Get(i, y) != PASS
    ensures !ok <==> forall j, i :: 1 <= j < maze.height && 1 <= i < maze.width ==> maze.Get(i, j) != PASS
  {
    x, y := 1, 1;
    while maze.Get(x, y) != PASS
      invariant 1 <= y && 1 <= x && (x < maze.width || x == 1)
      invariant y < maze.height || maze.Get(x, y) != PASS
      invariant forall j, i :: 1 <= j < y && 1 <= i < maze.width ==> maze.Get(i, j) != PASS
      invariant forall i :: 1 <= i < x ==> maze.Get(i, y) != PASS
      decreases maze.height - y, maze.width + 1 - x
    {
      x := x + 1;
      if x >= maze.width {
        x := 1;
        y := y + 1;
      }
      if y >= maze.height {
        return false, x, y;
      }
    }
    ok := true;
  }
}
