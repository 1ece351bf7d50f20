/**
 The maze engine: a grid of WALL/PASS cells with border-safe accessors, the
 randomized depth-first carving that builds a maze on it, and the breadth-first
 search that finds a shortest route through it.
 */
module MazeEngine {
  import opened Seqs

  const WALL: int := 0
  const PASS: int := 1

  /** Number of outer passes `generate` makes before it stops. */
  const BUDGET: int := 10000

  /** A grid position as the path finder stores it: row first, then column, that is (y, x). */
  datatype Cell = Cell(row: int, col: int)

  /** Parent of the start cell in the path finder's parent map. */
  const SENTINEL: Cell := Cell(-1, -1)

  /** Column offset of direction `i` in the order up, down, left, right: a unit
      offset, zero for up and down, negative for left. */
  function DX(i: int): (d: int)
    requires 0 <= i < 4
    ensures -1 <= d <= 1 && (d == 0 <==> i < 2) && (d < 0 <==> i == 2)
  {
    if i == 2 then -1 else if i == 3 then 1 else 0
  }

  /** Row offset of direction `i` in the order up, down, left, right: a unit
      offset, zero for left and right, negative for up. */
  function DY(i: int): (d: int)
    requires 0 <= i < 4
    ensures -1 <= d <= 1 && (d == 0 <==> 2 <= i) && (d < 0 <==> i == 0)
  {
    if i == 0 then -1 else if i == 1 then 1 else 0
  }

  /** The cell one step from `u` in direction `i`. */
  function Neighbour(u: Cell, i: int): Cell
    requires 0 <= i < 4
  {
    Cell(u.row + DY(i), u.col + DX(i))
  }

  /** `u` and `w` share a side. */
  predicate Adjacent(u: Cell, w: Cell)
  {
    (u.row == w.row && (u.col - w.col == 1 || w.col - u.col == 1)) ||
    (u.col == w.col && (u.row - w.row == 1 || w.row - u.row == 1))
  }

  /** Every cell sharing a side with `u` is one of its four neighbours. */
  lemma AdjacentIsNeighbour(u: Cell, w: Cell)
    requires Adjacent(u, w)
    ensures w == Neighbour(u, 0) || w == Neighbour(u, 1) || w == Neighbour(u, 2) || w == Neighbour(u, 3)
  {
  }

  class Maze {
    const width: int
    const height: int
    /** cells[y, x] is the state of column x in row y. */
    const cells: array2<int>

    predicate Valid()
    {
      cells.Length0 == height && cells.Length1 == width
    }

    /** The grid is allocated with the given size; its contents are unspecified. */
    constructor (w: int, h: int)
      requires w >= 0 && h >= 0
      ensures width == w && height == h && Valid() && fresh(cells)
    {
      width, height := w, h;
      cells := new int[h, w];
    }

    predicate InBounds(x: int, y: int)
    {
      0 <= x < width && 0 <= y < height
    }

    /** The state at (x, y); every coordinate outside the grid reads as WALL. */
    function Get(x: int, y: int): (r: int)
      requires Valid()
      reads cells
      ensures !InBounds(x, y) ==> r == WALL
      ensures InBounds(x, y) ==> r == cells[y, x]
    {
      if x < 0 || y < 0 || x >= width || y >= height then WALL else cells[y, x]
    }

    /** Stores `value` at (x, y) when that is inside the grid, and does nothing otherwise. */
    method Set(x: int, y: int, value: int)
      requires Valid()
      modifies cells
      ensures forall i, j :: Get(i, j) == if i == x && j == y && InBounds(x, y) then value else old(Get(i, j))
    {
      if x >= 0 && y >= 0 && x < width && y < height {
        cells[y, x] := value;
      }
    }

    function IsWall(x: int, y: int): (r: bool)
      requires Valid()
      reads cells
      ensures !InBounds(x, y) ==> r
      ensures InBounds(x, y) ==> (r <==> cells[y, x] == WALL)
    {
      Get(x, y) == WALL
    }

    /** One direction's contribution to the dead-end count: the cursor is on that
        side's outermost room line, or the room two steps that way is carved. */
    function DeadEndTerm(atLimit: bool, far: int): (r: int)
      ensures 0 <= r <= 1 && (r == 1 <==> atLimit || far == PASS)
    {
      if !atLimit && far == PASS then 1 else if atLimit then 1 else 0
    }

    /** No direction is left to carve from (x, y): each of the four sides is either
        the outermost room line or leads to a room that is already PASS. */
    function IsDeadEnd(x: int, y: int): (r: bool)
      requires Valid()
      reads cells
      ensures r <==> (x == 1 || Get(x - 2, y) == PASS) && (y == 1 || Get(x, y - 2) == PASS) &&
                     (x == width - 2 || Get(x + 2, y) == PASS) && (y == height - 2 || Get(x, y + 2) == PASS)
    {
      var a := DeadEndTerm(x == 1, Get(x - 2, y)) + DeadEndTerm(y == 1, Get(x, y - 2)) +
               DeadEndTerm(x == width - 2, Get(x + 2, y)) + DeadEndTerm(y == height - 2, Get(x, y + 2));
      a == 4
    }

    // ---------------------------------------------------------------------------
    // Shape of the grid during and after generation

    /** The dimensions `generate` needs: odd, and large enough to hold room (3, 3). */
    predicate CanGenerate()
    {
      width >= 5 && height >= 5 && width % 2 == 1 && height % 2 == 1
    }

    /** (x, y) is a room cell: both coordinates odd, strictly inside the border. */
    predicate OnRoom(x: int, y: int)
    {
      1 <= x <= width - 2 && 1 <= y <= height - 2 && x % 2 == 1 && y % 2 == 1
    }

    /** Every stored cell is WALL or PASS. */
    ghost predicate Binary()
      requires Valid()
      reads cells
    {
      forall j, i :: 0 <= j < height && 0 <= i < width ==> cells[j, i] == WALL || cells[j, i] == PASS
    }

    /** The outer border and every cell with two even coordinates are WALL. */
    ghost predicate WallsKept()
      requires Valid()
      reads cells
    {
      forall j, i ::
        0 <= j < height && 0 <= i < width && (j == 0 || i == 0 || j == height - 1 || i == width - 1 || (j % 2 == 0 && i % 2 == 0))
        ==> cells[j, i] == WALL
    }

    /** The cursor lies on the outermost room line on the side of direction `c`:
        on a grid of odd size, a room is there exactly when the cell two steps
        that way is not a room. */
    predicate AtLimit(x: int, y: int, c: int): (r: bool)
      requires 0 <= c < 4
      ensures CanGenerate() && OnRoom(x, y) ==> (r <==> !OnRoom(x + 2 * DX(c), y + 2 * DY(c)))
    {
      if c == 0 then y == 1 else if c == 1 then y == height - 2 else if c == 2 then x == 1 else x == width - 2
    }

    /** Carving in direction `c` from room (x, y) is possible: the room two steps
        that way exists and is still WALL. */
    predicate CanCarve(x: int, y: int, c: int): (r: bool)
      requires Valid() && CanGenerate() && OnRoom(x, y) && 0 <= c < 4
      reads cells
      ensures r <==> OnRoom(x + 2 * DX(c), y + 2 * DY(c)) && cells[y + 2 * DY(c), x + 2 * DX(c)] == WALL
    {
      !AtLimit(x, y, c) && cells[y + 2 * DY(c), x + 2 * DX(c)] == WALL
    }

    /** Away from the border lines, the room two steps away is inside the grid,
        so a dead end is exactly a room from which no direction can be carved. */
    lemma DeadEndProgress(x: int, y: int)
      requires Valid() && CanGenerate() && Binary() && OnRoom(x, y)
      ensures IsDeadEnd(x, y) <==> forall c :: 0 <= c < 4 ==> !CanCarve(x, y, c)
    {
      if !IsDeadEnd(x, y) {
        if !(x == 1 || Get(x - 2, y) == PASS) {
          assert CanCarve(x, y, 2);
        } else if !(y == 1 || Get(x, y - 2) == PASS) {
          assert CanCarve(x, y, 0);
        } else if !(x == width - 2 || Get(x + 2, y) == PASS) {
          assert CanCarve(x, y, 3);
        } else {
          assert CanCarve(x, y, 1);
        }
      }
    }

    /** One pass of the switch in `generate`'s inner loop for the random pick `c`:
        carve the one-step and the two-step cell and move there when the move is
        possible; otherwise leave grid and cursor as they are. The ghost set
        `carved` is what the grid mirrors before the probe. */
    method Probe(x: int, y: int, c: int, ghost carved: set<Cell>) returns (x': int, y': int)
      requires Valid() && CanGenerate() && OnRoom(x, y) && 0 <= c < 4 && Mirrors(carved)
      modifies cells
      ensures OnRoom(x', y')
      ensures old(CanCarve(x, y, c)) ==>
        x' == x + 2 * DX(c) && y' == y + 2 * DY(c) &&
        Mirrors(carved + {Cell(y + DY(c), x + DX(c)), Cell(y + 2 * DY(c), x + 2 * DX(c))})
      ensures !old(CanCarve(x, y, c)) ==> x' == x && y' == y && Mirrors(carved)
    {
      x', y' := x, y;
      // The four cases of the switch differ only in the offsets DX(c), DY(c)
      // and in which border line AtLimit tests.
      if CanCarve(x, y, c) {
        MarkPass(x + DX(c), y + DY(c), carved);
        MarkPass(x + 2 * DX(c), y + 2 * DY(c), carved + {Cell(y + DY(c), x + DX(c))});
        x', y' := x + 2 * DX(c), y + 2 * DY(c);
      }
    }

    // ---------------------------------------------------------------------------
    // Walks through PASS cells

    /** `c` is an in-grid PASS cell. */
    ghost predicate Open(c: Cell)
      requires Valid()
      reads cells
    {
      InBounds(c.col, c.row) && cells[c.row, c.col] == PASS
    }

    /** One move of a walk: to a side neighbour that is an in-grid PASS cell. */
    ghost predicate Step(u: Cell, w: Cell)
      requires Valid()
      reads cells
    {
      Adjacent(u, w) && Open(w)
    }

    /** Every cell of `p` after the first is reached from its predecessor by a Step. */
    ghost predicate IsWalk(p: seq<Cell>)
      requires Valid()
      reads cells
    {
      forall k :: 0 <= k < |p| - 1 ==> Step(p[k], p[k + 1])
    }

    /** `p` is a walk that starts at `s` and ends at `e`. */
    ghost predicate WalkBetween(p: seq<Cell>, s: Cell, e: Cell)
      requires Valid()
      reads cells
    {
      IsWalk(p) && |p| > 0 && p[0] == s && p[|p| - 1] == e
    }

    ghost predicate Reachable(s: Cell, e: Cell)
      requires Valid()
      reads cells
    {
      exists p :: WalkBetween(p, s, e)
    }

    // ---------------------------------------------------------------------------
    // Bookkeeping for generation: the set of carved cells and the carving tree

    /** The grid holds PASS exactly on `carved` and WALL everywhere else. */
    ghost predicate Mirrors(carved: set<Cell>)
      requires Valid()
      reads cells
    {
      forall j, i :: 0 <= j < height && 0 <= i < width ==> cells[j, i] == if Cell(j, i) in carved then PASS else WALL
    }

    /** Carved cells lie strictly inside the border and never have two even coordinates. */
    ghost predicate Layout(carved: set<Cell>)
    {
      forall c :: c in carved ==> 1 <= c.row <= height - 2 && 1 <= c.col <= width - 2 && (c.row % 2 == 1 || c.col % 2 == 1)
    }

    lemma LayoutAdd(carved: set<Cell>, c: Cell)
      requires Layout(carved) && 1 <= c.row <= height - 2 && 1 <= c.col <= width - 2 && (c.row % 2 == 1 || c.col % 2 == 1)
      ensures Layout(carved + {c})
    {
    }

    /** Room cells not carved yet: the measure of the inner carving walk. */
    ghost function RoomsLeft(carved: set<Cell>): set<Cell>
    {
      set j, i | 1 <= j <= height - 2 && 1 <= i <= width - 2 && j % 2 == 1 && i % 2 == 1 && Cell(j, i) !in carved :: Cell(j, i)
    }

    /** Every key of `tree` but `root` points to a side neighbour in the tree of smaller depth. */
    ghost predicate CarveTree(tree: map<Cell, Cell>, depth: map<Cell, nat>, root: Cell)
    {
      && root in tree
      && tree.Keys <= depth.Keys
      && (forall c {:trigger Hangs(tree, depth, c)} :: c in tree && c != root ==> Hangs(tree, depth, c))
    }

    /** The parent of `c` is a tree cell next to it, of smaller depth. */
    ghost predicate Hangs(tree: map<Cell, Cell>, depth: map<Cell, nat>, c: Cell)
    {
      c in tree && tree[c] in tree && Adjacent(tree[c], c) &&
      c in depth && tree[c] in depth && depth[tree[c]] < depth[c]
    }

    /** Every carved passage cell (one with an even coordinate) lies between two
        carved rooms: a passage is only opened together with the rooms it joins. */
    ghost predicate Flanked(carved: set<Cell>)
    {
      forall c {:trigger FlankedAt(carved, c)} :: c in carved ==> FlankedAt(carved, c)
    }

    /** The rooms on either side of `c` across its even coordinates are carved. */
    ghost predicate FlankedAt(carved: set<Cell>, c: Cell)
    {
      && (c.row % 2 == 0 ==> Cell(c.row - 1, c.col) in carved && Cell(c.row + 1, c.col) in carved)
      && (c.col % 2 == 0 ==> Cell(c.row, c.col - 1) in carved && Cell(c.row, c.col + 1) in carved)
    }

    /** The carving tree has no side adjacency besides its own edges: carved
        passages lie between carved rooms and every two side-adjacent tree cells
        are parent and child. */
    ghost predicate Loopless(tree: map<Cell, Cell>)
    {
      Flanked(tree.Keys) && TreeEdges(tree)
    }

    /** Any two side-adjacent cells of the tree are parent and child. */
    ghost predicate TreeEdges(tree: map<Cell, Cell>)
    {
      forall u, w :: u in tree && w in tree && Adjacent(u, w) ==> tree[u] == w || tree[w] == u
    }

    /** A carved side neighbour of a room means the room is carved too. */
    lemma FlankedRoom(carved: set<Cell>, r: Cell, w: Cell)
      requires Flanked(carved) && r.row % 2 == 1 && r.col % 2 == 1 && Adjacent(r, w) && w in carved
      ensures r in carved
    {
      assert FlankedAt(carved, w);
      if r.row == w.row {
        assert w.col % 2 == 0;
      } else {
        assert w.row % 2 == 0;
      }
    }

    /** The passage cell between room (x, y) and an uncarved room two steps
        away is uncarved too. */
    lemma PassageNew(carved: set<Cell>, x: int, y: int, c: int)
      requires 0 <= c < 4 && x % 2 == 1 && y % 2 == 1 && Flanked(carved)
      requires Cell(y + 2 * DY(c), x + 2 * DX(c)) !in carved
      ensures Cell(y + DY(c), x + DX(c)) !in carved
    {
      var one, two := Cell(y + DY(c), x + DX(c)), Cell(y + 2 * DY(c), x + 2 * DX(c));
      assert two.row % 2 == 1 && two.col % 2 == 1 && Adjacent(two, one);
      if one in carved {
        FlankedRoom(carved, two, one);
      }
    }

    /** Carving the passage and the room beyond it from room (x, y) keeps every
        carved passage between carved rooms. */
    lemma FlankedGrowth(carved: set<Cell>, x: int, y: int, c: int)
      requires 0 <= c < 4 && x % 2 == 1 && y % 2 == 1 && Cell(y, x) in carved && Flanked(carved)
      ensures Flanked(carved + {Cell(y + DY(c), x + DX(c)), Cell(y + 2 * DY(c), x + 2 * DX(c))})
    {
      var k := carved + {Cell(y + DY(c), x + DX(c)), Cell(y + 2 * DY(c), x + 2 * DX(c))};
      forall d | d in k
        ensures FlankedAt(k, d)
      {
        if d in carved {
          assert FlankedAt(carved, d);
        } else if d == Cell(y + DY(c), x + DX(c)) {
          if c < 2 {
            assert d.col % 2 == 1;
          } else {
            assert d.row % 2 == 1;
          }
        }
      }
    }

    /** The only side neighbours of the passage cell next to room (x, y) that do
        not have two even coordinates are (x, y) and the room beyond. */
    lemma PassageSides(x: int, y: int, c: int, w: Cell)
      requires 0 <= c < 4 && x % 2 == 1 && y % 2 == 1 && (w.row % 2 == 1 || w.col % 2 == 1)
      requires Adjacent(Cell(y + DY(c), x + DX(c)), w)
      ensures w == Cell(y, x) || w == Cell(y + 2 * DY(c), x + 2 * DX(c))
    {
      if c < 2 {
        assert w.col == x;
      } else {
        assert w.row == y;
      }
    }

    /** Carving from room (x, y) to an uncarved room adds only the two new tree
        edges as side adjacencies between tree cells. */
    lemma EdgesGrowth(tree: map<Cell, Cell>, x: int, y: int, c: int)
      requires 0 <= c < 4 && x % 2 == 1 && y % 2 == 1 && Cell(y, x) in tree
      requires Layout(tree.Keys) && Flanked(tree.Keys) && TreeEdges(tree)
      requires Cell(y + 2 * DY(c), x + 2 * DX(c)) !in tree
      ensures TreeEdges(tree[Cell(y + DY(c), x + DX(c)) := Cell(y, x)][Cell(y + 2 * DY(c), x + 2 * DX(c)) := Cell(y + DY(c), x + DX(c))])
    {
      var from, one, two := Cell(y, x), Cell(y + DY(c), x + DX(c)), Cell(y + 2 * DY(c), x + 2 * DX(c));
      PassageNew(tree.Keys, x, y, c);
      forall w | w in tree
        ensures !Adjacent(two, w)
      {
        if Adjacent(two, w) {
          FlankedRoom(tree.Keys, two, w);
        }
      }
      forall w | w in tree && Adjacent(one, w)
        ensures w == from
      {
        PassageSides(x, y, c, w);
      }
      EdgesAdd(tree, from, one, two);
    }

    /** Adding `one` below `from` and `two` below `one` keeps every side
        adjacency of the tree a parent-child edge, when `from` is the only tree
        cell next to `one` and no tree cell is next to `two`. */
    lemma EdgesAdd(tree: map<Cell, Cell>, from: Cell, one: Cell, two: Cell)
      requires TreeEdges(tree) && from in tree && one !in tree && two !in tree && one != two
      requires forall w :: w in tree ==> !Adjacent(two, w)
      requires forall w :: w in tree && Adjacent(one, w) ==> w == from
      ensures TreeEdges(tree[one := from][two := one])
    {
    }

    lemma MirrorsShape(carved: set<Cell>)
      requires Valid() && Mirrors(carved) && Layout(carved)
      ensures Binary() && WallsKept()
      ensures forall c :: Open(c) <==> c in carved
    {
    }

    /** Following the carving tree back from any of its cells reaches the root,
        so each of them is reachable from the root through PASS cells. */
    lemma {:induction false} TreeReaches(tree: map<Cell, Cell>, depth: map<Cell, nat>, root: Cell, c: Cell)
      requires Valid() && CarveTree(tree, depth, root) && c in tree
      requires forall d :: d in tree ==> Open(d)
      ensures Reachable(root, c)
      decreases depth[c]
    {
      if c == root {
        assert WalkBetween([root], root, root);
      } else {
        assert Hangs(tree, depth, c);
        var b := tree[c];
        TreeReaches(tree, depth, root, b);
        var p :| WalkBetween(p, root, b);
        var p' := p + [c];
        forall k | 0 <= k < |p'| - 1
          ensures Step(p'[k], p'[k + 1])
        {
          if k < |p| - 1 {
            assert p'[k] == p[k] && p'[k + 1] == p[k + 1];
          }
        }
        assert WalkBetween(p', root, c);
      }
    }

    /** Every 2x2 block of cells contains a cell with two even coordinates, so a
        grid that keeps those walls has no open 2x2 square. */
    lemma NoOpenSquare(j: int, i: int)
      requires Valid() && WallsKept()
      requires 0 <= j < height - 1 && 0 <= i < width - 1
      ensures cells[j, i] == WALL || cells[j + 1, i] == WALL || cells[j, i + 1] == WALL || cells[j + 1, i + 1] == WALL
    {
      var j' := if j % 2 == 0 then j else j + 1;
      var i' := if i % 2 == 0 then i else i + 1;
      assert cells[j', i'] == WALL;
    }

    /** What the bookkeeping of `generate` gives once it stops: the grid is binary,
        keeps its border and even-even walls, every PASS cell except the forced
        `goal` is reachable from the root through PASS cells, and every two
        side-adjacent PASS cells are parent and child in the carving tree, so the
        passages contain no loop. A forced goal room outside the tree has no PASS
        neighbour. */
    lemma GeneratedShape(tree: map<Cell, Cell>, depth: map<Cell, nat>, root: Cell, goal: Cell)
      requires Valid() && CarveTree(tree, depth, root) && Loopless(tree)
      requires Mirrors(tree.Keys + {goal}) && Layout(tree.Keys + {goal}) && goal.row % 2 == 1 && goal.col % 2 == 1
      ensures Binary() && WallsKept() && Open(root)
      ensures forall c :: Open(c) && c != goal ==> Reachable(root, c)
      ensures forall u, w :: Open(u) && Open(w) && Adjacent(u, w) ==> u in tree && w in tree && (tree[u] == w || tree[w] == u)
    {
      MirrorsShape(tree.Keys + {goal});
      OpenEdges(tree, goal);
      forall c | Open(c) && c != goal
        ensures Reachable(root, c)
      {
        TreeReaches(tree, depth, root, c);
      }
    }

    /** A room outside a loop-free tree has no side neighbour in it. */
    lemma GoalApart(tree: map<Cell, Cell>, goal: Cell)
      requires Loopless(tree) && goal.row % 2 == 1 && goal.col % 2 == 1
      ensures goal in tree || forall w :: w in tree ==> !Adjacent(goal, w)
    {
      if exists w :: w in tree && Adjacent(goal, w) {
        var w :| w in tree && Adjacent(goal, w);
        FlankedRoom(tree.Keys, goal, w);
      }
    }

    /** When the PASS cells are the tree's cells and one extra room `goal`, every
        two side-adjacent PASS cells are parent and child in the tree. */
    lemma OpenEdges(tree: map<Cell, Cell>, goal: Cell)
      requires Valid() && Loopless(tree) && goal.row % 2 == 1 && goal.col % 2 == 1
      requires forall c :: Open(c) <==> c in tree || c == goal
      ensures forall u, w :: Open(u) && Open(w) && Adjacent(u, w) ==> u in tree && w in tree && (tree[u] == w || tree[w] == u)
    {
      GoalApart(tree, goal);
    }

    // ---------------------------------------------------------------------------
    // Generation

    /** The reset at the start of `generate`: every cell becomes WALL. */
    method ResetToWalls()
      requires Valid()
      modifies cells
      ensures Mirrors({})
    {
      for i := 0 to height
        invariant forall j, k :: 0 <= j < i && 0 <= k < width ==> cells[j, k] == WALL
      {
        for j := 0 to width
          invariant forall k :: 0 <= k < j ==> cells[i, k] == WALL
          invariant forall j', k :: 0 <= j' < i && 0 <= k < width ==> cells[j', k] == WALL
        {
          cells[i, j] := WALL;
        }
      }
    }

    /** The write `maze[y][x] = PASS` of `generate`, at an in-grid cell, with the
        carved set that mirrors the grid extended by that cell. */
    method MarkPass(x: int, y: int, ghost carved: set<Cell>)
      requires Valid() && InBounds(x, y) && Mirrors(carved)
      modifies cells
      ensures Mirrors(carved + {Cell(y, x)})
    {
      cells[y, x] := PASS;
    }

    /** A room that is not a dead end has a direction that can be carved. */
    lemma CarveChoice(x: int, y: int, carved: set<Cell>)
      requires Valid() && CanGenerate() && OnRoom(x, y) && Mirrors(carved) && Layout(carved)
      requires !IsDeadEnd(x, y)
      ensures exists c :: 0 <= c < 4 && CanCarve(x, y, c)
    {
      MirrorsShape(carved);
      DeadEndProgress(x, y);
    }

    /** The room a carvable direction leads to is a room not carved yet. */
    lemma CarveTarget(x: int, y: int, c: int, carved: set<Cell>)
      requires Valid() && CanGenerate() && OnRoom(x, y) && 0 <= c < 4 && Mirrors(carved)
      requires CanCarve(x, y, c)
      ensures OnRoom(x + 2 * DX(c), y + 2 * DY(c)) && Cell(y + 2 * DY(c), x + 2 * DX(c)) !in carved
    {
    }

    /** Carving a room that was left makes the set of rooms left strictly smaller. */
    lemma RoomsShrink(carved: set<Cell>, x: int, y: int, c: int)
      requires 0 <= c < 4 && OnRoom(x + 2 * DX(c), y + 2 * DY(c)) && Cell(y + 2 * DY(c), x + 2 * DX(c)) !in carved
      ensures RoomsLeft(carved + {Cell(y + DY(c), x + DX(c)), Cell(y + 2 * DY(c), x + 2 * DX(c))}) < RoomsLeft(carved)
    {
      assert Cell(y + 2 * DY(c), x + 2 * DX(c)) in RoomsLeft(carved);
    }

    /** One successful probe of `generate`'s inner loop from a room that is not a
        dead end: a direction that can be carved is picked (standing in for the
        random pick; the picks that fail change nothing, see Probe), and the tree
        grows by the two cells carved. */
    method CarveStep(x: int, y: int, ghost tree: map<Cell, Cell>, ghost depth: map<Cell, nat>, ghost root: Cell)
      returns (x': int, y': int, ghost tree': map<Cell, Cell>, ghost depth': map<Cell, nat>)
      requires Valid() && CanGenerate() && OnRoom(x, y) && Cell(y, x) in tree && !IsDeadEnd(x, y)
      requires Mirrors(tree.Keys) && Layout(tree.Keys) && CarveTree(tree, depth, root) && Loopless(tree)
      modifies cells
      ensures OnRoom(x', y') && Cell(y', x') in tree'
      ensures Mirrors(tree'.Keys) && Layout(tree'.Keys) && CarveTree(tree', depth', root) && Loopless(tree')
      ensures tree.Keys <= tree'.Keys && RoomsLeft(tree'.Keys) < RoomsLeft(tree.Keys)
    {
      CarveChoice(x, y, tree.Keys);
      var c :| 0 <= c < 4 && CanCarve(x, y, c);
      CarveTarget(x, y, c, tree.Keys);
      x', y' := Probe(x, y, c, tree.Keys);
      assert Cell(y', x') == Cell(y + 2 * DY(c), x + 2 * DX(c));
      tree', depth' := TreeGrowth(tree, depth, root, x, y, c);
      RoomsShrink(tree.Keys, x, y, c);
    }

    /** The ghost update of one successful probe in direction `c` from room
        (x, y): the one-step cell hangs below (x, y) and the two-step room below
        the one-step cell. Because the room two steps away is not carved yet,
        neither is the cell between, so the tree gains exactly these two edges
        and no other side adjacency. */
    lemma TreeGrowth(tree: map<Cell, Cell>, depth: map<Cell, nat>, root: Cell, x: int, y: int, c: int)
      returns (tree': map<Cell, Cell>, depth': map<Cell, nat>)
      requires 0 <= c < 4 && CarveTree(tree, depth, root) && Cell(y, x) in tree && Layout(tree.Keys) && Loopless(tree)
      requires OnRoom(x, y) && OnRoom(x + 2 * DX(c), y + 2 * DY(c))
      requires Cell(y + 2 * DY(c), x + 2 * DX(c)) !in tree.Keys
      ensures tree'.Keys == tree.Keys + {Cell(y + DY(c), x + DX(c)), Cell(y + 2 * DY(c), x + 2 * DX(c))}
      ensures Cell(y + 2 * DY(c), x + 2 * DX(c)) in tree'
      ensures CarveTree(tree', depth', root) && Layout(tree'.Keys) && Loopless(tree')
      ensures tree' == tree[Cell(y + DY(c), x + DX(c)) := Cell(y, x)][Cell(y + 2 * DY(c), x + 2 * DX(c)) := Cell(y + DY(c), x + DX(c))]
    {
      var from: Cell := Cell(y, x);
      var one: Cell := Cell(y + DY(c), x + DX(c));
      var two: Cell := Cell(y + 2 * DY(c), x + 2 * DX(c));
      PassageNew(tree.Keys, x, y, c);
      FlankedGrowth(tree.Keys, x, y, c);
      EdgesGrowth(tree, x, y, c);
      tree', depth' := tree[one := from][two := one], depth[one := depth[from] + 1][two := depth[from] + 2];
      forall d | d in tree' && d != root
        ensures Hangs(tree', depth', d)
      {
        if d != one && d != two {
          assert Hangs(tree, depth, d);
        }
      }
    }

    /** `generate`'s inner loop: carve from (x, y) in randomly chosen directions
        until the cursor is on a dead end. The ghost tree records, for every cell
        carved, the cell it was carved from; its keys are the carved cells. */
    method CarveWalk(x: int, y: int, ghost tree: map<Cell, Cell>, ghost depth: map<Cell, nat>, ghost root: Cell)
      returns (x': int, y': int, ghost tree': map<Cell, Cell>, ghost depth': map<Cell, nat>)
      requires Valid() && CanGenerate() && OnRoom(x, y) && Cell(y, x) in tree
      requires Mirrors(tree.Keys) && Layout(tree.Keys) && CarveTree(tree, depth, root) && Loopless(tree)
      modifies cells
      ensures OnRoom(x', y') && Cell(y', x') in tree' && IsDeadEnd(x', y')
      ensures Mirrors(tree'.Keys) && Layout(tree'.Keys) && CarveTree(tree', depth', root) && Loopless(tree')
      ensures tree.Keys <= tree'.Keys
    {
      x', y', tree', depth' := x, y, tree, depth;
      while !IsDeadEnd(x', y')
        invariant OnRoom(x', y') && Cell(y', x') in tree'
        invariant Mirrors(tree'.Keys) && Layout(tree'.Keys) && CarveTree(tree', depth', root) && Loopless(tree')
        invariant tree.Keys <= tree'.Keys
        decreases RoomsLeft(tree'.Keys)
      {
        x', y', tree', depth' := CarveStep(x', y', tree', depth', root);
      }
    }

    /** One pass of `generate`'s outer loop: mark the cursor's room PASS, carve
        from it until a dead end, then teleport to a random carved room. On the
        first pass (`first`) nothing is carved yet and the cursor is at `root`. */
    method CarvePass(x: int, y: int, first: bool, ghost tree: map<Cell, Cell>, ghost depth: map<Cell, nat>, ghost root: Cell)
      returns (x': int, y': int, ghost tree': map<Cell, Cell>, ghost depth': map<Cell, nat>)
      requires Valid() && CanGenerate() && root == Cell(3, 3) && OnRoom(x, y)
      requires Mirrors(tree.Keys) && Layout(tree.Keys)
      requires first ==> x == 3 && y == 3 && tree == map[]
      requires !first ==> CarveTree(tree, depth, root) && Cell(y, x) in tree && Loopless(tree)
      modifies cells
      ensures OnRoom(x', y') && Mirrors(tree'.Keys) && Layout(tree'.Keys)
      ensures CarveTree(tree', depth', root) && Cell(y', x') in tree' && Loopless(tree')
      ensures tree.Keys + {Cell(y, x)} <= tree'.Keys
    {
      MarkPass(x, y, tree.Keys);
      tree', depth' := tree, depth;
      if first {
        tree', depth' := map[root := root], map[root := 0];
      }
      assert tree.Keys + {Cell(y, x)} == tree'.Keys;
      x', y', tree', depth' := CarveWalk(x, y, tree', depth', root);
      if IsDeadEnd(x', y') {
        assert OnRoom(3, 3) && cells[3, 3] == PASS;
        x', y' :| 1 <= x' <= width - 2 && 1 <= y' <= height - 2 && x' % 2 == 1 && y' % 2 == 1 && cells[y', x'] == PASS;
        assert Cell(y', x') in tree';
      }
    }

    /** The write `maze[height-2][width-2] = PASS` that ends `generate`, with what
        it leaves behind once the carving tree covers every other PASS cell. */
    method MarkGoal(ghost tree: map<Cell, Cell>, ghost depth: map<Cell, nat>, ghost root: Cell)
      requires Valid() && CanGenerate() && CarveTree(tree, depth, root) && Loopless(tree)
      requires Mirrors(tree.Keys) && Layout(tree.Keys)
      modifies cells
      ensures Binary() && WallsKept() && Open(root) && cells[height - 2, width - 2] == PASS
      ensures Mirrors(tree.Keys + {Cell(height - 2, width - 2)})
      ensures forall c :: Open(c) && c != Cell(height - 2, width - 2) ==> Reachable(root, c)
      ensures forall u, w :: Open(u) && Open(w) && Adjacent(u, w) ==> u in tree && w in tree && (tree[u] == w || tree[w] == u)
    {
      ghost var goal: Cell := Cell(height - 2, width - 2);
      assert goal.row % 2 == 1 && goal.col % 2 == 1;
      MarkPass(width - 2, height - 2, tree.Keys);
      LayoutAdd(tree.Keys, goal);
      GeneratedShape(tree, depth, root, goal);
    }

    /** Builds a maze by randomized depth-first carving on the odd room lattice.
        The random direction of each probe is chosen among the directions that
        can be carved (a blocked probe changes nothing, see Probe), and the
        teleport target among the carved rooms. */
    method Generate() returns (ghost tree: map<Cell, Cell>, ghost depth: map<Cell, nat>)
      requires Valid() && CanGenerate()
      modifies cells
      ensures Binary() && WallsKept()
      ensures cells[3, 3] == PASS && cells[height - 2, width - 2] == PASS
      ensures forall c :: Open(c) && c != Cell(height - 2, width - 2) ==> Reachable(Cell(3, 3), c)
      ensures CarveTree(tree, depth, Cell(3, 3)) && Mirrors(tree.Keys + {Cell(height - 2, width - 2)})
      ensures forall u, w :: Open(u) && Open(w) && Adjacent(u, w) ==> u in tree && w in tree && (tree[u] == w || tree[w] == u)
    {
      ResetToWalls();
      var x, y, a := 3, 3, 0;
      ghost var root: Cell := Cell(3, 3);
      tree, depth := map[], map[];
      while a < BUDGET
        invariant 0 <= a <= BUDGET && OnRoom(x, y)
        invariant Mirrors(tree.Keys) && Layout(tree.Keys)
        invariant a == 0 ==> x == 3 && y == 3 && tree == map[]
        invariant a > 0 ==> CarveTree(tree, depth, root) && Cell(y, x) in tree && Loopless(tree)
      {
        x, y, tree, depth := CarvePass(x, y, a == 0, tree, depth, root);
        a := a + 1;
      }
      MarkGoal(tree, depth, root);
    }

    // ---------------------------------------------------------------------------
    // Shortest path: breadth-first search with a parent map

    /** Every in-grid cell. */
    ghost function GridCells(): set<Cell>
    {
      set j, i | 0 <= j < height && 0 <= i < width :: Cell(j, i)
    }

    /** The parent map of the search rooted at `start`, with the ghost distance of
        every discovered cell: the start has the sentinel as parent and distance 0,
        every other discovered cell is one Step from its parent and one farther. */
    ghost predicate SearchTree(parent: map<Cell, Cell>, dist: map<Cell, nat>, start: Cell)
      requires Valid()
      reads cells
    {
      && parent.Keys == dist.Keys
      && start in parent && parent[start] == SENTINEL && dist[start] == 0
      && (forall v :: v in parent && v != start ==>
            parent[v] in parent && Step(parent[v], v) && dist[v] == dist[parent[v]] + 1)
      && (start == SENTINEL ==> parent.Keys == {start})
    }

    /** Every cell one Step from `u` is discovered, at most one farther than `u`. */
    ghost predicate Expanded(u: Cell, dist: map<Cell, nat>)
      requires Valid() && u in dist
      reads cells
    {
      forall w :: Step(u, w) ==> w in dist && dist[w] <= dist[u] + 1
    }

    lemma ExpandedGrows(u: Cell, dist: map<Cell, nat>, dist': map<Cell, nat>)
      requires Valid() && u in dist && Expanded(u, dist)
      requires forall v :: v in dist ==> v in dist' && dist'[v] == dist[v]
      ensures u in dist' && Expanded(u, dist')
    {
    }

    /** The cells the `for` loop of `findShortestPath` adds, in order, when it
        expands `u` through its first `i` directions, given the cells `known`
        to the parent map before: each neighbour that is an in-grid PASS cell not
        already known. The four neighbours are distinct, so additions made by
        earlier directions never hide a later one. */
    ghost function Discovered(u: Cell, known: set<Cell>, i: int): (r: seq<Cell>)
      requires Valid() && 0 <= i <= 4
      reads cells
      ensures forall k :: 0 <= k < |r| ==> Step(u, r[k]) && r[k] !in known
    {
      if i == 0 then []
      else
        var w := Neighbour(u, i - 1);
        Discovered(u, known, i - 1) + (if Step(u, w) && w !in known then [w] else [])
    }

    /** The cells discovered through the first `i` directions are neighbours in
        those directions, so the neighbour in direction `i` is not among them. */
    lemma {:induction false} DiscoveredBefore(u: Cell, known: set<Cell>, i: int, j: int)
      requires Valid() && 0 <= i <= j < 4
      ensures Neighbour(u, j) !in Discovered(u, known, i)
    {
      if i > 0 {
        DiscoveredBefore(u, known, i - 1, j);
      }
    }

    /** No cell is discovered twice. */
    lemma {:induction false} DiscoveredDistinct(u: Cell, known: set<Cell>, i: int)
      requires Valid() && 0 <= i <= 4
      ensures var r := Discovered(u, known, i); forall a, b :: 0 <= a < b < |r| ==> r[a] != r[b]
    {
      if i > 0 {
        DiscoveredDistinct(u, known, i - 1);
        DiscoveredBefore(u, known, i - 1, i - 1);
      }
    }

    /** Every neighbour in the first `i` directions that is one Step away and not
        known before is discovered. */
    lemma {:induction false} DiscoveredAll(u: Cell, known: set<Cell>, i: int, w: Cell)
      requires Valid() && 0 <= i <= 4 && Step(u, w) && w !in known
      requires exists k :: 0 <= k < i && w == Neighbour(u, k)
      ensures w in Discovered(u, known, i)
    {
      if w != Neighbour(u, i - 1) {
        DiscoveredAll(u, known, i - 1, w);
      }
    }

    /** Discovering `w` from `u` keeps the search tree a search tree. */
    lemma SearchTreeAdd(parent: map<Cell, Cell>, dist: map<Cell, nat>, start: Cell, u: Cell, w: Cell)
      requires Valid() && SearchTree(parent, dist, start) && u in parent && Step(u, w) && w !in parent
      ensures SearchTree(parent[w := u], dist[w := dist[u] + 1], start)
    {
    }

    /** Discovering an in-grid cell leaves one cell fewer undiscovered. */
    lemma UndiscoveredShrinks(parent: map<Cell, Cell>, w: Cell, u: Cell)
      requires w in GridCells() && w !in parent
      ensures |GridCells() - parent[w := u].Keys| == |GridCells() - parent.Keys| - 1
    {
      assert GridCells() - parent[w := u].Keys == (GridCells() - parent.Keys) - {w};
    }

    /** The effect of one pass of the `for` loop of `findShortestPath` for the
        dequeued cell `u` and direction `i`, from the state (parent, q, dist) to
        (parent', q', dist'): the neighbour gets `u` as parent, distance one more
        and a place at the back of the queue exactly when it is an in-grid PASS
        cell not yet in `parent`; otherwise nothing changes. */
    ghost predicate Visited(u: Cell, i: int, parent: map<Cell, Cell>, q: seq<Cell>, dist: map<Cell, nat>,
                            parent': map<Cell, Cell>, q': seq<Cell>, dist': map<Cell, nat>)
      requires Valid() && 0 <= i < 4 && u in dist
      reads cells
    {
      var w := Neighbour(u, i);
      if Step(u, w) && w !in parent
      then parent' == parent[w := u] && q' == q + [w] && dist' == dist[w := dist[u] + 1]
      else parent' == parent && q' == q && dist' == dist
    }

    /** The state after the first `i` passes of the `for` loop for `u`, started
        from (parent, q, dist): the cells Discovered so far are queued at the back,
        have `u` as parent and distance one more than `u`; nothing else changes. */
    ghost predicate Grown(u: Cell, i: int, parent: map<Cell, Cell>, q: seq<Cell>, dist: map<Cell, nat>,
                          parent': map<Cell, Cell>, q': seq<Cell>, dist': map<Cell, nat>)
      requires Valid() && 0 <= i <= 4 && u in dist && parent.Keys == dist.Keys
      reads cells
    {
      && q' == q + Discovered(u, parent.Keys, i)
      && (forall v :: v in parent' <==> v in parent || v in Discovered(u, parent.Keys, i))
      && (forall v :: v in parent ==> parent'[v] == parent[v] && v in dist' && dist'[v] == dist[v])
      && (forall v :: v in parent' && v !in parent ==> parent'[v] == u && v in dist' && dist'[v] == dist[u] + 1)
    }

    /** One more pass of the `for` loop extends what the passes before it did. */
    lemma GrownVisited(u: Cell, i: int, parent: map<Cell, Cell>, q: seq<Cell>, dist: map<Cell, nat>,
                       p1: map<Cell, Cell>, q1: seq<Cell>, d1: map<Cell, nat>,
                       p2: map<Cell, Cell>, q2: seq<Cell>, d2: map<Cell, nat>)
      requires Valid() && 0 <= i < 4 && u in parent && parent.Keys == dist.Keys && p1.Keys == d1.Keys
      requires Grown(u, i, parent, q, dist, p1, q1, d1) && Visited(u, i, p1, q1, d1, p2, q2, d2)
      ensures Grown(u, i + 1, parent, q, dist, p2, q2, d2)
    {
      var w := Neighbour(u, i);
      DiscoveredBefore(u, parent.Keys, i, i);
      if Step(u, w) && w !in parent {
        GrownAdded(u, i, parent, q, dist, p1, q1, d1);
      } else {
        assert Discovered(u, parent.Keys, i + 1) == Discovered(u, parent.Keys, i);
      }
    }

    /** The case of GrownVisited where the pass discovers its neighbour. */
    lemma GrownAdded(u: Cell, i: int, parent: map<Cell, Cell>, q: seq<Cell>, dist: map<Cell, nat>,
                     p1: map<Cell, Cell>, q1: seq<Cell>, d1: map<Cell, nat>)
      requires Valid() && 0 <= i < 4 && u in parent && parent.Keys == dist.Keys && p1.Keys == d1.Keys
      requires Grown(u, i, parent, q, dist, p1, q1, d1)
      requires Step(u, Neighbour(u, i)) && Neighbour(u, i) !in parent
      requires Neighbour(u, i) !in Discovered(u, parent.Keys, i)
      ensures var w := Neighbour(u, i);
        Grown(u, i + 1, parent, q, dist, p1[w := u], q1 + [w], d1[w := d1[u] + 1])
    {
      var w := Neighbour(u, i);
      var before := Discovered(u, parent.Keys, i);
      assert Discovered(u, parent.Keys, i + 1) == before + [w];
      assert q1 + [w] == q + before + [w] == q + (before + [w]);
    }

    /** The parent map after the `for` loop expands `u`: every cell Discovered
        from `u` gets `u` as parent, and every known cell keeps its parent. */
    ghost function NextParent(u: Cell, parent: map<Cell, Cell>): map<Cell, Cell>
      requires Valid()
      reads cells
    {
      var found := set w | w in Discovered(u, parent.Keys, 4);
      map v | v in parent.Keys + found :: if v in parent then parent[v] else u
    }

    /** The distances after the `for` loop expands `u`: one more than `u`'s for
        every cell Discovered from it. */
    ghost function NextDist(u: Cell, parent: map<Cell, Cell>, dist: map<Cell, nat>): map<Cell, nat>
      requires Valid() && u in dist
      reads cells
    {
      var found := set w | w in Discovered(u, parent.Keys, 4);
      map v | v in dist.Keys + found :: if v in dist then dist[v] else dist[u] + 1
    }

    /** The cells the reconstruction loop of `findShortestPath` collects from
        `v`: `v` itself and then the cells along its parents, up to the sentinel.
        Distances shrink along the parents of a search tree, which bounds the
        walk; on a map that is not one it stops at the first parent that does not
        lie closer. */
    ghost function Trace(parent: map<Cell, Cell>, dist: map<Cell, nat>, v: Cell): seq<Cell>
      decreases if v != SENTINEL && v in dist then dist[v] + 1 else 0
    {
      if v == SENTINEL || v !in parent then []
      else if v !in dist || (parent[v] != SENTINEL && (parent[v] !in dist || dist[v] <= dist[parent[v]])) then [v]
      else [v] + Trace(parent, dist, parent[v])
    }

    /** A reference for `findShortestPath` as a function on values: dequeue the
        front cell; when it is `end`, return the reversed Trace back from it;
        otherwise expand it, queueing its Discovered cells in the order up, down,
        left, right, and go on. Each expansion leaves fewer cells undiscovered or
        queued (see Expand); a step that would not is never taken by the search,
        and the reference stops there. */
    ghost function Bfs(parent: map<Cell, Cell>, dist: map<Cell, nat>, q: seq<Cell>, end: Cell): seq<Cell>
      requires Valid()
      reads cells
      decreases |GridCells() - parent.Keys| + |q|
    {
      if q == [] || q[0] !in dist then []
      else if q[0] == end then Reverse(Trace(parent, dist, end))
      else
        var parent', q' := NextParent(q[0], parent), q[1..] + Discovered(q[0], parent.Keys, 4);
        if |GridCells() - parent'.Keys| + |q'| < |GridCells() - parent.Keys| + |q|
        then Bfs(parent', NextDist(q[0], parent, dist), q', end)
        else []
    }

    /** What Expand leaves behind is what NextParent and NextDist compute. */
    lemma ExpandMatches(u: Cell, parent: map<Cell, Cell>, q: seq<Cell>, dist: map<Cell, nat>,
                        parent': map<Cell, Cell>, q': seq<Cell>, dist': map<Cell, nat>)
      requires Valid() && u in dist && parent.Keys == dist.Keys && parent'.Keys == dist'.Keys
      requires Grown(u, 4, parent, q, dist, parent', q', dist')
      ensures parent' == NextParent(u, parent) && dist' == NextDist(u, parent, dist)
    {
      var np, nd := NextParent(u, parent), NextDist(u, parent, dist);
      assert parent'.Keys == np.Keys;
      assert dist'.Keys == nd.Keys;
    }

    /** Dequeuing and expanding a cell other than `end` is one step of Bfs. */
    lemma BfsNext(parent: map<Cell, Cell>, dist: map<Cell, nat>, q: seq<Cell>, end: Cell,
                  parent': map<Cell, Cell>, q': seq<Cell>, dist': map<Cell, nat>)
      requires Valid() && q != [] && q[0] in dist && q[0] != end
      requires parent.Keys == dist.Keys && parent'.Keys == dist'.Keys
      requires Grown(q[0], 4, parent, q[1..], dist, parent', q', dist')
      requires |GridCells() - parent'.Keys| + |q'| < |GridCells() - parent.Keys| + |q|
      ensures Bfs(parent', dist', q', end) == Bfs(parent, dist, q, end)
    {
      ExpandMatches(q[0], parent, q[1..], dist, parent', q', dist');
    }

    /** One pass of the `for` loop of `findShortestPath` for the dequeued cell
        (y, x) and direction `i`. */
    method Visit(x: int, y: int, i: int, parent: map<Cell, Cell>, q: seq<Cell>,
                 ghost dist: map<Cell, nat>, ghost start: Cell)
      returns (parent': map<Cell, Cell>, q': seq<Cell>, ghost dist': map<Cell, nat>)
      requires Valid() && 0 <= i < 4 && SearchTree(parent, dist, start) && Cell(y, x) in parent
      ensures SearchTree(parent', dist', start)
      ensures Visited(Cell(y, x), i, parent, q, dist, parent', q', dist')
      ensures |GridCells() - parent'.Keys| + |q'| == |GridCells() - parent.Keys| + |q|
    {
      parent', q', dist' := parent, q, dist;
      var nx := x + DX(i);
      var ny := y + DY(i);
      assert Neighbour(Cell(y, x), i) == Cell(ny, nx);
      assert Adjacent(Cell(y, x), Cell(ny, nx));
      if nx >= 0 && ny >= 0 && nx < width && ny < height && cells[ny, nx] == PASS && Cell(ny, nx) !in parent {
        SearchTreeAdd(parent, dist, start, Cell(y, x), Cell(ny, nx));
        UndiscoveredShrinks(parent, Cell(ny, nx), Cell(y, x));
        parent' := parent[Cell(ny, nx) := Cell(y, x)];
        q' := q + [Cell(ny, nx)];
        dist' := dist[Cell(ny, nx) := dist[Cell(y, x)] + 1];
      }
    }

    /** The `for` loop of `findShortestPath` for the dequeued cell (y, x): the
        queue grows by the cells Discovered through all four directions, each
        of which gets (y, x) as parent, and afterwards every cell one Step from
        (y, x) is in the parent map. */
    method Expand(x: int, y: int, parent: map<Cell, Cell>, q: seq<Cell>,
                  ghost dist: map<Cell, nat>, ghost start: Cell)
      returns (parent': map<Cell, Cell>, q': seq<Cell>, ghost dist': map<Cell, nat>)
      requires Valid() && SearchTree(parent, dist, start) && Cell(y, x) in parent
      ensures SearchTree(parent', dist', start)
      ensures Grown(Cell(y, x), 4, parent, q, dist, parent', q', dist')
      ensures forall w :: Step(Cell(y, x), w) ==> w in parent'
      ensures |GridCells() - parent'.Keys| + |q'| == |GridCells() - parent.Keys| + |q|
    {
      parent', q', dist' := parent, q, dist;
      for i := 0 to 4
        invariant SearchTree(parent', dist', start)
        invariant Grown(Cell(y, x), i, parent, q, dist, parent', q', dist')
        invariant |GridCells() - parent'.Keys| + |q'| == |GridCells() - parent.Keys| + |q|
      {
        ghost var p1, q1, d1 := parent', q', dist';
        parent', q', dist' := Visit(x, y, i, parent', q', dist', start);
        GrownVisited(Cell(y, x), i, parent, q, dist, p1, q1, d1, parent', q', dist');
      }
      forall w | Step(Cell(y, x), w)
        ensures w in parent'
      {
        AdjacentIsNeighbour(Cell(y, x), w);
        if w !in parent {
          DiscoveredAll(Cell(y, x), parent.Keys, 4, w);
        }
      }
    }

    /** Every queued cell is discovered and not yet expanded. */
    ghost predicate Queued(parent: map<Cell, Cell>, q: seq<Cell>, done: set<Cell>)
    {
      forall k :: 0 <= k < |q| ==> q[k] in parent && q[k] !in done
    }

    /** The queue holds distinct cells in non-decreasing distance, and no
        discovered cell lies more than one beyond its front. */
    ghost predicate Ordered(dist: map<Cell, nat>, q: seq<Cell>)
      requires forall k :: 0 <= k < |q| ==> q[k] in dist
    {
      && (forall a, b :: 0 <= a < b < |q| ==> q[a] != q[b] && dist[q[a]] <= dist[q[b]])
      && (|q| > 0 ==> forall v :: v in dist ==> dist[v] <= dist[q[0]] + 1)
    }

    /** Every discovered cell is expanded or queued. */
    ghost predicate Covered(parent: map<Cell, Cell>, q: seq<Cell>, done: set<Cell>)
    {
      forall v :: v in parent ==> v in done || v in q
    }

    /** Every expanded cell is Expanded. */
    ghost predicate AllExpanded(dist: map<Cell, nat>, done: set<Cell>)
      requires Valid() && done <= dist.Keys
      reads cells
    {
      forall u :: u in done ==> Expanded(u, dist)
    }

    /** What holds at the head of the `while` loop of `findShortestPath`: the
        parent map is a search tree from `start`, the queue is Queued and
        Ordered, the discovered cells are Covered, the expanded ones are all
        Expanded, and the target `end` has not been dequeued. */
    ghost predicate Frontier(parent: map<Cell, Cell>, dist: map<Cell, nat>, start: Cell,
                             q: seq<Cell>, done: set<Cell>, end: Cell)
      requires Valid()
      reads cells
    {
      && SearchTree(parent, dist, start)
      && Queued(parent, q, done)
      && Ordered(dist, q)
      && Covered(parent, q, done)
      && done <= parent.Keys
      && AllExpanded(dist, done)
      && end !in done
    }

    /** The facts of FrontierStep about the discovered cells `found`. */
    ghost predicate Discovers(parent: map<Cell, Cell>, dist: map<Cell, nat>, u: Cell,
                              parent': map<Cell, Cell>, dist': map<Cell, nat>, found: seq<Cell>)
      requires u in dist && parent.Keys == dist.Keys
    {
      && (forall k :: 0 <= k < |found| ==> found[k] !in parent)
      && (forall a, b :: 0 <= a < b < |found| ==> found[a] != found[b])
      && (forall v :: v in parent' <==> v in parent || v in found)
      && (forall v :: v in parent ==> v in dist' && dist'[v] == dist[v])
      && (forall v :: v in parent' && v !in parent ==> v in dist' && dist'[v] == dist[u] + 1)
    }

    lemma QueuedStep(parent: map<Cell, Cell>, dist: map<Cell, nat>, q: seq<Cell>, done: set<Cell>,
                     parent': map<Cell, Cell>, dist': map<Cell, nat>, found: seq<Cell>)
      requires q != [] && parent.Keys == dist.Keys && Queued(parent, q, done) && done <= parent.Keys
      requires Ordered(dist, q) && Discovers(parent, dist, q[0], parent', dist', found)
      ensures Queued(parent', q[1..] + found, done + {q[0]})
    {
      var q' := q[1..] + found;
      forall k | 0 <= k < |q'|
        ensures q'[k] in parent' && q'[k] !in done + {q[0]}
      {
        if k < |q| - 1 {
          assert q'[k] == q[k + 1];
        } else {
          assert q'[k] == found[k - (|q| - 1)];
        }
      }
    }

    lemma OrderedStep(parent: map<Cell, Cell>, dist: map<Cell, nat>, q: seq<Cell>, done: set<Cell>,
                      parent': map<Cell, Cell>, dist': map<Cell, nat>, found: seq<Cell>)
      requires q != [] && parent.Keys == dist.Keys && parent'.Keys == dist'.Keys && Queued(parent, q, done)
      requires Ordered(dist, q) && Discovers(parent, dist, q[0], parent', dist', found)
      ensures forall k :: 0 <= k < |q[1..] + found| ==> (q[1..] + found)[k] in dist'
      ensures Ordered(dist', q[1..] + found)
    {
      var q' := q[1..] + found;
      var n := |q| - 1;
      forall k | 0 <= k < |q'|
        ensures q'[k] in dist' && dist[q[0]] <= dist'[q'[k]] <= dist[q[0]] + 1
        ensures k < n ==> q'[k] == q[k + 1] && q'[k] in parent
        ensures k >= n ==> q'[k] == found[k - n] && q'[k] !in parent
      {
        if k < n {
          assert q'[k] == q[k + 1];
        } else {
          assert q'[k] == found[k - n];
        }
      }
    }

    lemma CoveredStep(parent: map<Cell, Cell>, dist: map<Cell, nat>, q: seq<Cell>, done: set<Cell>,
                      parent': map<Cell, Cell>, dist': map<Cell, nat>, found: seq<Cell>)
      requires q != [] && q[0] in dist && parent.Keys == dist.Keys && Covered(parent, q, done)
      requires Discovers(parent, dist, q[0], parent', dist', found)
      ensures Covered(parent', q[1..] + found, done + {q[0]})
    {
      var q' := q[1..] + found;
      forall v | v in parent'
        ensures v in done + {q[0]} || v in q'
      {
        if v in parent && v !in done && v != q[0] {
          var k :| 0 <= k < |q| && q[k] == v;
          assert q'[k - 1] == v;
        } else if v !in parent {
          var k :| 0 <= k < |found| && found[k] == v;
          assert q'[|q| - 1 + k] == v;
        }
      }
    }

    lemma AllExpandedStep(dist: map<Cell, nat>, done: set<Cell>, u: Cell, dist': map<Cell, nat>)
      requires Valid() && done <= dist.Keys && u in dist && AllExpanded(dist, done)
      requires forall v :: v in dist ==> v in dist' && dist'[v] == dist[v]
      requires Expanded(u, dist')
      ensures done + {u} <= dist'.Keys && AllExpanded(dist', done + {u})
    {
      forall d | d in done + {u}
        ensures Expanded(d, dist')
      {
        if d in done {
          ExpandedGrows(d, dist, dist');
        }
      }
    }

    /** Dequeuing a cell `u` other than `end` and expanding it keeps the
        Frontier. */
    lemma FrontierStep(parent: map<Cell, Cell>, dist: map<Cell, nat>, start: Cell,
                       q: seq<Cell>, done: set<Cell>, end: Cell,
                       parent': map<Cell, Cell>, q': seq<Cell>, dist': map<Cell, nat>)
      requires Valid() && Frontier(parent, dist, start, q, done, end) && q != [] && q[0] != end
      requires SearchTree(parent', dist', start) && Grown(q[0], 4, parent, q[1..], dist, parent', q', dist')
      requires forall w :: Step(q[0], w) ==> w in parent'
      ensures Frontier(parent', dist', start, q', done + {q[0]}, end)
    {
      var found := Discovered(q[0], parent.Keys, 4);
      GrownDiscovers(q[0], parent, q[1..], dist, parent', q', dist');
      QueuedStep(parent, dist, q, done, parent', dist', found);
      OrderedStep(parent, dist, q, done, parent', dist', found);
      CoveredStep(parent, dist, q, done, parent', dist', found);
      assert Expanded(q[0], dist');
      AllExpandedStep(dist, done, q[0], dist');
    }

    /** Every walk from `start` shorter than `bound` steps ends in an expanded
        cell at most that many steps away, provided every discovered cell closer
        than `bound` is expanded. */
    lemma {:induction false} ShortWalksExpanded(dist: map<Cell, nat>, start: Cell, done: set<Cell>,
                                                bound: int, p: seq<Cell>)
      requires Valid() && start in dist && dist[start] == 0 && done <= dist.Keys
      requires forall v :: v in dist && dist[v] < bound ==> v in done
      requires forall u :: u in done ==> Expanded(u, dist)
      requires IsWalk(p) && |p| > 0 && p[0] == start && |p| - 1 < bound
      ensures p[|p| - 1] in done && dist[p[|p| - 1]] <= |p| - 1
    {
      if |p| > 1 {
        var p' := p[..|p| - 1];
        assert IsWalk(p') by {
          forall k | 0 <= k < |p'| - 1
            ensures Step(p'[k], p'[k + 1])
          {
            assert p'[k] == p[k] && p'[k + 1] == p[k + 1];
          }
        }
        ShortWalksExpanded(dist, start, done, bound, p');
        assert Step(p[|p| - 2], p[|p| - 1]);
      }
    }

    /** When `end` reaches the front of the queue, no walk from `start` to `end`
        has fewer than dist[end] steps. */
    lemma FrontierFound(parent: map<Cell, Cell>, dist: map<Cell, nat>, start: Cell,
                        q: seq<Cell>, done: set<Cell>, end: Cell, p: seq<Cell>)
      requires Valid() && Frontier(parent, dist, start, q, done, end) && q != [] && q[0] == end
      requires WalkBetween(p, start, end)
      ensures |p| >= dist[end] + 1
    {
      forall v | v in dist && dist[v] < dist[end]
        ensures v in done
      {
      }
      if |p| - 1 < dist[end] {
        ShortWalksExpanded(dist, start, done, dist[end], p);
      }
    }

    /** When the queue runs empty before `end` is dequeued, no walk leads from
        `start` to `end`. */
    lemma FrontierExhausted(parent: map<Cell, Cell>, dist: map<Cell, nat>, start: Cell,
                            done: set<Cell>, end: Cell)
      requires Valid() && Frontier(parent, dist, start, [], done, end)
      ensures !Reachable(start, end)
    {
      if p :| WalkBetween(p, start, end) {
        ShortWalksExpanded(dist, start, done, |p|, p);
      }
    }

    /** What holds at the head of the reconstruction loop of
        `findShortestPath`: `trail` holds the cells from `end` back along the
        parents so far, and `v` is the parent of the last of them. */
    ghost predicate TrailFrom(parent: map<Cell, Cell>, dist: map<Cell, nat>, start: Cell, end: Cell,
                              trail: seq<Cell>, v: Cell)
      requires Valid() && SearchTree(parent, dist, start) && end in parent
      reads cells
    {
      && (v == SENTINEL || v in parent)
      && (start == SENTINEL ==> trail == [] && v == end)
      && (trail == [] ==> v == end)
      && (trail != [] ==> trail[0] == end && trail[|trail| - 1] in parent && v == parent[trail[|trail| - 1]])
      && (forall k :: 0 <= k < |trail| - 1 ==> Step(trail[k + 1], trail[k]))
      && (v in parent ==> |trail| + dist[v] == dist[end])
      && (v == SENTINEL && trail != [] ==> |trail| == dist[end] + 1 && trail[|trail| - 1] == start)
    }

    /** One pass of the reconstruction loop keeps TrailFrom and brings the
        loop closer to the start. */
    lemma TrailStep(parent: map<Cell, Cell>, dist: map<Cell, nat>, start: Cell, end: Cell,
                    trail: seq<Cell>, v: Cell)
      requires Valid() && SearchTree(parent, dist, start) && end in parent
      requires TrailFrom(parent, dist, start, end, trail, v) && v != SENTINEL
      ensures v in parent && TrailFrom(parent, dist, start, end, trail + [v], parent[v])
      ensures (if parent[v] in parent then dist[parent[v]] + 1 else 0) < dist[v] + 1
    {
      assert !Open(SENTINEL);
      var t := trail + [v];
      forall k | 0 <= k < |t| - 1
        ensures Step(t[k + 1], t[k])
      {
        if k < |trail| - 1 {
          assert t[k] == trail[k] && t[k + 1] == trail[k + 1];
        } else {
          assert t[k] == trail[|trail| - 1] && t[k + 1] == v;
        }
      }
    }

    /** The reconstruction loop of `findShortestPath`: follow parents from `end`
        until the sentinel, collecting the cells passed. */
    method TraceBack(parent: map<Cell, Cell>, ghost dist: map<Cell, nat>, ghost start: Cell, end: Cell)
      returns (trail: seq<Cell>)
      requires Valid() && SearchTree(parent, dist, start) && end in parent
      ensures start == SENTINEL ==> trail == []
      ensures start != SENTINEL ==>
        |trail| == dist[end] + 1 && trail[0] == end && trail[|trail| - 1] == start &&
        forall k :: 0 <= k < |trail| - 1 ==> Step(trail[k + 1], trail[k])
      ensures trail == Trace(parent, dist, end)
    {
      trail := [];
      var v := end;
      assert !Open(SENTINEL);
      while v != SENTINEL
        invariant TrailFrom(parent, dist, start, end, trail, v)
        invariant trail + Trace(parent, dist, v) == Trace(parent, dist, end)
        decreases if v in parent then dist[v] + 1 else 0
      {
        TrailStep(parent, dist, start, end, trail, v);
        TraceAppend(parent, dist, start, trail, v);
        trail := trail + [v];
        v := parent[v];
      }
      assert trail + Trace(parent, dist, v) == trail;
      TrailDone(parent, dist, start, end, trail);
    }

    /** Once the reconstruction loop reaches the sentinel, the trail runs from
        `end` back to `start`, or is empty when `start` is the sentinel. */
    lemma TrailDone(parent: map<Cell, Cell>, dist: map<Cell, nat>, start: Cell, end: Cell, trail: seq<Cell>)
      requires Valid() && SearchTree(parent, dist, start) && end in parent
      requires TrailFrom(parent, dist, start, end, trail, SENTINEL)
      ensures start == SENTINEL ==> trail == []
      ensures start != SENTINEL ==>
        |trail| == dist[end] + 1 && trail[0] == end && trail[|trail| - 1] == start &&
        forall k :: 0 <= k < |trail| - 1 ==> Step(trail[k + 1], trail[k])
    {
      assert !Open(SENTINEL);
    }

    /** Moving the next cell from the part still to follow onto the trail keeps
        the whole Trace from `end`. */
    lemma TraceAppend(parent: map<Cell, Cell>, dist: map<Cell, nat>, start: Cell, trail: seq<Cell>, v: Cell)
      requires Valid() && SearchTree(parent, dist, start) && v in parent && v != SENTINEL
      ensures trail + Trace(parent, dist, v) == (trail + [v]) + Trace(parent, dist, parent[v])
    {
      assert Trace(parent, dist, v) == [v] + Trace(parent, dist, parent[v]);
    }

    /** Reversing a trail that goes backwards along Steps gives a walk. */
    lemma ReversedTrail(trail: seq<Cell>)
      requires Valid() && forall k :: 0 <= k < |trail| - 1 ==> Step(trail[k + 1], trail[k])
      ensures IsWalk(Reverse(trail))
    {
      var p := Reverse(trail);
      forall k | 0 <= k < |p| - 1
        ensures Step(p[k], p[k + 1])
      {
        var j := |trail| - 2 - k;
        assert p[k] == trail[j + 1] && p[k + 1] == trail[j];
      }
    }

    /** What Expand leaves behind, in the terms FrontierStep takes. */
    lemma GrownDiscovers(u: Cell, parent: map<Cell, Cell>, q: seq<Cell>, dist: map<Cell, nat>,
                         parent': map<Cell, Cell>, q': seq<Cell>, dist': map<Cell, nat>)
      requires Valid() && u in dist && parent.Keys == dist.Keys && Grown(u, 4, parent, q, dist, parent', q', dist')
      ensures Discovers(parent, dist, u, parent', dist', Discovered(u, parent.Keys, 4))
    {
      DiscoveredDistinct(u, parent.Keys, 4);
    }

    /** `p` is a walk from `s` to `e` and no walk between them is shorter. */
    ghost predicate ShortestWalk(p: seq<Cell>, s: Cell, e: Cell)
      requires Valid()
      reads cells
    {
      WalkBetween(p, s, e) && forall p' :: WalkBetween(p', s, e) ==> |p| <= |p'|
    }

    /** Cutting out the cells after index `a` up to and including index `b`
        of a walk that visits the same cell at both keeps it a walk. */
    lemma CutLoop(p: seq<Cell>, s: Cell, e: Cell, a: int, b: int)
      requires Valid() && WalkBetween(p, s, e) && 0 <= a < b < |p| && p[a] == p[b]
      ensures WalkBetween(p[..a] + p[b..], s, e) && |p[..a] + p[b..]| < |p|
    {
      var p' := p[..a] + p[b..];
      forall k | 0 <= k < |p'| - 1
        ensures Step(p'[k], p'[k + 1])
      {
        if k + 1 < a {
          assert p'[k] == p[k] && p'[k + 1] == p[k + 1];
        } else if k + 1 == a {
          assert p'[k] == p[k] && p'[k + 1] == p[a];
        } else {
          assert p'[k] == p[k - a + b] && p'[k + 1] == p[k + 1 - a + b];
        }
      }
      if a == 0 {
        assert p'[0] == p[b];
      } else {
        assert p'[0] == p[0];
      }
      assert p'[|p'| - 1] == p[|p| - 1];
    }

    /** A shortest walk never visits a cell twice, and the shortest walk from
        a cell to itself is that cell alone. */
    lemma ShortestWalkSimple(p: seq<Cell>, s: Cell, e: Cell)
      requires Valid() && ShortestWalk(p, s, e)
      ensures forall a, b :: 0 <= a < b < |p| ==> p[a] != p[b]
      ensures s == e ==> p == [s]
    {
      forall a, b | 0 <= a < b < |p|
        ensures p[a] != p[b]
      {
        if p[a] == p[b] {
          CutLoop(p, s, e, a, b);
          assert false;
        }
      }
      if s == e {
        assert WalkBetween([s], s, e);
      }
    }

    /** When `end` is dequeued, the reversed trail back from it is a shortest
        walk from `start` to `end`. */
    lemma TrailShortest(parent: map<Cell, Cell>, dist: map<Cell, nat>, start: Cell,
                        q: seq<Cell>, done: set<Cell>, end: Cell, trail: seq<Cell>)
      requires Valid() && Frontier(parent, dist, start, q, done, end) && q != [] && q[0] == end
      requires start != SENTINEL
      requires |trail| == dist[end] + 1 && trail[0] == end && trail[|trail| - 1] == start
      requires forall k :: 0 <= k < |trail| - 1 ==> Step(trail[k + 1], trail[k])
      ensures ShortestWalk(Reverse(trail), start, end)
    {
      ReversedTrail(trail);
      forall p | WalkBetween(p, start, end)
        ensures |Reverse(trail)| <= |p|
      {
        FrontierFound(parent, dist, start, q, done, end, p);
      }
    }

    /** What `findShortestPath` does once `end` is dequeued: follow the
        parents back from it and reverse what was collected. */
    method Reconstruct(parent: map<Cell, Cell>, ghost dist: map<Cell, nat>, ghost start: Cell,
                       ghost q: seq<Cell>, ghost done: set<Cell>, end: Cell)
      returns (path: seq<Cell>)
      requires Valid() && Frontier(parent, dist, start, q, done, end) && q != [] && q[0] == end
      ensures start == SENTINEL ==> path == []
      ensures start != SENTINEL ==> ShortestWalk(path, start, end)
      ensures path == Reverse(Trace(parent, dist, end))
    {
      var trail := TraceBack(parent, dist, start, end);
      path := Reverse(trail);
      if start != SENTINEL {
        TrailShortest(parent, dist, start, q, done, end, trail);
      }
    }

    /** The search starts with only `start` discovered and queued. */
    lemma FrontierInit(start: Cell, end: Cell)
      requires Valid()
      ensures Frontier(map[start := SENTINEL], map[start := 0], start, [start], {}, end)
    {
    }

    /** Breadth-first search from (startX, startY) to (endX, endY) through
        in-grid PASS cells, stepping up, down, left and right; the start itself
        need not be PASS or in the grid. The result is a shortest walk from the
        start to the end, as cells (row, column), or empty when there is none.
        A start at the sentinel position (-1, -1) always gives the empty result,
        because the reconstruction loop stops at that position at once. */
    method FindShortestPath(startX: int, startY: int, endX: int, endY: int) returns (path: seq<Cell>)
      requires Valid()
      ensures Cell(startY, startX) == SENTINEL ==> path == []
      ensures Cell(startY, startX) != SENTINEL ==> (path == [] <==> !Reachable(Cell(startY, startX), Cell(endY, endX)))
      ensures path != [] ==> ShortestWalk(path, Cell(startY, startX), Cell(endY, endX))
      ensures path == Bfs(map[Cell(startY, startX) := SENTINEL], map[Cell(startY, startX) := 0], [Cell(startY, startX)], Cell(endY, endX))
    {
      var start := Cell(startY, startX);
      ghost var end := Cell(endY, endX);
      path := [];
      var parent := map[start := SENTINEL];
      var q := [start];
      ghost var dist: map<Cell, nat> := map[start := 0];
      ghost var done: set<Cell> := {};
      FrontierInit(start, end);
      ghost var expected := Bfs(parent, dist, q, end);
      while q != []
        invariant Frontier(parent, dist, start, q, done, end)
        invariant Bfs(parent, dist, q, end) == expected
        decreases |GridCells() - parent.Keys| + |q|
      {
        var u := q[0];
        var y, x := u.row, u.col;
        ghost var q0 := q;
        q := q[1..];
        if x == endX && y == endY {
          path := Reconstruct(parent, dist, start, q0, done, u);
          return;
        }
        ghost var p0, d0 := parent, dist;
        parent, q, dist := Expand(x, y, parent, q, dist, start);
        FrontierStep(p0, d0, start, q0, done, end, parent, q, dist);
        BfsNext(p0, d0, q0, end, parent, q, dist);
        done := done + {u};
      }
      if start != SENTINEL {
        FrontierExhausted(parent, dist, start, done, end);
      }
    }
  }
}
