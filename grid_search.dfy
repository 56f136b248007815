/**
 The grid topology: a rectangular-enough grid of integers where `0` is a
 free cell, moves in the fixed order right, down, left, up, and the three
 grid searches (`bfs_grid`, `dfs_grid`, `dls_grid`) as instances of the
 generic engines.
 */
module GridSearch {
  import opened Walks
  import opened Frontier
  import opened Uninformed
  import opened DepthLimited

  /** A cell as (row, column). */
  type Coord = (int, int)

  /** Every row is at least as long as the first, so every cell `in_bounds` accepts can be read. */
  predicate WellShaped(grid: seq<seq<int>>)
  {
    forall i :: 0 <= i < |grid| ==> |grid[0]| <= |grid[i]|
  }

  type Grid = g: seq<seq<int>> | WellShaped(g) witness []

  /** The move offsets, in the order successors are generated: right, down, left, up. */
  const Dirs: seq<Coord> := [(0, 1), (1, 0), (0, -1), (-1, 0)]

  /**
   `in_bounds`: the row is below the number of rows and the column below the
   length of the first row; an empty grid has no cell in bounds. A cell in
   bounds can be read.
   */
  function InBounds(grid: Grid, r: int, c: int): (b: bool)
    ensures b ==> 0 <= r < |grid| && 0 <= c < |grid[r]|
    ensures b ==> |grid| > 0 && 0 <= c < |grid[0]|
  {
    0 <= r < |grid| && 0 <= c < |grid[0]|
  }

  /** `is_free`: the cell holds `0`; it is only asked about a cell that can be read. */
  predicate IsFree(grid: Grid, r: int, c: int)
    requires 0 <= r < |grid| && 0 <= c < |grid[r]|
  {
    grid[r][c] == 0
  }

  /** A cell a move may enter: inside the grid and free. */
  predicate Open(grid: Grid, cell: Coord)
  {
    InBounds(grid, cell.0, cell.1) && IsFree(grid, cell.0, cell.1)
  }

  function Step(cell: Coord, d: Coord): Coord
  {
    (cell.0 + d.0, cell.1 + d.1)
  }

  function Abs(x: int): nat
  {
    if x < 0 then -x else x
  }

  /** The number of moves between two cells on an empty board. */
  function Distance(a: Coord, b: Coord): nat
  {
    Abs(a.0 - b.0) + Abs(a.1 - b.1)
  }

  /** The open cells reached by moving from `cell` along each offset of `dirs`, in that order. */
  function Moves(grid: Grid, cell: Coord, dirs: seq<Coord>): (r: seq<Coord>)
    ensures |r| <= |dirs|
    ensures forall n :: n in r <==> exists k :: 0 <= k < |dirs| && n == Step(cell, dirs[k]) && Open(grid, n)
  {
    if dirs == [] then []
    else
      var n := Step(cell, dirs[0]);
      var rest := Moves(grid, cell, dirs[1..]);
      assert forall k :: 1 <= k < |dirs| ==> dirs[k] == dirs[1..][k - 1];
      (if Open(grid, n) then [n] else []) + rest
  }

  /** The successors of a cell, in the order of `Dirs`: at most four, each an open cell one move away. */
  function Neighbours(grid: Grid, cell: Coord): (r: seq<Coord>)
    ensures |r| <= 4
    ensures forall k :: 0 <= k < |r| ==> Distance(cell, r[k]) == 1 && Open(grid, r[k])
  {
    var r := Moves(grid, cell, Dirs);
    assert forall k :: 0 <= k < |r| ==> Distance(cell, r[k]) == 1 && Open(grid, r[k]) by {
      forall k | 0 <= k < |r| ensures Distance(cell, r[k]) == 1 && Open(grid, r[k]) {
        assert r[k] in r;
        var j :| 0 <= j < |Dirs| && r[k] == Step(cell, Dirs[j]) && Open(grid, r[k]);
        assert j == 0 || j == 1 || j == 2 || j == 3;
      }
    }
    r
  }

  /**
   Successors come in the order of the offsets: when the cells along offsets
   `i < j` are both open, the one along `i` comes first.
   */
  lemma {:induction false} MovesOrder(grid: Grid, cell: Coord, dirs: seq<Coord>, i: nat, j: nat)
    requires i < j < |dirs|
    requires Open(grid, Step(cell, dirs[i])) && Open(grid, Step(cell, dirs[j]))
    ensures exists a, b ::
      && 0 <= a < b < |Moves(grid, cell, dirs)|
      && Moves(grid, cell, dirs)[a] == Step(cell, dirs[i]) && Moves(grid, cell, dirs)[b] == Step(cell, dirs[j])
    decreases |dirs|
  {
    var r, rest := Moves(grid, cell, dirs), Moves(grid, cell, dirs[1..]);
    assert dirs[1..][j - 1] == dirs[j];
    if i == 0 {
      assert Step(cell, dirs[j]) in rest;
      var b :| 0 <= b < |rest| && rest[b] == Step(cell, dirs[j]);
      assert r[0] == Step(cell, dirs[0]) && r[b + 1] == rest[b];
    } else {
      assert dirs[1..][i - 1] == dirs[i];
      MovesOrder(grid, cell, dirs[1..], i - 1, j - 1);
      var a, b :| 0 <= a < b < |rest| && rest[a] == Step(cell, dirs[i]) && rest[b] == Step(cell, dirs[j]);
      var off := |r| - |rest|;
      assert r[a + off] == rest[a] && r[b + off] == rest[b];
    }
  }

  /**
   The successors of a cell are listed right, down, left, up: of two open
   cells, the one whose offset comes first in `Dirs` comes first.
   */
  lemma NeighboursOrder(grid: Grid, cell: Coord, i: nat, j: nat)
    requires i < j < 4
    requires Open(grid, Step(cell, Dirs[i])) && Open(grid, Step(cell, Dirs[j]))
    ensures exists a, b ::
      && 0 <= a < b < |Neighbours(grid, cell)|
      && Neighbours(grid, cell)[a] == Step(cell, Dirs[i]) && Neighbours(grid, cell)[b] == Step(cell, Dirs[j])
  {
    MovesOrder(grid, cell, Dirs, i, j);
    assert Neighbours(grid, cell) == Moves(grid, cell, Dirs);
  }

  function GridSucc(grid: Grid): (succ: Coord -> seq<Coord>)
    ensures forall cell :: succ(cell) == Neighbours(grid, cell)
  {
    cell => Neighbours(grid, cell)
  }

  /** The successors of a cell are exactly the open cells one move away. */
  lemma NeighboursSpec(grid: Grid, a: Coord, b: Coord)
    ensures b in Neighbours(grid, a) <==> Distance(a, b) == 1 && Open(grid, b)
  {
    if Distance(a, b) == 1 && Open(grid, b) {
      var d := (b.0 - a.0, b.1 - a.1);
      assert b == Step(a, d);
      assert d == Dirs[0] || d == Dirs[1] || d == Dirs[2] || d == Dirs[3];
    }
    if b in Neighbours(grid, a) {
      var k :| 0 <= k < 4 && b == Step(a, Dirs[k]) && Open(grid, b);
      assert Distance(a, b) == 1 by {
        assert k == 0 || k == 1 || k == 2 || k == 3;
      }
    }
  }

  lemma {:induction false} MovesAppend(grid: Grid, cell: Coord, x: seq<Coord>, y: seq<Coord>)
    ensures Moves(grid, cell, x + y) == Moves(grid, cell, x) + Moves(grid, cell, y)
    decreases |x|
  {
    if x == [] {
      assert x + y == y;
    } else {
      assert (x + y)[1..] == x[1..] + y;
      MovesAppend(grid, cell, x[1..], y);
    }
  }

  /**
   Generating successors along the reversed offsets yields the successors in
   reverse order: the loops of `dfs_grid` and `dls_grid`, which walk
   `reversed(DIRS)`, push exactly the cells `Reverse(Neighbours(..))`.
   */
  lemma {:induction false} MovesOfReverse(grid: Grid, cell: Coord, dirs: seq<Coord>)
    ensures Moves(grid, cell, Reverse(dirs)) == Reverse(Moves(grid, cell, dirs))
    decreases |dirs|
  {
    if dirs != [] {
      var d, rest := dirs[0], dirs[1..];
      var head, tail := Moves(grid, cell, [d]), Moves(grid, cell, rest);
      ReverseOfCons(dirs);
      MovesAppend(grid, cell, Reverse(rest), [d]);
      MovesOfReverse(grid, cell, rest);
      MovesOfCons(grid, cell, dirs);
      ReverseAppend(head, tail);
      ReverseOfShort(head);
    }
  }

  lemma ReverseOfCons<T(!new)>(s: seq<T>)
    requires s != []
    ensures Reverse(s) == Reverse(s[1..]) + [s[0]]
  {
    assert s == [s[0]] + s[1..];
    ReverseAppend([s[0]], s[1..]);
    ReverseOfShort([s[0]]);
  }

  lemma ReverseOfShort<T(!new)>(s: seq<T>)
    requires |s| <= 1
    ensures Reverse(s) == s
  {
  }

  lemma MovesOfCons(grid: Grid, cell: Coord, dirs: seq<Coord>)
    requires dirs != []
    ensures Moves(grid, cell, dirs) == Moves(grid, cell, [dirs[0]]) + Moves(grid, cell, dirs[1..])
    ensures |Moves(grid, cell, [dirs[0]])| <= 1
  {
    assert [dirs[0]][1..] == [];
  }

  /** One move: to an open cell at distance one. */
  predicate Move(grid: Grid, a: Coord, b: Coord)
  {
    Distance(a, b) == 1 && Open(grid, b)
  }

  /** A route on the grid: consecutive cells are one move apart. */
  ghost predicate IsRoute(grid: Grid, start: Coord, goal: Coord, p: seq<Coord>)
  {
    && |p| > 0 && p[0] == start && p[|p| - 1] == goal
    && forall i :: 0 <= i < |p| - 1 ==> Move(grid, p[i], p[i + 1])
  }

  /** Routes are exactly the walks of the successor function. */
  lemma RouteIsWalk(grid: Grid, start: Coord, goal: Coord, p: seq<Coord>)
    ensures IsRoute(grid, start, goal, p) <==> Connects(GridSucc(grid), start, goal, p)
  {
    forall i | 0 <= i < |p| - 1 ensures Move(grid, p[i], p[i + 1]) <==> p[i + 1] in GridSucc(grid)(p[i]) {
      NeighboursSpec(grid, p[i], p[i + 1]);
    }
  }

  lemma AllRoutesAreWalks(grid: Grid)
    ensures forall start, goal, p :: IsRoute(grid, start, goal, p) <==> Connects(GridSucc(grid), start, goal, p)
  {
    forall start, goal, p {
      RouteIsWalk(grid, start, goal, p);
    }
  }

  /** A route has at least as many moves as the distance between its ends. */
  lemma {:induction false} RouteAtLeastDistance(grid: Grid, start: Coord, goal: Coord, p: seq<Coord>)
    requires IsRoute(grid, start, goal, p)
    ensures |p| - 1 >= Distance(start, goal)
    decreases |p|
  {
    if |p| > 1 {
      var init := p[..|p| - 1];
      assert IsRoute(grid, start, init[|init| - 1], init) by {
        forall i | 0 <= i < |init| - 1 ensures Move(grid, init[i], init[i + 1]) {
          assert init[i] == p[i] && init[i + 1] == p[i + 1];
        }
      }
      RouteAtLeastDistance(grid, start, init[|init| - 1], init);
      assert Distance(p[|p| - 2], goal) == 1;
    }
  }

  /** Every cell that `in_bounds` accepts. */
  ghost function Cells(grid: Grid): set<Coord>
  {
    set r: int, c: int | 0 <= r < |grid| && 0 <= c < |grid[0]| :: (r, c)
  }

  /** A finite set closed under moves that holds `start`: it bounds the searches. */
  lemma GridClosed(grid: Grid, start: Coord)
    ensures start in {start} + Cells(grid)
    ensures Closed(GridSucc(grid), {start} + Cells(grid))
  {
    forall v, w | w in GridSucc(grid)(v) ensures w in Cells(grid) {
      NeighboursSpec(grid, v, w);
      assert w == (w.0, w.1);
    }
  }

  /**
   `bfs_grid`: a shortest route from `start` to `goal` without repeated
   cells, or `None` exactly when no route exists.
   */
  method BfsGrid(grid: Grid, start: Coord, goal: Coord) returns (path: Option<seq<Coord>>)
    ensures start == goal ==> path == Some([start])
    ensures path.Some? ==> IsRoute(grid, start, goal, path.value) && Distinct(path.value)
    ensures path.Some? ==> forall p :: IsRoute(grid, start, goal, p) ==> |path.value| <= |p|
    ensures path.None? <==> forall p :: !IsRoute(grid, start, goal, p)
  {
    GridClosed(grid, start);
    AllRoutesAreWalks(grid);
    path := BreadthFirst(GridSucc(grid), {start} + Cells(grid), start, goal);
  }

  /** `dfs_grid`: a route from `start` to `goal` without repeated cells, or `None` exactly when no route exists. */
  method DfsGrid(grid: Grid, start: Coord, goal: Coord) returns (path: Option<seq<Coord>>)
    ensures start == goal ==> path == Some([start])
    ensures path.Some? ==> IsRoute(grid, start, goal, path.value) && Distinct(path.value)
    ensures path.None? <==> forall p :: !IsRoute(grid, start, goal, p)
  {
    GridClosed(grid, start);
    AllRoutesAreWalks(grid);
    path := DepthFirst(GridSucc(grid), {start} + Cells(grid), start, goal);
  }

  /**
   `dls_grid`: a route of at most `limit` moves without repeated cells, or
   `None` exactly when every route is longer. The result and the count are
   those of `Run` over the grid's moves from the single task for `start`, so
   `expansions` is the number of popped cells that were neither the goal nor
   at the limit, and is at most `5^limit`.
   */
  method DlsGrid(grid: Grid, start: Coord, goal: Coord, limit: nat)
    returns (path: Option<seq<Coord>>, expansions: nat)
    ensures (path, expansions) == Run(GridSucc(grid), 4, goal, limit, [Task(start, [start], 0)], 0)
    ensures expansions == Expanding(Popped(GridSucc(grid), 4, goal, limit, [Task(start, [start], 0)]), goal, limit)
    ensures start == goal ==> path == Some([start]) && expansions == 0
    ensures path.Some? ==>
      IsRoute(grid, start, goal, path.value) && Distinct(path.value) && |path.value| - 1 <= limit
    ensures path.None? <==> forall p :: IsRoute(grid, start, goal, p) ==> |p| - 1 > limit
    ensures limit == 0 ==> expansions == 0
    ensures expansions <= Pow(5, limit)
  {
    AllRoutesAreWalks(grid);
    path, expansions := DepthLimitedSearch(GridSucc(grid), 4, start, goal, limit);
  }

  /** The 7 by 6 grid of the assignment. */
  const Board: Grid := [
    [0, 1, 1, 1, 1, 1],
    [0, 0, 0, 0, 0, 0],
    [0, 1, 1, 0, 1, 1],
    [0, 1, 1, 0, 1, 1],
    [0, 1, 0, 0, 1, 1],
    [0, 1, 0, 1, 1, 1],
    [0, 0, 0, 1, 1, 1]
  ]

  const BoardStart: Coord := (6, 0)
  const BoardGoal: Coord := (3, 3)

  /** A route of six moves from the start to the goal of the board. */
  lemma BoardRoute()
    ensures IsRoute(Board, BoardStart, BoardGoal, [(6, 0), (6, 1), (6, 2), (5, 2), (4, 2), (4, 3), (3, 3)])
  {
    var p := [(6, 0), (6, 1), (6, 2), (5, 2), (4, 2), (4, 3), (3, 3)];
    assert Board[6][1] == 0 && Board[6][2] == 0 && Board[5][2] == 0;
    assert Board[4][2] == 0 && Board[4][3] == 0 && Board[3][3] == 0;
    assert Move(Board, p[0], p[1]) && Move(Board, p[1], p[2]) && Move(Board, p[2], p[3]);
    assert Move(Board, p[3], p[4]) && Move(Board, p[4], p[5]) && Move(Board, p[5], p[6]);
  }

  /**
   On the board, breadth-first search finds a route of exactly six moves,
   depth-first search finds a route, depth-limited search with limit 4 finds
   none and with limit 8 finds one.
   */
  method SolveBoard() returns (bfs: Option<seq<Coord>>, dfs: Option<seq<Coord>>,
                                dls4: Option<seq<Coord>>, dls8: Option<seq<Coord>>)
    ensures bfs.Some? && |bfs.value| - 1 == 6
    ensures dfs.Some? && IsRoute(Board, BoardStart, BoardGoal, dfs.value)
    ensures dls4.None?
    ensures dls8.Some? && |dls8.value| - 1 <= 8
  {
    BoardRoute();
    var route := [(6, 0), (6, 1), (6, 2), (5, 2), (4, 2), (4, 3), (3, 3)];
    bfs := BfsGrid(Board, BoardStart, BoardGoal);
    RouteAtLeastDistance(Board, BoardStart, BoardGoal, bfs.value);
    dfs := DfsGrid(Board, BoardStart, BoardGoal);
    var e4, e8;
    dls4, e4 := DlsGrid(Board, BoardStart, BoardGoal, 4);
    if dls4.Some? {
      RouteAtLeastDistance(Board, BoardStart, BoardGoal, dls4.value);
    }
    dls8, e8 := DlsGrid(Board, BoardStart, BoardGoal, 8);
  }
}
