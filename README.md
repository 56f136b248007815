# Uninformed search over a graph and a grid, in Dafny

This project models `search_assignment.py`, a small teaching program that runs
three uninformed searches over two topologies:

- breadth-first search (`bfs_graph`, `bfs_grid`): a FIFO frontier of
  (node, path) entries and a global visited set;
- depth-first search (`dfs_graph`, `dfs_grid`): a LIFO frontier that pushes
  the successors in reverse, so the left-most successor is popped first;
- depth-limited search (`dls_grid`): a LIFO frontier of (node, path, depth)
  tasks with a cutoff at `depth == limit`. It avoids cycles only along the
  current path and counts the nodes it expands.

The topologies are:

- a directed graph, given as an adjacency map from node names to ordered
  successor lists. A node that is not a key of the map has no successors.
- a grid of integers, where `0` marks a free cell. Moves go right, down,
  left, up, in that order, into cells that `in_bounds` and `is_free` accept.

The searches are written once, generically over a successor function
`succ: T -> seq<T>`. The graph and the grid instantiate them. As in the
source, a node is marked visited when it is popped, not when it is pushed. So
the frontier may hold several entries for one node; the first one popped is
expanded and the others are discarded.

Modules:

- `Walks` (walks.dfy): walks, reachability and repetition-free walks. These
  are the terms in which every result is specified.
- `Frontier` (frontier.dfy):
  - frontier entries, and the `None` signal for "no path";
  - `Reverse`;
  - the expansion step: the entries one expansion appends, in successor order;
  - the loop that appends them.
- `Uninformed` (uninformed.dfy): breadth-first and depth-first search over
  any successor function, with a loop invariant and one step lemma per
  branch of the loop body.
- `DepthLimited` (depth_limited.dfy): depth-limited search over any
  successor function. `Run` is a recursive definition of what its loop
  returns from a given stack and count, and `Popped` lists the tasks that
  loop pops. A weight function proves that both the loop and `Run`
  terminate.
- `GridSearch` (grid_search.dfy):
  - `in_bounds`, `is_free` and the move order;
  - `bfs_grid`, `dfs_grid` and `dls_grid`, stated in terms of grid routes;
  - the assignment's 7 by 6 board.
- `GraphSearch` (graph_search.dfy): `graph.get(node, [])`, `bfs_graph` and
  `dfs_graph`, stated in terms of graph paths, plus the assignment's
  six-node graph.

Each search is a method with a `while` loop, as in the source. Its
postcondition gives what the source promises:

- BFS returns a shortest path;
- every search returns a path from start to goal without repetitions, and
  answers `None` exactly when no path (within the limit, for DLS) exists;
- DLS returns exactly the path and the count of `Run` started from the
  single task for the start, so equal inputs give equal counts. That count
  is the number of tasks `Run` pops that are neither the goal nor at the
  limit (`RunCounts`).

The frontiers are Python lists and deques that the source mutates. Here they
are `seq` locals that the loops reassign.

## Model

| member | source | states |
|---|---|---|
| Frontier.Reverse | search_assignment.py:59 | `reversed`: the result has the same length, holds the same elements, and position `i` holds the element `|s|-1-i` |
| Frontier.Expansion | search_assignment.py:39-41 | the entries one expansion appends: each is for a listed successor that is not visited, with the popped path extended by that successor, and every unvisited successor gets one |
| Frontier.PushUnvisited | search_assignment.py:39-41 | the inner `for` loop appends to the frontier exactly `Expansion` of the successors, in their order |
| Frontier.ExpansionOfReverse | search_assignment.py:58-61 | pushing the successors in reverse puts the same entries on the stack in reverse, so the left-most unvisited successor is popped first |
| Walks.ClosedSetSeparates | search_assignment.py:42 | a set that holds the start, is closed under successors and misses the goal proves the goal unreachable; this justifies returning `None` |
| Walks.ShortcutToSimple | search_assignment.py:166-167 | any walk between two nodes can be shortened to one without repetitions, so refusing to revisit a node on the current path loses no goal |
| Uninformed.InitialFrontier | search_assignment.py:29-30 | the frontier `[(start, [start])]` with nothing visited satisfies the search invariant and the breadth-first level invariants |
| Uninformed.DiscardStep | search_assignment.py:36-37 | dropping a popped entry whose node is already visited keeps the search invariant |
| Uninformed.ExpandStep | search_assignment.py:38-41 | marking a popped node visited and pushing its unvisited successors keeps every entry a repetition-free walk from the start, and keeps every successor of a visited node visited or on the frontier |
| Uninformed.HeadIsShortest | search_assignment.py:33-35 | when the queue's head is the goal, no walk from the start to the goal is shorter than its path |
| Uninformed.LevelsAfterPop | search_assignment.py:33-41 | a FIFO pop followed by appending one-level-deeper entries keeps the queue's path lengths non-decreasing, spanning at most two levels, and keeps every shorter walk ending at a visited node |
| Uninformed.BreadthFirstExpand | search_assignment.py:38-41 | one breadth-first expansion keeps the invariant and the levels, and visits one more node of the bounding set |
| Uninformed.BreadthFirstDiscard | search_assignment.py:36-37 | discarding an already visited head keeps the invariant and the levels |
| Uninformed.DepthFirstDiscard | search_assignment.py:54-55 | discarding an already visited top of stack keeps the invariant |
| Uninformed.DepthFirstExpand | search_assignment.py:56-61 | one depth-first expansion keeps the invariant and visits one more node of the bounding set |
| Uninformed.BreadthFirst | search_assignment.py:27-42 | returns `[start]` when start is the goal; otherwise a repetition-free walk from start to goal that no walk undercuts, and `None` exactly when the goal is unreachable |
| Uninformed.DepthFirst | search_assignment.py:45-62 | returns `[start]` when start is the goal; otherwise a repetition-free walk from start to goal, and `None` exactly when the goal is unreachable |
| DepthLimited.Children | search_assignment.py:163-168 | the tasks one expansion pushes: each is for a listed successor not on the current path, one move deeper, and every such successor gets one |
| DepthLimited.PushOffPath | search_assignment.py:163-168 | the inner loop pushes exactly `Children` of the successors, in their order |
| DepthLimited.WeightAfterExpand | search_assignment.py:158-168 | replacing a task below the limit by at most `fanout` tasks one level deeper lowers the stack's weight (the sum of `(fanout+1)^(limit-depth)` over its tasks) by at least one |
| DepthLimited.CoveredAfterCutoff | search_assignment.py:158-159 | popping a non-goal task at the limit loses no repetition-free walk to the goal within the limit |
| DepthLimited.CoveredAfterExpand | search_assignment.py:161-168 | popping a non-goal task and pushing its off-path children keeps every repetition-free walk to the goal within the limit extending some task's path |
| DepthLimited.EmptyMeansOutOfReach | search_assignment.py:170 | an empty stack that still covers every walk to the goal within the limit proves that no walk of at most `limit` moves reaches the goal |
| DepthLimited.Run | search_assignment.py:152-170 | the definition of the `dls_grid` loop from a given stack and count: an empty stack returns `None` with the count; a goal on top returns its path with the count; a task at the limit is skipped; any other task counts one expansion and is replaced by `Children(Reverse(succ(node)), path, depth)`. It has no contract of its own: `RunCounts`, `PoppedOk` and `DepthLimitedSearch` state its properties |
| DepthLimited.AdvanceLighter | search_assignment.py:153-168 | popping a non-goal task and then dropping it at the limit or pushing its children keeps every task within the limit and lowers the stack's weight |
| DepthLimited.RunCounts | search_assignment.py:150-168 | the count the loop returns from a stack is the count it started with plus the number of tasks it pops from that stack that are neither the goal nor at the limit |
| DepthLimited.PoppedOk | search_assignment.py:153-168 | every task the loop pops from a stack of valid tasks has a path that is a repetition-free walk from the start to its node, of `depth` moves, at most `limit` |
| DepthLimited.InitialState | search_assignment.py:149-150 | the stack `[(start, [start], 0)]` with zero expansions satisfies the loop invariant |
| DepthLimited.PopGoal | search_assignment.py:155-156 | a popped goal task's path is a repetition-free walk of at most `limit` moves, and it and the current count are what the whole run returns |
| DepthLimited.PopCutoff | search_assignment.py:158-159 | a popped task at the limit is skipped: the invariant holds for the rest of the stack, which resumes the same run, and the weight drops |
| DepthLimited.PopExpand | search_assignment.py:161-168 | an expansion adds one to the count, keeps the invariant (the new stack and count resume the same run) and lowers the weight |
| DepthLimited.PopEmpty | search_assignment.py:170 | when the stack runs empty, no walk of at most `limit` moves reaches the goal, and the run returns `None` with the current count |
| DepthLimited.DepthLimitedSearch | search_assignment.py:137-170 | returns exactly the path and count of `Run` from `[(start, [start], 0)]`, the count being the number of popped tasks that were neither the goal nor at the limit, and every popped task valid; `[start]` with zero expansions when start is the goal; otherwise a repetition-free walk of at most `limit` moves, and `None` exactly when no walk of at most `limit` moves reaches the goal; zero expansions when `limit` is 0, and at most `(fanout+1)^limit` |
| GridSearch.InBounds | search_assignment.py:89-90 | a cell in bounds has a non-empty grid and a column inside the first row; on a well-shaped grid it is a readable cell, so `is_free` cannot fail after it |
| GridSearch.Moves | search_assignment.py:110-112 | the cells reached along the given offsets, in order, are exactly the offset cells that are in bounds and free, at most one per offset |
| GridSearch.Neighbours | search_assignment.py:110-112 | a cell has at most four successors, each an in-bounds, free cell at Manhattan distance 1 |
| GridSearch.MovesOrder | search_assignment.py:110-112 | the successors come in the order of the offsets: of two open cells, the one along the earlier offset comes first |
| GridSearch.NeighboursOrder | search_assignment.py:84-86 | `DIRS`: successors are listed right, down, left, up; of two open neighbours, the one whose offset comes first in that order comes first |
| GridSearch.NeighboursSpec | search_assignment.py:86-94 | the successors of a cell are exactly the cells at Manhattan distance 1 that `in_bounds` accepts and that `is_free` finds holding `0` |
| GridSearch.MovesOfReverse | search_assignment.py:130-133 | walking `reversed(DIRS)` yields the successors in reverse order, which is the order `DepthFirst` and `DepthLimitedSearch` push them |
| GridSearch.RouteIsWalk | search_assignment.py:110-112 | a grid route (each move to an in-bounds free cell one step away) is exactly a walk of the grid's successor function |
| GridSearch.RouteAtLeastDistance | search_assignment.py:110-111 | every route has at least as many moves as the Manhattan distance between its ends |
| GridSearch.GridClosed | search_assignment.py:89-90 | the start together with the in-bounds cells is a finite set closed under moves |
| GridSearch.BfsGrid | search_assignment.py:97-114 | `[start]` when start is the goal; otherwise a shortest repetition-free route, and `None` exactly when there is no route |
| GridSearch.DfsGrid | search_assignment.py:117-134 | `[start]` when start is the goal; otherwise a repetition-free route, and `None` exactly when there is no route |
| GridSearch.DlsGrid | search_assignment.py:137-170 | returns exactly the path and count of `Run` over the grid's moves, the count being the number of popped cells that were neither the goal nor at the limit; `[start]` with zero expansions when start is the goal; otherwise a repetition-free route of at most `limit` moves, and `None` exactly when every route is longer; zero expansions for limit 0, and at most `5^limit` |
| GridSearch.BoardRoute | search_assignment.py:71-82 | the assignment's board has a route of six moves from (6,0) to (3,3) |
| GridSearch.SolveBoard | search_assignment.py:210-231 | on the assignment's board, BFS finds a route of exactly six moves, DFS finds a route, DLS finds none with limit 4 and finds one with limit 8 |
| GraphSearch.Adj | search_assignment.py:39 | `graph.get(node, [])`: a node that is not a key has no successors, and the successors listed are exactly the targets of its edges |
| GraphSearch.AllPathsAreWalks | search_assignment.py:39 | following `graph.get(node, [])` walks exactly the paths along the map's edges |
| GraphSearch.GraphClosed | search_assignment.py:27-39 | the start, the keys and every listed successor form a finite set closed under edges |
| GraphSearch.BfsGraph | search_assignment.py:27-42 | `[start]` when start is the goal; otherwise a path with the fewest edges and no repetitions, and `None` exactly when there is no path |
| GraphSearch.DfsGraph | search_assignment.py:45-62 | `[start]` when start is the goal; otherwise a path without repetitions, and `None` exactly when there is no path |
| GraphSearch.OnlyExamplePath | search_assignment.py:14-24 | in the assignment's graph the only path from A to E is A, B, C, E |
| GraphSearch.SolveExample | search_assignment.py:202-208 | both graph searches return A, B, C, E on the assignment's graph |

## Left out

- The printing helpers (`print_path_nodes`, `print_path_coords`), the runners (`run_problem_1`, `run_problem_2`, `run_all`) and the `__main__` entry point are console output. `SolveExample` states the exact paths the graph runner's two searches return.
- SolveBoard: states only that BFS finds a route of six moves, DFS finds a route, and DLS finds none with limit 4 and one of at most 8 moves with limit 8. It does not state which routes `run_problem_2` prints, nor the expansion counts it prints; those are the values of `Run` on the board, which the model does not evaluate.
- `deque` versus list is a performance choice. Both frontiers are sequences here.
- DepthLimitedSearch: the source accepts any `int` limit. With a negative limit the cutoff `depth == limit` never fires, so the search enumerates every repetition-free route. The model takes a `nat` limit and does not cover negative limits.
- DepthLimitedSearch: the ghost `fanout` parameter bounds the number of successors of a node. It only serves the termination proof and the `(fanout+1)^limit` bound, and the grid supplies 4. The source has no such bound; the `5^limit` bound of `DlsGrid` is a consequence of the model, not a promise of the source.
- BreadthFirst, DepthFirst: the ghost `universe` parameter is a finite set closed under successors that holds the start. It only bounds the loop. The grid and graph wrappers supply one.
- BreadthFirst, BfsGrid, BfsGraph, DepthFirst, DfsGrid, DfsGraph: the postconditions do not pin down *which* path is returned when several qualify. Among several shortest paths, breadth-first search returns the one enqueued first; depth-first search returns the one along the left-most successors. The bodies fix these orders, and `ExpansionOfReverse`, `MovesOfReverse` and `NeighboursOrder` state the push order, but the contracts specify the result only as a shortest (BFS) or a repetition-free (DFS) path. It is exact only for the assignment's graph, in `SolveExample`. For depth-limited search the route is pinned: `DlsGrid` returns the value of `Run`.
- BfsGrid, DfsGrid, DlsGrid: the grid must be well shaped, with no row shorter than the first. On a shorter row, `is_free` reads past the row's end after `in_bounds` accepted the cell, and the source raises `IndexError`; that crash is not modelled. Grids whose rows are at least as long as the first behave as in the source. Cell values other than `0` count as blocked, as in `is_free`.
- Node names are strings, and cells are pairs of unbounded integers, like Python's. Hashing, and any node type other than `str`, are not modelled.
- The expansion count is not monotone in the limit, and the code does not make it so. With a larger limit, depth-first search can reach the goal early in its first branch and stop after fewer expansions than an exhaustive search under the smaller limit. Example, traced by hand: on an open grid of 3 rows and 5 columns, from (1,1) to (1,4), limit 2 expands 5 tasks (the start and its four neighbours) and finds nothing. Limit 3 expands (1,1), (1,2) and (1,3), then pops the goal, which gives 3. That a route found under a smaller limit is still found under a larger one follows from the `None` postcondition of `DlsGrid`. The count is not bounded by the number of free cells either, since one cell can be expanded along several paths.
