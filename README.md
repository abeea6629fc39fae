# Grid pathfinding engines, modelled in Dafny

This project models the pathfinding core of a small maze visualiser
(`src/main.cpp`). A maze is a grid of integer cells, row by row. The value 1 is
a wall. A cell is addressed by an unsigned `(x, y)` with `y` selecting the
row. Three searches run over it:

- `bfs_visualized` is a breadth-first search that advances one dequeued node
  per `step`. It keeps a FIFO `queue` of nodes, a `visited` set of cells and
  the `path` to the node dequeued last.
- `astar_visualized` is a best-first search, also advanced one node per
  `step`. It keeps an unordered open list (`queue`) of nodes carrying
  `g`, `h` and `f = g + h`, a closed set `visited`, a `path` and a `finished`
  flag. Each step takes the first open node of least `f` and closes it. If
  that node is not on the goal, the step opens its fresh neighbours with
  `g` one more than the parent's and `h` the squared distance to the goal.
- `breadth_first_search` runs the breadth-first expansion to completion. It
  returns the path to the goal, or nothing.

In the program, each node links to the node that created it through a
`shared_ptr`. Here every node an engine creates lives in one sequence, the *arena*,
in creation order. A node's parent is an earlier index in the arena. The
breadth-first queue is then always the tail of the arena. The A* open list is
a list of arena indices. The A* costs sit in a sequence parallel to the arena.

Modules:

- `Grid` (`grid.dfy`) holds cells, positions, the neighbour offsets and
  `Candidates`: the neighbours one expansion creates nodes for, as a fold over
  the offsets. It also holds `maze::create` as the class `Maze`.
- `Arena` (`arena.dfy`) holds nodes, parent chains and `get_path`.
- `BfsEngine` (`bfs.dfy`) holds the breadth-first expansion and the class
  `BfsVisualized`.
- `AStarEngine` (`astar.dfy`) holds the selection scan, the expansion, the
  state invariant and the class `AStarVisualized`.
- `Search` (`search.dfy`) holds `breadth_first_search`, with the proof that
  on a non-empty maze its result is empty exactly when the goal cannot be
  reached.

What is proved, in short:

- A reconstructed path runs from a parentless node to the current one.
  Consecutive cells are one offset apart, and every cell after the first is
  open.
- In both engines no cell ever gets two nodes, so no cell is enqueued or
  opened twice. The visited cells are exactly the cells of the nodes
  (breadth-first). The node cells are the closed cells plus the open cells
  (A*).
- A* takes the first node of least `f`. Every A* node keeps
  `f = g + h`, and its `g` is the number of steps on its parent chain.
- `breadth_first_search` returns a walk from `start` to `end` when `end` can
  be reached. It returns an empty path when the maze is empty or `end`
  cannot be reached.

Behaviour of the code the model keeps:

- `bfs_visualized` has no finished flag: after the goal has been dequeued,
  further steps keep expanding.
- `prepare` does not clear earlier state, so callers start from an empty
  engine, either new or reset.
- The diagonal offsets are tried in the order (1,1), (1,-1), (-1,1), (-1,-1),
  after the four straight ones.

## Model

| member | source | states |
|---|---|---|
| Grid.Directions | src/main.cpp:30-39 | 4 offsets, or 8 with diagonals. The first four are the straight ones. All are distinct unit offsets other than (0, 0). |
| Grid.Candidates | src/main.cpp:78-98 | The cells one expansion creates nodes for. There are at most as many as offsets. Each is inside the grid, not a wall, not blocked, and one offset from the expanded cell. |
| Grid.CandidatesComplete | src/main.cpp:78-98 | Completeness of the expansion: every open, unblocked neighbour is among the candidates. |
| Grid.CandidatesDistinct | src/main.cpp:177-200 | The candidates are pairwise distinct cells, although the A* children are never checked against each other. |
| Grid.Maze.Create | src/main.cpp:378-384 | Sets the dimension and gives the grid that many rows of that many cells. Values that fit are kept and new cells are 0, as `resize` does. |
| Arena.PathShape | src/main.cpp:53-62 | The path is as long as the parent chain. Its k-th cell is the cell of the chain's k-th node. The chain starts at a parentless node, ends at the current node, and links each node to the next. |
| Arena.PathSteps | src/main.cpp:53-62 | Consecutive cells of a path are one offset apart when every node is one offset from its parent. |
| Arena.PathStart | src/main.cpp:53-62 | A path starts at a root cell. |
| Arena.PathIsWalk | src/main.cpp:53-62 | A path is a walk through open cells when every non-root node is on an open cell. |
| Arena.PathPrefix | src/main.cpp:53-62 | Appending nodes leaves the path to an existing node unchanged. |
| Arena.ExtendsDistinct | src/main.cpp:84-96 | Enqueuing children on new, distinct cells keeps every cell to at most one node. |
| Arena.GetPath | src/main.cpp:53-62 | The loop that follows parent links and reverses returns exactly the parent-chain path. The copies at src/main.cpp:135-144 and 249-256 are the same loop. |
| BfsEngine.Expand | src/main.cpp:78-98 | Appends one child of the current node per candidate, in offset order. Enqueues exactly the new nodes, and adds exactly their cells to `visited`. |
| BfsEngine.BfsVisualized.Reset | src/main.cpp:41-46 | Queue, visited and path are empty afterwards, whatever the state before, so a second reset changes nothing. |
| BfsEngine.BfsVisualized.Prepare | src/main.cpp:47-51 | Enqueues a parentless node at `start` and marks `start` visited. |
| BfsEngine.BfsVisualized.Step | src/main.cpp:64-100 | On an empty queue nothing changes. Otherwise it dequeues the front node. If that node is on `end`, the path is the path to it and ends at `end`. Else the node is expanded as `Expand` states, and the path is the path to it. The invariant holds: no cell queued twice, every queued cell visited. |
| AStarEngine.FirstMinUnique | src/main.cpp:153-162 | The first index of a minimum is unique, so the scan's choice is determined. |
| AStarEngine.SelectFirstMin | src/main.cpp:153-162 | The scan returns the first index of least `f`: no open node has smaller `f`, and every earlier one has larger `f`. |
| AStarEngine.InOpen | src/main.cpp:186-192 | True exactly when some open node is on the cell. |
| AStarEngine.Without | src/main.cpp:165 | `erase` at an index: one element shorter, and the order of the others kept. |
| AStarEngine.OpenCellsDistinct | src/main.cpp:177-211 | Under the invariant no two open nodes share a cell. |
| AStarEngine.RootKeeps | src/main.cpp:129-133 | Adding the start node as open, with its cell closed, keeps the invariant. |
| AStarEngine.PopKeeps | src/main.cpp:164-165 | Closing the chosen node's cell and erasing it from the open list keeps the invariant. |
| AStarEngine.ExpandKeeps | src/main.cpp:177-211 | Opening the children keeps the invariant, `g` equal to parent-chain steps included. |
| AStarEngine.Children | src/main.cpp:177-200 | The children are exactly the candidates blocked by the closed cells and the open cells, in offset order. |
| AStarEngine.Adopt | src/main.cpp:202-211 | Each child is a new node whose parent is the expanded node. It has `g` one more than that node's, `h` its squared distance to `end` and `f = g + h`, and is appended to the open list. |
| AStarEngine.Advance | src/main.cpp:153-213 | One step on a search that is neither finished nor empty. It keeps the invariant and does what `Stepped` describes. |
| AStarEngine.AStarVisualized.Reset | src/main.cpp:123-128 | Open list, closed set and path are empty afterwards and `finished` is false, so a second reset changes nothing. |
| AStarEngine.AStarVisualized.Prepare | src/main.cpp:129-133 | Appends a parentless open node at `start` with costs 0 and closes `start`. |
| AStarEngine.AStarVisualized.Step | src/main.cpp:146-214 | A no-op when finished or the open list is empty. Otherwise it takes the first node of least `f` (`picked`), closes its cell and erases it. It sets `finished` exactly when that node is on `end`, and the path ends there. When not finished it opens each unblocked candidate with the stated costs. The invariant is kept. |
| Search.Found | src/main.cpp:248-256 | The path returned when the goal is dequeued starts at `start`, ends at the goal and is a walk through open cells. |
| Search.SearchStep | src/main.cpp:244-273 | One pass of the loop that misses the goal keeps the loop invariant: no cell twice, every dequeued node expanded and not on `end`. The head of the queue moves one node on. |
| Search.Exhausted | src/main.cpp:244-275 | When the queue runs dry, `end` cannot be reached from `start`. |
| Search.BreadthFirstSearch | src/main.cpp:218-276 | Empty on an empty maze. Otherwise the result is non-empty exactly when `end` is reachable. A non-empty result starts at `start`, ends at `end`, and is a walk through open cells. |

## Left out

- Rendering (`maze_graphic`), the event loop (`main_state`), noise-based maze
  generation (`randomize`), the benchmark `test()` with the library
  `qpl::astar`, `main`, and the console message at the goal: graphics, input,
  randomness, timing and output.
- The commented-out `astar` function is dead code.
- `node::operator==` and `node::operator<` are not used by the searches.
  `maze::get` is plain indexing, written `cells[y][x]` here.
- Fixed-width integers: `g`, `h` and `f` are unbounded, and the squared
  distance is computed without 64-bit overflow. Cell coordinates are unbounded
  naturals too: the program converts them to signed 64-bit integers before
  adding an offset, which would wrap around for a coordinate at or above 2^63.
- AStarEngine.AStarVisualized.Prepare: the start node's costs come from the
  `qpl::astar_node` constructor, whose source is not part of this model. They
  are taken to be `g = h = f = 0`.
- BfsEngine.BfsVisualized.Prepare: requires that `start` is not yet visited.
  AStarEngine.AStarVisualized.Prepare requires that `start` has no node yet.
  `bfs_visualized` has no caller in the program. `astar_visualized::prepare`
  is called on a newly constructed engine (src/main.cpp:484) and right after
  `reset` (src/main.cpp:513-514), and both preconditions hold at both. A
  second `prepare` on the same cell is not modelled.
- BfsEngine.BfsVisualized.Step: does not state that the breadth-first path is
  a shortest one, only that it is a walk. That needs an invariant on the depth
  of the queued nodes (non-decreasing along the queue, first and last at most
  one apart, each node's depth its distance from `start`), which the model does
  not carry.
- Search.BreadthFirstSearch: shortest-path optimality is not stated either, for
  the same reason; soundness and completeness against reachability are.
- The unused parameters of `prepare` (maze, end) and `step` (start) are
  dropped. The diagonal template flag becomes the constructor argument
  `diagonal`, and the fixed `direction` table becomes a constant field.
- Default arguments: `bfs_visualized` and `astar_visualized` default to
  `diagonal = false` and `breadth_first_search` defaults to `diagonal = true`.
  Here `diagonal` is always passed explicitly.
- Every row of a maze is required to be at least as long as row 0
  (`FullRows`). The searches take the width from row 0 and index a cell only
  inside that width, so a shorter row could be indexed out of range; a longer
  row is allowed and its surplus cells are never visited.
- Nodes are never freed. The arena keeps every node created since the last
  reset, where the program lets unreachable nodes go.
