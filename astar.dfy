/** The resumable best-first search, `astar_visualized`: an unordered open list
    of nodes ranked by f = g + h, a closed set of cells, the path to the node
    expanded last and a finished flag. */
module AStarEngine {
  import opened Grid
  import opened Arena

  /** The costs of a node: `g` steps from the start, the heuristic `h` and their
      sum `f`. */
  datatype Cost = Cost(g: nat, h: nat, f: nat)

  /** `k` is the first index of a minimum of `fs`. */
  predicate IsFirstMin(fs: seq<int>, k: nat) {
    k < |fs|
    && (forall j :: 0 <= j < |fs| ==> fs[k] <= fs[j])
    && (forall j :: 0 <= j < k ==> fs[k] < fs[j])
  }

  /** A sequence has one first minimum. */
  lemma FirstMinUnique(fs: seq<int>, a: nat, b: nat)
    requires IsFirstMin(fs, a) && IsFirstMin(fs, b)
    ensures a == b
  {
    assert fs[a] == fs[b];
  }

  /** The `f` values of the open nodes, in open-list order. */
  function OpenF(costs: seq<Cost>, open: seq<nat>): (fs: seq<int>)
    ensures |fs| == |open|
  {
    seq(|open|, k requires 0 <= k < |open| => if open[k] < |costs| then costs[open[k]].f else 0)
  }

  /** The cells of the open nodes. */
  function OpenCells(arena: seq<Node>, open: seq<nat>): set<Pos> {
    set k | 0 <= k < |open| && open[k] < |arena| :: arena[open[k]].pos
  }

  /** `s` without its element at index `k`, as `erase` leaves a vector. */
  function Without(s: seq<nat>, k: nat): (r: seq<nat>)
    requires k < |s|
    ensures |r| == |s| - 1
    ensures forall j :: 0 <= j < |r| ==> r[j] == if j < k then s[j] else s[j + 1]
  {
    s[..k] + s[k + 1..]
  }

  /** The scan of `step` for the node to expand: it keeps the first node seen
      whose `f` is smaller than that of every node before it, so it finds the
      first node of minimal `f`. */
  method SelectFirstMin(costs: seq<Cost>, open: seq<nat>) returns (index: nat)
    requires |open| > 0
    requires forall k :: 0 <= k < |open| ==> open[k] < |costs|
    ensures IsFirstMin(OpenF(costs, open), index)
  {
    var best := open[0];
    index := 0;
    var ctr := 0;
    while ctr < |open|
      invariant 0 <= ctr <= |open|
      invariant index < |open| && best == open[index]
      invariant index < ctr || index == 0
      invariant forall j :: 0 <= j < ctr ==> costs[best].f <= costs[open[j]].f
      invariant forall j :: 0 <= j < index ==> costs[best].f < costs[open[j]].f
    {
      if costs[open[ctr]].f < costs[best].f {
        best := open[ctr];
        index := ctr;
      }
      ctr := ctr + 1;
    }
  }

  /** The scan of `step` that asks whether a cell already has an open node. */
  method InOpen(arena: seq<Node>, open: seq<nat>, q: Pos) returns (found: bool)
    requires forall k :: 0 <= k < |open| ==> open[k] < |arena|
    ensures found <==> q in OpenCells(arena, open)
  {
    found := false;
    for k := 0 to |open|
      invariant !found
      invariant forall j :: 0 <= j < k ==> arena[open[j]].pos != q
    {
      if arena[open[k]].pos == q {
        found := true;
        return;
      }
    }
  }

  /** Removing the open node at index `k` removes exactly its cell from the open
      cells, when no two open nodes share a cell. */
  lemma {:induction false} OpenCellsWithout(arena: seq<Node>, open: seq<nat>, k: nat)
    requires k < |open| && forall j :: 0 <= j < |open| ==> open[j] < |arena|
    requires forall i, j :: 0 <= i < j < |open| ==> arena[open[i]].pos != arena[open[j]].pos
    ensures OpenCells(arena, Without(open, k)) == OpenCells(arena, open) - {arena[open[k]].pos}
  {
    var rest := Without(open, k);
    forall q | q in OpenCells(arena, rest) ensures q in OpenCells(arena, open) - {arena[open[k]].pos} {
      var j :| 0 <= j < |rest| && rest[j] < |arena| && arena[rest[j]].pos == q;
      if j < k {
        assert rest[j] == open[j];
      } else {
        assert rest[j] == open[j + 1];
      }
    }
    forall q | q in OpenCells(arena, open) - {arena[open[k]].pos} ensures q in OpenCells(arena, rest) {
      var j :| 0 <= j < |open| && open[j] < |arena| && arena[open[j]].pos == q;
      if j < k {
        assert rest[j] == open[j];
      } else {
        assert rest[j - 1] == open[j];
      }
    }
  }

  /** Appending the new nodes to the open list adds their cells to the open
      cells. */
  lemma {:induction false} OpenCellsGrow(arena: seq<Node>, grown: seq<Node>, kids: seq<Pos>, current: nat, open: seq<nat>)
    requires Extends(arena, grown, kids, current)
    requires forall j :: 0 <= j < |open| ==> open[j] < |arena|
    ensures OpenCells(grown, open + Range(|arena|, |grown|)) == OpenCells(arena, open) + Elems(kids)
  {
    var n := |arena|;
    var all := open + Range(n, |grown|);
    assert forall j :: 0 <= j < n ==> grown[j] == arena[j];
    forall q | q in OpenCells(grown, all) ensures q in OpenCells(arena, open) + Elems(kids) {
      var j :| 0 <= j < |all| && all[j] < |grown| && grown[all[j]].pos == q;
      if j < |open| {
        assert all[j] == open[j];
      } else {
        assert all[j] == n + (j - |open|);
        assert grown[all[j]] == Node(kids[j - |open|], Some(current));
      }
    }
    forall q | q in OpenCells(arena, open) + Elems(kids) ensures q in OpenCells(grown, all) {
      if q in OpenCells(arena, open) {
        var j :| 0 <= j < |open| && open[j] < |arena| && arena[open[j]].pos == q;
        assert all[j] == open[j];
      } else {
        var c :| 0 <= c < |kids| && kids[c] == q;
        assert all[|open| + c] == n + c;
        assert grown[n + c].pos == q;
      }
    }
  }

  /** The invariant of the A* state: every node has `f = g + h` and `g` equal to
      the number of steps on its parent chain; the open list holds distinct
      nodes; no two nodes share a cell; and every node is open or closed: the
      cells of the nodes are the closed cells and the open cells together. */
  ghost predicate Consistent(dirs: seq<Offset>, arena: seq<Node>, costs: seq<Cost>, open: seq<nat>, visited: set<Pos>) {
    WellLinked(arena) && Adjacent(arena, dirs)
    && |costs| == |arena|
    && (forall i :: 0 <= i < |arena| ==> costs[i].f == costs[i].g + costs[i].h)
    && (forall i :: 0 <= i < |arena| ==> costs[i].g == |PathTo(arena, i)| - 1)
    && (forall k :: 0 <= k < |open| ==> open[k] < |arena|)
    && (forall k, l :: 0 <= k < l < |open| ==> open[k] != open[l])
    && DistinctCells(arena)
    && NodeCells(arena) == visited + OpenCells(arena, open)
  }

  /** Under the invariant no two open nodes share a cell. */
  lemma OpenCellsDistinct(dirs: seq<Offset>, arena: seq<Node>, costs: seq<Cost>, open: seq<nat>, visited: set<Pos>)
    requires Consistent(dirs, arena, costs, open, visited)
    ensures forall k, l :: 0 <= k < l < |open| ==> arena[open[k]].pos != arena[open[l]].pos
  {
    forall k, l | 0 <= k < l < |open| ensures arena[open[k]].pos != arena[open[l]].pos {
      if open[k] < open[l] {
        assert arena[open[k]].pos != arena[open[l]].pos;
      } else {
        assert arena[open[l]].pos != arena[open[k]].pos;
      }
    }
  }

  /** Appending a node to the arena and the open list adds its cell to the
      open cells. */
  lemma {:induction false} OpenCellsPush(arena: seq<Node>, node: Node, open: seq<nat>)
    requires forall k :: 0 <= k < |open| ==> open[k] < |arena|
    ensures OpenCells(arena + [node], open + [|arena|]) == OpenCells(arena, open) + {node.pos}
  {
    var n := |arena|;
    var grown, grownOpen := arena + [node], open + [n];
    assert forall j :: 0 <= j < n ==> grown[j] == arena[j];
    assert grownOpen[|open|] == n && grown[n] == node;
    forall q | q in OpenCells(grown, grownOpen) ensures q in OpenCells(arena, open) + {node.pos} {
      var k :| 0 <= k < |grownOpen| && grownOpen[k] < |grown| && grown[grownOpen[k]].pos == q;
      if k < |open| {
        assert grownOpen[k] == open[k];
      }
    }
    forall q | q in OpenCells(arena, open) ensures q in OpenCells(grown, grownOpen) {
      var k :| 0 <= k < |open| && open[k] < n && arena[open[k]].pos == q;
      assert grownOpen[k] == open[k];
    }
  }

  /** Appending a parentless node keeps the arena well linked and adjacent, and
      changes no path to an existing node. */
  lemma {:induction false} RootLinked(dirs: seq<Offset>, arena: seq<Node>, start: Pos)
    requires WellLinked(arena) && Adjacent(arena, dirs)
    ensures WellLinked(arena + [Node(start, None)]) && Adjacent(arena + [Node(start, None)], dirs)
    ensures forall i :: 0 <= i < |arena| ==> PathTo(arena + [Node(start, None)], i) == PathTo(arena, i)
    ensures PathTo(arena + [Node(start, None)], |arena|) == [start]
  {
    var grown := arena + [Node(start, None)];
    assert forall j :: 0 <= j < |arena| ==> grown[j] == arena[j];
    assert WellLinked(grown);
    forall i | 0 <= i < |arena| ensures PathTo(grown, i) == PathTo(arena, i) {
      PathPrefix(arena, grown, i);
    }
  }

  /** Appending a node on a cell that has no node yet adds that cell and keeps
      the cells distinct. */
  lemma RootCells(arena: seq<Node>, start: Pos)
    requires DistinctCells(arena) && start !in NodeCells(arena)
    ensures NodeCells(arena + [Node(start, None)]) == NodeCells(arena) + {start}
    ensures DistinctCells(arena + [Node(start, None)])
  {
    var n, grown := |arena|, arena + [Node(start, None)];
    assert forall j :: 0 <= j < n ==> grown[j] == arena[j];
    assert grown[n].pos == start;
    assert forall j :: 0 <= j < n ==> arena[j].pos in NodeCells(arena);
  }

  /** Adding a parentless node with costs 0 on a cell that has no node yet, as
      open and with its cell closed, keeps the invariant. */
  lemma {:induction false} RootKeeps(dirs: seq<Offset>, arena: seq<Node>, costs: seq<Cost>, open: seq<nat>,
                                     visited: set<Pos>, start: Pos)
    requires Consistent(dirs, arena, costs, open, visited) && start !in NodeCells(arena)
    ensures Consistent(dirs, arena + [Node(start, None)], costs + [Cost(0, 0, 0)], open + [|arena|], visited + {start})
  {
    var n := |arena|;
    var grown, grownCosts, grownOpen := arena + [Node(start, None)], costs + [Cost(0, 0, 0)], open + [n];
    RootLinked(dirs, arena, start);
    forall i | 0 <= i < |grown| ensures grownCosts[i].g == |PathTo(grown, i)| - 1 {
      if i < n {
        assert grownCosts[i] == costs[i];
      }
    }
    assert forall i :: 0 <= i < |grown| ==> grownCosts[i].f == grownCosts[i].g + grownCosts[i].h;
    assert forall k, l :: 0 <= k < l < |grownOpen| ==> grownOpen[k] != grownOpen[l];
    RootCells(arena, start);
    OpenCellsPush(arena, Node(start, None), open);
  }

  /** Removing an element keeps the elements of a list of distinct indices
      distinct. */
  lemma WithoutDistinct(open: seq<nat>, index: nat)
    requires index < |open| && forall k, l :: 0 <= k < l < |open| ==> open[k] != open[l]
    ensures forall k, l :: 0 <= k < l < |Without(open, index)| ==> Without(open, index)[k] != Without(open, index)[l]
  {
    var rest := Without(open, index);
    forall k, l | 0 <= k < l < |rest| ensures rest[k] != rest[l] {
      var k', l' := if k < index then k else k + 1, if l < index then l else l + 1;
      assert rest[k] == open[k'] && rest[l] == open[l'] && k' < l';
    }
  }

  /** Taking the open node at `index` out of the open list and closing its cell
      keeps the invariant. */
  lemma {:induction false} PopKeeps(dirs: seq<Offset>, arena: seq<Node>, costs: seq<Cost>, open: seq<nat>,
                                    visited: set<Pos>, index: nat)
    requires Consistent(dirs, arena, costs, open, visited) && index < |open|
    ensures Consistent(dirs, arena, costs, Without(open, index), visited + {arena[open[index]].pos})
  {
    OpenCellsDistinct(dirs, arena, costs, open, visited);
    OpenCellsWithout(arena, open, index);
    var p := arena[open[index]].pos;
    assert p in OpenCells(arena, open);
    WithoutDistinct(open, index);
    assert NodeCells(arena) == (visited + {p}) + OpenCells(arena, Without(open, index));
  }

  /** Appending children of `current` whose `g` is one more than `current`'s
      keeps every `g` the length of the node's parent chain less one. */
  lemma {:induction false} ExpandCosts(arena: seq<Node>, costs: seq<Cost>, current: nat, kids: seq<Pos>,
                                       grown: seq<Node>, grownCosts: seq<Cost>)
    requires WellLinked(arena) && WellLinked(grown) && |costs| == |arena| && current < |arena|
    requires forall i :: 0 <= i < |arena| ==> costs[i].g == |PathTo(arena, i)| - 1
    requires Extends(arena, grown, kids, current)
    requires |grownCosts| == |grown| && grownCosts[..|arena|] == costs
    requires forall n :: |arena| <= n < |grown| ==> grownCosts[n].g == costs[current].g + 1
    ensures forall i :: 0 <= i < |grown| ==> grownCosts[i].g == |PathTo(grown, i)| - 1
  {
    var n := |arena|;
    assert forall j :: 0 <= j < n ==> grownCosts[j] == costs[j];
    PathPrefix(arena, grown, current);
    forall i | 0 <= i < |grown| ensures grownCosts[i].g == |PathTo(grown, i)| - 1 {
      if i < n {
        PathPrefix(arena, grown, i);
      } else {
        assert grown[i] == Node(kids[i - n], Some(current));
        assert PathTo(grown, i) == PathTo(grown, current) + [kids[i - n]];
      }
    }
  }

  /** Appending one child of `current` per kid keeps the invariant when the kids
      are distinct cells, none closed or open, each one offset from `current`'s
      cell, and each new node's `g` is one more than `current`'s. */
  lemma {:induction false} ExpandKeeps(dirs: seq<Offset>, arena: seq<Node>, costs: seq<Cost>, open: seq<nat>,
                                       visited: set<Pos>, current: nat, kids: seq<Pos>,
                                       grown: seq<Node>, grownCosts: seq<Cost>)
    requires Consistent(dirs, arena, costs, open, visited) && current < |arena|
    requires Extends(arena, grown, kids, current)
    requires NoRepeats(kids)
    requires forall q :: q in kids ==> q !in visited + OpenCells(arena, open) && IsStep(dirs, arena[current].pos, q)
    requires |grownCosts| == |grown| && grownCosts[..|arena|] == costs
    requires forall n :: |arena| <= n < |grown| ==>
               grownCosts[n].g == costs[current].g + 1 && grownCosts[n].f == grownCosts[n].g + grownCosts[n].h
    ensures Consistent(dirs, grown, grownCosts, open + Range(|arena|, |grown|), visited)
  {
    var n := |arena|;
    ExtendsLinked(arena, grown, kids, current, dirs);
    ExtendsCells(arena, grown, kids, current);
    ExtendsDistinct(arena, grown, kids, current);
    OpenCellsGrow(arena, grown, kids, current, open);
    ExpandCosts(arena, costs, current, kids, grown, grownCosts);
    assert forall j :: 0 <= j < n ==> grownCosts[j] == costs[j];
    var all := open + Range(n, |grown|);
    forall k, l | 0 <= k < l < |all| ensures all[k] != all[l] {
      if l >= |open| {
        assert all[l] == n + (l - |open|);
        if k < |open| {
          assert all[k] == open[k];
        }
      }
    }
  }

  /** The first half of the expansion of node `current` in `step`: every
      neighbour inside the grid, not a wall, not closed and without an open node
      becomes a child, in offset order. The children are not checked against
      each other. */
  method Children(cells: Cells, dirs: seq<Offset>, arena: seq<Node>, open: seq<nat>, visited: set<Pos>, p: Pos)
    returns (children: seq<Pos>)
    requires FullRows(cells) && |cells| > 0
    requires forall k :: 0 <= k < |open| ==> open[k] < |arena|
    ensures children == Candidates(cells, visited + OpenCells(arena, open), p, dirs)
  {
    var width, height := |cells[0]|, |cells|;
    ghost var blocked := visited + OpenCells(arena, open);
    children := [];
    for i := 0 to |dirs|
      invariant children == Candidates(cells, blocked, p, dirs[..i])
    {
      var x, y := p.x + dirs[i].dx, p.y + dirs[i].dy;
      CandidatesNext(cells, blocked, p, dirs, i, x, y);
      if 0 <= x < width && 0 <= y < height {
        if cells[y][x] != 1 {
          var q := Pos(x, y);
          var found := q in visited;
          var queueFound := InOpen(arena, open, q);
          if !found && !queueFound {
            children := children + [q];
          }
        }
      }
    }
    assert dirs[..|dirs|] == dirs;
  }

  /** The second half of the expansion: each child gets a node whose parent is
      `current`, with `g = current.g + 1`, `h` its squared distance to `end` and
      `f = g + h`, and is appended to the open list. */
  method Adopt(children: seq<Pos>, arena: seq<Node>, costs: seq<Cost>, open: seq<nat>, current: nat, end: Pos)
    returns (grown: seq<Node>, grownCosts: seq<Cost>, grownOpen: seq<nat>)
    requires current < |arena| && |costs| == |arena|
    ensures Extends(arena, grown, children, current)
    ensures |grownCosts| == |grown| && grownCosts[..|arena|] == costs
    ensures forall n :: |arena| <= n < |grown| ==>
              grownCosts[n].g == costs[current].g + 1
              && grownCosts[n].h == SquaredDistance(grown[n].pos, end)
              && grownCosts[n].f == grownCosts[n].g + grownCosts[n].h
    ensures grownOpen == open + Range(|arena|, |grown|)
  {
    grown, grownCosts, grownOpen := arena, costs, open;
    for c := 0 to |children|
      invariant Extends(arena, grown, children[..c], current)
      invariant |grownCosts| == |grown| && grownCosts[..|arena|] == costs
      invariant forall n :: |arena| <= n < |grown| ==>
                  grownCosts[n].g == costs[current].g + 1
                  && grownCosts[n].h == SquaredDistance(grown[n].pos, end)
                  && grownCosts[n].f == grownCosts[n].g + grownCosts[n].h
      invariant grownOpen == open + Range(|arena|, |grown|)
    {
      var q := children[c];
      var dx, dy := q.x - end.x, q.y - end.y;
      var g := costs[current].g + 1;
      var h := dx * dx + dy * dy;
      assert children[..c + 1] == children[..c] + [q];
      ExtendsPush(arena, grown, children[..c], current, q);
      grown := grown + [Node(q, Some(current))];
      grownCosts := grownCosts + [Cost(g, h, g + h)];
      grownOpen := grownOpen + [|grown| - 1];
    }
    assert children[..|children|] == children;
  }

  /** What one expanding step does to the A* state: it takes the first open
      node of minimal `f` (at `picked` in the open list, arena index `current`)
      out of the open list and closes its cell; the path becomes the path to that
      node; the search is finished exactly when the node is on `end`. Unless
      finished, every neighbour inside the grid, not a wall, not closed and not
      open gets a child node with `g` one more than its parent's, `h` its squared
      distance to `end` and `f = g + h`, appended to the open list. */
  ghost predicate Stepped(cells: Cells, dirs: seq<Offset>, end: Pos,
                          arena: seq<Node>, costs: seq<Cost>, open: seq<nat>, visited: set<Pos>,
                          arena': seq<Node>, costs': seq<Cost>, open': seq<nat>, visited': set<Pos>,
                          path': seq<Pos>, finished': bool, picked: nat, current: nat)
  {
    FullRows(cells) && WellLinked(arena) && |costs| == |arena|
    && IsFirstMin(OpenF(costs, open), picked) && current == open[picked] && current < |arena|
    && visited' == visited + {arena[current].pos}
    && finished' == (arena[current].pos == end)
    && path' == PathTo(arena, current)
    && |path'| > 0 && path'[|path'| - 1] == arena[current].pos
    && (finished' ==> arena' == arena && costs' == costs && open' == Without(open, picked))
    && (!finished' ==>
          Extends(arena, arena',
                  Candidates(cells, visited' + OpenCells(arena, Without(open, picked)), arena[current].pos, dirs),
                  current)
          && open' == Without(open, picked) + Range(|arena|, |arena'|)
          && |costs'| == |arena'| && costs'[..|arena|] == costs
          && (forall c :: |arena| <= c < |arena'| ==>
                costs'[c].g == costs[current].g + 1
                && costs'[c].h == SquaredDistance(arena'[c].pos, end)
                && costs'[c].f == costs'[c].g + costs'[c].h))
  }

  /** The work of one `step` on a search that is neither finished nor out of
      open nodes. It keeps the invariant. */
  method Advance(cells: Cells, dirs: seq<Offset>, end: Pos,
                 arena: seq<Node>, costs: seq<Cost>, open: seq<nat>, visited: set<Pos>)
    returns (arena': seq<Node>, costs': seq<Cost>, open': seq<nat>, visited': set<Pos>,
             path': seq<Pos>, finished': bool, picked: nat, current: nat)
    requires Consistent(dirs, arena, costs, open, visited) && DistinctOffsets(dirs)
    requires FullRows(cells) && cells != [] && open != []
    ensures Consistent(dirs, arena', costs', open', visited')
    ensures Stepped(cells, dirs, end, arena, costs, open, visited,
                    arena', costs', open', visited', path', finished', picked, current)
  {
    picked := SelectFirstMin(costs, open);
    current := open[picked];
    var p := arena[current].pos;
    PopKeeps(dirs, arena, costs, open, visited, picked);
    visited' := visited + {p};
    var rest := Without(open, picked);
    PathShape(arena, current);
    path' := GetPath(arena, current);
    if p == end {
      finished' := true;
      arena', costs', open' := arena, costs, rest;
      return;
    }
    finished' := false;
    var children := Children(cells, dirs, arena, rest, visited', p);
    arena', costs', open' := Adopt(children, arena, costs, rest, current, end);
    CandidatesDistinct(cells, visited' + OpenCells(arena, rest), p, dirs);
    ExpandKeeps(dirs, arena, costs, rest, visited', current, children, arena', costs');
  }

  class AStarVisualized {
    /** Whether the four diagonal offsets are tried too. */
    const diagonal: bool
    /** The neighbour offsets, in the order they are tried. */
    const direction: seq<Offset>
    /** Every node created since the last reset, and its costs at the same index. */
    var arena: seq<Node>
    var costs: seq<Cost>
    /** The open list (the program's `queue`): indices into the arena, unordered. */
    var open: seq<nat>
    /** The closed set. */
    var visited: set<Pos>
    var path: seq<Pos>
    var finished: bool
    /** The position in the open list and the arena index of the node the last
        expanding step took. */
    ghost var picked: nat
    ghost var current: nat

    ghost predicate Valid()
      reads this`arena, this`costs, this`open, this`visited
    {
      DistinctOffsets(direction) && Consistent(direction, arena, costs, open, visited)
    }

    constructor (diagonal: bool)
      ensures Valid() && this.diagonal == diagonal && direction == Directions(diagonal)
      ensures arena == [] && costs == [] && open == [] && visited == {} && path == [] && !finished
    {
      this.diagonal := diagonal;
      direction := Directions(diagonal);
      arena, costs, open, visited, path, finished := [], [], [], {}, [], false;
    }

    /** `reset`: empties the open list, the closed set and the path and clears
        `finished`. Its outcome does not depend on the state before, so a second
        reset changes nothing. */
    method Reset()
      requires Valid()
      modifies this
      ensures Valid()
      ensures arena == [] && costs == [] && open == [] && visited == {} && path == [] && !finished
    {
      arena, costs, open, visited, path, finished := [], [], [], {}, [], false;
    }

    /** `prepare`: appends a parentless node at `start` to the open list and
        closes `start`. The start node's costs are those of a default-constructed
        node, taken to be 0. It clears nothing, so callers start from an empty
        engine, either new or reset. */
    method Prepare(start: Pos)
      requires Valid() && start !in NodeCells(arena)
      modifies this
      ensures Valid()
      ensures arena == old(arena) + [Node(start, None)] && costs == old(costs) + [Cost(0, 0, 0)]
      ensures open == old(open) + [|old(arena)|]
      ensures visited == old(visited) + {start}
      ensures path == old(path) && finished == old(finished)
    {
      RootKeeps(direction, arena, costs, open, visited, start);
      open := open + [|arena|];
      arena := arena + [Node(start, None)];
      costs := costs + [Cost(0, 0, 0)];
      visited := visited + {start};
    }

    /** `step`: does nothing once finished or on an empty open list; otherwise
        it takes one node out of the open list, as `Advance` describes. */
    method Step(cells: Cells, end: Pos)
      requires Valid() && FullRows(cells) && (!finished && open != [] ==> cells != [])
      modifies this
      ensures Valid()
      ensures old(finished) || old(open) == [] ==>
                arena == old(arena) && costs == old(costs) && open == old(open)
                && visited == old(visited) && path == old(path) && finished == old(finished)
      ensures !old(finished) && old(open) != [] ==>
                Stepped(cells, direction, end, old(arena), old(costs), old(open), old(visited),
                        arena, costs, open, visited, path, finished, picked, current)
    {
      if finished || open == [] {
        return;
      }
      var arena', costs', open', visited', path', finished', picked', current' :=
        Advance(cells, direction, end, arena, costs, open, visited);
      Store(arena', costs', open', visited', path', finished', picked', current');
    }

    /** Replaces the whole state by the outcome of a step. */
    method Store(arena': seq<Node>, costs': seq<Cost>, open': seq<nat>, visited': set<Pos>,
                 path': seq<Pos>, finished': bool, picked': nat, current': nat)
      requires DistinctOffsets(direction) && Consistent(direction, arena', costs', open', visited')
      modifies this
      ensures Valid()
      ensures arena == arena' && costs == costs' && open == open' && visited == visited'
      ensures path == path' && finished == finished' && picked == picked' && current == current'
    {
      arena, costs, open, visited, path, finished, picked, current :=
        arena', costs', open', visited', path', finished', picked', current';
    }
  }
}
