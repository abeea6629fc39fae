/** The resumable breadth-first search, `bfs_visualized`: a FIFO queue of nodes,
    the set of cells already enqueued, and the path to the node dequeued last. */
module BfsEngine {
  import opened Grid
  import opened Arena

  /** One breadth-first expansion of node `current`: for every offset in turn,
      a neighbour inside the grid, not a wall and not yet visited gets a new node
      whose parent is `current`; the node is enqueued and its cell marked visited
      at once. Shared by `bfs_visualized::step` and `breadth_first_search`. */
  method Expand(cells: Cells, dirs: seq<Offset>, arena: seq<Node>, queue: seq<nat>, visited: set<Pos>, current: nat)
    returns (grown: seq<Node>, grownQueue: seq<nat>, grownVisited: set<Pos>)
    requires FullRows(cells) && |cells| > 0 && DistinctOffsets(dirs) && current < |arena|
    ensures Extends(arena, grown, Candidates(cells, visited, arena[current].pos, dirs), current)
    ensures grownQueue == queue + Range(|arena|, |grown|)
    ensures grownVisited == visited + Elems(Candidates(cells, visited, arena[current].pos, dirs))
  {
    var p := arena[current].pos;
    var width, height := |cells[0]|, |cells|;
    grown, grownQueue, grownVisited := arena, queue, visited;
    ghost var kids: seq<Pos> := [];
    for i := 0 to |dirs|
      invariant kids == Candidates(cells, visited, p, dirs[..i])
      invariant Extends(arena, grown, kids, current)
      invariant grownQueue == queue + Range(|arena|, |grown|)
      invariant grownVisited == visited + Elems(kids)
    {
      CandidatesBefore(cells, visited, p, dirs, i);
      var x, y := p.x + dirs[i].dx, p.y + dirs[i].dy;
      CandidatesNext(cells, visited, p, dirs, i, x, y);
      var add := false;
      if 0 <= x < width && 0 <= y < height {
        if cells[y][x] != 1 {
          var found := Pos(x, y) in grownVisited;
          add := !found;
        }
      }
      assert add <==> Open(cells, x, y) && Pos(x, y) !in visited;
      if add {
        var q := Pos(x, y);
        ExtendsPush(arena, grown, kids, current, q);
        ElemsPush(kids, q);
        RangePush(queue, |arena|, |grown|);
        grown := grown + [Node(q, Some(current))];
        grownQueue := grownQueue + [|grown| - 1];
        grownVisited := grownVisited + {q};
        kids := kids + [q];
      }
    }
    assert dirs[..|dirs|] == dirs;
  }

  /** The queue holds the newest nodes in creation order: nodes are created only
      when enqueued, and dequeued from the front. */
  predicate QueueShape(arena: seq<Node>, queue: seq<nat>) {
    |queue| <= |arena| && forall k :: 0 <= k < |queue| ==> queue[k] == |arena| - |queue| + k
  }

  class BfsVisualized {
    /** Whether the four diagonal offsets are tried too. */
    const diagonal: bool
    /** The neighbour offsets, in the order they are tried. */
    const direction: seq<Offset>
    /** Every node created since the last reset; the queue holds indices into it. */
    var arena: seq<Node>
    var queue: seq<nat>
    var visited: set<Pos>
    var path: seq<Pos>

    /** The queue holds the newest nodes in creation order, the visited cells are
        exactly the cells of the nodes, and no two nodes share a cell: no cell is
        ever enqueued twice. */
    ghost predicate Valid()
      reads this
    {
      DistinctOffsets(direction)
      && WellLinked(arena) && Adjacent(arena, direction)
      && QueueShape(arena, queue)
      && visited == NodeCells(arena)
      && DistinctCells(arena)
    }

    constructor (diagonal: bool)
      ensures Valid() && this.diagonal == diagonal && direction == Directions(diagonal)
      ensures arena == [] && queue == [] && visited == {} && path == []
    {
      this.diagonal := diagonal;
      direction := Directions(diagonal);
      arena, queue, visited, path := [], [], {}, [];
    }

    /** `reset`: empties the queue, the visited set and the path. Its outcome
        does not depend on the state before, so a second reset changes nothing. */
    method Reset()
      requires Valid()
      modifies this
      ensures Valid()
      ensures arena == [] && queue == [] && visited == {} && path == []
    {
      arena, queue, visited, path := [], [], {}, [];
    }

    /** `prepare`: enqueues a parentless node at `start` and marks `start`
        visited. It clears nothing, so callers start from an empty engine, either
        new or reset. */
    method Prepare(start: Pos)
      requires Valid() && start !in visited
      modifies this
      ensures Valid()
      ensures arena == old(arena) + [Node(start, None)]
      ensures queue == old(queue) + [|old(arena)|]
      ensures visited == old(visited) + {start}
      ensures path == old(path)
    {
      arena := arena + [Node(start, None)];
      queue := queue + [|arena| - 1];
      visited := visited + {start};
      assert NodeCells(arena) == old(NodeCells(arena)) + {start} by {
        assert arena[|arena| - 1].pos == start;
        assert forall j :: 0 <= j < |arena| - 1 ==> arena[j] == old(arena)[j];
      }
    }

    /** `step`: does nothing on an empty queue. Otherwise it dequeues the front
        node; if that node is on `end` the path becomes the path to it, else the
        node is expanded and the path becomes the path to it. There is no finished
        flag: after the goal has been dequeued further steps keep expanding. */
    method Step(cells: Cells, end: Pos)
      requires Valid() && FullRows(cells) && (queue != [] ==> cells != [])
      modifies this
      ensures Valid()
      ensures old(queue) == [] ==>
                arena == old(arena) && queue == old(queue) && visited == old(visited) && path == old(path)
      ensures old(queue) != [] && old(arena)[old(queue)[0]].pos == end ==>
                arena == old(arena) && queue == old(queue)[1..] && visited == old(visited)
                && path == PathTo(arena, old(queue)[0])
                && |path| > 0 && path[|path| - 1] == end
      ensures old(queue) != [] && old(arena)[old(queue)[0]].pos != end ==>
                Extends(old(arena), arena,
                        Candidates(cells, old(visited), old(arena)[old(queue)[0]].pos, direction),
                        old(queue)[0])
                && queue == old(queue)[1..] + Range(|old(arena)|, |arena|)
                && visited == old(visited)
                              + Elems(Candidates(cells, old(visited), old(arena)[old(queue)[0]].pos, direction))
                && path == PathTo(old(arena), old(queue)[0])
    {
      if queue == [] {
        return;
      }
      var current := queue[0];
      queue := queue[1..];
      var p := arena[current].pos;
      if p == end {
        path := GetPath(arena, current);
        PathShape(arena, current);
        return;
      }
      ghost var kids := Candidates(cells, visited, p, direction);
      ghost var before := arena;
      arena, queue, visited := Expand(cells, direction, arena, queue, visited, current);
      ExtendsLinked(before, arena, kids, current, direction);
      ExtendsCells(before, arena, kids, current);
      CandidatesDistinct(cells, old(visited), p, direction);
      ExtendsDistinct(before, arena, kids, current);
      path := GetPath(arena, current);
      PathPrefix(before, arena, current);
    }
  }
}
