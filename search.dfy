/** The one-shot search, `breadth_first_search`: it runs the breadth-first
    expansion until the goal is dequeued or the queue runs dry, and returns the
    path to the goal or nothing. */
module Search {
  import opened Grid
  import opened Arena
  import opened BfsEngine

  /** Every cell inside the grid. */
  ghost function GridCells(cells: Cells): set<Pos>
    requires |cells| > 0
  {
    set x: nat, y: nat | x < |cells[0]| && y < |cells| :: Pos(x, y)
  }

  /** Every open neighbour of `p` is in `visited`: once a node has been expanded,
      each of its open neighbours has a node. */
  ghost predicate Closed(cells: Cells, dirs: seq<Offset>, visited: set<Pos>, p: Pos)
    requires FullRows(cells)
  {
    forall k :: 0 <= k < |dirs| && Open(cells, p.x + dirs[k].dx, p.y + dirs[k].dy) ==>
      Pos(p.x + dirs[k].dx, p.y + dirs[k].dy) in visited
  }

  /** The first node is the start node and the only one without a parent;
      every other node is on an open cell, one offset from its parent. */
  ghost predicate ArenaShape(cells: Cells, dirs: seq<Offset>, start: Pos, arena: seq<Node>)
    requires FullRows(cells)
  {
    WellLinked(arena) && Adjacent(arena, dirs)
    && |arena| >= 1 && arena[0] == Node(start, None)
    && (forall j :: 1 <= j < |arena| ==> arena[j].parent.Some? && Open(cells, arena[j].pos.x, arena[j].pos.y))
  }

  /** The visited cells are the cells of the nodes, all distinct, each inside the
      grid or the start. */
  ghost predicate CellsShape(cells: Cells, start: Pos, arena: seq<Node>, visited: set<Pos>)
    requires |cells| > 0
  {
    visited == NodeCells(arena) && DistinctCells(arena)
    && |visited| == |arena| && visited <= GridCells(cells) + {start}
  }

  /** The nodes before the queue have been dequeued: none of them is on `end`,
      and each of them has been expanded. */
  ghost predicate Dequeued(cells: Cells, dirs: seq<Offset>, end: Pos, arena: seq<Node>, head: nat, visited: set<Pos>)
    requires FullRows(cells) && head <= |arena|
  {
    forall i :: 0 <= i < head ==> arena[i].pos != end && Closed(cells, dirs, visited, arena[i].pos)
  }

  /** The loop invariant of the search. */
  ghost predicate SearchInv(cells: Cells, dirs: seq<Offset>, start: Pos, end: Pos,
                            arena: seq<Node>, queue: seq<nat>, visited: set<Pos>)
    requires FullRows(cells) && |cells| > 0
  {
    ArenaShape(cells, dirs, start, arena) && CellsShape(cells, start, arena, visited)
    && QueueShape(arena, queue) && Dequeued(cells, dirs, end, arena, |arena| - |queue|, visited)
  }

  /** A cell set without repeats has as many elements as the sequence. */
  lemma {:induction false} ElemsCount(s: seq<Pos>)
    requires NoRepeats(s)
    ensures |Elems(s)| == |s|
  {
    if s != [] {
      var front := s[..|s| - 1];
      assert NoRepeats(front);
      ElemsCount(front);
      assert Elems(s) == Elems(front) + {s[|s| - 1]};
      assert s[|s| - 1] !in Elems(front);
    }
  }

  /** After the expansion of `p`, `p` is closed: each open neighbour of `p` was
      visited before or is one of the new candidates. */
  lemma ExpandCloses(cells: Cells, dirs: seq<Offset>, visited: set<Pos>, p: Pos)
    requires FullRows(cells)
    ensures Closed(cells, dirs, visited + Elems(Candidates(cells, visited, p, dirs)), p)
  {
    forall k | 0 <= k < |dirs| && Open(cells, p.x + dirs[k].dx, p.y + dirs[k].dy)
      ensures Pos(p.x + dirs[k].dx, p.y + dirs[k].dy) in visited + Elems(Candidates(cells, visited, p, dirs))
    {
      if Pos(p.x + dirs[k].dx, p.y + dirs[k].dy) !in visited {
        CandidatesComplete(cells, visited, p, dirs, k);
      }
    }
  }

  /** Appending children of `current` on open cells one offset away keeps the
      shape of the arena. */
  lemma ArenaStep(cells: Cells, dirs: seq<Offset>, start: Pos, arena: seq<Node>, current: nat,
                  kids: seq<Pos>, grown: seq<Node>)
    requires FullRows(cells) && ArenaShape(cells, dirs, start, arena) && current < |arena|
    requires Extends(arena, grown, kids, current)
    requires forall q :: q in kids ==> Open(cells, q.x, q.y) && IsStep(dirs, arena[current].pos, q)
    ensures ArenaShape(cells, dirs, start, grown)
  {
    var n := |arena|;
    ExtendsLinked(arena, grown, kids, current, dirs);
    assert grown[0] == arena[0];
    forall j | 1 <= j < |grown|
      ensures grown[j].parent.Some? && Open(cells, grown[j].pos.x, grown[j].pos.y)
    {
      if j < n {
        assert grown[j] == arena[j];
      } else {
        assert grown[j] == Node(kids[j - n], Some(current));
        assert kids[j - n] in kids;
      }
    }
  }

  /** Appending children on distinct open cells not yet visited, and visiting
      them, keeps the visited cells those of the nodes. */
  lemma CellsStep(cells: Cells, start: Pos, arena: seq<Node>, visited: set<Pos>, current: nat,
                  kids: seq<Pos>, grown: seq<Node>)
    requires FullRows(cells) && |cells| > 0 && CellsShape(cells, start, arena, visited)
    requires Extends(arena, grown, kids, current) && NoRepeats(kids)
    requires forall q :: q in kids ==> Open(cells, q.x, q.y) && q !in visited
    ensures CellsShape(cells, start, grown, visited + Elems(kids))
  {
    ExtendsCells(arena, grown, kids, current);
    ExtendsDistinct(arena, grown, kids, current);
    ElemsCount(kids);
    assert visited * Elems(kids) == {};
    assert forall q :: q in kids ==> q in GridCells(cells);
  }

  /** Dequeuing the front node and enqueuing the new nodes keeps the queue the
      tail of the arena, and moves its head one node on. */
  lemma QueueStep(arena: seq<Node>, queue: seq<nat>, grown: seq<Node>)
    requires QueueShape(arena, queue) && queue != [] && |arena| <= |grown|
    ensures QueueShape(grown, queue[1..] + Range(|arena|, |grown|))
    ensures |grown| - |queue[1..] + Range(|arena|, |grown|)| == |arena| - |queue| + 1
  {
    var grownQueue := queue[1..] + Range(|arena|, |grown|);
    forall k | 0 <= k < |grownQueue| ensures grownQueue[k] == |grown| - |grownQueue| + k {
      if k < |queue| - 1 {
        assert grownQueue[k] == queue[k + 1];
      }
    }
  }

  /** Expanding the front node, which is not on `end`, adds it to the dequeued
      nodes. */
  lemma DequeuedStep(cells: Cells, dirs: seq<Offset>, end: Pos, arena: seq<Node>, head: nat,
                     visited: set<Pos>, grown: seq<Node>)
    requires FullRows(cells) && head < |arena| <= |grown| && grown[..|arena|] == arena
    requires Dequeued(cells, dirs, end, arena, head, visited) && arena[head].pos != end
    ensures Dequeued(cells, dirs, end, grown, head + 1,
                     visited + Elems(Candidates(cells, visited, arena[head].pos, dirs)))
  {
    var grownVisited := visited + Elems(Candidates(cells, visited, arena[head].pos, dirs));
    ExpandCloses(cells, dirs, visited, arena[head].pos);
    forall i | 0 <= i < head + 1
      ensures grown[i].pos != end && Closed(cells, dirs, grownVisited, grown[i].pos)
    {
      assert grown[i] == arena[i];
    }
  }

  /** One pass of the loop that does not find the goal keeps the invariant and
      moves the head of the queue one node on. */
  lemma SearchStep(cells: Cells, dirs: seq<Offset>, start: Pos, end: Pos,
                   arena: seq<Node>, queue: seq<nat>, visited: set<Pos>,
                   grown: seq<Node>, grownQueue: seq<nat>, grownVisited: set<Pos>)
    requires FullRows(cells) && |cells| > 0 && DistinctOffsets(dirs)
    requires SearchInv(cells, dirs, start, end, arena, queue, visited)
    requires queue != [] && arena[queue[0]].pos != end
    requires Extends(arena, grown, Candidates(cells, visited, arena[queue[0]].pos, dirs), queue[0])
    requires grownQueue == queue[1..] + Range(|arena|, |grown|)
    requires grownVisited == visited + Elems(Candidates(cells, visited, arena[queue[0]].pos, dirs))
    ensures SearchInv(cells, dirs, start, end, grown, grownQueue, grownVisited)
    ensures |grown| - |grownQueue| == |arena| - |queue| + 1
  {
    var current := queue[0];
    var kids := Candidates(cells, visited, arena[current].pos, dirs);
    ArenaStep(cells, dirs, start, arena, current, kids, grown);
    CandidatesDistinct(cells, visited, arena[current].pos, dirs);
    CellsStep(cells, start, arena, visited, current, kids, grown);
    QueueStep(arena, queue, grown);
    DequeuedStep(cells, dirs, end, arena, current, visited, grown);
  }

  /** The search begins with the start node alone, queued and visited. */
  lemma SearchStart(cells: Cells, dirs: seq<Offset>, start: Pos, end: Pos)
    requires FullRows(cells) && |cells| > 0
    ensures SearchInv(cells, dirs, start, end, [Node(start, None)], [0], {start})
  {
    var arena := [Node(start, None)];
    assert arena[0].pos == start;
    assert NodeCells(arena) == {start};
  }

  /** Every walk from the start through a set of cells that contains the start
      and is closed under steps to open cells stays inside the set. */
  lemma {:induction false} WalkStaysIn(cells: Cells, dirs: seq<Offset>, visited: set<Pos>, walk: seq<Pos>)
    requires FullRows(cells) && IsWalk(cells, dirs, walk) && walk[0] in visited
    requires forall q :: q in visited ==> Closed(cells, dirs, visited, q)
    ensures walk[|walk| - 1] in visited
    decreases |walk|
  {
    if |walk| > 1 {
      var front := walk[..|walk| - 1];
      forall k | 1 <= k < |front| ensures IsStep(dirs, front[k - 1], front[k]) && Open(cells, front[k].x, front[k].y) {
        assert front[k - 1] == walk[k - 1] && front[k] == walk[k];
      }
      WalkStaysIn(cells, dirs, visited, front);
      var a, b := front[|front| - 1], walk[|walk| - 1];
      assert a == walk[|walk| - 2];
      assert IsStep(dirs, a, b) && Open(cells, b.x, b.y);
      var k :| 0 <= k < |dirs| && b.x == a.x + dirs[k].dx && b.y == a.y + dirs[k].dy;
      assert Closed(cells, dirs, visited, a);
    }
  }

  /** When the queue has run dry, every visited cell has been expanded, and so
      the goal, which no dequeued node was on, cannot be reached. */
  lemma Exhausted(cells: Cells, dirs: seq<Offset>, start: Pos, end: Pos, arena: seq<Node>, visited: set<Pos>)
    requires FullRows(cells) && |cells| > 0
    requires SearchInv(cells, dirs, start, end, arena, [], visited)
    ensures !Reachable(cells, dirs, start, end)
  {
    forall q | q in visited ensures Closed(cells, dirs, visited, q) {
      var i :| 0 <= i < |arena| && arena[i].pos == q;
    }
    assert start == arena[0].pos;
    assert end !in visited;
    forall walk | IsWalk(cells, dirs, walk) && walk[0] == start ensures walk[|walk| - 1] != end {
      WalkStaysIn(cells, dirs, visited, walk);
    }
  }

  /** The path to any node is a walk from the start to that node's cell. */
  lemma Found(cells: Cells, dirs: seq<Offset>, start: Pos, arena: seq<Node>, i: nat)
    requires FullRows(cells) && ArenaShape(cells, dirs, start, arena) && i < |arena|
    ensures PathTo(arena, i)[0] == start && PathTo(arena, i)[|PathTo(arena, i)| - 1] == arena[i].pos
    ensures IsWalk(cells, dirs, PathTo(arena, i))
  {
    PathShape(arena, i);
    PathStart(arena, i, start);
    PathIsWalk(cells, dirs, arena, i);
  }

  /** `breadth_first_search`: on an empty maze the result is empty. Otherwise the
      result is a walk from `start` to `end` through open cells when `end` can be
      reached from `start`, and empty when it cannot. */
  method BreadthFirstSearch(cells: Cells, start: Pos, end: Pos, diagonal: bool) returns (path: seq<Pos>)
    requires FullRows(cells)
    ensures cells == [] ==> path == []
    ensures path != [] ==>
              path[0] == start && path[|path| - 1] == end && IsWalk(cells, Directions(diagonal), path)
    ensures cells != [] ==> (path != [] <==> Reachable(cells, Directions(diagonal), start, end))
  {
    if cells == [] {
      return [];
    }
    var dirs := Directions(diagonal);
    var arena := [Node(start, None)];
    var queue: seq<nat> := [0];
    var visited := {start};
    SearchStart(cells, dirs, start, end);
    while queue != []
      invariant SearchInv(cells, dirs, start, end, arena, queue, visited)
      decreases |GridCells(cells) + {start}| - |arena| + |queue|
    {
      assert |arena| <= |GridCells(cells) + {start}| by {
        var universe := GridCells(cells) + {start};
        assert universe == visited + (universe - visited);
      }
      var current := queue[0];
      if arena[current].pos == end {
        path := GetPath(arena, current);
        Found(cells, dirs, start, arena, current);
        return;
      }
      var grown, grownQueue, grownVisited := Expand(cells, dirs, arena, queue[1..], visited, current);
      SearchStep(cells, dirs, start, end, arena, queue, visited, grown, grownQueue, grownVisited);
      arena, queue, visited := grown, grownQueue, grownVisited;
    }
    Exhausted(cells, dirs, start, end, arena, visited);
    return [];
  }
}
