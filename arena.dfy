/** Search nodes and path reconstruction. The program links every node to the
    node whose expansion created it through a `shared_ptr`. Here every node an
    engine creates lives in one sequence, the arena, in creation order, and a
    node's parent is an index into that sequence. */
module Arena {
  import opened Grid

  datatype Option<T> = None | Some(value: T)

  /** A search node: its cell and, except for a start node, its parent. */
  datatype Node = Node(pos: Pos, parent: Option<nat>)

  /** Every parent was created before its child, so walking parent links ends. */
  predicate WellLinked(arena: seq<Node>) {
    forall i :: 0 <= i < |arena| && arena[i].parent.Some? ==> arena[i].parent.value < i
  }

  /** Every node lies one offset of `dirs` away from its parent. */
  ghost predicate Adjacent(arena: seq<Node>, dirs: seq<Offset>)
    requires WellLinked(arena)
  {
    forall i :: 0 <= i < |arena| && arena[i].parent.Some? ==>
      IsStep(dirs, arena[arena[i].parent.value].pos, arena[i].pos)
  }

  /** The cells of all nodes. */
  function NodeCells(arena: seq<Node>): set<Pos> {
    set i | 0 <= i < |arena| :: arena[i].pos
  }

  /** No two nodes share a cell. */
  predicate DistinctCells(arena: seq<Node>) {
    forall i, j :: 0 <= i < j < |arena| ==> arena[i].pos != arena[j].pos
  }

  /** `grown` is `arena` followed by one new child of `parent` per cell of `kids`,
      in order. */
  predicate Extends(arena: seq<Node>, grown: seq<Node>, kids: seq<Pos>, parent: nat) {
    |grown| == |arena| + |kids| && grown[..|arena|] == arena &&
    forall c :: 0 <= c < |kids| ==> grown[|arena| + c] == Node(kids[c], Some(parent))
  }

  /** Appending one more child keeps `grown` an extension by one more kid. */
  lemma ExtendsPush(arena: seq<Node>, grown: seq<Node>, kids: seq<Pos>, parent: nat, q: Pos)
    requires Extends(arena, grown, kids, parent)
    ensures Extends(arena, grown + [Node(q, Some(parent))], kids + [q], parent)
  {
    var grown', kids' := grown + [Node(q, Some(parent))], kids + [q];
    assert grown'[..|arena|] == grown[..|arena|];
    forall c | 0 <= c < |kids'| ensures grown'[|arena| + c] == Node(kids'[c], Some(parent)) {
      if c < |kids| {
        assert grown'[|arena| + c] == grown[|arena| + c] && kids'[c] == kids[c];
      }
    }
  }

  /** The indices `lo`, `lo + 1`, ..., `hi - 1`. */
  function Range(lo: nat, hi: nat): (r: seq<nat>)
    requires lo <= hi
    ensures |r| == hi - lo
    ensures forall k :: 0 <= k < |r| ==> r[k] == lo + k
  {
    seq(hi - lo, k requires 0 <= k < hi - lo => lo + k)
  }

  /** The cells from the start of `i`'s parent chain to `i` itself. */
  function PathTo(arena: seq<Node>, i: nat): seq<Pos>
    requires WellLinked(arena) && i < |arena|
    decreases i
  {
    match arena[i].parent
    case None => [arena[i].pos]
    case Some(j) => PathTo(arena, j) + [arena[i].pos]
  }

  /** The indices of the nodes on `i`'s parent chain, oldest first. */
  function Chain(arena: seq<Node>, i: nat): (chain: seq<nat>)
    requires WellLinked(arena) && i < |arena|
    ensures forall k :: 0 <= k < |chain| ==> chain[k] <= i
    decreases i
  {
    match arena[i].parent
    case None => [i]
    case Some(j) => Chain(arena, j) + [i]
  }

  /** The shape of a reconstructed path: it is as long as the parent chain, its
      k-th cell is the cell of the chain's k-th node, the chain starts at a node
      without a parent and ends at `i`, and each node of the chain is the parent
      of the next. */
  lemma {:induction false} PathShape(arena: seq<Node>, i: nat)
    requires WellLinked(arena) && i < |arena|
    ensures |PathTo(arena, i)| == |Chain(arena, i)| >= 1
    ensures Chain(arena, i)[|Chain(arena, i)| - 1] == i
    ensures arena[Chain(arena, i)[0]].parent.None?
    ensures forall k :: 0 <= k < |Chain(arena, i)| ==> PathTo(arena, i)[k] == arena[Chain(arena, i)[k]].pos
    ensures forall k :: 1 <= k < |Chain(arena, i)| ==>
              arena[Chain(arena, i)[k]].parent == Some(Chain(arena, i)[k - 1])
    ensures PathTo(arena, i)[|PathTo(arena, i)| - 1] == arena[i].pos
    decreases i
  {
    match arena[i].parent
    case None =>
    case Some(j) =>
      PathShape(arena, j);
      var chain, path := Chain(arena, i), PathTo(arena, i);
      assert chain == Chain(arena, j) + [i] && path == PathTo(arena, j) + [arena[i].pos];
      forall k | 0 <= k < |chain| ensures path[k] == arena[chain[k]].pos {
        if k < |chain| - 1 {
          assert path[k] == PathTo(arena, j)[k] && chain[k] == Chain(arena, j)[k];
        }
      }
      forall k | 1 <= k < |chain| ensures arena[chain[k]].parent == Some(chain[k - 1]) {
        if k < |chain| - 1 {
          assert chain[k] == Chain(arena, j)[k] && chain[k - 1] == Chain(arena, j)[k - 1];
        }
      }
  }

  /** Consecutive cells of a reconstructed path are one offset of `dirs` apart. */
  lemma {:induction false} PathSteps(arena: seq<Node>, dirs: seq<Offset>, i: nat)
    requires WellLinked(arena) && Adjacent(arena, dirs) && i < |arena|
    ensures forall k :: 1 <= k < |PathTo(arena, i)| ==>
              IsStep(dirs, PathTo(arena, i)[k - 1], PathTo(arena, i)[k])
    decreases i
  {
    match arena[i].parent
    case None =>
    case Some(j) =>
      PathSteps(arena, dirs, j);
      PathShape(arena, j);
      var path, front := PathTo(arena, i), PathTo(arena, j);
      forall k | 1 <= k < |path| ensures IsStep(dirs, path[k - 1], path[k]) {
        if k < |path| - 1 {
          assert path[k - 1] == front[k - 1] && path[k] == front[k];
        } else {
          assert path[k - 1] == arena[j].pos && path[k] == arena[i].pos;
        }
      }
  }

  /** A reconstructed path starts at the cell of a parentless node: when all of
      them sit on `root`, it starts at `root`. */
  lemma {:induction false} PathStart(arena: seq<Node>, i: nat, root: Pos)
    requires WellLinked(arena) && i < |arena|
    requires forall j :: 0 <= j < |arena| && arena[j].parent.None? ==> arena[j].pos == root
    ensures PathTo(arena, i)[0] == root
    decreases i
  {
    match arena[i].parent
    case None =>
    case Some(j) =>
      PathStart(arena, j, root);
  }

  /** When every node with a parent sits on an open cell and next to its parent,
      a reconstructed path is a walk through the maze. */
  lemma {:induction false} PathIsWalk(cells: Cells, dirs: seq<Offset>, arena: seq<Node>, i: nat)
    requires FullRows(cells) && WellLinked(arena) && Adjacent(arena, dirs) && i < |arena|
    requires forall j :: 0 <= j < |arena| && arena[j].parent.Some? ==> Open(cells, arena[j].pos.x, arena[j].pos.y)
    ensures IsWalk(cells, dirs, PathTo(arena, i))
  {
    PathShape(arena, i);
    PathSteps(arena, dirs, i);
    var path, chain := PathTo(arena, i), Chain(arena, i);
    forall k | 1 <= k < |path| ensures Open(cells, path[k].x, path[k].y) {
      assert arena[chain[k]].parent == Some(chain[k - 1]);
      assert path[k] == arena[chain[k]].pos;
    }
  }

  /** Pushing the next index onto a queue that ends with a range of indices
      extends the range. */
  lemma RangePush(queue: seq<nat>, lo: nat, hi: nat)
    requires lo <= hi
    ensures queue + Range(lo, hi) + [hi] == queue + Range(lo, hi + 1)
  {
    assert Range(lo, hi) + [hi] == Range(lo, hi + 1);
  }

  /** Adding nodes at the end changes no path to an existing node. */
  lemma {:induction false} PathPrefix(arena: seq<Node>, grown: seq<Node>, i: nat)
    requires WellLinked(grown) && |arena| <= |grown| && grown[..|arena|] == arena && i < |arena|
    ensures WellLinked(arena)
    ensures PathTo(arena, i) == PathTo(grown, i)
    decreases i
  {
    assert forall j :: 0 <= j < |arena| ==> arena[j] == grown[j];
    match arena[i].parent
    case None =>
    case Some(j) =>
      PathPrefix(arena, grown, j);
  }

  /** Appending children of `current` keeps the arena well linked, and adjacent
      when every kid is one offset away from `current`. */
  lemma {:induction false} ExtendsLinked(arena: seq<Node>, grown: seq<Node>, kids: seq<Pos>, current: nat, dirs: seq<Offset>)
    requires WellLinked(arena) && Adjacent(arena, dirs) && current < |arena|
    requires Extends(arena, grown, kids, current)
    requires forall q :: q in kids ==> IsStep(dirs, arena[current].pos, q)
    ensures WellLinked(grown) && Adjacent(grown, dirs)
  {
    var n := |arena|;
    assert forall j :: 0 <= j < n ==> grown[j] == arena[j];
    forall i | 0 <= i < |grown| && grown[i].parent.Some?
      ensures grown[i].parent.value < i
    {
      if i >= n {
        assert grown[i] == Node(kids[i - n], Some(current));
      }
    }
    forall i | 0 <= i < |grown| && grown[i].parent.Some?
      ensures IsStep(dirs, grown[grown[i].parent.value].pos, grown[i].pos)
    {
      if i >= n {
        assert grown[i] == Node(kids[i - n], Some(current));
        assert kids[i - n] in kids;
      }
    }
  }

  /** Appending children adds exactly the kids' cells to the arena's cells. */
  lemma {:induction false} ExtendsCells(arena: seq<Node>, grown: seq<Node>, kids: seq<Pos>, current: nat)
    requires Extends(arena, grown, kids, current)
    ensures NodeCells(grown) == NodeCells(arena) + Elems(kids)
  {
    var n := |arena|;
    assert forall j :: 0 <= j < n ==> grown[j] == arena[j];
    forall q | q in NodeCells(grown) ensures q in NodeCells(arena) + Elems(kids) {
      var i :| 0 <= i < |grown| && grown[i].pos == q;
      if i >= n {
        assert grown[i] == Node(kids[i - n], Some(current));
      }
    }
    forall q | q in NodeCells(arena) + Elems(kids) ensures q in NodeCells(grown) {
      if q in Elems(kids) {
        var c :| 0 <= c < |kids| && kids[c] == q;
        assert grown[n + c].pos == q;
      } else {
        var i :| 0 <= i < n && arena[i].pos == q;
        assert grown[i].pos == q;
      }
    }
  }

  /** Appending children on new, pairwise distinct cells keeps the cells of the
      nodes distinct. */
  lemma {:induction false} ExtendsDistinct(arena: seq<Node>, grown: seq<Node>, kids: seq<Pos>, current: nat)
    requires Extends(arena, grown, kids, current)
    requires DistinctCells(arena) && NoRepeats(kids)
    requires forall q :: q in kids ==> q !in NodeCells(arena)
    ensures DistinctCells(grown)
  {
    var n := |arena|;
    assert forall j :: 0 <= j < n ==> grown[j] == arena[j];
    forall i, j | 0 <= i < j < |grown| ensures grown[i].pos != grown[j].pos {
      if j >= n {
        assert grown[j] == Node(kids[j - n], Some(current));
        if i >= n {
          assert grown[i] == Node(kids[i - n], Some(current));
        } else {
          assert grown[i].pos in NodeCells(arena);
          assert kids[j - n] in kids;
        }
      }
    }
  }

  /** The elements of `s` in reverse order. */
  function Reverse(s: seq<Pos>): (r: seq<Pos>)
    ensures |r| == |s|
    ensures forall k :: 0 <= k < |s| ==> r[k] == s[|s| - 1 - k]
  {
    if s == [] then [] else [s[|s| - 1]] + Reverse(s[..|s| - 1])
  }

  /** Reversing after pushing an element puts it in front. */
  lemma ReversePush(s: seq<Pos>, x: Pos)
    ensures Reverse(s + [x]) == [x] + Reverse(s)
  {
    assert (s + [x])[..|s|] == s;
  }

  /** The part of a path that a traversal standing at `traverse` has still to
      collect. */
  function Pending(arena: seq<Node>, traverse: Option<nat>): seq<Pos>
    requires WellLinked(arena) && (traverse.Some? ==> traverse.value < |arena|)
  {
    if traverse.Some? then PathTo(arena, traverse.value) else []
  }

  /** Moving the traversal from node `t` to its parent, and collecting `t`'s cell,
      leaves the pending cells followed by the reversed collected cells alone. */
  lemma PendingStep(arena: seq<Node>, t: nat, collected: seq<Pos>)
    requires WellLinked(arena) && t < |arena|
    ensures Pending(arena, arena[t].parent) + Reverse(collected + [arena[t].pos])
            == Pending(arena, Some(t)) + Reverse(collected)
  {
    ReversePush(collected, arena[t].pos);
    assert PathTo(arena, t) == Pending(arena, arena[t].parent) + [arena[t].pos];
    assert Pending(arena, arena[t].parent) + ([arena[t].pos] + Reverse(collected))
           == (Pending(arena, arena[t].parent) + [arena[t].pos]) + Reverse(collected);
  }

  /** `get_path`: follows the parent links from `current` to the start, collecting
      the cells, and reverses what it collected. */
  method GetPath(arena: seq<Node>, current: nat) returns (path: seq<Pos>)
    requires WellLinked(arena) && current < |arena|
    ensures path == PathTo(arena, current)
  {
    var collected: seq<Pos> := [];
    var traverse: Option<nat> := Some(current);
    while traverse.Some?
      invariant traverse.Some? ==> traverse.value < |arena|
      invariant Pending(arena, traverse) + Reverse(collected) == PathTo(arena, current)
      decreases if traverse.Some? then traverse.value + 1 else 0
    {
      var t := traverse.value;
      PendingStep(arena, t, collected);
      collected := collected + [arena[t].pos];
      traverse := arena[t].parent;
    }
    path := Reverse(collected);
  }
}
