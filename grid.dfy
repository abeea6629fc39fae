/** The maze the searches run over: a grid of cell values in which
    the value 1 is a wall, addressed by (x, y) with y selecting the row. */
module Grid {

  /** A cell coordinate. Both components are unsigned, like the program's `vec2s`. */
  datatype Pos = Pos(x: nat, y: nat)

  /** A signed neighbour offset, like the program's `vec2is`. */
  datatype Offset = Offset(dx: int, dy: int)

  /** The cells of a maze, row by row: `cells[y][x]`. */
  type Cells = seq<seq<int>>

  /** Every row is at least as long as row 0, whose length the searches take as
      the width: then every cell they test inside that width exists. A longer row
      is fine, its surplus cells are never visited. */
  predicate FullRows(cells: Cells) {
    forall y :: 0 <= y < |cells| ==> |cells[y]| >= |cells[0]|
  }

  /** The bounds test of the searches: the width is the length of row 0 and the
      height the number of rows. */
  predicate InBounds(cells: Cells, x: int, y: int) {
    0 <= x && 0 <= y && y < |cells| && x < |cells[0]|
  }

  /** A cell a search may enter: inside the grid and not a wall. */
  predicate Open(cells: Cells, x: int, y: int)
    requires FullRows(cells)
  {
    InBounds(cells, x, y) && cells[y][x] != 1
  }

  /** No offset occurs twice. */
  predicate DistinctOffsets(dirs: seq<Offset>) {
    forall i, j :: 0 <= i < j < |dirs| ==> dirs[i] != dirs[j]
  }

  /** The neighbour offsets in the order the searches try them: right, down, left,
      up, and with `diagonal` the four diagonal ones after them. */
  function Directions(diagonal: bool): (dirs: seq<Offset>)
    ensures |dirs| == if diagonal then 8 else 4
    ensures DistinctOffsets(dirs)
    ensures forall k :: 0 <= k < |dirs| ==>
              -1 <= dirs[k].dx <= 1 && -1 <= dirs[k].dy <= 1 && dirs[k] != Offset(0, 0)
    ensures forall k :: 0 <= k < |dirs| ==> ((dirs[k].dx == 0 || dirs[k].dy == 0) <==> k < 4)
  {
    var straight := [Offset(1, 0), Offset(0, 1), Offset(-1, 0), Offset(0, -1)];
    if diagonal then straight + [Offset(1, 1), Offset(1, -1), Offset(-1, 1), Offset(-1, -1)]
    else straight
  }

  /** `b` lies one of the offsets of `dirs` away from `a`. */
  ghost predicate IsStep(dirs: seq<Offset>, a: Pos, b: Pos) {
    exists k :: 0 <= k < |dirs| && b.x == a.x + dirs[k].dx && b.y == a.y + dirs[k].dy
  }

  /** A walk through the maze: consecutive cells are one step apart and every
      cell after the first is open. The first cell itself is not checked, as the
      searches do not check their start cell. */
  ghost predicate IsWalk(cells: Cells, dirs: seq<Offset>, walk: seq<Pos>)
    requires FullRows(cells)
  {
    |walk| >= 1 &&
    forall k :: 1 <= k < |walk| ==>
      IsStep(dirs, walk[k - 1], walk[k]) && Open(cells, walk[k].x, walk[k].y)
  }

  /** Some walk leads from `start` to `end`. */
  ghost predicate Reachable(cells: Cells, dirs: seq<Offset>, start: Pos, end: Pos)
    requires FullRows(cells)
  {
    exists walk :: IsWalk(cells, dirs, walk) && walk[0] == start && walk[|walk| - 1] == end
  }

  /** No cell occurs twice in `s`. */
  predicate NoRepeats(s: seq<Pos>) {
    forall a, b :: 0 <= a < b < |s| ==> s[a] != s[b]
  }

  /** The cells of a sequence, as a set. */
  function Elems(s: seq<Pos>): set<Pos> {
    set q | q in s
  }

  /** The squared Euclidean distance between two cells, computed on signed deltas. */
  function SquaredDistance(a: Pos, b: Pos): nat {
    var dx, dy := a.x - b.x, a.y - b.y;
    dx * dx + dy * dy
  }

  /** The neighbours of `p` that one expansion creates nodes for, in the order of
      `dirs`: each offset in turn, keeping the cell when it is open and not in
      `blocked`. */
  function Candidates(cells: Cells, blocked: set<Pos>, p: Pos, dirs: seq<Offset>): (kids: seq<Pos>)
    requires FullRows(cells)
    ensures |kids| <= |dirs|
    ensures forall q :: q in kids ==> Open(cells, q.x, q.y) && q !in blocked && IsStep(dirs, p, q)
    decreases |dirs|
  {
    if dirs == [] then []
    else
      var earlier := Candidates(cells, blocked, p, dirs[..|dirs| - 1]);
      var d := dirs[|dirs| - 1];
      var x, y := p.x + d.dx, p.y + d.dy;
      if Open(cells, x, y) && Pos(x, y) !in blocked then earlier + [Pos(x, y)] else earlier
  }

  /** Taking one more offset into account appends its cell when that cell is
      open and not blocked, and nothing otherwise. */
  lemma CandidatesNext(cells: Cells, blocked: set<Pos>, p: Pos, dirs: seq<Offset>, i: nat, x: int, y: int)
    requires FullRows(cells) && i < |dirs| && x == p.x + dirs[i].dx && y == p.y + dirs[i].dy
    ensures Open(cells, x, y) && Pos(x, y) !in blocked ==>
              Candidates(cells, blocked, p, dirs[..i + 1]) == Candidates(cells, blocked, p, dirs[..i]) + [Pos(x, y)]
    ensures !(Open(cells, x, y) && Pos(x, y) !in blocked) ==>
              Candidates(cells, blocked, p, dirs[..i + 1]) == Candidates(cells, blocked, p, dirs[..i])
  {
    assert dirs[..i + 1][..i] == dirs[..i];
  }

  /** The cells of a sequence grow by the element pushed. */
  lemma ElemsPush(s: seq<Pos>, q: Pos)
    ensures Elems(s + [q]) == Elems(s) + {q}
  {
  }

  /** Every open, unblocked neighbour is among the candidates. */
  lemma {:induction false} CandidatesComplete(cells: Cells, blocked: set<Pos>, p: Pos, dirs: seq<Offset>, k: nat)
    requires FullRows(cells) && k < |dirs|
    requires Open(cells, p.x + dirs[k].dx, p.y + dirs[k].dy)
    requires Pos(p.x + dirs[k].dx, p.y + dirs[k].dy) !in blocked
    ensures Pos(p.x + dirs[k].dx, p.y + dirs[k].dy) in Candidates(cells, blocked, p, dirs)
    decreases |dirs|
  {
    if k < |dirs| - 1 {
      var front := dirs[..|dirs| - 1];
      assert front[k] == dirs[k];
      CandidatesComplete(cells, blocked, p, front, k);
    }
  }

  /** A cell one offset of `dirs` away from `p` is not among the candidates of the
      offsets before it: the offsets are distinct, so their cells are too. */
  lemma {:induction false} CandidatesBefore(cells: Cells, blocked: set<Pos>, p: Pos, dirs: seq<Offset>, i: nat)
    requires FullRows(cells) && DistinctOffsets(dirs) && i < |dirs|
    ensures forall q :: q in Candidates(cells, blocked, p, dirs[..i]) ==>
              q.x != p.x + dirs[i].dx || q.y != p.y + dirs[i].dy
  {
    forall q | q in Candidates(cells, blocked, p, dirs[..i])
      ensures q.x != p.x + dirs[i].dx || q.y != p.y + dirs[i].dy
    {
      var front := dirs[..i];
      var k :| 0 <= k < |front| && q.x == p.x + front[k].dx && q.y == p.y + front[k].dy;
      assert front[k] == dirs[k];
    }
  }

  /** The candidates of one expansion are pairwise distinct cells. */
  lemma {:induction false} CandidatesDistinct(cells: Cells, blocked: set<Pos>, p: Pos, dirs: seq<Offset>)
    requires FullRows(cells) && DistinctOffsets(dirs)
    ensures NoRepeats(Candidates(cells, blocked, p, dirs))
    decreases |dirs|
  {
    if dirs != [] {
      var n := |dirs| - 1;
      var front := dirs[..n];
      assert DistinctOffsets(front) by {
        forall i, j | 0 <= i < j < |front| ensures front[i] != front[j] {
          assert front[i] == dirs[i] && front[j] == dirs[j];
        }
      }
      CandidatesDistinct(cells, blocked, p, front);
      CandidatesBefore(cells, blocked, p, dirs, n);
      var earlier := Candidates(cells, blocked, p, front);
      var kids := Candidates(cells, blocked, p, dirs);
      var x, y := p.x + dirs[n].dx, p.y + dirs[n].dy;
      if Open(cells, x, y) && Pos(x, y) !in blocked {
        assert kids == earlier + [Pos(x, y)];
        forall a, b | 0 <= a < b < |kids| ensures kids[a] != kids[b] {
          assert kids[a] == earlier[a];
          if b == |earlier| {
            assert earlier[a] in earlier;
          } else {
            assert kids[b] == earlier[b];
          }
        }
      }
    }
  }

  /** The program's `maze`: its cells and the dimension they were created with. */
  class Maze {
    var cells: Cells
    var dimension: Pos

    constructor ()
      ensures cells == [] && dimension == Pos(0, 0)
    {
      cells := [];
      dimension := Pos(0, 0);
    }

    /** Resizes the rows to `dimension.y` and every row to `dimension.x`, keeping
        the values that fit and filling new cells with 0, as `std::vector::resize`
        does. */
    method Create(dimension: Pos)
      modifies this
      ensures this.dimension == dimension
      ensures FullRows(cells) && |cells| == dimension.y
      ensures forall y :: 0 <= y < |cells| ==> |cells[y]| == dimension.x
      ensures forall y, x :: 0 <= y < dimension.y && 0 <= x < dimension.x ==>
                cells[y][x] == if y < |old(cells)| && x < |old(cells)[y]| then old(cells)[y][x] else 0
    {
      this.dimension := dimension;
      var rows := Resized(cells, dimension.y, []);
      var i := 0;
      while i < |rows|
        invariant 0 <= i <= |rows| == dimension.y
        invariant forall y :: 0 <= y < i ==> |rows[y]| == dimension.x
        invariant forall y :: 0 <= y < |rows| ==>
                    rows[y] == if y < i then Resized(if y < |old(cells)| then old(cells)[y] else [], dimension.x, 0)
                               else if y < |old(cells)| then old(cells)[y] else []
      {
        rows := rows[i := Resized(rows[i], dimension.x, 0)];
        i := i + 1;
      }
      cells := rows;
    }
  }

  /** `s` cut or padded with `fill` to length `n`. */
  function Resized<T>(s: seq<T>, n: nat, fill: T): (r: seq<T>)
    ensures |r| == n
    ensures forall k :: 0 <= k < n ==> r[k] == if k < |s| then s[k] else fill
  {
    seq(n, k requires 0 <= k < n => if k < |s| then s[k] else fill)
  }
}
