/**
 The board: a mapping from coordinates to marks, the fixed list of neighbour
 offsets, and the rectangle of coordinates a generated board covers.
 */
module Grid {
  import opened Marks

  /** A coordinate `(x, y)`. */
  type Cell = (int, int)

  /** A displacement from a cell to one of its neighbours. */
  type Offset = (int, int)

  /** A board maps every coordinate it holds to a mark. A coordinate that is
      not a key lies outside the board. */
  type Board = map<Cell, int>

  /** The eight displacements of the Moore neighbourhood, in the order the
      neighbour count visits them. */
  const Neighbors: seq<Offset> := [(0, 1), (0, -1), (1, 0), (-1, 0), (1, 1), (-1, 1), (-1, -1), (1, -1)]

  function Shift(c: Cell, o: Offset): Cell {
    (c.0 + o.0, c.1 + o.1)
  }

  /** True when `p` is one of the eight cells surrounding `c`, independent of
      any board. */
  predicate Adjacent(c: Cell, p: Cell) {
    p != c && -1 <= p.0 - c.0 <= 1 && -1 <= p.1 - c.1 <= 1
  }

  /** True when `p` is on the board and its mark counts as live. */
  predicate Live(b: Board, p: Cell) {
    p in b && CountsAsLive(b[p])
  }

  /** True when every cell holds a settled mark, as between generations. */
  predicate WellFormed(b: Board) {
    forall p :: p in b ==> Settled(b[p])
  }

  predicate Distinct(s: seq<Offset>) {
    forall i, j :: 0 <= i < j < |s| ==> s[i] != s[j]
  }

  /** Each offset is listed once, so each neighbour is visited once. */
  lemma NeighborsDistinct()
    ensures Distinct(Neighbors)
  {
  }

  /** The offset visited at step `i` was not visited before it. */
  lemma PrefixExcludes(i: int)
    requires 0 <= i < |Neighbors|
    ensures Neighbors[i] !in Neighbors[..i]
  {
    NeighborsDistinct();
  }

  /** Every offset leads to a surrounding cell; in particular `(0, 0)` is not
      an offset, so a cell is never its own neighbour. */
  lemma OffsetAdjacent(c: Cell, i: int)
    requires 0 <= i < |Neighbors|
    ensures Adjacent(c, Shift(c, Neighbors[i]))
  {
  }

  /** Every surrounding cell is reached through some offset. */
  lemma OffsetOf(c: Cell, p: Cell) returns (i: int)
    requires Adjacent(c, p)
    ensures 0 <= i < |Neighbors| && Shift(c, Neighbors[i]) == p
  {
    var dx, dy := p.0 - c.0, p.1 - c.1;
    i := if dx == 0 && dy == 1 then 0
      else if dx == 0 && dy == -1 then 1
      else if dx == 1 && dy == 0 then 2
      else if dx == -1 && dy == 0 then 3
      else if dx == 1 && dy == 1 then 4
      else if dx == -1 && dy == 1 then 5
      else if dx == -1 && dy == -1 then 6
      else 7;
  }

  predicate InRect(dimx: int, dimy: int, p: Cell) {
    0 <= p.0 < dimx && 0 <= p.1 < dimy
  }

  /** The coordinates `[0, dimx) x [0, dimy)`; empty when either dimension is
      not positive. */
  function Rect(dimx: int, dimy: int): set<Cell> {
    set x, y | 0 <= x < dimx && 0 <= y < dimy :: (x, y)
  }

  /** The column of `Rect(_, dimy)` at abscissa `x`. */
  function Column(x: int, dimy: int): set<Cell> {
    set y | 0 <= y < dimy :: (x, y)
  }

  /** The number of cells of the rectangle. */
  function Area(dimx: int, dimy: int): nat {
    if dimx <= 0 || dimy <= 0 then 0 else dimx * dimy
  }

  lemma RectMembership(dimx: int, dimy: int)
    ensures forall p :: p in Rect(dimx, dimy) <==> InRect(dimx, dimy, p)
  {
    forall p | InRect(dimx, dimy, p)
      ensures p in Rect(dimx, dimy)
    {
      assert p == (p.0, p.1);
    }
  }

  lemma {:induction false} ColumnSize(x: int, dimy: int)
    ensures |Column(x, dimy)| == if dimy <= 0 then 0 else dimy
    decreases if dimy <= 0 then 0 else dimy
  {
    if dimy <= 0 {
      assert Column(x, dimy) == {};
    } else {
      ColumnSize(x, dimy - 1);
      assert Column(x, dimy) == Column(x, dimy - 1) + {(x, dimy - 1)};
    }
  }

  /** The rectangle has `dimx * dimy` cells when both dimensions are positive,
      and none otherwise. */
  lemma {:induction false} RectSize(dimx: int, dimy: int)
    ensures |Rect(dimx, dimy)| == Area(dimx, dimy)
    decreases if dimx <= 0 then 0 else dimx
  {
    if dimx <= 0 || dimy <= 0 {
      RectMembership(dimx, dimy);
      assert Rect(dimx, dimy) == {};
    } else {
      RectSize(dimx - 1, dimy);
      ColumnSize(dimx - 1, dimy);
      RectSplit(dimx, dimy);
      AreaStep(dimx, dimy);
    }
  }

  lemma AreaStep(dimx: int, dimy: int)
    requires 0 < dimx && 0 < dimy
    ensures Area(dimx, dimy) == Area(dimx - 1, dimy) + dimy
  {
    assert dimx * dimy == (dimx - 1) * dimy + dimy;
  }

  /** A rectangle is the one a column narrower plus its last column. */
  lemma RectSplit(dimx: int, dimy: int)
    requires 0 < dimx
    ensures Rect(dimx, dimy) == Rect(dimx - 1, dimy) + Column(dimx - 1, dimy)
    ensures Rect(dimx - 1, dimy) !! Column(dimx - 1, dimy)
  {
    RectMembership(dimx, dimy);
    RectMembership(dimx - 1, dimy);
    forall p | p in Column(dimx - 1, dimy)
      ensures InRect(dimx, dimy, p) && p.0 == dimx - 1
    {
    }
    forall p | InRect(dimx, dimy, p) && p.0 == dimx - 1
      ensures p in Column(dimx - 1, dimy)
    {
      assert p == (dimx - 1, p.1);
    }
  }
}
