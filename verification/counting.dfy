/**
 Neighbour counting: the loop over the eight offsets, checked against a
 reference definition that speaks only of the cells surrounding a coordinate.
 */
module Counting {
  import opened Marks
  import opened Grid

  /** The reference: the board's coordinates that surround `c` and hold a mark
      counting as live. Coordinates that are not keys never belong to it, and
      neither does `c` itself. */
  function LiveNeighborSet(b: Board, c: Cell): set<Cell> {
    set p | p in b && Adjacent(c, p) && CountsAsLive(b[p])
  }

  /** The number of live neighbours of `c`, by the reference definition. */
  function LiveCount(b: Board, c: Cell): nat {
    |LiveNeighborSet(b, c)|
  }

  /** The live cells reached from `c` through the given offsets. */
  function LiveAmong(b: Board, c: Cell, offsets: seq<Offset>): set<Cell> {
    set i | 0 <= i < |offsets| && Live(b, Shift(c, offsets[i])) :: Shift(c, offsets[i])
  }

  /** Appending an offset not seen before adds its target exactly when that
      target is live, and the target was not already reached. */
  lemma LiveAmongSnoc(b: Board, c: Cell, offsets: seq<Offset>, o: Offset)
    requires o !in offsets
    ensures Shift(c, o) !in LiveAmong(b, c, offsets)
    ensures LiveAmong(b, c, offsets + [o])
            == LiveAmong(b, c, offsets) + (if Live(b, Shift(c, o)) then {Shift(c, o)} else {})
  {
    var s := offsets + [o];
    var before := LiveAmong(b, c, offsets);
    var extra: set<Cell> := if Live(b, Shift(c, o)) then {Shift(c, o)} else {};
    forall p | p in LiveAmong(b, c, s)
      ensures p in before + extra
    {
      var i :| 0 <= i < |s| && Live(b, Shift(c, s[i])) && p == Shift(c, s[i]);
      if i < |offsets| {
        assert s[i] == offsets[i];
      }
    }
    forall p | p in before + extra
      ensures p in LiveAmong(b, c, s)
    {
      if p in before {
        var i :| 0 <= i < |offsets| && Live(b, Shift(c, offsets[i])) && p == Shift(c, offsets[i]);
        assert s[i] == offsets[i];
      } else {
        assert s[|offsets|] == o;
      }
    }
  }

  /** Through the eight offsets, the live cells reached are exactly the
      reference set. */
  lemma LiveAmongNeighbors(b: Board, c: Cell)
    ensures LiveAmong(b, c, Neighbors) == LiveNeighborSet(b, c)
  {
    forall p | p in LiveAmong(b, c, Neighbors)
      ensures p in LiveNeighborSet(b, c)
    {
      var i :| 0 <= i < |Neighbors| && Live(b, Shift(c, Neighbors[i])) && p == Shift(c, Neighbors[i]);
      OffsetAdjacent(c, i);
    }
    forall p | p in LiveNeighborSet(b, c)
      ensures p in LiveAmong(b, c, Neighbors)
    {
      var i := OffsetOf(c, p);
    }
  }

  /** Distinct offsets reach at most one live cell each. */
  lemma {:induction false} LiveAmongBound(b: Board, c: Cell, offsets: seq<Offset>)
    requires Distinct(offsets)
    ensures |LiveAmong(b, c, offsets)| <= |offsets|
    decreases |offsets|
  {
    if |offsets| == 0 {
      assert LiveAmong(b, c, offsets) == {};
    } else {
      var front := offsets[..|offsets| - 1];
      var o := offsets[|offsets| - 1];
      assert offsets == front + [o];
      assert o !in front;
      LiveAmongBound(b, c, front);
      LiveAmongSnoc(b, c, front, o);
    }
  }

  /** No cell has more than eight live neighbours. */
  lemma LiveCountAtMostEight(b: Board, c: Cell)
    ensures LiveCount(b, c) <= 8
  {
    NeighborsDistinct();
    LiveAmongBound(b, c, Neighbors);
    LiveAmongNeighbors(b, c);
  }

  /** The number of occupied neighbours of `cell`: one step per offset, at
      most one increment per step, and a target that is not a key of the
      board is skipped. */
  method CountNeighbors(cell: Cell, board: Board) returns (score: nat)
    ensures score == LiveCount(board, cell)
    ensures score <= |Neighbors|
  {
    score := 0;
    var i := 0;
    while i < |Neighbors|
      invariant 0 <= i <= |Neighbors|
      invariant score <= i
      invariant score == |LiveAmong(board, cell, Neighbors[..i])|
    {
      var n := Neighbors[i];
      assert Neighbors[..i + 1] == Neighbors[..i] + [n];
      PrefixExcludes(i);
      LiveAmongSnoc(board, cell, Neighbors[..i], n);
      var p := (cell.0 + n.0, cell.1 + n.1);
      if p in board {
        if CountsAsLive(board[p]) {
          score := score + 1;
        }
      }
      i := i + 1;
    }
    assert Neighbors[..i] == Neighbors;
    LiveAmongNeighbors(board, cell);
  }

  /** Boards that agree on which keys count as live give every cell the same
      count, whatever the marks are otherwise. */
  lemma SameLivenessSameCount(b: Board, b': Board, c: Cell)
    requires b.Keys == b'.Keys
    requires forall p :: p in b ==> CountsAsLive(b[p]) == CountsAsLive(b'[p])
    ensures LiveCount(b, c) == LiveCount(b', c)
  {
    assert LiveNeighborSet(b, c) == LiveNeighborSet(b', c);
  }

  /** Only the eight surrounding coordinates matter: boards that agree there,
      as to presence and liveness, give the same count. */
  lemma CountIsLocal(b: Board, b': Board, c: Cell)
    requires forall p :: Adjacent(c, p) ==> Live(b, p) == Live(b', p)
    ensures LiveCount(b, c) == LiveCount(b', c)
  {
    assert LiveNeighborSet(b, c) == LiveNeighborSet(b', c);
  }

  /** A cell is never its own neighbour: whatever mark it holds, its count is
      the same. */
  lemma SelfNotCounted(b: Board, c: Cell, m: int)
    ensures LiveCount(b[c := m], c) == LiveCount(b, c)
  {
    CountIsLocal(b[c := m], b, c);
  }

  /** A coordinate missing from the board contributes nothing: adding it as a
      dead cell leaves every count unchanged. */
  lemma MissingIsDead(b: Board, p: Cell, c: Cell)
    requires p !in b
    ensures LiveCount(b[p := Dead], c) == LiveCount(b, c)
  {
    CountIsLocal(b[p := Dead], b, c);
  }

  /** A write to a coordinate that does not surround `c` leaves the count of
      `c` unchanged, on every board. */
  lemma FarWrite(b: Board, c: Cell, p: Cell, m: int)
    requires !Adjacent(c, p)
    ensures LiveCount(b[p := m], c) == LiveCount(b, c)
  {
    CountIsLocal(b[p := m], b, c);
  }

  /** No wraparound along either axis: when the rectangle is at least three
      cells long in a direction, a cell on one end of it does not see the
      opposite end, whatever is written there. */
  lemma NoWraparound(b: Board, dimx: int, dimy: int, i: int, j: int, m: int)
    ensures 3 <= dimx ==> LiveCount(b[(dimx - 1, j) := m], (0, i)) == LiveCount(b, (0, i))
    ensures 3 <= dimx ==> LiveCount(b[(0, j) := m], (dimx - 1, i)) == LiveCount(b, (dimx - 1, i))
    ensures 3 <= dimy ==> LiveCount(b[(j, dimy - 1) := m], (i, 0)) == LiveCount(b, (i, 0))
    ensures 3 <= dimy ==> LiveCount(b[(j, 0) := m], (i, dimy - 1)) == LiveCount(b, (i, dimy - 1))
  {
    if 3 <= dimx {
      FarWrite(b, (0, i), (dimx - 1, j), m);
      FarWrite(b, (dimx - 1, i), (0, j), m);
    }
    if 3 <= dimy {
      FarWrite(b, (i, 0), (j, dimy - 1), m);
      FarWrite(b, (i, dimy - 1), (j, 0), m);
    }
  }

  /** A count is bounded by the size of any set holding the board's keys
      around the cell. */
  lemma BoundedBy(b: Board, c: Cell, e: set<Cell>)
    requires forall p :: p in b && Adjacent(c, p) ==> p in e
    ensures LiveCount(b, c) <= |e|
  {
    SubsetSize(LiveNeighborSet(b, c), e);
  }

  /** A corner of the rectangle has at most three neighbours on the board. */
  lemma CornerCount(b: Board, dimx: int, dimy: int, c: Cell)
    requires b.Keys <= Rect(dimx, dimy)
    requires (c.0 == 0 || c.0 == dimx - 1) && (c.1 == 0 || c.1 == dimy - 1)
    ensures LiveCount(b, c) <= 3
  {
    var sx := if c.0 == 0 then 1 else -1;
    var sy := if c.1 == 0 then 1 else -1;
    var corner := {(c.0 + sx, c.1), (c.0, c.1 + sy), (c.0 + sx, c.1 + sy)};
    forall p | p in b && Adjacent(c, p)
      ensures p in corner
    {
      RectMembership(dimx, dimy);
      assert InRect(dimx, dimy, p);
    }
    BoundedBy(b, c, corner);
  }

  /** A cell of the left or right edge has at most five neighbours on the
      board. */
  lemma SideCount(b: Board, dimx: int, dimy: int, c: Cell)
    requires b.Keys <= Rect(dimx, dimy)
    requires c.0 == 0 || c.0 == dimx - 1
    ensures LiveCount(b, c) <= 5
  {
    var sx := if c.0 == 0 then 1 else -1;
    var edge := {(c.0, c.1 - 1), (c.0, c.1 + 1), (c.0 + sx, c.1 - 1), (c.0 + sx, c.1), (c.0 + sx, c.1 + 1)};
    forall p | p in b && Adjacent(c, p)
      ensures p in edge
    {
      RectMembership(dimx, dimy);
      assert InRect(dimx, dimy, p);
    }
    BoundedBy(b, c, edge);
  }

  /** A cell of the top or bottom edge has at most five neighbours on the
      board. */
  lemma EndCount(b: Board, dimx: int, dimy: int, c: Cell)
    requires b.Keys <= Rect(dimx, dimy)
    requires c.1 == 0 || c.1 == dimy - 1
    ensures LiveCount(b, c) <= 5
  {
    var sy := if c.1 == 0 then 1 else -1;
    var edge := {(c.0 - 1, c.1), (c.0 + 1, c.1), (c.0 - 1, c.1 + sy), (c.0, c.1 + sy), (c.0 + 1, c.1 + sy)};
    forall p | p in b && Adjacent(c, p)
      ensures p in edge
    {
      RectMembership(dimx, dimy);
      assert InRect(dimx, dimy, p);
    }
    BoundedBy(b, c, edge);
  }

  /** On a board within a rectangle, each of the four corners has at most
      three live neighbours and every other cell of the border at most five. */
  lemma EdgeCounts(b: Board, dimx: int, dimy: int, c: Cell)
    requires b.Keys <= Rect(dimx, dimy)
    ensures (c.0 == 0 || c.0 == dimx - 1) && (c.1 == 0 || c.1 == dimy - 1) ==> LiveCount(b, c) <= 3
    ensures (c.0 == 0 || c.0 == dimx - 1 || c.1 == 0 || c.1 == dimy - 1) ==> LiveCount(b, c) <= 5
  {
    if (c.0 == 0 || c.0 == dimx - 1) && (c.1 == 0 || c.1 == dimy - 1) {
      CornerCount(b, dimx, dimy, c);
    }
    if c.0 == 0 || c.0 == dimx - 1 {
      SideCount(b, dimx, dimy, c);
    } else if c.1 == 0 || c.1 == dimy - 1 {
      EndCount(b, dimx, dimy, c);
    }
  }

  lemma SubsetSize(a: set<Cell>, e: set<Cell>)
    requires a <= e
    ensures |a| <= |e|
  {
    assert e == a + (e - a);
  }
}
