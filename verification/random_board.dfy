/**
 Building the initial board: one entry per coordinate of the rectangle, each
 alive or dead according to that cell's random draw.
 */
module RandomBoard {
  import opened Marks
  import opened Grid

  /** The mark a cell receives from its draw. */
  function Seed(occupied: bool): int {
    if occupied then Alive else Dead
  }

  /** Fills the rectangle column by column. `occupied(c)` stands for the
      outcome of the random draw taken for cell `c` (a uniform number below
      the occupancy fraction). A non-positive dimension gives an empty board,
      since no check rejects it. */
  method MakeRandomBoard(dimx: int, dimy: int, occupied: Cell -> bool) returns (board: Board)
    ensures board.Keys == Rect(dimx, dimy)
    ensures |board| == Area(dimx, dimy)
    ensures WellFormed(board)
    ensures forall c :: c in board ==> board[c] == Seed(occupied(c))
  {
    board := map[];
    var x := 0;
    while x < dimx
      invariant x == 0 || 0 < x <= dimx
      invariant forall p :: p in board <==> InRect(x, dimy, p)
      invariant forall p :: p in board ==> board[p] == Seed(occupied(p))
    {
      var y := 0;
      while y < dimy
        invariant y == 0 || 0 < y <= dimy
        invariant forall p :: p in board <==> InRect(x, dimy, p) || (p.0 == x && 0 <= p.1 < y)
        invariant forall p :: p in board ==> board[p] == Seed(occupied(p))
      {
        board := board[(x, y) := Seed(occupied((x, y)))];
        y := y + 1;
      }
      x := x + 1;
    }
    RectMembership(dimx, dimy);
    assert board.Keys == Rect(dimx, dimy);
    RectSize(dimx, dimy);
  }
}
