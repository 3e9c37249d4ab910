/**
 One generation: the classic next-generation function as a reference, and the
 in-place two-pass update (mark, then commit) shown to compute it whatever
 order the cells are visited in.
 */
module Generation {
  import opened Marks
  import opened Grid
  import opened Counting

  /** The surrounding cells holding `Alive`: the classic neighbour set, which
      knows nothing of pending marks. */
  function AliveNeighbors(b: Board, c: Cell): set<Cell> {
    set p | p in b && Adjacent(c, p) && b[p] == Alive
  }

  /** The classic B3/S23 successor of a board, every cell decided from the
      board as it stands. */
  function NextGen(b: Board): (r: Board)
    ensures r.Keys == b.Keys
    ensures WellFormed(r)
  {
    map c | c in b :: if LivesNext(b[c] == Alive, |AliveNeighbors(b, c)|) then Alive else Dead
  }

  /** Between generations no cell is marked to die, so the engine's count and
      the classic count agree. */
  lemma SettledCountIsAliveCount(b: Board, c: Cell)
    requires WellFormed(b)
    ensures LiveCount(b, c) == |AliveNeighbors(b, c)|
  {
    assert LiveNeighborSet(b, c) == AliveNeighbors(b, c);
  }

  /** A cell of the successor is alive exactly when it was dead with three
      live neighbours or alive with two or three; it is dead otherwise. */
  lemma NextGenCell(b: Board, c: Cell)
    requires WellFormed(b) && c in b
    ensures var n := |AliveNeighbors(b, c)|;
            NextGen(b)[c] == Alive <==> (b[c] == Dead && n == 3) || (b[c] == Alive && (n == 2 || n == 3))
    ensures NextGen(b)[c] == Dead || NextGen(b)[c] == Alive
  {
  }

  /** Marking a cell and committing its mark, with the cell's count on the
      entry board, gives the classic successor. */
  lemma MarkThenCommitIsNextGen(b: Board, c: Cell)
    requires WellFormed(b) && c in b
    ensures Commit(MarkCell(b[c], LiveCount(b, c))) == NextGen(b)[c]
  {
    SettledCountIsAliveCount(b, c);
    CommitMarkIsLifeRule(b[c], LiveCount(b, c));
  }

  /** The first pass. Cells are visited in an arbitrary order; each is marked
      from its count on the board as it is at that moment, yet every mark
      equals the one taken from the entry board, because marking never
      changes which cells count as live. */
  method MarkPass(b: Board) returns (m: Board)
    ensures m.Keys == b.Keys
    ensures forall c {:trigger m[c], LiveCount(b, c)} :: c in b ==> m[c] == MarkCell(b[c], LiveCount(b, c))
  {
    m := b;
    var todo := b.Keys;
    while todo != {}
      invariant todo <= b.Keys
      invariant m.Keys == b.Keys
      invariant forall c {:trigger m[c]} :: c in todo ==> m[c] == b[c]
      invariant forall c {:trigger m[c], LiveCount(b, c)} :: c in b && c !in todo ==> m[c] == MarkCell(b[c], LiveCount(b, c))
      invariant forall c {:trigger m[c]} :: c in b ==> CountsAsLive(m[c]) == CountsAsLive(b[c])
      decreases todo
    {
      var c :| c in todo;
      var neighbors := CountNeighbors(c, m);
      SameLivenessSameCount(m, b, c);
      if m[c] == Dead && neighbors == 3 {
        m := m[c := WillBorn];
      } else if m[c] == Alive && !(neighbors == 2 || neighbors == 3) {
        m := m[c := WillDie];
      }
      todo := todo - {c};
    }
  }

  /** The second pass: every pending mark is replaced by the state it
      announces, in an arbitrary order; nothing pending is left. */
  method CommitPass(m: Board) returns (r: Board)
    ensures r.Keys == m.Keys
    ensures forall c :: c in m ==> r[c] == Commit(m[c])
    ensures forall c :: c in r ==> r[c] != WillBorn && r[c] != WillDie
  {
    r := m;
    var todo := m.Keys;
    while todo != {}
      invariant todo <= m.Keys
      invariant r.Keys == m.Keys
      invariant forall c :: c in todo ==> r[c] == m[c]
      invariant forall c :: c in m && c !in todo ==> r[c] == Commit(m[c])
      decreases todo
    {
      var c :| c in todo;
      if r[c] == WillBorn {
        r := r[c := Alive];
      }
      if r[c] == WillDie {
        r := r[c := Dead];
      }
      todo := todo - {c};
    }
  }

  /** One generation in place. Every cell's new mark depends only on the entry
      board; on a board of settled marks the result is the classic successor;
      no coordinate is added or removed, and a cell holding a value that is
      not a mark is left alone. */
  method UpdateBoard(b: Board) returns (r: Board)
    ensures r.Keys == b.Keys
    ensures forall c {:trigger r[c], LiveCount(b, c)} :: c in b ==> r[c] == Commit(MarkCell(b[c], LiveCount(b, c)))
    ensures WellFormed(b) ==> r == NextGen(b)
    ensures WellFormed(b) ==> WellFormed(r)
    ensures forall c {:trigger r[c]} :: c in b && !IsMark(b[c]) ==> r[c] == b[c]
  {
    var m := MarkPass(b);
    r := CommitPass(m);
    assert forall c {:trigger r[c], LiveCount(b, c)} :: c in b ==> r[c] == Commit(MarkCell(b[c], LiveCount(b, c)));
    forall c | c in b && !IsMark(b[c])
      ensures r[c] == b[c]
    {
      assert r[c] == Commit(MarkCell(b[c], LiveCount(b, c)));
    }
    if WellFormed(b) {
      SimultaneousIsNextGen(b, r);
    }
  }

  /** A board whose every cell is the committed mark taken from the entry
      board is the classic successor of a settled entry board. */
  lemma SimultaneousIsNextGen(b: Board, r: Board)
    requires WellFormed(b)
    requires r.Keys == b.Keys
    requires forall c {:trigger r[c], LiveCount(b, c)} :: c in b ==> r[c] == Commit(MarkCell(b[c], LiveCount(b, c)))
    ensures r == NextGen(b)
  {
    forall c | c in b
      ensures r[c] == NextGen(b)[c]
    {
      MarkThenCommitIsNextGen(b, c);
    }
  }

  /** The number of cells never changes: a board covering the rectangle keeps
      `dimx * dimy` cells across a generation. */
  lemma NextGenKeepsDimensions(b: Board, dimx: int, dimy: int)
    requires b.Keys == Rect(dimx, dimy)
    ensures NextGen(b).Keys == Rect(dimx, dimy)
    ensures |NextGen(b)| == Area(dimx, dimy)
  {
    RectSize(dimx, dimy);
    assert |NextGen(b)| == |NextGen(b).Keys|;
  }

  /** True when the live cells of a settled board are exactly `s`. */
  predicate Shows(b: Board, s: set<Cell>) {
    forall p :: p in b ==> b[p] == (if p in s then Alive else Dead)
  }

  /** The four cells of the 2x2 block whose lower corner is `(x, y)`. */
  function Block(x: int, y: int): set<Cell> {
    {(x, y), (x + 1, y), (x, y + 1), (x + 1, y + 1)}
  }

  /** A block cell sees the other three block cells and nothing else alive. */
  lemma BlockCellCount(b: Board, x: int, y: int, c: Cell)
    requires Block(x, y) <= b.Keys
    requires Shows(b, Block(x, y))
    requires c in Block(x, y)
    ensures |AliveNeighbors(b, c)| == 3
  {
    var rest := Block(x, y) - {c};
    forall p | p in rest
      ensures p in AliveNeighbors(b, c)
    {
    }
    assert AliveNeighbors(b, c) == rest;
    assert |Block(x, y)| == 4;
  }

  /** A cell off the block sees at most two block cells, those of the block
      side it faces. */
  lemma OffBlockCount(b: Board, x: int, y: int, c: Cell)
    requires Shows(b, Block(x, y))
    requires c !in Block(x, y)
    ensures |AliveNeighbors(b, c)| <= 2
  {
    var n := AliveNeighbors(b, c);
    var pair: set<Cell> :=
      if c.0 < x then {(x, y), (x, y + 1)}
      else if c.0 > x + 1 then {(x + 1, y), (x + 1, y + 1)}
      else if c.1 < y then {(x, y), (x + 1, y)}
      else {(x, y + 1), (x + 1, y + 1)};
    forall p | p in n
      ensures p in pair
    {
      assert p in Block(x, y);
    }
    SubsetSize(n, pair);
  }

  /** Still life: a 2x2 block of live cells on an otherwise dead board is its
      own successor, whatever the board's extent. */
  lemma BlockIsStill(b: Board, x: int, y: int)
    requires Block(x, y) <= b.Keys
    requires Shows(b, Block(x, y))
    ensures NextGen(b) == b
  {
    forall c | c in b
      ensures NextGen(b)[c] == b[c]
    {
      if c in Block(x, y) {
        BlockCellCount(b, x, y, c);
      } else {
        OffBlockCount(b, x, y, c);
      }
    }
  }

  /** Three cells in a row centred on `(x, y)`, along `(dx, dy)`. */
  function Line(x: int, y: int, dx: int, dy: int): set<Cell> {
    {(x - dx, y - dy), (x, y), (x + dx, y + dy)}
  }

  predicate Axis(dx: int, dy: int) {
    (dx, dy) == (1, 0) || (dx, dy) == (0, 1)
  }

  /** The centre of a line of three keeps its two live neighbours. */
  lemma LineCentreCount(b: Board, x: int, y: int, dx: int, dy: int)
    requires Axis(dx, dy) && Line(x, y, dx, dy) <= b.Keys && Shows(b, Line(x, y, dx, dy))
    ensures |AliveNeighbors(b, (x, y))| == 2
  {
    var ends := {(x - dx, y - dy), (x + dx, y + dy)};
    assert AliveNeighbors(b, (x, y)) == ends;
  }

  /** A cell beside the centre, across the line, sees all three. */
  lemma LineSideCount(b: Board, x: int, y: int, dx: int, dy: int, c: Cell)
    requires Axis(dx, dy) && Line(x, y, dx, dy) <= b.Keys && Shows(b, Line(x, y, dx, dy))
    requires c == (x - dy, y - dx) || c == (x + dy, y + dx)
    ensures |AliveNeighbors(b, c)| == 3
  {
    assert AliveNeighbors(b, c) == Line(x, y, dx, dy);
  }

  /** An end of the line sees only the centre. */
  lemma LineEndCount(b: Board, x: int, y: int, dx: int, dy: int, c: Cell)
    requires Axis(dx, dy) && Shows(b, Line(x, y, dx, dy))
    requires c == (x - dx, y - dy) || c == (x + dx, y + dy)
    ensures |AliveNeighbors(b, c)| <= 1
  {
    SubsetSize(AliveNeighbors(b, c), {(x, y)});
  }

  /** Any other cell cannot touch both ends, so it sees at most two. */
  lemma LineOtherCount(b: Board, x: int, y: int, dx: int, dy: int, c: Cell)
    requires Axis(dx, dy) && Shows(b, Line(x, y, dx, dy))
    requires c !in Line(x, y, dx, dy) + Line(x, y, dy, dx)
    ensures |AliveNeighbors(b, c)| <= 2
  {
    var near: set<Cell> :=
      if Adjacent(c, (x - dx, y - dy)) then {(x - dx, y - dy), (x, y)}
      else {(x, y), (x + dx, y + dy)};
    SubsetSize(AliveNeighbors(b, c), near);
  }

  /** Oscillator: a line of three live cells on an otherwise dead board turns
      into the perpendicular line through the same centre. */
  lemma BlinkerTurns(b: Board, x: int, y: int, dx: int, dy: int)
    requires Axis(dx, dy)
    requires Line(x, y, dx, dy) + Line(x, y, dy, dx) <= b.Keys
    requires Shows(b, Line(x, y, dx, dy))
    ensures Shows(NextGen(b), Line(x, y, dy, dx))
  {
    forall c | c in b
      ensures NextGen(b)[c] == (if c in Line(x, y, dy, dx) then Alive else Dead)
    {
      if c == (x, y) {
        LineCentreCount(b, x, y, dx, dy);
      } else if c in Line(x, y, dy, dx) {
        LineSideCount(b, x, y, dx, dy, c);
      } else if c in Line(x, y, dx, dy) {
        LineEndCount(b, x, y, dx, dy, c);
      } else {
        LineOtherCount(b, x, y, dx, dy, c);
      }
    }
  }

  /** The blinker has period two: two generations restore the board. */
  lemma BlinkerPeriodTwo(b: Board, x: int, y: int, dx: int, dy: int)
    requires Axis(dx, dy)
    requires Line(x, y, dx, dy) + Line(x, y, dy, dx) <= b.Keys
    requires Shows(b, Line(x, y, dx, dy))
    ensures NextGen(NextGen(b)) == b
  {
    BlinkerTurns(b, x, y, dx, dy);
    BlinkerTurns(NextGen(b), x, y, dy, dx);
  }
}
