/**
 The integer marks the board stores for each cell, and the two per-cell steps
 of one generation: the decision taken in the first pass and the commit taken
 in the second.
 */
module Marks {

  /* Settled marks, the only ones a reader sees between generations. */
  const Dead: int := 0
  const Alive: int := 1
  /* Pending marks, written by the first pass and resolved by the second. */
  const WillBorn: int := 2
  const WillDie: int := -1

  /** True for a mark that a neighbour count treats as an occupied cell: a live
      cell, including one already marked to die in the current generation. */
  predicate CountsAsLive(m: int) {
    m == Alive || m == WillDie
  }

  /** True for the two marks allowed between generations. */
  predicate Settled(m: int) {
    m == Dead || m == Alive
  }

  /** True for one of the four marks the engine knows about. */
  predicate IsMark(m: int) {
    Settled(m) || m == WillBorn || m == WillDie
  }

  /** The classic B3/S23 rule: a cell is alive in the next generation when it
      has exactly 3 live neighbours, or when it is alive and has exactly 2. */
  predicate LivesNext(alive: bool, n: int) {
    if alive then n == 2 || n == 3 else n == 3
  }

  /** First pass: the mark a cell gets when `n` of its neighbours count as
      live. A change of mark announces exactly a change of state under the
      classic rule, and never changes whether the cell counts as live, which
      is what keeps later counts in the same pass equal to the entry counts. */
  function MarkCell(m: int, n: int): (r: int)
    ensures CountsAsLive(r) == CountsAsLive(m)
    ensures r == m || (m == Dead && r == WillBorn) || (m == Alive && r == WillDie)
    ensures Settled(m) ==> (r != m <==> LivesNext(m == Alive, n) != (m == Alive))
  {
    if m == Dead && n == 3 then WillBorn
    else if m == Alive && !(n == 2 || n == 3) then WillDie
    else m
  }

  /** Second pass: a pending mark becomes the settled state it announces; any
      other mark is left alone. */
  function Commit(m: int): (r: int)
    ensures r != WillBorn && r != WillDie
    ensures !(m == WillBorn || m == WillDie) ==> r == m
    ensures (m == WillBorn || m == WillDie) ==> Settled(r) && (r == Alive <==> m == WillBorn)
  {
    var born := if m == WillBorn then Alive else m;
    if born == WillDie then Dead else born
  }

  /** Marking and then committing a settled cell is the classic rule. */
  lemma CommitMarkIsLifeRule(m: int, n: int)
    requires Settled(m)
    ensures Commit(MarkCell(m, n)) == (if LivesNext(m == Alive, n) then Alive else Dead)
  {
  }
}
