# Game of Life engine — a Dafny model

This project models the simulation engine of `life.py`, a Python
implementation of Conway's Game of Life on a bounded board. The board is a
dictionary from coordinates `(x, y)` to integer marks. `make_random_board`
fills the rectangle `[0, dimx) x [0, dimy)`. `count_neighbors` counts the
occupied cells among the eight Moore neighbours, and a coordinate that is not
a key counts as off the board. `update_board` advances one generation in place
with two passes. The first pass marks cells `WILL_BORN` or `WILL_DIE`. The
second pass commits those marks to `ALIVE` or `DEAD`.

The central result is that the in-place pass is still simultaneous. A count
treats `ALIVE` and `WILL_DIE` as live. Marking only ever turns `DEAD` into
`WILL_BORN` or `ALIVE` into `WILL_DIE`, so no cell changes whether it counts
as live. Every count taken during the first pass therefore equals the count
on the entry board, whatever order the cells are visited in. On a board of
settled marks, the update returns exactly the classic B3/S23 successor.

Modules:

- `Marks` (`marks.dfy`): the four marks (`Dead = 0`, `Alive = 1`,
  `WillBorn = 2`, `WillDie = -1`, as in the source) and the two per-cell
  steps `MarkCell` and `Commit`.
- `Grid` (`grid.dfy`): `Board = map<(int, int), int>`, the `Neighbors`
  offset list in the source's order, adjacency, and the rectangle `Rect`
  together with its size.
- `Counting` (`counting.dfy`): `CountNeighbors`, the loop over the eight
  offsets. It is proved equal to `LiveCount`, a reference count defined as
  the number of board keys that surround the cell and hold a live mark.
- `Generation` (`generation.dfy`): the classic successor `NextGen` and the
  two passes `MarkPass` and `CommitPass`. `UpdateBoard` is proved to compute
  `NextGen`. The still-life block and blinker fixtures are proved as well.
- `RandomBoard` (`random_board.dfy`): `MakeRandomBoard`.

Modelling choices:

- The in-place mutation of the dictionary is modelled as a method that takes
  the board and returns the updated board.
- Python visits a dictionary's keys in insertion order. Both passes instead
  pick the next cell with `:|` from the cells not yet visited. The proofs
  therefore hold for every visiting order, including the source's.
- The test `random.random() < OCCUPANCY` for each cell is an oracle parameter,
  `occupied: Cell -> bool`.
- A board may hold integers that are not one of the four marks. The model
  keeps such boards and proves that `update_board` leaves those cells alone.

Two facts about the code shape the model:

- `make_random_board` has no occupancy parameter, because it reads the
  global `OCCUPANCY`, and it checks neither dimension. A non-positive
  dimension gives an empty `range` (life.py:123-124), so the model returns an
  empty board for it.
- `update_board` accepts any dictionary, not only a full rectangle. The model
  proves its properties for every board, and gives the rectangle-specific
  facts (edge counts, no wraparound, cell count) as separate lemmas.

## Model

| member | source | states |
|---|---|---|
| `Marks.MarkCell` | life.py:142-148 | The first-pass mark never changes whether a cell counts as live. Only `DEAD -> WILL_BORN` and `ALIVE -> WILL_DIE` happen. On a settled cell, the mark changes exactly when the classic rule changes the cell's state. |
| `Marks.Commit` | life.py:150-153 | After commit no `WILL_BORN` or `WILL_DIE` remains. A pending mark becomes the settled state it announces (born -> alive, die -> dead). Any other value is untouched. |
| `Marks.CommitMarkIsLifeRule` | life.py:143-153 | For a settled cell, marking then committing with count `n` gives the B3/S23 rule: alive iff `n == 3`, or the cell was alive and `n == 2`. |
| `Grid.OffsetAdjacent` | life.py:37-45 | Every entry of `NEIGHBORS` leads to one of the eight surrounding cells, so `(0,0)` is not an offset and a cell is never its own neighbour. |
| `Grid.OffsetOf` | life.py:37-45 | Every surrounding cell is reached through some entry of `NEIGHBORS`, so the list covers the whole Moore neighbourhood. |
| `Grid.NeighborsDistinct` | life.py:37-45 | The eight offsets are pairwise different, so no neighbour is visited twice. |
| `Grid.RectSize` | life.py:122-126 | The rectangle filled by the nested `range` loops has `dimx * dimy` cells when both dimensions are positive, and none otherwise. |
| `Counting.CountNeighbors` | life.py:155-171 | The loop's score is exactly the number of board keys adjacent to the cell whose mark is `ALIVE` or `WILL_DIE`. It is at most 8, one increment at most per `NEIGHBORS` entry. |
| `Counting.LiveAmongBound` | life.py:164-169 | Distinct offsets reach at most one live cell each, so the count is bounded by the number of offsets. |
| `Counting.LiveCountAtMostEight` | life.py:163-171 | Every cell of every board has between 0 and 8 live neighbours. |
| `Counting.SameLivenessSameCount` | life.py:168 | The count depends only on which keys hold `ALIVE` or `WILL_DIE`. Boards with the same keys that agree on that give every cell the same count. |
| `Counting.CountIsLocal` | life.py:164-169 | Only the eight surrounding coordinates matter. Boards that agree there, as to presence and liveness, give the same count. |
| `Counting.SelfNotCounted` | life.py:37-45 | A cell's own mark never affects its count. |
| `Counting.MissingIsDead` | life.py:166 | A coordinate that is not a key contributes nothing: adding it as a dead cell changes no count. |
| `Counting.FarWrite` | life.py:166 | Writing any value at a coordinate that does not surround a cell leaves that cell's count unchanged, on every board. |
| `Counting.NoWraparound` | life.py:166 | The board does not wrap around on either axis. When the rectangle is at least 3 long in a direction, a cell at one end of it ignores whatever is written at the opposite end: left against right, right against left, bottom against top and top against bottom. |
| `Counting.CornerCount` | life.py:164-169 | On a board inside the rectangle, each of the four corners has at most 3 live neighbours. |
| `Counting.SideCount` | life.py:164-169 | On a board inside the rectangle, a cell of the left or right edge has at most 5 live neighbours. |
| `Counting.EndCount` | life.py:164-169 | On a board inside the rectangle, a cell of the top or bottom edge has at most 5 live neighbours. |
| `Counting.EdgeCounts` | life.py:164-169 | On a board inside the rectangle, every corner has at most 3 live neighbours and every border cell at most 5. |
| `Generation.NextGen` | life.py:130-153 | The classic successor has the same coordinates as its board and holds only `DEAD` and `ALIVE`. |
| `Generation.SettledCountIsAliveCount` | life.py:168 | On a board of settled marks, the engine's count (live or marked to die) equals the classic count of `ALIVE` neighbours. |
| `Generation.NextGenCell` | life.py:143-153 | In the successor of a settled board, a cell is `ALIVE` iff it was `DEAD` with exactly 3 live neighbours or `ALIVE` with 2 or 3. Otherwise it is `DEAD`. |
| `Generation.MarkThenCommitIsNextGen` | life.py:143-153 | Marking a cell with its entry-board count and then committing gives its cell in the classic successor. |
| `Generation.MarkPass` | life.py:139-148 | In any visiting order, each cell ends with the mark computed from its count on the ENTRY board, even though counts are taken on the partly marked board. Keys are unchanged. |
| `Generation.CommitPass` | life.py:150-153 | In any visiting order, every cell is committed and no pending mark survives. Keys are unchanged. |
| `Generation.UpdateBoard` | life.py:130-153 | Keys are unchanged. Each new mark is a function of the entry board only. A settled board yields exactly `NextGen` of it and stays settled. A cell whose value is not a mark is untouched. |
| `Generation.SimultaneousIsNextGen` | life.py:139-153 | A board whose every cell is the committed mark taken from the settled entry board equals the classic successor. |
| `Generation.NextGenKeepsDimensions` | life.py:139-153 | A board covering the rectangle still covers it after a generation and keeps `dimx * dimy` cells. |
| `Generation.BlockIsStill` | life.py:143-153 | A 2x2 block of live cells on an otherwise dead board of any extent is its own successor. |
| `Generation.BlinkerTurns` | life.py:143-153 | A line of three live cells on an otherwise dead board becomes the perpendicular line through its centre. |
| `Generation.BlinkerPeriodTwo` | life.py:143-153 | Two generations restore the blinker's board. |
| `RandomBoard.MakeRandomBoard` | life.py:112-128 | The keys are exactly `[0,dimx) x [0,dimy)`, with `dimx * dimy` entries, or none if a dimension is not positive. Each cell is `ALIVE` if its draw succeeded and `DEAD` otherwise. |

## Left out

- The `life` game loop (life.py:52-85). It is driven by pygame event polling, `clock.tick` frame pacing and wall-clock `time()`. Its result is a floating-point average.
- `init` and `draw_board` (life.py:87-110, 173-186). They are pygame window setup and drawing, and so are foreign library calls.
- The `__main__` argument handling and the `cProfile`/`pstats` run (life.py:188-197). This is command-line and I/O glue.
- The globals `CELL_DIMENSIONS` and `COLORS` (life.py:30-36) are used only by the rendering code. `FRAMERATE` (life.py:32) paces the game loop through `clock.tick(FRAMERATE)` (life.py:71), which is left out with that loop.
- `RandomBoard.MakeRandomBoard`: says nothing about how the draws are distributed. `random.random() < OCCUPANCY` (life.py:125) is floating-point randomness, so it becomes the oracle `occupied`, and only the board's shape and the cell-to-draw correspondence are proved.
- Python's insertion-ordered dictionary iteration is not modelled. Both passes are proved for every visiting order instead.
- Input validation errors (non-positive dimensions, occupancy out of range) are not modelled, because the code performs no such checks.
