# Minesweeper engine

A model of the game engine of a browser Minesweeper (`script.js`): a square
board of `size` x `size` cells, `numMines` mines placed by rejection sampling,
per-cell counts of adjacent mines kept up to date as each mine is placed, a
recursive flood-fill reveal from zero-count cells, flag toggling, and the
win check that compares the number of revealed cells with the number of
non-mine cells.

The script keeps its state in module-level variables (`board`, `revealed`,
`mines`, `flaggedCells`) and changes it in place. The model keeps the same
four pieces of state as the fields of one object, `Minesweeper.Game`:

- `board: array2<Cell>`, where `Cell = Mine | Count(n)` stands for the
  script's `'M'` or a number;
- `revealed: array2<bool>`;
- `mines` and `flagged`: sets of `(row, col)` pairs (the script's `"row,col"`
  string keys).

`size` and `numMines` (constants 10 and 20 in the script) are parameters,
with `numMines < size * size`.

Files:

- `grid.dfy`, module `Grid`: coordinates, the 3x3 window, the value
  `Expected(mines, p)` that a cell must hold for a given mine set, and
  `Replay(order, p)`, the value a cell holds after the draws in `order` are
  placed one at a time exactly as the placement loop does it. The lemmas here
  prove that the incremental counts equal the counts from the final layout
  (so the order of placement does not matter), that counts lie in [0, 8],
  that a zero-count cell has no adjacent mine, and that "size * size -
  numMines cells revealed" means "every non-mine cell revealed" when no mine
  is revealed. `FloodOrder(mines, trace)` says that every step of a trace
  after the first lies next to an earlier zero-count step; the reveal methods
  return such a trace (a ghost value) and promise that the cells they reveal
  are exactly its cells.
- `minesweeper.dfy`, module `Minesweeper`: the class `Game` with
  `CreateBoard` (the `while` loop), `PlaceDraw` (one round of it),
  `UpdateNeighbors` (the nested `for` loops), `RevealCell` and
  `RevealNeighbours` (the recursive reveal and its cascade loops, with
  `RevealNeighbour` for one visit of the loop body),
  `ToggleFlag`, `CheckWin` (the counting loops), `GameOver` and `InitGame`.

The object invariant `Valid()` says the board holds `Expected(mines, p)` at
every cell, that `mines` holds exactly `numMines` in-bounds coordinates, and
that both grids are `size` x `size`. Generation establishes it; nothing after
generation writes to `board` or `mines`, so every later operation keeps it.

## Model

| member | source | states |
|---|---|---|
| `Grid.PlacingOneMine` | script.js:28-46 | Adding one new mine turns its own cell into a mine, raises each non-mine cell in its 3x3 window by exactly one, and leaves every other cell as it was, measured against the counts of the final layout. |
| `Grid.ReplayIsExpected` | script.js:22-46 | Placing the draws one at a time, skipping repeats, leaves every cell holding `Mine` if and only if it is a drawn coordinate, and otherwise the number of drawn mines in its 3x3 window. |
| `Grid.PlacementOrderIrrelevant` | script.js:24-31 | Two draw sequences that yield the same mine set produce the same board, whatever their order and however many repeats were rejected. |
| `Grid.CountAtMostEight` | script.js:38-46 | A non-mine cell's count lies in [0, 8]. |
| `Grid.ZeroCellHasNoMineNeighbour` | script.js:85-92 | Every cell in the window of a zero-count cell is a non-mine, so the cascade never steps onto a mine. |
| `Grid.CellsSize` | script.js:126 | A `size` x `size` board has `size * size` cells. |
| `Grid.WinMeansCleared` | script.js:125-126 | For revealed cells that include no mine, the count equals `size * size - |mines|` if and only if the revealed cells are exactly the non-mine cells. |
| `Grid.CornerMineExample` | script.js:37-47 | On a 3x3 board with a mine at (0,0), cells (1,1) and (0,1) count 1 and cells (2,2) and (1,2) count 0. |
| `Minesweeper.Toggled` | script.js:105-113 | Toggling p flips p's membership and leaves every other coordinate's membership unchanged. |
| `Minesweeper.ToggledTwice` | script.js:105-113 | Toggling the same coordinate twice restores the original flag set. |
| `Minesweeper.Game.constructor` | script.js:4-7 | A new game satisfies the invariant, has nothing revealed and no flags, and is not won. |
| `Minesweeper.Game.InitGame` | script.js:10-18 | Replaces the board with a freshly generated one, resets `revealed` to all false and clears the flags; the result satisfies the invariant and the win condition does not hold. |
| `Minesweeper.Game.CreateBoard` | script.js:21-34 | Leaves exactly `numMines` distinct, in-bounds mines, namely the distinct coordinates of the draws consumed; stops at the first draw that completes the set; every cell of the fresh board equals both `Replay` of the consumed draws and `Expected` of the final mine set. |
| `Minesweeper.Game.PlaceDraw` | script.js:27-31 | Afterwards the drawn coordinate is a mine and the board is the board of the enlarged mine set; a coordinate that already was a mine changes neither the board nor the set. |
| `Minesweeper.Game.UpdateNeighbors` | script.js:37-47 | Each on-board non-mine cell within distance 1 of (row, col) goes up by exactly one; mine cells and every cell outside the window are unchanged. |
| `Minesweeper.Game.RevealCell` | script.js:68-98 | On a revealed or flagged cell nothing changes and the trace of revealed cells is empty. Otherwise the clicked cell is revealed and heads the trace. A mine or a non-zero cell reveals only itself. The cells that become revealed are exactly those in the trace: each was hidden and unflagged before, and none but the clicked cell is a mine. Every later trace cell lies next to an earlier trace cell whose count is zero, so the cascade only reaches cells connected to the click through zero-count cells. Every revealed zero-count cell ends with all its on-board neighbours revealed or flagged. `board`, `mines` and `flagged` never change. A cleared cell reports its count and the win check. Termination: the set of unrevealed cells shrinks. |
| `Minesweeper.Game.RevealNeighbours` | script.js:85-95 | The cascade loops around a zero-count cell reveal exactly the cells of their trace, none of them flagged, a mine or previously revealed. Each trace cell lies next to the centre cell or to an earlier zero-count trace cell. Afterwards every on-board neighbour of the centre is revealed or flagged, and so is every neighbour of each zero-count cell revealed. |
| `Minesweeper.Game.RevealNeighbour` | script.js:88-93 | One neighbour visit: an off-board position changes nothing; otherwise the neighbour ends revealed or flagged, and the cells revealed are exactly those of a trace that starts at that neighbour and moves only through zero-count cells. |
| `Minesweeper.Game.ToggleFlag` | script.js:101-114 | On a revealed cell the flag set is unchanged; otherwise exactly that coordinate's membership flips. |
| `Minesweeper.Game.CheckWin` | script.js:117-130 | Changes nothing and reports a win if and only if the number of revealed cells equals `size * size - numMines`. |
| `Minesweeper.Game.GameOver` | script.js:133-143 | Changes nothing (in particular not `revealed`) and lists every mine coordinate exactly once, `numMines` in all. |
| `Minesweeper.Game.WinMeansAllSafeCellsRevealed` | script.js:125-126 | With no mine revealed, the win condition holds if and only if every non-mine cell is revealed. |

## Left out

- All DOM work in `createUI`, `revealCell`, `toggleFlag` and `gameOver`
  (buttons, `textContent`, emoji, `classList`, event listeners): presentation
  only.
- `alert`, `setTimeout(initGame, 2000)` and `window.onload`: browser side
  effects and scheduling. `CheckWin` returns its verdict instead of alerting.
  `RevealCell` returns `HitMine` where the script calls `gameOver`, and the
  caller then asks `GameOver` for the mines to expose.
- `Math.random`: the draws are a supplied sequence of in-bounds coordinates,
  and their distribution is not modelled. The script's loop ends only with
  probability one. `CreateBoard` therefore requires the sequence to contain
  at least `numMines` distinct coordinates, which stands for "the loop
  exits".
- Minesweeper.Game.ToggleFlag: the script refuses to flag a button that
  carries the CSS class `revealed`; the model tests `revealed[row, col]`
  instead. They differ only after a loss: `gameOver` adds that class to every
  mine's button without setting `revealed`, so the script then refuses to flag
  those mines and the model does not.
- `checkWin` runs at the end of every non-mine `revealCell` frame, including
  every nested frame of a cascade. A win reached inside a cascade is
  therefore announced, and a reset scheduled, once per enclosing frame. The
  model returns each frame's verdict in `Cleared(count, won)`; the repeated
  alerts are not modelled.
- Out-of-bounds coordinates: the script only receives them from its own
  grid of buttons and would fail on them, so the model requires in-bounds
  coordinates. It has no `OutOfBounds` error result.
- No Won/Lost state: the script has none and accepts clicks until the
  scheduled reset, and so does the model.
- Iteration order of `mines.forEach` (insertion order in the script):
  `GameOver` lists the mines in an unspecified order.
- Recursion depth: the reveal is recursive as in the script, and the call
  stack is not bounded.
