# Minesweeper game-state engine in Dafny

This project models the game logic of a browser Minesweeper written in one
JavaScript file (`minesweeper.js`). In the original, the board lives in the
class lists of DOM cell elements (`mine`, `opened`, `flagged`) and the game
state lives in two globals, `isGameOver` and `moveCount`. Here the board is a
`Game` object with three `array2<bool>` grids, a `phase` (`Ready`, `Playing`,
`Won`, `Lost`) and a move counter. Cells are `(row, col)` pairs rather than
`"r_c"` string ids.

Two modules:

- `Grid` (`grid.dfy`) covers board geometry:
  - the clipped 3x3 neighbour window, as the function `Neighbors` and as the loop method `GetNeighbors`;
  - the row-major flat index used by mine placement, with its round trips;
  - the pigeonhole fact that keeps the placement loop supplied with a free index;
  - the as-written index formulas of the source, for the findings below.
- `Minesweeper` (`minesweeper.dfy`) covers the game:
  - input validation, as `CheckInputs` and the `StartGame` factory;
  - the class `Game`, with mine placement, the adjacent-mine count, the reveal cascade, the win test, the game-over test, move processing and flag toggling.

`Game.Valid()` is the invariant that `MakeMove` preserves:
- the grids have the board's dimensions;
- before the first move, nothing is mined or opened;
- from the first move on, exactly `nmines` cells are mines;
- outside a lost game, no mine is opened and every opened blank cell has its whole window opened;
- a won game has every safe cell opened, and a game still in play does not.

Where the code differs from its doc comments or from the usual rules of the game, the model follows the code:
- The neighbour window includes the cell itself, so an interior cell has nine neighbours, although the doc comment says "at most 8" (minesweeper.js:129, 259-264).
- The adjacent-mine count skips mines that are already opened (minesweeper.js:136). `CountIgnoresOpenedWhileNoMineOpen` shows this equals the plain mine count in every state where no mine is opened, which is every phase except `Lost`.
- `moveCount` increases only for accepted moves. A click on an opened cell is ignored completely (minesweeper.js:154-155).
- Flags never block a reveal.

In the places listed under "## Findings", the model follows the documented intent instead of the code.

## Model

| member | source | states |
|---|---|---|
| Minesweeper.CheckInputs | minesweeper.js:56-66 | no error exactly when both dimensions are at least 1 and nmines < nrows*ncols; a non-positive dimension is reported first, then too many mines |
| Minesweeper.StartGame | minesweeper.js:26-41 | rejected exactly when CheckInputs fails, with that error; otherwise a fresh valid game in phase Ready with the given dimensions, no flags and max(nmines, 0) mines to lay |
| Minesweeper.Game.constructor | minesweeper.js:30-40 | a new board has nothing mined, opened or flagged and satisfies Valid |
| Grid.NeighborsAreWindow | minesweeper.js:253-266 | the neighbour list holds exactly the on-board cells within one row and one column of p, p itself included, with no duplicates |
| Grid.Neighbors | minesweeper.js:253-266 | the neighbour list has at most 9 entries |
| Grid.GetNeighbors | minesweeper.js:253-266 | the outer loop over the window's rows builds exactly the neighbour list |
| Grid.PushRow | minesweeper.js:260-263 | the inner loop appends the cells of one window row, left to right |
| Grid.IndexRoundTrips | minesweeper.js:116-122 | the flat index r*ncols+c is a bijection between the board's cells and 0 .. nrows*ncols-1; decoding by (i / ncols, i % ncols) inverts it |
| Grid.FreeIndexExists | minesweeper.js:112-115 | while fewer indices are taken than the board has cells, one index is still free, so the rejection-sampling loop can always draw a new mine |
| Minesweeper.Game.RandomlyAssignMines | minesweeper.js:96-123 | after placement exactly nmines distinct cells are mines and the first-clicked cell is not one of them |
| Minesweeper.Game.MarkMines | minesweeper.js:116-122 | after the marking loop a cell is a mine exactly when its flat index was drawn |
| Minesweeper.Game.CalculateNeighborMineCounts | minesweeper.js:125-141 | the result lists exactly the cells of p's window that are mines and not opened, in neighbour order, so its length is at most the neighbour count and at most 9 |
| Minesweeper.Game.WindowMines | minesweeper.js:131-141 | the unopened mines of p's neighbour list are exactly the unopened mines within one row and one column of p |
| Minesweeper.Game.UnopenedMinesMembers | minesweeper.js:131-141 | a cell is in the count list exactly when it is in the list scanned and is an unopened mine |
| Minesweeper.Game.CountIgnoresOpenedWhileNoMineOpen | minesweeper.js:136 | while no mine is opened, the unopened-mine count equals the count of all neighbouring mines |
| Minesweeper.Game.DisplayNeighbors | minesweeper.js:179-198 | the reveal opens p; the opened set only grows; no mine is opened; when p has a nonzero count the opened set gains p alone; every cell it gains is reached from p by a chain of gained cells, each in the window of the one before and all but the last blank, so the reveal never crosses a numbered cell into a region p cannot reach; afterwards every opened blank cell has its whole window opened |
| Minesweeper.Game.Cascade | minesweeper.js:193-196 | the cascade from a blank cell runs until its work list is empty and ends with the grid equal to its opened set and with the cascade invariant holding |
| Minesweeper.Game.CascadeStart | minesweeper.js:193-195 | seeding the work list with a blank cell's neighbour list establishes the cascade invariant |
| Minesweeper.Game.RevealNext | minesweeper.js:187-196 | one turn of the cascade keeps the grid equal to the opened set and keeps the cascade invariant; each turn either opens a cell or shortens the work list, so the cascade terminates |
| Minesweeper.Game.CountIsZero | minesweeper.js:188-189 | while no mine of the window is opened, a zero count of unopened neighbouring mines means exactly that the cell is blank |
| Minesweeper.Game.OpenCell | minesweeper.js:187 | opening one closed cell adds exactly that cell to the opened set, so fewer cells stay closed |
| Minesweeper.Game.CascadeHead | minesweeper.js:193-195 | every scheduled cell is on the board and is not a mine, since it lies in the window of a blank cell |
| Minesweeper.Game.CascadeSkip | minesweeper.js:180 | skipping a scheduled cell that is already opened keeps the cascade invariant |
| Minesweeper.Game.CascadeOpen | minesweeper.js:187-196 | opening a scheduled cell keeps the cascade invariant; a blank cell schedules its whole neighbour list, any other cell schedules nothing |
| Minesweeper.Game.ScheduledOpen | minesweeper.js:193-195 | after a step, every scheduled cell still lies in the window of a blank cell the cascade opened |
| Minesweeper.Game.ClosedUpToOpen | minesweeper.js:189-196 | after a step, every opened blank cell still has its window opened or scheduled |
| Minesweeper.Game.ExplainedOpen | minesweeper.js:193-195 | opening a cell scheduled by a blank cell of the cascade, one rank above that cell, keeps every newly opened cell explained by a blank cell of lower rank |
| Minesweeper.Game.RankReaches | minesweeper.js:186-196 | following the scheduling cell down the ranks leads from every cell the cascade opened back to p, so each is reached from p through blank cells the cascade opened |
| Minesweeper.Game.NoReachPastMine | minesweeper.js:186-196 | on a 1x5 board whose only mine is in column 2, no cell past the mine is reached from column 0, so a reveal there cannot open the far side |
| Minesweeper.Game.CascadeDone | minesweeper.js:180-198 | with the work list empty, the opened cells hold no mine, every opened blank cell has its whole window opened, and every cell gained is reached from p through blank cells gained |
| Minesweeper.Game.ShownCells | minesweeper.js:187 | a set of cells that agrees with the grid is the set of opened cells |
| Minesweeper.Game.MineFreeBoardCleared | minesweeper.js:186-198 | on a board with no mines, one completed reveal opens every cell |
| Minesweeper.Game.GameWon | minesweeper.js:220-234 | the scan returns true exactly when every cell that is not a mine is opened |
| Minesweeper.Game.CheckGameOver | minesweeper.js:200-218 | a mine loses the game and is shown opened, with no other cell changed; on a safe cell the grid is unchanged and the game is won exactly when every safe cell is open |
| Minesweeper.Game.MakeMove | minesweeper.js:143-163 | a move on an opened cell or after the game ended changes nothing; otherwise moveCount rises by exactly 1, the cell ends opened, the opened set only grows, the game is lost exactly when the cell is a mine and won exactly when it is safe and every safe cell is open; on a safe cell with a nonzero count only that cell is gained, and every cell gained is reached from p through blank cells gained; the first move lays nmines mines away from the clicked cell and a mine-free board is won at once; Valid is preserved |
| Minesweeper.Game.FlagCell | minesweeper.js:236-246 | the flag set flips at p when the game is not over and p is closed, and is unchanged otherwise |
| Minesweeper.Toggle | minesweeper.js:244 | toggling flips the membership of p and of no other cell |
| Minesweeper.ToggleTwice | minesweeper.js:244 | toggling a flag twice restores the original flag set |
| Grid.SourceProtectedIndexMissesClick | minesweeper.js:108-111 | on every square board, the index the code protects differs from the clicked cell's own index, and that own index decodes back to the clicked cell |
| Grid.SourceDecodeOffBoard | minesweeper.js:116-121 | decoding by (index / nrows, index % ncols) sends index 5 of a 2x3 board off the board, and sends indices 3 and 5 of a 3x2 board to the same cell |
| Minesweeper.Game.SourceWinTestBeforeReveal | minesweeper.js:152-158 | the win test as ordered in the code runs while the clicked cell is still closed, so the every-cell test cannot pass |
| Minesweeper.Game.SourceWinTestNeedsOpenedMine | minesweeper.js:225-234 | in any started game that has mines and is not lost, the every-cell test of the loop fails, while a won game satisfies the every-safe-cell test |
| Minesweeper.Game.SourceCascadeReschedulesItself | minesweeper.js:186-197 | a blank cell is in its own neighbour list and its count is still zero once it is opened, so without a guard each visit schedules it again |

## Left out

- Presentation is not modelled: DOM construction and rendering, the cell text, the result and validation messages, and enabling or disabling the inputs (`initializeCell`, `updateInputs`, `showMessage`). It has no effect on game state.
- Event wiring is not modelled: `init`, the click and contextmenu listeners, and `removeHandlers`. A finished game ignores moves through the phase instead.
- The `id`, `qs` and `qsa` DOM helpers are not modelled. The grids replace the element lookups.
- `setTimeout` pacing of the cascade is not modelled. The cascade runs as one synchronous work-list loop, so a reveal completes before the next move.
- `Math.random` and `randomInt` are not modelled. Each draw is a nondeterministic choice among the indices the rejection test accepts, and rejected draws change nothing. The model says nothing about the distribution.
- String ids and their parsing with `split` and `parseInt` are not modelled. Cells are integer pairs.
- Form values read as strings are not modelled. `StartGame` takes integers. Non-numeric or fractional input, and JavaScript's string-to-number coercion in the comparisons, are out of scope. A negative mine count is stored as 0, because the placement loop then lays no mines.
- The debug calls at the end of `startGame` (minesweeper.js:42-44) are not modelled. Mine placement happens on the first accepted move instead, with that move's cell protected, as the comment at minesweeper.js:146-148 describes.
- Minesweeper.Game.GameWon: the loop of the code requires every cell to be opened, mines included. The model checks every safe cell, as the doc comment at minesweeper.js:221 says. The as-written test is `AllCellsOpened`; see "## Findings".
- Minesweeper.Game.RandomlyAssignMines: the model uses the clicked cell's own index and decodes by the column count, not the formulas in the code; see "## Findings".

## Findings

| source | as written | input that shows it | evidently intended | confidence | as-written member | corrected member |
|---|---|---|---|---|---|---|
| minesweeper.js:109-111 | the protected index is (r+1)*nrows + (c+1) | first click (0,0) on a 3x3 board: the code protects index 4, which is cell (1,1); index 0, the clicked cell, can still be drawn as a mine | protect the clicked cell's own index r*ncols + c | not executed | Grid.SourceProtectedIndexMissesClick | Minesweeper.Game.RandomlyAssignMines |
| minesweeper.js:118-119 | a drawn index decodes to row index / nrows, column index % ncols | 2x3 board, index 5: row 2 does not exist; 3x2 board, indices 3 and 5: both decode to (1,1), so fewer mines than requested are laid | decode row-major by the column count, (index / ncols, index % ncols) | not executed | Grid.SourceDecodeOffBoard | Grid.IndexRoundTrips |
| minesweeper.js:156-158 | the win test runs before the clicked cell is opened, and a win never sets isGameOver | any accepted move on a safe cell: the clicked cell is still closed when the win condition is evaluated | reveal first, then test for a win, and end the game on a win | not executed | Minesweeper.Game.SourceWinTestBeforeReveal | Minesweeper.Game.MakeMove |
| minesweeper.js:227-233 | the win test requires every cell opened, mines included | any game with at least one mine: mines stay closed unless the game is lost | every cell that is not a mine is opened | not executed | Minesweeper.Game.SourceWinTestNeedsOpenedMine | Minesweeper.Game.GameWon |
| minesweeper.js:186-196 | the cascade opens a cell without checking whether it is already opened | any blank cell, for example any cell of a mine-free board: its neighbour list contains the cell itself, so each visit schedules another | skip cells that are already opened, so the cascade visits each cell once and terminates | not executed | Minesweeper.Game.SourceCascadeReschedulesItself | Minesweeper.Game.DisplayNeighbors |
