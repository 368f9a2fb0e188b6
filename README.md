# Minesweeper game page, modelled in Dafny

This project models the core of a browser Minesweeper game. That core is:

- the board engine of the game page (`MineSweeperGamePage.jsx`), with its flag and reveal handlers;
- the game context that records whether the game is over and how it ended (`MineSweeperContext.jsx`);
- the cell view, which decides what a cell shows and where a click on it goes (`Cell.jsx`).

The model is split into these modules:

- `Grid` (grid.dfy): board geometry.
  - The positions of a rows x cols board, and how many there are.
  - The eight neighbour offsets, in the order the page lists them.
  - The adjacency count of a cell, and a proof that it equals the number of distinct in-bounds bombs around that cell.
- `Board` (board.dfy): the cell record and the specification of the engine's operations.
  - A snapshot of the grid is a map from each position to its cell. The specification is stated over such snapshots.
  - Mine placement is specified as a loop invariant over a stream of draws.
  - The adjacency pass is specified as `CountsFilled`.
  - The recursive reveal is specified as `Filled`. It only reveals cells it may reveal. Every cell it reveals is reached from the seed through zero-count cells. Every zero-count cell it reveals is expanded.
  - The flood-fill law (`FillRevealsRegion`): the cells revealed are exactly those reachable from the seed through revealable zero-count cells.
- `Engine` (engine.dfy): the engine's procedures, running in place on an `array2<Cell>`.
  - They are createInitialGrid, placeMines, calculateNeighboringMines (nested `for` loops), the recursive revealEmptyCells and the "reveal every bomb" loop.
  - Each one is proved against the `Board` specification.
- `PageRules` (pagerules.dfy): the page's state as a value.
  - That state is gameState plus the isFirstClick ref: the grid, revealedCount, flagCount, hitBomb, wonGame and isFirstClick.
  - The transitions of handleFlag and handleReveal.
  - The invariant `PageInv`, proved to hold in the new game and to be kept by every transition.
  - What the invariant gives:
    - wonGame holds exactly when every non-bomb cell is revealed;
    - revealedCount never exceeds the number of non-bomb cells;
    - after a hit bomb every bomb is showing.
- `GameContext` (context.dfy): the context's state machine.
  - Its pure transition functions.
  - The provider as a class whose two callbacks apply them.
  - Lost and won are absorbing, and the first deciding call fixes the outcome.
- `CellView` (cellview.dfy):
  - getCellContent, including the decimal rendering of the count;
  - the click and context-menu routing.
- `GamePage` (gamepage.dfy): the page as a class `Game`.
  - Fields: the grid array, the tallies, the isFirstClick ref and the context it reads gameOver from.
  - Its handlers run the engine on the grid. Each one is proved to perform the corresponding `PageRules` transition.
  - The game-over effect runs after each flag or reveal. It keeps the context's status in step with hitBomb and wonGame.

Math.random is modelled as a parameter `draws`. It is the sequence of positions the placement loop would draw, in order.

Four behaviours of the code that the model keeps as written:

- The first click never cascades.
  - Line 192 marks the clicked cell revealed before revealEmptyCells is called at line 196.
  - That call then stops at its isRevealed guard.
  - So a first click always counts exactly one revealed cell (`FirstStep`).
- handleFlag has no bounds check, so the model requires the cell to be on the grid.
- Flags placed before the first click are lost with the old grid, but flagCount keeps counting them.
  - The model carries this in the ghost field `droppedFlags`: flagCount is the number of flagged cells plus droppedFlags.
  - So mines-remaining is `mines - flagged - droppedFlags` (`Game.MinesRemaining`).
- Flagging after the game ends is refused only through the context's gameOver, which the game-over effect sets.

## Model

| member | source | states |
|---|---|---|
| Grid.Positions | src/components/MineSweeperGamePage.jsx:26-27 | a position is on the board exactly when its row is in 0..rows-1 and its column in 0..cols-1 |
| Grid.PositionsCard | src/components/MineSweeperGamePage.jsx:22 | a rows x cols board has rows * cols positions, the total that rows * cols - mines starts from |
| Grid.DirectionsExact | src/components/MineSweeperGamePage.jsx:68-72 | each of the eight offsets is a genuine neighbour offset, and no offset is listed twice |
| Grid.StepInjective | src/components/MineSweeperGamePage.jsx:84-86 | two different offsets from a cell lead to two different cells |
| Grid.BombsAmong | src/components/MineSweeperGamePage.jsx:84-96 | after k offsets the count of bombs found is at most k |
| Grid.AdjacentBombs | src/components/MineSweeperGamePage.jsx:83-96 | the count the eight-offset loop computes lies in 0..8 |
| Grid.BombsAmongCounts | src/components/MineSweeperGamePage.jsx:84-96 | the running count after k offsets is the number of distinct in-bounds bombs those offsets reach |
| Grid.AdjacentBombsIsNeighbourCount | src/components/MineSweeperGamePage.jsx:83-98 | the count stored in a cell is the number of distinct in-bounds adjacent cells that are bombs |
| Board.FreshCell | src/components/MineSweeperGamePage.jsx:27-34 | a new cell knows its row and column, is no bomb, hidden, unflagged, with count 0 |
| Board.AcceptedNotExcluded | src/components/MineSweeperGamePage.jsx:55-61 | a draw the loop accepts is never the clicked cell and is one of the draws made so far |
| Board.AcceptedWithin | src/components/MineSweeperGamePage.jsx:52-53 | draws on the board give accepted positions on the board |
| Board.AcceptedGrows | src/components/MineSweeperGamePage.jsx:51-62 | drawing more never loses an accepted position |
| Board.PlacementReject | src/components/MineSweeperGamePage.jsx:55-58 | a draw of the clicked cell or of a bomb is skipped with nothing changed |
| Board.PlacementAccept | src/components/MineSweeperGamePage.jsx:60-61 | any other draw becomes a bomb and placedMines grows by one |
| Board.BombsOfSet | src/components/MineSweeperGamePage.jsx:60 | setting isBomb on a non-bomb adds exactly that cell to the bombs |
| Board.OnlyMinesGrow | src/components/MineSweeperGamePage.jsx:60 | setting isBomb on an accepted cell changes only that cell's bomb bit |
| Board.PlacementStep | src/components/MineSweeperGamePage.jsx:51-62 | one pass of the placement loop keeps its invariant, whichever way the draw goes |
| Board.PlacementExhausted | src/components/MineSweeperGamePage.jsx:51 | once the whole stream is drawn, placedMines is exactly the number of accepted draws that were not bombs before |
| Board.PlacementDone | src/components/MineSweeperGamePage.jsx:51-62 | at loop exit only accepted draws became bombs, placedMines of them |
| Board.CountFor | src/components/MineSweeperGamePage.jsx:78-98 | the value the adjacency pass stores in a cell: -1 for a bomb, otherwise the cell's adjacency count |
| Board.CountsFilledConsistent | src/components/MineSweeperGamePage.jsx:74-100 | after the adjacency pass a cell holds -1 exactly when it is a bomb, every count lies in -1..8 and agrees with the bombs, and the bombs are unchanged |
| Board.RevealBombs | src/components/MineSweeperGamePage.jsx:220-222 | every bomb becomes revealed and nothing else changes |
| Board.RevealBombsAfterHit | src/components/MineSweeperGamePage.jsx:219-222 | revealing the clicked bomb first makes no difference to revealing every bomb |
| Board.OnlyRevealsKeeps | src/components/MineSweeperGamePage.jsx:118-125 | a reveal of eligible cells keeps bombs and flags, keeps the revealed cells revealed, and hides nothing |
| Board.OnlyRevealsTrans | src/components/MineSweeperGamePage.jsx:135-142 | two such reveals in a row are one |
| Board.FillPathLater | src/components/MineSweeperGamePage.jsx:135-142 | a reveal path found earlier in the fill stays one as the fill goes on |
| Board.FillPathExtend | src/components/MineSweeperGamePage.jsx:138-140 | a path of the recursive call from a neighbour, with the seed in front, is a path from the seed |
| Board.FillStart | src/components/MineSweeperGamePage.jsx:118-127 | revealing the eligible seed reveals one cell, rooted at the seed, and starts the offset loop when its count is 0 |
| Board.FillLoopStep | src/components/MineSweeperGamePage.jsx:135-142 | the recursive call on an on-board neighbour keeps the loop invariant and leaves that neighbour covered |
| Board.FillLoopSkip | src/components/MineSweeperGamePage.jsx:138-139 | an offset that leaves the board needs no call |
| Board.FillEnd | src/components/MineSweeperGamePage.jsx:128-145 | after all eight offsets the fill from the seed is complete |
| Board.UnrevealedShrinks | src/components/MineSweeperGamePage.jsx:125 | revealing the seed leaves fewer hidden cells: the recursion terminates |
| Board.PathRevealed | src/components/MineSweeperGamePage.jsx:128-142 | every cell on a path of revealable cells through zero counts from the seed is revealed by the fill |
| Board.FillRevealsRegion | src/components/MineSweeperGamePage.jsx:117-146 | the flood-fill law: a cell is newly revealed exactly when it is reachable from the seed through revealable cells, passing only through cells with count 0 |
| Board.FillCount | src/components/MineSweeperGamePage.jsx:125-126 | the revealed non-bombs grow by exactly the newly revealed cells, none revealed before |
| Engine.CreateInitialGrid | src/components/MineSweeperGamePage.jsx:24-38 | a new rows x cols grid whose cell at (i, j) is the fresh cell of (i, j) |
| Engine.FreshGrid | src/components/MineSweeperGamePage.jsx:24-38 | a new grid has no bombs, flags or revealed cells, every cell at its own position |
| Engine.PlaceMines | src/components/MineSweeperGamePage.jsx:47-63 | exactly mineCount new bombs, all accepted draws of a prefix of the stream, never the excluded cell, no other field changed |
| Engine.PlaceAttempt | src/components/MineSweeperGamePage.jsx:52-61 | one pass of the while loop keeps the placement invariant and grows placedMines by at most one |
| Engine.CalculateNeighboringMines | src/components/MineSweeperGamePage.jsx:65-101 | every bomb holds -1, every other cell the count of its adjacent in-bounds bombs, nothing else changed |
| Engine.CountRow | src/components/MineSweeperGamePage.jsx:75-99 | one pass of the outer loop fills in exactly that row's counts |
| Engine.CountAdjacent | src/components/MineSweeperGamePage.jsx:83-96 | the eight-offset loop returns the adjacency count of the cell |
| Engine.RevealEmptyCells | src/components/MineSweeperGamePage.jsx:117-146 | the grid after the call is a complete fill from (row, col), and the result is the input count plus the number of non-bombs revealed |
| Engine.RevealFrom | src/components/MineSweeperGamePage.jsx:231-233 | the recursive reveal on the page's grid yields a fill of it, the count grown by the cells newly revealed |
| Engine.RevealNeighbour | src/components/MineSweeperGamePage.jsx:135-142 | one pass of the offset loop keeps the fill invariant and adds what the recursive call revealed |
| Engine.RevealAllBombs | src/components/MineSweeperGamePage.jsx:220-222 | the forEach reveals every bomb and changes nothing else |
| PageRules.TotalNonBombCells | src/components/MineSweeperGamePage.jsx:22 | the win target: the cells of the board less its mines |
| PageRules.NewGame | src/components/MineSweeperGamePage.jsx:110-114 | a fresh rows x cols grid, both tallies 0, no bomb hit, not won, and the next click a first click (as the initial gameState at lines 40-44) |
| PageRules.RevealStep | src/components/MineSweeperGamePage.jsx:166-248 | handleReveal: nothing changes when the cell is off the grid, revealed or flagged or the game is over; otherwise the first click takes FirstStep and any later click LaterStep |
| PageRules.FirstStep | src/components/MineSweeperGamePage.jsx:184-209 | the first click: a freshly mined and counted grid with only the clicked cell revealed, revealedCount 1, wonGame exactly when that is the win target, isFirstClick cleared, the old grid's flags dropped from the grid but kept in flagCount |
| PageRules.LaterStep | src/components/MineSweeperGamePage.jsx:213-247 | a later click: a bomb shows every bomb and sets hitBomb; a cell with count 0 is flood-filled from, revealedCount growing by the cells newly revealed; any other cell is revealed alone, revealedCount growing by one; wonGame follows revealedCount |
| PageRules.DifficultySettings | src/components/MineSweeperGamePage.jsx:10-14 | every level has at least one mine, fewer mines than cells, and at least 54 non-bomb cells |
| PageRules.NewGameInv | src/components/MineSweeperGamePage.jsx:104-115 | the state initializeNewGame sets satisfies the page invariant |
| PageRules.ToggleFlag | src/components/MineSweeperGamePage.jsx:148-164 | on a hidden cell while the game is on, only that cell's flag flips and flagCount moves by one in the same direction; otherwise nothing changes |
| PageRules.ToggleFlagTwice | src/components/MineSweeperGamePage.jsx:151-161 | flagging a cell twice restores the grid and flagCount |
| PageRules.FlaggedFlip | src/components/MineSweeperGamePage.jsx:155-160 | a flip adds the cell to the flagged cells or removes it, and changes no revealed cell |
| PageRules.ToggleFlagInv | src/components/MineSweeperGamePage.jsx:148-164 | handleFlag keeps the page invariant |
| PageRules.SameBoardKeeps | src/components/MineSweeperGamePage.jsx:153-160 | changing only revealed and flagged bits keeps the bombs, the grid's shape and every count |
| PageRules.MinedFresh | src/components/MineSweeperGamePage.jsx:186-189 | mining a fresh grid around the clicked cell leaves every cell fresh but its bomb bit, and the clicked cell no bomb |
| PageRules.CountedFresh | src/components/MineSweeperGamePage.jsx:190 | counting that grid gets every count right and keeps everything else |
| PageRules.LaidBuilt | src/components/MineSweeperGamePage.jsx:186-189 | the first click's grid holds exactly mines bombs, the accepted draws of a prefix, never the clicked cell |
| PageRules.MinedBuilt | src/components/MineSweeperGamePage.jsx:186-190 | after counting, that grid has every count right with nothing revealed or flagged |
| PageRules.FirstRevealed | src/components/MineSweeperGamePage.jsx:192 | revealing the clicked cell gives the grid of a first click: the clicked cell the only revealed one |
| PageRules.RevealedAlone | src/components/MineSweeperGamePage.jsx:192 | revealing one cell of a counted grid keeps every count and reveals only that cell |
| PageRules.OnlyRevealsParts | src/components/MineSweeperGamePage.jsx:231-237 | a later non-bomb reveal shows no bomb, changes no flag, and grows the revealed non-bombs by the newly revealed cells |
| PageRules.RevealOne | src/components/MineSweeperGamePage.jsx:235-236 | revealing a numbered cell alone reveals exactly that one cell |
| PageRules.RevealsKeepInv | src/components/MineSweeperGamePage.jsx:231-244 | the flood-fill and numbered branches keep the page invariant |
| PageRules.RevealBombsShows | src/components/MineSweeperGamePage.jsx:218-222 | showing every bomb changes no flag and no non-bomb, and leaves exactly the bombs revealed among bombs |
| PageRules.BombKeepsInv | src/components/MineSweeperGamePage.jsx:218-228 | the bomb branch keeps the page invariant, with hitBomb set and every bomb showing |
| PageRules.FirstClickKeepsInv | src/components/MineSweeperGamePage.jsx:184-209 | the first click keeps the page invariant: exactly mines bombs, one revealed cell, every count right |
| PageRules.RevealStepInv | src/components/MineSweeperGamePage.jsx:166-248 | every transition of handleReveal keeps the page invariant |
| PageRules.LaterStepInv | src/components/MineSweeperGamePage.jsx:213-247 | every reveal after the first click keeps the page invariant |
| PageRules.WonMeansCleared | src/components/MineSweeperGamePage.jsx:243 | wonGame holds exactly when every non-bomb cell is revealed, and revealedCount never exceeds rows * cols - mines |
| PageRules.SafeCount | src/components/MineSweeperGamePage.jsx:22 | a full grid has rows * cols less its bombs non-bomb cells |
| PageRules.RevealNeverHides | src/components/MineSweeperGamePage.jsx:213-247 | a later reveal never hides a revealed cell and never lowers revealedCount |
| GameContext.InitialState | src/context/MineSweeperContext.jsx:6-11 | the provider's initial state: not over, playing, both cell totals 0 |
| GameContext.Initialized | src/context/MineSweeperContext.jsx:13-20 | initializeGame gives a game in play, no cells revealed, rows * cols - mines non-bomb cells |
| GameContext.CheckOutcome | src/context/MineSweeperContext.jsx:22-44 | once over nothing changes; else a bomb loses even with a win, a win alone wins, neither changes nothing; the cell totals are kept |
| GameContext.InitialConsistent | src/context/MineSweeperContext.jsx:6-20 | the initial and the initialized state have gameOver exactly when the status is not playing |
| GameContext.CheckKeepsConsistent | src/context/MineSweeperContext.jsx:22-44 | checkIfGameIsOver keeps gameOver in step with the status |
| GameContext.RunChecks | src/context/MineSweeperContext.jsx:22-44 | any run of calls keeps the cell totals |
| GameContext.FirstOutcome | src/context/MineSweeperContext.jsx:26-40 | a run has no outcome exactly when no call in it reports a bomb or a win, and an outcome is lost or won |
| GameContext.FirstDecisiveWins | src/context/MineSweeperContext.jsx:22-44 | over a run from a game in play, the first call with a bomb or a win fixes the outcome and nothing after it changes it |
| GameContext.GameOverAbsorbs | src/context/MineSweeperContext.jsx:23 | once the game is over no run of calls changes the state: lost and won are absorbing |
| GameContext.MineSweeperContext.constructor | src/context/MineSweeperContext.jsx:6-11 | the provider starts not over, playing, with both totals 0 |
| GameContext.MineSweeperContext.InitializeGame | src/context/MineSweeperContext.jsx:13-20 | the state becomes the initialized state |
| GameContext.MineSweeperContext.CheckIfGameIsOver | src/context/MineSweeperContext.jsx:22-44 | the state becomes the outcome of the check on the old state |
| CellView.DecimalString | src/components/Cell.jsx:42 | the count's toString is a canonical decimal numeral denoting the count |
| CellView.CellContent | src/components/Cell.jsx:36-45 | a flag shows the flag glyph; a hidden cell nothing; a revealed bomb the bomb glyph; a positive count its numeral; anything else nothing |
| CellView.ContentCases | src/components/Cell.jsx:36-45 | the flag glyph, the bomb glyph and the empty string each arise in exactly the cases that give them |
| CellView.HiddenShowsNothing | src/components/Cell.jsx:38-39 | what a hidden, unflagged cell shows depends neither on its bomb bit nor on its count |
| CellView.OnClick | src/components/Cell.jsx:19-27 | a shift-click always flags; a plain click reveals exactly when the cell is unflagged and the game is on |
| CellView.OnContextMenu | src/components/Cell.jsx:29-34 | a right-click never reveals, and flags exactly when the game is on |
| GamePage.LaidBoard | src/components/MineSweeperGamePage.jsx:186-189 | the new grid of the first click has its mines laid around the click |
| GamePage.MinedBoard | src/components/MineSweeperGamePage.jsx:186-190 | the new grid is mined around the click and counted |
| GamePage.FirstClickBoard | src/components/MineSweeperGamePage.jsx:186-197 | the first click's grid with only the clicked cell revealed, and a count of 1 (the fill call reveals nothing) |
| GamePage.EffectSyncs | src/components/MineSweeperGamePage.jsx:303-309 | from a synced context, checkIfGameIsOver(hitBomb, wonGame) leaves the context synced with any new page state the game allows |
| GamePage.RevealSyncs | src/components/MineSweeperGamePage.jsx:303-309 | a reveal followed by the game-over effect keeps the page invariant and the context in sync |
| GamePage.Game.constructor | src/components/MineSweeperGamePage.jsx:289-291 | the page mounts with the new game of its level, valid and synced with an initialized context |
| GamePage.Game.InitializeNewGame | src/components/MineSweeperGamePage.jsx:104-115 | the page's state becomes the new game, the context is initialized, and the two are in sync |
| GamePage.Game.HandleFlag | src/components/MineSweeperGamePage.jsx:148-164 | the page's state becomes ToggleFlag of the old state |
| GamePage.Game.HandleReveal | src/components/MineSweeperGamePage.jsx:166-248 | the page's state goes from the old state by the handleReveal transition, a no-op when the cell is off the grid, revealed or flagged or the game is over |
| GamePage.Game.FirstClick | src/components/MineSweeperGamePage.jsx:184-210 | the state becomes the first click's |
| GamePage.Game.Install | src/components/MineSweeperGamePage.jsx:200-209 | the first click's grid and count replace the old ones, and wonGame follows the count |
| GamePage.Game.LaterReveal | src/components/MineSweeperGamePage.jsx:213-247 | the state goes from the old state by the later-reveal transition on the same grid array |
| GamePage.Game.HitBomb | src/components/MineSweeperGamePage.jsx:218-229 | every bomb is revealed, hitBomb set, revealedCount unchanged |
| GamePage.Game.RevealZero | src/components/MineSweeperGamePage.jsx:231-233 | the grid becomes a fill from the cell and revealedCount grows by the cells newly revealed |
| GamePage.Game.RevealNumbered | src/components/MineSweeperGamePage.jsx:234-237 | exactly the clicked cell is revealed and revealedCount grows by one |
| GamePage.Game.GameOverEffect | src/components/MineSweeperGamePage.jsx:303-309 | the context becomes checkIfGameIsOver(hitBomb, wonGame) of the old context |
| GamePage.Game.MinesRemaining | src/components/MineSweeperGamePage.jsx:343 | mines less flagCount, so mines less the flagged and the dropped flags, negative exactly when those outnumber the mines |
| GamePage.Game.Click | src/components/Cell.jsx:19-27 | a click on a cell does what its routing says: flag, reveal or nothing, keeping the invariant and the sync |
| GamePage.Game.ContextMenu | src/components/Cell.jsx:29-34 | a right-click flags unless the game is over, keeping the invariant and the sync |
| GamePage.Game.FlagAndCheck | src/components/MineSweeperGamePage.jsx:148-164 | handleFlag followed by the game-over effect keeps the invariant and the sync |
| GamePage.Game.RevealAndCheck | src/components/MineSweeperGamePage.jsx:166-248 | handleReveal followed by the game-over effect keeps the invariant and the sync |

## Left out

- Persistence (lines 250-300 of `MineSweeperGamePage.jsx`) is host I/O and is not modelled. That covers loading a saved game, which sets isFirstClick to false, and saving on every change. The page is modelled as mounting with no saved game. handleReset is modelled by `Game.InitializeNewGame`, which is what it calls after clearing the storage.
- React's state machinery is not modelled: setState batching, updater functions, stale closures and dependency lists. Each handler reads and updates the page's current state directly. The game-over effect runs right after each flag or reveal (`Game.Click`, `Game.ContextMenu`), not on React's schedule. The page's handlers read the gameState of an earlier render (dependency lists at lines 164 and 248). The model does not capture what that allows: a re-click on an already revealed numbered cell passes the handler's stale guard and counts the cell again at lines 235-236, which can set wonGame too early (Cell.jsx does not test isRevealed before revealing); and a stale handleFlag can flag a revealed cell.
- Rendering, the memoized grid view, the CSS class string of a cell, the navigation components and the status message are presentation only.
- `console.log` calls and `event.preventDefault` have no effect on the state and are dropped.
- Math.random is replaced by the `draws` parameter. The distribution of the mines is not modelled.
- Engine.PlaceMines: requires that the draws hold mineCount acceptable positions. The source loop would otherwise run forever, and it can end at all only when mineCount < rows * cols. The requires also rules out mineCount > 0 on a grid with no rows, where the source returns at line 48 without placing anything: no page grid is smaller than 8 x 8.
- GamePage.Game.HandleReveal: on a first click, requires draws that fit (`DrawsFit`) for the same reason. So do `Game.FirstClick`, `Game.Click` and `Game.RevealAndCheck`.
- GamePage.Game.HandleFlag: requires the cell to be on the grid. The source indexes the grid without a check and would throw off the grid.
- The grid copies that handleFlag and handleReveal make (lines 153 and 214) are modelled as an update in place of the page's one grid. No older copy is kept, so aliasing between renders is not modelled.
- The guards `!grid[row] || !grid[row][col]` in calculateNeighboringMines (lines 76, 90-91) always pass on a full grid, and are not modelled. The same guards in revealEmptyCells and handleReveal (lines 118, 170) are modelled as the on-grid test.
- JavaScript numbers are doubles. Every count here is at most 480, far below exact-integer range, so counts are modelled as unbounded integers.
- An unknown level in the URL leaves the settings undefined and the page fails. The model has exactly the three levels of DIFFICULTY_SETTINGS.
- The context's revealedCells is never updated by the page. The model says so: it stays 0 (`GamePage.SyncedWith`).
