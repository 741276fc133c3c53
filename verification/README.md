# Minesweeper game logic of `MainActivity`

This project is a Dafny model of the game logic in `MainActivity` of a 10x10
Android Minesweeper app, with proofs about it. The views are left out and the
board is pure data.

- **Board** (`Minefield.Board`). Three 10x10 boolean matrices: `minefield`,
  `revealed`, and the flag marks. The app keeps flags as cell text (a cell is
  flagged when its text is the flag string); here they are an explicit matrix.
  `Grid.Cells` maps a matrix to the set of cells where it holds `true`, and the
  contracts are stated in terms of these sets.
- **Queries.** `IsMine` fails closed. `CountAdjacentMines` and
  `CheckWinCondition` are the app's loops, written as methods. Each is proved
  equal to a set-level reference: `AdjacentMines` and `AllSafeRevealed`.
- **Mine placement.** `InitializeMineField` is the rejection-sampling loop.
  Its input is a finite stream of `nextInt(10)` results, read two at a time as
  (row, col).
- **Session** (`Game.Session`). The activity's fields: mode, timer running,
  start time, `gameStarted` and `gameOver`. `Click` is `onClickTV`: ignored after
  game over, starts the timer, checks the view index, then runs the dig branch
  (`Dig`) or the flag branch (`FlagClick`). Each dig opens exactly one cell.
  `ToggleMode` is the mode button. `NewGame` is `newGame`, and `Launch` is the
  state after `onCreate`.
- **End of game.** `MinesToReveal` is the row-major list that
  `revealAllMinesSequentially` builds. `RevealTrace` is the chain of
  `revealMineAtIndex` steps. `ShowResults` computes the win flag and elapsed
  seconds passed to the results screen. `TimerTick` is the timer display.
- **Java arithmetic.** `JavaArith.Div` is `long` division, which truncates
  toward zero. `JavaArith.ToInt` is the `(int)` narrowing cast.

The main invariant is `Game.Inv`:
- exactly five mines;
- no flag on an open cell;
- at most one mine open;
- `gameOver` holds exactly when a mine is open or every safe cell is open, and never both;
- a finished game has its timer stopped.

`NewGame` and `Launch` establish it. `Click` and `ToggleMode` preserve it.

Digging opens exactly one cell. `onClickTV` has no flood fill, so the model
adds none.

Clock time is passed in as a parameter (`now`). `java.util.Random` is replaced
by the draw stream. Delayed callbacks are modelled as the ordered step list
`RevealTrace`, with no real timing.

## Model

| member | source | states |
|---|---|---|
| Grid.CellAt | app/src/main/java/com/example/gridlayout/MainActivity.java:252-253 | for every view index 0..99 the cell (n/10, n%10) is on the board and row*10+col gives n back |
| Grid.IndexOf | app/src/main/java/com/example/gridlayout/MainActivity.java:366 | row*10+col of an on-board cell is a view index 0..99 whose /10 and %10 give back the row and column |
| Grid.IndexRoundTrip | app/src/main/java/com/example/gridlayout/MainActivity.java:415 | index-to-cell and cell-to-index are inverse bijections between 0..99 and the board |
| JavaArith.Div | app/src/main/java/com/example/gridlayout/MainActivity.java:490 | Java long division by a positive divisor: quotient rounded toward zero, bracketed by q*d <= a < q*d+d for a >= 0 and the mirror for a < 0 |
| JavaArith.DivBracket | app/src/main/java/com/example/gridlayout/MainActivity.java:490 | for a non-negative dividend the quotient is non-negative and the dividend lies between quotient*d and quotient*d + d |
| JavaArith.ToInt | app/src/main/java/com/example/gridlayout/MainActivity.java:500 | the (int) cast yields the unique value in the int range congruent to x mod 2^32; values already in range are unchanged |
| Minefield.InitializeMineField | app/src/main/java/com/example/gridlayout/MainActivity.java:159-186 | the new board has exactly MINE_COUNT = 5 distinct on-board mines and nothing revealed or flagged; the mines are the cells named by the shortest prefix of the draws that names 5 distinct cells, since the loop stops at the fifth new cell; it fails only when the draws name fewer than 5 distinct cells |
| Minefield.PlaceMines | app/src/main/java/com/example/gridlayout/MainActivity.java:174-186 | after reading k pairs the mine set is exactly the cells those pairs name and the counter is its size; the loop stops either at 5 mines, in which case the last pair read was the one that completed the set, or when the draws run out |
| Minefield.PlaceMine | app/src/main/java/com/example/gridlayout/MainActivity.java:181-184 | a drawn cell joins the mine set and the counter goes up exactly when the cell had no mine, so the counter keeps matching the number of mines |
| Minefield.IsMine | app/src/main/java/com/example/gridlayout/MainActivity.java:213-218 | true exactly when (row, col) is one of the board's mine cells, so any coordinate off the 10x10 board gives false |
| Minefield.CountAdjacentMines | app/src/main/java/com/example/gridlayout/MainActivity.java:443-455 | the 3x3 scan that skips the centre returns the number of on-board mines among the 8 neighbours, for any coordinate, and it is between 0 and 8 |
| Minefield.AdjacentMinesBounds | app/src/main/java/com/example/gridlayout/MainActivity.java:443-455 | a cell touches at most 8 mines, at most 5 on an edge and at most 3 in a corner |
| Minefield.CheckWinCondition | app/src/main/java/com/example/gridlayout/MainActivity.java:457-469 | the row-major scan returns true iff every non-mine cell of the board is revealed |
| Minefield.FreshBoardNotWon | app/src/main/java/com/example/gridlayout/MainActivity.java:457-469 | a board with 5 mines and nothing revealed is not won |
| Minefield.Reveal | app/src/main/java/com/example/gridlayout/MainActivity.java:281 | the revealed set gains exactly the dug cell; mines and flags are untouched |
| Minefield.ToggleFlag | app/src/main/java/com/example/gridlayout/MainActivity.java:332-345 | the flag set gains the cell if it was unflagged and loses it otherwise; mines and revealed cells are untouched |
| Minefield.ToggleFlagTwice | app/src/main/java/com/example/gridlayout/MainActivity.java:332-345 | toggling the same flag twice gives back the board |
| Minefield.MinesFrom | app/src/main/java/com/example/gridlayout/MainActivity.java:363-378 | the list holds exactly the unrevealed mines at or after the given index, in strictly increasing row-major index order |
| Minefield.MinesToReveal | app/src/main/java/com/example/gridlayout/MainActivity.java:360-383 | the list built at the loss holds exactly the mines not yet open, all on the board, in strictly increasing row-major order |
| Minefield.MinesToRevealExact | app/src/main/java/com/example/gridlayout/MainActivity.java:363-378 | the mine list has no repetition: its element set is the set of unrevealed mines and its length is their number |
| Game.ToggleMode | app/src/main/java/com/example/gridlayout/MainActivity.java:146 | the mode changes, and nothing else in the session does |
| Game.ToggleModeTwice | app/src/main/java/com/example/gridlayout/MainActivity.java:146 | flipping the mode twice gives back the session, and a flip keeps the game invariant |
| Game.EndGame | app/src/main/java/com/example/gridlayout/MainActivity.java:471-481 | the game is over and the timer stopped; no other field changes |
| Game.StartTimerOnClick | app/src/main/java/com/example/gridlayout/MainActivity.java:237-241 | the timer runs afterwards; if it was stopped, the start time becomes the click time (startTimer, lines 115-122) and the game counts as started, and if it was running nothing changes |
| Game.Dig | app/src/main/java/com/example/gridlayout/MainActivity.java:263-319 | a flagged or revealed cell is rejected with no change; otherwise exactly that cell is revealed with mines and flags unchanged. Digging a mine reports an explosion and ends the game. Digging a safe cell reports that cell with its adjacent-mine count: as a victory that ends the game when every safe cell is then revealed, and as a plain uncover otherwise. The timer stops exactly when the game ends |
| Game.FlagClick | app/src/main/java/com/example/gridlayout/MainActivity.java:320-346 | flagging a revealed cell is rejected with no change; otherwise only that cell's flag toggles, reported as placed or removed |
| Game.FlagClickTwice | app/src/main/java/com/example/gridlayout/MainActivity.java:332-345 | two flag clicks on the same hidden cell give back the session |
| Game.Click | app/src/main/java/com/example/gridlayout/MainActivity.java:228-352 | a click after game over changes nothing. Any other click starts a stopped timer at the click time and marks the game started, even when the click is then rejected. A non-cell view changes no board state and leaves the game running. In dig mode a flagged or open cell is rejected with the board unchanged; any other cell is opened (and only it), the click explodes exactly when it is a mine, a safe cell reports its adjacent-mine count as a victory or a plain uncover, and the game ends exactly when a mine was dug or every safe cell is open. In flag mode an open cell is rejected; a hidden cell's flag is removed if present and placed otherwise, and mines, open cells and gameOver are untouched |
| Game.ClickFlagTwice | app/src/main/java/com/example/gridlayout/MainActivity.java:320-346 | in flag mode, two clicks on the same hidden cell restore the board |
| Game.DigFlaggedRejected | app/src/main/java/com/example/gridlayout/MainActivity.java:266-272 | digging a flagged cell only starts the timer: the cell stays flagged and hidden |
| Game.ClickPreservesInv | app/src/main/java/com/example/gridlayout/MainActivity.java:228-352 | every click keeps the invariant: 5 mines, flags disjoint from revealed cells, at most one open mine, gameOver iff (a mine is open or all safe cells are open) but not both, timer stopped once over |
| Game.DigPreservesInv | app/src/main/java/com/example/gridlayout/MainActivity.java:280-319 | an accepted dig keeps the invariant, including the gameOver characterisation |
| Game.ExplodedEndsLost | app/src/main/java/com/example/gridlayout/MainActivity.java:283-292 | digging an unflagged mine in a running game explodes: the game is over, the only open mine is the one just dug, and the board is not won |
| Game.RevealTrace | app/src/main/java/com/example/gridlayout/MainActivity.java:394-432 | stepping the index from i shows each remaining listed mine once, in list order, and ends with the step to the results |
| Game.HiddenMinesAfterLoss | app/src/main/java/com/example/gridlayout/MainActivity.java:363-378 | with only the dug mine open, the list to reveal is all other mines: 4 of them |
| Game.LossRevealSequence | app/src/main/java/com/example/gridlayout/MainActivity.java:355-432 | after digging an unflagged mine the reveal list is the other 4 mines in row-major order, and the animation shows each of them once before going to the results |
| Game.ElapsedSeconds | app/src/main/java/com/example/gridlayout/MainActivity.java:488-491 | 0 when the start time was never set (not positive); otherwise the elapsed milliseconds divided by 1000 rounded toward zero: s with s*1000 <= now-start < s*1000+1000 when the clock has not gone back, and the mirror bracket when it has |
| Game.TimerTick | app/src/main/java/com/example/gridlayout/MainActivity.java:100-102 | the display updates only while the timer runs, and shows the elapsed milliseconds divided by 1000 rounded toward zero: s with s*1000 <= now-start < s*1000+1000 when the clock has not gone back, and the mirror bracket when it has, whenever the count fits in an int |
| Game.ShowResults | app/src/main/java/com/example/gridlayout/MainActivity.java:483-500 | won is recomputed as "every non-mine cell revealed"; the time is a Java int, 0 if the timer never started, and otherwise the whole seconds since the start (rounded toward zero) whenever that count fits in an int |
| Game.ResultsMatchEnding | app/src/main/java/com/example/gridlayout/MainActivity.java:493 | in a finished game the recomputed flag says won exactly when no mine was dug open |
| Game.ClickResults | app/src/main/java/com/example/gridlayout/MainActivity.java:283-317 | a click that explodes leads to a lost result; a click that clears the last safe cell leads to a won result |
| Game.NewGame | app/src/main/java/com/example/gridlayout/MainActivity.java:526-533 | a new game has a fresh 5-mine board with nothing revealed or flagged, the timer stopped, and the game neither started nor over; the invariant holds; the mines are the first five distinct cells drawn; mode and last start time are kept |
| Game.Launch | app/src/main/java/com/example/gridlayout/MainActivity.java:28-40 | the initial session is in dig mode with start time 0 on a fresh board whose mines are the first five distinct cells drawn, and satisfies the invariant |

## Left out

- Android views and lifecycle are left out as presentation: `onCreate` view construction, colours, layout parameters, `resetGrid` styling, `onResume` and `onDestroy`. The identity search `findIndexOfCellTextView` is also left out; its result is the `n` parameter of `Click`, where -1 means "not a cell".
- `dpToPixel` is left out because it is floating-point display density.
- `Handler.postDelayed` timing (400, 1000 and 1500 ms) and `System.currentTimeMillis` are not modelled as real timing. Time is the `now` parameter, and the animation is the ordered step list `RevealTrace`.
- `java.util.Random` is replaced by a finite stream of digits 0..9. The source loop has no bound; the model returns `None` when the stream runs out before five distinct cells are drawn.
- Game.TimerTick: the 1000 ms rescheduling is left out, and the tick is modelled as a single reading.
- Game.ElapsedSeconds: `now - startTime` is unbounded rather than 64-bit `long`, because clock readings never come near the `long` range.
- Minefield.MinesFrom: a mine counts as "already shown" when it is revealed, whereas the source checks whether the cell text is the mine symbol. At the only call, right after a mine is dug, the dug mine is the only cell showing that symbol, so the two agree.
- Game.FlagClick: the source adds a flag only when the cell text is empty. A hidden cell's text is always empty or the flag while the game is running, so the model uses a plain else.
- Debug printing (`printMineLocations`, `System.out`) is left out. So are the catch-all exception fallbacks in `onClickTV`, `showResults` and `revealMineAtIndex`, which only handle Android failures.
- `ResultActivity` is left out. It is presentation of the won flag and seconds.
- Flood-fill reveal is not modelled because the code has none.
- Cancelling pending animation steps on teardown is not modelled, because the source does not do it.
