# Connect Four rules engine, modelled in Dafny

This project models the rules engine of a browser Connect Four game (`connect4.js`), with the page-building and
animation code taken out. The board is a grid of `width` columns of `height` cells, written `board[x][y]`, with row 0 at the bottom.
A cell holds 0 when empty and 1 or 2 for a player's piece. A click on a column looks up the lowest empty row of that column.
A full column ignores the click. Otherwise the current player's piece is written there. Then the board checks whether that
piece completes a line of `victoryCondition` (default 4) along the horizontal, the vertical or either diagonal.
If it does not, the board checks for a tie, meaning every column's top cell is occupied. If there is no tie either, the turn passes
to the other player. When the game ends, the board's click handler is removed; here a `gameOver` flag stands for that.

Files and modules:

- `grid.dfy`, module `Grid`: the grid as a value (`seq<seq<int>>`, a sequence of columns). It defines the
  column lookup `Spot` and the write `Place`. It also defines gravity (`Settled`: each column's occupied cells are contiguous from row 0)
  and a piece count `Count`.
- `wins.dfy`, module `Wins`: the bounds-checked probe `IsPlayerAt` and one counting loop `Run`.
  `WinsWithCap`/`LastMoveWins` is the win check as the board writes it. Next to it is an independent reference
  definition, `AnyLine`: some `v` consecutive equal marks on one axis, with the landing cell among them.
- `games.dfy`, module `Games`: one click as a pure transition `Click` of a `Game` (grid, player to move,
  game-over flag), and the invariant `Consistent` that every reachable game keeps.
- `connect4.dfy`, module `Connect4`: the board object `Connect4Board`. Its grid is an `array2<int>` written in
  place, mirrored by a ghost `cells` value. The grid builder, the scan for the landing row and one counting loop
  `Probe` are methods with loop invariants. `CheckForWin` calls `Probe` once for each of the source's seven
  directions. The click handler `HandleClick` is straight-line code over these methods. Each method is proved
  against the functions above.

## Model

| member | source | states |
|---|---|---|
| `Grid.EmptyGrid` | connect4.js:25-31 | the new grid has `width` columns of `height` cells, every cell 0 |
| `Grid.FirstEmpty` | connect4.js:96-100 | the upward scan returns the first empty row: every row before it is occupied, and it is empty unless the scan ran off the column |
| `Grid.Spot` | connect4.js:94-100 | None exactly when the column's top cell is occupied; otherwise the least row holding 0, below `height` |
| `Grid.Place` | connect4.js:77 | the written cell holds the player and every other cell is unchanged |
| `Grid.SpotIsColumnTop` | connect4.js:96-100 | under gravity the landing row is the column's height: everything below it is occupied, everything from it up is empty |
| `Grid.PlaceKeepsSettled` | connect4.js:115 | writing a piece on the landing row keeps every column contiguous from row 0 |
| `Grid.CountPlace` | connect4.js:77 | writing into an empty cell adds one piece of the mover and leaves the count of the other player unchanged |
| `Wins.IsPlayerAt` | connect4.js:189-196 | the bounds-checked probe: true exactly when (x, y) is on the board and holds the player; its contract says it is never true off the board |
| `Wins.RunFrom` | connect4.js:154-157 | the counting loop from step `i` on: it stops at the first step past the cap or at the first failed probe, and counts the steps before it; its contract bounds the count between `i - 1` and the cap |
| `Wins.Run` | connect4.js:154-157 | one counting loop from step 1: the number of consecutive cells holding the player next to (x, y) in one direction; its contract says it never exceeds the cap |
| `Wins.WinsWithCap` | connect4.js:141-185 | the win check with a given cap per direction: the two diagonals and the horizontal are counted both ways from the landing cell, the vertical downward only, and any count reaching `v` wins; its contract says that `v <= 1` always wins, because every count starts at 1 |
| `Wins.LastMoveWins` | connect4.js:138-186 | the win check with the board's own cap of `v` steps per direction (none when `v <= 0`); its contract says that `v <= 1` always wins |
| `Wins.RunSpec` | connect4.js:154-157 | a counting loop's result is at most `v`, every probed step up to it holds the player, and the next step does not unless the cap stopped it |
| `Wins.RunCapped` | connect4.js:154-157 | a run capped lower is the run capped higher, cut at the lower cap |
| `Wins.RunInBounds` | connect4.js:189-196 | every cell counted in a run, steps 1 to its length, is on the board |
| `Wins.AxisCountIffLine` | connect4.js:154-161 | centre plus both directions of one axis reaches `v` exactly when `v` consecutive cells on that axis through the landing cell hold its mark (both directions of the iff) |
| `Wins.UpwardRunEmpty` | connect4.js:178-181 | when the cell above the landing cell is off the board or not the mover's, the down-only vertical count equals the two-way count |
| `Wins.LastMoveWinsIffLine` | connect4.js:138-186 | for `v >= 1`, and provided the cell above the landing cell is off the board or not the mover's, the board's win check with its down-only vertical is true exactly when a line of `v` through the landing cell exists on one of the four axes. Without that proviso the down-only check can miss a vertical line that goes on above the landing cell. Under gravity the cell above a freshly dropped piece is empty, and `Games.ClickOutcome` discharges the proviso that way |
| `Wins.CapNeverMatters` | connect4.js:154-181 | capping each run at `v` steps gives the same verdict as any larger cap |
| `Wins.TooLongNeverWins` | connect4.js:141-185 | a victory condition longer than both width and height is never met |
| `Games.Toggle` | connect4.js:132-134 | the switch sends 1 to 2 and 2 to 1, and always yields 1 or 2 |
| `Games.TopFull` | connect4.js:123 | the tie test: every column's top cell is occupied; its contract says a full board passes it |
| `Games.Click` | connect4.js:104-129 | one click as a transition: ignored once the game is over, rejected on a full column, otherwise the mover's piece is placed, then the win test, the tie test and the turn switch follow in that order; its contract says it stays in shape, returns `Ignored` exactly when the game is over and `ColumnFull` exactly when the top cell is taken, changes nothing in those two cases, and names the mover as winner |
| `Games.FreshGameConsistent` | connect4.js:59-63 | a new game (empty grid, player 1, not over) satisfies the invariant |
| `Games.TopFullIffFull` | connect4.js:123 | under gravity, every top cell occupied is the same as every cell occupied |
| `Games.ClickRejects` | connect4.js:109-112 | a click after the game ended (the click listener is removed at connect4.js:201), or on a full column, changes nothing: grid, player and game-over flag stay as they were |
| `Games.ClickPlacesOnePiece` | connect4.js:109-115 | an accepted click writes the mover's mark into exactly one cell, the lowest empty one of the column, and every other cell is unchanged |
| `Games.PlacedGridConsistent` | connect4.js:115 | the grid after an accepted drop keeps its shape, its marks and gravity, and holds one more piece of the mover |
| `Games.ClickKeepsConsistent` | connect4.js:104-129 | every click keeps shape, marks in {0,1,2}, gravity and a player in {1,2}. Moves alternate: player 1 has one more piece than player 2 exactly when player 2 is to move, or when player 1 moved last in an ended game |
| `Games.ClickOutcome` | connect4.js:118-128 | an accepted move wins exactly when it completes a line of `v`; the game then ends with the mover unchanged. Without a win it is a tie exactly when no cell is empty, and the game ends. Otherwise the player toggles and play continues |
| `Games.TooLongNeverWinsGame` | connect4.js:118-120 | with `v` above both dimensions no click is ever a win |
| `Connect4.MakeBoard` | connect4.js:22-32 | the filled array has `width` by `height` cells, all 0 |
| `Connect4.Connect4Board.constructor` | connect4.js:59-63 | the board takes `(height, width, victoryCondition = 4)`, starts empty with player 1 to move, and satisfies the invariant |
| `Connect4.Connect4Board.IsPlayer` | connect4.js:189-196 | the probe is true exactly when (x, y) is on the board and holds the player; it never indexes outside the array |
| `Connect4.Connect4Board.FindSpotForCol` | connect4.js:91-101 | the scan returns `Spot` of the column |
| `Connect4.Connect4Board.PlacePiece` | connect4.js:74-77 | the array write changes cell (x, y) to the current player and nothing else |
| `Connect4.Connect4Board.SwitchCurrentPlayer` | connect4.js:132-134 | the player becomes `Toggle` of the old one |
| `Connect4.Connect4Board.Probe` | connect4.js:154-157 | one counting loop returns the run length `Run`, capped at `victoryCondition` |
| `Connect4.Connect4Board.CheckForWin` | connect4.js:138-186 | the seven loops and the final comparison compute `LastMoveWins` of the landing cell |
| `Connect4.Connect4Board.IsTie` | connect4.js:123 | the tie test is true exactly when every column's top cell is occupied |
| `Connect4.Connect4Board.EndGame` | connect4.js:199-202 | ending the game sets the flag that stops further clicks |
| `Connect4.Connect4Board.HandleClick` | connect4.js:104-129 | the new grid, player and flag, and the outcome, are those of `Click` on the old state; the invariant is kept |

Two notes on the design. First, one could suspect that each diagonal's counter overcounts, since it is shared by two loops and
never reset between them. It does not overcount: the two loops walk opposite directions of one axis, and `AxisCountIffLine`
proves that the count is exactly the centre plus both directions. Second, there is no reset operation. A new game is
a new board object, which is what the constructor models.

## Left out

- HTML table construction and the click handler's registration (`__makeHtmlBoard`, connect4.js:35-53 and 66-71): page building only.
- The DOM half of `placePiece` (connect4.js:79-87): it only creates and attaches a piece element.
- `__endGame`'s animation listener and `alert` (connect4.js:200): I/O. Removing the click listener is modelled as setting `gameOver`. A click after that returns `Ignored`.
- Reading the column from the clicked element's id (connect4.js:106): input translation. The column is a parameter with `x < width` as a precondition.
- The `Player` and `Game` classes and their runtime patching of `placePiece` and `switchCurrentPlayer` (connect4.js:205-250): colours only. The patched switch still alternates the board's player between 1 and 2, which is what the plain toggle does.
- The module-level `game` variable and the start button (connect4.js:256-261): page wiring.
- `Connect4.Connect4Board.constructor`: requires `height >= 1` and `width >= 1`. The source does not check. With height 0, its column lookup would read an undefined cell and then index with `undefined`, so those inputs are outside the model.
- `Connect4.Connect4Board.FindSpotForCol`: the source's `for` loop with an early return is written as a `while` over occupied cells. Once the top cell is known to be empty, the two behave the same, and the fall-through path of the source's loop (returning `undefined`) is unreachable.
- Determinism of a replayed move sequence is not stated as a lemma: `Click` is a function, so the same clicks from the same state always give the same result.
