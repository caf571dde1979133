# Othello move engine (Board.java) in Dafny

This project models the move engine of a two-player Othello game, the class
`Board` in `src/core/Board.java`, and proves properties of the model. The
engine holds an 8x8 grid of tiles, each Empty, Dark or Light. It has four
parts:

- **Setup.** `initObjects` empties every tile and places the four centre discs.
- **Check and commit.** `isValidMove` and the eight `check*` methods. Each
  `check*` walks outward from the chosen tile in one compass direction and
  counts opponent discs. If the run ends on the mover's own disc after at
  least one opponent disc, it writes the mover's colour into the origin and
  into exactly the counted tiles.
- **Read-only look-ahead.** `hasMove`, the eight `valid*` methods and the
  terminal test `gameOver`. After a valid move `isGameOver` asks `gameOver`
  about the *next* player's colour (`getNextColor`), using freshly recounted
  scores.
- **Scoring.** `calculateScore` recounts Dark and Light tiles. The winner
  comparison in `isGameOver` (dark above light, below, equal) picks the outcome.

Files:

- `othello_grid.dfy` (module `OthelloGrid`): the `Tile` datatype, the
  `Direction` datatype with its unit step, the direction table in the order
  the source tries directions, the `Grid` value type, the initial layout and
  tile counting.
- `othello_rules.dfy` (module `OthelloRules`): the rules as pure functions on
  grid values. `ScanFrom`/`ScanDir` is the one directional scan that the eight
  `check*` and eight `valid*` methods share. `FlipDirection` gives the writes
  of a capturing `check*`. `AttemptMove` is `isValidMove` with its
  short-circuit `||`. `CanMove` and `GameOverSpec` are `hasMove` and
  `gameOver`, and `Winner` is the winner comparison. The file also holds the
  lemmas about them.
- `othello_board.dfy` (module `OthelloBoard`): class `Board` with the grid as
  an `array2<Tile>` and the fields `darkCount` and `lightCount`. A ghost field
  `Cells` holds the grid as a value, and `Valid()` ties it to the array. Each
  method has the source's loops. Each method's contract ties its result or
  its new state to the functions of `OthelloRules`.
- `othello_scenarios.dfy` (module `OthelloScenarios`): the starting position
  and the opening move of Dark at row 2, column 3.

The eight hand-written direction methods of each kind become one method with
a `Direction` parameter. The table order is Up, UpLeft, Left, DownLeft, Down,
DownRight, Right, UpRight. `isValidMove` joins its eight checks with `||`, and
each check flips as a side effect. So the model flips only the **first**
capturing direction in table order and never examines later directions.
Standard Othello rules flip every capturing direction. This model follows the
code, and `AttemptMoveFirst` states the first-direction behaviour. The engine
raises no errors, so there is no error path to model.

`Board` does not check that the target tile is empty. The caller in
`src/userInterface/BoardUi.java:106` checks it. So `IsValidMove` requires an
empty origin in bounds and a disc colour. The flip writes of a `check*`
method live in the helper method `WriteRun`. That split keeps each proof
small and does not change what the method does.

## Model

| member | source | states |
|---|---|---|
| `OthelloBoard.Board.constructor` | src/core/Board.java:16-37 | The new board's grid equals `InitialGrid()`: every tile is empty except the four centre discs. Both score fields are 0. |
| `OthelloScenarios.InitialLayout` | src/core/Board.java:27-36 | Exactly four tiles of the starting grid hold discs: Light at (3,3) and (4,4), Dark at (3,4) and (4,3). |
| `OthelloScenarios.InitialCounts` | src/core/Board.java:16-37 | The starting grid has 2 Dark, 2 Light and 60 Empty tiles. |
| `OthelloScenarios.InitialBothCanMove` | src/core/Board.java:654-688 | In the starting position both Dark and Light have a legal placement. |
| `OthelloGrid.Set` | src/core/Board.java:177 | One `setDiscColor` changes only tile (r, c), to the new colour. |
| `OthelloGrid.CountPartition` | src/core/Board.java:42-58 | Empty, Dark and Light counts add up to 64, so Dark plus Light is at most 64. |
| `OthelloGrid.CountSet` | src/core/Board.java:42-58 | Setting one tile moves one unit from the old colour's count to the new colour's count. No other count changes. |
| `OthelloGrid.CountZero` | src/core/Board.java:42-58 | A colour whose count is 0 occurs on no tile. |
| `OthelloBoard.Board.CalculateScore` | src/core/Board.java:42-58 | After the recount, `darkCount` and `lightCount` equal the exact numbers of Dark and Light tiles. Their sum is at most 64. |
| `OthelloRules.ScanFrom` | src/core/Board.java:152-176 | A scan that reports a capture has counted at least one opponent disc, and never fewer than it had already counted. |
| `OthelloRules.ScanDirSpec` | src/core/Board.java:143-192 | A direction scan captures n discs if and only if the n tiles stepping away from the origin hold opponent discs and the next tile, still on the board, holds the mover's disc. |
| `OthelloRules.ScanFails` | src/core/Board.java:152-157 | A scan fails exactly when no n satisfies that definition. This covers an empty tile or the board edge before an own disc, and an own disc next to the origin. |
| `OthelloRules.FlipLineAt` | src/core/Board.java:179-185 | The flip loop writes the mover's colour into exactly the n tiles stepping away from the start. Every other tile keeps its colour. |
| `OthelloRules.FlipDirectionAt` | src/core/Board.java:176-186 | A capturing check sets the origin and exactly its n run tiles to the mover's colour. The anchoring own disc and every other tile are unchanged. |
| `OthelloRules.FlipDirectionCounts` | src/core/Board.java:176-186 | A capturing check from an empty origin raises the mover's count by n + 1 and lowers the opponent's count by n. The number of empty tiles falls by 1. |
| `OthelloBoard.Board.CheckDirection` | src/core/Board.java:143-192 | The result is true exactly when the direction captures. On a capture the new grid is `FlipDirection` of the old grid with the counted flips. Otherwise the grid is unchanged. |
| `OthelloBoard.Board.WriteRun` | src/core/Board.java:176-186 | The origin and then each of the n run tiles take the mover's colour. The new grid is exactly `FlipDirection` of the old one. |
| `OthelloRules.AttemptMoveLegal` | src/core/Board.java:77-91 | `isValidMove` reports a valid move if and only if some direction captures. |
| `OthelloRules.AttemptMoveUnchanged` | src/core/Board.java:73-91 | A failed `isValidMove` leaves the grid exactly as it was, and no direction captures. |
| `OthelloRules.AttemptMoveFirst` | src/core/Board.java:77-86 | A valid move flips the first capturing direction in table order, and only that one. Every earlier direction does not capture. The new grid differs from the old only in the origin and that direction's run. |
| `OthelloRules.AttemptMoveCounts` | src/core/Board.java:77-87 | A valid move on an empty origin fills exactly one empty tile. The mover gains one disc more than the opponent loses, and at least two in all. Dark plus Light rises by exactly 1. |
| `OthelloBoard.Board.IsValidMove` | src/core/Board.java:73-92 | The valid flag and the new grid are those of `AttemptMove`, and the flag is true if and only if the move is legal. A failed move changes nothing. After a valid move the scores are the exact recount, their sum is the old grid's sum plus 1, and the game-over decision is made for `NextColor(color)`. |
| `OthelloBoard.Board.ValidDirection` | src/core/Board.java:693-731 | The read-only direction check writes nothing. It returns true exactly when the direction captures, which is the same condition on which `CheckDirection` reports success. |
| `OthelloBoard.Board.AnyValidDirection` | src/core/Board.java:662-680 | The eight read-only checks for one tile return true if and only if some direction captures from it. |
| `OthelloBoard.Board.HasMove` | src/core/Board.java:654-688 | `hasMove` writes nothing. It returns true if and only if some empty tile has a capturing direction for the colour. |
| `OthelloBoard.Board.GameOver` | src/core/Board.java:626-649 | `gameOver` is true if and only if the scores sum to 64, either score is 0, or the colour has no placement. |
| `OthelloRules.LegalNeedsBothColours` | src/core/Board.java:633-636 | A legal placement needs at least one Dark and at least one Light disc on the board. |
| `OthelloRules.GameOverIsNoMove` | src/core/Board.java:626-649 | Given the exact recounted scores, `gameOver` is true exactly when the colour has no placement. The full-board and eliminated-colour tests never decide anything by themselves. |
| `OthelloRules.Winner` | src/core/Board.java:105-111 | Dark wins if and only if dark is above light, Light wins if and only if dark is below light, and equal scores are a draw. |
| `OthelloRules.NextColor` | src/core/Board.java:122-132 | The next colour is always a disc colour, different from the current colour. |
| `OthelloBoard.Board.IsGameOver` | src/core/Board.java:98-113 | The status is `Over(Winner(dark, light))` exactly when `gameOver` holds for the next player's colour. Otherwise it is `InProgress`. |
| `OthelloScenarios.OpeningMove` | src/core/Board.java:73-91 | From the start, Dark at (2,3) is valid. The first four directions meet empty tiles. Down captures (3,3). The new grid is the old one with (2,3) and (3,3) set to Dark. |
| `OthelloScenarios.OpeningCounts` | src/core/Board.java:42-58 | After that opening move Dark has 4 discs and Light has 1. |

## Left out

- Presentation in `src/userInterface/BoardUi.java`, `GameUi.java` and `OthelloUi.java`. This covers buttons, icons, layout and click dispatch. Only the emptiness guard of `BoardUi.java:106` is kept, as the precondition of `IsValidMove`.
- The `JOptionPane` dialogs of `isGameOver` and of an invalid move. `IsValidMove` returns the decision and winner as a `Status` value instead of showing messages.
- Player name entry and printing in `src/core/Game.java`, and writing scores into the players list (`Board.java:60-61`, `Game.java:58-59`). These are I/O and plumbing over the recount.
- `Player.java` and the player list. Only the fixed colour assignment matters: Dark for player one and Light for player two. `NextColor` uses it.
- `changePlayer` in `BoardUi.java:120-128`. It is the same two-way toggle as `NextColor`.
- Getters and setters of `Board`, and the `Disc` class. Each tile is modelled by its colour alone.
- `java.awt.Color` reference equality and the `null` empty colour. The three-valued `Tile` replaces them, and `Constants.ROWS` and `Constants.COLUMNS` are inlined as 8.
- 32-bit integer overflow. Scores and coordinates never exceed 64, so it cannot happen.
