# Minesweeper rule engine, modelled in Dafny

This project models the rule engine of a small terminal Minesweeper game
(`struct Minesweeper` in `src/main.rs`) and proves properties of it. The
engine has four operations:

- `new` scatters the mines and writes each other cell's number of adjacent mines.
- `reveal` uncovers a cell. A mine ends the game. A zero cell recursively uncovers its neighbours (the flood).
- `toggle_flag` flips a flag on a covered cell, then checks for a win.
- `move_cursor` records the cursor.

The board is a `height` by `width` grid of `u8`. The value 9 (`MINE`) marks a
mine, and every other cell holds its count of adjacent mines. Two boolean
grids of the same shape record flags and uncovered cells.

Modules, one per concern of the source:

- `Grids` (grids.dfy): row-major grids, `Byte` (the `u8` range), and counting cells that satisfy a predicate.
- `Board` (board.dfy): mine placement and the adjacency-counting pass of `new`. `Consistent` states what a correct board is.
- `Minesweeper` (game.dfy): the game record, the invariant `Valid`, `New` and `MoveCursor`.
- `Flood` (flood.dfy): `reveal`, as the mutually recursive functions `Reveal`, `Step` and `Cascade`.
- `Flags` (flags.dfy): `toggle_flag` and its win check.
- `RevealFacts` (reveal_facts.dfy): properties that relate several reveals or need a valid game.
- `Session` (session.dfy): arbitrary sequences of the three player commands, and why a lost game stays lost.
- `Scenarios` (scenarios.dfy): a worked 3 by 3 game, a one-row game with two separate patches of zeros, and a placement example on a 2 by 1 grid.

Randomness is a parameter. The mine placer draws its coordinates from a
finite supply `picks` instead of `thread_rng`. `New` returns `None` when the
supply runs out before all mines are placed.

## Model

| member | source | states |
|---|---|---|
| Board.PlaceMines | src/main.rs:21-31 | Every cell is left empty or a mine, and the mines are exactly the cells of some prefix of the draws, as the source skips a draw that hits a mine. When the draws suffice, exactly `n` mines are down. Otherwise fewer are down and every drawn cell is a mine. More mines than cells can never be placed. When the mines fit and the draws cover every cell, placement always succeeds, including when every cell becomes a mine. |
| Board.SpreadFrom | src/main.rs:36-71 | The eight guarded increments around one mine add exactly one to each in-bounds neighbour that is not a mine. Mines and all other cells are unchanged. |
| Board.CountAdjacent | src/main.rs:33-74 | The counting pass keeps the mine layout. It leaves every non-mine cell equal to its number of adjacent mines, so no count reaches 9. |
| Board.ConsistentIsUnique | src/main.rs:33-74 | The numbers are a function of the mines: two consistent boards with the same mines are equal. |
| Board.SameMinesSameCounts | src/main.rs:33-74 | Boards with the same mines have the same adjacency counts and the same mine count. |
| Minesweeper.New | src/main.rs:16-85 | A constructed game is valid: a consistent board holding `number_of_mines` mines, with nothing flagged or revealed. It is neither over nor won, and the cursor is at (0, 0). The mines are exactly the cells of some prefix of the draws. With more mines than cells no game is produced. When the mines fit and the draws cover every cell, a game is always produced. |
| Minesweeper.MoveCursor | src/main.rs:164-166 | Only the cursor changes, to the given position. |
| Minesweeper.MoveCursorFacts | src/main.rs:164-166 | Moving the cursor keeps the game valid, and of two moves only the last counts. |
| Flood.Uncover | src/main.rs:89-94 | Uncovering one hidden, unflagged cell reveals it and nothing else. It ends the game exactly when the cell is a mine or the game was already over, and it lowers the number of hidden cells. |
| Flood.Reveal | src/main.rs:88-140 | A flagged or already revealed cell leaves the game unchanged. Otherwise the cell is revealed and only the reveal grid and `game_over` change. Flags are never uncovered, and revealed cells stay revealed. Every uncovered zero has all its unflagged neighbours uncovered. Every other newly revealed cell touches a newly revealed zero. The game ends exactly when a mine is uncovered or it was already over. A non-zero cell is uncovered alone. |
| RevealFacts.RevealLeast | src/main.rs:88-140 | The flood is the least set closed under the cascade. Take any set that holds the chosen cell and, with each covered, unflagged zero cell, all its covered, unflagged on-board neighbours. Every cell the reveal uncovers lies in that set, so cells the flood cannot reach through zeros stay covered. |
| Flood.Step | src/main.rs:98-136 | One bounds-guarded recursive call: when it fires it behaves as `Reveal` on the neighbour, otherwise it changes nothing. |
| Flood.Cascade | src/main.rs:97-136 | The eight guarded recursive calls around a zero cell, in source order. Afterwards every neighbour is off the board, flagged or revealed. Every newly revealed cell is a neighbour of the zero or touches a newly revealed zero. |
| Flood.GrowsTrans | src/main.rs:97-136 | The guarantees of a reveal compose across consecutive recursive calls. |
| Flags.CountFlaggedMines | src/main.rs:149-156 | The nested scan counts exactly the cells that are both mines and flagged. |
| Flags.FlaggedMinesBound | src/main.rs:148-158 | The flagged-mine count never exceeds the mine count. The two counts are equal exactly when every mine is flagged. |
| Flags.ToggleFlag | src/main.rs:143-162 | On a covered cell exactly that flag flips. On a revealed cell the flags are unchanged. The board, reveal grid, mine count and cursor are untouched. `win` and `game_over` become true when the flagged mines number `number_of_mines`, and otherwise keep their values. |
| Flags.ToggleTwice | src/main.rs:143-146 | Toggling the same cell twice restores the flag grid. |
| Flags.ToggleWin | src/main.rs:148-161 | In a valid game a toggle wins exactly when every mine is flagged afterwards or the game was already won. Flags on safe cells do not matter. A win ends the game. |
| Flags.LostNeverWon | src/main.rs:143-161 | In a valid game not yet won that shows an uncovered mine, no toggle wins: that mine can never carry a flag. |
| Flags.ToggleKeepsValid | src/main.rs:143-162 | Toggling keeps the game valid; in particular no cell becomes both flagged and revealed. |
| RevealFacts.RevealTwice | src/main.rs:88-90 | Revealing a cell a second time changes nothing. |
| RevealFacts.RevealKeepsValid | src/main.rs:88-140 | Revealing keeps the game valid; in particular the flood never uncovers a flagged cell. |
| RevealFacts.RevealMine | src/main.rs:91-94 | Revealing a hidden, unflagged mine ends the game and uncovers only that cell. |
| RevealFacts.RevealZero | src/main.rs:97-136 | Revealing a hidden, unflagged zero uncovers every unflagged neighbour. |
| RevealFacts.ZeroHasNoMineNeighbour | src/main.rs:33-74 | On a consistent board no neighbour of a zero cell is a mine. |
| RevealFacts.RevealLoss | src/main.rs:91-97 | In a valid game the flood never uncovers a mine, only the chosen cell can. The game ends exactly when it was over or the chosen cell was a hidden, unflagged mine. |
| RevealFacts.ClosedIsEverything | src/main.rs:97-136 | On a flag-free board in which every revealed cell, numbered or zero, has all its neighbours revealed, one revealed cell means every cell is revealed. |
| RevealFacts.EmptyBoardFloods | src/main.rs:97-136 | Take a board without mines, with nothing flagged or revealed. One reveal uncovers every cell. |
| Session.Apply | src/main.rs:88-166 | One player command keeps the shape, board and mine count. Revealed cells stay revealed, and neither `game_over` nor `win` is ever reset. |
| Session.Run | src/main.rs:88-166 | The same holds for any sequence of commands. |
| Session.RunKeepsValid | src/main.rs:88-166 | Every game reachable from a valid game by commands is valid. |
| Session.ApplyShowsLoss | src/main.rs:88-166 | Every command keeps the invariant that a game over without a win shows an uncovered mine. |
| Session.FreshShowsLoss | src/main.rs:75-84 | A fresh game meets that invariant, because it is not over. |
| Session.RunShowsLoss | src/main.rs:88-166 | Any sequence of commands keeps that invariant. |
| Session.LostStaysLost | src/main.rs:88-166 | A valid game that is over without a win and shows its uncovered mine, as every game reachable from a fresh one does, is never won by any later sequence of commands. |
| Scenarios.ExampleIsValid | src/main.rs:33-74 | The board `* 1 0 / 1 2 1 / 0 1 *` is consistent and holds two mines. |
| Scenarios.ExampleNumbers | src/main.rs:33-74 | Any consistent 3 by 3 board with mines in those two corners is that board. |
| Scenarios.ExampleFlood | src/main.rs:88-136 | On that board, revealing the zero at (2, 0) uncovers exactly it and its three numbered neighbours, and the game goes on. |
| Scenarios.ExampleMine | src/main.rs:91-94 | On that board, revealing the mine at (0, 0) ends the game without a win. |
| Scenarios.RowFlood | src/main.rs:88-136 | On the row `0 1 * 1 0 0`, revealing (0, 0) uncovers exactly (0, 0) and (1, 0); the zeros beyond the mine stay covered. |
| Scenarios.FirstDrawWins | src/main.rs:24-30 | On a 2 by 1 grid with draws (0, 0) then (1, 0), one mine placed by the loop sits at (0, 0): the first distinct draws become the mines, not later ones. |

## Left out

- The random generator (`thread_rng`, `gen_range`) is replaced by the finite coordinate supply `picks`. The source keeps drawing until all mines are down, and never terminates when there are more mines than cells. The model reports the exhausted supply as `None`.
- Minesweeper.New: requires both dimensions to be at least 1. With a zero dimension the source panics on the first draw when a mine is requested, and every later `reveal` or `toggle_flag` would index out of range.
- Minesweeper.New: does not characterise exactly which supplies suffice. It states that too many mines can never be placed, and that a supply covering every cell always suffices.
- The engine reports no errors. Out-of-range coordinates crash it, and too many mines make `new` loop forever. Neither is modelled as the code behaves. Out-of-range coordinates are excluded by `requires`. An exhausted coordinate supply yields `None`; it is the only way the model can stand for the endless loop. Placement terminates when the mine count equals the number of cells; only a count above it hangs.
- Out-of-range coordinates passed to `reveal` and `toggle_flag` make the source panic. The model requires on-board coordinates instead.
- `u8` arithmetic is modelled as unbounded integers. This is exact in the model: adjacency counts are proved to stay at most 8, and the flagged-mine count at most the mine count, which is at most 255 in a valid game. The coordinate arithmetic in the bounds tests never wraps. Each test guards the `- 1` and `+ 1` on the cell's own coordinates. The `width - 1`, `height - 1` and `self.board[0].len() as u8 - 1` inside the tests are not guarded; they cannot wrap only because `Minesweeper.New` requires both dimensions to be at least 1.
- The recursion depth of `reveal` (stack overflow on large boards) is not modelled. The flood is proved to terminate.
- The win check counts only flagged mines. Flags on safe cells are ignored, so a player who flags every cell wins. The check also runs after a loss, but it can never fire there: a loss leaves a mine uncovered, an uncovered cell can never be flagged, so fewer than `number_of_mines` mines are flagged (`Flags.LostNeverWon`, `Session.LostStaysLost`). The rule is modelled as written (see `Flags.ToggleWin`). The source's comment describes the rule as "all mine cells are flagged", so this is what it intends.
- `main`, console output and the derived `Debug` formatting are not part of the rule engine and are not modelled.
- The cursor is stored but not used by the other operations or bounds-checked, and it is modelled that way.
