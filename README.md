# Tic-tac-toe engine: a verified Dafny model

This project models the game engine of a small tic-tac-toe application
(`src/game_state.rs`). It covers two parts.

- **Board state**: a `GameState` holds a 3x3 grid of cells and the player to move. A cell is either empty or holds `X` or `O`.
  - `make_move` fills an empty cell with the current player's mark and passes the turn.
  - `clean_board` and `default` give the empty board with X to move.
  - `check_win` scans the eight lines in a fixed order: rows top to bottom, columns left to right, the main diagonal, then the anti-diagonal.
  - `is_draw` reports whether all nine cells are filled.
- **Search engine**: `minimax` is an exhaustive recursive search over cloned boards.
  - An X win scores `-10 + depth`, an O win `10 - depth`, and a full board `0`.
  - `best_move` places O on each empty cell in row-major order and scores the result with `minimax(0, false)`. It keeps a cell only when its score is strictly better than the best so far.

Files:

- `options.dfy`: the `Option` type used for cells, winners and moves.
- `board.dfy` (module `Board`): the grid as a value (`Grid`, a sequence of three rows of three cells).
  - It defines `Place`, which writes one cell, and the line scan `CheckWin` with its row and column loops `CheckRows` and `CheckColumns`.
  - It also defines `IsDraw`, the empty-cell and mark counts, and the turn rule `TurnConsistent`.
- `search.dfy` (module `Search`): the specification of the search.
  - `MinimaxScore` is the score `minimax` computes, written as a recursive function. Its helper `ChildScan` follows the nested row/column loops, starting from the `i32::MIN` / `i32::MAX` seeds.
  - `ScanBest` is the same loop over any child scores. Its contract gives the largest (or smallest) child score, and through it `MaxNodeIsLargestChild` and `MinNodeIsSmallestChild` show that `minimax` picks the best child for the side to move.
  - `MoveScore` is the score `best_move` gives a cell.
  - `IsBestMove` is what `best_move` promises about the cell it returns.
- `game_state.dfy` (module `Game`): the class `GameState` with the fields `board` and `currentPlayer`.
  - `MakeMove` and `CleanBoard` update the object in place.
  - `Minimax` and `BestMove` are the loop-based methods of `game_state.rs`. They read the object and write only into fresh clones (`new GameState.Clone(this)`). Neither of them has a `modifies` clause, so Dafny checks that they never change `this`.
  - `Minimax` is proved equal to `MinimaxScore`. It terminates because every recursive call is made on a clone with one fewer empty cell (`decreases EmptyCount(board)`).

Where the code's behaviour differs from a plain reading of the game's rules, the model follows the code:

- `minimax` picks the side to move from its `is_maximizing` flag. It never looks at `current_player`.
- `best_move` always places `O` and never flips `current_player` in the copy.
- `is_draw` only checks that the board is full, even when a line is won. `minimax` tests for a win before it tests for a full board.

## Model

| member | source | states |
|---|---|---|
| `Game.GameState.constructor` | src/game_state.rs:15-21 | the default game is the empty board with X to move, and it satisfies the turn rule |
| `Game.GameState.Clone` | src/game_state.rs:3-7 | a clone has the same board and the same player to move as the original |
| `Game.GameState.MakeMove` | src/game_state.rs:25-36 | returns true iff the cell was empty. On true, the cell gets the old current player's mark, the other eight cells are unchanged (through `Place`), the turn flips, one empty cell fewer remains, and the turn rule is kept. On false, nothing changes |
| `Game.GameState.CleanBoard` | src/game_state.rs:151-154 | afterwards all nine cells are empty and X is to move, so there is no winner, no draw, and the turn rule holds |
| `Game.GameState.Minimax` | src/game_state.rs:59-98 | the nested loops over clones compute exactly `MinimaxScore(board, depth, isMaximizing)`. The method terminates because each recursive call has one fewer empty cell, and it changes nothing |
| `Game.GameState.BestMove` | src/game_state.rs:38-57 | returns `None` iff no cell is empty. Otherwise it returns an empty in-range cell whose score is the largest, and which comes first in row-major order among the cells with that score |
| `Game.BestMoveConsider` | src/game_state.rs:44-51 | one loop step at an empty cell: the candidate replaces the best move only when its score is strictly larger, so ties keep the earlier cell |
| `Board.Place` | src/game_state.rs:27 | writing one mark into the board value, as `self.board[row][col] = Some(...)` does. It has no contract of its own: `Board.PlaceFrame` and `Board.PlaceCounts` state what it changes |
| `Board.IsDraw` | src/game_state.rs:100-102 | "every cell holds a mark". It has no contract of its own: `Board.DrawIffNoEmptyCell` states its meaning and `Board.DrawIgnoresLines` shows that it ignores completed lines |
| `Board.CheckWin` | src/game_state.rs:104-149 | the line scan: rows, then columns, then the main diagonal, then the anti-diagonal, first complete line wins. It has no contract of its own: `Board.CheckWinFirstLine` ties it to the separate `Lines` table, and `Board.CheckWinSoleOwner` follows from that |
| `Board.PlaceFrame` | src/game_state.rs:27 | writing a mark sets that one cell and leaves the other eight unchanged |
| `Board.PlaceCounts` | src/game_state.rs:26-27 | filling an empty cell reduces the empty count by one, adds one mark for the mover, and leaves the other player's count alone |
| `Board.PlaceKeepsTurn` | src/game_state.rs:25-32 | a move by the player whose turn it is, followed by the flip, keeps "X to move iff both players have equally many marks, O to move iff X has one more" |
| `Board.EmptyGridFacts` | src/game_state.rs:15-21 | the empty board has nine empty cells, no winner, is not a draw, and has X to move under the turn rule |
| `Board.DrawIffNoEmptyCell` | src/game_state.rs:100-102 | `is_draw` holds iff the board has no empty cell |
| `Board.DrawIgnoresLines` | src/game_state.rs:100-102 | a full board with a completed X row counts as a draw for `is_draw`, while `check_win` reports X |
| `Board.LineWinner` | src/game_state.rs:107-109 | a line reports X (or O) iff all three of its cells hold X (or O) |
| `Board.CheckRows` | src/game_state.rs:105-112 | the row scan finds nothing iff no row from `row` on is complete. Otherwise its answer owns the first complete row |
| `Board.CheckColumns` | src/game_state.rs:114-125 | the column scan finds nothing iff no column from `col` on is complete. Otherwise its answer owns the first complete column |
| `Board.CheckWinFirstLine` | src/game_state.rs:104-149 | `check_win` returns `None` iff none of the eight lines is complete. Otherwise the player it returns owns the first complete line in the order rows, columns, main diagonal, anti-diagonal |
| `Board.CheckWinSoleOwner` | src/game_state.rs:104-149 | when some line is all `p` and no line is all of the other player, `check_win` returns `p` whatever the scan order |
| `Search.Max` | src/game_state.rs:79 | `best_score.max(score)` is the larger of the two |
| `Search.Min` | src/game_state.rs:92 | `best_score.min(score)` is the smaller of the two |
| `Search.MinimaxScore` | src/game_state.rs:59-98 | the score `minimax` returns: a win for X scores `-10 + depth`, a win for O `10 - depth`, a full board `0`, and otherwise the child loop. It has no contract of its own: `Game.GameState.Minimax` is proved equal to it, `Search.MinimaxInRange` bounds it, and `Search.MaxNodeIsLargestChild` / `Search.MinNodeIsSmallestChild` state that it is the best child score |
| `Search.ChildScan` | src/game_state.rs:71-96 | the nested row/column loops of `minimax` over the children, from the `i32::MIN` / `i32::MAX` seeds. It has no contract of its own: `Search.ChildScanIsScanBest` equates it with `Search.ScanBest`, and `Search.ChildScanInRange` bounds it |
| `Search.ScanBest` | src/game_state.rs:71-96 | the same loop over any child scores `f`: its result is at least as good as the seed and as every empty cell's score (no smaller for O, no larger for X), and it is the seed or one of those scores |
| `Search.ChildScanIsScanBest` | src/game_state.rs:71-96 | the loop over the children's minimax scores is the general loop `ScanBest` with those scores |
| `Search.MaxNodeIsLargestChild` | src/game_state.rs:71-83 | on a board with no winner and an empty cell, with O to move, the score is at least every child's score where O takes an empty cell. When `depth + empty cells <= 9`, some child reaches that score, so the result is the largest child score and never the `i32::MIN` seed |
| `Search.MinNodeIsSmallestChild` | src/game_state.rs:84-97 | the mirror for X to move: the score is at most every child's score where X takes an empty cell, and within the same depth bound some child reaches it, so the result is the smallest child score and never the `i32::MAX` seed |
| `Search.MinimaxInRange` | src/game_state.rs:59-98 | if the game cannot go past depth 9 (`depth + empty cells <= 9`), the score lies in [-10 + depth, 10 - depth]. So neither `i32` seed is ever returned, and `minimax(0, _)` lies in [-10, 10] |
| `Search.ChildScanInRange` | src/game_state.rs:71-96 | the loops over the children return a score in the children's range, once at least one empty cell has been scored. The seed survives only when the loops find no empty cell |
| `Search.WinCheckedBeforeDraw` | src/game_state.rs:60-69 | a full board with X's row scores `-10 + depth`, not the draw score 0 |
| `Search.MoveScore` | src/game_state.rs:44-47 | the score `best_move` gives an empty cell: O is placed there, then `minimax(0, false)` is run. It has no contract of its own: `Search.MoveScoreInRange` and `Search.MoveScoreTenIffWin` state its range and when it reaches 10 |
| `Search.MoveScoreInRange` | src/game_state.rs:44-47 | every candidate move's score lies in [-10, 10], so the first empty cell always beats the `i32::MIN` seed |
| `Search.UndecidedInRange` | src/game_state.rs:59-98 | a board with no winner and an empty cell scores strictly inside the terminal range, in [-9 + depth, 9 - depth]: only a line completed on this board reaches the full `10 - depth` or `-10 + depth` |
| `Search.MoveScoreTenIffWin` | src/game_state.rs:46-47 | a move scores 10 iff placing O there makes `check_win` report O |
| `Search.IsBestMove` | src/game_state.rs:38-57 | what `best_move` promises of the cell it returns: the cell is empty, no empty cell scores more, and every earlier empty cell in row-major order scores strictly less. It has no contract of its own: `Game.GameState.BestMove` is proved to meet it, and `Search.BestMoveUnique` shows that only one cell can meet it |
| `Search.BestMoveUnique` | src/game_state.rs:48-51 | at most one cell satisfies the best-move property, so the strict `>` tie-break makes the choice deterministic |
| `Search.ImmediateWinIsBest` | src/game_state.rs:38-57 | if O can win at once, the best move is the first such winning cell in row-major order |
| `Search.FailingToBlockLoses` | src/game_state.rs:84-97 | if O's move leaves no winner but X can then complete a line at another empty cell, the move scores at most -9: X's reply at depth 1 scores -9, and X minimizes over its replies |
| `Search.BlockedTopRowFacts` | src/game_state.rs:60-69 | after O blocks at (0, 2) on the board with X on (0, 0) and (0, 1) and O on (1, 0), nobody has won and the board is not full, so `minimax` reaches its loops |
| `Search.NoReplyWinsAfterBlock` | src/game_state.rs:60-69 | after the block, no reply by X wins at once and the board still has an empty cell |
| `Search.BlockScoresAtLeastMinusEight` | src/game_state.rs:44-47 | the block at (0, 2) scores at least -8, because X's best reply leaves a board with no winner |
| `Search.NotBlockingLoses` | src/game_state.rs:44-47 | every other empty cell on that board scores at most -9, because X then completes the top row |
| `Search.BlockOpenRowIsBest` | src/game_state.rs:38-57 | on that board, (0, 2) is the best move: with `Game.GameState.BestMove`'s contract and `Search.BestMoveUnique`, `best_move` returns the block |

## Left out

- The rest of the application is not part of this model: `src/menu_app.rs`, `src/tic_tac_toe.rs`, `src/messages.rs` and `src/main.rs`. They hold view switching, widget rendering, `println!` and process exit. They use the engine only as callers:
  - `src/menu_app.rs` calls `clean_board` when the two-player view opens (line 41), when the player goes back to the menu (line 49) and on the clean-board message (line 71).
  - It calls `make_move` for the human's move (line 55) and, in single-player mode when the human has not won, `best_move` followed by `make_move` for the AI's move (lines 60-61).
  - It calls `check_win` after each move to set its `game_over` flag (lines 56 and 62).
  - `src/tic_tac_toe.rs` reads `game_state.board` to draw the grid (line 20).
- Integer widths: scores and `depth` are unbounded `int` instead of `i32`. Overflow cannot occur, because scores stay in [-10, 10] and depth never exceeds 9. The `i32::MIN` / `i32::MAX` seeds are kept as constants.
- Indices: out-of-range indices are a precondition (the `Idx` type), because Rust indexing would panic on them.
- Value semantics: the board is a value-typed field, a sequence of sequences. This matches Rust's inline `[[Option<Player>; 3]; 3]`, which is copied by `clone`. No two objects share a board.
- Optimal play from the empty board is not proved, for example "O never loses": that needs the whole game tree evaluated. What is proved is that O takes an immediate win when one exists (`Search.ImmediateWinIsBest`), that a move leaving X an immediate win scores at most -9 (`Search.FailingToBlockLoses`), and that O blocks X's open top row (`Search.BlockOpenRowIsBest`).
