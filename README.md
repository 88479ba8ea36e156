# N×N tic-tac-toe with full-depth minimax, in Dafny

This project models the core of a small C++ header library that plays N×N
tic-tac-toe by exhaustive minimax search. It proves properties of the model.

**Board** (`board.h`) is an N×N grid of marks {empty, P1, P2} plus a counter
of taken cells (`checkedFieldsCount_`).
- Marks are written by `setFieldForP1/P2` and undone by `clearField`.
- `isFull` reads only the counter.
- A line wins when its first cell is taken and every cell of the line equals
  that first cell. This is a whole-line rule, not k-in-a-row.
- Columns, rows and both diagonals are checked. `isGameEnd` is true when any
  of them wins.

**Search** (`tic_tac_toe.h`) scores positions with `minimax`.
- `minimax` places a mark, recurses, and clears the mark again. It works on
  the one shared board and never copies it.
- At a won position the score is `+(N² − depth)` when P1 is to move, so P2
  made the winning move, and `−(N² − depth)` when P2 is to move.
- A full board with no winning line scores 0.
- Otherwise P1 takes the minimum and P2 the maximum over the empty cells.
- `getBestMove` always keeps the first strictly greater score, whichever
  player is moving.
- `run` lets both sides play `getBestMove` until the board is won or full.

Layout:

- `grid.dfy`, module `Grids`, holds the board contents as values:
  - the `Cell` datatype and the `Grid` type;
  - the win predicates;
  - the counts of taken and empty cells;
  - the 1-based id addressing `x = (id−1)/N`, `y = (id−1)%N`;
  - the lemmas about all of these.
- `board.dfy`, module `Boards`, holds `class Board`.
  - Its fields are a `const cells: array2<Cell>`, the counter `checked` and
    a ghost `grid` that mirrors the array.
  - `Valid()` ties the array to the grid.
  - `Counted()` is the counter invariant: `checked` equals the number of
    taken cells.
  - The queries are read-only methods, with loops where the source has
    them. They are specified by the predicates in `Grids`.
  - The setters and `ClearField` change the array and the counter in place.
- `minimax_spec.dfy`, module `MinimaxSpec`, holds the pure specification:
  - `Score`, with its row-major scan `Scan`;
  - the top-level choice `BestMove`, a first-maximum scan `FirstMaxScan`
    over a score table;
  - the self-play result `Playout`;
  - the lemmas about them.
- `tic_tac_toe.dfy`, module `TicTacToeGame`, holds `class TicTacToe` with
  the imperative `Minimax`, `GetBestMove`, `Run` and `RunFrom`.
  - Each is proved equal to its pure counterpart.
  - Each leaves the board exactly as it found it, or, for `Run`, as the
    pure function says.

The template parameter N becomes the board's constant field `n`, fixed at
construction. `INT_MAX` and `INT_MIN`, which seed the running minimum and
maximum, are the constants `IntMax = 2³¹−1` and `IntMin = −2³¹`.

## Model

| member | source | states |
|---|---|---|
| `Boards.Board.constructor` | include/game_tree_search_algorithms/board.h:86-89 | every cell is empty and the counter is 0, so the counter invariant holds, the board is not won and not full (counter < N²) |
| `Boards.Board.MaxDepth` | include/game_tree_search_algorithms/board.h:178-181 | the maximum depth N² equals taken cells plus empty cells, i.e. the number of cells |
| `Boards.Board.GetField` | include/game_tree_search_algorithms/board.h:173-176 | returns the mark stored at (x, y) |
| `Boards.Board.IsFieldEmpty` | include/game_tree_search_algorithms/board.h:183-188 | true iff the cell is neither P1 nor P2, which for the three marks means iff it is empty |
| `Boards.Board.IsFull` | include/game_tree_search_algorithms/board.h:190-193 | true iff the counter is at least N²; under the counter invariant, iff no cell is empty |
| `Boards.Board.IsWinInColumn` | include/game_tree_search_algorithms/board.h:110-124 | true iff some x has a taken `[x][0]` and every `[x][y]` equal to it (early-exit loops over `all_of`) |
| `Boards.Board.IsWinInRow` | include/game_tree_search_algorithms/board.h:126-140 | true iff some y has a taken `[0][y]` and every `[x][y]` equal to it |
| `Boards.Board.IsWinInDiagonal` | include/game_tree_search_algorithms/board.h:142-171 | true iff the main diagonal `[i][i]` or the anti-diagonal `[i][N−1−i]` is uniform with a taken first cell (loops accumulating `ok`) |
| `Boards.Board.IsGameEnd` | include/game_tree_search_algorithms/board.h:105-108 | true iff a column, a row or a diagonal wins |
| `Boards.Board.SetField` | include/game_tree_search_algorithms/board.h:233-236 | writes exactly cell (x, y); every other cell and the counter are unchanged |
| `Boards.Board.SetFieldById` | include/game_tree_search_algorithms/board.h:225-231 | for 1 ≤ id ≤ N², writes exactly cell ((id−1)/N, (id−1)%N); the counter is unchanged |
| `Boards.Board.SetFieldForP1` | include/game_tree_search_algorithms/board.h:201-205 | sets exactly (x, y) to P1, every other cell unchanged, counter + 1; on an empty cell it keeps the counter invariant |
| `Boards.Board.SetFieldForP2` | include/game_tree_search_algorithms/board.h:213-217 | the same with P2 |
| `Boards.Board.SetFieldForP1ById` | include/game_tree_search_algorithms/board.h:195-199 | sets the cell addressed by id to P1, counter + 1; on an empty cell it keeps the counter invariant |
| `Boards.Board.SetFieldForP2ById` | include/game_tree_search_algorithms/board.h:207-211 | the same with P2 |
| `Boards.Board.ClearField` | include/game_tree_search_algorithms/board.h:219-223 | sets exactly (x, y) to empty, counter − 1; on a taken cell it keeps the counter invariant |
| `Boards.PlaceThenClearRestores` | include/game_tree_search_algorithms/board.h:201-223 | a set on an empty cell followed by a clear of the same cell restores the exact grid and counter, proved from the two methods' contracts alone |
| `Grids.PlaceThenClear` | include/game_tree_search_algorithms/board.h:219-223 | as values: clearing a freshly marked empty cell gives back the original grid |
| `Grids.UpdateCounts` | include/game_tree_search_algorithms/board.h:195-223 | overwriting one cell changes the taken and empty counts by exactly the difference between the old and the new mark, which is why +1 on set and −1 on clear keep the counter exact |
| `Grids.CountsCover` | include/game_tree_search_algorithms/board.h:78 | taken cells plus empty cells equals N² (`fieldsCount_`) |
| `Grids.FullIffNoEmptyCell` | include/game_tree_search_algorithms/board.h:190-193 | "taken count ≥ N²" holds iff no cell is empty, iff the empty count is 0 |
| `Grids.NotFullHasEmptyCell` | include/game_tree_search_algorithms/tic_tac_toe.h:128-137 | a position that is not full has an empty cell, so the search loop at a non-terminal node has a move to try |
| `Grids.EmptyGridIsOpen` | include/game_tree_search_algorithms/board.h:77-89 | the fresh grid has no taken cell, N² empty cells, is not full and is not won |
| `Grids.CellOfId` | include/game_tree_search_algorithms/board.h:225-231 | for 1 ≤ id ≤ N² the addressed cell is in range and `x*N + y + 1 = id`, so distinct ids address distinct cells |
| `Grids.IdOfCell` | include/game_tree_search_algorithms/board.h:225-231 | every in-range cell (x, y) is addressed by the id `x*N + y + 1`, which lies in [1, N²]: the row-major addressing is a bijection |
| `Grids.QuotientUnique` | include/game_tree_search_algorithms/board.h:227-228 | quotient and remainder by N are unique, which is what makes the id of a cell unique |
| `TicTacToeGame.TicTacToe.constructor` | include/game_tree_search_algorithms/tic_tac_toe.h:46-47 | the game owns a fresh board of size N with every cell empty and the counter exact |
| `TicTacToeGame.TicTacToe.Minimax` | include/game_tree_search_algorithms/tic_tac_toe.h:116-165 | returns with grid and counter identical to those at entry; at a won position the result is N²−depth if P1 is to move and −(N²−depth) otherwise (the win test comes before the full test); a full unwon board scores 0; in every case the result equals the pure `Score`; it terminates because each recursive call is made with one fewer empty cell |
| `MinimaxSpec.ScanMin` | include/game_tree_search_algorithms/tic_tac_toe.h:133-148 | P1's running `std::min` ends at or below its seed and every remaining child score, and equals the seed or one of those child scores |
| `MinimaxSpec.ScanMax` | include/game_tree_search_algorithms/tic_tac_toe.h:149-164 | P2's running `std::max` ends at or above its seed and every remaining child score, and equals the seed or one of them |
| `MinimaxSpec.OpenScoreIsMinimax` | include/game_tree_search_algorithms/tic_tac_toe.h:133-164 | at a position neither won nor full, P1's score is the minimum and P2's the maximum of the children's scores: no worse for the mover than any empty cell, and attained by some empty cell |
| `MinimaxSpec.ChildBounds` | include/game_tree_search_algorithms/tic_tac_toe.h:137-140 | a child's score lies within ±(N² − depth − 1) |
| `MinimaxSpec.ScoreBounds` | include/game_tree_search_algorithms/tic_tac_toe.h:118-164 | if depth + empty cells ≤ N² (and N² − depth fits below `INT_MAX`), the score lies in [−(N²−depth), N²−depth] and is never the `INT_MAX`/`INT_MIN` seed |
| `MinimaxSpec.ImmediateWinScore` | include/game_tree_search_algorithms/tic_tac_toe.h:118-127 | when the mover can complete a line at once, the position scores N² − (depth+1) in the mover's favour: depth-adjusted, not a constant ±1 |
| `MinimaxSpec.FirstMaxScanFacts` | include/game_tree_search_algorithms/tic_tac_toe.h:90-111 | the strict-`>` scan in i-outer, j-inner order ends at (−1, −1) when there is no empty cell, and otherwise at the first empty cell of maximal score |
| `MinimaxSpec.BestMoveIsFirstMaximum` | include/game_tree_search_algorithms/tic_tac_toe.h:84-114 | the top-level choice is (−1, −1) iff no cell is empty; otherwise it is an empty cell whose score `minimax(0, !is_p1_turn)` is maximal, the first such in row-major order; it maximises whichever player moves |
| `TicTacToeGame.TicTacToe.GetBestMove` | include/game_tree_search_algorithms/tic_tac_toe.h:84-114 | leaves grid and counter identical to those at entry and returns exactly `BestMove` of the position |
| `MinimaxSpec.Playout` | include/game_tree_search_algorithms/tic_tac_toe.h:61-82 | self-play with `getBestMove` ends on a board that is won or full and keeps every mark that was already on the board |
| `TicTacToeGame.TicTacToe.Run` | include/game_tree_search_algorithms/tic_tac_toe.h:61-82 | the driver loop keeps the counter invariant, ends with the board won or full, and leaves exactly the board given by `Playout` |
| `TicTacToeGame.TicTacToe.RunFrom` | include/game_tree_search_algorithms/tic_tac_toe.h:50-59 | an off-board first move is refused (the range error) and leaves the board unchanged; an on-board one places P1 there and then plays out with P2 to move |

## Left out

- `Board::print` and all console output of `run` are left out (board.h:91-103; tic_tac_toe.h:63, 75-76, 81). They only read the board.
- Marks are the datatype `Cell` rather than the characters `'X'`, `'O'` and `' '`. Only equality and the "neither P1 nor P2" test are used.
- Integers are unbounded.
  - The `size_t`/`int` mixing in `getMaxDepth() - depth` is not modelled.
  - Unsigned wrap-around of the counter is not modelled: `ClearField` requires `checked > 0`.
  - The bound lemmas require N² − depth < 2³¹−1, the range in which the source's `int` arithmetic is exact.
- N = 0 is excluded (`requires 1 <= n`). The source reads `board_.front()` and `N - 1` there, which has no meaning for N = 0.
- `RunFrom` checks the range before it writes. `run(int,int)` writes the cell first and checks afterwards (tic_tac_toe.h:52-56), which is an out-of-bounds write for a bad position. The model refuses the move with `ok == false` and leaves the board untouched.
- `RunFrom` requires an on-board first move to target an empty cell. The source does not check this, and otherwise the counter invariant breaks.
- `Minimax`, `GetBestMove` and `Run` require the counter invariant (`Valid()`). The source's search is only meaningful under it, because `isFull` reads only the counter.
- Two whole-game claims are not proved: that an empty 3×3 board scores 0, and that self-play ends in a draw. Proving either means evaluating the whole game tree. Also, `getBestMove` maximises for P1 as well, so P1's top-level move is the one best for P2, not for P1.
- The search's exponential running time is not modelled. There is no pruning and no memoisation, so only very small N are practical.

