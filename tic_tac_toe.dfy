/** The game: a full-depth minimax over one board that it mutates in place
    (place, recurse, clear), the top-level move choice and the self-play
    loop. */
module TicTacToeGame {
  import opened Grids
  import opened Boards
  import opened MinimaxSpec

  class TicTacToe {
    /** The one board; the search never copies it. */
    const board: Board

    /** The board is well formed and its counter is exact. */
    ghost predicate Valid()
      reads this, board, board.cells
    {
      board.Valid() && board.Counted()
    }

    constructor (n: nat)
      requires 1 <= n
      ensures Valid() && fresh(board) && fresh(board.cells)
      ensures board.n == n && board.grid == EmptyGrid(n)
    {
      board := new Board(n);
    }

    /** Scores the current position with the given player to move. Every
        placement is undone before the call returns, so the board comes back
        exactly as it was; the result is the pure `Score` of the position.
        Each recursive call is made with one more taken cell. */
    method Minimax(depth: int, p1Turn: bool) returns (score: int)
      requires Valid()
      modifies board, board.cells
      ensures Valid()
      ensures board.grid == old(board.grid) && board.checked == old(board.checked)
      ensures GameEnd(board.grid) ==>
                score == if p1Turn then board.n * board.n - depth else -(board.n * board.n - depth)
      ensures !GameEnd(board.grid) && Full(board.grid) ==> score == 0
      ensures score == Score(board.grid, depth, p1Turn)
      decreases Empties(board.grid)
    {
      var n := board.n;
      ghost var g := board.grid;
      var end := board.IsGameEnd();
      if end {
        var maxDepth := board.MaxDepth();
        if p1Turn {
          return maxDepth - depth;
        } else {
          return -(maxDepth - depth);
        }
      }
      var full := board.IsFull();
      if full {
        return 0;
      }

      if p1Turn {
        score := IntMax;
        for i := 0 to n
          invariant Valid() && board.grid == g && board.checked == old(board.checked)
          invariant Score(g, depth, true) == Scan(g, depth, true, i, 0, score)
        {
          for j := 0 to n
            invariant Valid() && board.grid == g && board.checked == old(board.checked)
            invariant Score(g, depth, true) == Scan(g, depth, true, i, j, score)
          {
            var empty := board.IsFieldEmpty(i, j);
            if empty {
              UpdateCounts(g, i, j, P1);
              board.SetFieldForP1(i, j);
              var s := Minimax(depth + 1, false);
              board.ClearField(i, j);
              PlaceThenClear(g, i, j, P1);
              score := Min(score, s);
            }
          }
        }
      } else {
        score := IntMin;
        for i := 0 to n
          invariant Valid() && board.grid == g && board.checked == old(board.checked)
          invariant Score(g, depth, false) == Scan(g, depth, false, i, 0, score)
        {
          for j := 0 to n
            invariant Valid() && board.grid == g && board.checked == old(board.checked)
            invariant Score(g, depth, false) == Scan(g, depth, false, i, j, score)
          {
            var empty := board.IsFieldEmpty(i, j);
            if empty {
              UpdateCounts(g, i, j, P2);
              board.SetFieldForP2(i, j);
              var s := Minimax(depth + 1, true);
              board.ClearField(i, j);
              PlaceThenClear(g, i, j, P2);
              score := Max(score, s);
            }
          }
        }
      }
    }

    /** Tries every empty cell for the player to move, scores it with
        `Minimax` at depth 0 and keeps the first strictly greater score: the
        choice always maximises, whichever player moves. Returns (-1, -1)
        when no cell is empty; the board comes back unchanged. */
    method GetBestMove(p1Turn: bool) returns (x: int, y: int)
      requires Valid()
      modifies board, board.cells
      ensures Valid()
      ensures board.grid == old(board.grid) && board.checked == old(board.checked)
      ensures (x, y) == BestMove(board.grid, p1Turn)
    {
      var n := board.n;
      ghost var g := board.grid;
      ghost var f := TopScores(g, p1Turn);
      x, y := -1, -1;
      var bestScore := IntMin;
      for i := 0 to n
        invariant Valid() && board.grid == g && board.checked == old(board.checked)
        invariant BestMove(g, p1Turn) == FirstMaxScan(g, f, i, 0, bestScore, x, y)
      {
        for j := 0 to n
          invariant Valid() && board.grid == g && board.checked == old(board.checked)
          invariant BestMove(g, p1Turn) == FirstMaxScan(g, f, i, j, bestScore, x, y)
        {
          var empty := board.IsFieldEmpty(i, j);
          if empty {
            if p1Turn {
              board.SetFieldForP1(i, j);
            } else {
              board.SetFieldForP2(i, j);
            }
            var score := Minimax(0, !p1Turn);
            board.ClearField(i, j);
            PlaceThenClear(g, i, j, Mark(p1Turn));
            assert score == f(i, j);
            if score > bestScore {
              bestScore := score;
              x, y := i, j;
            }
          }
        }
      }
    }

    /** Plays the game out from the current position, the given player
        first, each side taking `GetBestMove`, until the board is won or
        full. The final board is the pure `Playout` of the starting one. */
    method Run(p1Turn: bool)
      requires Valid() && board.n * board.n < IntMax
      modifies board, board.cells
      ensures Valid()
      ensures board.grid == Playout(old(board.grid), p1Turn)
      ensures GameEnd(board.grid) || Full(board.grid)
    {
      var turn := p1Turn;
      var end := board.IsGameEnd();
      var full := board.IsFull();
      while !end && !full
        invariant Valid()
        invariant end == GameEnd(board.grid) && full == Full(board.grid)
        invariant Playout(board.grid, turn) == Playout(old(board.grid), p1Turn)
        decreases Empties(board.grid)
      {
        ghost var g := board.grid;
        FullIffNoEmptyCell(g);
        BestMoveIsFirstMaximum(g, turn);
        var x, y := GetBestMove(turn);
        UpdateCounts(g, x, y, Mark(turn));
        if turn {
          board.SetFieldForP1(x, y);
        } else {
          board.SetFieldForP2(x, y);
        }
        turn := !turn;
        end := board.IsGameEnd();
        full := board.IsFull();
      }
    }

    /** Entry with a first move for P1 at (x, y): refuses a position off the
        board (the range error) and otherwise places P1's mark there and
        plays the game out with P2 to move. */
    method RunFrom(x: int, y: int) returns (ok: bool)
      requires Valid() && board.n * board.n < IntMax
      requires 0 <= x < board.n && 0 <= y < board.n ==> IsEmpty(board.grid[x][y])
      modifies board, board.cells
      ensures Valid()
      ensures ok <==> 0 <= x < board.n && 0 <= y < board.n
      ensures !ok ==> board.grid == old(board.grid) && board.checked == old(board.checked)
      ensures ok ==> board.grid == Playout(Update(old(board.grid), x, y, P1), false)
    {
      if x < 0 || x >= board.n || y < 0 || y >= board.n {
        return false;
      }
      board.SetFieldForP1(x, y);
      Run(false);
      return true;
    }
  }
}
