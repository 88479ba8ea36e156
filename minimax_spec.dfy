/** The search as pure functions over grid values: the minimax score, the
    top-level move choice and the self-play game, with what they guarantee. */
module MinimaxSpec {
  import opened Grids

  /** The seeds of the running minimum and maximum: the limits of a 32-bit
      `int`. */
  const IntMax: int := 0x7fff_ffff
  const IntMin: int := -0x8000_0000

  function Min(a: int, b: int): int
  {
    if b < a then b else a
  }

  function Max(a: int, b: int): int
  {
    if a < b then b else a
  }

  /** The position after the player to move marks (x, y). */
  function Child(g: Grid, x: int, y: int, p1Turn: bool): Grid
    requires WellFormed(g) && InRange(g, x, y)
  {
    Update(g, x, y, Mark(p1Turn))
  }

  /** (x, y) comes strictly before (i, j) in row-major order. */
  predicate Before(x: int, y: int, i: int, j: int)
  {
    x < i || (x == i && y < j)
  }

  /** The minimax score of `g` at `depth` with the given player to move.
      Positive favours P2: at a won position it is +(N² − depth) when P1 is
      to move (so P2 made the last move) and −(N² − depth) when P2 is. A
      full position without a winning line scores 0. Otherwise P1 takes the
      minimum and P2 the maximum over the scores of the empty cells. */
  function Score(g: Grid, depth: int, p1Turn: bool): int
    requires WellFormed(g)
    decreases Empties(g), 1, 0, 0
  {
    if GameEnd(g) then
      (if p1Turn then |g| * |g| - depth else -(|g| * |g| - depth))
    else if Full(g) then 0
    else Scan(g, depth, p1Turn, 0, 0, if p1Turn then IntMax else IntMin)
  }

  /** The score of placing the mover's mark on empty cell (x, y). */
  function ChildScore(g: Grid, depth: int, p1Turn: bool, x: int, y: int): int
    requires WellFormed(g) && InRange(g, x, y) && IsEmpty(g[x][y])
    decreases Empties(g), 0, 0, 0
  {
    UpdateCounts(g, x, y, Mark(p1Turn));
    Score(Child(g, x, y, p1Turn), depth + 1, !p1Turn)
  }

  /** The running minimum (P1) or maximum (P2) of the child scores, over
      the cells from (i, j) on in row-major order, starting from `best`. */
  function Scan(g: Grid, depth: int, p1Turn: bool, i: int, j: int, best: int): int
    requires WellFormed(g) && 0 <= i <= |g| && 0 <= j <= |g|
    decreases Empties(g), 0, |g| - i, |g| - j
  {
    if i == |g| then best
    else if j == |g| then Scan(g, depth, p1Turn, i + 1, 0, best)
    else if IsEmpty(g[i][j]) then
      var s := ChildScore(g, depth, p1Turn, i, j);
      Scan(g, depth, p1Turn, i, j + 1, if p1Turn then Min(best, s) else Max(best, s))
    else Scan(g, depth, p1Turn, i, j + 1, best)
  }

  /** P1's scan ends at or below `best` and below every remaining child, at
      `best` itself or at one of those children. */
  lemma {:induction false} ScanMin(g: Grid, depth: int, i: int, j: int, best: int)
    requires WellFormed(g) && 0 <= i <= |g| && 0 <= j <= |g|
    ensures Scan(g, depth, true, i, j, best) <= best
    ensures forall x, y :: InRange(g, x, y) && !Before(x, y, i, j) && IsEmpty(g[x][y]) ==>
              Scan(g, depth, true, i, j, best) <= ChildScore(g, depth, true, x, y)
    ensures Scan(g, depth, true, i, j, best) == best ||
            exists x, y :: InRange(g, x, y) && !Before(x, y, i, j) && IsEmpty(g[x][y]) &&
              Scan(g, depth, true, i, j, best) == ChildScore(g, depth, true, x, y)
    decreases |g| - i, |g| - j
  {
    if i == |g| {
    } else if j == |g| {
      ScanMin(g, depth, i + 1, 0, best);
    } else if IsEmpty(g[i][j]) {
      var s := ChildScore(g, depth, true, i, j);
      ScanMin(g, depth, i, j + 1, Min(best, s));
    } else {
      ScanMin(g, depth, i, j + 1, best);
    }
  }

  /** P2's scan ends at or above `best` and above every remaining child, at
      `best` itself or at one of those children. */
  lemma {:induction false} ScanMax(g: Grid, depth: int, i: int, j: int, best: int)
    requires WellFormed(g) && 0 <= i <= |g| && 0 <= j <= |g|
    ensures Scan(g, depth, false, i, j, best) >= best
    ensures forall x, y :: InRange(g, x, y) && !Before(x, y, i, j) && IsEmpty(g[x][y]) ==>
              Scan(g, depth, false, i, j, best) >= ChildScore(g, depth, false, x, y)
    ensures Scan(g, depth, false, i, j, best) == best ||
            exists x, y :: InRange(g, x, y) && !Before(x, y, i, j) && IsEmpty(g[x][y]) &&
              Scan(g, depth, false, i, j, best) == ChildScore(g, depth, false, x, y)
    decreases |g| - i, |g| - j
  {
    if i == |g| {
    } else if j == |g| {
      ScanMax(g, depth, i + 1, 0, best);
    } else if IsEmpty(g[i][j]) {
      var s := ChildScore(g, depth, false, i, j);
      ScanMax(g, depth, i, j + 1, Max(best, s));
    } else {
      ScanMax(g, depth, i, j + 1, best);
    }
  }

  /** At a position that is neither won nor full, P1's score is the minimum
      and P2's the maximum of the children's scores: it is no worse for the
      mover than any child, and some empty cell attains it. */
  lemma {:induction false} OpenScoreIsMinimax(g: Grid, depth: int, p1Turn: bool)
    requires WellFormed(g) && !GameEnd(g) && !Full(g)
    requires depth + Empties(g) <= |g| * |g| && |g| * |g| - depth < IntMax
    ensures p1Turn ==> forall x, y :: InRange(g, x, y) && IsEmpty(g[x][y]) ==>
              Score(g, depth, p1Turn) <= ChildScore(g, depth, p1Turn, x, y)
    ensures !p1Turn ==> forall x, y :: InRange(g, x, y) && IsEmpty(g[x][y]) ==>
              Score(g, depth, p1Turn) >= ChildScore(g, depth, p1Turn, x, y)
    ensures exists x, y :: InRange(g, x, y) && IsEmpty(g[x][y]) &&
              Score(g, depth, p1Turn) == ChildScore(g, depth, p1Turn, x, y)
    decreases Empties(g), 1
  {
    NotFullHasEmptyCell(g);
    var x0, y0 :| InRange(g, x0, y0) && IsEmpty(g[x0][y0]);
    ChildBounds(g, depth, p1Turn, x0, y0);
    assert !Before(x0, y0, 0, 0);
    if p1Turn {
      ScanMin(g, depth, 0, 0, IntMax);
    } else {
      ScanMax(g, depth, 0, 0, IntMin);
    }
  }

  /** The children of an open position obey the bound one ply deeper. */
  lemma ChildBounds(g: Grid, depth: int, p1Turn: bool, x: int, y: int)
    requires WellFormed(g) && InRange(g, x, y) && IsEmpty(g[x][y])
    requires depth + Empties(g) <= |g| * |g| && |g| * |g| - depth < IntMax
    ensures -(|g| * |g| - depth - 1) <= ChildScore(g, depth, p1Turn, x, y) <= |g| * |g| - depth - 1
    decreases Empties(g), 0
  {
    UpdateCounts(g, x, y, Mark(p1Turn));
    ScoreBounds(Child(g, x, y, p1Turn), depth + 1, !p1Turn);
  }

  /** Scores are bounded by the number of cells left after `depth` plies,
      so they never reach the `IntMax`/`IntMin` seeds. */
  lemma {:induction false} ScoreBounds(g: Grid, depth: int, p1Turn: bool)
    requires WellFormed(g)
    requires depth + Empties(g) <= |g| * |g| && |g| * |g| - depth < IntMax
    ensures -(|g| * |g| - depth) <= Score(g, depth, p1Turn) <= |g| * |g| - depth
    ensures IntMin < Score(g, depth, p1Turn) < IntMax
    decreases Empties(g), 2
  {
    if !GameEnd(g) && !Full(g) {
      OpenScoreIsMinimax(g, depth, p1Turn);
      var x, y :| InRange(g, x, y) && IsEmpty(g[x][y]) &&
                  Score(g, depth, p1Turn) == ChildScore(g, depth, p1Turn, x, y);
      ChildBounds(g, depth, p1Turn, x, y);
    }
  }

  /** Depth-adjusted magnitude: when the mover can complete a line at once,
      the position scores N² − (depth + 1) in the mover's favour, not a
      constant. */
  lemma ImmediateWinScore(g: Grid, depth: int, p1Turn: bool, x: int, y: int)
    requires WellFormed(g) && !GameEnd(g) && !Full(g)
    requires depth + Empties(g) <= |g| * |g| && |g| * |g| - depth < IntMax
    requires InRange(g, x, y) && IsEmpty(g[x][y]) && GameEnd(Child(g, x, y, p1Turn))
    ensures Score(g, depth, p1Turn) ==
              if p1Turn then -(|g| * |g| - (depth + 1)) else |g| * |g| - (depth + 1)
  {
    var n := |g|;
    var c := Child(g, x, y, p1Turn);
    assert |c| == n && GameEnd(c);
    var win := ChildScore(g, depth, p1Turn, x, y);
    assert win == Score(c, depth + 1, !p1Turn);
    assert win == if p1Turn then -(n * n - (depth + 1)) else n * n - (depth + 1);
    OpenScoreIsMinimax(g, depth, p1Turn);
    var a, b :| InRange(g, a, b) && IsEmpty(g[a][b]) &&
                Score(g, depth, p1Turn) == ChildScore(g, depth, p1Turn, a, b);
    ChildBounds(g, depth, p1Turn, a, b);
  }

  // ---------------------------------------------------------------------
  // The top-level move choice.

  /** The score the top level gives to the mover's mark on (x, y): the
      search restarts at depth 0 one ply below the current position. */
  function MoveScore(g: Grid, p1Turn: bool, x: int, y: int): int
    requires WellFormed(g) && InRange(g, x, y) && IsEmpty(g[x][y])
  {
    Score(Child(g, x, y, p1Turn), 0, !p1Turn)
  }

  /** The top level's scores as a table over cells; only the empty cells'
      entries are ever consulted. */
  function TopScores(g: Grid, p1Turn: bool): (int, int) -> int
    requires WellFormed(g)
  {
    (x, y) => if InRange(g, x, y) && IsEmpty(g[x][y]) then MoveScore(g, p1Turn, x, y) else IntMin
  }

  /** The running choice over the empty cells from (i, j) on, in row-major
      order, under scores `f`: a cell replaces (bestX, bestY) only with a
      strictly greater score. */
  function FirstMaxScan(g: Grid, f: (int, int) -> int, i: int, j: int,
                        bestScore: int, bestX: int, bestY: int): (int, int)
    requires WellFormed(g) && 0 <= i <= |g| && 0 <= j <= |g|
    decreases |g| - i, |g| - j
  {
    if i == |g| then (bestX, bestY)
    else if j == |g| then FirstMaxScan(g, f, i + 1, 0, bestScore, bestX, bestY)
    else if IsEmpty(g[i][j]) && f(i, j) > bestScore then
      FirstMaxScan(g, f, i, j + 1, f(i, j), i, j)
    else FirstMaxScan(g, f, i, j + 1, bestScore, bestX, bestY)
  }

  /** The move the top level picks: always the maximum, whichever player
      moves, seeded with (-1, -1) and `IntMin`. */
  function BestMove(g: Grid, p1Turn: bool): (int, int)
    requires WellFormed(g)
  {
    FirstMaxScan(g, TopScores(g, p1Turn), 0, 0, IntMin, -1, -1)
  }

  /** `m` is (-1, -1) when no cell is empty, and otherwise the first empty
      cell in row-major order whose score under `f` is maximal. */
  ghost predicate IsFirstMax(g: Grid, f: (int, int) -> int, m: (int, int))
    requires WellFormed(g)
  {
    if NoEmptyCell(g) then m == (-1, -1)
    else
      InRange(g, m.0, m.1) && IsEmpty(g[m.0][m.1]) &&
      (forall x, y :: InRange(g, x, y) && IsEmpty(g[x][y]) ==> f(x, y) <= f(m.0, m.1)) &&
      (forall x, y :: InRange(g, x, y) && IsEmpty(g[x][y]) && Before(x, y, m.0, m.1) ==>
         f(x, y) < f(m.0, m.1))
  }

  /** What the running choice knows about the cells before (i, j). */
  ghost predicate ChoiceSoFar(g: Grid, f: (int, int) -> int, i: int, j: int,
                              bestScore: int, bestX: int, bestY: int)
    requires WellFormed(g)
  {
    if bestX == -1 && bestY == -1 then
      bestScore == IntMin &&
      forall x, y :: InRange(g, x, y) && Before(x, y, i, j) ==> !IsEmpty(g[x][y])
    else
      InRange(g, bestX, bestY) && Before(bestX, bestY, i, j) && IsEmpty(g[bestX][bestY]) &&
      bestScore == f(bestX, bestY) &&
      (forall x, y :: InRange(g, x, y) && IsEmpty(g[x][y]) && Before(x, y, i, j) ==>
         f(x, y) <= bestScore) &&
      (forall x, y :: InRange(g, x, y) && IsEmpty(g[x][y]) && Before(x, y, bestX, bestY) ==>
         f(x, y) < bestScore)
  }

  /** Once every row has been scanned, the running choice is the answer. */
  lemma ChoiceDone(g: Grid, f: (int, int) -> int, j: int, bestScore: int, bestX: int, bestY: int)
    requires WellFormed(g) && ChoiceSoFar(g, f, |g|, j, bestScore, bestX, bestY)
    ensures IsFirstMax(g, f, (bestX, bestY))
  {
    assert forall x, y :: InRange(g, x, y) ==> Before(x, y, |g|, j);
    if bestX == -1 && bestY == -1 {
      assert NoEmptyCell(g);
    } else {
      assert !NoEmptyCell(g) by {
        assert g[bestX][bestY] == Empty;
      }
    }
  }

  lemma ChoiceNextRow(g: Grid, f: (int, int) -> int, i: int, bestScore: int, bestX: int, bestY: int)
    requires WellFormed(g) && 0 <= i < |g|
    requires ChoiceSoFar(g, f, i, |g|, bestScore, bestX, bestY)
    ensures ChoiceSoFar(g, f, i + 1, 0, bestScore, bestX, bestY)
  {
    assert forall x, y :: InRange(g, x, y) ==> (Before(x, y, i, |g|) <==> Before(x, y, i + 1, 0));
  }

  /** Cell (i, j) is passed over: taken, or not strictly better. */
  lemma ChoiceKeep(g: Grid, f: (int, int) -> int, i: int, j: int, bestScore: int, bestX: int, bestY: int)
    requires WellFormed(g) && 0 <= i < |g| && 0 <= j < |g|
    requires forall x, y :: InRange(g, x, y) && IsEmpty(g[x][y]) ==> f(x, y) > IntMin
    requires ChoiceSoFar(g, f, i, j, bestScore, bestX, bestY)
    requires !(IsEmpty(g[i][j]) && f(i, j) > bestScore)
    ensures ChoiceSoFar(g, f, i, j + 1, bestScore, bestX, bestY)
  {
    forall x, y | InRange(g, x, y) && IsEmpty(g[x][y]) && Before(x, y, i, j + 1)
      ensures f(x, y) <= bestScore
    {
      if x == i && y == j {
        assert bestX != -1 || bestY != -1;
      }
    }
  }

  /** Cell (i, j) is empty and strictly better: it becomes the choice. */
  lemma ChoiceTake(g: Grid, f: (int, int) -> int, i: int, j: int, bestScore: int, bestX: int, bestY: int)
    requires WellFormed(g) && 0 <= i < |g| && 0 <= j < |g|
    requires ChoiceSoFar(g, f, i, j, bestScore, bestX, bestY)
    requires IsEmpty(g[i][j]) && f(i, j) > bestScore
    ensures ChoiceSoFar(g, f, i, j + 1, f(i, j), i, j)
  {
    assert forall x, y :: Before(x, y, i, j + 1) <==> Before(x, y, i, j) || (x == i && y == j);
  }

  /** From any state the running choice can be in, the scan ends at the
      first maximum, provided no empty cell scores as low as the seed. */
  lemma {:induction false} FirstMaxScanFacts(g: Grid, f: (int, int) -> int, i: int, j: int,
                                             bestScore: int, bestX: int, bestY: int)
    requires WellFormed(g) && 0 <= i <= |g| && 0 <= j <= |g|
    requires forall x, y :: InRange(g, x, y) && IsEmpty(g[x][y]) ==> f(x, y) > IntMin
    requires ChoiceSoFar(g, f, i, j, bestScore, bestX, bestY)
    ensures IsFirstMax(g, f, FirstMaxScan(g, f, i, j, bestScore, bestX, bestY))
    decreases |g| - i, |g| - j
  {
    if i == |g| {
      ChoiceDone(g, f, j, bestScore, bestX, bestY);
    } else if j == |g| {
      ChoiceNextRow(g, f, i, bestScore, bestX, bestY);
      FirstMaxScanFacts(g, f, i + 1, 0, bestScore, bestX, bestY);
    } else if IsEmpty(g[i][j]) && f(i, j) > bestScore {
      ChoiceTake(g, f, i, j, bestScore, bestX, bestY);
      FirstMaxScanFacts(g, f, i, j + 1, f(i, j), i, j);
    } else {
      ChoiceKeep(g, f, i, j, bestScore, bestX, bestY);
      FirstMaxScanFacts(g, f, i, j + 1, bestScore, bestX, bestY);
    }
  }

  /** The top level returns (-1, -1) exactly when no cell is empty, and
      otherwise an empty cell of maximal score, the first such in row-major
      order. */
  lemma BestMoveIsFirstMaximum(g: Grid, p1Turn: bool)
    requires WellFormed(g) && |g| * |g| < IntMax
    ensures BestMove(g, p1Turn) == (-1, -1) <==> NoEmptyCell(g)
    ensures var m := BestMove(g, p1Turn);
      !NoEmptyCell(g) ==>
        InRange(g, m.0, m.1) && IsEmpty(g[m.0][m.1]) &&
        (forall x, y :: InRange(g, x, y) && IsEmpty(g[x][y]) ==>
           MoveScore(g, p1Turn, x, y) <= MoveScore(g, p1Turn, m.0, m.1)) &&
        (forall x, y :: InRange(g, x, y) && IsEmpty(g[x][y]) && Before(x, y, m.0, m.1) ==>
           MoveScore(g, p1Turn, x, y) < MoveScore(g, p1Turn, m.0, m.1))
  {
    var f := TopScores(g, p1Turn);
    forall x, y | InRange(g, x, y) && IsEmpty(g[x][y])
      ensures f(x, y) == MoveScore(g, p1Turn, x, y) > IntMin
    {
      var c := Child(g, x, y, p1Turn);
      UpdateCounts(g, x, y, Mark(p1Turn));
      CountsCover(c);
      ScoreBounds(c, 0, !p1Turn);
    }
    FirstMaxScanFacts(g, f, 0, 0, IntMin, -1, -1);
  }

  // ---------------------------------------------------------------------
  // Self-play.

  /** The game played from `g` with both sides taking the top-level move
      until the position is won or full. The result is a finished game that
      keeps every mark already on `g`. */
  function Playout(g: Grid, p1Turn: bool): (r: Grid)
    requires WellFormed(g) && |g| * |g| < IntMax
    ensures WellFormed(r) && |r| == |g|
    ensures GameEnd(r) || Full(r)
    ensures forall x, y :: InRange(g, x, y) && !IsEmpty(g[x][y]) ==> r[x][y] == g[x][y]
    decreases Empties(g)
  {
    if GameEnd(g) || Full(g) then g
    else
      FullIffNoEmptyCell(g);
      BestMoveIsFirstMaximum(g, p1Turn);
      var m := BestMove(g, p1Turn);
      UpdateCounts(g, m.0, m.1, Mark(p1Turn));
      Playout(Update(g, m.0, m.1, Mark(p1Turn)), !p1Turn)
  }
}
