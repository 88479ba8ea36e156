/** Cells, board contents as values, the whole-line win conditions and the
    1-based linear addressing of an N×N tic-tac-toe board. */
module Grids {

  /** The mark held by one cell. */
  datatype Cell = Empty | P1 | P2

  /** Board contents: `g[x][y]` is the cell at (x, y). */
  type Grid = seq<seq<Cell>>

  /** A cell is empty when it holds neither player's mark. */
  predicate IsEmpty(c: Cell)
  {
    c != P1 && c != P2
  }

  /** The mark written by the player to move. */
  function Mark(p1Turn: bool): (c: Cell)
    ensures !IsEmpty(c)
    ensures c == P1 <==> p1Turn
  {
    if p1Turn then P1 else P2
  }

  /** An N×N grid with N >= 1. */
  predicate WellFormed(g: Grid)
  {
    |g| >= 1 && forall x :: 0 <= x < |g| ==> |g[x]| == |g|
  }

  predicate InRange(g: Grid, x: int, y: int)
  {
    0 <= x < |g| && 0 <= y < |g|
  }

  /** The grid with cell (x, y) overwritten by `c`. */
  function Update(g: Grid, x: int, y: int, c: Cell): (r: Grid)
    requires WellFormed(g) && InRange(g, x, y)
    ensures WellFormed(r) && |r| == |g|
    ensures r[x][y] == c
    ensures forall a, b :: InRange(g, a, b) && (a != x || b != y) ==> r[a][b] == g[a][b]
  {
    g[x := g[x][y := c]]
  }

  /** The grid a freshly constructed board holds. */
  function EmptyGrid(n: nat): (g: Grid)
    requires 1 <= n
    ensures WellFormed(g) && |g| == n
    ensures forall x, y :: InRange(g, x, y) ==> g[x][y] == Empty
  {
    seq(n, _ => seq(n, _ => Empty))
  }

  // ---------------------------------------------------------------------
  // Whole-line win conditions: a line wins when its first cell is taken
  // and every cell of the line equals that first cell.

  /** Column x (first index fixed) is uniform with a taken first cell. */
  predicate ColumnWins(g: Grid, x: int)
    requires WellFormed(g) && 0 <= x < |g|
  {
    !IsEmpty(g[x][0]) && forall y :: 0 <= y < |g| ==> g[x][y] == g[x][0]
  }

  /** Row y (second index fixed) is uniform with a taken first cell. */
  predicate RowWins(g: Grid, y: int)
    requires WellFormed(g) && 0 <= y < |g|
  {
    !IsEmpty(g[0][y]) && forall x :: 0 <= x < |g| ==> g[x][y] == g[0][y]
  }

  predicate MainDiagonalWins(g: Grid)
    requires WellFormed(g)
  {
    !IsEmpty(g[0][0]) && forall i :: 0 <= i < |g| ==> g[i][i] == g[0][0]
  }

  predicate AntiDiagonalWins(g: Grid)
    requires WellFormed(g)
  {
    var n := |g|;
    !IsEmpty(g[0][n - 1]) && forall i :: 0 <= i < n ==> g[i][n - 1 - i] == g[0][n - 1]
  }

  predicate WinInColumn(g: Grid)
    requires WellFormed(g)
  {
    exists x :: 0 <= x < |g| && ColumnWins(g, x)
  }

  predicate WinInRow(g: Grid)
    requires WellFormed(g)
  {
    exists y :: 0 <= y < |g| && RowWins(g, y)
  }

  predicate WinInDiagonal(g: Grid)
    requires WellFormed(g)
  {
    MainDiagonalWins(g) || AntiDiagonalWins(g)
  }

  /** Some column, row or diagonal is won. */
  predicate GameEnd(g: Grid)
    requires WellFormed(g)
  {
    WinInColumn(g) || WinInRow(g) || WinInDiagonal(g)
  }

  // ---------------------------------------------------------------------
  // Counting cells.

  function Ind(b: bool): nat
  {
    if b then 1 else 0
  }

  function RowEmpties(row: seq<Cell>): nat
  {
    if row == [] then 0 else Ind(IsEmpty(row[0])) + RowEmpties(row[1..])
  }

  function RowOccupied(row: seq<Cell>): nat
  {
    if row == [] then 0 else Ind(!IsEmpty(row[0])) + RowOccupied(row[1..])
  }

  /** Number of empty cells. */
  function Empties(g: Grid): nat
  {
    if g == [] then 0 else RowEmpties(g[0]) + Empties(g[1..])
  }

  /** Number of taken cells: what the board's counter is meant to hold. */
  function Occupied(g: Grid): nat
  {
    if g == [] then 0 else RowOccupied(g[0]) + Occupied(g[1..])
  }

  /** Full by count: at least N² cells taken. */
  predicate Full(g: Grid)
  {
    Occupied(g) >= |g| * |g|
  }

  predicate NoEmptyCell(g: Grid)
  {
    forall x, y :: 0 <= x < |g| && 0 <= y < |g[x]| ==> !IsEmpty(g[x][y])
  }

  lemma {:induction false} RowCountsCover(row: seq<Cell>)
    ensures RowOccupied(row) + RowEmpties(row) == |row|
  {
    if row != [] {
      RowCountsCover(row[1..]);
    }
  }

  lemma {:induction false} GridCountsCover(g: Grid, m: nat)
    requires forall x :: 0 <= x < |g| ==> |g[x]| == m
    ensures Occupied(g) + Empties(g) == |g| * m
  {
    if g != [] {
      RowCountsCover(g[0]);
      GridCountsCover(g[1..], m);
      assert |g| * m == (|g| - 1) * m + m;
    }
  }

  /** Every cell is either taken or empty: the two counts add up to N². */
  lemma CountsCover(g: Grid)
    requires WellFormed(g)
    ensures Occupied(g) + Empties(g) == |g| * |g|
  {
    GridCountsCover(g, |g|);
  }

  lemma {:induction false} RowUpdateCounts(row: seq<Cell>, y: int, c: Cell)
    requires 0 <= y < |row|
    ensures RowEmpties(row[y := c]) == RowEmpties(row) - Ind(IsEmpty(row[y])) + Ind(IsEmpty(c))
    ensures RowOccupied(row[y := c]) == RowOccupied(row) - Ind(!IsEmpty(row[y])) + Ind(!IsEmpty(c))
  {
    if y == 0 {
      assert row[y := c][1..] == row[1..];
    } else {
      assert row[y := c][1..] == row[1..][y - 1 := c];
      RowUpdateCounts(row[1..], y - 1, c);
    }
  }

  lemma {:induction false} SeqUpdateCounts(g: Grid, x: int, y: int, c: Cell)
    requires 0 <= x < |g| && 0 <= y < |g[x]|
    ensures Empties(g[x := g[x][y := c]]) == Empties(g) - Ind(IsEmpty(g[x][y])) + Ind(IsEmpty(c))
    ensures Occupied(g[x := g[x][y := c]]) == Occupied(g) - Ind(!IsEmpty(g[x][y])) + Ind(!IsEmpty(c))
  {
    var r := g[x := g[x][y := c]];
    if x == 0 {
      assert r[1..] == g[1..];
      RowUpdateCounts(g[0], y, c);
    } else {
      assert r[1..] == g[1..][x - 1 := g[1..][x - 1][y := c]];
      SeqUpdateCounts(g[1..], x - 1, y, c);
    }
  }

  /** Overwriting one cell changes each count by at most one, according to
      whether the old and the new mark are empty. */
  lemma UpdateCounts(g: Grid, x: int, y: int, c: Cell)
    requires WellFormed(g) && InRange(g, x, y)
    ensures Empties(Update(g, x, y, c)) == Empties(g) - Ind(IsEmpty(g[x][y])) + Ind(IsEmpty(c))
    ensures Occupied(Update(g, x, y, c)) == Occupied(g) - Ind(!IsEmpty(g[x][y])) + Ind(!IsEmpty(c))
  {
    SeqUpdateCounts(g, x, y, c);
  }

  lemma {:induction false} RowEmptiesZero(row: seq<Cell>)
    ensures RowEmpties(row) == 0 <==> forall y :: 0 <= y < |row| ==> !IsEmpty(row[y])
  {
    if row != [] {
      RowEmptiesZero(row[1..]);
      assert forall y :: 1 <= y < |row| ==> row[y] == row[1..][y - 1];
    }
  }

  lemma {:induction false} EmptiesZero(g: Grid)
    ensures Empties(g) == 0 <==> NoEmptyCell(g)
  {
    if g != [] {
      RowEmptiesZero(g[0]);
      EmptiesZero(g[1..]);
      assert forall x :: 1 <= x < |g| ==> g[x] == g[1..][x - 1];
    }
  }

  /** Fullness by count coincides with having no empty cell. */
  lemma FullIffNoEmptyCell(g: Grid)
    requires WellFormed(g)
    ensures Full(g) <==> NoEmptyCell(g)
    ensures Full(g) <==> Empties(g) == 0
  {
    CountsCover(g);
    EmptiesZero(g);
  }

  /** A grid that is not full has an empty cell. */
  lemma NotFullHasEmptyCell(g: Grid)
    requires WellFormed(g) && !Full(g)
    ensures exists x, y :: InRange(g, x, y) && IsEmpty(g[x][y])
  {
    FullIffNoEmptyCell(g);
  }

  lemma {:induction false} AllEmptyNoneOccupied(g: Grid)
    requires forall x, y :: 0 <= x < |g| && 0 <= y < |g[x]| ==> IsEmpty(g[x][y])
    ensures Occupied(g) == 0
  {
    if g != [] {
      var row := g[0];
      RowCountsCover(row);
      RowEmptiesZero(row);
      assert forall x, y :: 0 <= x < |g[1..]| && 0 <= y < |g[1..][x]| ==> g[1..][x][y] == g[x + 1][y];
      AllEmptyNoneOccupied(g[1..]);
      AllEmptyOccupiedRow(row);
    }
  }

  lemma {:induction false} AllEmptyOccupiedRow(row: seq<Cell>)
    requires forall y :: 0 <= y < |row| ==> IsEmpty(row[y])
    ensures RowOccupied(row) == 0
  {
    if row != [] {
      assert forall y :: 0 <= y < |row[1..]| ==> row[1..][y] == row[y + 1];
      AllEmptyOccupiedRow(row[1..]);
    }
  }

  /** A fresh board has no taken cell, is not full and is not won. */
  lemma EmptyGridIsOpen(n: nat)
    requires 1 <= n
    ensures Occupied(EmptyGrid(n)) == 0 && Empties(EmptyGrid(n)) == n * n
    ensures !Full(EmptyGrid(n)) && !GameEnd(EmptyGrid(n))
  {
    var g := EmptyGrid(n);
    AllEmptyNoneOccupied(g);
    CountsCover(g);
    assert !IsEmpty(g[0][0]) == false;
    assert !IsEmpty(g[0][n - 1]) == false;
  }

  /** Writing a mark into an empty cell and clearing it again gives back the
      original grid. */
  lemma PlaceThenClear(g: Grid, x: int, y: int, c: Cell)
    requires WellFormed(g) && InRange(g, x, y) && IsEmpty(g[x][y])
    ensures Update(Update(g, x, y, c), x, y, Empty) == g
  {
    assert Update(g, x, y, c)[x][y := Empty] == g[x];
  }

  // ---------------------------------------------------------------------
  // 1-based linear addressing: id = x * N + y + 1.

  /** The cell addressed by `id`, as `((id - 1) / N, (id - 1) % N)`. */
  function CellOfId(n: int, id: int): (r: (int, int))
    requires 1 <= n && 1 <= id <= n * n
    ensures 0 <= r.0 < n && 0 <= r.1 < n
    ensures r.0 * n + r.1 + 1 == id
  {
    QuotientBelow(n, id - 1);
    ((id - 1) / n, (id - 1) % n)
  }

  lemma QuotientBelow(n: int, k: int)
    requires 1 <= n && 0 <= k < n * n
    ensures k / n < n
  {
    var q := k / n;
    assert q * n + k % n == k;
    if q >= n {
      MulMono(n, q, n);
    }
  }

  lemma MulMono(a: int, b: int, n: int)
    requires 0 <= a <= b && 0 <= n
    ensures a * n <= b * n
  {
  }

  /** Every cell has exactly one id, and it maps back to that cell. */
  lemma IdOfCell(n: int, x: int, y: int)
    requires 1 <= n && 0 <= x < n && 0 <= y < n
    ensures 1 <= x * n + y + 1 <= n * n
    ensures CellOfId(n, x * n + y + 1) == (x, y)
  {
    var k := x * n + y;
    MulMono(x, n - 1, n);
    assert (n - 1) * n + n == n * n;
    var q, m := k / n, k % n;
    assert q * n + m == x * n + y;
    QuotientUnique(n, q, m, x, y);
  }

  /** Quotient and remainder by n are unique. */
  lemma QuotientUnique(n: int, q: int, m: int, x: int, y: int)
    requires 1 <= n && 0 <= m < n && 0 <= y < n
    requires q * n + m == x * n + y
    ensures q == x && m == y
  {
    if q < x {
      assert (q + 1) * n == q * n + n;
      MulMono(q + 1, x, n);
    } else if q > x {
      assert (x + 1) * n == x * n + n;
      MulMono(x + 1, q, n);
    }
  }
}
