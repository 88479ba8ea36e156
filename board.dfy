/** The mutable N×N board: a 2-D array of marks plus a counter of taken
    cells, updated in place by the players' moves and by the search's undo. */
module Boards {
  import opened Grids

  class Board {
    /** The board's dimension N, fixed for the board's lifetime. */
    const n: nat
    /** `cells[x, y]` is the mark at (x, y). */
    const cells: array2<Cell>
    /** Running count of taken cells; `IsFull` reads only this. */
    var checked: nat
    /** The contents of `cells`, as a value. */
    ghost var grid: Grid

    /** Shape, and `grid` mirrors `cells`. */
    ghost predicate Valid()
      reads this, cells
    {
      1 <= n && cells.Length0 == n && cells.Length1 == n &&
      WellFormed(grid) && |grid| == n &&
      forall x, y :: 0 <= x < n && 0 <= y < n ==> cells[x, y] == grid[x][y]
    }

    /** The counter invariant: `checked` is the number of taken cells. It
        holds only while callers place marks on empty cells and clear taken
        ones. */
    ghost predicate Counted()
      reads this
    {
      checked == Occupied(grid)
    }

    /** A board with every cell empty and the counter at zero: not full and
        not won. */
    constructor (n: nat)
      requires 1 <= n
      ensures Valid() && Counted() && fresh(cells)
      ensures this.n == n && grid == EmptyGrid(n) && checked == 0
      ensures !GameEnd(grid) && checked < n * n
    {
      this.n := n;
      cells := new Cell[n, n]((x, y) => Empty);
      checked := 0;
      grid := EmptyGrid(n);
      new;
      EmptyGridIsOpen(n);
    }

    /** The number of cells, N², which bounds the search depth. */
    function MaxDepth(): (d: nat)
      reads this, cells
      requires Valid()
      ensures d == Occupied(grid) + Empties(grid)
    {
      CountsCover(grid);
      n * n
    }

    method GetField(x: int, y: int) returns (c: Cell)
      requires Valid() && 0 <= x < n && 0 <= y < n
      ensures c == grid[x][y]
    {
      c := cells[x, y];
    }

    method IsFieldEmpty(x: int, y: int) returns (r: bool)
      requires Valid() && 0 <= x < n && 0 <= y < n
      ensures r <==> grid[x][y] != P1 && grid[x][y] != P2
      ensures r <==> grid[x][y] == Empty
    {
      var v := GetField(x, y);
      r := v != P1 && v != P2;
    }

    /** Full by the counter; under the counter invariant, exactly when no
        cell is empty. */
    method IsFull() returns (r: bool)
      requires Valid()
      ensures r <==> checked >= n * n
      ensures Counted() ==> (r <==> Full(grid))
      ensures Counted() ==> (r <==> NoEmptyCell(grid))
    {
      r := checked >= MaxDepth();
      FullIffNoEmptyCell(grid);
    }

    method IsWinInColumn() returns (r: bool)
      requires Valid()
      ensures r == WinInColumn(grid)
    {
      for i := 0 to n
        invariant forall x :: 0 <= x < i ==> !ColumnWins(grid, x)
      {
        var empty := IsFieldEmpty(i, 0);
        if !empty {
          var cmp := cells[i, 0];
          var j := 1;
          while j < n && cells[i, j] == cmp
            invariant 1 <= j <= n
            invariant forall y :: 0 <= y < j ==> grid[i][y] == cmp
          {
            j := j + 1;
          }
          if j == n {
            assert ColumnWins(grid, i);
            return true;
          }
        }
      }
      return false;
    }

    method IsWinInRow() returns (r: bool)
      requires Valid()
      ensures r == WinInRow(grid)
    {
      for i := 0 to n
        invariant forall y :: 0 <= y < i ==> !RowWins(grid, y)
      {
        var empty := IsFieldEmpty(0, i);
        if !empty {
          var cmp := cells[0, i];
          var j := 1;
          while j < n && cells[j, i] == cmp
            invariant 1 <= j <= n
            invariant forall x :: 0 <= x < j ==> grid[x][i] == cmp
          {
            j := j + 1;
          }
          if j == n {
            assert RowWins(grid, i);
            return true;
          }
        }
      }
      return false;
    }

    method IsWinInDiagonal() returns (r: bool)
      requires Valid()
      ensures r == WinInDiagonal(grid)
    {
      var empty := IsFieldEmpty(0, 0);
      if !empty {
        var cmp := cells[0, 0];
        var ok := true;
        for i := 0 to n
          invariant ok <==> forall k :: 0 <= k < i ==> grid[k][k] == cmp
        {
          ok := ok && cells[i, i] == cmp;
        }
        if ok {
          return true;
        }
      }
      empty := IsFieldEmpty(0, n - 1);
      if !empty {
        var cmp := cells[0, n - 1];
        var ok := true;
        for i := 0 to n
          invariant ok <==> forall k :: 0 <= k < i ==> grid[k][n - 1 - k] == cmp
        {
          ok := ok && cells[i, n - 1 - i] == cmp;
        }
        if ok {
          return true;
        }
      }
      return false;
    }

    /** Some column, row or diagonal is won. */
    method IsGameEnd() returns (r: bool)
      requires Valid()
      ensures r == GameEnd(grid)
    {
      r := IsWinInColumn();
      if !r {
        r := IsWinInRow();
        if !r {
          r := IsWinInDiagonal();
        }
      }
    }

    /** Writes `v` at (x, y); the counter is left alone. */
    method SetField(x: int, y: int, v: Cell)
      requires Valid() && 0 <= x < n && 0 <= y < n
      modifies this, cells
      ensures Valid()
      ensures grid == Update(old(grid), x, y, v) && checked == old(checked)
    {
      cells[x, y] := v;
      grid := Update(grid, x, y, v);
    }

    /** Writes `v` at the cell with 1-based row-major id `id`. */
    method SetFieldById(id: int, v: Cell)
      requires Valid() && 1 <= id <= n * n
      modifies this, cells
      ensures Valid()
      ensures grid == Update(old(grid), (id - 1) / n, (id - 1) % n, v)
      ensures checked == old(checked)
    {
      var (x, y) := CellOfId(n, id);
      SetField(x, y, v);
    }

    method SetFieldForP1(x: int, y: int)
      requires Valid() && 0 <= x < n && 0 <= y < n
      modifies this, cells
      ensures Valid()
      ensures grid == Update(old(grid), x, y, P1) && checked == old(checked) + 1
      ensures old(Counted()) && old(IsEmpty(grid[x][y])) ==> Counted()
    {
      UpdateCounts(grid, x, y, P1);
      SetField(x, y, P1);
      checked := checked + 1;
    }

    method SetFieldForP2(x: int, y: int)
      requires Valid() && 0 <= x < n && 0 <= y < n
      modifies this, cells
      ensures Valid()
      ensures grid == Update(old(grid), x, y, P2) && checked == old(checked) + 1
      ensures old(Counted()) && old(IsEmpty(grid[x][y])) ==> Counted()
    {
      UpdateCounts(grid, x, y, P2);
      SetField(x, y, P2);
      checked := checked + 1;
    }

    method SetFieldForP1ById(id: int)
      requires Valid() && 1 <= id <= n * n
      modifies this, cells
      ensures Valid()
      ensures grid == Update(old(grid), (id - 1) / n, (id - 1) % n, P1)
      ensures checked == old(checked) + 1
      ensures old(Counted()) && old(IsEmpty(grid[(id - 1) / n][(id - 1) % n])) ==> Counted()
    {
      var (x, y) := CellOfId(n, id);
      UpdateCounts(grid, x, y, P1);
      SetFieldById(id, P1);
      checked := checked + 1;
    }

    method SetFieldForP2ById(id: int)
      requires Valid() && 1 <= id <= n * n
      modifies this, cells
      ensures Valid()
      ensures grid == Update(old(grid), (id - 1) / n, (id - 1) % n, P2)
      ensures checked == old(checked) + 1
      ensures old(Counted()) && old(IsEmpty(grid[(id - 1) / n][(id - 1) % n])) ==> Counted()
    {
      var (x, y) := CellOfId(n, id);
      UpdateCounts(grid, x, y, P2);
      SetFieldById(id, P2);
      checked := checked + 1;
    }

    /** Undoes a placement. `checked > 0` keeps the unsigned counter from
        wrapping below zero. */
    method ClearField(x: int, y: int)
      requires Valid() && 0 <= x < n && 0 <= y < n && checked > 0
      modifies this, cells
      ensures Valid()
      ensures grid == Update(old(grid), x, y, Empty) && checked == old(checked) - 1
      ensures old(Counted()) && old(!IsEmpty(grid[x][y])) ==> Counted()
    {
      UpdateCounts(grid, x, y, Empty);
      SetField(x, y, Empty);
      checked := checked - 1;
    }
  }

  /** Setting an empty cell and clearing it again restores the exact grid
      and counter, using nothing but the two methods' contracts. */
  method PlaceThenClearRestores(b: Board, x: int, y: int, p1: bool)
    requires b.Valid() && 0 <= x < b.n && 0 <= y < b.n && IsEmpty(b.grid[x][y])
    modifies b, b.cells
    ensures b.Valid() && b.grid == old(b.grid) && b.checked == old(b.checked)
    ensures old(b.Counted()) ==> b.Counted()
  {
    ghost var g := b.grid;
    if p1 {
      b.SetFieldForP1(x, y);
    } else {
      b.SetFieldForP2(x, y);
    }
    b.ClearField(x, y);
    PlaceThenClear(g, x, y, Mark(p1));
  }
}
