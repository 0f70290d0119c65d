/**
 The Game of Life grid engine: a `rows` x `cols` matrix of 0/1 cells stored
 row-major as `grid[row][col]`, and a generation counter. The matrix is a
 field the methods update cell by cell or replace as a whole; every method
 says what it becomes in terms of the functions of LifeRules.
 */
module Engine {
  import opened LifeRules

  /** Two sequences differ on their first k + 1 elements exactly when they
      differ on the first k or at position k. */
  lemma PrefixDiffers<T>(a: seq<T>, b: seq<T>, k: nat)
    requires k < |a| && k < |b|
    ensures a[..k + 1] != b[..k + 1] <==> a[..k] != b[..k] || a[k] != b[k]
  {
    assert a[..k + 1] == a[..k] + [a[k]];
    assert b[..k + 1] == b[..k] + [b[k]];
    if a[..k] + [a[k]] == b[..k] + [b[k]] {
      assert a[..k] == (a[..k] + [a[k]])[..k];
    }
  }

  /** Writing the k-th element of a sequence extends a prefix it shares with another. */
  lemma PrefixExtends<T>(a: seq<T>, b: seq<T>, k: nat, x: T)
    requires k < |a| && k < |b| && a[..k] == b[..k] && b[k] == x
    ensures a[k := x][..k + 1] == b[..k + 1]
  {
    assert a[k := x][..k + 1] == a[..k] + [x];
    assert b[..k + 1] == b[..k] + [x];
  }

  class CellGrid {
    const cols: nat
    const rows: nat
    var grid: Board
    var generation: nat

    /** The matrix has the grid's shape and holds only 0 and 1. */
    ghost predicate Valid()
      reads this
    {
      Shaped(grid, cols, rows) && Binary(grid)
    }

    /** A grid of the given size with every cell dead, at generation 0. */
    constructor (cols: nat, rows: nat)
      ensures Valid()
      ensures this.cols == cols && this.rows == rows
      ensures grid == Dead(cols, rows) && generation == 0
    {
      this.cols := cols;
      this.rows := rows;
      grid := Dead(cols, rows);
      generation := 0;
    }

    /** Sets every cell dead, one by one, and resets the counter. */
    method Clear()
      requires Valid()
      modifies this
      ensures Valid()
      ensures grid == Dead(cols, rows) && generation == 0
    {
      for r := 0 to rows
        invariant Shaped(grid, cols, rows)
        invariant forall i, j :: 0 <= i < r && 0 <= j < cols ==> grid[i][j] == 0
      {
        for c := 0 to cols
          invariant Shaped(grid, cols, rows)
          invariant forall i, j :: 0 <= i < r && 0 <= j < cols ==> grid[i][j] == 0
          invariant forall j :: 0 <= j < c ==> grid[r][j] == 0
        {
          grid := grid[r := grid[r][c := 0]];
        }
      }
      SameCells(grid, Dead(cols, rows), cols, rows);
      generation := 0;
    }

    /** Refills every cell, one by one, from the random source, and resets the
        counter: `draw(c, r)` is whether the draw made for (c, r) fell below
        the probability, which makes the cell alive. */
    method Randomize(draw: (int, int) -> bool)
      requires Valid()
      modifies this
      ensures Valid()
      ensures grid == Sampled(cols, rows, draw) && generation == 0
    {
      for r := 0 to rows
        invariant Shaped(grid, cols, rows)
        invariant forall i, j :: 0 <= i < r && 0 <= j < cols ==> grid[i][j] == if draw(j, i) then 1 else 0
      {
        for c := 0 to cols
          invariant Shaped(grid, cols, rows)
          invariant forall i, j :: 0 <= i < r && 0 <= j < cols ==> grid[i][j] == if draw(j, i) then 1 else 0
          invariant forall j :: 0 <= j < c ==> grid[r][j] == if draw(j, r) then 1 else 0
        {
          grid := grid[r := grid[r][c := if draw(c, r) then 1 else 0]];
        }
      }
      SameCells(grid, Sampled(cols, rows, draw), cols, rows);
      generation := 0;
    }

    /** Flips the cell at (col, row); coordinates off the grid are ignored. */
    method ToggleCell(col: int, row: int)
      requires Valid()
      modifies this
      ensures Valid() && generation == old(generation)
      ensures grid == Toggled(old(grid), col, row)
    {
      ToggledBinary(grid, col, row);
      if 0 <= row < rows && 0 <= col < cols {
        grid := grid[row := grid[row][col := 1 - grid[row][col]]];
      }
    }

    /** The number of live cells among the eight around (col, row); positions
        off the grid, and the cell itself, are not counted. */
    method CountAliveNeighbors(col: int, row: int) returns (count: int)
      requires Valid()
      ensures count == Neighbors(grid, col, row)
      ensures count == LiveNeighbors(grid, col, row) && 0 <= count <= 8
    {
      count := 0;
      for dr := -1 to 2
        invariant count == BlockSum(grid, col, row, dr)
      {
        for dc := -1 to 2
          invariant count == BlockSum(grid, col, row, dr) + RowSum(grid, col, row, dr, dc)
        {
          if dr == 0 && dc == 0 {
            continue;
          }
          var nr, nc := row + dr, col + dc;
          if 0 <= nr < rows && 0 <= nc < cols {
            count := count + grid[nr][nc];
          }
        }
      }
      NeighborsCountsLive(grid, col, row);
    }

    /** Advances one generation: fills a fresh matrix from the old one by the
        B3/S23 rule, replaces the old matrix with it, and bumps the counter.
        Returns whether any cell differs from before. */
    method Step() returns (changed: bool)
      requires Valid()
      modifies this
      ensures Valid()
      ensures grid == Next(old(grid))
      ensures generation == old(generation) + 1
      ensures changed <==> exists r, c :: 0 <= r < rows && 0 <= c < cols && grid[r][c] != old(grid)[r][c]
      ensures changed <==> grid != old(grid)
    {
      var newGrid := Dead(cols, rows);
      changed := false;
      for r := 0 to rows
        modifies {}
        invariant |newGrid| == rows
        invariant forall i :: 0 <= i < r ==> newGrid[i] == NextRow(grid, i)
        invariant changed <==> newGrid[..r] != grid[..r]
      {
        var row, rowChanged := NextGenerationRow(r);
        newGrid := newGrid[r := row];
        PrefixDiffers(newGrid, grid, r);
        changed := changed || rowChanged;
      }
      assert newGrid[..rows] == newGrid && grid[..rows] == grid;
      assert newGrid == Next(grid);
      NextShaped(grid, cols, rows);
      SameCells(newGrid, grid, cols, rows);
      grid := newGrid;
      generation := generation + 1;
    }

    /** The inner loop of one generation: row `r` of the next matrix, cell
        by cell by the B3/S23 rule, and whether any of its cells differs
        from row `r` now. */
    method NextGenerationRow(r: nat) returns (row: seq<int>, rowChanged: bool)
      requires Valid() && r < rows
      ensures row == NextRow(grid, r)
      ensures rowChanged <==> row != grid[r]
    {
      row := seq(cols, _ => 0);
      rowChanged := false;
      for c := 0 to cols
        invariant |row| == cols
        invariant row[..c] == NextRow(grid, r)[..c]
        invariant rowChanged <==> row[..c] != grid[r][..c]
      {
        var alive := grid[r][c] == 1;
        var neighbors := CountAliveNeighbors(c, r);
        var v;
        if alive && (neighbors == 2 || neighbors == 3) {
          v := 1;
        } else if !alive && neighbors == 3 {
          v := 1;
        } else {
          v := 0;
        }
        PrefixExtends(row, NextRow(grid, r), c, v);
        row := row[c := v];
        PrefixDiffers(row, grid[r], c);
        if row[c] != grid[r][c] {
          rowChanged := true;
        }
      }
      assert row[..cols] == row && grid[r][..cols] == grid[r];
      assert NextRow(grid, r)[..cols] == NextRow(grid, r);
    }

    /** The population: the number of live cells, at most `rows * cols`. */
    function AliveCount(): (n: int)
      reads this
      requires Valid()
      ensures n == Ones(grid)
      ensures 0 <= n <= rows * cols
    {
      TotalCountsOnes(grid);
      OnesBounded(grid, cols, rows);
      Total(grid)
    }
  }
}
