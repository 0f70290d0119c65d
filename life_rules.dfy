/**
 The value-level rules of the Game of Life grid: a board is a row-major
 matrix of cells, `g[row][col]`, and every coordinate pair below is written
 `(c, r)` (column first), the order the grid's public operations take.
 The class in cell_grid.dfy is proved against these functions.
 */
module LifeRules {

  /** A board value: `rows` rows of `cols` cells each; alive is 1, dead is 0. */
  type Board = seq<seq<int>>

  /** The board has exactly `rows` rows of exactly `cols` cells. */
  predicate Shaped(g: Board, cols: nat, rows: nat) {
    |g| == rows && forall r :: 0 <= r < rows ==> |g[r]| == cols
  }

  /** Every cell holds 0 or 1. */
  predicate Binary(g: Board) {
    forall r, c :: 0 <= r < |g| && 0 <= c < |g[r]| ==> g[r][c] == 0 || g[r][c] == 1
  }

  predicate InBounds(g: Board, c: int, r: int) {
    0 <= r < |g| && 0 <= c < |g[r]|
  }

  /** The value at (c, r); a position off the board contributes nothing. */
  function Cell(g: Board, c: int, r: int): int {
    if InBounds(g, c, r) then g[r][c] else 0
  }

  /** 1 when (c, r) is on the board and alive, 0 otherwise. */
  function Live(g: Board, c: int, r: int): int {
    if InBounds(g, c, r) && g[r][c] == 1 then 1 else 0
  }

  // ---------------------------------------------------------------------
  // Neighbour count
  // ---------------------------------------------------------------------

  /** What the neighbour at offset (dc, dr) adds to the count of (c, r):
      nothing for the cell itself, the cell's value otherwise. */
  function Contribution(g: Board, c: int, r: int, dc: int, dr: int): int {
    if dr == 0 && dc == 0 then 0 else Cell(g, c + dc, r + dr)
  }

  /** Sum of the contributions of offsets (dc, dr) with -1 <= dc < hi. */
  function RowSum(g: Board, c: int, r: int, dr: int, hi: int): int
    requires -1 <= hi <= 2
    decreases hi + 1
  {
    if hi == -1 then 0 else RowSum(g, c, r, dr, hi - 1) + Contribution(g, c, r, hi - 1, dr)
  }

  /** Sum of the contributions of offsets (dc, dr) with -1 <= dr < hi and -1 <= dc <= 1. */
  function BlockSum(g: Board, c: int, r: int, hi: int): int
    requires -1 <= hi <= 2
    decreases hi + 1
  {
    if hi == -1 then 0 else BlockSum(g, c, r, hi - 1) + RowSum(g, c, r, hi - 1, 2)
  }

  /** The neighbour count of (c, r): the values of the Moore neighbourhood
      summed row offset by row offset, column offset by column offset. */
  function Neighbors(g: Board, c: int, r: int): int {
    BlockSum(g, c, r, 2)
  }

  /** An independent statement of the same count: how many of the eight
      adjacent positions are on the board and alive. */
  function LiveNeighbors(g: Board, c: int, r: int): int {
    Live(g, c - 1, r - 1) + Live(g, c, r - 1) + Live(g, c + 1, r - 1) +
    Live(g, c - 1, r)                         + Live(g, c + 1, r) +
    Live(g, c - 1, r + 1) + Live(g, c, r + 1) + Live(g, c + 1, r + 1)
  }

  /** The count written out as its eight terms. */
  lemma {:induction false} NeighborsUnfold(g: Board, c: int, r: int)
    ensures Neighbors(g, c, r) ==
      Cell(g, c - 1, r - 1) + Cell(g, c, r - 1) + Cell(g, c + 1, r - 1) +
      Cell(g, c - 1, r)                         + Cell(g, c + 1, r) +
      Cell(g, c - 1, r + 1) + Cell(g, c, r + 1) + Cell(g, c + 1, r + 1)
  {
    assert RowSum(g, c, r, -1, 2) == Cell(g, c - 1, r - 1) + Cell(g, c, r - 1) + Cell(g, c + 1, r - 1);
    assert RowSum(g, c, r, 0, 2) == Cell(g, c - 1, r) + Cell(g, c + 1, r);
    assert RowSum(g, c, r, 1, 2) == Cell(g, c - 1, r + 1) + Cell(g, c, r + 1) + Cell(g, c + 1, r + 1);
  }

  /** On a board of 0/1 cells the count is the number of live neighbours,
      so it lies in [0, 8]. */
  lemma NeighborsCountsLive(g: Board, c: int, r: int)
    requires Binary(g)
    ensures Neighbors(g, c, r) == LiveNeighbors(g, c, r)
    ensures 0 <= Neighbors(g, c, r) <= 8
  {
    NeighborsUnfold(g, c, r);
    forall x, y ensures Cell(g, x, y) == Live(g, x, y) {
      if InBounds(g, x, y) {
        assert g[y][x] == 0 || g[y][x] == 1;
      }
    }
  }

  /** The count of (c, r) depends only on the eight positions adjacent to it in
      plain coordinates: not on the cell itself, and not on any cell across an
      edge (the board does not wrap around). */
  lemma NeighborsLocal(g: Board, h: Board, c: int, r: int)
    requires forall x, y :: c - 1 <= x <= c + 1 && r - 1 <= y <= r + 1 && (x != c || y != r) ==>
      Cell(g, x, y) == Cell(h, x, y)
    ensures Neighbors(g, c, r) == Neighbors(h, c, r)
  {
    NeighborsUnfold(g, c, r);
    NeighborsUnfold(h, c, r);
  }

  /** The corner (0, 0) has only three positions on the board around it. */
  lemma CornerNeighbors(g: Board)
    requires Binary(g)
    ensures Neighbors(g, 0, 0) == Live(g, 1, 0) + Live(g, 0, 1) + Live(g, 1, 1)
    ensures Neighbors(g, 0, 0) <= 3
  {
    NeighborsCountsLive(g, 0, 0);
  }

  // ---------------------------------------------------------------------
  // One generation
  // ---------------------------------------------------------------------

  /** Conway's B3/S23 rule for one cell with `n` neighbours: a live cell (value 1)
      survives with 2 or 3, any other cell is born with exactly 3. */
  function NextCell(cell: int, n: int): int {
    if cell == 1 && (n == 2 || n == 3) then 1
    else if cell != 1 && n == 3 then 1
    else 0
  }

  /** The next generation, every cell computed from the whole old board. */
  function Next(g: Board): (h: Board)
    ensures |h| == |g| && forall r :: 0 <= r < |g| ==> |h[r]| == |g[r]|
    ensures Binary(h)
  {
    seq(|g|, r => NextRow(g, r))
  }

  /** Row `r` of the next generation. */
  function NextRow(g: Board, r: int): seq<int> {
    if 0 <= r < |g| then seq(|g[r]|, c => NextAt(g, c, r)) else []
  }

  /** The next value of the cell at (c, r), from its value and its neighbour count
      on the old board. */
  function NextAt(g: Board, c: int, r: int): int {
    NextCell(Cell(g, c, r), Neighbors(g, c, r))
  }

  /** The rule stated with the live-neighbour count: after a step a cell is
      alive iff it was alive with 2 or 3 live neighbours, or dead with exactly 3. */
  lemma NextRule(g: Board, c: int, r: int)
    requires Binary(g) && InBounds(g, c, r)
    ensures Next(g)[r][c] == 1 <==>
      (g[r][c] == 1 && (LiveNeighbors(g, c, r) == 2 || LiveNeighbors(g, c, r) == 3)) ||
      (g[r][c] == 0 && LiveNeighbors(g, c, r) == 3)
  {
    NeighborsCountsLive(g, c, r);
  }

  /** A step keeps the board's shape. */
  lemma NextShaped(g: Board, cols: nat, rows: nat)
    requires Shaped(g, cols, rows)
    ensures Shaped(Next(g), cols, rows)
  {
  }

  /** Two boards of one shape are equal iff they agree cell by cell. */
  lemma SameCells(g: Board, h: Board, cols: nat, rows: nat)
    requires Shaped(g, cols, rows) && Shaped(h, cols, rows)
    ensures g == h <==> forall r, c :: 0 <= r < rows && 0 <= c < cols ==> g[r][c] == h[r][c]
  {
    if forall r, c :: 0 <= r < rows && 0 <= c < cols ==> g[r][c] == h[r][c] {
      forall r | 0 <= r < rows ensures g[r] == h[r] {
        assert forall c :: 0 <= c < cols ==> g[r][c] == h[r][c];
      }
    }
  }

  // ---------------------------------------------------------------------
  // Whole-board contents
  // ---------------------------------------------------------------------

  /** The all-dead board. */
  function Dead(cols: nat, rows: nat): (g: Board)
    ensures Shaped(g, cols, rows) && Binary(g)
  {
    seq(rows, _ => seq(cols, _ => 0))
  }

  /** The board filled from a random source: `draw(c, r)` is whether the draw
      made for (c, r) fell below the requested probability. */
  function Sampled(cols: nat, rows: nat, draw: (int, int) -> bool): (g: Board)
    ensures Shaped(g, cols, rows) && Binary(g)
  {
    seq(rows, r => seq(cols, c => if draw(c, r) then 1 else 0))
  }

  /** A cell of the sampled board is alive exactly when it lies on the board
      and its draw came out true. */
  lemma SampledCell(cols: nat, rows: nat, draw: (int, int) -> bool, c: int, r: int)
    ensures Live(Sampled(cols, rows, draw), c, r) == 1 <==> 0 <= c < cols && 0 <= r < rows && draw(c, r)
  {
  }

  /** The dead board stays dead: every cell has no neighbours. */
  lemma DeadIsStill(cols: nat, rows: nat)
    ensures Next(Dead(cols, rows)) == Dead(cols, rows)
  {
    var g := Dead(cols, rows);
    forall r, c | 0 <= r < rows && 0 <= c < cols ensures Next(g)[r][c] == 0 {
      NeighborsUnfold(g, c, r);
    }
    SameCells(Next(g), g, cols, rows);
  }

  /** The board with (c, r) flipped between 0 and 1; a position off the board
      leaves it as it is. */
  function Toggled(g: Board, c: int, r: int): (t: Board)
    ensures |t| == |g| && forall i :: 0 <= i < |g| ==> |t[i]| == |g[i]|
  {
    if InBounds(g, c, r) then g[r := g[r][c := 1 - g[r][c]]] else g
  }

  /** Toggling changes exactly the one cell, and only when it is on the board. */
  lemma ToggledCell(g: Board, c: int, r: int, x: int, y: int)
    ensures Cell(Toggled(g, c, r), x, y) ==
      if x == c && y == r && InBounds(g, c, r) then 1 - Cell(g, x, y) else Cell(g, x, y)
  {
  }

  /** Toggling keeps every cell in {0, 1}. */
  lemma ToggledBinary(g: Board, c: int, r: int)
    requires Binary(g)
    ensures Binary(Toggled(g, c, r))
  {
    if InBounds(g, c, r) {
      var t := Toggled(g, c, r);
      forall i, j | 0 <= i < |t| && 0 <= j < |t[i]| ensures t[i][j] == 0 || t[i][j] == 1 {
        assert Cell(t, j, i) == t[i][j];
        ToggledCell(g, c, r, j, i);
      }
    }
  }

  /** Toggling the same position twice restores the board. */
  lemma ToggleTwice(g: Board, c: int, r: int)
    ensures Toggled(Toggled(g, c, r), c, r) == g
  {
    if InBounds(g, c, r) {
      assert Toggled(g, c, r)[r] == g[r][c := 1 - g[r][c]];
      assert g[r][c := 1 - g[r][c]][c := g[r][c]] == g[r];
    }
  }

  // ---------------------------------------------------------------------
  // Population
  // ---------------------------------------------------------------------

  /** The sum of a row's values. */
  function RowTotal(s: seq<int>): int {
    if |s| == 0 then 0 else RowTotal(s[..|s| - 1]) + s[|s| - 1]
  }

  /** The sum of every cell's value, row by row. */
  function Total(g: Board): int {
    if |g| == 0 then 0 else Total(g[..|g| - 1]) + RowTotal(g[|g| - 1])
  }

  /** The number of cells equal to 1, counted per row as occurrences of 1. */
  function Ones(g: Board): int {
    if |g| == 0 then 0 else Ones(g[..|g| - 1]) + multiset(g[|g| - 1])[1]
  }

  /** A row of 0/1 values sums to its number of 1s. */
  lemma {:induction false} RowTotalCountsOnes(s: seq<int>)
    requires forall i :: 0 <= i < |s| ==> s[i] == 0 || s[i] == 1
    ensures RowTotal(s) == multiset(s)[1]
  {
    if |s| > 0 {
      var p := s[..|s| - 1];
      RowTotalCountsOnes(p);
      assert s == p + [s[|s| - 1]];
      assert multiset(s) == multiset(p) + multiset{s[|s| - 1]};
    }
  }

  /** On a board of 0/1 cells the sum of the values is the number of live cells. */
  lemma {:induction false} TotalCountsOnes(g: Board)
    requires Binary(g)
    ensures Total(g) == Ones(g)
  {
    if |g| > 0 {
      var p := g[..|g| - 1];
      assert Binary(p) by {
        forall i, j | 0 <= i < |p| && 0 <= j < |p[i]| ensures p[i][j] == 0 || p[i][j] == 1 {
          assert p[i] == g[i];
        }
      }
      TotalCountsOnes(p);
      var last := g[|g| - 1];
      assert forall j :: 0 <= j < |last| ==> last[j] == 0 || last[j] == 1;
      RowTotalCountsOnes(last);
    }
  }

  /** A row holds at most as many 1s as it has cells. */
  lemma {:induction false} OccurrencesBounded(s: seq<int>)
    ensures multiset(s)[1] <= |s|
  {
    if |s| > 0 {
      var p := s[..|s| - 1];
      OccurrencesBounded(p);
      assert s == p + [s[|s| - 1]];
      assert multiset(s) == multiset(p) + multiset{s[|s| - 1]};
    }
  }

  /** The population of a `rows` x `cols` board is at most `rows * cols`. */
  lemma {:induction false} OnesBounded(g: Board, cols: nat, rows: nat)
    requires Shaped(g, cols, rows)
    ensures 0 <= Ones(g) <= rows * cols
  {
    if rows > 0 {
      var p := g[..rows - 1];
      assert Shaped(p, cols, rows - 1);
      OnesBounded(p, cols, rows - 1);
      OccurrencesBounded(g[rows - 1]);
      assert (rows - 1) * cols + cols == rows * cols;
    }
  }

  /** Replacing row `r` changes the population by the difference between the
      two rows' counts of 1s. */
  lemma {:induction false} OnesReplaceRow(g: Board, r: int, row: seq<int>)
    requires 0 <= r < |g|
    ensures Ones(g[r := row]) == Ones(g) - multiset(g[r])[1] + multiset(row)[1]
  {
    var n := |g| - 1;
    var h := g[r := row];
    if r < n {
      assert h[..n] == g[..n][r := row];
      OnesReplaceRow(g[..n], r, row);
    } else {
      assert h[..n] == g[..n];
    }
  }

  /** Toggling a cell on a board of 0/1 cells adds one to the population when
      the cell was dead and takes one away when it was alive; off the board
      it changes nothing. */
  lemma ToggledOnes(g: Board, c: int, r: int)
    requires Binary(g)
    ensures !InBounds(g, c, r) ==> Ones(Toggled(g, c, r)) == Ones(g)
    ensures InBounds(g, c, r) && g[r][c] == 0 ==> Ones(Toggled(g, c, r)) == Ones(g) + 1
    ensures InBounds(g, c, r) && g[r][c] == 1 ==> Ones(Toggled(g, c, r)) == Ones(g) - 1
  {
    if InBounds(g, c, r) {
      var row := g[r][c := 1 - g[r][c]];
      OnesReplaceRow(g, r, row);
      assert multiset(row) == multiset(g[r]) - multiset{g[r][c]} + multiset{1 - g[r][c]};
    }
  }

  /** The dead board has no live cells. */
  lemma {:induction false} DeadHasNoOnes(cols: nat, rows: nat)
    ensures Ones(Dead(cols, rows)) == 0
  {
    if rows > 0 {
      assert Dead(cols, rows)[..rows - 1] == Dead(cols, rows - 1);
      DeadHasNoOnes(cols, rows - 1);
      assert 1 !in multiset(Dead(cols, rows)[rows - 1]);
    }
  }
}
