/**
 Classic patterns run through the rules: the block is a still life, the
 blinker has period two, an isolated cell dies and three live neighbours
 bring a dead cell to life. The scenarios at the end drive a CellGrid
 through its public operations and state what `Step` reports.
 */
module Patterns {
  import opened LifeRules
  import opened Engine

  /** The block: live exactly at columns 1-2 of rows 1-2, on the unbounded plane. */
  function BlockCell(c: int, r: int): int {
    if 1 <= r <= 2 && 1 <= c <= 2 then 1 else 0
  }

  /** The horizontal blinker: live exactly at columns 1-3 of row 2. */
  function BlinkerHCell(c: int, r: int): int {
    if r == 2 && 1 <= c <= 3 then 1 else 0
  }

  /** The vertical blinker: live exactly at rows 1-3 of column 2. */
  function BlinkerVCell(c: int, r: int): int {
    if c == 2 && 1 <= r <= 3 then 1 else 0
  }

  /** The block on a 4x4 board. */
  function Block(): (g: Board)
    ensures Shaped(g, 4, 4) && Binary(g)
  {
    seq(4, r => seq(4, c => BlockCell(c, r)))
  }

  /** The horizontal blinker on a 5x5 board. */
  function BlinkerH(): (g: Board)
    ensures Shaped(g, 5, 5) && Binary(g)
  {
    seq(5, r => seq(5, c => BlinkerHCell(c, r)))
  }

  /** The vertical blinker on a 5x5 board. */
  function BlinkerV(): (g: Board)
    ensures Shaped(g, 5, 5) && Binary(g)
  {
    seq(5, r => seq(5, c => BlinkerVCell(c, r)))
  }

  /** Every live cell of the block lies inside the 4x4 board, so reading the
      board anywhere, on or off it, gives the block's value. */
  lemma BlockCells(x: int, y: int)
    ensures Cell(Block(), x, y) == BlockCell(x, y)
  {
  }

  lemma BlinkerHCells(x: int, y: int)
    ensures Cell(BlinkerH(), x, y) == BlinkerHCell(x, y)
  {
  }

  lemma BlinkerVCells(x: int, y: int)
    ensures Cell(BlinkerV(), x, y) == BlinkerVCell(x, y)
  {
  }

  /** Every position keeps its block value: a live cell has three live
      neighbours, a dead one at most two. */
  lemma BlockCellStill(c: int, r: int)
    ensures NextAt(Block(), c, r) == BlockCell(c, r)
  {
    NeighborsUnfold(Block(), c, r);
    BlockCells(c - 1, r - 1); BlockCells(c, r - 1); BlockCells(c + 1, r - 1);
    BlockCells(c - 1, r);     BlockCells(c, r);     BlockCells(c + 1, r);
    BlockCells(c - 1, r + 1); BlockCells(c, r + 1); BlockCells(c + 1, r + 1);
  }

  /** The block does not change. */
  lemma BlockIsStill()
    ensures Next(Block()) == Block()
  {
    forall r, c | 0 <= r < 4 && 0 <= c < 4 ensures Next(Block())[r][c] == Block()[r][c] {
      BlockCellStill(c, r);
    }
    SameCells(Next(Block()), Block(), 4, 4);
  }

  /** Position by position, the horizontal blinker steps to the vertical one:
      the ends die, the centre survives, the cells above and below it are born. */
  lemma BlinkerHTurns(c: int, r: int)
    ensures NextAt(BlinkerH(), c, r) == BlinkerVCell(c, r)
  {
    NeighborsUnfold(BlinkerH(), c, r);
    BlinkerHCells(c - 1, r - 1); BlinkerHCells(c, r - 1); BlinkerHCells(c + 1, r - 1);
    BlinkerHCells(c - 1, r);     BlinkerHCells(c, r);     BlinkerHCells(c + 1, r);
    BlinkerHCells(c - 1, r + 1); BlinkerHCells(c, r + 1); BlinkerHCells(c + 1, r + 1);
  }

  /** Position by position, the vertical blinker steps back to the horizontal one. */
  lemma BlinkerVTurns(c: int, r: int)
    ensures NextAt(BlinkerV(), c, r) == BlinkerHCell(c, r)
  {
    NeighborsUnfold(BlinkerV(), c, r);
    BlinkerVCells(c - 1, r - 1); BlinkerVCells(c, r - 1); BlinkerVCells(c + 1, r - 1);
    BlinkerVCells(c - 1, r);     BlinkerVCells(c, r);     BlinkerVCells(c + 1, r);
    BlinkerVCells(c - 1, r + 1); BlinkerVCells(c, r + 1); BlinkerVCells(c + 1, r + 1);
  }

  /** The blinker turns from horizontal to vertical and back, so its period
      is exactly two. */
  lemma BlinkerOscillates()
    ensures Next(BlinkerH()) == BlinkerV()
    ensures Next(BlinkerV()) == BlinkerH()
    ensures BlinkerH() != BlinkerV()
  {
    forall r, c | 0 <= r < 5 && 0 <= c < 5 ensures Next(BlinkerH())[r][c] == BlinkerV()[r][c] {
      BlinkerHTurns(c, r);
    }
    SameCells(Next(BlinkerH()), BlinkerV(), 5, 5);
    forall r, c | 0 <= r < 5 && 0 <= c < 5 ensures Next(BlinkerV())[r][c] == BlinkerH()[r][c] {
      BlinkerVTurns(c, r);
    }
    SameCells(Next(BlinkerV()), BlinkerH(), 5, 5);
    assert BlinkerH()[2][1] != BlinkerV()[2][1];
  }

  /** A live cell with no live neighbours dies of underpopulation. */
  lemma LoneCellDies(g: Board, c: int, r: int)
    requires Binary(g) && InBounds(g, c, r) && g[r][c] == 1
    requires LiveNeighbors(g, c, r) == 0
    ensures Next(g)[r][c] == 0
  {
    NextRule(g, c, r);
  }

  /** A live cell with four or more live neighbours dies of overpopulation. */
  lemma CrowdedCellDies(g: Board, c: int, r: int)
    requires Binary(g) && InBounds(g, c, r)
    requires LiveNeighbors(g, c, r) >= 4
    ensures Next(g)[r][c] == 0
  {
    NextRule(g, c, r);
  }

  /** A dead cell with exactly three live neighbours comes to life. */
  lemma BirthOnThree(g: Board, c: int, r: int)
    requires Binary(g) && InBounds(g, c, r) && g[r][c] == 0
    requires LiveNeighbors(g, c, r) == 3
    ensures Next(g)[r][c] == 1
  {
    NextRule(g, c, r);
  }

  /** Toggling (1, 1), (2, 1), (1, 2) and (2, 2) on an empty 4x4 board draws the block. */
  lemma DrawBlock()
    ensures Toggled(Toggled(Toggled(Toggled(Dead(4, 4), 1, 1), 2, 1), 1, 2), 2, 2) == Block()
  {
    var g := Toggled(Toggled(Toggled(Toggled(Dead(4, 4), 1, 1), 2, 1), 1, 2), 2, 2);
    SameCells(g, Block(), 4, 4);
  }

  /** Toggling (1, 2), (2, 2) and (3, 2) on an empty 5x5 board draws the horizontal blinker. */
  lemma DrawBlinker()
    ensures Toggled(Toggled(Toggled(Dead(5, 5), 1, 2), 2, 2), 3, 2) == BlinkerH()
  {
    var g := Toggled(Toggled(Toggled(Dead(5, 5), 1, 2), 2, 2), 3, 2);
    SameCells(g, BlinkerH(), 5, 5);
  }

  /** The block has four live cells: it is drawn from the empty board by
      four toggles, each of which lands on a dead cell. */
  lemma BlockPopulation()
    ensures Ones(Block()) == 4
  {
    var g0 := Dead(4, 4);
    var g1 := Toggled(g0, 1, 1);
    var g2 := Toggled(g1, 2, 1);
    var g3 := Toggled(g2, 1, 2);
    DeadHasNoOnes(4, 4);
    ToggledOnes(g0, 1, 1);
    ToggledBinary(g0, 1, 1);
    ToggledOnes(g1, 2, 1);
    ToggledBinary(g1, 2, 1);
    ToggledOnes(g2, 1, 2);
    ToggledBinary(g2, 1, 2);
    ToggledOnes(g3, 2, 2);
    DrawBlock();
  }

  /** Drawing the block on a fresh 4x4 grid by four toggles and stepping
      it: the step reports no change, the counter reads 1 and four cells
      are alive. */
  method BlockScenario() returns (changed: bool, generation: nat, population: int)
    ensures !changed && generation == 1 && population == 4
  {
    var grid := new CellGrid(4, 4);
    grid.ToggleCell(1, 1);
    grid.ToggleCell(2, 1);
    grid.ToggleCell(1, 2);
    grid.ToggleCell(2, 2);
    DrawBlock();
    BlockIsStill();
    changed := grid.Step();
    generation := grid.generation;
    BlockPopulation();
    population := grid.AliveCount();
  }

  /** Drawing the horizontal blinker and stepping twice: each step reports a
      change, after two steps the grid is back where it started, and the
      counter has gone up by two. */
  method BlinkerScenario() returns (first: bool, second: bool, back: bool, generation: nat)
    ensures first && second && back && generation == 2
  {
    var grid := new CellGrid(5, 5);
    grid.ToggleCell(1, 2);
    grid.ToggleCell(2, 2);
    grid.ToggleCell(3, 2);
    DrawBlinker();
    BlinkerOscillates();
    first := grid.Step();
    second := grid.Step();
    back := grid.grid == BlinkerH();
    generation := grid.generation;
  }
}
