# Game of Life grid engine in Dafny

This project models the simulation engine of a Conway's Game of Life
program: the `CellGrid` class of `grid.py`. A grid has `cols` columns and
`rows` rows of cells. It stores them row-major as `grid[row][col]`, with 1
for alive and 0 for dead, although its public operations take `(col, row)`.
It also keeps a `generation` counter. The operations are:

- clearing the board;
- filling it at random;
- flipping one cell;
- counting a cell's live neighbours, with no wrap-around at the edges;
- advancing one generation by the B3/S23 rule and reporting whether anything changed;
- counting the population.

The project has three modules:

- `life_rules.dfy` (module `LifeRules`) holds the value-level meaning of the
  engine over `Board = seq<seq<int>>`:
  - the shape and 0/1 invariants;
  - the neighbour count `Neighbors`, summed offset by offset as the source
    does, and an independent eight-term count `LiveNeighbors`;
  - the one-cell rule `NextCell` and the whole-board step `Next`;
  - the boards that clearing, randomizing and toggling produce;
  - the population `Ones`, the number of 1 cells.
- `cell_grid.dfy` (module `Engine`) is the class `CellGrid`. Its matrix is a
  field `grid: Board` that the methods update cell by cell, in nested loops
  as the source does, or replace as a whole (`Step`). Each method's
  postcondition states the new matrix and counter in terms of `LifeRules`.
  The loop invariants say which prefix of the board is already done.
- `life_patterns.dfy` (module `Patterns`) runs classic patterns through the
  rules:
  - the 2x2 block is a still life;
  - the blinker has period two;
  - a lone cell dies, a crowded cell dies, and a dead cell with three live
    neighbours is born.

  Two client methods drive a `CellGrid` through `ToggleCell`, `Step` and
  `AliveCount`, and prove what the grid reports: no change for the block,
  and a change on both steps for the blinker.

## Model

| member | source | states |
|---|---|---|
| Engine.CellGrid.constructor | grid.py:9-13 | a new grid keeps the given dimensions, has every cell dead (`Dead(cols, rows)`) and is at generation 0 |
| Engine.CellGrid.Clear | grid.py:15-20 | after clearing, the shape and 0/1 invariant hold, the matrix is the all-dead board of the same dimensions, and the generation is 0 |
| Engine.CellGrid.Randomize | grid.py:22-27 | after randomizing, each cell (c, r) is 1 exactly when the random draw for it came out true; the board keeps its shape, holds only 0/1, and the generation is 0 |
| Engine.CellGrid.ToggleCell | grid.py:29-32 | the new matrix is `Toggled(old, col, row)`: the one in-range cell is flipped, out-of-range coordinates change nothing, and the generation and 0/1 invariant are kept |
| Engine.CellGrid.CountAliveNeighbors | grid.py:34-44 | for any coordinates, even off the board, the loop's count equals the neighbour sum `Neighbors` and the number of live in-board cells among the eight adjacent positions, and lies in [0, 8] |
| Engine.CellGrid.Step | grid.py:46-70 | the new matrix is `Next` of the old one, computed wholly from the old matrix; the generation goes up by exactly 1; the result is true iff some cell differs, iff the board changed |
| Engine.CellGrid.NextGenerationRow | grid.py:55-66 | the inner loop of a step yields exactly row r of `Next(grid)`, and reports a change iff that row differs from the current row r |
| Engine.CellGrid.AliveCount | grid.py:72-74 | the sum of all cells equals the number of live cells and lies in [0, rows * cols] |
| LifeRules.NeighborsUnfold | grid.py:37-43 | the offset-by-offset sum is the eight in-board neighbour values; the centre offset is skipped |
| LifeRules.NeighborsCountsLive | grid.py:34-44 | on a 0/1 board the neighbour sum equals the independent count of live adjacent in-board cells, and is between 0 and 8 |
| LifeRules.NeighborsLocal | grid.py:37-43 | the count depends only on the eight adjacent positions in plain coordinates: not on the cell itself, and not on any cell across an edge (no torus) |
| LifeRules.CornerNeighbors | grid.py:41-43 | the corner (0, 0) counts only its three in-board neighbours, so its count is at most 3 |
| LifeRules.Next | grid.py:51-63 | a step keeps every row's length and the number of rows, and produces only 0/1 cells |
| LifeRules.NextRule | grid.py:56-63 | after a step a cell is alive iff it was alive with 2 or 3 live neighbours or dead with exactly 3, counted on the old board |
| LifeRules.SameCells | grid.py:65-66 | two boards of one shape are equal iff no cell differs, which links the per-cell change test to whole-board change |
| LifeRules.Dead | grid.py:12 | the all-dead board has the requested shape and only 0/1 cells |
| LifeRules.Sampled | grid.py:24-26 | the randomly filled board has the requested shape and only 0/1 cells |
| LifeRules.SampledCell | grid.py:26 | a randomly filled cell is alive iff it lies on the board and its draw was true |
| LifeRules.DeadIsStill | grid.py:51-63 | a step leaves the all-dead board unchanged |
| LifeRules.Toggled | grid.py:29-32 | toggling keeps the board's shape |
| LifeRules.ToggledCell | grid.py:31-32 | toggling flips exactly the addressed in-board cell and leaves every other position unchanged |
| LifeRules.ToggledBinary | grid.py:32 | toggling keeps every cell in {0, 1} |
| LifeRules.ToggleTwice | grid.py:29-32 | toggling the same coordinates twice restores the board, in or out of range |
| LifeRules.ToggledOnes | grid.py:29-32 | toggling raises the population by one on a dead cell, lowers it by one on a live one, and leaves it unchanged off the board |
| LifeRules.RowTotalCountsOnes | grid.py:74 | a row of 0/1 values sums to its number of 1s |
| LifeRules.TotalCountsOnes | grid.py:74 | on a 0/1 board the sum of all cells is the number of live cells |
| LifeRules.OnesBounded | grid.py:72-74 | the population of a rows x cols board is between 0 and rows * cols |
| LifeRules.DeadHasNoOnes | grid.py:17-19 | a cleared board has population 0 |
| Patterns.BlockCellStill | grid.py:56-63 | every position of the block keeps its value through a step |
| Patterns.BlockIsStill | grid.py:51-63 | the 2x2 block on a 4x4 board is a still life |
| Patterns.BlinkerHTurns | grid.py:56-63 | each position of the horizontal blinker steps to the vertical blinker's value |
| Patterns.BlinkerVTurns | grid.py:56-63 | each position of the vertical blinker steps back to the horizontal blinker's value |
| Patterns.BlinkerOscillates | grid.py:51-63 | the blinker alternates between horizontal and vertical, and the two phases differ, so it has period two |
| Patterns.LoneCellDies | grid.py:58-63 | a live cell with no live neighbours dies |
| Patterns.CrowdedCellDies | grid.py:58-63 | a live cell with four or more live neighbours dies |
| Patterns.BirthOnThree | grid.py:60-61 | a dead cell with exactly three live neighbours is born |
| Patterns.DrawBlock | grid.py:29-32 | four toggles on the empty 4x4 board draw the block |
| Patterns.DrawBlinker | grid.py:29-32 | three toggles on the empty 5x5 board draw the horizontal blinker |
| Patterns.BlockPopulation | grid.py:72-74 | the block has four live cells |
| Patterns.BlockScenario | grid.py:46-70 | on a grid holding the block, the step reports no change, the generation becomes 1 and the population is 4 |
| Patterns.BlinkerScenario | grid.py:46-70 | on a grid holding the blinker, two steps each report a change and return the grid to its start, with the generation at 2 |

## Left out

- Engine.CellGrid.constructor: the dimensions are natural numbers. The
  source accepts any integers, and a negative count yields an empty
  dimension. The model does not capture that.
- Engine.CellGrid.Randomize: the `probability` parameter (default 0.25) and
  the float comparison `random.random() < probability` are replaced by an
  oracle `draw(col, row)`, which says whether that cell's draw came out
  below the probability. Randomness and floating point are not modelled, and
  neither is the order in which the draws are made.
- Engine.CellGrid.NextGenerationRow: the source's `step` is one method with
  nested loops. In the model the inner loop over the columns of one row is a
  separate read-only method called by `Step`'s loop over the rows. The order
  of evaluation and the result are the same.
- Engine.CellGrid.Valid: the model requires every cell to hold 0 or 1. In
  the source only the grid's own methods write cells and they write only 0
  and 1. Writes to the public `grid` attribute from outside the class are
  not modelled.
- Python lists of rows can in principle be shared. The source builds every
  row separately, so the model's value semantics for `seq` lose nothing.
- Integers are unbounded in Python as in Dafny, so the counter and the
  population need no wrap-around.
- game.py: `update()` is empty. The code therefore contains no application
  state machine, speed levels, pacing or stagnation and score tracking to
  model, although the program's design describes them. The model follows
  the code and leaves them out.
- Rendering and sprite loading (graphics.py), audio (sound_manager.py),
  the event loop (game.py), constants (config.py), asset paths (utils.py)
  and the sprite-sheet script (test_resources.py) are I/O around the engine
  and are not part of this model.
