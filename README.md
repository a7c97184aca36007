# Game of Life engine, in Dafny

This project models the simulation engine of `app.py`, a Game of Life that
draws its grid in a pygame window. The model covers:

- building a grid of zeros;
- seeding it with random live cells;
- counting the live neighbours of a cell;
- the B3/S23 rule;
- computing the next generation.

A grid is `width` columns of `height` integer cells read as `grid[x][y]`. A
cell holding 1 is alive and one holding 0 is dead. Only a cell holding
exactly 1 counts as a live neighbour; `apply_rules` returns any state other
than 0 and 1 unchanged. The grid has edges: positions off the grid count
as dead, and nothing wraps around.

The project has three modules:

- `LifeSpec` (`life_spec.dfy`) holds the pure definitions on `seq<seq<int>>`:
  - `ZeroMatrix`, `ApplyRules` and `LiveNeighbours`;
  - `NextGeneration` (one generation) and `Generations` (n generations);
  - `Seeded`, which says what random seeding produces;
  - the lemmas about these definitions.
- `LifeEngine` (`life_engine.dfy`) holds the program's own loops as methods
  over `array2<int>`. Each method is proved against `LifeSpec` through
  `Cells(a)`, the contents of the array as a sequence grid.
  - `CountNeighbors` is `count_neighbors`, with the same 3 x 3 double loop and
    the same two tests.
  - `UpdateGrid` is `update_grid`. It allocates a fresh grid, fills it cell by
    cell, and leaves the input alone.
  - `InitiateLiveCells` is `initiate_live_cells` and seeds a grid in place.
- `LifePatterns` (`life_patterns.dfy`) proves two known patterns:
  - the blinker on a 5 x 5 grid has period two;
  - the block on a 4 x 4 grid is a still life.

The random draws of `initiate_live_cells` are a parameter
`hit: (int, int) -> bool`. `hit(l, c)` stands for "the value `random()`
returned at the draw for cell (l, c) was below the probability".

## Model

| member | source | states |
|---|---|---|
| LifeSpec.ZeroMatrix | app.py:9-10 | `width` columns (none when width <= 0), each of `height` cells (none when height <= 0); the grid is rectangular and every cell is 0 |
| LifeSpec.ApplyRules | app.py:106-121 | a live cell (1) is live next exactly when it has 2 or 3 live neighbours; a dead cell (0) is live next exactly when it has 3; from 0 or 1 the result is 0 or 1; any other state is returned unchanged |
| LifeSpec.LiveNeighbours | app.py:124-137 | the count of live cells among the eight around (x, y), clipped to the grid, is at most 8 |
| LifeSpec.LiveNeighboursExpanded | app.py:132-136 | the count is the sum over the eight offsets around (x, y), each term 1 exactly when that position is on the grid and holds 1 |
| LifeSpec.NeighboursIgnoreCentre | app.py:135 | replacing the value at (x, y) does not change the count at (x, y): the cell never counts itself |
| LifeSpec.CornerNeighbours | app.py:134 | a corner cell has at most 3 neighbours |
| LifeSpec.EdgeNeighbours | app.py:134 | a cell on the border has at most 5 neighbours |
| LifeSpec.NoWrapAround | app.py:134 | on a grid at least three columns wide, changing the last column leaves every count in the first column unchanged: no toroidal wrap |
| LifeSpec.NeighboursAreLocal | app.py:132-135 | two grids of the same size that agree on the in-bounds cells of the 3 x 3 window around (x, y), centre excluded, give the same count at (x, y) |
| LifeSpec.NoWrapAroundVertically | app.py:134 | on a grid at least three cells high, changing the last cell of each column leaves the count at the first cell of every column unchanged |
| LifeSpec.NextGeneration | app.py:86-103 | the next grid has the same width and height, and each cell is ApplyRules of the old cell and its count in the old grid |
| LifeSpec.NextGenerationIsCellwise | app.py:95-101 | a grid equals the next generation if and only if it has the same dimensions and every cell follows the rule from the old grid |
| LifeSpec.NextGenerationKeepsBinary | app.py:106-121 | a grid of 0s and 1s stays a grid of 0s and 1s |
| LifeSpec.DeadGridStaysDead | app.py:119-121 | an all-dead grid is its own next generation: no cell is born without live neighbours |
| LifeSpec.ZeroMatrixStaysDead | app.py:9-10 | the zero matrix is a fixed point of the generation step |
| LifeSpec.Generations | app.py:82 | repeated update_grid calls keep the grid's dimensions |
| LifeSpec.GenerationsAdd | app.py:82 | m generations followed by n more is m + n generations |
| LifeSpec.StillLifeForever | app.py:82 | a grid that is its own next generation stays unchanged after any number of generations |
| LifeSpec.PeriodTwoForever | app.py:82 | a grid that returns after two generations returns after every even number of them |
| LifeSpec.Seeded | app.py:21-24 | seeding keeps the dimensions; a cell is 1 afterwards exactly when its draw hit or it was 1 before; a cell whose draw missed is unchanged |
| LifeSpec.SeededZeroMatrix | app.py:28-37 | a freshly initialised grid holds only 0s and 1s, and a cell is 1 exactly when its draw hit |
| LifeEngine.NewZeroGrid | app.py:9-10 | a fresh array of max(width, 0) x max(height, 0) cells whose contents are ZeroMatrix(width, height) |
| LifeEngine.WindowIsNeighbourCount | app.py:131-136 | what the double loop adds up over the 3 x 3 window, with the centre skipped, is the eight-neighbour count |
| LifeEngine.CountNeighbors | app.py:124-137 | for any x and y, on or off the grid, the loop's count is LiveNeighbours of the array's contents, hence at most 8 |
| LifeEngine.UpdateGrid | app.py:86-103 | returns a fresh array with the same dimensions whose contents are NextGeneration of the input's contents; the input is not modified |
| LifeEngine.InitiateLiveCells | app.py:13-25 | seeds the grid in place: its new contents are Seeded(old contents, hit) |
| LifeEngine.InitializeGrid | app.py:28-37 | a fresh array whose contents are Seeded(ZeroMatrix(width, height), hit) |
| LifePatterns.BlinkerAToB | app.py:86-121 | a 5 x 5 grid with (2, 1), (2, 2) and (2, 3) alive becomes the grid with (1, 2), (2, 2) and (3, 2) alive |
| LifePatterns.BlinkerBToA | app.py:86-121 | and that grid becomes the first one again |
| LifePatterns.BlinkerOscillates | app.py:82 | the two phases differ; after 2k generations the blinker is back; after 2k + 1 it is in its other phase |
| LifePatterns.BlockIsStill | app.py:86-121 | the 2 x 2 block in a 4 x 4 grid is its own next generation |
| LifePatterns.BlockForever | app.py:82 | the block is unchanged after any number of generations |

## Left out

- Window and drawing (`create_window`, `draw_grid`, app.py:40-83): pygame rendering, the event loop and `time.sleep` are I/O. Only the repeated `update_grid` call of that loop is modelled, as `Generations`.
- `main` (app.py:140-148): it fixes a 45 x 45 grid and probability 0.3, then starts the window. This is configuration and I/O.
- The random source and the `probability` argument: the uniform draws are not modelled. The oracle `hit` stands for the outcome of each comparison `random() < probability`, so the distribution of live cells is not captured.
- Size and probability checks: `app.py` raises no error for non-positive dimensions or for a probability outside [0, 1], so the model raises none either. `ZeroMatrix` returns the empty grid for width <= 0, and `width` empty columns for height <= 0.
- Ragged grids: the program reads `len(grid[0])` as the height of every column. `LifeSpec` states this assumption as `Rectangular`, and the engine's `array2` cannot be ragged. Lists of unequal lengths are not modelled.
- UpdateGrid: requires a non-empty grid, because `update_grid` reads `grid[0]` and fails with an `IndexError` on an empty list. That failure is not modelled.
- Python lists are shared by reference. `UpdateGrid` returns a fresh array, and `InitiateLiveCells` updates its argument in place and returns nothing. In Python that function also returns the same list object, which `initialize_grid` then reassigns.
