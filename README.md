# Game of Life universe and evolution driver, in Dafny

This project models the core of a Conway's Game of Life simulator written in C. That core has two parts:

- **The universe** (`universe.c`). This is a `rows × cols` grid of boolean cells with a topology flag. It offers bounds-checked reads and writes of cells, a loader for the initial live cells, the neighbour census, and a renderer that writes `'o'` for a live cell and `'.'` for a dead one.
- **The evolution driver** (`life.c`). `play_game` computes each generation from buffer A into buffer B and then swaps the two pointers. `main` runs the game and prints the result only when loading succeeded.

The project has four modules:

- `GridModel` (`grid_model.dfy`) is the value model. A `Grid` holds the dimensions, the flag and a `seq<seq<bool>>` of cells. The module defines the bounds-checked read (`Cell`), the write (`WithCell`), loading (`Load`), the census (`LiveNeighbours`) and the rendering (`Render`). It also defines the reference set `NeighbourSet`: the live cells that lie at most one step from a given cell in each coordinate. The lemmas prove how these operations behave.
- `Evolution` (`evolution.dfy`) defines the survival and birth rule, one generation (`Step`) and n generations (`Iterate`).
- `Universes` (`universe.dfy`) is the imperative universe. The class `Universe` keeps its cells in an `array2<bool>` that is updated in place. A ghost field `model` holds the `Grid` value that the object currently represents, and every method is proved against it.
- `Life` (`life.dfy`) is the imperative driver. It contains one pass of the generation loop, the double-buffered loop with its local pointer swap, and `main`'s decision to load, then simulate and print.

The model keeps two behaviours of the source as written:

- **The topology flag is never stored.** `uv_create` assigns `false` to its own parameter (universe.c:34). The field therefore keeps the zero it got from `calloc`. The constructor proves that the flag is false whatever the argument, and nothing else writes the field. So `Census` of any universe built this way returns the flat count. `RunLife`'s contract does not depend on its `toroidal` argument at all. The wrap branches of the census are still modelled and proved for a universe whose flag is set.
- **The swap is local.** `PlayGame` swaps only its own references. The caller's first universe, which `main` prints, ends on generation `n - n % 2`: generation n when n is even and generation n - 1 when n is odd.

Two more facts about the census of a toroidal universe:

- On the first and last rows the column-wrap terms are skipped (universe.c:214, 219). In a universe with at least three columns a corner cell therefore never counts the other end of its own row. `CensusIgnoresFarCells` proves that such a cell never affects the census. For example, cell (0,2) of a 3×3 universe never counts towards the census of (0,0).
- In a one-row toroidal universe, both row-wrap terms point at the cell itself. The census then adds the cell's own state twice. `WrapCount` and `LiveNeighbours` keep this behaviour.

## Model

| member | source | states |
|---|---|---|
| `GridModel.Blank` | universe.c:23-36 | a created universe has the given rows and cols, the flag cleared and every cell dead |
| `GridModel.Cell` | universe.c:109-115 | a read returns true only for an in-range live cell; every pair outside the grid reads as dead |
| `GridModel.WithCell` | universe.c:78-99 | a write sets exactly the target cell when it is in range; rows, cols, the flag and every other cell are unchanged; an out-of-range write changes nothing |
| `GridModel.Load` | universe.c:127-147 | loading keeps the shape and the flag of the universe |
| `GridModel.LoadAccepted` | universe.c:136-146 | loading reports success exactly when every pair lies in the grid; the live cells are then the old live cells plus exactly the listed ones |
| `GridModel.LoadStopsAt` | universe.c:140-143 | at the first out-of-range pair loading reports failure; the earlier pairs stay applied and that pair and the later ones are not applied |
| `GridModel.WrapCount` | universe.c:201-223 | the wrap-around terms are zero when the flag is clear and never exceed two |
| `GridModel.CensusCountsNeighbours` | universe.c:170-223 | the census equals the number of live cells other than (r,c) within one step in each coordinate, plus the wrap terms; with the flag clear it is exactly that number |
| `GridModel.LiveNeighbours` | universe.c:156-226 | the census of an in-range cell is at most 8 in either topology |
| `GridModel.CensusAtMostEight` | universe.c:170-223 | the clipped block plus the wrap terms never exceed 8: a wrap term fires only on an edge row or column, where the block holds at most five other cells |
| `GridModel.CensusIgnoresFarCells` | universe.c:201-223 | changing a cell outside the clipped block changes no census unless it is a cell a wrap term tests: the other end of the column from the first or last row, or the other end of the row from the first or last column of any other row; no diagonal wrap neighbour is ever counted |
| `GridModel.DeadCensus` | universe.c:156-226 | every census of a universe with no live cell is 0 |
| `GridModel.Render` | universe.c:235-249 | the text is exactly rows × (cols + 1) characters long |
| `GridModel.RenderAt` | universe.c:235-249 | the character for (r,c) is 'o' exactly when the cell is live and '.' otherwise; every row ends with a newline |
| `GridModel.RenderShowsLoadedCells` | life.c:151-159 | when loading into a fresh universe succeeds and no generation is played, the printed text has 'o' exactly at the listed cells |
| `Evolution.Survives` | life.c:59-60 | a cell is live in the next generation only with 2 or 3 live neighbours; 3 always gives a live cell; a dead cell comes alive only with exactly 3 |
| `Evolution.Step` | life.c:55-66 | one generation keeps the shape and the flag of the universe |
| `Evolution.StepRule` | life.c:57-64 | in the next generation a live cell with 2 or 3 live neighbours stays live, a dead cell with exactly 3 comes alive, and every other cell is dead; the census is taken on the current grid only |
| `Evolution.Iterate` | life.c:54 | every generation keeps the shape and the flag |
| `Evolution.StepKeepsDead` | life.c:57-64 | a universe with no live cell has no live cell after one generation |
| `Evolution.IterateKeepsDead` | life.c:54-73 | a universe with no live cell stays empty for any number of generations |
| `Universes.Universe.constructor` | universe.c:23-36 | a fresh rows × cols grid with every cell dead and the flag false, whatever the argument |
| `Universes.Universe.Rows` | universe.c:58-60 | the row count is the grid's first dimension |
| `Universes.Universe.Cols` | universe.c:67-69 | the column count is the grid's second dimension |
| `Universes.Universe.LiveCell` | universe.c:78-84 | the new state is the old one with (r,c) set live when it is in range; no other cell, dimension or flag changes |
| `Universes.Universe.DeadCell` | universe.c:93-99 | the new state is the old one with (r,c) set dead when it is in range; no other cell, dimension or flag changes |
| `Universes.Universe.GetCell` | universe.c:109-115 | returns the model's bounds-checked cell state and changes nothing |
| `Universes.Universe.Populate` | universe.c:127-147 | the returned flag and the new state are those of `Load` applied to the old state |
| `Universes.Universe.Census` | universe.c:156-226 | the census equals `LiveNeighbours` of the current state and is at most 8 in either topology; with the flag clear it is the size of the neighbour set |
| `Universes.Universe.CensusBlock` | universe.c:170-199 | the range clipped at the grid's edges, scanned by the nested loops, gives the number of live cells of the block other than (r,c) |
| `Universes.Universe.CensusRows` | universe.c:188-199 | the outer loop adds up, row by row, the live cells other than (r,c) in the given rectangle |
| `Universes.Universe.CensusRow` | universe.c:189-198 | the inner loop counts the live cells of one row in the column range, skipping (r,c) |
| `Universes.Universe.CensusWrap` | universe.c:201-223 | the four wrap branches add exactly `WrapCount`: nothing when the flag is clear |
| `Universes.Universe.Print` | universe.c:235-249 | the built text equals `Render` of the current state |
| `Life.Generation` | life.c:55-66 | the next buffer becomes `Step` of the current one, whatever it held before; the current buffer is not changed |
| `Life.GenerationRow` | life.c:56-65 | row i of the next buffer gets each cell's rule outcome from the current buffer; its other rows and the current buffer are unchanged |
| `Life.PlayGame` | life.c:47-77 | after n generations the local current buffer holds the n-th successor; the caller's first universe holds generation n - n % 2; the second holds generation n - 1 + n % 2 (the other of n and n - 1), or keeps its contents when n is 0 |
| `Life.RunLife` | life.c:147-168 | status 0 and the printed generation n - n % 2 of the loaded universe when loading succeeds; otherwise status 1 and no output; the topology option has no effect |

## Left out

- Terminal display: `show_evolution`, the ncurses calls and the delay in `play_game` (life.c:16-30, 50-51, 67-69, 75). These are screen I/O and timing.
- Command-line parsing with `getopt`/`strtoul`, `usage`, and opening and closing the input and output files (life.c:84-93, 115-146, 156-161). `RunLife` takes the dimensions, the flag, the pairs and the generation count as parameters. It returns the printed text instead of writing to a stream. The diagnostic messages that `main` prints are not modelled.
- `uv_delete` and `cleanup` (universe.c:43-51, life.c:103-112) only free memory.
- Universes.Universe.Populate: the `fscanf` reading is not modelled. The input is a sequence of integer pairs, rejected by the source's own test. Reading `%d` into an unsigned variable is not modelled. In the source a negative value becomes a huge one and is rejected; the model rejects it by its sign. The extra pass at end of input that re-applies the last pair is not modelled; it changes nothing. With no pairs at all the source tests uninitialised variables; the model returns true and changes nothing.
- Integer widths: rows, columns and indices are unbounded integers. `Census` requires an in-range cell. This is the only way the driver calls it, and it avoids the unsigned wrap-around of `r - 1` and `c - 1` in the source (universe.c:170-186).
- Life.PlayGame: requires the two universes to have equal dimensions and equal flags, and distinct grids, as `main` always creates them. Its contract does not describe buffers of different shapes.
