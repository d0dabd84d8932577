# Game of Life engine in Dafny

This project models the simulation core of a Java implementation of
John Conway's Game of Life. It covers two classes.

- `Board` is a fixed-size grid stored row-major as `board[y][x]`. Every
  access is checked against the bounds. Outside the board, reads give no
  piece, and writes change nothing and also give no piece back.
- `GameOfLife` is the engine. It owns a `Board` and a generation number,
  and provides:
  - liveness queries;
  - the count of live neighbours among the 8 surrounding cells, with the
    border counting as dead;
  - Conway's birth/survival rule;
  - single-cell mutators (`setCell`, `revive`, `kill`, `swapStatus`);
  - whole-board live and dead counts;
  - `clear`;
  - `nextGen`, which fills a fresh board from the old one, swaps it in and
    increments the generation number.

Files:

- `grids.dfy` (module `Grids`) defines the values:
  - A slot is `Empty` (the Java `null`) or `Piece(kind)`. This folds the
    source's `GamePiece`/`Cell` objects into their integer type.
    `DEAD = 0` and `ALIVE = 1`.
  - `Grid` is an immutable rectangular board value with `Get`, `Set`,
    `Has` and `Fill`.
- `boards.dfy` (module `Boards`) has the class `Board`:
  - constant `width`, `height` and an `array2<Slot>` indexed `[y, x]`;
  - the methods `Clear`, `SetPiece` and `RemovePiece` update the array in
    place;
  - each method is specified against the ghost value `Model()`.
- `rules.dfy` (module `Rules`) states the game on `Grid` values:
  - the definitions: `AliveAt`, the scan-order neighbourhood
    `Neighborhood`, `NeighborCount`, `Rule`, `WillLive`, `NextSlot`,
    `Step` (the next generation) and `AliveTotal`;
  - the lemmas that characterise them.
- `engine.dfy` (module `Engine`) has the class `GameOfLife`:
  - its counting and stepping operations are nested loops, as in the
    source;
  - each loop is proved to compute the corresponding `Rules` function.
- `patterns.dfy` (module `Patterns`) applies `Step` to well-known
  patterns: the block, the blinker, the glider and a dying corner pair.

Decisions:

- **The `<=` loops.** The engine's rectangular constructor loops
  `i <= width` and `j <= height`, one past the last column and row. The
  model keeps those bounds, in `PlaceDeadCells`, and proves the extra
  writes harmless: they land off the board, where `SetPiece` changes
  nothing.
- **The two clears differ.** `Board.Clear` empties every slot.
  `GameOfLife.Clear` keeps the pieces and sets each one to dead. The model
  keeps both as they are.
- **Aliasing.** `Board(GamePiece[][])` keeps the caller's array rather
  than copying it, and so does `FromArray`. Its contract says the board's
  storage *is* the given array.

## Model

| member | source | states |
|---|---|---|
| Grids.Extensionality | Board.java:18-20 | two boards with the same dimensions that agree at every on-board location are equal |
| Grids.GetAfterSet | Board.java:70-79 | after a write, (x, y) reads the new slot if it is on the board, and every other location reads as before |
| Grids.SetOutside | Board.java:73 | a write at an off-board position leaves the board unchanged |
| Grids.HasAfterRemove | Board.java:84-93 | after writing Empty at (x, y), the location has no piece and reads Empty |
| Grids.HasIffGet | Board.java:110-116 | a location has a piece exactly when reading it does not give Empty |
| Grids.UniformGet | Board.java:25-29 | every on-board location of a uniform board holds its slot; off the board it reads Empty |
| Grids.FillIdempotent | Board.java:58-64 | filling a board twice with the same slot is the same as filling it once (clear is idempotent) |
| Boards.Board.Model | Board.java:18-20 | the board's value has the board's dimensions, and at every on-board (x, y) it holds the array's slot at [y, x] |
| Boards.Board.constructor | Board.java:25-29 | a new width x height board has storage of height rows by width columns, and every slot is Empty |
| Boards.Board.Square | Board.java:34-37 | a square board has width and height equal to the side, and every slot is Empty |
| Boards.Board.FromArray | Board.java:42-46 | the board keeps the caller's array as its storage; its width is the row length and its height the number of rows; at least one row is needed |
| Boards.Board.InBounds | Board.java:121-123 | holds exactly when (x, y) are valid indices of the storage, i.e. 0 <= x < width and 0 <= y < height |
| Boards.Board.GetWidth | Board.java:128-130 | the width is the storage's row length |
| Boards.Board.GetHeight | Board.java:135-137 | the height is the storage's number of rows |
| Boards.Board.GetPiece | Board.java:98-105 | gives the slot stored at (x, y), or Empty when (x, y) is off the board; it never fails |
| Boards.Board.HasPiece | Board.java:110-116 | holds exactly when GetPiece is not Empty, i.e. (x, y) is on the board and its slot holds a piece |
| Boards.Board.Clear | Board.java:58-64 | afterwards every on-board slot is Empty and the dimensions are unchanged |
| Boards.Board.SetPiece | Board.java:70-79 | returns the previous slot at (x, y) (Empty off the board); the new board is the old one with (x, y) set to piece, unchanged when off the board |
| Boards.Board.RemovePiece | Board.java:84-93 | returns the previous slot at (x, y) (Empty off the board); the new board is the old one with (x, y) set to Empty, unchanged when off the board |
| Rules.Step | GameOfLife.java:161-177 | the next generation is a well-formed board with the old board's width and height |
| Rules.AliveAtIff | GameOfLife.java:59-61 | a location is alive exactly when it is on the board and holds Piece(ALIVE) |
| Rules.AliveAfterSet | GameOfLife.java:90-106 | setting (x, y) to type k makes it alive exactly when k is ALIVE, and leaves the liveness of every other location unchanged |
| Rules.SwappedFlips | GameOfLife.java:113-120 | toggling flips the liveness of an on-board (x, y) and leaves every other location unchanged |
| Rules.SwappedTwice | GameOfLife.java:113-120 | toggling twice restores the liveness of every location, and restores the board itself when (x, y) held a dead or live cell |
| Rules.CountAliveAppend | GameOfLife.java:67-73 | counting the live positions of a concatenation adds the counts of its parts |
| Rules.ColumnCountIsCountAlive | GameOfLife.java:68-72 | counting one column of the 3 x 3 block row by row agrees with counting its list of positions |
| Rules.BlockCountIsCountAlive | GameOfLife.java:67-73 | counting the block column by column agrees with counting its list of positions |
| Rules.NeighborCountByColumns | GameOfLife.java:64-76 | the column-by-column count over the whole block is the neighbour count |
| Rules.CountAlivePermutation | GameOfLife.java:67-73 | the count of live positions does not depend on the order in which they are visited |
| Rules.CountAliveIsCardinality | GameOfLife.java:67-73 | over a list without repetitions, the count is the number of distinct live positions listed |
| Rules.NeighborhoodInOrder | GameOfLife.java:67-69 | the visit order is column x-1, then x, then x+1, each from row y-1 to y+1, skipping (x, y) |
| Rules.NeighborhoodIsChebyshev | GameOfLife.java:67-69 | the positions visited are exactly the 8 positions at Chebyshev distance 1 from (x, y), each once |
| Rules.NeighborCountRange | GameOfLife.java:64-76 | the neighbour count lies in [0, 8] |
| Rules.NeighborCountIsCardinality | GameOfLife.java:64-76 | the neighbour count is the number of live positions at Chebyshev distance 1 from (x, y), with (x, y) excluded and off-board positions dead |
| Rules.ColumnCountSum | GameOfLife.java:68-72 | one column of the block counts its two or three live positions |
| Rules.NeighborCountSum | GameOfLife.java:64-76 | the neighbour count is the sum of the 8 neighbours' live bits |
| Rules.NeighborCountAnyOrder | GameOfLife.java:67-73 | any visit order of the same 8 neighbours gives the same count |
| Rules.RuleIsB3S23 | GameOfLife.java:83-85 | a live cell survives with 2 or 3 live neighbours, and a dead cell (or empty location) is born with exactly 3 |
| Rules.StepAt | GameOfLife.java:164-172 | each on-board location of the next generation holds a fresh DEAD or ALIVE piece, alive exactly when the rule held on the old board; off the board it reads Empty |
| Rules.StepIsFull | GameOfLife.java:164-172 | the next generation has a piece in every on-board location |
| Rules.ColumnAliveAtMost | GameOfLife.java:129-133 | column x has at most y live cells among its first y rows |
| Rules.AliveUpToAtMost | GameOfLife.java:128-134 | the first x columns hold at most x * height live cells |
| Rules.AliveTotalRange | GameOfLife.java:125-137 | the live count lies in [0, width * height] |
| Rules.ColumnAliveIsCardinality | GameOfLife.java:129-133 | the column count is the number of live positions among the column's first y rows |
| Rules.AliveUpToIsCardinality | GameOfLife.java:128-134 | the count over the first x columns is the number of live positions in them |
| Rules.AliveTotalIsCardinality | GameOfLife.java:125-137 | the live count is the number of distinct live positions on the board |
| Rules.NoLifeCountsZero | GameOfLife.java:125-137 | a board with no live cell has a live count of 0 |
| Rules.DeadFillCountsZero | GameOfLife.java:150-156 | a board filled with dead cells has a piece everywhere and a live count of 0 |
| Rules.ColumnPositionsCount | GameOfLife.java:143 | a column has y positions among its first y rows |
| Rules.PositionsUpToCount | GameOfLife.java:143 | the first x columns of a board of height h have x * h positions |
| Rules.NotAliveCount | GameOfLife.java:142-145 | width * height minus the live count is the number of on-board positions that are not alive |
| Engine.PlaceDeadCells | GameOfLife.java:33-37 | the `<=` loops, one past each edge, leave every slot holding a dead cell; the one-past-the-end writes change nothing |
| Engine.GameOfLife.Model | GameOfLife.java:23 | the engine's value is its board's value, with the board's dimensions |
| Engine.GameOfLife.constructor | GameOfLife.java:30-40 | a new width x height game holds a dead cell everywhere: no empty slot, a live count of 0, generation 0 |
| Engine.GameOfLife.Square | GameOfLife.java:46-48 | a square game is like the rectangular one with width and height both equal to the side |
| Engine.GameOfLife.FromCells | GameOfLife.java:53-56 | the game keeps the caller's array as its board's storage, with width the row length and height the number of rows, at generation 0 |
| Engine.GameOfLife.GetGenNumber | GameOfLife.java:182-184 | gives the generation number the game is on |
| Engine.GameOfLife.GetWidth | GameOfLife.java:189-191 | the game's width is its board's width |
| Engine.GameOfLife.GetHeight | GameOfLife.java:196-198 | the game's height is its board's height |
| Engine.GameOfLife.IsAlive | GameOfLife.java:59-61 | holds exactly when the slot at (x, y) holds a piece of type 1; only on-board positions can be alive |
| Engine.GameOfLife.CountLivingNeighbors | GameOfLife.java:64-76 | the loops compute the neighbour count of (x, y), which lies in [0, 8] |
| Engine.GameOfLife.WillBeAlive | GameOfLife.java:83-85 | holds exactly when the count is 3, or the cell is alive and the count is 2 |
| Engine.GameOfLife.SetCell | GameOfLife.java:90-92 | the board afterwards is the old one with (x, y) set to a piece of type state; a piece must be at (x, y) |
| Engine.GameOfLife.Revive | GameOfLife.java:97-99 | (x, y) becomes a live cell and every other location is unchanged |
| Engine.GameOfLife.Kill | GameOfLife.java:104-106 | (x, y) becomes a dead cell (still a piece) and every other location is unchanged |
| Engine.GameOfLife.SwapStatus | GameOfLife.java:113-120 | the liveness of (x, y) flips, and every other location is unchanged |
| Engine.GameOfLife.AliveCount | GameOfLife.java:125-137 | the loops compute the live count of the board, which lies in [0, width * height] |
| Engine.GameOfLife.DeadCount | GameOfLife.java:142-145 | the dead count plus the live count is width * height; the dead count is the number of on-board positions that are not alive |
| Engine.GameOfLife.Clear | GameOfLife.java:150-156 | every cell becomes dead, leaving no empty slot and a live count of 0; the dimensions and the generation number are unchanged; every location must hold a piece |
| Engine.GameOfLife.NextGen | GameOfLife.java:161-177 | the board is replaced by a fresh one holding the next generation of the old board; dimensions are unchanged, every location holds a piece, and the generation number goes up by one |
| Patterns.AliveInWithLive | GameOfLife.java:59-61 | on a board built from a pattern predicate, a location is alive exactly when it is on the board and the predicate holds there |
| Patterns.LiveBitWithLive | GameOfLife.java:59-61 | the live bit of such a board is the pattern's on-board indicator |
| Patterns.NextSlotWithLive | GameOfLife.java:64-85 | the rule on such a board, written in terms of the pattern predicate alone |
| Patterns.StepOfWithLive | GameOfLife.java:161-177 | if every cell follows the rule from one pattern to the next, one generation takes the first board to the second |
| Patterns.AliveTotalWithLive | GameOfLife.java:125-137 | if the pattern holds exactly on a given set of on-board positions, the live count is that set's size |
| Patterns.BlockIsStillLife | GameOfLife.java:161-177 | a 2 x 2 block on an otherwise dead board of any size from 4 x 4 up does not change |
| Patterns.BlockHasFourCells | GameOfLife.java:125-137 | the block board has 4 live cells, on any board from 4 x 4 up |
| Patterns.BlinkerTurnsVertical | GameOfLife.java:161-177 | a horizontal blinker on an otherwise dead board of any size from 5 x 5 up turns vertical |
| Patterns.BlinkerTurnsHorizontal | GameOfLife.java:161-177 | a vertical blinker turns horizontal, on any board from 5 x 5 up |
| Patterns.BlinkerHasPeriodTwo | GameOfLife.java:161-177 | on any board from 5 x 5 up, the blinker returns after two generations and differs after one |
| Patterns.GliderStepOne | GameOfLife.java:161-177 | on an otherwise dead board of any size from 6 x 6 up (8 x 8 included), the glider's first phase becomes its second |
| Patterns.GliderStepTwo | GameOfLife.java:161-177 | on any board from 6 x 6 up, the second phase becomes the third |
| Patterns.GliderStepThree | GameOfLife.java:161-177 | on any board from 6 x 6 up, the third phase becomes the fourth |
| Patterns.GliderStepFour | GameOfLife.java:161-177 | on any board from 6 x 6 up, the fourth phase becomes the first moved by (+1, +1) |
| Patterns.GliderMovesDiagonally | GameOfLife.java:161-177 | on any board from 6 x 6 up, four generations move the glider one cell right and one cell down |
| Patterns.GliderHasFiveCells | GameOfLife.java:125-137 | the glider's first phase has 5 live cells, on any board from 6 x 6 up |
| Patterns.GliderPhaseOneHasFiveCells | GameOfLife.java:125-137 | the glider's second phase has 5 live cells |
| Patterns.GliderPhaseTwoHasFiveCells | GameOfLife.java:125-137 | the glider's third phase has 5 live cells |
| Patterns.GliderPhaseThreeHasFiveCells | GameOfLife.java:125-137 | the glider's fourth phase has 5 live cells |
| Patterns.GliderMovedHasFiveCells | GameOfLife.java:125-137 | the moved glider still has 5 live cells |
| Patterns.LoneCornerDies | GameOfLife.java:161-177 | on any board of at least 1 x 1, a lone live cell at (0, 0) dies, leaving every cell dead and a live count of 0 |
| Patterns.CornerPairDies | GameOfLife.java:161-177 | on any board of at least 2 x 2, two diagonal live cells in the corner both die in the next generation |

## Left out

- GameOfLifeDisplay.java and BoardPanel.java are not part of this model. They are the Swing window, its buttons, the timer that calls `nextGen`, and the drawing of the board.
- The `main` demo methods and the `toString` methods are left out: they only print to the console or format strings.
- `Cell` and `GamePiece` are not classes in the model. A slot holds the piece's integer type as a value, so two slots sharing one `Cell` object are not modelled. In the source, `setCell` on one such slot would also change the other.
- `GetPiece` returns the slot's value, not a reference to a mutable piece. Changing a piece through a reference the caller holds is not modelled.
- Ragged arrays are not modelled. A two-dimensional Dafny array is always rectangular, which builds in the source's unchecked assumption that every row has the row length of `board[0]`.
- `Engine.GameOfLife.CountLivingNeighbors`: does not model the 32-bit wrap-around of the loop counters `i` and `j`. When `x` or `y` is `Integer.MAX_VALUE - 1`, the source's counter wraps from `Integer.MAX_VALUE` to `Integer.MIN_VALUE`, stays `<= x + 1` and the loop never ends. The model terminates and returns the count.
- `Engine.GameOfLife.WillBeAlive`: inherits the same gap, so at those positions the source never returns while the model does.
- `Engine.PlaceDeadCells`: does not model the 32-bit wrap-around of `i` and `j`. When `width` or `height` is `Integer.MAX_VALUE` and the array can be allocated, the source's `i <= width` (or `j <= height`) loop never ends, while the model terminates. An example is `GameOfLife(Integer.MAX_VALUE, 0)`, which allocates an empty array and then loops with every write off the board.
- `Engine.GameOfLife.NextGen`: does not model the 32-bit wrap-around of `generationNumber++` in Java.
- `Engine.GameOfLife.DeadCount`: does not model the 32-bit overflow of `width * height` in Java.
- `Engine.GameOfLife.AliveCount`: the same 32-bit overflow is not modelled; the model counts in unbounded integers.
- The exceptions the source throws are modelled as preconditions:
  - `SetCell`, `Revive`, `Kill` and `SwapStatus` require a piece at (x, y), where the source would throw a `NullPointerException`;
  - `GameOfLife.Clear` requires a piece in every slot, for the same reason;
  - `FromArray` and `FromCells` require at least one row, where the source would throw an `ArrayIndexOutOfBoundsException`;
  - the constructors require non-negative dimensions, where the source would throw a `NegativeArraySizeException`.
- `willBeAlive` calls `countLivingNeighbors` up to twice. `WillBeAlive` calls `CountLivingNeighbors` once: the count depends only on the unchanged board, so both calls give the same result.
