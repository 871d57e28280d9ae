# Game of Life engine of the portfolio page

This project models the Conway's Game of Life demo in the portfolio site's
`site.js` and proves properties of the model. It covers the engine
(`createGrid`, `countNeighbors`, `updateGrid`, `toggleCell`) and the
controller state behind the page's handlers (`initCanvas`, the animation
callback, canvas clicks, and the Start/Stop, Clear and Random buttons).

The project has three modules:

- `Life` (`life.dfy`) is the specification on values. A generation is a
  `Board`, a sequence of columns indexed `[col][row]` like the page's
  `grid[col][row]`. The module defines the toroidal index, the neighbour
  count, the B3/S23 rule, one synchronous step, toggling, the pixel-to-cell
  map and random seeding, with lemmas about each.
- `Throttle` (`throttle.dfy`) is the controller clock: the `isRunning` flag,
  the `lastUpdate` time, and how frames and buttons change them. It also
  proves facts about whole runs of frames.
- `Game` (`game.dfy`) is the page's mutable state. The class
  `GameOfLife` holds `cols`, `rows`, the two buffers `grid` and `nextGrid`
  (as `array2<int>` values), `isRunning` and `lastUpdate`. Its methods mirror
  the page's functions and handlers, loops included. The ghost fields
  `cells` and `spare` name the boards the two buffers hold, and every method
  is proved against the `Life` and `Throttle` functions.

Behaviour that follows the code where a reader might expect otherwise:

- The throttle is strict. A frame exactly 150 ms after the last step does
  not step (`timestamp - lastUpdate > 150`, site.js line 117).
- On a board with fewer than 3 columns or rows the wrapped offsets alias.
  The count can then include the cell itself, or count one neighbour twice.
  On a 1 x 1 board the cell is counted eight times, so a live cell dies.
  The eight neighbours are distinct only when both dimensions are at least 3.
- Clear and Random stop a running game (site.js lines 163-169 and 176-182).
  Only `grid` is replaced. `nextGrid` keeps its old contents until the next
  step overwrites it.
- The loop bound `i < cols * rows * 0.2` is modelled as `5 * i < cols * rows`.
  The two agree for every grid smaller than 2^50 cells. For a multiple of 5
  the double product rounds to exactly `cols * rows / 5`. Otherwise the
  double product lies within 0.05 of `cols * rows / 5`, which is itself at
  least 0.2 away from every integer, so rounding never moves it across one.

## Model

| member | source | states |
|---|---|---|
| Life.Dead | WilliamSewellPortfolio/WilliamSewellPortfolio/wwwroot/js/site.js:42-48 | the fresh grid has `cols` columns of `rows` cells, all 0 |
| Life.JsRem | WilliamSewellPortfolio/WilliamSewellPortfolio/wwwroot/js/site.js:55-56 | JavaScript's `%` result lies in [0, n) for a non-negative operand and in (-n, 0] for a negative one |
| Life.JsRemTruncates | WilliamSewellPortfolio/WilliamSewellPortfolio/wwwroot/js/site.js:55-56 | JavaScript's `%` equals Euclidean remainder on non-negative operands and is odd in the operand |
| Life.Wrap | WilliamSewellPortfolio/WilliamSewellPortfolio/wwwroot/js/site.js:55-56 | the wrapped coordinate of an in-range coordinate and an offset in [-1, 1] lies in [0, n) |
| Life.WrapIsJsRem | WilliamSewellPortfolio/WilliamSewellPortfolio/wwwroot/js/site.js:55-56 | the page's `(v + d + n) % n`, with JavaScript's `%`, is the ring step: left of 0 is n - 1, right of n - 1 is 0, and every other step is plain |
| Life.WrapIsMod | WilliamSewellPortfolio/WilliamSewellPortfolio/wwwroot/js/site.js:55-56 | the wrapped coordinate is `(v + d) mod n` |
| Life.WrapInjective | WilliamSewellPortfolio/WilliamSewellPortfolio/wwwroot/js/site.js:55-56 | on a ring of at least 3 cells, two offsets reach the same coordinate iff they are equal |
| Life.Neighbor | WilliamSewellPortfolio/WilliamSewellPortfolio/wwwroot/js/site.js:55-57 | the value read at offset (i, j), with wrapped indices, is 0 or 1 on a 0/1 board and 0 on an all-dead board |
| Life.NeighborCount | WilliamSewellPortfolio/WilliamSewellPortfolio/wwwroot/js/site.js:50-61 | the count of a 0/1 board lies in [0, 8], and it is 0 on an all-dead board |
| Life.ScanComplete | WilliamSewellPortfolio/WilliamSewellPortfolio/wwwroot/js/site.js:52-59 | running the two offset loops over all nine offsets and skipping (0, 0) adds up to the neighbour count |
| Life.NeighborsDistinct | WilliamSewellPortfolio/WilliamSewellPortfolio/wwwroot/js/site.js:52-57 | with both dimensions at least 3, different offsets reach different cells, and only (0, 0) reaches the cell itself |
| Life.NarrowRingAliases | WilliamSewellPortfolio/WilliamSewellPortfolio/wwwroot/js/site.js:55-56 | on a ring of 1 or 2 cells, offsets -1 and +1 reach the same cell, which is the cell itself on a ring of 1 |
| Life.LoneCellSeesItself | WilliamSewellPortfolio/WilliamSewellPortfolio/wwwroot/js/site.js:50-61 | on a 1 x 1 board the count is 8 times the cell's own state |
| Life.Rule | WilliamSewellPortfolio/WilliamSewellPortfolio/wwwroot/js/site.js:68-74 | for a 0/1 cell the new state is 0/1, and it is 1 iff the cell is live with 2 or 3 neighbours or dead with exactly 3 |
| Life.NextColumn | WilliamSewellPortfolio/WilliamSewellPortfolio/wwwroot/js/site.js:65-75 | the inner `for y` loop's output for column x up to row n has exactly n cells |
| Life.NextColumns | WilliamSewellPortfolio/WilliamSewellPortfolio/wwwroot/js/site.js:64-76 | the outer `for x` loop's output up to column n has n columns of `rows` cells each |
| Life.Step | WilliamSewellPortfolio/WilliamSewellPortfolio/wwwroot/js/site.js:63-76 | the generation computed into `nextGrid` keeps the board's dimensions (`Shaped`) |
| Life.NextColumnAt | WilliamSewellPortfolio/WilliamSewellPortfolio/wwwroot/js/site.js:65-75 | row y of a computed column is the rule applied to the cell and its count on the board before the step |
| Life.NextColumnsAt | WilliamSewellPortfolio/WilliamSewellPortfolio/wwwroot/js/site.js:64-76 | column x of the computed columns is the full computed column x |
| Life.StepAt | WilliamSewellPortfolio/WilliamSewellPortfolio/wwwroot/js/site.js:63-76 | every cell of the next generation is the rule applied to that cell and its neighbour count, both taken from the board before the step |
| Life.StepShapedBinary | WilliamSewellPortfolio/WilliamSewellPortfolio/wwwroot/js/site.js:63-77 | a step keeps the dimensions and keeps every cell 0 or 1 |
| Life.StepCell | WilliamSewellPortfolio/WilliamSewellPortfolio/wwwroot/js/site.js:66-74 | after a step a cell is alive iff it was alive with 2 or 3 live neighbours or dead with exactly 3 |
| Life.StepDeadStaysDead | WilliamSewellPortfolio/WilliamSewellPortfolio/wwwroot/js/site.js:63-77 | an all-dead board stays all-dead |
| Life.TinyBoardDies | WilliamSewellPortfolio/WilliamSewellPortfolio/wwwroot/js/site.js:50-77 | a 1 x 1 board is all-dead after one step, whatever its cell was |
| Life.Flip | WilliamSewellPortfolio/WilliamSewellPortfolio/wwwroot/js/site.js:127 | the flipped value is 0 or 1, and it is `1 - v` for a 0/1 cell |
| Life.Toggled | WilliamSewellPortfolio/WilliamSewellPortfolio/wwwroot/js/site.js:125-130 | the board after `toggleCell` keeps its dimensions (`Shaped`) |
| Life.ToggledCells | WilliamSewellPortfolio/WilliamSewellPortfolio/wwwroot/js/site.js:125-130 | an out-of-range coordinate, negative ones included, changes nothing; an in-range one flips exactly that cell |
| Life.ToggleTwice | WilliamSewellPortfolio/WilliamSewellPortfolio/wwwroot/js/site.js:125-130 | toggling keeps a 0/1 board 0/1, and toggling twice restores it |
| Life.CellOf | WilliamSewellPortfolio/WilliamSewellPortfolio/wwwroot/js/site.js:140-141 | the cell index `c` of pixel `p` satisfies `10c <= p < 10c + 10` (floor division), so a negative pixel gives a negative index |
| Life.SeedCount | WilliamSewellPortfolio/WilliamSewellPortfolio/wwwroot/js/site.js:185 | the number of iterations `k` of the seeding loop satisfies `5k - 5 < cols * rows <= 5k` |
| Life.Mark | WilliamSewellPortfolio/WilliamSewellPortfolio/wwwroot/js/site.js:188 | marking a drawn in-range cell alive keeps the board's dimensions |
| Life.Seeded | WilliamSewellPortfolio/WilliamSewellPortfolio/wwwroot/js/site.js:183-189 | the fresh grid with the draws marked alive one after another keeps the board's dimensions |
| Life.SeededCells | WilliamSewellPortfolio/WilliamSewellPortfolio/wwwroot/js/site.js:183-189 | after seeding, every cell is 0 or 1, and a cell is 1 iff it is one of the drawn coordinates |
| Life.DrawnSize | WilliamSewellPortfolio/WilliamSewellPortfolio/wwwroot/js/site.js:185-188 | k draws name at most k distinct cells |
| Life.SeededPopulation | WilliamSewellPortfolio/WilliamSewellPortfolio/wwwroot/js/site.js:183-189 | the live cells after seeding are exactly the drawn coordinates, so there are at most as many as draws |
| Throttle.OnFrame | WilliamSewellPortfolio/WilliamSewellPortfolio/wwwroot/js/site.js:113-123 | a frame never changes `isRunning`, and it sets `lastUpdate` to the timestamp iff the clock is running and more than 150 ms have passed |
| Throttle.Due | WilliamSewellPortfolio/WilliamSewellPortfolio/wwwroot/js/site.js:114-117 | a frame is due only when the clock is running and the timestamp is later than the last step |
| Throttle.OnStartStop | WilliamSewellPortfolio/WilliamSewellPortfolio/wwwroot/js/site.js:147-159 | Start/Stop negates `isRunning`; entering Running resets `lastUpdate` to 0 and stopping keeps it |
| Throttle.ForceIdle | WilliamSewellPortfolio/WilliamSewellPortfolio/wwwroot/js/site.js:163-169 | Clear and Random leave the clock idle with `lastUpdate` kept |
| Throttle.StepTimes | WilliamSewellPortfolio/WilliamSewellPortfolio/wwwroot/js/site.js:113-123 | a run of frames applies at most one step per frame |
| Throttle.IdleNeverSteps | WilliamSewellPortfolio/WilliamSewellPortfolio/wwwroot/js/site.js:114 | an idle clock applies no step, whatever frames arrive |
| Throttle.StepsSpacedApart | WilliamSewellPortfolio/WilliamSewellPortfolio/wwwroot/js/site.js:117-121 | over any run of frames, the first step comes more than 150 ms after `lastUpdate`, each later step more than 150 ms after the one before, and every step happens at a frame's timestamp |
| Throttle.SparseFramesAllStep | WilliamSewellPortfolio/WilliamSewellPortfolio/wwwroot/js/site.js:117-121 | a running clock steps at every frame when each frame comes more than 150 ms after the one before |
| Game.NeighborAt | WilliamSewellPortfolio/WilliamSewellPortfolio/wwwroot/js/site.js:55-57 | the indices `(x + i + cols) % cols` and `(y + j + rows) % rows` are in range, and the buffer read there is the neighbour at offset (i, j) |
| Game.CreateGrid | WilliamSewellPortfolio/WilliamSewellPortfolio/wwwroot/js/site.js:42-48 | returns a fresh `cols x rows` buffer holding the all-dead board |
| Game.SeedGrid | WilliamSewellPortfolio/WilliamSewellPortfolio/wwwroot/js/site.js:183-189 | returns a fresh buffer holding the all-dead board with the first `SeedCount(cols * rows)` draws marked alive, in order |
| Game.GameOfLife.constructor | WilliamSewellPortfolio/WilliamSewellPortfolio/wwwroot/js/site.js:21-40 | on page load the game is idle with `lastUpdate` 0, `cols` and `rows` are the width and height divided by 10, and both buffers are fresh, distinct and all dead |
| Game.GameOfLife.InitCanvas | WilliamSewellPortfolio/WilliamSewellPortfolio/wwwroot/js/site.js:24-40 | sets `cols = floor(width / 10)` and `rows = floor(height / 10)` and allocates two fresh, distinct all-dead `cols x rows` buffers; the clock is kept |
| Game.GameOfLife.CountNeighbors | WilliamSewellPortfolio/WilliamSewellPortfolio/wwwroot/js/site.js:50-61 | the two offset loops return the neighbour count of the current generation |
| Game.GameOfLife.UpdateColumn | WilliamSewellPortfolio/WilliamSewellPortfolio/wwwroot/js/site.js:65-75 | one pass of the inner loop writes column x of the next generation into `nextGrid` and leaves every other column of it unchanged |
| Game.GameOfLife.UpdateGrid | WilliamSewellPortfolio/WilliamSewellPortfolio/wwwroot/js/site.js:63-78 | the current generation becomes one step of the old one, computed from the old one only; the buffers are swapped, so the old current board is now held by `nextGrid`; dimensions, 0/1 cells and the clock are kept |
| Game.GameOfLife.Animate | WilliamSewellPortfolio/WilliamSewellPortfolio/wwwroot/js/site.js:113-123 | the clock moves as `OnFrame`; a running frame more than 150 ms after the last step applies exactly one step and swaps the buffers; any other frame changes nothing |
| Game.GameOfLife.ToggleCell | WilliamSewellPortfolio/WilliamSewellPortfolio/wwwroot/js/site.js:125-130 | the current generation becomes its toggle at (x, y); `nextGrid`, the dimensions and the clock are unchanged |
| Game.GameOfLife.Click | WilliamSewellPortfolio/WilliamSewellPortfolio/wwwroot/js/site.js:133-144 | while running a click changes nothing; otherwise it toggles cell (floor(px / 10), floor(py / 10)) |
| Game.GameOfLife.StartStop | WilliamSewellPortfolio/WilliamSewellPortfolio/wwwroot/js/site.js:147-159 | the clock moves as `OnStartStop`; both boards and buffers are unchanged |
| Game.GameOfLife.Clear | WilliamSewellPortfolio/WilliamSewellPortfolio/wwwroot/js/site.js:162-172 | the game ends idle with `lastUpdate` kept, `grid` is a fresh all-dead buffer, and `nextGrid` is untouched |
| Game.GameOfLife.Randomize | WilliamSewellPortfolio/WilliamSewellPortfolio/wwwroot/js/site.js:175-191 | the game ends idle with `lastUpdate` kept; `grid` is fresh and seeded from the first `SeedCount(cols * rows)` draws; `nextGrid` is untouched |

## Left out

- `draw()` and every canvas call: they render and hold no state.
- The DOM setup: element lookups and their existence guards, button
  labels, the cursor style and listener registration.
- `getBoundingClientRect`, `clientWidth` and `clientHeight`. The surface's
  size is a pair of non-negative integer parameters. A click is given in
  integer pixels relative to the canvas.
- `requestAnimationFrame` and `cancelAnimationFrame`. The frame chain is
  modelled by the `isRunning` flag together with one `Animate` call per
  frame. Timestamps are whole milliseconds.
- `Math.random`. Randomize takes its draws as a sequence of in-range cell
  coordinates. The distribution and the 20% density are not modelled.
- Floating point. The seeding bound is the integer form
  `5 * i < cols * rows`, and mouse coordinates are integers.
- The page's arrays of arrays are `array2<int>` buffers. Ragged rows and
  aliasing between columns cannot arise in the model.
- Game.GameOfLife.UpdateColumn: the inner `for y` loop of `updateGrid` is
  written as its own method, which the outer `for x` loop calls. This keeps
  each proof small. The loops and their order are the source's.
- Game.SeedGrid: the body of the Random handler after the stop is written
  as its own method, which builds the new buffer before `grid` is assigned.
  The page assigns `grid` first and then writes into it. No other code runs
  in between, so the resulting state is the same.
