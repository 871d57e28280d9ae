/** The page's mutable state and its handlers: two grid buffers swapped after
    every step, their dimensions, and the controller's clock. */
module Game {
  import opened Life
  import Throttle

  /** Buffer `a` is `cols x rows` and holds board `b`. */
  ghost predicate Holds(a: array2<int>, b: Board, cols: nat, rows: nat)
    reads a
  {
    a.Length0 == cols && a.Length1 == rows && Shaped(b, cols, rows)
    && forall x, y :: 0 <= x < cols && 0 <= y < rows ==> a[x, y] == b[x][y]
  }

  /** Reading a buffer at the wrapped coordinates of offset (i, j) reads the
      neighbour of (x, y) at that offset. */
  lemma NeighborAt(g: array2<int>, b: Board, cols: nat, rows: nat, x: int, y: int, i: int, j: int)
    requires Holds(g, b, cols, rows) && InBounds(cols, rows, x, y)
    requires -1 <= i <= 1 && -1 <= j <= 1
    ensures 0 <= JsRem(x + i + cols, cols) < cols && 0 <= JsRem(y + j + rows, rows) < rows
    ensures g[JsRem(x + i + cols, cols), JsRem(y + j + rows, rows)] == Neighbor(b, cols, rows, x, y, i, j)
  {
    WrapIsJsRem(x, i, cols);
    WrapIsJsRem(y, j, rows);
  }

  /** `createGrid`: a fresh `cols x rows` buffer of zeros, filled column by column. */
  method CreateGrid(cols: nat, rows: nat) returns (g: array2<int>)
    ensures fresh(g) && Holds(g, Dead(cols, rows), cols, rows)
  {
    g := new int[cols, rows];
    for i := 0 to cols
      invariant forall x, y :: 0 <= x < i && 0 <= y < rows ==> g[x, y] == 0
    {
      for j := 0 to rows
        invariant forall x, y :: 0 <= x < i && 0 <= y < rows ==> g[x, y] == 0
        invariant forall y :: 0 <= y < j ==> g[i, y] == 0
      {
        g[i, j] := 0;
      }
    }
  }

  /** The body of the Random button: a fresh all-dead grid with one drawn
      cell marked alive per iteration of `i < cols * rows * 0.2`. `draws`
      stands for the page's calls to `Math.random`, already scaled and floored
      to cell coordinates. */
  method SeedGrid(cols: nat, rows: nat, draws: seq<(int, int)>) returns (g: array2<int>)
    requires |draws| >= SeedCount(cols * rows) && AllInBounds(cols, rows, draws[..SeedCount(cols * rows)])
    ensures fresh(g) && Holds(g, Seeded(cols, rows, draws[..SeedCount(cols * rows)]), cols, rows)
  {
    g := CreateGrid(cols, rows);
    ghost var b := Dead(cols, rows);
    var i := 0;
    while 5 * i < cols * rows
      invariant 0 <= i <= SeedCount(cols * rows)
      invariant AllInBounds(cols, rows, draws[..i])
      invariant b == Seeded(cols, rows, draws[..i]) && Holds(g, b, cols, rows)
    {
      var x := draws[i].0;
      var y := draws[i].1;
      g[x, y] := 1;
      assert draws[..i + 1][..i] == draws[..i] && draws[..i + 1][i] == draws[i];
      b := Mark(b, cols, rows, (x, y));
      i := i + 1;
    }
  }

  class GameOfLife {
    var cols: nat
    var rows: nat
    var grid: array2<int>
    var nextGrid: array2<int>
    var isRunning: bool
    var lastUpdate: int

    /** The current generation, held by `grid`. */
    ghost var cells: Board
    /** The contents of the scratch buffer `nextGrid`. */
    ghost var spare: Board

    /** The two buffers are distinct objects and `grid` holds `cells`. */
    ghost predicate Current()
      reads this, grid
    {
      grid != nextGrid && Holds(grid, cells, cols, rows)
    }

    /** Both buffers are `cols x rows` and distinct, they hold `cells` and
        `spare`, and every cell of both is 0 or 1. */
    ghost predicate Valid()
      reads this, grid, nextGrid
    {
      Current() && Holds(nextGrid, spare, cols, rows) && Binary(cells) && Binary(spare)
    }

    function ClockState(): Throttle.Clock
      reads this
    {
      Throttle.Clock(isRunning, lastUpdate)
    }

    /** Page load: idle, `lastUpdate` 0, then `initCanvas` for the surface's size. */
    constructor (width: nat, height: nat)
      ensures Valid() && fresh(grid) && fresh(nextGrid)
      ensures cols == width / CellSize && rows == height / CellSize
      ensures cells == Dead(cols, rows) && spare == Dead(cols, rows)
      ensures !isRunning && lastUpdate == 0
    {
      isRunning := false;
      lastUpdate := 0;
      cols := width / CellSize;
      rows := height / CellSize;
      var g := CreateGrid(width / CellSize, height / CellSize);
      var n := CreateGrid(width / CellSize, height / CellSize);
      grid, nextGrid := g, n;
      cells, spare := Dead(width / CellSize, height / CellSize), Dead(width / CellSize, height / CellSize);
    }

    /** `initCanvas`, also run on every resize: dimensions from the surface's
        size in pixels and two fresh all-dead buffers; the clock is kept. */
    method InitCanvas(width: nat, height: nat)
      modifies this
      ensures Valid() && fresh(grid) && fresh(nextGrid)
      ensures cols == width / CellSize && rows == height / CellSize
      ensures cells == Dead(cols, rows) && spare == Dead(cols, rows)
      ensures ClockState() == old(ClockState())
    {
      cols := width / CellSize;
      rows := height / CellSize;
      grid := CreateGrid(cols, rows);
      nextGrid := CreateGrid(cols, rows);
      cells, spare := Dead(cols, rows), Dead(cols, rows);
    }

    /** `countNeighbors(x, y)`: the two offset loops, skipping the cell itself. */
    method CountNeighbors(x: int, y: int) returns (count: int)
      requires Current() && InBounds(cols, rows, x, y)
      ensures count == NeighborCount(cells, cols, rows, x, y)
    {
      count := 0;
      for i := -1 to 2
        invariant count == Scan(cells, cols, rows, x, y, i)
      {
        for j := -1 to 2
          invariant count == Scan(cells, cols, rows, x, y, i) + RowScan(cells, cols, rows, x, y, i, j)
        {
          if i == 0 && j == 0 {
            continue;
          }
          var col := JsRem(x + i + cols, cols);
          var row := JsRem(y + j + rows, rows);
          NeighborAt(grid, cells, cols, rows, x, y, i, j);
          count := count + grid[col, row];
        }
      }
      ScanComplete(cells, cols, rows, x, y);
    }

    /** One pass of the inner loop of `updateGrid`: writes the next
        generation of column `x` into `nextGrid`, reading only `grid`. */
    method UpdateColumn(x: int, ghost next: Board)
      requires Current() && 0 <= x < cols && next == Step(cells, cols, rows)
      requires nextGrid.Length0 == cols && nextGrid.Length1 == rows
      modifies nextGrid
      ensures forall y :: 0 <= y < rows ==> nextGrid[x, y] == next[x][y]
      ensures forall x', y' :: 0 <= x' < cols && 0 <= y' < rows && x' != x ==> nextGrid[x', y'] == old(nextGrid[x', y'])
    {
      for y := 0 to rows
        invariant Current()
        invariant forall y' :: 0 <= y' < y ==> nextGrid[x, y'] == next[x][y']
        invariant forall x', y' :: 0 <= x' < cols && 0 <= y' < rows && x' != x ==> nextGrid[x', y'] == old(nextGrid[x', y'])
      {
        var neighbors := CountNeighbors(x, y);
        var current := grid[x, y];
        StepAt(cells, cols, rows, x, y);
        if current == 1 && (neighbors < 2 || neighbors > 3) {
          nextGrid[x, y] := 0;
        } else if current == 0 && neighbors == 3 {
          nextGrid[x, y] := 1;
        } else {
          nextGrid[x, y] := current;
        }
      }
    }

    /** `updateGrid`: writes the next generation of every cell into `nextGrid`,
        counting neighbours on the unchanged `grid`, then swaps the buffers, so
        that the old current buffer becomes the scratch buffer. */
    method UpdateGrid()
      requires Valid()
      modifies this, nextGrid
      ensures Valid() && cols == old(cols) && rows == old(rows)
      ensures cells == Step(old(cells), cols, rows) && spare == old(cells)
      ensures grid == old(nextGrid) && nextGrid == old(grid)
      ensures ClockState() == old(ClockState())
    {
      ghost var next := Step(cells, cols, rows);
      for x := 0 to cols
        modifies nextGrid
        invariant Current()
        invariant forall x', y' :: 0 <= x' < x && 0 <= y' < rows ==> nextGrid[x', y'] == next[x'][y']
      {
        UpdateColumn(x, next);
      }
      StepShapedBinary(cells, cols, rows);
      grid, nextGrid := nextGrid, grid;
      cells, spare := next, cells;
    }

    /** `animate(timestamp)`: while running, steps once iff more than 150 ms
        have passed since the last step, and then records the timestamp. */
    method Animate(timestamp: int)
      requires Valid()
      modifies this, nextGrid
      ensures Valid() && cols == old(cols) && rows == old(rows)
      ensures ClockState() == Throttle.OnFrame(old(ClockState()), timestamp)
      ensures if Throttle.Due(old(ClockState()), timestamp)
              then cells == Step(old(cells), cols, rows) && spare == old(cells)
                   && grid == old(nextGrid) && nextGrid == old(grid)
              else cells == old(cells) && spare == old(spare)
                   && grid == old(grid) && nextGrid == old(nextGrid)
    {
      if !isRunning {
        return;
      }
      if timestamp - lastUpdate > Throttle.StepInterval {
        UpdateGrid();
        lastUpdate := timestamp;
      }
    }

    /** `toggleCell(x, y)`: flips the cell when it is in range. */
    method ToggleCell(x: int, y: int)
      requires Valid()
      modifies this, grid
      ensures Valid() && cols == old(cols) && rows == old(rows)
      ensures cells == Toggled(old(cells), cols, rows, x, y) && spare == old(spare)
      ensures grid == old(grid) && nextGrid == old(nextGrid) && ClockState() == old(ClockState())
    {
      if x >= 0 && x < cols && y >= 0 && y < rows {
        grid[x, y] := if grid[x, y] == 1 then 0 else 1;
        ToggleTwice(cells, cols, rows, x, y);
        cells := Toggled(cells, cols, rows, x, y);
      }
    }

    /** A click at pixel (px, py) of the surface: ignored while running,
        otherwise toggles the cell under the mouse. */
    method Click(px: int, py: int)
      requires Valid()
      modifies this, grid
      ensures Valid() && cols == old(cols) && rows == old(rows)
      ensures cells == if isRunning then old(cells)
                       else Toggled(old(cells), cols, rows, CellOf(px), CellOf(py))
      ensures spare == old(spare) && grid == old(grid) && nextGrid == old(nextGrid)
      ensures ClockState() == old(ClockState())
    {
      if isRunning {
        return;
      }
      var gridX := px / CellSize;
      var gridY := py / CellSize;
      ToggleCell(gridX, gridY);
    }

    /** The Start/Stop button: negates `isRunning`; starting resets `lastUpdate`. */
    method StartStop()
      requires Valid()
      modifies this
      ensures Valid()
      ensures ClockState() == Throttle.OnStartStop(old(ClockState()))
      ensures grid == old(grid) && nextGrid == old(nextGrid)
      ensures cells == old(cells) && spare == old(spare)
      ensures cols == old(cols) && rows == old(rows)
    {
      isRunning := !isRunning;
      if isRunning {
        lastUpdate := 0;
      }
    }

    /** The Clear button: stops, then replaces the grid by a fresh all-dead one. */
    method Clear()
      requires Valid()
      modifies this
      ensures Valid() && fresh(grid) && nextGrid == old(nextGrid)
      ensures cols == old(cols) && rows == old(rows)
      ensures ClockState() == Throttle.ForceIdle(old(ClockState()))
      ensures cells == Dead(cols, rows) && spare == old(spare)
    {
      if isRunning {
        isRunning := false;
      }
      grid := CreateGrid(cols, rows);
      cells := Dead(cols, rows);
    }

    /** The Random button: stops, then replaces the grid by a fresh one seeded
        from `draws`. */
    method Randomize(draws: seq<(int, int)>)
      requires Valid()
      requires |draws| >= SeedCount(cols * rows) && AllInBounds(cols, rows, draws[..SeedCount(cols * rows)])
      modifies this
      ensures Valid() && fresh(grid) && nextGrid == old(nextGrid)
      ensures cols == old(cols) && rows == old(rows)
      ensures ClockState() == Throttle.ForceIdle(old(ClockState()))
      ensures cells == Seeded(cols, rows, draws[..SeedCount(cols * rows)]) && spare == old(spare)
    {
      if isRunning {
        isRunning := false;
      }
      grid := SeedGrid(cols, rows, draws);
      SeededCells(cols, rows, draws[..SeedCount(cols * rows)]);
      cells := Seeded(cols, rows, draws[..SeedCount(cols * rows)]);
    }
  }
}
