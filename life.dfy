/** The Game of Life engine of the portfolio page, as values: a generation is a
    board indexed [column][row], like the page's `grid[col][row]`. */
module Life {

  /** A generation: `b[x][y]` is the state of column `x`, row `y` (0 dead, 1 alive). */
  type Board = seq<seq<int>>

  /** Side of a cell in pixels. */
  const CellSize: int := 10

  /** `b` has `cols` columns of `rows` cells each. */
  predicate Shaped(b: Board, cols: nat, rows: nat)
  {
    |b| == cols && forall x :: 0 <= x < cols ==> |b[x]| == rows
  }

  predicate InBounds(cols: int, rows: int, x: int, y: int)
  {
    0 <= x < cols && 0 <= y < rows
  }

  /** Every cell is 0 or 1. */
  predicate Binary(b: Board)
  {
    forall x, y :: 0 <= x < |b| && 0 <= y < |b[x]| ==> b[x][y] == 0 || b[x][y] == 1
  }

  /** Every cell is 0. */
  predicate AllDead(b: Board)
  {
    forall x, y :: 0 <= x < |b| && 0 <= y < |b[x]| ==> b[x][y] == 0
  }

  /** The fresh grid of the page's `createGrid`: `cols` columns of `rows` zeros. */
  function Dead(cols: nat, rows: nat): (b: Board)
    ensures Shaped(b, cols, rows) && AllDead(b) && Binary(b)
  {
    seq(cols, _ => seq(rows, _ => 0))
  }

  // ---------------------------------------------------------------------------
  // Toroidal neighbourhood

  /** JavaScript's `%` on integers: the remainder of a division truncated
      toward zero, which takes the sign of `a` (Dafny's own `%` is Euclidean and
      never negative). Written as repeated subtraction of the divisor. */
  function JsRem(a: int, n: int): (r: int)
    requires n > 0
    ensures a >= 0 ==> 0 <= r < n
    ensures a < 0 ==> -n < r <= 0
    decreases if a >= 0 then a else -a
  {
    if a >= n then JsRem(a - n, n)
    else if a <= -n then JsRem(a + n, n)
    else a
  }

  /** `JsRem` is Euclidean remainder on a non-negative operand, and it is odd,
      so on a negative operand it differs from Euclidean remainder unless the
      division is exact. */
  lemma {:induction false} JsRemTruncates(a: int, n: int)
    requires n > 0
    ensures a >= 0 ==> JsRem(a, n) == a % n
    ensures JsRem(-a, n) == -JsRem(a, n)
    decreases if a >= 0 then a else -a
  {
    if a >= n {
      JsRemTruncates(a - n, n);
      ModStep(a, n);
      assert JsRem(-a, n) == JsRem(-a + n, n);
      assert -(a - n) == -a + n;
    } else if a <= -n {
      JsRemTruncates(a + n, n);
      assert JsRem(-a, n) == JsRem(-a - n, n);
      assert -(a + n) == -a - n;
    } else if a >= 0 {
      ModBelow(a, n);
    }
  }

  lemma ModBelow(a: int, n: int)
    requires 0 <= a < n
    ensures a % n == a
  {
  }

  lemma ModStep(a: int, n: int)
    requires n > 0
    ensures (a - n) % n == a % n
  {
    var q, r := a / n, a % n;
    assert a - n == (q - 1) * n + r;
    ModUnique(a - n, n, q - 1, r);
  }

  /** Euclidean division is determined by its quotient and remainder. */
  lemma ModUnique(a: int, n: int, q: int, r: int)
    requires n > 0 && a == q * n + r && 0 <= r < n
    ensures a % n == r
  {
    var q' := a / n;
    assert (q - q') * n == a % n - r;
    if q > q' {
      MulAtLeast(q - q', n);
    } else if q < q' {
      MulAtLeast(q' - q, n);
    }
  }

  lemma MulAtLeast(k: int, n: int)
    requires k >= 1 && n > 0
    ensures k * n >= n
  {
  }

  /** The coordinate one step `d` away from `v` on a ring of `n` cells: one
      step left of 0 is `n - 1`, one step right of `n - 1` is 0, and every
      other step is the plain offset. */
  function Wrap(v: int, d: int, n: int): (w: int)
    requires 0 <= v < n && -1 <= d <= 1
    ensures 0 <= w < n
  {
    if v + d < 0 then n - 1 else if v + d >= n then 0 else v + d
  }

  /** The page's wrapped index `(v + d + n) % n`, with JavaScript's `%`, is
      `Wrap`: adding `n` keeps the operand non-negative, so the truncated
      remainder never goes negative. */
  lemma WrapIsJsRem(v: int, d: int, n: int)
    requires 0 <= v < n && -1 <= d <= 1
    ensures JsRem(v + d + n, n) == Wrap(v, d, n)
  {
    var a := v + d + n;
    if v + d >= n {
      assert JsRem(a, n) == JsRem(n, n) == JsRem(0, n) == 0;
    } else if v + d >= 0 {
      assert JsRem(a, n) == JsRem(v + d, n);
    }
  }

  /** `Wrap` is the offset coordinate taken modulo `n`. */
  lemma WrapIsMod(v: int, d: int, n: int)
    requires 0 <= v < n && -1 <= d <= 1
    ensures Wrap(v, d, n) == (v + d) % n
  {
  }

  /** On a board at least three cells wide, different offsets reach different
      coordinates. */
  lemma WrapInjective(v: int, d: int, e: int, n: int)
    requires 3 <= n && 0 <= v < n && -1 <= d <= 1 && -1 <= e <= 1
    ensures Wrap(v, d, n) == Wrap(v, e, n) <==> d == e
  {
  }

  /** The state of the neighbour of (x, y) at offset (i, j), wrapping at the edges. */
  function Neighbor(b: Board, cols: nat, rows: nat, x: int, y: int, i: int, j: int): (v: int)
    requires Shaped(b, cols, rows) && InBounds(cols, rows, x, y)
    requires -1 <= i <= 1 && -1 <= j <= 1
    ensures Binary(b) ==> v == 0 || v == 1
    ensures AllDead(b) ==> v == 0
  {
    b[Wrap(x, i, cols)][Wrap(y, j, rows)]
  }

  /** The live neighbours of (x, y): the sum of the eight offsets around it. */
  function NeighborCount(b: Board, cols: nat, rows: nat, x: int, y: int): (n: int)
    requires Shaped(b, cols, rows) && InBounds(cols, rows, x, y)
    ensures Binary(b) ==> 0 <= n <= 8
    ensures AllDead(b) ==> n == 0
  {
    Neighbor(b, cols, rows, x, y, -1, -1) + Neighbor(b, cols, rows, x, y, -1, 0)
    + Neighbor(b, cols, rows, x, y, -1, 1) + Neighbor(b, cols, rows, x, y, 0, -1)
    + Neighbor(b, cols, rows, x, y, 0, 1) + Neighbor(b, cols, rows, x, y, 1, -1)
    + Neighbor(b, cols, rows, x, y, 1, 0) + Neighbor(b, cols, rows, x, y, 1, 1)
  }

  /** What the loops add at offset (i, j): nothing for the cell itself. */
  function Visit(b: Board, cols: nat, rows: nat, x: int, y: int, i: int, j: int): int
    requires Shaped(b, cols, rows) && InBounds(cols, rows, x, y)
    requires -1 <= i <= 1 && -1 <= j <= 1
  {
    if i == 0 && j == 0 then 0 else Neighbor(b, cols, rows, x, y, i, j)
  }

  /** What the inner loop `for j in -1..1` has added for row offset `i` on
      reaching `j` (exclusive). */
  function RowScan(b: Board, cols: nat, rows: nat, x: int, y: int, i: int, j: int): int
    requires Shaped(b, cols, rows) && InBounds(cols, rows, x, y)
    requires -1 <= i <= 1 && -1 <= j <= 2
  {
    (if -1 < j then Visit(b, cols, rows, x, y, i, -1) else 0)
    + (if 0 < j then Visit(b, cols, rows, x, y, i, 0) else 0)
    + (if 1 < j then Visit(b, cols, rows, x, y, i, 1) else 0)
  }

  /** What the outer loop `for i in -1..1` has added on reaching `i` (exclusive). */
  function Scan(b: Board, cols: nat, rows: nat, x: int, y: int, i: int): int
    requires Shaped(b, cols, rows) && InBounds(cols, rows, x, y)
    requires -1 <= i <= 2
  {
    (if -1 < i then RowScan(b, cols, rows, x, y, -1, 2) else 0)
    + (if 0 < i then RowScan(b, cols, rows, x, y, 0, 2) else 0)
    + (if 1 < i then RowScan(b, cols, rows, x, y, 1, 2) else 0)
  }

  /** Scanning all nine offsets and skipping the centre gives the neighbour count. */
  lemma ScanComplete(b: Board, cols: nat, rows: nat, x: int, y: int)
    requires Shaped(b, cols, rows) && InBounds(cols, rows, x, y)
    ensures Scan(b, cols, rows, x, y, 2) == NeighborCount(b, cols, rows, x, y)
  {
  }

  /** When every dimension is at least 3, the eight neighbours and the cell
      itself are nine different cells, so nothing is counted twice. */
  lemma NeighborsDistinct(cols: nat, rows: nat, x: int, y: int, i: int, j: int, i': int, j': int)
    requires 3 <= cols && 3 <= rows && InBounds(cols, rows, x, y)
    requires -1 <= i <= 1 && -1 <= j <= 1 && -1 <= i' <= 1 && -1 <= j' <= 1
    ensures (Wrap(x, i, cols), Wrap(y, j, rows)) == (Wrap(x, i', cols), Wrap(y, j', rows))
            <==> i == i' && j == j'
    ensures (Wrap(x, i, cols), Wrap(y, j, rows)) == (x, y) <==> i == 0 && j == 0
  {
  }

  /** On a ring of one or two cells the offsets -1 and +1 reach the same cell,
      so the distinctness above needs both dimensions to be at least 3. */
  lemma NarrowRingAliases(v: int, n: int)
    requires 0 <= v < n <= 2
    ensures Wrap(v, -1, n) == Wrap(v, 1, n)
    ensures n == 1 ==> Wrap(v, -1, n) == v
  {
  }

  /** On a 1 x 1 board every offset wraps back to the cell itself, so the
      count sees the cell eight times. */
  lemma LoneCellSeesItself(b: Board)
    requires Shaped(b, 1, 1)
    ensures NeighborCount(b, 1, 1, 0, 0) == 8 * b[0][0]
  {
  }

  // ---------------------------------------------------------------------------
  // The transition rule

  /** The branches of `updateGrid` for one cell: a live cell with fewer than 2
      or more than 3 neighbours dies, a dead cell with exactly 3 is born, and
      every other cell keeps its state. On a 0/1 cell this is rule B3/S23. */
  function Rule(current: int, neighbors: int): (r: int)
    ensures current == 0 || current == 1 ==> r == 0 || r == 1
    ensures current == 0 || current == 1 ==>
              (r == 1 <==> (current == 1 && (neighbors == 2 || neighbors == 3))
                           || (current == 0 && neighbors == 3))
  {
    if current == 1 && (neighbors < 2 || neighbors > 3) then 0
    else if current == 0 && neighbors == 3 then 1
    else current
  }

  /** Rows 0 .. n - 1 of column `x` of the next generation, each cell computed
      from the board `b` before the step. */
  function NextColumn(b: Board, cols: nat, rows: nat, x: int, n: nat): (c: seq<int>)
    requires Shaped(b, cols, rows) && 0 <= x < cols && n <= rows
    ensures |c| == n
  {
    if n == 0 then []
    else NextColumn(b, cols, rows, x, n - 1) + [Rule(b[x][n - 1], NeighborCount(b, cols, rows, x, n - 1))]
  }

  /** Columns 0 .. n - 1 of the next generation. */
  function NextColumns(b: Board, cols: nat, rows: nat, n: nat): (r: Board)
    requires Shaped(b, cols, rows) && n <= cols
    ensures |r| == n && forall x :: 0 <= x < n ==> |r[x]| == rows
  {
    if n == 0 then [] else NextColumns(b, cols, rows, n - 1) + [NextColumn(b, cols, rows, n - 1, rows)]
  }

  /** One synchronous generation, column by column and row by row like the
      loops of `updateGrid`; every cell is computed from the board before the
      step. */
  function Step(b: Board, cols: nat, rows: nat): (r: Board)
    requires Shaped(b, cols, rows)
    ensures Shaped(r, cols, rows)
  {
    NextColumns(b, cols, rows, cols)
  }

  lemma {:induction false} NextColumnAt(b: Board, cols: nat, rows: nat, x: int, n: nat, y: int)
    requires Shaped(b, cols, rows) && 0 <= x < cols && 0 <= y < n <= rows
    ensures NextColumn(b, cols, rows, x, n)[y] == Rule(b[x][y], NeighborCount(b, cols, rows, x, y))
  {
    if y < n - 1 {
      NextColumnAt(b, cols, rows, x, n - 1, y);
    }
  }

  lemma {:induction false} NextColumnsAt(b: Board, cols: nat, rows: nat, n: nat, x: int)
    requires Shaped(b, cols, rows) && 0 <= x < n <= cols
    ensures NextColumns(b, cols, rows, n)[x] == NextColumn(b, cols, rows, x, rows)
  {
    if x < n - 1 {
      NextColumnsAt(b, cols, rows, n - 1, x);
    }
  }

  /** Each cell of a step is the rule applied to that cell and its neighbour
      count on the board before the step. */
  lemma StepAt(b: Board, cols: nat, rows: nat, x: int, y: int)
    requires Shaped(b, cols, rows) && InBounds(cols, rows, x, y)
    ensures Step(b, cols, rows)[x][y] == Rule(b[x][y], NeighborCount(b, cols, rows, x, y))
  {
    NextColumnsAt(b, cols, rows, cols, x);
    NextColumnAt(b, cols, rows, x, rows, y);
  }

  /** A step keeps the dimensions and keeps every cell 0 or 1. */
  lemma StepShapedBinary(b: Board, cols: nat, rows: nat)
    requires Shaped(b, cols, rows) && Binary(b)
    ensures Shaped(Step(b, cols, rows), cols, rows) && Binary(Step(b, cols, rows))
  {
    var r := Step(b, cols, rows);
    forall x, y | 0 <= x < |r| && 0 <= y < |r[x]|
      ensures r[x][y] == 0 || r[x][y] == 1
    {
      StepAt(b, cols, rows, x, y);
    }
  }

  /** The fate of each cell after a step, from the counts of the board before it:
      alive afterwards iff it was alive with 2 or 3 live neighbours, or dead with
      exactly 3. */
  lemma StepCell(b: Board, cols: nat, rows: nat, x: int, y: int)
    requires Shaped(b, cols, rows) && Binary(b) && InBounds(cols, rows, x, y)
    ensures var n := NeighborCount(b, cols, rows, x, y);
            Step(b, cols, rows)[x][y] == 1
            <==> (b[x][y] == 1 && (n == 2 || n == 3)) || (b[x][y] == 0 && n == 3)
    ensures Step(b, cols, rows)[x][y] == 0 || Step(b, cols, rows)[x][y] == 1
  {
    StepAt(b, cols, rows, x, y);
  }

  /** No spontaneous life: an all-dead board stays all-dead. */
  lemma StepDeadStaysDead(cols: nat, rows: nat)
    ensures Step(Dead(cols, rows), cols, rows) == Dead(cols, rows)
  {
    var b := Dead(cols, rows);
    var r := Step(b, cols, rows);
    forall x | 0 <= x < cols
      ensures r[x] == b[x]
    {
      forall y | 0 <= y < rows
        ensures r[x][y] == b[x][y]
      {
        StepAt(b, cols, rows, x, y);
      }
    }
  }

  /** Consequently a 1 x 1 board is dead after one step, even when its cell was
      alive: it is overcrowded by its own eight images. */
  lemma TinyBoardDies(b: Board)
    requires Shaped(b, 1, 1) && Binary(b)
    ensures Step(b, 1, 1) == Dead(1, 1)
  {
    StepAt(b, 1, 1, 0, 0);
    LoneCellSeesItself(b);
    assert Step(b, 1, 1)[0] == Dead(1, 1)[0];
  }

  // ---------------------------------------------------------------------------
  // Editing

  /** The flip of `toggleCell`: 1 becomes 0 and anything else becomes 1. */
  function Flip(v: int): (r: int)
    ensures r == 0 || r == 1
    ensures v == 0 || v == 1 ==> r == 1 - v
  {
    if v == 1 then 0 else 1
  }

  /** The board after `toggleCell(x, y)`: the cell flips when (x, y) is in range
      and nothing changes otherwise. */
  function Toggled(b: Board, cols: nat, rows: nat, x: int, y: int): (r: Board)
    requires Shaped(b, cols, rows)
    ensures Shaped(r, cols, rows)
  {
    if InBounds(cols, rows, x, y) then b[x := b[x][y := Flip(b[x][y])]] else b
  }

  /** Toggling changes exactly the addressed in-range cell; an out-of-range
      coordinate, negative ones included, changes nothing. */
  lemma ToggledCells(b: Board, cols: nat, rows: nat, x: int, y: int)
    requires Shaped(b, cols, rows)
    ensures !InBounds(cols, rows, x, y) ==> Toggled(b, cols, rows, x, y) == b
    ensures forall x', y' :: InBounds(cols, rows, x', y') ==>
              Toggled(b, cols, rows, x, y)[x'][y'] ==
                if x' == x && y' == y then Flip(b[x][y]) else b[x'][y']
  {
  }

  /** Toggling twice restores a 0/1 board. */
  lemma ToggleTwice(b: Board, cols: nat, rows: nat, x: int, y: int)
    requires Shaped(b, cols, rows) && Binary(b)
    ensures Toggled(Toggled(b, cols, rows, x, y), cols, rows, x, y) == b
    ensures Binary(Toggled(b, cols, rows, x, y))
  {
    if InBounds(cols, rows, x, y) {
      var t := Toggled(b, cols, rows, x, y);
      assert t[x][y] == 1 - b[x][y];
      assert Toggled(t, cols, rows, x, y)[x] == b[x];
    }
  }

  /** The cell under a pixel coordinate: floor division by the cell size. */
  function CellOf(p: int): (c: int)
    ensures CellSize * c <= p < CellSize * c + CellSize
    ensures p < 0 ==> c < 0
  {
    p / CellSize
  }

  // ---------------------------------------------------------------------------
  // Random seeding

  /** The number of iterations of `for (i = 0; i < cells * 0.2; i++)`: the
      count of naturals `i` with `5 * i < cells`. */
  function SeedCount(cells: nat): (k: nat)
    ensures 5 * k - 5 < cells <= 5 * k
  {
    (cells + 4) / 5
  }

  /** Marks cell `p` alive. */
  function Mark(b: Board, cols: nat, rows: nat, p: (int, int)): (r: Board)
    requires Shaped(b, cols, rows) && InBounds(cols, rows, p.0, p.1)
    ensures Shaped(r, cols, rows)
  {
    b[p.0 := b[p.0][p.1 := 1]]
  }

  predicate AllInBounds(cols: nat, rows: nat, ds: seq<(int, int)>)
  {
    forall i :: 0 <= i < |ds| ==> InBounds(cols, rows, ds[i].0, ds[i].1)
  }

  /** A fresh grid with the drawn cells marked alive, one after another. */
  function Seeded(cols: nat, rows: nat, ds: seq<(int, int)>): (r: Board)
    requires AllInBounds(cols, rows, ds)
    ensures Shaped(r, cols, rows)
    decreases |ds|
  {
    if ds == [] then Dead(cols, rows)
    else Mark(Seeded(cols, rows, ds[..|ds| - 1]), cols, rows, ds[|ds| - 1])
  }

  /** After seeding, a cell is alive iff it is one of the drawn coordinates, and
      every other cell is dead. */
  lemma {:induction false} SeededCells(cols: nat, rows: nat, ds: seq<(int, int)>)
    requires AllInBounds(cols, rows, ds)
    ensures Binary(Seeded(cols, rows, ds))
    ensures forall x, y :: InBounds(cols, rows, x, y) ==>
              (Seeded(cols, rows, ds)[x][y] == 1 <==> (x, y) in ds)
    decreases |ds|
  {
    if ds != [] {
      var front := ds[..|ds| - 1];
      SeededCells(cols, rows, front);
      assert ds == front + [ds[|ds| - 1]];
      forall x, y | InBounds(cols, rows, x, y)
        ensures Seeded(cols, rows, ds)[x][y] == 1 <==> (x, y) in ds
      {
        assert (x, y) in ds <==> (x, y) in front || (x, y) == ds[|ds| - 1];
      }
    }
  }

  /** The live cells of a board. */
  function LiveCells(b: Board, cols: nat, rows: nat): set<(int, int)>
    requires Shaped(b, cols, rows)
  {
    set x, y | 0 <= x < cols && 0 <= y < rows && b[x][y] == 1 :: (x, y)
  }

  /** The drawn coordinates, as a set. */
  function Drawn(ds: seq<(int, int)>): set<(int, int)>
  {
    set i | 0 <= i < |ds| :: ds[i]
  }

  lemma {:induction false} DrawnSize(ds: seq<(int, int)>)
    ensures |Drawn(ds)| <= |ds|
    decreases |ds|
  {
    if ds != [] {
      var front := ds[..|ds| - 1];
      DrawnSize(front);
      assert Drawn(ds) == Drawn(front) + {ds[|ds| - 1]} by {
        forall p | p in Drawn(ds) ensures p in Drawn(front) + {ds[|ds| - 1]} {
          var i :| 0 <= i < |ds| && ds[i] == p;
          if i < |ds| - 1 { assert front[i] == p; }
        }
        forall p | p in Drawn(front) ensures p in Drawn(ds) {
          var i :| 0 <= i < |front| && front[i] == p;
          assert ds[i] == p;
        }
      }
    }
  }

  /** Draws may collide, so seeding with `ds` leaves at most `|ds|` live cells:
      the live cells are exactly the distinct drawn coordinates. */
  lemma SeededPopulation(cols: nat, rows: nat, ds: seq<(int, int)>)
    requires AllInBounds(cols, rows, ds)
    ensures LiveCells(Seeded(cols, rows, ds), cols, rows) == Drawn(ds)
    ensures |LiveCells(Seeded(cols, rows, ds), cols, rows)| <= |ds|
  {
    var b := Seeded(cols, rows, ds);
    SeededCells(cols, rows, ds);
    forall p | p in Drawn(ds) ensures p in LiveCells(b, cols, rows) {
      var i :| 0 <= i < |ds| && ds[i] == p;
      assert InBounds(cols, rows, ds[i].0, ds[i].1);
    }
    DrawnSize(ds);
  }
}
