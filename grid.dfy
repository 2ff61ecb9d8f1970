// The synthetic grid generator (`getRandomData`): tiles a square cartesian
// area with square cells, each carrying a closed 5-point contour, an RGBA
// colour with a fixed alpha, and an elevation.
//
// The random source is a parameter: `draws` is the sequence of values that
// `Math.floor(Math.random() * 256)` would have produced, consumed in the
// order the object literal evaluates them (red, green, blue, elevation).

module Grid {
  import opened Arith

  /** A contour vertex in the renderer's cartesian coordinates. */
  datatype Point = Point(x: int, y: int)

  /** One grid cell: its contour, its colour [r, g, b, a] and its elevation. */
  datatype Cell = Cell(contour: seq<Point>, color: seq<int>, elevation: int)

  /** Alpha component given to every generated colour. */
  const Alpha: int := 150

  /** The arguments `getGrids` calls the generator with (its defaults). */
  const DefaultGridSize: int := 512
  const DefaultCellSize: int := 2

  /** Random draws consumed per cell: red, green, blue, elevation. */
  const DrawsPerCell: nat := 4

  predicate IsByte(v: int) {
    0 <= v < 256
  }

  predicate AllBytes(s: seq<int>) {
    forall i :: 0 <= i < |s| ==> IsByte(s[i])
  }

  /** The loop `for (v = 0; v < gridSize; v += cellSize)` only terminates
      when it runs no iteration or steps forward. */
  predicate Terminates(gridSize: int, cellSize: int) {
    cellSize > 0 || gridSize <= 0
  }

  // ---------------------------------------------------------------------
  // Cell counts
  // ---------------------------------------------------------------------

  /** Number of iterations of `for (v = 0; v < gridSize; v += cellSize)`:
      every value the loop visits, v = i * cellSize for i < n, passes the
      guard, and the value after the last one fails it, so n is the ceiling
      of gridSize / cellSize (and 0 for an empty extent). */
  function CellsPerAxis(gridSize: int, cellSize: int): (n: nat)
    requires Terminates(gridSize, cellSize)
    ensures n * cellSize >= gridSize
    ensures n > 0 ==> (n - 1) * cellSize < gridSize
  {
    if gridSize <= 0 then 0
    else
      var n := (gridSize + cellSize - 1) / cellSize;
      assert n * cellSize >= gridSize by {
        assert gridSize + cellSize - 1 == n * cellSize + (gridSize + cellSize - 1) % cellSize;
      }
      n
  }

  /** The value of a loop variable that starts at 0 after i increments of
      `step`. */
  function AfterSteps(i: nat, step: int): int {
    if i == 0 then 0 else AfterSteps(i - 1, step) + step
  }

  lemma {:induction false} AfterStepsIsProduct(i: nat, step: int)
    ensures AfterSteps(i, step) == i * step
  {
    if i > 0 {
      AfterStepsIsProduct(i - 1, step);
      assert (i - 1) * step + step == i * step;
    }
  }

  /** An index passes the loop guard exactly when it is below CellsPerAxis. */
  lemma AxisGuard(gridSize: int, cellSize: int, i: int)
    requires cellSize > 0 && i >= 0
    ensures i < CellsPerAxis(gridSize, cellSize) <==> i * cellSize < gridSize
  {
    var n := CellsPerAxis(gridSize, cellSize);
    if i < n {
      MulMonotone(i, n - 1, cellSize);
    } else {
      MulMonotone(n, i, cellSize);
    }
  }

  /** Total number of cells one call generates. */
  function CellCount(gridSize: int, cellSize: int): nat
    requires Terminates(gridSize, cellSize)
  {
    CellsPerAxis(gridSize, cellSize) * CellsPerAxis(gridSize, cellSize)
  }

  /** With the defaults 512 / 2 a frame has 256 * 256 cells. */
  lemma DefaultCellCount()
    ensures CellsPerAxis(DefaultGridSize, DefaultCellSize) == 256
    ensures CellCount(DefaultGridSize, DefaultCellSize) == 65536
  {
  }

  // ---------------------------------------------------------------------
  // The cells the generator produces
  // ---------------------------------------------------------------------

  /** The cell pushed for loop position (x, y) from four draws: a closed
      ring of five points from the lower-left corner (x, y) back to it,
      running up the left side first, the colour [r, g, b, 150] and the
      elevation e. MakeCellIsSquare states that the ring is a square. */
  function MakeCell(x: int, y: int, cellSize: int, r: int, g: int, b: int, e: int): (cell: Cell)
    ensures |cell.contour| == 5 && cell.contour[0] == cell.contour[4] == Point(x, y)
    ensures cell.contour[1] == Point(x, y + cellSize)
    ensures |cell.color| == 4 && cell.color[..3] == [r, g, b] && cell.color[3] == Alpha
    ensures cell.elevation == e
  {
    Cell(
      [Point(x, y), Point(x, y + cellSize), Point(x + cellSize, y + cellSize),
       Point(x + cellSize, y), Point(x, y)],
      [r, g, b, Alpha],
      e)
  }

  /** The k-th generated cell: the outer loop runs over x, so cells come out
      x-major, and cell k consumes draws 4k .. 4k+3. */
  function GridCell(gridSize: int, cellSize: int, draws: seq<int>, k: nat): Cell
    requires Terminates(gridSize, cellSize)
    requires k < CellCount(gridSize, cellSize)
    requires |draws| >= DrawsPerCell * CellCount(gridSize, cellSize)
  {
    var n := CellsPerAxis(gridSize, cellSize);
    MakeCell((k / n) * cellSize, (k % n) * cellSize, cellSize,
             draws[4 * k], draws[4 * k + 1], draws[4 * k + 2], draws[4 * k + 3])
  }

  /** Everything one call of the generator returns. */
  function RandomGrid(gridSize: int, cellSize: int, draws: seq<int>): seq<Cell>
    requires Terminates(gridSize, cellSize)
    requires |draws| >= DrawsPerCell * CellCount(gridSize, cellSize)
  {
    seq(CellCount(gridSize, cellSize),
        k requires 0 <= k < CellCount(gridSize, cellSize) => GridCell(gridSize, cellSize, draws, k))
  }

  /** The first m cells, in the order the loops push them. */
  function GridPrefix(gridSize: int, cellSize: int, draws: seq<int>, m: nat): seq<Cell>
    requires Terminates(gridSize, cellSize)
    requires m <= CellCount(gridSize, cellSize)
    requires |draws| >= DrawsPerCell * CellCount(gridSize, cellSize)
  {
    if m == 0 then [] else GridPrefix(gridSize, cellSize, draws, m - 1) + [GridCell(gridSize, cellSize, draws, m - 1)]
  }

  lemma {:induction false} GridPrefixIsRandomGrid(gridSize: int, cellSize: int, draws: seq<int>, m: nat)
    requires Terminates(gridSize, cellSize)
    requires m <= CellCount(gridSize, cellSize)
    requires |draws| >= DrawsPerCell * CellCount(gridSize, cellSize)
    ensures GridPrefix(gridSize, cellSize, draws, m) == RandomGrid(gridSize, cellSize, draws)[..m]
  {
    if m > 0 {
      GridPrefixIsRandomGrid(gridSize, cellSize, draws, m - 1);
      assert RandomGrid(gridSize, cellSize, draws)[..m]
          == RandomGrid(gridSize, cellSize, draws)[..m - 1] + [RandomGrid(gridSize, cellSize, draws)[m - 1]];
    }
  }

  /** The cell pushed at loop position x = i * cellSize, y = j * cellSize is
      cell i * n + j. */
  lemma PushedCellAt(gridSize: int, cellSize: int, draws: seq<int>, i: nat, j: nat)
    requires cellSize > 0
    requires i * cellSize < gridSize && j * cellSize < gridSize
    requires |draws| >= DrawsPerCell * CellCount(gridSize, cellSize)
    ensures var k := i * CellsPerAxis(gridSize, cellSize) + j;
            k < CellCount(gridSize, cellSize) &&
            GridCell(gridSize, cellSize, draws, k) ==
              MakeCell(i * cellSize, j * cellSize, cellSize,
                       draws[4 * k], draws[4 * k + 1], draws[4 * k + 2], draws[4 * k + 3])
  {
    var n := CellsPerAxis(gridSize, cellSize);
    AxisGuard(gridSize, cellSize, i);
    AxisGuard(gridSize, cellSize, j);
    MulMonotone(i, n - 1, n);
    DivModOfIndex(i, j, n);
  }

  /** PushedCellAt, with the loop variables as the loops compute them. */
  lemma PushedCell(gridSize: int, cellSize: int, draws: seq<int>, i: nat, j: nat)
    requires cellSize > 0
    requires AfterSteps(i, cellSize) < gridSize && AfterSteps(j, cellSize) < gridSize
    requires |draws| >= DrawsPerCell * CellCount(gridSize, cellSize)
    ensures var k := AfterSteps(i, CellsPerAxis(gridSize, cellSize)) + j;
            0 <= k < CellCount(gridSize, cellSize) &&
            GridCell(gridSize, cellSize, draws, k) ==
              MakeCell(AfterSteps(i, cellSize), AfterSteps(j, cellSize), cellSize,
                       draws[4 * k], draws[4 * k + 1], draws[4 * k + 2], draws[4 * k + 3])
  {
    AfterStepsIsProduct(i, cellSize);
    AfterStepsIsProduct(j, cellSize);
    AfterStepsIsProduct(i, CellsPerAxis(gridSize, cellSize));
    PushedCellAt(gridSize, cellSize, draws, i, j);
  }

  /** The loop over one axis leaves after exactly CellsPerAxis steps. */
  lemma AxisExit(gridSize: int, cellSize: int, i: nat)
    requires Terminates(gridSize, cellSize)
    requires i <= CellsPerAxis(gridSize, cellSize)
    ensures AfterSteps(i, cellSize) < gridSize <==> i < CellsPerAxis(gridSize, cellSize)
  {
    AfterStepsIsProduct(i, cellSize);
    if gridSize > 0 {
      AxisGuard(gridSize, cellSize, i);
    }
  }

  /** `getRandomData`: nested loops over x and y pushing one cell each. */
  method GetRandomData(gridSize: int, cellSize: int, draws: seq<int>) returns (dataGrid: seq<Cell>)
    requires Terminates(gridSize, cellSize)
    requires |draws| >= DrawsPerCell * CellCount(gridSize, cellSize)
    ensures |dataGrid| == CellCount(gridSize, cellSize)
    ensures dataGrid == RandomGrid(gridSize, cellSize, draws)
  {
    ghost var n := CellsPerAxis(gridSize, cellSize);
    dataGrid := [];
    var next := 0;
    var x := 0;
    ghost var i := 0;
    while x < gridSize
      invariant 0 <= i <= n && 0 <= x
      invariant x == AfterSteps(i, cellSize)
      invariant |dataGrid| == AfterSteps(i, n) && |dataGrid| <= CellCount(gridSize, cellSize)
      invariant next == DrawsPerCell * |dataGrid|
      invariant dataGrid == GridPrefix(gridSize, cellSize, draws, |dataGrid|)
      decreases gridSize - x
    {
      AxisExit(gridSize, cellSize, i);
      var y := 0;
      ghost var j := 0;
      while y < gridSize
        invariant 0 <= j <= n && 0 <= y
        invariant y == AfterSteps(j, cellSize)
        invariant |dataGrid| == AfterSteps(i, n) + j && |dataGrid| <= CellCount(gridSize, cellSize)
        invariant next == DrawsPerCell * |dataGrid|
        invariant dataGrid == GridPrefix(gridSize, cellSize, draws, |dataGrid|)
        decreases gridSize - y
      {
        AxisExit(gridSize, cellSize, j);
        PushedCell(gridSize, cellSize, draws, i, j);
        var cell := MakeCell(x, y, cellSize, draws[next], draws[next + 1], draws[next + 2], draws[next + 3]);
        dataGrid := dataGrid + [cell];
        next := next + DrawsPerCell;
        y := y + cellSize;
        j := j + 1;
      }
      AxisExit(gridSize, cellSize, j);
      x := x + cellSize;
      i := i + 1;
    }
    AxisExit(gridSize, cellSize, i);
    AfterStepsIsProduct(n, n);
    GridPrefixIsRandomGrid(gridSize, cellSize, draws, |dataGrid|);
  }

  // ---------------------------------------------------------------------
  // What the generated grid is
  // ---------------------------------------------------------------------

  /** The lower-left corner of a cell: the first point of its contour. */
  function Corner(cell: Cell): Point
    requires |cell.contour| > 0
  {
    cell.contour[0]
  }

  /** `contour` is a closed ring around the axis-aligned square of the given
      side whose lower-left corner is `corner`: five points, the last equal to
      the first, the first four distinct corners of the square, and each edge
      moving by `side` along exactly one axis. It fixes the shape, not the
      direction the ring runs in: the second point settles that. */
  predicate SquareRing(contour: seq<Point>, corner: Point, side: int)
    requires side > 0
  {
    |contour| == 5 && contour[0] == corner && contour[4] == contour[0] &&
    (forall j :: 0 <= j < 5 ==>
      contour[j].x in {corner.x, corner.x + side} && contour[j].y in {corner.y, corner.y + side}) &&
    (forall j, l :: 0 <= j < l < 4 ==> contour[j] != contour[l]) &&
    (forall j :: 0 <= j < 4 ==> EdgeStep(contour[j], contour[j + 1], side))
  }

  /** One edge of a square of the given side: along one axis only. */
  predicate EdgeStep(p: Point, q: Point, side: int) {
    (p.x == q.x && (q.y - p.y == side || p.y - q.y == side)) ||
    (p.y == q.y && (q.x - p.x == side || p.x - q.x == side))
  }

  /** The pushed contour is a closed square ring of side cellSize at (x, y). */
  lemma MakeCellIsSquare(x: int, y: int, cellSize: int, r: int, g: int, b: int, e: int)
    requires cellSize > 0
    ensures SquareRing(MakeCell(x, y, cellSize, r, g, b, e).contour, Point(x, y), cellSize)
  {
  }

  /** Every generated cell is a closed square ring of side `cellSize` at its
      x-major grid position, running up its left side first, with colour [r, g, b, 150] taken from its draws. */
  lemma GridCellShape(gridSize: int, cellSize: int, draws: seq<int>, k: nat)
    requires cellSize > 0
    requires k < CellCount(gridSize, cellSize)
    requires |draws| >= DrawsPerCell * CellCount(gridSize, cellSize)
    ensures var n := CellsPerAxis(gridSize, cellSize);
            var cell := GridCell(gridSize, cellSize, draws, k);
            SquareRing(cell.contour, Point((k / n) * cellSize, (k % n) * cellSize), cellSize) &&
            cell.contour[1] == Point((k / n) * cellSize, (k % n) * cellSize + cellSize) &&
            cell.color == [draws[4 * k], draws[4 * k + 1], draws[4 * k + 2], Alpha] &&
            cell.elevation == draws[4 * k + 3]
  {
  }

  /** Corner coordinates are multiples of cellSize that pass the loop guard,
      so every corner lies in [0, gridSize) on both axes. The cells of the
      last row and column reach gridSize with their far edge (and stick out
      past it when cellSize does not divide gridSize). */
  lemma CornerInRange(gridSize: int, cellSize: int, draws: seq<int>, k: nat)
    requires cellSize > 0
    requires k < CellCount(gridSize, cellSize)
    requires |draws| >= DrawsPerCell * CellCount(gridSize, cellSize)
    ensures var n := CellsPerAxis(gridSize, cellSize);
            var c := Corner(GridCell(gridSize, cellSize, draws, k));
            0 <= c.x < gridSize && 0 <= c.y < gridSize &&
            c.x % cellSize == 0 && c.y % cellSize == 0 &&
            (k / n == n - 1 ==> c.x + cellSize >= gridSize) &&
            (k % n == n - 1 ==> c.y + cellSize >= gridSize)
  {
    var n := CellsPerAxis(gridSize, cellSize);
    assert (n - 1) * cellSize + cellSize == n * cellSize;
    assert n > 0;
    assert k / n < n by { DivLess(k, n, n); }
    AxisGuard(gridSize, cellSize, k / n);
    AxisGuard(gridSize, cellSize, k % n);
    assert ((k / n) * cellSize) % cellSize == 0 by { DivModOfIndex(k / n, 0, cellSize); }
    assert ((k % n) * cellSize) % cellSize == 0 by { DivModOfIndex(k % n, 0, cellSize); }
  }

  /** Two cells share a corner only if they are the same cell: the tiling
      has no overlap. */
  lemma CornersDistinct(gridSize: int, cellSize: int, draws: seq<int>, k1: nat, k2: nat)
    requires cellSize > 0
    requires k1 < CellCount(gridSize, cellSize) && k2 < CellCount(gridSize, cellSize)
    requires |draws| >= DrawsPerCell * CellCount(gridSize, cellSize)
    ensures Corner(GridCell(gridSize, cellSize, draws, k1)) == Corner(GridCell(gridSize, cellSize, draws, k2))
            ==> k1 == k2
  {
    var n := CellsPerAxis(gridSize, cellSize);
    if (k1 / n) * cellSize == (k2 / n) * cellSize && (k1 % n) * cellSize == (k2 % n) * cellSize {
      MulCancel(k1 / n, k2 / n, cellSize);
      MulCancel(k1 % n, k2 % n, cellSize);
    }
  }

  /** Every grid position (i, j) the loops visit is some cell's corner: cell
      i * n + j, where n cells are generated per axis. */
  lemma CornersCover(gridSize: int, cellSize: int, draws: seq<int>, i: nat, j: nat)
    requires cellSize > 0
    requires i * cellSize < gridSize && j * cellSize < gridSize
    requires |draws| >= DrawsPerCell * CellCount(gridSize, cellSize)
    ensures var n := CellsPerAxis(gridSize, cellSize);
            i * n + j < CellCount(gridSize, cellSize) &&
            Corner(RandomGrid(gridSize, cellSize, draws)[i * n + j]) == Point(i * cellSize, j * cellSize)
  {
    PushedCellAt(gridSize, cellSize, draws, i, j);
  }

  /** Every generated colour component and elevation is a byte when the
      draws are, and the alpha is always 150. */
  lemma RandomGridBytes(gridSize: int, cellSize: int, draws: seq<int>)
    requires Terminates(gridSize, cellSize)
    requires |draws| >= DrawsPerCell * CellCount(gridSize, cellSize)
    requires AllBytes(draws)
    ensures forall k :: 0 <= k < |RandomGrid(gridSize, cellSize, draws)| ==>
      var cell := RandomGrid(gridSize, cellSize, draws)[k];
      |cell.color| == 4 && AllBytes(cell.color) && cell.color[3] == Alpha && IsByte(cell.elevation)
  {
  }
}
