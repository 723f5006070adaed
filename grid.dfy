/** The arithmetic of the gameplay screen's cell grid: how many squares fit
    the fixed 800x450 screen, where the leftover margin goes, how a pixel
    is mapped to a cell, how a cell is mapped to a slot of the flat
    row-major buffer, and what the draw pass shows for a given buffer.
    Everything here is a pure function of its arguments; the stateful
    screen lives in module Gameplay. */
module Grid {

  const ScreenWidth: nat := 800
  const ScreenHeight: nat := 450

  /** A cell of the grid, addressed by row and column (both from 0). */
  datatype Cell = Cell(row: nat, col: nat)

  /** A point in HALF-pixel units: the screen draws at `offset / 2`, so
      doubling every coordinate keeps the positions exact integers. */
  datatype Point = Point(x: int, y: int)

  /** A grid line from one point to another, in half-pixel units. */
  datatype Segment = Segment(from: Point, to: Point)

  // ---------------------------------------------------------------------
  // Sizing
  // ---------------------------------------------------------------------

  /** Number of squares of side `size` laid along an `extent` of pixels:
      the least count whose span strictly exceeds the extent, so the last
      square runs past the edge. */
  function SquaresAcross(extent: nat, size: nat): (n: nat)
    requires size > 0
    ensures n >= 1
    ensures (n - 1) * size <= extent < n * size
  {
    var q := extent / size;
    assert (q + 1) * size == q * size + size;
    q + 1
  }

  /** The pixels left over once the whole squares are laid along `extent`;
      the grid lines are inset by half of it on each side. */
  function Margin(extent: nat, size: nat): (m: nat)
    requires size > 0
    ensures m < size
    ensures m + (SquaresAcross(extent, size) - 1) * size == extent
  {
    extent % size
  }

  // ---------------------------------------------------------------------
  // The flat row-major buffer
  // ---------------------------------------------------------------------

  /** The slot of cell (row, col) in a row-major buffer of `cols` columns. */
  function FlatIndex(row: nat, col: nat, cols: nat): (i: nat)
    requires col < cols
    ensures i / cols == row && i % cols == col
  {
    DivModOfFlat(row, col, cols);
    row * cols + col
  }

  /** The cell stored at slot `i` of a row-major buffer of `cols` columns. */
  function CellAt(i: nat, cols: nat): (c: Cell)
    requires cols > 0
    ensures c.col < cols && FlatIndex(c.row, c.col, cols) == i
  {
    Cell(i / cols, i % cols)
  }

  lemma DivModOfFlat(row: nat, col: nat, cols: nat)
    requires col < cols
    ensures (row * cols + col) / cols == row && (row * cols + col) % cols == col
  {
    var i := row * cols + col;
    var q, r := i / cols, i % cols;
    assert (q - row) * cols == col - r;
    MulAtLeast(q - row, cols);
  }

  /** A nonzero whole multiple of `c` is at least `c` away from zero. */
  lemma MulAtLeast(d: int, c: nat)
    ensures d >= 1 ==> d * c >= c
    ensures d <= -1 ==> d * c <= -(c as int)
  {
  }

  /** Row-major indexing is one-to-one on in-range columns. */
  lemma FlatIndexInjective(r1: nat, c1: nat, r2: nat, c2: nat, cols: nat)
    requires c1 < cols && c2 < cols
    ensures FlatIndex(r1, c1, cols) == FlatIndex(r2, c2, cols) <==> r1 == r2 && c1 == c2
  {
  }

  /** A cell inside a rows x cols grid has its slot inside the buffer. */
  lemma {:induction false} FlatIndexInGrid(row: nat, col: nat, rows: nat, cols: nat)
    requires row < rows && col < cols
    ensures FlatIndex(row, col, cols) < rows * cols
  {
    assert row * cols + cols == (row + 1) * cols;
    assert (row + 1) * cols <= rows * cols by {
      assert row + 1 <= rows;
    }
  }

  /** The slots before (row, col) in row-major order, with `col` up to
      `cols`, never outnumber the slots of a rows x cols buffer. */
  lemma {:induction false} VisitedWithinGrid(row: nat, col: nat, rows: nat, cols: nat)
    requires row < rows && col <= cols
    ensures row * cols + col <= rows * cols
  {
    assert row * cols + cols == (row + 1) * cols;
    MulAtLeast(rows - (row + 1), cols);
    assert rows * cols - (row + 1) * cols == (rows - (row + 1)) * cols;
  }

  // ---------------------------------------------------------------------
  // Clicks
  // ---------------------------------------------------------------------

  /** The cell a click at pixel (x, y) selects: the square whose pixel box,
      counted from the screen's top-left corner, holds the click. */
  function ClickCell(x: nat, y: nat, size: nat): (c: Cell)
    requires size > 0
    ensures c.row * size <= y < (c.row + 1) * size
    ensures c.col * size <= x < (c.col + 1) * size
  {
    assert (y / size + 1) * size == (y / size) * size + size;
    assert (x / size + 1) * size == (x / size) * size + size;
    Cell(y / size, x / size)
  }

  predicate OnScreen(x: nat, y: nat)
  {
    x < ScreenWidth && y < ScreenHeight
  }

  /** Every on-screen click selects a cell of the grid, and the slot the
      unchecked write goes to lies inside the rows x cols buffer. */
  lemma {:induction false} ClickInBuffer(x: nat, y: nat, size: nat)
    requires size > 0 && OnScreen(x, y)
    ensures ClickCell(x, y, size).row < SquaresAcross(ScreenHeight, size)
    ensures ClickCell(x, y, size).col < SquaresAcross(ScreenWidth, size)
    ensures FlatIndex(ClickCell(x, y, size).row, ClickCell(x, y, size).col, SquaresAcross(ScreenWidth, size))
            < SquaresAcross(ScreenHeight, size) * SquaresAcross(ScreenWidth, size)
  {
    var c := ClickCell(x, y, size);
    var rows, cols := SquaresAcross(ScreenHeight, size), SquaresAcross(ScreenWidth, size);
    MulLessCancel(c.row, rows, size);
    MulLessCancel(c.col, cols, size);
    FlatIndexInGrid(c.row, c.col, rows, cols);
  }

  /** Multiplying by the same factor keeps a strict order the same way. */
  lemma MulLessCancel(a: nat, b: nat, c: nat)
    requires a * c < b * c
    ensures a < b
  {
    MulAtLeast(a - b, c);
    assert (a - b) * c == a * c - b * c;
  }

  /** The buffer slot an on-screen click writes: the slot of the clicked
      cell, inside the buffer of a grid sized for the screen. */
  function ClickSlot(x: nat, y: nat, size: nat): (i: nat)
    requires size > 0 && OnScreen(x, y)
    ensures i < SquaresAcross(ScreenHeight, size) * SquaresAcross(ScreenWidth, size)
    ensures CellAt(i, SquaresAcross(ScreenWidth, size)) == ClickCell(x, y, size)
  {
    ClickInBuffer(x, y, size);
    FlatIndex(y / size, x / size, SquaresAcross(ScreenWidth, size))
  }

  /** When the size divides the screen width, the last column lies wholly
      past the right edge: no on-screen click can select it. */
  lemma LastColumnUnclickable(x: nat, y: nat, size: nat)
    requires size > 0 && OnScreen(x, y) && Margin(ScreenWidth, size) == 0
    ensures ClickCell(x, y, size).col < SquaresAcross(ScreenWidth, size) - 1
  {
    var c := ClickCell(x, y, size);
    MulLessCancel(c.col, SquaresAcross(ScreenWidth, size) - 1, size);
  }

  // ---------------------------------------------------------------------
  // Seeding a cell
  // ---------------------------------------------------------------------

  /** The buffer after slot `i` is set alive. */
  function Seeded(cells: seq<bool>, i: nat): (r: seq<bool>)
    requires i < |cells|
    ensures |r| == |cells| && r[i]
    ensures forall j | 0 <= j < |r| && j != i :: r[j] == cells[j]
  {
    cells[i := true]
  }

  /** Seeding the same slot twice is the same as seeding it once. */
  lemma SeedIdempotent(cells: seq<bool>, i: nat)
    requires i < |cells|
    ensures Seeded(Seeded(cells, i), i) == Seeded(cells, i)
  {
  }

  /** Seeding a slot that is already alive changes nothing. */
  lemma SeedLiveIsNoop(cells: seq<bool>, i: nat)
    requires i < |cells| && cells[i]
    ensures Seeded(cells, i) == cells
  {
  }

  // ---------------------------------------------------------------------
  // The draw pass
  // ---------------------------------------------------------------------

  /** The cells the draw pass shows for the first `n` slots of the buffer,
      in the order it visits them. */
  function LiveCells(cells: seq<bool>, cols: nat, n: nat): seq<Cell>
    requires cols > 0 && n <= |cells|
  {
    if n == 0 then []
    else LiveCells(cells, cols, n - 1) + (if cells[n - 1] then [CellAt(n - 1, cols)] else [])
  }

  /** Row-major order: earlier row first, then earlier column. */
  predicate RowMajorBefore(a: Cell, b: Cell)
  {
    a.row < b.row || (a.row == b.row && a.col < b.col)
  }

  /** A cell is shown exactly when it is inside the grid's columns, its
      slot has been visited, and that slot is alive. */
  lemma {:induction false} LiveCellsMember(cells: seq<bool>, cols: nat, n: nat, c: Cell)
    requires cols > 0 && n <= |cells|
    ensures c in LiveCells(cells, cols, n) <==>
            c.col < cols && FlatIndex(c.row, c.col, cols) < n && cells[FlatIndex(c.row, c.col, cols)]
  {
    if n > 0 {
      LiveCellsMember(cells, cols, n - 1, c);
      if c.col < cols {
        var k := FlatIndex(c.row, c.col, cols);
        assert k == n - 1 <==> c == CellAt(n - 1, cols);
      }
    }
  }

  /** Every shown cell lies in the grid's columns and in the visited slots. */
  lemma {:induction false} LiveCellsBounded(cells: seq<bool>, cols: nat, n: nat)
    requires cols > 0 && n <= |cells|
    ensures |LiveCells(cells, cols, n)| <= n
    ensures forall k | 0 <= k < |LiveCells(cells, cols, n)| ::
              LiveCells(cells, cols, n)[k].col < cols &&
              FlatIndex(LiveCells(cells, cols, n)[k].row, LiveCells(cells, cols, n)[k].col, cols) < n
  {
    if n > 0 {
      LiveCellsBounded(cells, cols, n - 1);
    }
  }

  /** Slots in increasing order are cells in increasing row-major order. */
  lemma CellAtOrdered(i: nat, j: nat, cols: nat)
    requires cols > 0 && i < j
    ensures RowMajorBefore(CellAt(i, cols), CellAt(j, cols))
  {
    var qi, qj := i / cols, j / cols;
    assert (qi - qj) * cols == (j % cols - i % cols) - (j - i);
    MulAtLeast(qi - qj, cols);
  }

  /** The draw pass shows the live cells in strictly increasing row-major
      order, so each cell at most once. */
  lemma {:induction false} LiveCellsOrdered(cells: seq<bool>, cols: nat, n: nat)
    requires cols > 0 && n <= |cells|
    ensures forall a, b | 0 <= a < b < |LiveCells(cells, cols, n)| ::
              RowMajorBefore(LiveCells(cells, cols, n)[a], LiveCells(cells, cols, n)[b])
  {
    if n > 0 {
      var prev := LiveCells(cells, cols, n - 1);
      LiveCellsOrdered(cells, cols, n - 1);
      if cells[n - 1] {
        LiveCellsBounded(cells, cols, n - 1);
        var last := CellAt(n - 1, cols);
        forall a | 0 <= a < |prev|
          ensures RowMajorBefore(prev[a], last)
        {
          assert prev[a] == CellAt(FlatIndex(prev[a].row, prev[a].col, cols), cols);
          CellAtOrdered(FlatIndex(prev[a].row, prev[a].col, cols), n - 1, cols);
        }
      }
    }
  }

  /** After slot `i` is seeded, the draw pass shows what it showed before
      plus the cell of slot `i`, and nothing else. */
  lemma SeedShowsCell(cells: seq<bool>, cols: nat, i: nat, c: Cell)
    requires cols > 0 && i < |cells|
    ensures c in LiveCells(Seeded(cells, i), cols, |cells|) <==>
            c in LiveCells(cells, cols, |cells|) || c == CellAt(i, cols)
  {
    LiveCellsMember(cells, cols, |cells|, c);
    LiveCellsMember(Seeded(cells, i), cols, |cells|, c);
  }

  /** A click on the screen makes the draw pass show the clicked cell in
      addition to the cells it showed before, and nothing else. */
  lemma ClickShowsCell(cells: seq<bool>, x: nat, y: nat, size: nat, c: Cell)
    requires size > 0 && OnScreen(x, y)
    requires |cells| == SquaresAcross(ScreenHeight, size) * SquaresAcross(ScreenWidth, size)
    ensures c in LiveCells(Seeded(cells, ClickSlot(x, y, size)), SquaresAcross(ScreenWidth, size), |cells|) <==>
            c in LiveCells(cells, SquaresAcross(ScreenWidth, size), |cells|) || c == ClickCell(x, y, size)
  {
    SeedShowsCell(cells, SquaresAcross(ScreenWidth, size), ClickSlot(x, y, size), c);
  }

  // ---------------------------------------------------------------------
  // Positions on screen (half-pixel units)
  // ---------------------------------------------------------------------

  /** Vertical grid line `i`: at `size * i + offset.x / 2`, from
      `offset.y / 2` down to `screenHeight - offset.y / 2`. */
  function VerticalLine(i: nat, size: nat): Segment
    requires size > 0
  {
    var x := 2 * size * i + Margin(ScreenWidth, size);
    Segment(Point(x, Margin(ScreenHeight, size)), Point(x, 2 * ScreenHeight - Margin(ScreenHeight, size)))
  }

  /** Horizontal grid line `i`: at `size * i + offset.y / 2`, from
      `offset.x / 2` across to `screenWidth - offset.x / 2`. */
  function HorizontalLine(i: nat, size: nat): Segment
    requires size > 0
  {
    var y := 2 * size * i + Margin(ScreenHeight, size);
    Segment(Point(Margin(ScreenWidth, size), y), Point(2 * ScreenWidth - Margin(ScreenWidth, size), y))
  }

  /** Top-left corner of the square drawn for cell `c`. */
  function SquareOrigin(c: Cell, size: nat): Point
    requires size > 0
  {
    Point(2 * size * c.col + Margin(ScreenWidth, size), 2 * size * c.row + Margin(ScreenHeight, size))
  }

  /** Grid line `i` along an extent sits half the margin plus `i` squares
      in; every one of the `SquaresAcross` lines lies on the screen. */
  lemma {:induction false} LineWithinExtent(i: nat, extent: nat, size: nat)
    requires size > 0 && i < SquaresAcross(extent, size)
    ensures 0 <= 2 * size * i + Margin(extent, size) <= 2 * extent
  {
    var n := SquaresAcross(extent, size);
    assert size * i <= size * (n - 1) by {
      MulAtLeast(n - 1 - i, size);
      assert size * (n - 1) - size * i == (n - 1 - i) * size;
    }
  }

  /** The grid lines are centred on the screen: the first vertical line is
      half the margin from the left edge and the last one half the margin
      from the right edge; likewise for the horizontal lines. */
  lemma GridLinesCentred(size: nat)
    requires size > 0
    ensures VerticalLine(0, size).from.x == Margin(ScreenWidth, size)
    ensures VerticalLine(SquaresAcross(ScreenWidth, size) - 1, size).from.x
            == 2 * ScreenWidth - Margin(ScreenWidth, size)
    ensures HorizontalLine(0, size).from.y == Margin(ScreenHeight, size)
    ensures HorizontalLine(SquaresAcross(ScreenHeight, size) - 1, size).from.y
            == 2 * ScreenHeight - Margin(ScreenHeight, size)
  {
  }

  /** Every grid line the draw pass emits lies on the screen, and each runs
      between the two margins across the screen. */
  lemma {:induction false} GridLinesOnScreen(size: nat)
    requires size > 0
    ensures forall i | 0 <= i < SquaresAcross(ScreenWidth, size) ::
              0 <= VerticalLine(i, size).from.x <= 2 * ScreenWidth &&
              0 <= VerticalLine(i, size).from.y <= VerticalLine(i, size).to.y <= 2 * ScreenHeight
    ensures forall i | 0 <= i < SquaresAcross(ScreenHeight, size) ::
              0 <= HorizontalLine(i, size).from.y <= 2 * ScreenHeight &&
              0 <= HorizontalLine(i, size).from.x <= HorizontalLine(i, size).to.x <= 2 * ScreenWidth
  {
    forall i | 0 <= i < SquaresAcross(ScreenWidth, size)
      ensures 0 <= VerticalLine(i, size).from.x <= 2 * ScreenWidth
    {
      LineWithinExtent(i, ScreenWidth, size);
    }
    forall i | 0 <= i < SquaresAcross(ScreenHeight, size)
      ensures 0 <= HorizontalLine(i, size).from.y <= 2 * ScreenHeight
    {
      LineWithinExtent(i, ScreenHeight, size);
    }
  }

  /** The square of every cell starts where its column's vertical line
      meets its row's horizontal line. */
  lemma SquareOnGridCorner(c: Cell, size: nat)
    requires size > 0
    ensures SquareOrigin(c, size).x == VerticalLine(c.col, size).from.x
    ensures SquareOrigin(c, size).y == HorizontalLine(c.row, size).from.y
  {
  }

  /** The square drawn for a clicked cell is shifted right and down from
      the click's pixel box by half the margins. So the click point lies
      inside that square, along each axis, exactly when its distance from
      the box's leading edge is at least half the margin: with a zero
      margin every click is inside, with a non-zero one the clicks in the
      first `offset / 2` pixels of a box fall outside. */
  lemma ClickInsideSquare(x: nat, y: nat, size: nat)
    requires size > 0
    ensures var o := SquareOrigin(ClickCell(x, y, size), size);
            (o.x <= 2 * x < o.x + 2 * size) <==> Margin(ScreenWidth, size) <= 2 * (x % size)
    ensures var o := SquareOrigin(ClickCell(x, y, size), size);
            (o.y <= 2 * y < o.y + 2 * size) <==> Margin(ScreenHeight, size) <= 2 * (y % size)
  {
    InsideAlongAxis(x, size, Margin(ScreenWidth, size));
    InsideAlongAxis(y, size, Margin(ScreenHeight, size));
  }

  /** One axis of ClickInsideSquare: pixel `p`, whose box starts at
      `size * (p / size)`, against a square shifted by half of `m`. */
  lemma InsideAlongAxis(p: nat, size: nat, m: nat)
    requires size > 0
    ensures (2 * size * (p / size) + m <= 2 * p < 2 * size * (p / size) + m + 2 * size)
            <==> m <= 2 * (p % size)
  {
    var q, r := p / size, p % size;
    assert 2 * size * q == 2 * (q * size);
    assert 2 * p == 2 * (q * size) + 2 * r;
  }

  /** With both margins zero every click lies inside its cell's square. */
  lemma ClickInsideSquareWithoutMargins(x: nat, y: nat, size: nat)
    requires size > 0 && Margin(ScreenWidth, size) == 0 && Margin(ScreenHeight, size) == 0
    ensures var o := SquareOrigin(ClickCell(x, y, size), size);
            o.x <= 2 * x < o.x + 2 * size && o.y <= 2 * y < o.y + 2 * size
  {
    ClickInsideSquare(x, y, size);
  }
}
