/** The gameplay screen: the module-level state of the screen (cell size,
    margins, grid dimensions and the cell buffer) as one object, with its
    initialisation, its per-frame update (a left click seeds a cell in
    place) and its draw pass (grid lines, then one square per live cell). */
module Gameplay {
  import opened Grid

  /** What one draw pass emits: the vertical and horizontal grid lines in
      drawing order, the cells whose squares are filled, in drawing order,
      and beside each such cell the top-left corner its square is drawn at
      (in half-pixel units). */
  datatype Frame = Frame(vertical: seq<Segment>, horizontal: seq<Segment>,
                         squares: seq<Cell>, positions: seq<Point>)

  class GameplayScreen {
    /** Side of one square in pixels (the compile-time SQUARE_SIZE). */
    const squareSize: nat
    /** Pixels left over across and down the screen (`offset`). */
    var offsetX: nat
    var offsetY: nat
    var numSquareCols: nat
    var numSquareRows: nat
    /** The row-major cell buffer; a cell is alive when its slot is true. */
    var drawArray: array<bool>

    /** The state every operation after initialisation relies on. */
    ghost predicate Valid()
      reads this
    {
      squareSize > 0 &&
      offsetX == Margin(ScreenWidth, squareSize) &&
      offsetY == Margin(ScreenHeight, squareSize) &&
      numSquareCols == SquaresAcross(ScreenWidth, squareSize) &&
      numSquareRows == SquaresAcross(ScreenHeight, squareSize) &&
      drawArray.Length == numSquareRows * numSquareCols
    }

    /** The cells as the draw pass reads them. */
    ghost function Cells(): seq<bool>
      reads this, drawArray
    {
      drawArray[..]
    }

    /** Screen initialisation: the margins are the remainders of the screen
        size by the square size, the grid has one more square each way than
        fits whole, and a fresh buffer holds one slot per cell. The buffer's
        contents are left unspecified, as freshly allocated memory is. */
    constructor Init(size: nat)
      requires size > 0
      ensures Valid() && fresh(drawArray)
      ensures squareSize == size
      ensures offsetX == ScreenWidth % size && offsetY == ScreenHeight % size
      ensures offsetX < size && offsetY < size
      ensures numSquareCols == ScreenWidth / size + 1
      ensures numSquareRows == ScreenHeight / size + 1
      ensures drawArray.Length == numSquareRows * numSquareCols
    {
      squareSize := size;
      offsetX := ScreenWidth % size;
      offsetY := ScreenHeight % size;
      numSquareCols := ScreenWidth / size + 1;
      numSquareRows := ScreenHeight / size + 1;
      drawArray := new bool[(ScreenHeight / size + 1) * (ScreenWidth / size + 1)];
    }

    /** Per-frame update. With the left button pressed at on-screen pixel
        (mouseX, mouseY), the clicked cell's slot is set alive and every other
        slot keeps its value; otherwise nothing changes. */
    method Update(leftPressed: bool, mouseX: nat, mouseY: nat)
      requires Valid()
      requires leftPressed ==> OnScreen(mouseX, mouseY)
      modifies drawArray
      ensures Valid()
      ensures leftPressed ==> Cells() == Seeded(old(Cells()), ClickSlot(mouseX, mouseY, squareSize))
      ensures !leftPressed ==> Cells() == old(Cells())
    {
      if leftPressed {
        var row := mouseY / squareSize;
        var col := mouseX / squareSize;
        ClickInBuffer(mouseX, mouseY, squareSize);
        drawArray[FlatIndex(row, col, numSquareCols)] := true;
      }
    }

    /** The draw pass. It emits `numSquareCols` vertical and `numSquareRows`
        horizontal grid lines, then visits every (row, col) in row-major
        order and emits a square for exactly the live cells, each at the
        corner where its column's and its row's grid lines meet. */
    method Draw() returns (frame: Frame)
      requires Valid()
      ensures |frame.vertical| == numSquareCols
      ensures forall i | 0 <= i < numSquareCols :: frame.vertical[i] == VerticalLine(i, squareSize)
      ensures |frame.horizontal| == numSquareRows
      ensures forall i | 0 <= i < numSquareRows :: frame.horizontal[i] == HorizontalLine(i, squareSize)
      ensures frame.squares == LiveCells(Cells(), numSquareCols, drawArray.Length)
      ensures |frame.positions| == |frame.squares|
      ensures forall k | 0 <= k < |frame.squares| :: frame.positions[k] == SquareOrigin(frame.squares[k], squareSize)
    {
      var vertical: seq<Segment> := [];
      for i := 0 to ScreenWidth / squareSize + 1
        invariant |vertical| == i
        invariant forall k | 0 <= k < i :: vertical[k] == VerticalLine(k, squareSize)
      {
        vertical := vertical + [VerticalLine(i, squareSize)];
      }

      var horizontal: seq<Segment> := [];
      for i := 0 to ScreenHeight / squareSize + 1
        invariant |horizontal| == i
        invariant forall k | 0 <= k < i :: horizontal[k] == HorizontalLine(k, squareSize)
      {
        horizontal := horizontal + [HorizontalLine(i, squareSize)];
      }

      var cells, rows, cols := drawArray, numSquareRows, numSquareCols;
      ghost var all := cells[..];
      var squares: seq<Cell> := [];
      var positions: seq<Point> := [];
      for row := 0 to rows
        invariant row * cols <= |all|
        invariant squares == LiveCells(all, cols, row * cols)
        invariant |positions| == |squares|
        invariant forall k | 0 <= k < |squares| :: positions[k] == SquareOrigin(squares[k], squareSize)
      {
        for col := 0 to cols
          invariant row * cols + col <= |all|
          invariant squares == LiveCells(all, cols, row * cols + col)
          invariant |positions| == |squares|
          invariant forall k | 0 <= k < |squares| :: positions[k] == SquareOrigin(squares[k], squareSize)
        {
          VisitedWithinGrid(row, col + 1, rows, cols);
          var i := FlatIndex(row, col, cols);
          if cells[i] {
            squares := squares + [Cell(row, col)];
            positions := positions + [Point(2 * squareSize * col + offsetX, 2 * squareSize * row + offsetY)];
          }
        }
        assert row * cols + cols == (row + 1) * cols;
      }
      frame := Frame(vertical, horizontal, squares, positions);
    }
  }
}
