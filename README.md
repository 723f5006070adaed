# Conway's Game of Life: the gameplay screen's cell grid

This project models the cell grid of the gameplay screen
(`ConwayGameOfLife/screens/screen_gameplay.c`) and proves properties of it.
The screen is a fixed 800x450 pixels, cut into squares of side `SQUARE_SIZE`.
Its grid state is:

- the grid dimensions `numSquareCols` and `numSquareRows`;
- the leftover margin `offset`;
- `pDrawArray`, a flat row-major buffer with one `bool` per cell.

The screen has three operations:

- **Init** sizes the grid and allocates the buffer.
- **Update** handles a left click: it maps the pixel to a cell and sets that
  cell alive with an unchecked pointer write.
- **Draw** emits the grid lines, then walks the buffer row by row and draws a
  square for each live cell.

The model is split into two modules:

- `Grid` (`grid.dfy`) holds the pure arithmetic and the properties proved
  about it:
  - grid sizing and margins;
  - row-major indexing and its inverse;
  - the pixel-to-cell mapping;
  - seeding a slot;
  - the sequence of cells the draw pass shows;
  - where the lines and squares land, in half-pixel units. The source draws
    at `offset / 2`, so doubling every coordinate keeps positions exact.
- `Gameplay` (`gameplay.dfy`) holds the screen state as the class
  `GameplayScreen`. Its fields are `squareSize`, `offsetX`, `offsetY`,
  `numSquareCols`, `numSquareRows` and the buffer `drawArray: array<bool>`.
  - The constructor `Init` models `InitGameplayScreen`.
  - `Update` writes the buffer in place.
  - `Draw` has the same nested loops as `DrawGameplayScreen` and returns what
    they emit as a `Frame`.

`SQUARE_SIZE` is defined in `screens.h`, which is not part of this model. It
is a parameter of `Init`, required to be positive, so every result holds for
every positive square size.

Main results:

- Every on-screen click writes inside the buffer (`ClickInBuffer`,
  `ClickSlot`).
- A click changes exactly the clicked cell and nothing else (`Update`,
  `Seeded`).
- Seeding the same cell again changes nothing (`SeedIdempotent`).
- The draw pass shows exactly the live cells, in strictly increasing
  row-major order, so each cell at most once (`Draw`, `LiveCellsMember`,
  `LiveCellsOrdered`).
- The grid lines are centred on the screen (`GridLinesCentred`).

Observations about the code that the model makes precise:

- The grid has one more column and one more row than fit whole
  (`SquaresAcross`). The last column starts at the last vertical line and
  runs past the screen edge. When the square size divides 800, no on-screen
  click can reach that column (`LastColumnUnclickable`). Its slots then keep
  whatever the allocation left there, and the draw pass shows those slots
  too.
- A click maps to its cell from the screen's top-left corner. The square for
  that cell is drawn half a margin to the right and down. Along each axis,
  the click lies inside that square exactly when it is at least half a
  margin from its pixel box's leading edge (`ClickInsideSquare`). So when
  both margins are zero every click lies inside its cell's drawn square
  (`ClickInsideSquareWithoutMargins`). With a non-zero margin, clicks in the
  first `offset / 2` pixels of a box fall outside it.
- The buffer comes from `malloc` and is never cleared
  (`screen_gameplay.c:64`), so `Init` promises nothing about its contents.
- The write at `screen_gameplay.c:77` has no bounds check. `ClickInBuffer`
  proves that every on-screen click still writes inside the buffer.

## Model

| member | source | states |
|---|---|---|
| `Grid.SquaresAcross` | ConwayGameOfLife/screens/screen_gameplay.c:62-63 | the number of squares along an extent is at least 1 and is the least count whose span strictly exceeds the extent: `(n-1)*size <= extent < n*size` |
| `Grid.Margin` | ConwayGameOfLife/screens/screen_gameplay.c:58-59 | the offset is less than one square, and the offset plus the `n-1` whole squares exactly fill the extent |
| `Grid.FlatIndex` | ConwayGameOfLife/screens/screen_gameplay.c:77 | the row-major slot of (row, col) gives back the row as its quotient by `cols` and the column as its remainder |
| `Grid.CellAt` | ConwayGameOfLife/screens/screen_gameplay.c:101-105 | the inverse of the row-major index: the cell of slot `i` has an in-range column and its slot is `i` |
| `Grid.DivModOfFlat` | ConwayGameOfLife/screens/screen_gameplay.c:77 | `(row*cols + col) / cols == row` and `% cols == col` whenever `col < cols` |
| `Grid.FlatIndexInjective` | ConwayGameOfLife/screens/screen_gameplay.c:77 | distinct in-range (row, col) pairs have distinct slots, in both directions of the equivalence |
| `Grid.FlatIndexInGrid` | ConwayGameOfLife/screens/screen_gameplay.c:64-77 | the slot of a cell inside a rows x cols grid lies inside the rows*cols buffer |
| `Grid.VisitedWithinGrid` | ConwayGameOfLife/screens/screen_gameplay.c:101-105 | the number of slots before (row, col) in row-major order never exceeds the buffer size |
| `Grid.ClickCell` | ConwayGameOfLife/screens/screen_gameplay.c:75-76 | the clicked cell is the square whose pixel box, counted from the top-left corner, holds the click |
| `Grid.ClickInBuffer` | ConwayGameOfLife/screens/screen_gameplay.c:75-77 | for any click with `0 <= x < 800` and `0 <= y < 450`, `row < numSquareRows`, `col < numSquareCols` and the written slot is below `numSquareRows * numSquareCols` |
| `Grid.ClickSlot` | ConwayGameOfLife/screens/screen_gameplay.c:75-77 | the slot an on-screen click writes lies inside the buffer and holds exactly the clicked cell |
| `Grid.LastColumnUnclickable` | ConwayGameOfLife/screens/screen_gameplay.c:62-76 | when the square size divides the screen width, no on-screen click reaches the last column |
| `Grid.Seeded` | ConwayGameOfLife/screens/screen_gameplay.c:77 | after seeding, the buffer has the same length, the seeded slot is alive and every other slot is unchanged |
| `Grid.SeedIdempotent` | ConwayGameOfLife/screens/screen_gameplay.c:77 | seeding the same slot twice gives the same buffer as seeding it once |
| `Grid.SeedLiveIsNoop` | ConwayGameOfLife/screens/screen_gameplay.c:77 | seeding a slot that is already alive leaves the buffer unchanged |
| `Grid.LiveCellsMember` | ConwayGameOfLife/screens/screen_gameplay.c:101-111 | a cell is shown by the draw pass if and only if its column is in range, its slot has been visited and that slot is true |
| `Grid.LiveCellsBounded` | ConwayGameOfLife/screens/screen_gameplay.c:101-105 | the draw pass shows no more squares than slots visited, and every shown cell is in range |
| `Grid.LiveCellsOrdered` | ConwayGameOfLife/screens/screen_gameplay.c:101-103 | the shown cells come in strictly increasing row-major order, so no cell is shown twice |
| `Grid.CellAtOrdered` | ConwayGameOfLife/screens/screen_gameplay.c:101-103 | increasing slots are cells in increasing row-major order |
| `Grid.SeedShowsCell` | ConwayGameOfLife/screens/screen_gameplay.c:77-105 | after a slot is seeded, the shown cells are the ones shown before plus that slot's cell, and nothing else |
| `Grid.ClickShowsCell` | ConwayGameOfLife/screens/screen_gameplay.c:72-111 | after an on-screen click, the draw pass shows the clicked cell in addition to what it showed before, and nothing else |
| `Grid.LineWithinExtent` | ConwayGameOfLife/screens/screen_gameplay.c:87-99 | each of the grid lines along an extent lies between 0 and the extent |
| `Grid.GridLinesCentred` | ConwayGameOfLife/screens/screen_gameplay.c:87-99 | the first line is half a margin from one edge and the last is half a margin from the other, both vertically and horizontally |
| `Grid.GridLinesOnScreen` | ConwayGameOfLife/screens/screen_gameplay.c:87-99 | every vertical and every horizontal line lies on the screen, and each runs between the two margins |
| `Grid.SquareOnGridCorner` | ConwayGameOfLife/screens/screen_gameplay.c:89-107 | each cell's square starts where its column's vertical line meets its row's horizontal line |
| `Grid.ClickInsideSquare` | ConwayGameOfLife/screens/screen_gameplay.c:75-107 | along each axis, the click point lies inside the square drawn for its cell if and only if it is at least half a margin from its pixel box's leading edge |
| `Grid.ClickInsideSquareWithoutMargins` | ConwayGameOfLife/screens/screen_gameplay.c:75-107 | when both margins are zero, every click lies inside the square drawn for its cell |
| `Gameplay.GameplayScreen.Init` | ConwayGameOfLife/screens/screen_gameplay.c:53-67 | after init, `offset` is the remainder of 800 and 450 by the square size (so each is less than one square), `numSquareCols == 800/size + 1`, `numSquareRows == 450/size + 1`, and a fresh buffer holds `numSquareRows*numSquareCols` slots with unspecified contents |
| `Gameplay.GameplayScreen.Update` | ConwayGameOfLife/screens/screen_gameplay.c:70-79 | with the left button pressed, the buffer becomes the old buffer with the clicked cell's slot set alive, and every other slot is unchanged; without a press, the buffer is unchanged; the grid invariant is kept |
| `Gameplay.GameplayScreen.Draw` | ConwayGameOfLife/screens/screen_gameplay.c:82-114 | emits `numSquareCols` vertical and `numSquareRows` horizontal lines at their computed positions, and one square per live cell, in row-major order, each at the half-pixel corner `SquareOrigin` of line 107 |

## Left out

- The generation step: neighbour counting, the rule, double buffering and the seeding/running/stopped phases do not occur in this code.
- raylib calls: `IsMouseButtonPressed` and `GetMousePosition` become the `Update` parameters. `DrawLineV` and `DrawRectangleV` become the segments and cells returned in a `Frame`. The full-screen black `DrawRectangle` and the colours are not modelled.
- Floating point: mouse coordinates are taken as whole non-negative pixels. Truncating the float quotient toward zero then equals floor division. Positions are exact in half-pixel units, with no rounding.
- `malloc` failure and `free`: the allocation in `InitGameplayScreen` is unchecked, and `Init` always succeeds. `UnloadGameplayScreen` (freeing the buffer) is not modelled because Dafny's heap is garbage-collected.
- `Gameplay.GameplayScreen.Update`: requires a pressed click to lie on the 800x450 screen, as the window reports it. A press reported far enough off the screen could write into another row's slot or outside the buffer. That case is not modelled.
- The state before `InitGameplayScreen` runs (zero dimensions, a null buffer) is not modelled. Calling `Update` or `Draw` before init is not possible in the model.
- A second `InitGameplayScreen` without an unload in between leaks the old buffer. The model allocates a new object instead.
- `framesCounter`, `finishScreen` and `FinishGameplayScreen` are only zeroed and returned.
- `mousePoint` (lines 40 and 74) only carries the mouse position into the row and column computation. The model passes that position to `Update` directly and keeps no copy of it.
- `squareVector` (lines 41 and 108) is the constant square size handed to `DrawRectangleV`. Every drawn square has side `squareSize`, so `Frame` records only each square's corner.
- `ConwayGameOfLife/screens/screen_options.c` is not part of this model. It is screen-transition plumbing and text drawing.
