# City builder tile grid, modelled in Dafny

The program is a small city-builder toy. A 15 × 20 grid of tiles, a cash
balance and a selected build tool live in one `Game` object. Once per frame,
`Update` reads the mouse and the keys 0–4. A left click on a cell either places
the selected tile, if the balance covers its price, or erases the cell and
refunds the price of the tile it held. Keys 0–4 then select the tool for the
next frame. `Draw` paints one rectangle per non-empty cell.

The project has four modules:

- `Tiles` (`tiles.dfy`) holds the constants, the tile kinds and the price and
  footprint maps. A lookup of a missing key yields Go's zero value. It also
  defines Go's truncating integer division, which turns a cursor pixel into a
  tile coordinate.
- `City` (`city.dfy`) is the frame as values. `State` holds the rows of cells,
  the balance and the tool. `Step` is one call of `Update`, and `Run` is a
  sequence of frames. The properties of the game are proved here as lemmas:
  bounds, placement, erase and refund, tool priority, the wealth invariant, and
  what holds after any run from a new game.
- `Render` (`render.dfy`) builds the draw list as values. It proves that the
  list holds exactly the non-empty cells, at their pixel origins and with their
  footprints, in row-major order.
- `GameState` (`game.dfy`) is the `Game` class. Its fields are `grid:
  array2<TileType>`, `balance: int` and `buildMode: TileType`, updated in
  place. `NewGame` is proved to build `City.Initial`, `Update` to compute
  `City.Step`, and `Draw` to return `Render.DrawList` of the grid. `Valid()` is
  the object invariant. `NewGame` establishes it and `Update` keeps it:
  - the grid is 15 × 20 and no cell holds `Erase`;
  - the balance is never negative;
  - the balance, plus the price of every tile on the grid, plus the ghost total
    `lost`, equals the initial 1000. `lost` is the price of tiles destroyed by
    placing over them.

  The click half of `Update` (`main.go:63-79`) is the separate method
  `HandleClick`, which `Update` calls before selecting the tool. The source
  writes this code inline. `HandleClick` and `RefundAfterErase` are steps
  inside `Update`. They need only the grid's shape, not `Valid()`, and they are
  stated against `City.ApplyClick` and `Tiles.Price`. Their contracts do
  not mention `Valid()`. `RefundAfterErase` alone breaks it: it raises the
  balance before the cell is cleared, so for a moment the balance and the grid
  count the erased tile twice.

The polled inputs are parameters of `Update`: the left mouse button, the cursor
position and the five key states. `Draw` returns the rectangles it would paint
and does not call a graphics API.

## Model

| member | source | states |
|---|---|---|
| `Tiles.Price` | main.go:35-40 | A tile's price is never negative. It is positive exactly for Road, House, Hospital and Farm. It is 0 exactly for the kinds with no map entry (Empty and Erase), because Go's map lookup returns 0 for a missing key. |
| `Tiles.TileSizeOf` | main.go:42-47 | Each placeable kind has a square footprint at least one tile wide. Empty and Erase have no map entry, so they get the zero size `{0, 0}`. |
| `Tiles.TruncDiv` | main.go:66 | Go's `x / tileSize` rounds toward zero. The remainder `a - q*b` has the sign of `a` and is smaller in magnitude than `b`. |
| `Tiles.CellOfInRange` | main.go:66-67 | A tile coordinate lands in `[0, n)` exactly when the pixel lies strictly between `-32` and `n*32`. Pixels -31..-1 therefore map to tile 0 and pass the bounds check. |
| `Tiles.NegativeCursorTruncates` | main.go:66 | A cursor at x = -5 gives tile 0. Dafny's Euclidean `/` would give -1. |
| `City.EmptyGrid` | main.go:50 | The zero-valued grid is 15 × 20 and every cell is Empty. |
| `City.Initial` | main.go:55-60 | The state `NewGame` returns has a 15 × 20 grid in which every cell is Empty, because the grid is zero-valued. `City.InitialInvariant` proves that this state meets the invariant. |
| `City.Target` | main.go:65-67 | A cursor position selects a cell exactly when `-32 < x < 640` and `-32 < y < 480`. The cell is then `(y/32, x/32)` with truncating division, and it lies on the grid. |
| `City.ApplyClick` | main.go:64-79 | A click keeps the grid's shape and never changes the selected tool. |
| `City.Click` | main.go:68-77 | A click on an on-grid cell keeps the grid's shape. It never makes a non-negative balance negative, and it never writes Erase into a cell. `ClickPlaces`, `ClickErases` and `ClickFrame` give its effect on the cell, the balance and the other cells. |
| `City.SelectTool` | main.go:82-93 | The tool after the key `switch` is either the previous tool or a key's tool, and a key never selects Empty. `SelectToolPicksLowestKey` states which key wins. |
| `City.Step` | main.go:62-96 | One call of `Update` keeps the grid's shape. Its behaviour is stated by `StepSelectsTool` (the next tool), `KeysDoNotAffectClick` (the click uses the tool from before the frame), `StepWealth` and `StepPreservesInvariant`. |
| `City.ClickOnlyInBounds` | main.go:64-67 | With no button press, or with the cursor off the grid, the frame changes neither the grid nor the balance. |
| `City.ClickFrame` | main.go:67-78 | A click changes no cell except the targeted one, and it leaves the tool as it was. |
| `City.ClickPlaces` | main.go:71-77 | A placeable tool with enough balance sets the cell to that tool, whatever the cell held, with no refund. The balance drops by exactly the tool's price. Without enough balance the state is unchanged. |
| `City.ClickErases` | main.go:68-70 | Erase sets the cell to Empty and adds the price of the removed tile to the balance, whatever the balance was. Erasing an Empty cell leaves the whole state unchanged. |
| `City.EraseIdempotent` | main.go:68-70 | Erasing the same cell twice gives the same state as erasing it once. |
| `City.PlaceThenEraseRestoresBalance` | main.go:67-93 | One frame places the tile and presses key 0, so the click uses the old tool and the frame ends with Erase selected. A click on the same cell in the next frame clears it and restores the balance from before the placement. |
| `City.FirstPressed` | main.go:82-93 | Returns the lowest index of a pressed key, or none when no key is pressed. |
| `City.SelectToolPicksLowestKey` | main.go:82-93 | The `switch` picks the tool of the lowest-numbered pressed key (0 = Erase, 1 = Road, 2 = House, 3 = Hospital, 4 = Farm). It keeps the current tool when no key is pressed. |
| `City.StepSelectsTool` | main.go:81-93 | After `Update` the tool is that of the lowest pressed key, or the previous tool if no key is pressed. |
| `City.KeysDoNotAffectClick` | main.go:63-93 | The keys of a frame do not affect that frame's click. The grid and the balance depend only on the button and the cursor. |
| `City.SetCellWorth` | main.go:70-75 | Replacing one cell changes the total price of the grid by the new tile's price minus the old tile's price. |
| `City.StepWealth` | main.go:67-78 | One frame keeps balance plus grid worth constant, except when a placement overwrites a tile. The wealth then drops by that tile's price. |
| `City.InitialInvariant` | main.go:55-60 | The new game meets the invariant. The grid is 15 × 20 with no Erase cell, the balance is 1000, and the wealth is 1000 with nothing lost. |
| `City.StepPreservesInvariant` | main.go:64-79 | Every frame keeps the invariant. It carries the price of any overwritten tile into the lost total. A frame loses wealth exactly when it places over an occupied cell. |
| `City.Run` | main.go:62-96 | The state after a sequence of `Update` calls keeps the grid's shape. `RunPreservesInvariant` and `NewGameRun` state what holds after any run. |
| `City.RunPreservesInvariant` | main.go:62-96 | Any sequence of frames keeps the invariant. The lost total is positive exactly when some frame overwrote a tile. |
| `City.NewGameRun` | main.go:55-96 | From `NewGame`, after any frames, the balance stays in `[0, 1000]` and no cell holds Erase. The wealth never exceeds 1000. It equals 1000 exactly when no frame placed over an occupied cell. |
| `City.ScenarioRoadRoundTrip` | main.go:64-101 | From a new game: a click at (0,0) places a Road, leaving 998. A key-0 frame selects Erase. A second click erases the Road and returns the balance to 1000. |
| `City.ScenarioInsufficientFunds` | main.go:72-76 | With a balance of 10, a House (price 50) is not placed and nothing changes. |
| `City.ScenarioOffGrid` | main.go:66-67 | Pixel (799, 599) is column 24, so the click is off the grid. |
| `Render.CellRect` | main.go:114-129 | The rectangle of tile `t` at cell `(row, col)` carries `t` and has a square footprint. The footprint is at least one tile wide for a placeable kind and 0 for the kinds with no size entry. Its origin lies in the cell `(row, col)`. |
| `Render.CellRectDrawn` | main.go:114-129 | A non-empty cell's rectangle sits at `(col*32, row*32)` with its tile's footprint. It is drawn at the cell's row-major position. |
| `Render.DrawList` | main.go:107-131 | The frame's draw list has at most one rectangle per cell. `DrawListSpec` states which rectangles it holds and in what order, and `Game.Draw` is proved to return it. |
| `Render.DrawListSpec` | main.go:107-131 | The draw list holds every non-empty cell's rectangle and nothing else. The rectangles come in strictly increasing row-major order, so each cell appears once. |
| `Render.EmptyGridDrawsNothing` | main.go:107-112 | An all-Empty grid draws no rectangle. |
| `GameState.Game.NewGame` | main.go:55-60 | Creates an all-Empty grid with balance 1000 and tool Road. The object invariant holds and nothing is lost yet. |
| `GameState.Game.RefundAfterErase` | main.go:98-101 | Adds the price of the tile at `(ty, tx)` to the balance. It changes nothing else, and an Empty cell refunds 0. |
| `GameState.Game.HandleClick` | main.go:63-79 | The in-place click changes the grid and the balance exactly as `City.ApplyClick` does. It adds the price of an overwritten tile to `lost`. |
| `GameState.Game.Update` | main.go:62-96 | One in-place frame leaves the object in the state `City.Step` computes from the old state and the polled inputs, on the same grid array. It keeps the object invariant. |
| `GameState.Game.Draw` | main.go:106-131 | The nested row and column loops produce exactly `Render.DrawList` of the grid. |

## Left out

- Input polling (`IsMouseButtonPressed`, `CursorPosition`, `IsKeyPressed`) is not modelled. Its results are parameters of `Update`.
- Painting is not modelled: `screen.Fill`, `ebitenutil.DrawRect`, the RGBA colour table and the `float64` conversions are foreign graphics calls and floating point. `Draw` returns the rectangles with integer coordinates instead. Each rectangle carries its tile kind, which is what picks the colour.
- The UI text is not modelled: the `toolName` map, `DebugPrintAt` and the `strconv.Itoa` formatting of the balance are presentation only.
- `Layout`, `main`, `SetWindowTitle`, `RunGame` and `log.Fatal` are not modelled. They are window and process plumbing.
- `GameState.Game.Update`: the `error` result is dropped, because the source always returns `nil`.
- The integer codes of `TileType` (Empty = 0 … Farm = 4, Erase = 99) are not modelled. No behaviour depends on them, so the kinds are plain datatype constructors.
- Go's 64-bit `int` width is not modelled. `City.NewGameRun` proves the balance stays in `[0, 1000]`. The cursor coordinates are only divided, so nothing can overflow.
- No alternative pricing policy, such as a flat cost per placement, is modelled. Only the per-tile price and refund behaviour exists in this code.
