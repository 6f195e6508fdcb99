/**
 The per-frame state machine of the city builder, as values: the grid of tile
 kinds, the balance and the selected tool, and what one frame of input does to
 them. `Game.Update` in the class model is proved to compute `Step`; the
 properties of the game are proved here, about `Step`.
 */
module City {
  import opened Tiles

  datatype Option<T> = None | Some(value: T)

  /** `NewGame` starts with this balance. */
  const InitialBalance := 1000

  /** The grid as rows of cells, indexed `cells[row][col]` as `g.grid[ty][tx]`. */
  type Cells = seq<seq<TileType>>

  predicate IsGrid(c: Cells) {
    |c| == GridHeight && forall y :: 0 <= y < |c| ==> |c[y]| == GridWidth
  }

  predicate InGrid(row: int, col: int) {
    0 <= row < GridHeight && 0 <= col < GridWidth
  }

  /** No cell holds the Erase tool value. */
  predicate NoErase(c: Cells)
    requires IsGrid(c)
  {
    forall y, x :: 0 <= y < GridHeight && 0 <= x < GridWidth ==> c[y][x] != Erase
  }

  /** The zero value of `[gridHeight][gridWidth]TileType`. */
  function EmptyGrid(): (c: Cells)
    ensures IsGrid(c)
    ensures forall y, x :: InGrid(y, x) ==> c[y][x] == Empty
  {
    seq(GridHeight, _ => seq(GridWidth, _ => Empty))
  }

  /** Two grids are equal when they agree on every cell. */
  lemma SameCells(a: Cells, b: Cells)
    requires IsGrid(a) && IsGrid(b)
    requires forall y, x :: InGrid(y, x) ==> a[y][x] == b[y][x]
    ensures a == b
  {
    forall y | 0 <= y < GridHeight
      ensures a[y] == b[y]
    {
      assert forall x :: 0 <= x < GridWidth ==> a[y][x] == b[y][x];
    }
  }

  datatype State = State(cells: Cells, balance: int, mode: TileType)

  /** The state `NewGame` returns. */
  function Initial(): (r: State)
    ensures IsGrid(r.cells) && forall y, x :: InGrid(y, x) ==> r.cells[y][x] == Empty
  {
    State(EmptyGrid(), InitialBalance, Road)
  }

  /** What one frame polls: the left mouse button, the cursor position and the
      keys 0 to 4. */
  datatype Input = Input(mousePressed: bool, cursorX: int, cursorY: int,
                         key0: bool, key1: bool, key2: bool, key3: bool, key4: bool)

  /** The cell `(ty, tx)` under the cursor, when it lies on the grid. */
  function Target(x: int, y: int): (r: Option<(int, int)>)
    ensures r.Some? <==> -TileSize < x < GridWidth * TileSize && -TileSize < y < GridHeight * TileSize
    ensures r.Some? ==> r.value == (CellOf(y), CellOf(x)) && InGrid(r.value.0, r.value.1)
  {
    CellOfInRange(x, GridWidth);
    CellOfInRange(y, GridHeight);
    var tx, ty := CellOf(x), CellOf(y);
    if 0 <= tx < GridWidth && 0 <= ty < GridHeight then Some((ty, tx)) else None
  }

  /** The grid with one cell replaced. */
  function SetCell(c: Cells, row: int, col: int, t: TileType): (r: Cells)
    requires IsGrid(c) && InGrid(row, col)
    ensures IsGrid(r) && r[row][col] == t
    ensures forall y, x :: InGrid(y, x) && (y != row || x != col) ==> r[y][x] == c[y][x]
  {
    c[row := c[row][col := t]]
  }

  /** A click on an on-grid cell with the current tool: Erase refunds the price
      of the cell's tile and clears it; any other tool is placed when the
      balance covers its price, and otherwise nothing happens. */
  function Click(s: State, row: int, col: int): (r: State)
    requires IsGrid(s.cells) && InGrid(row, col)
    ensures IsGrid(r.cells)
    ensures s.balance >= 0 ==> r.balance >= 0
    ensures NoErase(s.cells) ==> NoErase(r.cells)
  {
    if s.mode == Erase then
      State(SetCell(s.cells, row, col, Empty), s.balance + Price(s.cells[row][col]), s.mode)
    else if s.balance >= Price(s.mode) then
      State(SetCell(s.cells, row, col, s.mode), s.balance - Price(s.mode), s.mode)
    else
      s
  }

  /** The tool selection `switch`: the first pressed key among 0..4 wins. */
  function SelectTool(current: TileType, i: Input): (t: TileType)
    ensures t == current || t == Erase || Placeable(t)
  {
    if i.key0 then Erase
    else if i.key1 then Road
    else if i.key2 then House
    else if i.key3 then Hospital
    else if i.key4 then Farm
    else current
  }

  /** The click half of `Update`: a pressed button over the grid clicks the
      cell under the cursor; otherwise nothing happens. */
  function ApplyClick(s: State, pressed: bool, x: int, y: int): (r: State)
    requires IsGrid(s.cells)
    ensures IsGrid(r.cells) && r.mode == s.mode
  {
    var target := Target(x, y);
    if pressed && target.Some? then Click(s, target.value.0, target.value.1) else s
  }

  /** One call of `Update`: the click is handled with the tool selected before
      this frame, then the keys select the tool for the next frame. */
  function Step(s: State, i: Input): (r: State)
    requires IsGrid(s.cells)
    ensures IsGrid(r.cells)
  {
    var clicked := ApplyClick(s, i.mousePressed, i.cursorX, i.cursorY);
    State(clicked.cells, clicked.balance, SelectTool(clicked.mode, i))
  }

  // ---------------------------------------------------------------- clicks

  /** The grid and the balance change only for a pressed button over the grid. */
  lemma ClickOnlyInBounds(s: State, i: Input)
    requires IsGrid(s.cells)
    requires !i.mousePressed
          || !(-TileSize < i.cursorX < GridWidth * TileSize && -TileSize < i.cursorY < GridHeight * TileSize)
    ensures Step(s, i).cells == s.cells && Step(s, i).balance == s.balance
  {
  }

  /** A click changes at most the targeted cell, and it does not change the tool. */
  lemma ClickFrame(s: State, row: int, col: int)
    requires IsGrid(s.cells) && InGrid(row, col)
    ensures Click(s, row, col).mode == s.mode
    ensures forall y, x :: InGrid(y, x) && (y != row || x != col) ==> Click(s, row, col).cells[y][x] == s.cells[y][x]
  {
  }

  /** Placing tool `t`: with enough balance the cell becomes `t`, whatever it held
      (no refund for an overwritten tile), and the balance drops by `Price(t)`;
      otherwise nothing changes. */
  lemma ClickPlaces(s: State, row: int, col: int)
    requires IsGrid(s.cells) && InGrid(row, col) && s.mode != Erase
    ensures s.balance >= Price(s.mode) ==>
              Click(s, row, col).cells[row][col] == s.mode && Click(s, row, col).balance == s.balance - Price(s.mode)
    ensures s.balance < Price(s.mode) ==> Click(s, row, col) == s
  {
  }

  /** Erasing a cell holding `k` clears it and refunds `Price(k)`, whatever the
      balance; for an Empty cell the refund is 0. */
  lemma ClickErases(s: State, row: int, col: int)
    requires IsGrid(s.cells) && InGrid(row, col) && s.mode == Erase
    ensures Click(s, row, col).cells[row][col] == Empty
    ensures Click(s, row, col).balance == s.balance + Price(s.cells[row][col])
    ensures s.cells[row][col] == Empty ==> Click(s, row, col) == s
  {
    if s.cells[row][col] == Empty {
      assert s.cells[row][col := Empty] == s.cells[row];
    }
  }

  /** Erasing the same cell twice is the same as erasing it once. */
  lemma EraseIdempotent(s: State, row: int, col: int)
    requires IsGrid(s.cells) && InGrid(row, col) && s.mode == Erase
    ensures Click(Click(s, row, col), row, col) == Click(s, row, col)
  {
    ClickErases(Click(s, row, col), row, col);
  }

  /** Placing a tile and erasing the same cell in the next frame restores the
      balance: the refund equals the price paid. Key 0 pressed in the placing
      frame selects Erase only after that frame's click. */
  lemma PlaceThenEraseRestoresBalance(s: State, x: int, y: int)
    requires IsGrid(s.cells) && s.mode != Erase && s.balance >= Price(s.mode)
    requires Target(x, y).Some?
    ensures var placed := Step(s, Input(true, x, y, true, false, false, false, false));
            placed.mode == Erase &&
            placed.cells[CellOf(y)][CellOf(x)] == s.mode &&
            placed.balance == s.balance - Price(s.mode) &&
            Step(placed, Input(true, x, y, false, false, false, false, false)).balance == s.balance &&
            Step(placed, Input(true, x, y, false, false, false, false, false)).cells[CellOf(y)][CellOf(x)] == Empty
  {
  }

  // ---------------------------------------------------------- tool selection

  /** The tool bound to key `k`. */
  function KeyTool(k: nat): TileType
    requires k < 5
  {
    [Erase, Road, House, Hospital, Farm][k]
  }

  function Keys(i: Input): seq<bool> {
    [i.key0, i.key1, i.key2, i.key3, i.key4]
  }

  /** The lowest index of a pressed key, if any. */
  function FirstPressed(keys: seq<bool>): (r: Option<nat>)
    ensures r.Some? ==> r.value < |keys| && keys[r.value] && forall j :: 0 <= j < r.value ==> !keys[j]
    ensures r.None? ==> forall j :: 0 <= j < |keys| ==> !keys[j]
  {
    if keys == [] then None
    else if keys[0] then Some(0)
    else match FirstPressed(keys[1..])
      case None => None
      case Some(k) => Some(k + 1)
  }

  /** After a frame the tool is that of the lowest-numbered pressed key, and
      unchanged when no key is pressed. */
  lemma {:induction false} SelectToolPicksLowestKey(current: TileType, i: Input)
    ensures FirstPressed(Keys(i)).Some? ==> SelectTool(current, i) == KeyTool(FirstPressed(Keys(i)).value)
    ensures FirstPressed(Keys(i)).None? ==> SelectTool(current, i) == current
  {
    var keys := Keys(i);
    var r := FirstPressed(keys);
    if r.Some? {
      var k := r.value;
      assert keys[k] && forall j :: 0 <= j < k ==> !keys[j];
      if k == 0 {
      } else if k == 1 {
        assert !keys[0];
      } else if k == 2 {
        assert !keys[0] && !keys[1];
      } else if k == 3 {
        assert !keys[0] && !keys[1] && !keys[2];
      } else {
        assert !keys[0] && !keys[1] && !keys[2] && !keys[3];
      }
    } else {
      assert !keys[0] && !keys[1] && !keys[2] && !keys[3] && !keys[4];
    }
  }

  /** After `Update` the tool is that of the lowest-numbered pressed key and is
      unchanged when no key is pressed. */
  lemma StepSelectsTool(s: State, i: Input)
    requires IsGrid(s.cells)
    ensures FirstPressed(Keys(i)).Some? ==> Step(s, i).mode == KeyTool(FirstPressed(Keys(i)).value)
    ensures FirstPressed(Keys(i)).None? ==> Step(s, i).mode == s.mode
  {
    SelectToolPicksLowestKey(s.mode, i);
  }

  /** The keys of a frame do not affect that frame's click: it is handled with
      the tool selected before the frame. */
  lemma KeysDoNotAffectClick(s: State, i: Input, j: Input)
    requires IsGrid(s.cells)
    requires i.mousePressed == j.mousePressed && i.cursorX == j.cursorX && i.cursorY == j.cursorY
    ensures Step(s, i).cells == Step(s, j).cells && Step(s, i).balance == Step(s, j).balance
  {
  }

  // ------------------------------------------------------------------ wealth

  /** The total price of the tiles in a row. */
  function RowWorth(row: seq<TileType>): (w: int)
    ensures w >= 0
  {
    if row == [] then 0 else Price(row[0]) + RowWorth(row[1..])
  }

  /** The total price of the tiles on the grid. */
  function Worth(c: Cells): (w: int)
    ensures w >= 0
  {
    if c == [] then 0 else RowWorth(c[0]) + Worth(c[1..])
  }

  /** Balance plus the price of every tile on the grid. */
  function Wealth(s: State): int {
    s.balance + Worth(s.cells)
  }

  lemma {:induction false} RowWorthUpdate(row: seq<TileType>, x: nat, t: TileType)
    requires x < |row|
    ensures RowWorth(row[x := t]) == RowWorth(row) - Price(row[x]) + Price(t)
  {
    if x == 0 {
      assert row[x := t][1..] == row[1..];
    } else {
      assert row[x := t][1..] == row[1..][x - 1 := t];
      RowWorthUpdate(row[1..], x - 1, t);
    }
  }

  lemma {:induction false} WorthUpdate(c: Cells, y: nat, row: seq<TileType>)
    requires y < |c|
    ensures Worth(c[y := row]) == Worth(c) - RowWorth(c[y]) + RowWorth(row)
  {
    if y == 0 {
      assert c[y := row][1..] == c[1..];
    } else {
      assert c[y := row][1..] == c[1..][y - 1 := row];
      WorthUpdate(c[1..], y - 1, row);
    }
  }

  /** Replacing one cell changes the grid's worth by the difference of prices. */
  lemma SetCellWorth(c: Cells, row: int, col: int, t: TileType)
    requires IsGrid(c) && InGrid(row, col)
    ensures Worth(SetCell(c, row, col, t)) == Worth(c) - Price(c[row][col]) + Price(t)
  {
    RowWorthUpdate(c[row], col, t);
    WorthUpdate(c, row, c[row][col := t]);
  }

  lemma {:induction false} EmptyRowWorthless(row: seq<TileType>)
    requires forall x :: 0 <= x < |row| ==> row[x] == Empty
    ensures RowWorth(row) == 0
  {
    if row != [] {
      EmptyRowWorthless(row[1..]);
    }
  }

  lemma {:induction false} EmptyRowsWorthless(c: Cells)
    requires forall y, x :: 0 <= y < |c| && 0 <= x < |c[y]| ==> c[y][x] == Empty
    ensures Worth(c) == 0
  {
    if c != [] {
      EmptyRowWorthless(c[0]);
      EmptyRowsWorthless(c[1..]);
    }
  }

  /** Whether a click places a tile over an occupied cell. */
  predicate ClickOverwrites(s: State, pressed: bool, x: int, y: int)
    requires IsGrid(s.cells)
  {
    var target := Target(x, y);
    pressed && target.Some? && s.mode != Erase && s.balance >= Price(s.mode) &&
    s.cells[target.value.0][target.value.1] != Empty
  }

  /** The price of the tile a click destroys by placing over it. */
  function ClickLost(s: State, pressed: bool, x: int, y: int): nat
    requires IsGrid(s.cells)
  {
    if ClickOverwrites(s, pressed, x, y) then
      var target := Target(x, y);
      Price(s.cells[target.value.0][target.value.1])
    else 0
  }

  predicate Overwrites(s: State, i: Input)
    requires IsGrid(s.cells)
  {
    ClickOverwrites(s, i.mousePressed, i.cursorX, i.cursorY)
  }

  function Lost(s: State, i: Input): nat
    requires IsGrid(s.cells)
  {
    ClickLost(s, i.mousePressed, i.cursorX, i.cursorY)
  }

  /** A frame keeps the wealth except for the price of an overwritten tile. */
  lemma StepWealth(s: State, i: Input)
    requires IsGrid(s.cells)
    ensures Wealth(Step(s, i)) == Wealth(s) - Lost(s, i)
  {
    var target := Target(i.cursorX, i.cursorY);
    if i.mousePressed && target.Some? {
      var row, col := target.value.0, target.value.1;
      if s.mode == Erase {
        SetCellWorth(s.cells, row, col, Empty);
      } else if s.balance >= Price(s.mode) {
        SetCellWorth(s.cells, row, col, s.mode);
      }
    }
  }

  /** What the game keeps true: a well-shaped grid without Erase cells, a
      non-negative balance, and the initial balance split between the balance,
      the tiles on the grid and the price of tiles destroyed by overwriting. */
  predicate Invariant(s: State, lost: int) {
    IsGrid(s.cells) && NoErase(s.cells) && s.balance >= 0 && Wealth(s) + lost == InitialBalance
  }

  lemma InitialInvariant()
    ensures Invariant(Initial(), 0)
  {
    EmptyRowsWorthless(EmptyGrid());
  }

  /** Every frame keeps the invariant; only an overwrite loses wealth, and
      under the invariant an overwrite always loses some. */
  lemma StepPreservesInvariant(s: State, lost: int, i: Input)
    requires Invariant(s, lost)
    ensures Invariant(Step(s, i), lost + Lost(s, i))
    ensures Lost(s, i) > 0 <==> Overwrites(s, i)
  {
    StepWealth(s, i);
    if Overwrites(s, i) {
      var target := Target(i.cursorX, i.cursorY);
      assert s.cells[target.value.0][target.value.1] != Erase;
    }
  }

  // -------------------------------------------------------------------- runs

  /** The state after a sequence of frames. */
  function Run(s: State, frames: seq<Input>): (r: State)
    requires IsGrid(s.cells)
    ensures IsGrid(r.cells)
    decreases |frames|
  {
    if frames == [] then s else Run(Step(s, frames[0]), frames[1..])
  }

  /** The total price of the tiles destroyed by overwriting during a run. */
  function RunLost(s: State, frames: seq<Input>): nat
    requires IsGrid(s.cells)
    decreases |frames|
  {
    if frames == [] then 0 else Lost(s, frames[0]) + RunLost(Step(s, frames[0]), frames[1..])
  }

  /** Whether some frame of a run places a tile over an occupied cell. */
  predicate EverOverwrites(s: State, frames: seq<Input>)
    requires IsGrid(s.cells)
    decreases |frames|
  {
    frames != [] && (Overwrites(s, frames[0]) || EverOverwrites(Step(s, frames[0]), frames[1..]))
  }

  lemma {:induction false} RunPreservesInvariant(s: State, lost: int, frames: seq<Input>)
    requires Invariant(s, lost)
    ensures Invariant(Run(s, frames), lost + RunLost(s, frames))
    ensures RunLost(s, frames) > 0 <==> EverOverwrites(s, frames)
    decreases |frames|
  {
    if frames != [] {
      StepPreservesInvariant(s, lost, frames[0]);
      RunPreservesInvariant(Step(s, frames[0]), lost + Lost(s, frames[0]), frames[1..]);
    }
  }

  /** From a new game, the balance never becomes negative, and the wealth never
      exceeds the initial balance; it equals it exactly when no frame has
      overwritten a tile. */
  lemma NewGameRun(frames: seq<Input>)
    ensures 0 <= Run(Initial(), frames).balance <= InitialBalance
    ensures Wealth(Run(Initial(), frames)) <= InitialBalance
    ensures Wealth(Run(Initial(), frames)) == InitialBalance <==> !EverOverwrites(Initial(), frames)
    ensures NoErase(Run(Initial(), frames).cells)
  {
    InitialInvariant();
    RunPreservesInvariant(Initial(), 0, frames);
  }

  // --------------------------------------------------------------- scenarios

  /** With 1000, placing a Road at (0,0) leaves 998; erasing it gives 1000 back. */
  lemma ScenarioRoadRoundTrip()
    ensures var placed := Step(Initial(), Input(true, 0, 0, false, false, false, false, false));
            var erasing := Step(placed, Input(false, 0, 0, true, false, false, false, false));
            var erased := Step(erasing, Input(true, 0, 0, false, false, false, false, false));
            placed.balance == 998 && placed.cells[0][0] == Road && erasing.mode == Erase &&
            erased.balance == 1000 && erased.cells[0][0] == Empty
  {
  }

  /** With 10, a House (50) cannot be placed. */
  lemma ScenarioInsufficientFunds()
    ensures var s := State(EmptyGrid(), 10, House);
            Step(s, Input(true, 0, 0, false, false, false, false, false)) == s
  {
  }

  /** The bottom-right screen pixel (799, 599) is column 24, off the grid. */
  lemma ScenarioOffGrid()
    ensures CellOf(799) == 24 && Target(799, 599).None?
  {
  }
}
