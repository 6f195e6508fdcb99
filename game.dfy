/**
 The `Game` object: the tile grid, the balance and the selected tool, updated
 in place once per frame. Each method is proved to do what the value model in
 module City says one frame does, and to keep the game's invariant.
 */
module GameState {
  import opened Tiles
  import opened City
  import opened Render

  class Game {
    var grid: array2<TileType>
    var balance: int
    var buildMode: TileType
    /** The total price of the tiles destroyed by placing over them since `NewGame`. */
    ghost var lost: int

    ghost predicate Shaped()
      reads this`grid
    {
      grid.Length0 == GridHeight && grid.Length1 == GridWidth
    }

    /** The grid's contents as rows of cells. */
    ghost function GridCells(): (c: City.Cells)
      reads this`grid, grid
      requires Shaped()
      ensures IsGrid(c)
      ensures forall y, x :: InGrid(y, x) ==> c[y][x] == grid[y, x]
    {
      var g := grid;
      seq(GridHeight, y requires 0 <= y < g.Length0 reads g =>
        seq(GridWidth, x requires 0 <= x < g.Length1 reads g => g[y, x]))
    }

    ghost function Model(): State
      reads this, grid
      requires Shaped()
    {
      State(GridCells(), balance, buildMode)
    }

    ghost predicate Valid()
      reads this, grid
    {
      Shaped() && Invariant(Model(), lost)
    }

    /** `NewGame`: an all-Empty grid, a balance of 1000 and the Road tool. */
    constructor NewGame()
      ensures Valid() && fresh(grid)
      ensures Model() == Initial() && lost == 0
    {
      var cells := new TileType[GridHeight, GridWidth];
      forall y, x | 0 <= y < GridHeight && 0 <= x < GridWidth {
        cells[y, x] := Empty;
      }
      grid := cells;
      balance := InitialBalance;
      buildMode := Road;
      lost := 0;
      new;
      EmptyGridCells();
      InitialInvariant();
      assert Model() == Initial();
      assert Invariant(Model(), lost);
    }

    lemma EmptyGridCells()
      requires Shaped() && forall y, x :: 0 <= y < GridHeight && 0 <= x < GridWidth ==> grid[y, x] == Empty
      ensures GridCells() == EmptyGrid()
    {
      SameCells(GridCells(), EmptyGrid());
    }

    /** `refundAfterErase`: adds the price of the tile at `(ty, tx)` to the
        balance; a cell without a price refunds 0. */
    method RefundAfterErase(ty: int, tx: int)
      requires Shaped() && InGrid(ty, tx)
      modifies this`balance
      ensures balance == old(balance) + Price(grid[ty, tx])
    {
      var tileType := grid[ty, tx];
      balance := balance + Price(tileType);
    }

    /** The click half of `Update`: place or erase at the cell under the
        cursor, when the button is pressed and the cell is on the grid. */
    method HandleClick(mousePressed: bool, x: int, y: int)
      requires Shaped()
      modifies this`balance, this`lost, grid
      ensures Model() == ApplyClick(old(Model()), mousePressed, x, y)
      ensures lost == old(lost) + ClickLost(old(Model()), mousePressed, x, y)
    {
      ghost var s := Model();
      if mousePressed {
        var tx, ty := TruncDiv(x, TileSize), TruncDiv(y, TileSize);
        if tx >= 0 && tx < GridWidth && ty >= 0 && ty < GridHeight {
          assert Target(x, y) == Some((ty, tx));
          if buildMode == Erase {
            RefundAfterErase(ty, tx);
            grid[ty, tx] := Empty;
          } else {
            var price := Price(buildMode);
            if balance >= price {
              lost := lost + Price(grid[ty, tx]);
              grid[ty, tx] := buildMode;
              balance := balance - price;
            }
          }
          SameCells(GridCells(), Click(s, ty, tx).cells);
        }
      }
    }

    /** `Update`: the polled inputs of one frame are its parameters. */
    method Update(mousePressed: bool, x: int, y: int,
                  key0: bool, key1: bool, key2: bool, key3: bool, key4: bool)
      requires Valid()
      modifies this, grid
      ensures Valid() && grid == old(grid)
      ensures Model() == Step(old(Model()), Input(mousePressed, x, y, key0, key1, key2, key3, key4))
      ensures lost == old(lost) + Lost(old(Model()), Input(mousePressed, x, y, key0, key1, key2, key3, key4))
    {
      HandleClick(mousePressed, x, y);
      ghost var clicked := Model();
      ghost var cells := GridCells();

      if key0 {
        buildMode := Erase;
      } else if key1 {
        buildMode := Road;
      } else if key2 {
        buildMode := House;
      } else if key3 {
        buildMode := Hospital;
      } else if key4 {
        buildMode := Farm;
      }
      assert GridCells() == cells;
      assert Model() == State(clicked.cells, clicked.balance, buildMode);

      StepPreservesInvariant(old(Model()), old(lost), Input(mousePressed, x, y, key0, key1, key2, key3, key4));
    }

    /** The rectangles `Draw` paints, cell by cell in row-major order. */
    method Draw() returns (rects: seq<Rect>)
      requires Shaped()
      ensures rects == DrawList(GridCells())
    {
      ghost var c := GridCells();
      rects := [];
      for y := 0 to GridHeight
        invariant rects == DrawRows(c, y)
      {
        for x := 0 to GridWidth
          invariant rects == DrawRows(c, y) + DrawRow(c, y, x)
        {
          var tile := grid[y, x];
          assert tile == c[y][x];
          if tile == Empty {
            continue;
          }
          var size := TileSizeOf(tile);
          rects := rects + [Rect(x * TileSize, y * TileSize, size.w, size.h, tile)];
        }
      }
    }
  }
}
