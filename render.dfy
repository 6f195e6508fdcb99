/**
 What `Draw` hands to the rectangle primitive: one rectangle for every
 non-empty cell, in row-major order, at the cell's pixel origin with the
 tile's footprint. The fill colours, the background and the text are not
 part of this model; a rectangle carries its tile kind, which picks its colour.
 */
module Render {
  import opened Tiles
  import opened City

  /** One `DrawRect` call: pixel origin, footprint, and the tile kind. */
  datatype Rect = Rect(x: int, y: int, w: int, h: int, tile: TileType)

  /** The rectangle for tile `t` at cell `(row, col)`. */
  function CellRect(row: int, col: int, t: TileType): (r: Rect)
    ensures r.tile == t && r.w == r.h
    ensures Placeable(t) ==> r.w >= TileSize
    ensures !Placeable(t) ==> r.w == 0
    ensures 0 <= row ==> r.y / TileSize == row
    ensures 0 <= col ==> r.x / TileSize == col
  {
    var size := TileSizeOf(t);
    Rect(col * TileSize, row * TileSize, size.w, size.h, t)
  }

  /** What one cell contributes: nothing when it is Empty. */
  function CellRects(c: Cells, row: int, col: int): seq<Rect>
    requires IsGrid(c) && InGrid(row, col)
  {
    if c[row][col] == Empty then [] else [CellRect(row, col, c[row][col])]
  }

  /** The rectangles of the first `n` cells of a row. */
  function DrawRow(c: Cells, row: int, n: nat): (r: seq<Rect>)
    requires IsGrid(c) && 0 <= row < GridHeight && n <= GridWidth
    ensures |r| <= n
  {
    if n == 0 then [] else DrawRow(c, row, n - 1) + CellRects(c, row, n - 1)
  }

  /** The rectangles of the first `n` rows. */
  function DrawRows(c: Cells, n: nat): (r: seq<Rect>)
    requires IsGrid(c) && n <= GridHeight
    ensures |r| <= n * GridWidth
  {
    if n == 0 then [] else DrawRows(c, n - 1) + DrawRow(c, n - 1, GridWidth)
  }

  /** The draw list of a whole frame: at most one rectangle per cell. */
  function DrawList(c: Cells): (r: seq<Rect>)
    requires IsGrid(c)
    ensures |r| <= GridHeight * GridWidth
  {
    DrawRows(c, GridHeight)
  }

  /** The row-major position of a rectangle's origin, in pixels. */
  function Rank(r: Rect): int {
    r.y * GridWidth + r.x
  }

  /** `r` is the rectangle of a non-empty cell of `c`. The cell is found with
      Dafny's Euclidean `/`, which agrees with Go's truncating `/` here
      because grid pixel coordinates are never negative. */
  predicate Drawn(c: Cells, r: Rect)
    requires IsGrid(c)
  {
    var row, col := r.y / TileSize, r.x / TileSize;
    InGrid(row, col) && c[row][col] != Empty && r == CellRect(row, col, c[row][col])
  }

  /** The rectangle of a non-empty cell is drawn at its row-major position. */
  lemma CellRectDrawn(c: Cells, row: int, col: int)
    requires IsGrid(c) && InGrid(row, col)
    ensures Rank(CellRect(row, col, c[row][col])) == TileSize * (row * GridWidth + col)
    ensures c[row][col] != Empty ==> Drawn(c, CellRect(row, col, c[row][col]))
  {
  }

  /** A row's rectangles are drawn and lie in that row, left of column `n`. */
  lemma {:induction false} DrawRowSound(c: Cells, row: int, n: nat)
    requires IsGrid(c) && 0 <= row < GridHeight && n <= GridWidth
    ensures forall r :: r in DrawRow(c, row, n) ==>
              Drawn(c, r) && TileSize * row * GridWidth <= Rank(r) < TileSize * (row * GridWidth + n)
  {
    if n > 0 {
      DrawRowSound(c, row, n - 1);
      CellRectDrawn(c, row, n - 1);
      var before, last := DrawRow(c, row, n - 1), CellRects(c, row, n - 1);
      assert DrawRow(c, row, n) == before + last;
      forall r | r in before + last
        ensures Drawn(c, r) && TileSize * row * GridWidth <= Rank(r) < TileSize * (row * GridWidth + n)
      {
        if r !in before {
          assert r == CellRect(row, n - 1, c[row][n - 1]);
        }
      }
    }
  }

  /** A row's rectangles come in strictly increasing order. */
  lemma {:induction false} DrawRowOrdered(c: Cells, row: int, n: nat)
    requires IsGrid(c) && 0 <= row < GridHeight && n <= GridWidth
    ensures forall i, j :: 0 <= i < j < |DrawRow(c, row, n)| ==> Rank(DrawRow(c, row, n)[i]) < Rank(DrawRow(c, row, n)[j])
  {
    if n > 0 {
      DrawRowOrdered(c, row, n - 1);
      DrawRowSound(c, row, n - 1);
      CellRectDrawn(c, row, n - 1);
      var before, last := DrawRow(c, row, n - 1), CellRects(c, row, n - 1);
      assert DrawRow(c, row, n) == before + last;
      forall i, j | 0 <= i < j < |before + last|
        ensures Rank((before + last)[i]) < Rank((before + last)[j])
      {
        if j >= |before| {
          assert (before + last)[j] == CellRect(row, n - 1, c[row][n - 1]);
          if i < |before| {
            assert (before + last)[i] == before[i] && before[i] in before;
          }
        } else {
          assert (before + last)[i] == before[i] && (before + last)[j] == before[j];
        }
      }
    }
  }

  /** The rectangles of the first `n` rows are drawn and lie above row `n`. */
  lemma {:induction false} DrawRowsSound(c: Cells, n: nat)
    requires IsGrid(c) && n <= GridHeight
    ensures forall r :: r in DrawRows(c, n) ==> Drawn(c, r) && Rank(r) < TileSize * n * GridWidth
  {
    if n > 0 {
      DrawRowsSound(c, n - 1);
      DrawRowSound(c, n - 1, GridWidth);
      var before, last := DrawRows(c, n - 1), DrawRow(c, n - 1, GridWidth);
      assert DrawRows(c, n) == before + last;
      forall r | r in before + last
        ensures Drawn(c, r) && Rank(r) < TileSize * n * GridWidth
      {
        if r !in before {
          assert r in last;
        }
      }
    }
  }

  /** The rectangles of the first `n` rows come in strictly increasing order. */
  lemma {:induction false} DrawRowsOrdered(c: Cells, n: nat)
    requires IsGrid(c) && n <= GridHeight
    ensures forall i, j :: 0 <= i < j < |DrawRows(c, n)| ==> Rank(DrawRows(c, n)[i]) < Rank(DrawRows(c, n)[j])
  {
    if n > 0 {
      DrawRowsOrdered(c, n - 1);
      DrawRowsSound(c, n - 1);
      DrawRowSound(c, n - 1, GridWidth);
      DrawRowOrdered(c, n - 1, GridWidth);
      var before, last := DrawRows(c, n - 1), DrawRow(c, n - 1, GridWidth);
      assert DrawRows(c, n) == before + last;
      forall i, j | 0 <= i < j < |before + last|
        ensures Rank((before + last)[i]) < Rank((before + last)[j])
      {
        if j < |before| {
          assert (before + last)[i] == before[i] && (before + last)[j] == before[j];
        } else if i >= |before| {
          assert (before + last)[i] == last[i - |before|] && (before + last)[j] == last[j - |before|];
        } else {
          assert (before + last)[i] == before[i] && before[i] in before;
          assert (before + last)[j] == last[j - |before|] && last[j - |before|] in last;
        }
      }
    }
  }

  lemma {:induction false} DrawRowComplete(c: Cells, row: int, n: nat)
    requires IsGrid(c) && 0 <= row < GridHeight && n <= GridWidth
    ensures forall col :: 0 <= col < n && c[row][col] != Empty ==> CellRect(row, col, c[row][col]) in DrawRow(c, row, n)
  {
    if n > 0 {
      DrawRowComplete(c, row, n - 1);
    }
  }

  lemma {:induction false} DrawRowsComplete(c: Cells, n: nat)
    requires IsGrid(c) && n <= GridHeight
    ensures forall row, col :: 0 <= row < n && InGrid(row, col) && c[row][col] != Empty ==>
              CellRect(row, col, c[row][col]) in DrawRows(c, n)
  {
    if n > 0 {
      DrawRowsComplete(c, n - 1);
      DrawRowComplete(c, n - 1, GridWidth);
    }
  }

  /** The draw list holds exactly the rectangles of the non-empty cells, each
      at `(col * 32, row * 32)` with its tile's footprint, in strictly
      increasing row-major order (so each cell appears once). */
  lemma DrawListSpec(c: Cells)
    requires IsGrid(c)
    ensures forall r :: r in DrawList(c) ==> Drawn(c, r)
    ensures forall row, col :: InGrid(row, col) && c[row][col] != Empty ==> CellRect(row, col, c[row][col]) in DrawList(c)
    ensures forall i, j :: 0 <= i < j < |DrawList(c)| ==> Rank(DrawList(c)[i]) < Rank(DrawList(c)[j])
  {
    DrawRowsSound(c, GridHeight);
    DrawRowsOrdered(c, GridHeight);
    DrawRowsComplete(c, GridHeight);
  }

  lemma {:induction false} EmptyRowDrawsNothing(row: int, n: nat)
    requires 0 <= row < GridHeight && n <= GridWidth
    ensures DrawRow(EmptyGrid(), row, n) == []
  {
    if n > 0 {
      EmptyRowDrawsNothing(row, n - 1);
    }
  }

  /** A new game draws nothing. */
  lemma {:induction false} EmptyGridDrawsNothing(n: nat)
    requires n <= GridHeight
    ensures DrawRows(EmptyGrid(), n) == []
  {
    if n > 0 {
      EmptyGridDrawsNothing(n - 1);
      EmptyRowDrawsNothing(n - 1, GridWidth);
    }
  }
}
