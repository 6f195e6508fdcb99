/**
 The fixed tables of the city builder: screen and grid dimensions, the tile
 kinds, their prices and footprints, and Go's truncating integer division,
 which turns a cursor pixel into a tile coordinate.
 */
module Tiles {

  const ScreenWidth := 800
  const ScreenHeight := 600
  const TileSize := 32
  const GridWidth := 20
  const GridHeight := 15

  /** Go's `TileType`: Empty..Farm are the placeable kinds (Empty is the cleared
      cell); Erase is a tool value that the grid never holds. */
  datatype TileType = Empty | Road | House | Hospital | Farm | Erase

  /** A footprint in pixels. */
  datatype Size = Size(w: int, h: int)

  /** `tilePrices`: there is no entry for Empty or Erase. */
  const TilePrices: map<TileType, int> := map[Road := 2, House := 50, Hospital := 20, Farm := 20]

  /** `tileSizes`: there is no entry for Empty or Erase. */
  const TileSizes: map<TileType, Size> :=
    map[Road := Size(32, 32), House := Size(64, 64), Hospital := Size(96, 96), Farm := Size(48, 48)]

  predicate Placeable(t: TileType) {
    t == Road || t == House || t == Hospital || t == Farm
  }

  /** `tilePrices[t]`: a Go map lookup of a missing key yields the zero value 0. */
  function Price(t: TileType): (p: int)
    ensures p >= 0
    ensures p > 0 <==> Placeable(t)
    ensures p == 0 <==> t !in TilePrices
  {
    if t in TilePrices then TilePrices[t] else 0
  }

  /** `tileSizes[t]`: a missing key yields the zero `Size{0, 0}`. Every placeable
      kind has a square footprint that covers at least its own cell. */
  function TileSizeOf(t: TileType): (s: Size)
    ensures Placeable(t) ==> s.w == s.h >= TileSize
    ensures !Placeable(t) ==> s == Size(0, 0)
    ensures t in TileSizes <==> Placeable(t)
  {
    if t in TileSizes then TileSizes[t] else Size(0, 0)
  }

  /** Go's `a / b`, which truncates toward zero; Dafny's `/` is Euclidean.
      The remainder `a - q * b` takes the sign of `a` and is smaller than `b`. */
  function TruncDiv(a: int, b: int): (q: int)
    requires b > 0
    ensures 0 <= a ==> 0 <= a - q * b < b
    ensures a < 0 ==> -b < a - q * b <= 0
  {
    if a >= 0 then a / b else -((-a) / b)
  }

  /** The tile coordinate of a pixel coordinate: `x / tileSize` in Go. */
  function CellOf(p: int): int {
    TruncDiv(p, TileSize)
  }

  /** A coordinate lands in `[0, n)` exactly when the pixel lies strictly between
      `-TileSize` and `n * TileSize`: truncation maps `-31..-1` to tile 0. */
  lemma CellOfInRange(p: int, n: nat)
    requires n > 0
    ensures 0 <= CellOf(p) < n <==> -TileSize < p < n * TileSize
  {
  }

  /** A cursor 5 pixels left of the screen still selects column 0, where
      Euclidean division would give -1. */
  lemma NegativeCursorTruncates()
    ensures CellOf(-5) == 0 && -5 / TileSize == -1
  {
  }
}
