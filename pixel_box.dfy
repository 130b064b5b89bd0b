/** The pixel box `Larrabee::RasterizeTile` computes for one triangle in one tile. */
module PixelBoxes {
  import opened Numerics
  import opened Configuration
  import opened Triangles
  import opened Tiles

  /** Pixels `[minX, maxX] x [minY, maxY]`; empty when a maximum is below its minimum. */
  datatype PixelBox = PixelBox(minX: int, maxX: int, minY: int, maxY: int)
  {
    predicate IsEmpty() { maxX < minX || maxY < minY }

    predicate Contains(px: int, py: int) { minX <= px <= maxX && minY <= py <= maxY }
  }

  /** Before alignment: vertex bounds shifted right by `FIXED_POINT`, intersected with the tile's
      pixels `[minRaster, maxRaster - 1]`. */
  function ClippedPixelBox(s: Settings, tile: Tile, T: Triangle): (b: PixelBox)
    ensures tile.minRaster.x <= b.minX && b.maxX <= tile.maxRaster.x - 1
    ensures tile.minRaster.y <= b.minY && b.maxY <= tile.maxRaster.y - 1
  {
    PixelBox(Max(tile.minRaster.x, ShiftRight(T.MinX(), s.fixedPoint)),
             Min(tile.maxRaster.x - 1, ShiftRight(T.MaxX(), s.fixedPoint)),
             Max(tile.minRaster.y, ShiftRight(T.MinY(), s.fixedPoint)),
             Min(tile.maxRaster.y - 1, ShiftRight(T.MaxY(), s.fixedPoint)))
  }

  /** The clipped box holds exactly the tile's pixels whose fixed-point span meets the triangle's
      vertex range on both axes. */
  lemma ClippedPixelBoxIsIntersection(s: Settings, tile: Tile, T: Triangle, px: int, py: int)
    ensures ClippedPixelBox(s, tile, T).Contains(px, py) <==>
      tile.minRaster.x <= px < tile.maxRaster.x && tile.minRaster.y <= py < tile.maxRaster.y &&
      px * Pow2(s.fixedPoint) <= T.MaxX() && T.MinX() < (px + 1) * Pow2(s.fixedPoint) &&
      py * Pow2(s.fixedPoint) <= T.MaxY() && T.MinY() < (py + 1) * Pow2(s.fixedPoint)
  {
    FloorShiftAtLeast(T.MaxX(), s.fixedPoint, px);
    FloorShiftAtMost(T.MinX(), s.fixedPoint, px);
    FloorShiftAtLeast(T.MaxY(), s.fixedPoint, py);
    FloorShiftAtMost(T.MinY(), s.fixedPoint, py);
  }

  /** The box the rasterizer walks: the clipped box with `minX -= minX % 2` and `minY -= minY % 2`.
      Its minima are even; a nonnegative minimum moves down by at most one pixel, so the box
      still holds every pixel of the clipped box. */
  function PixelBoxOf(s: Settings, tile: Tile, T: Triangle): (b: PixelBox)
    ensures var c := ClippedPixelBox(s, tile, T);
      b.maxX == c.maxX && b.maxY == c.maxY &&
      b.minX % 2 == 0 && b.minY % 2 == 0 &&
      (c.minX >= 0 ==> c.minX - 1 <= b.minX <= c.minX) &&
      (c.minY >= 0 ==> c.minY - 1 <= b.minY <= c.minY) &&
      (c.minX >= 0 && c.minY >= 0 ==> forall px, py :: c.Contains(px, py) ==> b.Contains(px, py))
  {
    var c := ClippedPixelBox(s, tile, T);
    PixelBox(AlignEven(c.minX), c.maxX, AlignEven(c.minY), c.maxY)
  }
}
