/** The build constants of the rasterizer (Settings.h is not part of this model: its constants are parameters). */
module Configuration {

  /** FIXED_POINT, TILE, TILE_DIM_X and TILE_DIM_Y. Screen coordinates carry `fixedPoint` fractional bits,
      a tile is 2^`tile` pixels on a side, and the grid is `tileDimX` by `tileDimY` tiles. */
  datatype Settings = Settings(fixedPoint: nat, tile: nat, tileDimX: nat, tileDimY: nat)
  {
    /** All four are positive C++ `int` constants. */
    predicate Valid()
    {
      0 < fixedPoint && 0 < tile && 0 < tileDimX < 0x8000_0000 && 0 < tileDimY < 0x8000_0000
    }

    /** `TILE + FIXED_POINT`: the shift from fixed-point coordinates to tile indices. */
    function Shift(): nat { tile + fixedPoint }

    function TileCount(): nat { tileDimX * tileDimY }
  }
}
