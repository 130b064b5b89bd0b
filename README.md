# Larrabee-style tile binner and tile walk

This project models the integer tile logic of a Larrabee-style software rasterizer. The logic lives in
two static routines of `Engine::Larrabee`.

- `AssignTriangles` is the binner. It makes one pass over the triangle buffer. For each triangle it
  computes the box of tiles covered by the triangle's fixed-point vertex bounds: shifted right by
  `TILE + FIXED_POINT`, then clamped to the `TILE_DIM_X x TILE_DIM_Y` grid. A nonempty box of at most
  2 x 2 tiles takes the fast path: the triangle's id goes into the `bin` list of every tile of the box. Any other
  box is scanned in row-major order. A tile is skipped when some edge function is negative at that
  edge's reject corner. Otherwise the triangle's `isTrivial` flag is overwritten with the accept test
  (all three edge functions nonnegative at the accept corners) and the tile receives the id.
- `RasterizeTile` walks the ids in one bin of one tile, in the order they were appended. For each id
  it computes a pixel box: the vertex bounds shifted right by `FIXED_POINT`, intersected with the
  tile's pixels, minima aligned to even with `v -= v % 2`. It returns from the whole walk at the first
  empty box. Otherwise it forms the fixed-point base pixel `(minX << FIXED_POINT, minY << FIXED_POINT)`.

The model is imperative where the source is. The tile vector and the triangle deque are arrays of
values (`array<Tile>`, `array<Triangle>`), updated element by element. The methods mirror the
source's loops. The binner's methods are proved against specification functions on sequences:

- `Binned` gives the tiles after a pass: each tile's list grows by `IdsFor`.
- `Flagged` gives the buffer after a pass: each triangle carries the flag `TrivialAfter` gives it.
- `Delivered` gives the tiles after one triangle.
- `TilesAfter` and `FlagAfter` give the state part-way through the general path's scan.

Lemmas then state what these functions mean:

- the grid bounds of the box and of the tile indices;
- the exact set of tiles on each path;
- soundness of the trivial reject and accept tests;
- the final trivial flag as "the accept test of the last tile not rejected";
- buffer order of the appended ids;
- only `bin` changes.

Modules:

- `Numerics`: shifts, C++ remainder, `uint32_t` subtraction.
- `Configuration`: the four build constants as parameters.
- `Triangles`: vertices, affine edge functions, corner decoding.
- `Tiles`: the tile record and `Tile::Add`.
- `Binning`: boxes, classification, the specification of the scan.
- `PixelBoxes`: the box `RasterizeTile` computes.
- `Larrabee`: the two routines.

`Tile.h`, `Triangle.h` and `Settings.h` are not part of this model. `Tile::Add` is modelled as
"append the id to `trinagles[bin]` and increment `binsIndex[bin]`". An edge function is
`a*x + b*y + c` with coefficients stored in the triangle. The constants are positive parameters.

Two readings of the scheme differ from what the code does; the model follows the code:

- One reading has the fast path clear the trivial flag, so that a triangle smaller than a tile is
  never marked trivial. The code does not touch the flag on the fast path: it keeps whatever value
  it had (`Binning.FastPathTakesWholeBox`). A triangle less than one tile wide and high either takes
  the fast path or has an empty box, so its flag is kept as it was rather than forced false
  (`Binning.SmallTriangleKeepsFlag`).
- One reading has a 10 x 10 pixel right triangle in 8-pixel tiles classified per tile, with one tile
  marked trivial. In the code its box is 2 x 2 tiles, so it takes the fast path. All four tiles
  receive it with no edge test, and the flag is unchanged (`Binning.TenPixelTriangleTakesFastPath`).

## Model

| member | source | states |
|---|---|---|
| Larrabee.AssignTriangles | Rasterizer/Rasterizer/src/Engine/Larrabee.h:64-122 | after the pass the tiles are `Binned` over the old buffer: each tile's `bin` list has grown by the ids of the triangles it receives, in buffer order; the buffer is `Flagged`: every triangle keeps its geometry and carries the flag `TrivialAfter` gives it |
| Larrabee.BinWholeBox | Rasterizer/Rasterizer/src/Engine/Larrabee.h:79-85 | the fast-path loops deliver the triangle: exactly the tiles that receive it get one `Add(bin, id)` and no other tile changes |
| Larrabee.WholeBoxDelivered | Rasterizer/Rasterizer/src/Engine/Larrabee.h:81-83 | on the fast path, adding the id to every tile of the box is delivering the triangle |
| Larrabee.BinClassified | Rasterizer/Rasterizer/src/Engine/Larrabee.h:88-120 | the general-path loops deliver the triangle (a tile of the box receives the id unless trivially rejected) and leave `TrivialAfter` as its flag; no other buffer entry changes |
| Larrabee.ClassifyRow | Rasterizer/Rasterizer/src/Engine/Larrabee.h:90-119 | one row of the general path advances tiles and flag from the start of row y to the start of row y + 1 of the scan |
| Larrabee.ClassifyTile | Rasterizer/Rasterizer/src/Engine/Larrabee.h:92-118 | a tile rejected at its reject corners changes nothing; otherwise the flag becomes the accept test and only tile `y * TILE_DIM_X + x` (an index inside the grid) gets `Add(bin, id)` |
| Larrabee.TilesAfter | Rasterizer/Rasterizer/src/Engine/Larrabee.h:88-118 | the tile vector part-way through the general path's scan keeps one valid record per tile, each with a list for `bin`; its steps are stated by `TilesAfterStart`, `TilesAfterStep`, `TilesAfterRowEnd` and `TilesAfterEnd` |
| Larrabee.TilesAfterStart | Rasterizer/Rasterizer/src/Engine/Larrabee.h:88-90 | before the first tile of the scan no tile has changed |
| Larrabee.TilesAfterStep | Rasterizer/Rasterizer/src/Engine/Larrabee.h:102-118 | scanning tile (x, y) changes only the entry at `y * TILE_DIM_X + x`, which has not changed before, and only when the tile is not rejected |
| Larrabee.TilesAfterRowEnd | Rasterizer/Rasterizer/src/Engine/Larrabee.h:88-90 | the end of row y of the scan is the start of row y + 1 |
| Larrabee.TilesAfterEnd | Rasterizer/Rasterizer/src/Engine/Larrabee.h:88-120 | once all rows are scanned, the general path's tiles are exactly the delivered tiles |
| Larrabee.Delivered | Rasterizer/Rasterizer/src/Engine/Larrabee.h:83 | delivering a triangle keeps one valid record per tile, each with a list for `bin` |
| Larrabee.Binned | Rasterizer/Rasterizer/src/Engine/Larrabee.h:71 | a pass keeps one valid record per tile, each with a list for `bin` |
| Larrabee.Flagged | Rasterizer/Rasterizer/src/Engine/Larrabee.h:113-116 | the flagged buffer has one entry per triangle |
| Larrabee.BinnedNothing | Rasterizer/Rasterizer/src/Engine/Larrabee.h:71 | binning an empty buffer changes no tile |
| Larrabee.BinnedStep | Rasterizer/Rasterizer/src/Engine/Larrabee.h:71-121 | binning one more triangle is delivering it on top of what the earlier triangles left |
| Larrabee.FlaggedStep | Rasterizer/Rasterizer/src/Engine/Larrabee.h:113-116 | binning triangle n sets its flag, which was untouched before, and no other |
| Larrabee.BinnedChangesOnlyBin | Rasterizer/Rasterizer/src/Engine/Larrabee.h:83 | after a pass every tile keeps its raster bounds and every bin other than `bin` (list and count); the `bin` list grows by `IdsFor` and its count by the same number |
| Larrabee.FlaggedKeepsGeometry | Rasterizer/Rasterizer/src/Engine/Larrabee.h:113-116 | binning changes only the `isTrivial` field of a triangle, and only of triangles already visited |
| Larrabee.RasterizeTile | Rasterizer/Rasterizer/src/Engine/Larrabee.h:23-56 | the walk visits `trinagles[bin][0..]` in order, at most `binsIndex[bin]` of them; each visit has the nonempty `PixelBoxOf` box and the base pixel `(minX << FIXED_POINT, minY << FIXED_POINT)`; if it stops early, the next id's box is empty; the tile and the buffer do not change |
| Binning.BoundingTiles | Rasterizer/Rasterizer/src/Engine/Larrabee.h:73-76 | the clamped box has `0 <= minX, minY` and `maxX <= TILE_DIM_X - 1`, `maxY <= TILE_DIM_Y - 1`; with nonnegative maxima all four ends fit `uint32_t` |
| Binning.BoundingTilesAreOverlap | Rasterizer/Rasterizer/src/Engine/Larrabee.h:73-76 | a tile is in the box exactly when it is a grid tile whose fixed-point span meets the vertex range on both axes |
| Binning.OffGridTriangleGetsNoTile | Rasterizer/Rasterizer/src/Engine/Larrabee.h:73-76 | a triangle whose smallest x is at least `TILE_DIM_X * 2^shift`, or whose smallest y is at least `TILE_DIM_Y * 2^shift`, lies wholly right of or below the grid and its clamped box holds no tile |
| Binning.CellIndexInGrid | Rasterizer/Rasterizer/src/Engine/Larrabee.h:83 | for a grid tile, `y * TILE_DIM_X + x` lies in `[0, TILE_DIM_X * TILE_DIM_Y)` and decodes back to (x, y) |
| Binning.BoxTileInGrid | Rasterizer/Rasterizer/src/Engine/Larrabee.h:118 | every tile of the box is a grid tile with an index inside the tile vector |
| Binning.ScanStep | Rasterizer/Rasterizer/src/Engine/Larrabee.h:81-82 | one step of the row-major scan adds exactly the current tile to the tiles already visited |
| Binning.FastPath | Rasterizer/Rasterizer/src/Engine/Larrabee.h:79 | the fast-path test `maxX - minX < 2 && maxY - minY < 2` on `uint32_t` differences (`U32Sub`); which boxes pass it is stated by `FastPathIsSmallBox` |
| Binning.FastPathIsSmallBox | Rasterizer/Rasterizer/src/Engine/Larrabee.h:79 | because the subtraction is unsigned, the fast path is taken exactly for nonempty boxes of at most 2 x 2 tiles |
| Binning.FastPathTakesWholeBox | Rasterizer/Rasterizer/src/Engine/Larrabee.h:79-85 | on the fast path a tile receives the id exactly when it is in the box, and the flag is unchanged |
| Binning.SmallTriangleKeepsFlag | Rasterizer/Rasterizer/src/Engine/Larrabee.h:73-116 | a triangle less than one tile (`2^shift` fixed-point units) wide and high spans at most two tiles per axis, so it takes the fast path or has an empty box: its trivial flag ends as it was, never forced false and never set by an accept test |
| Binning.TenPixelTriangleTakesFastPath | Rasterizer/Rasterizer/src/Engine/Larrabee.h:73-85 | a 10 x 10 pixel triangle at the origin with 4 fractional bits and 8-pixel tiles has box (0..1, 0..1), takes the fast path, reaches exactly those four tiles and keeps its flag |
| Binning.Rejected | Rasterizer/Rasterizer/src/Engine/Larrabee.h:94-103 | tile (x, y) is trivially rejected when some edge function is negative at the fixed-point position of its reject corner; what that means for the tile's square is stated by `TrivialRejectIsSound` |
| Binning.Accepted | Rasterizer/Rasterizer/src/Engine/Larrabee.h:105-116 | tile (x, y) is trivially accepted when all three edge functions are nonnegative at the positions of their accept corners; what that means for the tile's square is stated by `TrivialAcceptIsSound` |
| Binning.Receives | Rasterizer/Rasterizer/src/Engine/Larrabee.h:79-118 | only a tile of the grid ever receives a triangle's id; which tiles do is stated by `FastPathTakesWholeBox` and `GeneralPathRejects` |
| Binning.GeneralPathRejects | Rasterizer/Rasterizer/src/Engine/Larrabee.h:102-103 | on the general path a tile of the box receives the id exactly when no edge function is negative at its reject corner |
| Binning.TrivialRejectIsSound | Rasterizer/Rasterizer/src/Engine/Larrabee.h:94-103 | with reject corners at each edge's maximum, a rejected tile has some edge function negative at every point of its square |
| Binning.TrivialAcceptIsSound | Rasterizer/Rasterizer/src/Engine/Larrabee.h:105-116 | with accept corners at each edge's minimum, an accepted tile has all edge functions nonnegative at every point of its square |
| Binning.IdsFor | Rasterizer/Rasterizer/src/Engine/Larrabee.h:71 | a pass appends no more ids to a tile than there are triangles in the buffer |
| Binning.IdsForConcat | Rasterizer/Rasterizer/src/Engine/Larrabee.h:71 | the ids from a buffer split in two are those of the first part followed by those of the second: buffer order is kept |
| Binning.IdsForOneTriangle | Rasterizer/Rasterizer/src/Engine/Larrabee.h:71-118 | one triangle contributes its id exactly once to a tile that receives it, and not at all otherwise, at its place in buffer order |
| Binning.IdsForOnlyReceivers | Rasterizer/Rasterizer/src/Engine/Larrabee.h:83 | every id in a tile's list is the id of some triangle of the buffer that the tile receives |
| Binning.IdsForAllReceivers | Rasterizer/Rasterizer/src/Engine/Larrabee.h:83 | the id of every triangle of the buffer that a tile receives is in that tile's list |
| Binning.IdsForReceivers | Rasterizer/Rasterizer/src/Engine/Larrabee.h:83 | an id is in a tile's list exactly when some triangle of the buffer with that id is received by that tile |
| Binning.FlagStep | Rasterizer/Rasterizer/src/Engine/Larrabee.h:102-116 | a rejected tile leaves the flag as it was; any other tile overwrites it with its own accept test |
| Binning.FlagRowEnd | Rasterizer/Rasterizer/src/Engine/Larrabee.h:88-90 | the flag at the end of row y is the flag at the start of row y + 1 |
| Binning.FlagAfter | Rasterizer/Rasterizer/src/Engine/Larrabee.h:88-116 | the trivial flag part-way through the general path's scan, every tile not rejected overwriting it with its accept test; its steps and meaning are stated by `FlagStep`, `FlagRowEnd`, `FlagAllRejected` and `FlagIsLastUnrejected` |
| Binning.FlagAllRejected | Rasterizer/Rasterizer/src/Engine/Larrabee.h:102-103 | while every tile visited so far was rejected, the flag keeps its initial value |
| Binning.FlagIsLastUnrejected | Rasterizer/Rasterizer/src/Engine/Larrabee.h:113-116 | otherwise the flag is the accept test of the last visited tile, in row-major order, that was not rejected |
| Binning.TrivialFlagOfLastUnrejectedTile | Rasterizer/Rasterizer/src/Engine/Larrabee.h:88-116 | on the general path the final flag is the accept test of the last tile of the box, in row-major order, that was not rejected |
| Binning.TrivialFlagKeptWhenAllRejected | Rasterizer/Rasterizer/src/Engine/Larrabee.h:102-103 | when every tile of the box is rejected, the flag keeps its old value |
| Binning.TrivialAfter | Rasterizer/Rasterizer/src/Engine/Larrabee.h:79-116 | the flag a pass leaves on a triangle: kept on the fast path, otherwise the flag after the whole scan; its value is stated by `TrivialFlagOfLastUnrejectedTile`, `TrivialFlagKeptWhenAllRejected`, `FastPathTakesWholeBox` and `SmallTriangleKeepsFlag` |
| PixelBoxes.ClippedPixelBox | Rasterizer/Rasterizer/src/Engine/Larrabee.h:34-41 | before alignment the box lies within `[minRaster, maxRaster - 1]` on both axes |
| PixelBoxes.ClippedPixelBoxIsIntersection | Rasterizer/Rasterizer/src/Engine/Larrabee.h:34-41 | a pixel is in the box exactly when it is a pixel of the tile whose fixed-point span meets the vertex range on both axes |
| PixelBoxes.PixelBoxOf | Rasterizer/Rasterizer/src/Engine/Larrabee.h:34-43 | after `minX -= minX % 2` the minima are even; a nonnegative minimum drops by at most one; the maxima are unchanged; so the aligned box still holds every pixel of the clipped box |
| Triangles.Triangle.MinX | Rasterizer/Rasterizer/src/Engine/Larrabee.h:73 | the smallest of the three vertex x coordinates |
| Triangles.Triangle.MaxX | Rasterizer/Rasterizer/src/Engine/Larrabee.h:74 | the largest of the three vertex x coordinates |
| Triangles.Triangle.MinY | Rasterizer/Rasterizer/src/Engine/Larrabee.h:75 | the smallest of the three vertex y coordinates |
| Triangles.Triangle.MaxY | Rasterizer/Rasterizer/src/Engine/Larrabee.h:76 | the largest of the three vertex y coordinates |
| Triangles.CornerOffset | Rasterizer/Rasterizer/src/Engine/Larrabee.h:94-96 | corner c decodes to an offset in {0,1} x {0,1} with `x + 2*y == c`: 0 to (0,0), 1 to (1,0), 2 to (0,1), 3 to (1,1) |
| Triangles.CornerPosition | Rasterizer/Rasterizer/src/Engine/Larrabee.h:94-111 | the fixed-point position `(tile + offset) << shift` of a corner of tile (x, y); shifting it back is stated by `CornerPositionTile` |
| Triangles.CornerPositionTile | Rasterizer/Rasterizer/src/Engine/Larrabee.h:98-100 | shifting a corner's position `(tile + offset) << shift` back right gives tile plus offset |
| Triangles.MaxCorner | Rasterizer/Rasterizer/src/Engine/Larrabee.h:94-96 | the corner whose offset is 1 on an axis exactly when the edge's coefficient on that axis is nonnegative |
| Triangles.MinCorner | Rasterizer/Rasterizer/src/Engine/Larrabee.h:105-107 | the corner whose offset is 0 on an axis exactly when the edge's coefficient on that axis is nonnegative |
| Triangles.Edge.Eval | Rasterizer/Rasterizer/src/Engine/Larrabee.h:102 | an edge function (`EdgeFunc0/1/2` of `Triangle.h`) is `a*x + b*y + c`; its extremes over a tile are stated by `EdgeMaxAtCorner` and `EdgeMinAtCorner` |
| Triangles.EdgeMaxAtCorner | Rasterizer/Rasterizer/src/Engine/Larrabee.h:98-102 | over a tile's square an edge function is largest at `MaxCorner` |
| Triangles.EdgeMinAtCorner | Rasterizer/Rasterizer/src/Engine/Larrabee.h:109-116 | over a tile's square an edge function is smallest at `MinCorner` |
| Tiles.Tile.AddAll | Rasterizer/Rasterizer/src/Engine/Larrabee.h:83 | adding ids to `bin` appends them to that list and raises that count by their number; bounds, other lists and other counts are unchanged, and the record stays valid |
| Tiles.Tile.Add | Rasterizer/Rasterizer/src/Engine/Larrabee.h:118 | `Tile::Add` keeps the record valid and the number of bins |
| Tiles.AddAllThenAdd | Rasterizer/Rasterizer/src/Engine/Larrabee.h:71-118 | adding ids one call at a time is adding them all at once |
| Numerics.ShiftRight | Rasterizer/Rasterizer/src/Engine/Larrabee.h:73-76 | `v >> n` is the floor of `v / 2^n`; it keeps the sign of v and does not grow its magnitude |
| Numerics.ShiftLeft | Rasterizer/Rasterizer/src/Engine/Larrabee.h:50 | `v << n` as `v * 2^n`; the round trip with `>>` is stated by `ShiftLeftThenRight` |
| Numerics.ShiftLeftThenRight | Rasterizer/Rasterizer/src/Engine/Larrabee.h:98-100 | `(v << n) >> n == v` |
| Numerics.CRem2 | Rasterizer/Rasterizer/src/Engine/Larrabee.h:42-43 | C++ `v % 2` differs from v by an even number and takes the sign of v |
| Numerics.AlignEven | Rasterizer/Rasterizer/src/Engine/Larrabee.h:42-43 | `v - v % 2` is even, moves a nonnegative v down by at most one and a negative v up by at most one, and keeps an even v |
| Numerics.U32Sub | Rasterizer/Rasterizer/src/Engine/Larrabee.h:79 | `uint32_t` subtraction is the difference when it is nonnegative and wraps by 2^32 otherwise |

## Left out

- Larrabee.AssignTriangles: requires every triangle's largest vertex x and y to be nonnegative. The box ends are `uint32_t`, so a negative clamped maximum v is stored as 2^32 + v, while the minimum of that axis is clamped to 0. The unsigned difference at `Larrabee.h:79` is then at least 2^31, so such a triangle always takes the general path. There, unless the other axis's range is empty, the loops of `Larrabee.h:88-90` run far past the grid (forever when v == -1, since `x <= 0xFFFFFFFF` always holds) and index outside `tiles` unless every tile they reach is rejected; that behaviour is not modelled. The requires also excludes the off-grid triangles whose other axis's range is empty (say every y negative and every x at least `TILE_DIM_X * 2^shift`). For those the source's loops touch no tile and leave tiles and flag as they were, except that when the wrapped maximum is y's and equals -1 (stored as 0xFFFFFFFF) the y loop spins forever without touching a tile. The model covers none of these triangles. `U32Sub` models the unsigned subtraction of the fast-path test.
- Binning.CellIndexInGrid: the tile index `y * TILE_DIM_X + x` is computed on unbounded integers. In the source it is `uint32_t` arithmetic (`Larrabee.h:83`, `Larrabee.h:118`) and wraps once `TILE_DIM_X * TILE_DIM_Y` exceeds 2^32, which the model's settings allow; that wrap is not modelled: for such a grid the model indexes the tile the unbounded index names, where the source would index the wrapped one.
- Larrabee.RasterizeTile: requires every id of the bin to index the buffer. The source reads only the ids up to the first empty box.
- Larrabee.RasterizeTile: does not model the SIMD triangle and the three edge values computed at the base pixel (`Larrabee.h:48-54`). Their types are defined outside this code and their results are unused. The walk returns its visits (id, pixel box, base pixel) instead.
- Numerics.ShiftLeft: integers are unbounded, so the 32-bit overflow of `<<` and of the edge evaluations is not modelled.
- How triangle setup chooses the reject and accept corners is in `Triangle.h`, which is not part of this model. The soundness lemmas take the intended choice (`RejectCornersChosen`, `AcceptCornersChosen`) as a hypothesis.
- The Sutherland-Hodgman clipper: its bodies are not available and its arithmetic is floating point.
- The working-directory lookup in `path.h`: file-system I/O.
- Concurrent calls on different bins: each call is modelled as sequential, so the race on the shared `isTrivial` field is not captured.
