/** The two routines of the Larrabee-style rasterizer: the binner, which appends each triangle's id to
    the tiles it may cover, and the per-tile walk over one bin's ids. */
module Larrabee {
  import opened Numerics
  import opened Configuration
  import opened Triangles
  import opened Tiles
  import opened Binning
  import opened PixelBoxes

  /** Every tile has a valid record with a list for `bin`. */
  predicate TilesReady(tiles: seq<Tile>, bin: nat)
  {
    forall k :: 0 <= k < |tiles| ==> tiles[k].Valid() && bin < |tiles[k].triangles|
  }

  /** What the walk does with one id: the pixel box it computed and the fixed-point base pixel
      `(minX << FIXED_POINT, minY << FIXED_POINT)` at which the edge functions are then evaluated. */
  datatype Visit = Visit(id: nat, box: PixelBox, pixelBase: Point)

  /** `Larrabee::RasterizeTile`: walks the ids of `bin` in the order they were appended, computing
      each one's pixel box, and returns on the first id whose box is empty. Neither the tile nor the
      buffer changes. */
  method RasterizeTile(s: Settings, bin: nat, buffer: array<Triangle>, tile: Tile) returns (walk: seq<Visit>)
    requires tile.Valid() && bin < |tile.triangles|
    requires forall i :: 0 <= i < |tile.triangles[bin]| ==> tile.triangles[bin][i] < buffer.Length
    ensures |walk| <= tile.binsIndex[bin]
    ensures forall i :: 0 <= i < |walk| ==>
      walk[i].id == tile.triangles[bin][i] &&
      walk[i].box == PixelBoxOf(s, tile, buffer[walk[i].id]) && !walk[i].box.IsEmpty() &&
      walk[i].pixelBase == Point(ShiftLeft(walk[i].box.minX, s.fixedPoint), ShiftLeft(walk[i].box.minY, s.fixedPoint))
    ensures |walk| < tile.binsIndex[bin] ==>
      PixelBoxOf(s, tile, buffer[tile.triangles[bin][|walk|]]).IsEmpty()
  {
    walk := [];
    var i := 0;
    while i < tile.binsIndex[bin]
      invariant 0 <= i <= tile.binsIndex[bin] && |walk| == i
      invariant forall j :: 0 <= j < i ==>
        walk[j].id == tile.triangles[bin][j] &&
        walk[j].box == PixelBoxOf(s, tile, buffer[walk[j].id]) && !walk[j].box.IsEmpty() &&
        walk[j].pixelBase == Point(ShiftLeft(walk[j].box.minX, s.fixedPoint), ShiftLeft(walk[j].box.minY, s.fixedPoint))
    {
      var id := tile.triangles[bin][i];
      var triangle := buffer[id];

      var minX := Max(tile.minRaster.x, ShiftRight(triangle.MinX(), s.fixedPoint));
      var maxX := Min(tile.maxRaster.x - 1, ShiftRight(triangle.MaxX(), s.fixedPoint));
      var minY := Max(tile.minRaster.y, ShiftRight(triangle.MinY(), s.fixedPoint));
      var maxY := Min(tile.maxRaster.y - 1, ShiftRight(triangle.MaxY(), s.fixedPoint));
      minX := minX - CRem2(minX);
      minY := minY - CRem2(minY);

      if maxX < minX || maxY < minY {
        return;
      }

      var pixelBase := Point(ShiftLeft(minX, s.fixedPoint), ShiftLeft(minY, s.fixedPoint));
      walk := walk + [Visit(id, PixelBox(minX, maxX, minY, maxY), pixelBase)];
      i := i + 1;
    }
  }

  /** The tiles once triangle T is binned: every tile that receives T has had `Tile::Add(bin, T.id)`. */
  function Delivered(s: Settings, bin: nat, T: Triangle, before: seq<Tile>): (r: seq<Tile>)
    requires s.Valid() && Binnable(T) && TilesReady(before, bin)
    ensures |r| == |before| && TilesReady(r, bin)
  {
    seq(|before|, k requires 0 <= k < |before| =>
      if Receives(s, T, k % s.tileDimX, k / s.tileDimX) then before[k].Add(bin, T.id) else before[k])
  }

  /** The tiles once every triangle of tris is binned: each tile's list has grown by IdsFor. */
  function Binned(s: Settings, bin: nat, tris: seq<Triangle>, orig: seq<Tile>): (r: seq<Tile>)
    requires s.Valid() && AllBinnable(tris) && TilesReady(orig, bin)
    ensures |r| == |orig| && TilesReady(r, bin)
  {
    seq(|orig|, k requires 0 <= k < |orig| => orig[k].AddAll(bin, IdsFor(s, tris, k % s.tileDimX, k / s.tileDimX)))
  }

  /** The buffer once its first n triangles are binned: those carry the flag TrivialAfter gives them. */
  function Flagged(s: Settings, tris: seq<Triangle>, n: nat): (r: seq<Triangle>)
    requires s.Valid() && AllBinnable(tris)
    ensures |r| == |tris|
  {
    seq(|tris|, j requires 0 <= j < |tris| =>
      if j < n then tris[j].(isTrivial := TrivialAfter(s, tris[j])) else tris[j])
  }

  /** Binning no triangle changes no tile. */
  lemma BinnedNothing(s: Settings, bin: nat, orig: seq<Tile>)
    requires s.Valid() && TilesReady(orig, bin)
    ensures Binned(s, bin, [], orig) == orig
  {
    forall k | 0 <= k < |orig|
      ensures Binned(s, bin, [], orig)[k] == orig[k]
    {
      AddNothing(orig[k], bin);
    }
  }

  /** Binning one more triangle delivers it on top of what the earlier ones left. */
  lemma {:induction false} BinnedStep(s: Settings, bin: nat, tris: seq<Triangle>, T: Triangle, orig: seq<Tile>)
    requires s.Valid() && AllBinnable(tris) && Binnable(T) && TilesReady(orig, bin)
    ensures AllBinnable(tris + [T])
    ensures Binned(s, bin, tris + [T], orig) == Delivered(s, bin, T, Binned(s, bin, tris, orig))
  {
    var longer := tris + [T];
    assert longer[..|longer| - 1] == tris;
    var a := Binned(s, bin, longer, orig);
    var b := Delivered(s, bin, T, Binned(s, bin, tris, orig));
    forall k | 0 <= k < |orig|
      ensures a[k] == b[k]
    {
      var x, y := k % s.tileDimX, k / s.tileDimX;
      assert IdsFor(s, longer, x, y) == IdsFor(s, tris, x, y) + (if Receives(s, T, x, y) then [T.id] else []);
      AddAllThenAdd(orig[k], bin, IdsFor(s, tris, x, y), T.id);
      if !Receives(s, T, x, y) {
        assert IdsFor(s, tris, x, y) + [] == IdsFor(s, tris, x, y);
      }
    }
  }

  /** Binning triangle n sets its flag and no other. */
  lemma FlaggedStep(s: Settings, tris: seq<Triangle>, n: nat)
    requires s.Valid() && AllBinnable(tris) && n < |tris|
    ensures Flagged(s, tris, n)[n] == tris[n]
    ensures Flagged(s, tris, n + 1) == Flagged(s, tris, n)[n := tris[n].(isTrivial := TrivialAfter(s, tris[n]))]
  {
  }

  /** Binning touches only the lists and counts of `bin`: each tile's list for `bin` grows by the ids it
      receives, in buffer order, and its bounds and every other bin stay as they were. */
  lemma BinnedChangesOnlyBin(s: Settings, bin: nat, tris: seq<Triangle>, orig: seq<Tile>, k: int)
    requires s.Valid() && AllBinnable(tris) && TilesReady(orig, bin) && 0 <= k < |orig|
    ensures var t := Binned(s, bin, tris, orig)[k];
      t.minRaster == orig[k].minRaster && t.maxRaster == orig[k].maxRaster &&
      t.triangles[bin] == orig[k].triangles[bin] + IdsFor(s, tris, k % s.tileDimX, k / s.tileDimX) &&
      t.binsIndex[bin] == orig[k].binsIndex[bin] + |IdsFor(s, tris, k % s.tileDimX, k / s.tileDimX)| &&
      |t.triangles| == |orig[k].triangles| &&
      forall b :: 0 <= b < |t.triangles| && b != bin ==>
        t.triangles[b] == orig[k].triangles[b] && t.binsIndex[b] == orig[k].binsIndex[b]
  {
  }

  /** Binning changes only the trivial flag of each triangle, and only of the first n. */
  lemma FlaggedKeepsGeometry(s: Settings, tris: seq<Triangle>, n: nat, j: int)
    requires s.Valid() && AllBinnable(tris) && 0 <= j < |tris|
    ensures Flagged(s, tris, n)[j] == tris[j].(isTrivial := Flagged(s, tris, n)[j].isTrivial)
    ensures n <= j ==> Flagged(s, tris, n)[j] == tris[j]
  {
  }

  /** `Larrabee::AssignTriangles`: one pass over the buffer in order. Each tile's list for `bin` grows by
      the ids of the triangles it receives, in buffer order (Binned); no other list, bound or count
      changes. Each triangle keeps its geometry and ends with the trivial flag TrivialAfter gives it
      (Flagged). */
  method AssignTriangles(s: Settings, bin: nat, buffer: array<Triangle>, tiles: array<Tile>)
    requires s.Valid() && tiles.Length == s.TileCount() && TilesReady(tiles[..], bin)
    requires AllBinnable(buffer[..])
    modifies buffer, tiles
    ensures tiles[..] == Binned(s, bin, old(buffer[..]), old(tiles[..]))
    ensures buffer[..] == Flagged(s, old(buffer[..]), buffer.Length)
  {
    ghost var tris := buffer[..];
    ghost var orig := tiles[..];
    var shift := s.Shift();
    BinnedNothing(s, bin, orig);
    assert tris[..0] == [];
    var t := 0;
    while t < buffer.Length
      invariant 0 <= t <= buffer.Length
      invariant buffer[..] == Flagged(s, tris, t)
      invariant tiles[..] == Binned(s, bin, tris[..t], orig)
    {
      FlaggedStep(s, tris, t);
      var T := buffer[t];
      var minX := Max(0, ShiftRight(T.MinX(), shift));
      var maxX := Min(s.tileDimX - 1, ShiftRight(T.MaxX(), shift));
      var minY := Max(0, ShiftRight(T.MinY(), shift));
      var maxY := Min(s.tileDimY - 1, ShiftRight(T.MaxY(), shift));
      var box := TileBox(minX, maxX, minY, maxY);
      assert box == BoundingTiles(s, T);

      if U32Sub(maxX, minX) < 2 && U32Sub(maxY, minY) < 2 {
        BinWholeBox(s, bin, T, box, tiles);
        FastPathTakesWholeBox(s, T, 0, 0);
      } else {
        BinClassified(s, bin, t, T, box, buffer, tiles);
      }

      BinnedStep(s, bin, tris[..t], T, orig);
      assert tris[..t] + [T] == tris[..t + 1];
      t := t + 1;
    }
    assert tris[..buffer.Length] == tris;
  }

  /** The fast path (a box of at most 2 x 2 tiles): appends the id to every tile of the box. */
  method BinWholeBox(s: Settings, bin: nat, T: Triangle, box: TileBox, tiles: array<Tile>)
    requires s.Valid() && Binnable(T) && box == BoundingTiles(s, T) && FastPath(box)
    requires tiles.Length == s.TileCount() && TilesReady(tiles[..], bin)
    modifies tiles
    ensures tiles[..] == Delivered(s, bin, T, old(tiles[..]))
  {
    var y := box.minY;
    while y <= box.maxY
      invariant ScanPos(box, y, box.minX)
      invariant forall k :: 0 <= k < tiles.Length ==>
        tiles[k] == if Processed(box, y, box.minX, k % s.tileDimX, k / s.tileDimX)
                    then old(tiles[k]).Add(bin, T.id) else old(tiles[k])
    {
      var x := box.minX;
      while x <= box.maxX
        invariant ScanPos(box, y, x) && y <= box.maxY
        invariant forall k :: 0 <= k < tiles.Length ==>
          tiles[k] == if Processed(box, y, x, k % s.tileDimX, k / s.tileDimX)
                      then old(tiles[k]).Add(bin, T.id) else old(tiles[k])
      {
        BoxTileInGrid(s, T, x, y);
        var k := y * s.tileDimX + x;
        ScanStep(s, box, y, x, k);
        tiles[k] := tiles[k].Add(bin, T.id);
        forall j | 0 <= j < tiles.Length
          ensures tiles[j] == if Processed(box, y, x + 1, j % s.tileDimX, j / s.tileDimX)
                              then old(tiles[j]).Add(bin, T.id) else old(tiles[j])
        {
          ScanStep(s, box, y, x, j);
        }
        x := x + 1;
      }
      y := y + 1;
    }
    assert y == Max(box.minY, box.maxY + 1);
    WholeBoxDelivered(s, bin, T, old(tiles[..]), tiles[..]);
  }

  /** On the fast path, adding the id to every tile of the box is delivering the triangle. */
  lemma WholeBoxDelivered(s: Settings, bin: nat, T: Triangle, before: seq<Tile>, after: seq<Tile>)
    requires s.Valid() && Binnable(T) && FastPath(BoundingTiles(s, T)) && TilesReady(before, bin)
    requires |after| == |before|
    requires forall k :: 0 <= k < |after| ==>
      after[k] == if Processed(BoundingTiles(s, T), Max(BoundingTiles(s, T).minY, BoundingTiles(s, T).maxY + 1),
                                BoundingTiles(s, T).minX, k % s.tileDimX, k / s.tileDimX)
                  then before[k].Add(bin, T.id) else before[k]
    ensures after == Delivered(s, bin, T, before)
  {
    var d := Delivered(s, bin, T, before);
    forall k | 0 <= k < |after|
      ensures after[k] == d[k]
    {
      FastPathTakesWholeBox(s, T, k % s.tileDimX, k / s.tileDimX);
    }
  }

  /** The tiles after the general path has reached scan position (y, x), starting from `orig`: each
      tile of the box scanned so far and not trivially rejected has received the id. */
  function TilesAfter(s: Settings, bin: nat, T: Triangle, box: TileBox, y: int, x: int, orig: seq<Tile>): (r: seq<Tile>)
    requires s.Valid() && TilesReady(orig, bin)
    ensures |r| == |orig| && TilesReady(r, bin)
  {
    seq(|orig|, k requires 0 <= k < |orig| =>
      if Processed(box, y, x, k % s.tileDimX, k / s.tileDimX) && !Rejected(s, T, k % s.tileDimX, k / s.tileDimX)
      then orig[k].Add(bin, T.id) else orig[k])
  }

  /** Before the first tile nothing has changed. */
  lemma TilesAfterStart(s: Settings, bin: nat, T: Triangle, box: TileBox, orig: seq<Tile>)
    requires s.Valid() && TilesReady(orig, bin)
    ensures TilesAfter(s, bin, T, box, box.minY, box.minX, orig) == orig
  {
  }

  /** Scanning tile (x, y) of the box changes at most that tile's entry: it receives the id unless
      trivially rejected. */
  lemma {:induction false} TilesAfterStep(s: Settings, bin: nat, T: Triangle, box: TileBox, y: int, x: int,
                                          orig: seq<Tile>)
    requires s.Valid() && TilesReady(orig, bin) && |orig| == s.TileCount()
    requires box.Contains(x, y) && 0 <= x < s.tileDimX && 0 <= y < s.tileDimY
    ensures 0 <= y * s.tileDimX + x < |orig|
    ensures var k := y * s.tileDimX + x;
      var before := TilesAfter(s, bin, T, box, y, x, orig);
      before[k] == orig[k] &&
      TilesAfter(s, bin, T, box, y, x + 1, orig) ==
        if Rejected(s, T, x, y) then before else before[k := before[k].Add(bin, T.id)]
  {
    CellIndexInGrid(s, x, y);
    var k := y * s.tileDimX + x;
    var before := TilesAfter(s, bin, T, box, y, x, orig);
    var after := TilesAfter(s, bin, T, box, y, x + 1, orig);
    ScanStep(s, box, y, x, k);
    var expected := if Rejected(s, T, x, y) then before else before[k := before[k].Add(bin, T.id)];
    forall j | 0 <= j < |orig|
      ensures after[j] == expected[j]
    {
      ScanStep(s, box, y, x, j);
    }
  }

  /** The end of row y is the start of row y + 1. */
  lemma TilesAfterRowEnd(s: Settings, bin: nat, T: Triangle, box: TileBox, y: int, x: int, orig: seq<Tile>)
    requires s.Valid() && TilesReady(orig, bin)
    requires ScanPos(box, y, x) && y <= box.maxY && box.maxX < x
    ensures TilesAfter(s, bin, T, box, y, x, orig) == TilesAfter(s, bin, T, box, y + 1, box.minX, orig)
  {
    var a := TilesAfter(s, bin, T, box, y, x, orig);
    var b := TilesAfter(s, bin, T, box, y + 1, box.minX, orig);
    forall k | 0 <= k < |orig|
      ensures a[k] == b[k]
    {
      assert Processed(box, y, x, k % s.tileDimX, k / s.tileDimX) <==>
             Processed(box, y + 1, box.minX, k % s.tileDimX, k / s.tileDimX);
    }
  }

  /** Once every row is scanned, the general path has delivered the triangle: a tile has received the
      id exactly when it lies in the box and was not trivially rejected. */
  lemma TilesAfterEnd(s: Settings, bin: nat, T: Triangle, box: TileBox, y: int, orig: seq<Tile>)
    requires s.Valid() && Binnable(T) && box == BoundingTiles(s, T) && !FastPath(box)
    requires TilesReady(orig, bin) && box.maxY < y
    ensures TilesAfter(s, bin, T, box, y, box.minX, orig) == Delivered(s, bin, T, orig)
  {
    var a := TilesAfter(s, bin, T, box, y, box.minX, orig);
    var d := Delivered(s, bin, T, orig);
    forall k | 0 <= k < |orig|
      ensures a[k] == d[k]
    {
      assert Processed(box, y, box.minX, k % s.tileDimX, k / s.tileDimX) <==> box.Contains(k % s.tileDimX, k / s.tileDimX);
    }
  }

  /** The general path: for each tile of the box, in row-major order, the trivial reject test at the
      reject corners; a tile that passes overwrites the triangle's trivial flag with the accept test at
      the accept corners and receives the id. */
  method BinClassified(s: Settings, bin: nat, t: nat, T: Triangle, box: TileBox, buffer: array<Triangle>,
                       tiles: array<Tile>)
    requires s.Valid() && Binnable(T) && box == BoundingTiles(s, T) && !FastPath(box)
    requires t < buffer.Length && buffer[t] == T
    requires tiles.Length == s.TileCount() && TilesReady(tiles[..], bin)
    modifies buffer, tiles
    ensures tiles[..] == Delivered(s, bin, T, old(tiles[..]))
    ensures buffer[..] == old(buffer[..])[t := T.(isTrivial := TrivialAfter(s, T))]
  {
    ghost var orig := tiles[..];
    TilesAfterStart(s, bin, T, box, orig);
    var y := box.minY;
    while y <= box.maxY
      invariant ScanPos(box, y, box.minX)
      invariant tiles[..] == TilesAfter(s, bin, T, box, y, box.minX, orig)
      invariant buffer[..] == old(buffer[..])[t := T.(isTrivial := FlagAfter(s, T, box, y, box.minX, T.isTrivial))]
    {
      ClassifyRow(s, bin, t, T, box, y, buffer, tiles, orig);
      y := y + 1;
    }
    assert y == Max(box.minY, box.maxY + 1);
    TilesAfterEnd(s, bin, T, box, y, orig);
  }

  /** One row y of the general path: the tiles of the box in that row, left to right. */
  method ClassifyRow(s: Settings, bin: nat, t: nat, T: Triangle, box: TileBox, y: int, buffer: array<Triangle>,
                     tiles: array<Tile>, ghost orig: seq<Tile>)
    requires s.Valid() && 0 <= box.minX && 0 <= box.minY && box.maxX < s.tileDimX && box.maxY < s.tileDimY
    requires ScanPos(box, y, box.minX) && y <= box.maxY
    requires t < buffer.Length && buffer[t] == T.(isTrivial := FlagAfter(s, T, box, y, box.minX, T.isTrivial))
    requires tiles.Length == s.TileCount() && |orig| == tiles.Length && TilesReady(orig, bin)
    requires tiles[..] == TilesAfter(s, bin, T, box, y, box.minX, orig)
    modifies buffer, tiles
    ensures tiles[..] == TilesAfter(s, bin, T, box, y + 1, box.minX, orig)
    ensures buffer[..] == old(buffer[..])[t := T.(isTrivial := FlagAfter(s, T, box, y + 1, box.minX, T.isTrivial))]
  {
    var x := box.minX;
    while x <= box.maxX
      invariant ScanPos(box, y, x)
      invariant tiles[..] == TilesAfter(s, bin, T, box, y, x, orig)
      invariant buffer[..] == old(buffer[..])[t := T.(isTrivial := FlagAfter(s, T, box, y, x, T.isTrivial))]
    {
      TilesAfterStep(s, bin, T, box, y, x, orig);
      FlagStep(s, T, box, y, x, T.isTrivial);
      ClassifyTile(s, bin, t, T, x, y, buffer, tiles);
      x := x + 1;
    }
    TilesAfterRowEnd(s, bin, T, box, y, x, orig);
    FlagRowEnd(s, T, box, y, x, T.isTrivial);
  }

  /** The body of the general path for tile (x, y): a tile rejected at its reject corners changes
      nothing; otherwise the triangle's flag becomes the accept test at the accept corners and the
      tile at `y * TILE_DIM_X + x` receives the id. */
  method ClassifyTile(s: Settings, bin: nat, t: nat, T: Triangle, x: int, y: int, buffer: array<Triangle>,
                      tiles: array<Tile>)
    requires s.Valid() && 0 <= x < s.tileDimX && 0 <= y < s.tileDimY
    requires t < buffer.Length && buffer[t] == T.(isTrivial := buffer[t].isTrivial)
    requires tiles.Length == s.TileCount() && TilesReady(tiles[..], bin)
    modifies buffer, tiles
    ensures buffer[..] == if Rejected(s, T, x, y) then old(buffer[..])
                          else old(buffer[..])[t := T.(isTrivial := Accepted(s, T, x, y))]
    ensures 0 <= y * s.tileDimX + x < tiles.Length
    ensures tiles[..] == if Rejected(s, T, x, y) then old(tiles[..])
                         else old(tiles[..])[y * s.tileDimX + x := old(tiles[y * s.tileDimX + x]).Add(bin, T.id)]
  {
    CellIndexInGrid(s, x, y);
    var shift := s.Shift();
    var rejCorner0 := CornerPosition(x, y, T.rejectCorner0, shift);
    var rejCorner1 := CornerPosition(x, y, T.rejectCorner1, shift);
    var rejCorner2 := CornerPosition(x, y, T.rejectCorner2, shift);

    if T.edge0.Eval(rejCorner0) < 0 || T.edge1.Eval(rejCorner1) < 0 || T.edge2.Eval(rejCorner2) < 0 {
      return;
    }

    var acptCorner0 := CornerPosition(x, y, T.acceptCorner0, shift);
    var acptCorner1 := CornerPosition(x, y, T.acceptCorner1, shift);
    var acptCorner2 := CornerPosition(x, y, T.acceptCorner2, shift);

    buffer[t] := buffer[t].(isTrivial :=
      T.edge0.Eval(acptCorner0) >= 0 && T.edge1.Eval(acptCorner1) >= 0 && T.edge2.Eval(acptCorner2) >= 0);

    tiles[y * s.tileDimX + x] := tiles[y * s.tileDimX + x].Add(bin, T.id);
  }
}
