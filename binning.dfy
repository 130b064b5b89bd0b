/** What `Larrabee::AssignTriangles` computes, stated per triangle and per tile: the clamped tile box,
    the small-box fast path, the trivial reject and accept tests at the triangle's corners, the ids a tile
    receives and the final trivial-coverage flag. The methods in module Larrabee are proved against these. */
module Binning {
  import opened Numerics
  import opened Configuration
  import opened Triangles

  /** A box of tiles `[minX, maxX] x [minY, maxY]`; empty when a maximum is below its minimum. */
  datatype TileBox = TileBox(minX: int, maxX: int, minY: int, maxY: int)
  {
    predicate Contains(x: int, y: int) { minX <= x <= maxX && minY <= y <= maxY }

    /** All four ends fit a `uint32_t`. */
    predicate InU32() { 0 <= minX < U32 && 0 <= maxX < U32 && 0 <= minY < U32 && 0 <= maxY < U32 }
  }

  /** The binner stores the box ends in `uint32_t`. When the largest x (or y) is negative, the clamped
      maximum v is negative and is stored as 2^32 + v, while that axis's minimum is clamped to 0, so
      the unsigned fast-path test fails and the general path runs. Unless the other axis's range is
      empty, its loops then run far past the grid (forever when v == -1, since `x <= 0xFFFFFFFF`
      always holds) and index outside the tile vector unless every tile they reach is rejected.
      Requiring nonnegative maxima also excludes the off-grid triangles whose other axis's range is
      empty: their loops touch no tile, though a y loop up to 0xFFFFFFFF never ends. */
  predicate Binnable(T: Triangle) { T.MaxX() >= 0 && T.MaxY() >= 0 }

  predicate AllBinnable(tris: seq<Triangle>)
  {
    forall i :: 0 <= i < |tris| ==> Binnable(tris[i])
  }

  /** The triangle's box in tile units: vertex bounds shifted right by `TILE + FIXED_POINT`,
      minima clamped at 0, maxima at the last tile of the grid. */
  function BoundingTiles(s: Settings, T: Triangle): (b: TileBox)
    requires s.Valid()
    ensures 0 <= b.minX < 0x8000_0000 && 0 <= b.minY < 0x8000_0000
    ensures b.maxX <= s.tileDimX - 1 && b.maxY <= s.tileDimY - 1
    ensures Binnable(T) ==> b.InU32()
  {
    var shift := s.Shift();
    TileBox(Max(0, ShiftRight(T.MinX(), shift)), Min(s.tileDimX - 1, ShiftRight(T.MaxX(), shift)),
            Max(0, ShiftRight(T.MinY(), shift)), Min(s.tileDimY - 1, ShiftRight(T.MaxY(), shift)))
  }

  /** The clamped box holds exactly the grid tiles whose fixed-point span meets the triangle's
      vertex range on both axes. */
  lemma BoundingTilesAreOverlap(s: Settings, T: Triangle, x: int, y: int)
    requires s.Valid()
    ensures BoundingTiles(s, T).Contains(x, y) <==>
      0 <= x < s.tileDimX && 0 <= y < s.tileDimY &&
      x * Pow2(s.Shift()) <= T.MaxX() && T.MinX() < (x + 1) * Pow2(s.Shift()) &&
      y * Pow2(s.Shift()) <= T.MaxY() && T.MinY() < (y + 1) * Pow2(s.Shift())
  {
    FloorShiftAtLeast(T.MaxX(), s.Shift(), x);
    FloorShiftAtMost(T.MinX(), s.Shift(), x);
    FloorShiftAtLeast(T.MaxY(), s.Shift(), y);
    FloorShiftAtMost(T.MinY(), s.Shift(), y);
  }

  /** A triangle lying wholly right of or below the grid gets no tile. */
  lemma OffGridTriangleGetsNoTile(s: Settings, T: Triangle, x: int, y: int)
    requires s.Valid()
    requires T.MinX() >= s.tileDimX * Pow2(s.Shift()) || T.MinY() >= s.tileDimY * Pow2(s.Shift())
    ensures !BoundingTiles(s, T).Contains(x, y)
  {
    FloorShiftAtLeast(T.MinX(), s.Shift(), s.tileDimX);
    FloorShiftAtLeast(T.MinY(), s.Shift(), s.tileDimY);
  }

  /** Tile (x, y) of the grid sits at `y * TILE_DIM_X + x` of the tile vector, and that index
      gives back x and y. */
  lemma CellIndexInGrid(s: Settings, x: int, y: int)
    requires s.Valid()
    requires 0 <= x < s.tileDimX && 0 <= y < s.tileDimY
    ensures 0 <= y * s.tileDimX + x < s.TileCount()
    ensures (y * s.tileDimX + x) / s.tileDimX == y && (y * s.tileDimX + x) % s.tileDimX == x
  {
    var w := s.tileDimX;
    MulLe(y + 1, s.tileDimY, w);
    MulNonnegative(y, w);
    FloorUnique(y * w + x, w, y);
  }

  /** Moving the scan one tile right adds exactly the tile at the old position, whose grid index
      is `y * TILE_DIM_X + x`, to the processed tiles. */
  lemma ScanStep(s: Settings, b: TileBox, y: int, x: int, k: int)
    requires s.Valid() && 0 <= k
    requires b.Contains(x, y) && 0 <= x < s.tileDimX && 0 <= y < s.tileDimY
    ensures Processed(b, y, x + 1, k % s.tileDimX, k / s.tileDimX) <==>
      Processed(b, y, x, k % s.tileDimX, k / s.tileDimX) || k == y * s.tileDimX + x
    ensures k == y * s.tileDimX + x ==> !Processed(b, y, x, k % s.tileDimX, k / s.tileDimX)
  {
    var w := s.tileDimX;
    CellIndexInGrid(s, x, y);
    if k / w == y && k % w == x {
      assert k == (k / w) * w + k % w;
    }
  }

  /** Every tile of a clamped box is a tile of the grid. */
  lemma BoxTileInGrid(s: Settings, T: Triangle, x: int, y: int)
    requires s.Valid()
    requires BoundingTiles(s, T).Contains(x, y)
    ensures 0 <= x < s.tileDimX && 0 <= y < s.tileDimY
    ensures 0 <= y * s.tileDimX + x < s.TileCount()
  {
    CellIndexInGrid(s, x, y);
  }

  /** The small-box test `maxX - minX < 2 && maxY - minY < 2`, on `uint32_t`. */
  predicate FastPath(b: TileBox)
    requires b.InU32()
  {
    U32Sub(b.maxX, b.minX) < 2 && U32Sub(b.maxY, b.minY) < 2
  }

  /** Because the subtraction is unsigned, an empty box never takes the fast path: the fast path
      is exactly the nonempty boxes of at most 2 x 2 tiles. */
  lemma FastPathIsSmallBox(s: Settings, T: Triangle)
    requires s.Valid() && Binnable(T)
    ensures var b := BoundingTiles(s, T);
      FastPath(b) <==> b.minX <= b.maxX <= b.minX + 1 && b.minY <= b.maxY <= b.minY + 1
  {
  }

  /** Some edge function is negative at its reject corner of tile (x, y). */
  predicate Rejected(s: Settings, T: Triangle, x: int, y: int)
  {
    var shift := s.Shift();
    T.edge0.Eval(CornerPosition(x, y, T.rejectCorner0, shift)) < 0 ||
    T.edge1.Eval(CornerPosition(x, y, T.rejectCorner1, shift)) < 0 ||
    T.edge2.Eval(CornerPosition(x, y, T.rejectCorner2, shift)) < 0
  }

  /** Every edge function is nonnegative at its accept corner of tile (x, y). */
  predicate Accepted(s: Settings, T: Triangle, x: int, y: int)
  {
    var shift := s.Shift();
    T.edge0.Eval(CornerPosition(x, y, T.acceptCorner0, shift)) >= 0 &&
    T.edge1.Eval(CornerPosition(x, y, T.acceptCorner1, shift)) >= 0 &&
    T.edge2.Eval(CornerPosition(x, y, T.acceptCorner2, shift)) >= 0
  }

  /** Each reject corner is where its edge function is largest on a tile. */
  predicate RejectCornersChosen(T: Triangle)
  {
    T.rejectCorner0 == MaxCorner(T.edge0) && T.rejectCorner1 == MaxCorner(T.edge1) &&
    T.rejectCorner2 == MaxCorner(T.edge2)
  }

  /** Each accept corner is where its edge function is smallest on a tile. */
  predicate AcceptCornersChosen(T: Triangle)
  {
    T.acceptCorner0 == MinCorner(T.edge0) && T.acceptCorner1 == MinCorner(T.edge1) &&
    T.acceptCorner2 == MinCorner(T.edge2)
  }

  /** With reject corners chosen as designed, a rejected tile holds no point of the triangle:
      at every point of its square some edge function is negative. */
  lemma TrivialRejectIsSound(s: Settings, T: Triangle, x: int, y: int, p: Point)
    requires RejectCornersChosen(T) && Rejected(s, T, x, y)
    requires InTileSquare(p, x, y, s.Shift())
    ensures T.edge0.Eval(p) < 0 || T.edge1.Eval(p) < 0 || T.edge2.Eval(p) < 0
  {
    EdgeMaxAtCorner(T.edge0, x, y, s.Shift(), p);
    EdgeMaxAtCorner(T.edge1, x, y, s.Shift(), p);
    EdgeMaxAtCorner(T.edge2, x, y, s.Shift(), p);
  }

  /** With accept corners chosen as designed, an accepted tile lies wholly inside the triangle:
      at every point of its square all three edge functions are nonnegative. */
  lemma TrivialAcceptIsSound(s: Settings, T: Triangle, x: int, y: int, p: Point)
    requires AcceptCornersChosen(T) && Accepted(s, T, x, y)
    requires InTileSquare(p, x, y, s.Shift())
    ensures T.edge0.Eval(p) >= 0 && T.edge1.Eval(p) >= 0 && T.edge2.Eval(p) >= 0
  {
    EdgeMinAtCorner(T.edge0, x, y, s.Shift(), p);
    EdgeMinAtCorner(T.edge1, x, y, s.Shift(), p);
    EdgeMinAtCorner(T.edge2, x, y, s.Shift(), p);
  }

  /** Whether tile (x, y) receives the triangle's id, given its box b: every tile of a small box
      does; otherwise a tile of the box does unless trivially rejected. */
  predicate ReceivesIn(s: Settings, T: Triangle, b: TileBox, x: int, y: int)
    requires b.InU32()
  {
    b.Contains(x, y) && (FastPath(b) || !Rejected(s, T, x, y))
  }

  predicate Receives(s: Settings, T: Triangle, x: int, y: int)
    requires s.Valid() && Binnable(T)
    ensures Receives(s, T, x, y) ==> 0 <= x < s.tileDimX && 0 <= y < s.tileDimY
  {
    ReceivesIn(s, T, BoundingTiles(s, T), x, y)
  }

  /** The fast path hands the id to every tile of the box, with no edge test, and leaves
      the trivial flag as it was. */
  lemma FastPathTakesWholeBox(s: Settings, T: Triangle, x: int, y: int)
    requires s.Valid() && Binnable(T) && FastPath(BoundingTiles(s, T))
    ensures Receives(s, T, x, y) <==> BoundingTiles(s, T).Contains(x, y)
    ensures TrivialAfter(s, T) == T.isTrivial
  {
  }

  /** On the general path a tile of the box receives the id exactly when no edge function is
      negative at its reject corner. */
  lemma GeneralPathRejects(s: Settings, T: Triangle, x: int, y: int)
    requires s.Valid() && Binnable(T) && !FastPath(BoundingTiles(s, T))
    requires BoundingTiles(s, T).Contains(x, y)
    ensures Receives(s, T, x, y) <==>
      T.edge0.Eval(CornerPosition(x, y, T.rejectCorner0, s.Shift())) >= 0 &&
      T.edge1.Eval(CornerPosition(x, y, T.rejectCorner1, s.Shift())) >= 0 &&
      T.edge2.Eval(CornerPosition(x, y, T.rejectCorner2, s.Shift())) >= 0
  {
  }

  /** The ids appended to tile (x, y)'s list by one pass over the buffer, in buffer order. */
  function IdsFor(s: Settings, tris: seq<Triangle>, x: int, y: int): (ids: seq<nat>)
    requires s.Valid() && AllBinnable(tris)
    ensures |ids| <= |tris|
    decreases |tris|
  {
    if tris == [] then []
    else
      var last := tris[|tris| - 1];
      IdsFor(s, tris[..|tris| - 1], x, y) + (if Receives(s, last, x, y) then [last.id] else [])
  }

  /** Buffers concatenate to concatenated id lists: the lists keep buffer order. */
  lemma {:induction false} IdsForConcat(s: Settings, a: seq<Triangle>, c: seq<Triangle>, x: int, y: int)
    requires s.Valid() && AllBinnable(a) && AllBinnable(c)
    ensures AllBinnable(a + c)
    ensures IdsFor(s, a + c, x, y) == IdsFor(s, a, x, y) + IdsFor(s, c, x, y)
    decreases |c|
  {
    if c == [] {
      assert a + c == a;
    } else {
      var c' := c[..|c| - 1];
      assert (a + c)[..|a + c| - 1] == a + c';
      IdsForConcat(s, a, c', x, y);
    }
  }

  /** Each triangle of the buffer contributes its id to a tile at most once, at its own place:
      once if the tile receives it and not at all otherwise. */
  lemma IdsForOneTriangle(s: Settings, a: seq<Triangle>, T: Triangle, c: seq<Triangle>, x: int, y: int)
    requires s.Valid() && AllBinnable(a) && Binnable(T) && AllBinnable(c)
    ensures AllBinnable(a + [T] + c)
    ensures IdsFor(s, a + [T] + c, x, y) ==
      IdsFor(s, a, x, y) + (if Receives(s, T, x, y) then [T.id] else []) + IdsFor(s, c, x, y)
  {
    assert AllBinnable([T]);
    IdsForConcat(s, a, [T], x, y);
    IdsForConcat(s, a + [T], c, x, y);
    assert [T][..0] == [];
  }

  /** Every id in a tile's list belongs to a triangle of the buffer that the tile receives. */
  lemma {:induction false} IdsForOnlyReceivers(s: Settings, tris: seq<Triangle>, x: int, y: int, id: nat)
    requires s.Valid() && AllBinnable(tris)
    requires id in IdsFor(s, tris, x, y)
    ensures exists i :: 0 <= i < |tris| && tris[i].id == id && Receives(s, tris[i], x, y)
    decreases |tris|
  {
    var init := tris[..|tris| - 1];
    if id in IdsFor(s, init, x, y) {
      IdsForOnlyReceivers(s, init, x, y, id);
      var i :| 0 <= i < |init| && init[i].id == id && Receives(s, init[i], x, y);
      assert tris[i] == init[i];
    } else {
      assert tris[|tris| - 1].id == id && Receives(s, tris[|tris| - 1], x, y);
    }
  }

  /** A tile's list holds the id of every triangle of the buffer that the tile receives. */
  lemma {:induction false} IdsForAllReceivers(s: Settings, tris: seq<Triangle>, x: int, y: int, i: int)
    requires s.Valid() && AllBinnable(tris)
    requires 0 <= i < |tris| && Receives(s, tris[i], x, y)
    ensures tris[i].id in IdsFor(s, tris, x, y)
    decreases |tris|
  {
    var init := tris[..|tris| - 1];
    if i < |init| {
      assert init[i] == tris[i];
      IdsForAllReceivers(s, init, x, y, i);
    }
  }

  /** A tile's list holds exactly the ids of the buffer's triangles that it receives. */
  lemma IdsForReceivers(s: Settings, tris: seq<Triangle>, x: int, y: int, id: nat)
    requires s.Valid() && AllBinnable(tris)
    ensures id in IdsFor(s, tris, x, y) <==>
      exists i :: 0 <= i < |tris| && tris[i].id == id && Receives(s, tris[i], x, y)
  {
    if id in IdsFor(s, tris, x, y) {
      IdsForOnlyReceivers(s, tris, x, y, id);
    }
    if exists i :: 0 <= i < |tris| && tris[i].id == id && Receives(s, tris[i], x, y) {
      var i :| 0 <= i < |tris| && tris[i].id == id && Receives(s, tris[i], x, y);
      IdsForAllReceivers(s, tris, x, y, i);
    }
  }

  /** A triangle with a 10 x 10 pixel footprint at the origin, with 4 fractional bits and 8-pixel tiles,
      spans the 2 x 2 tiles at the grid's corner: it takes the fast path, every one of those tiles
      receives it, and its trivial flag is left as it was. */
  lemma TenPixelTriangleTakesFastPath(s: Settings, T: Triangle, x: int, y: int)
    requires s.Valid() && s.fixedPoint == 4 && s.tile == 3 && 2 <= s.tileDimX && 2 <= s.tileDimY
    requires T.v0 == Vertex(0, 0) && T.v1 == Vertex(160, 0) && T.v2 == Vertex(0, 160)
    ensures Binnable(T) && BoundingTiles(s, T) == TileBox(0, 1, 0, 1) && FastPath(BoundingTiles(s, T))
    ensures Receives(s, T, x, y) <==> 0 <= x <= 1 && 0 <= y <= 1
    ensures TrivialAfter(s, T) == T.isTrivial
  {
    assert Pow2(7) == 128 by {
      assert Pow2(1) == 2 && Pow2(2) == 4 && Pow2(3) == 8 && Pow2(4) == 16 && Pow2(5) == 32 && Pow2(6) == 64;
    }
    FloorUnique(160, Pow2(7), 1);
    FloorUnique(0, Pow2(7), 0);
  }

  /** A scan position of the tile loops: row y, column x, in row-major order over box b. */
  predicate ScanPos(b: TileBox, y: int, x: int)
  {
    b.minY <= y <= Max(b.minY, b.maxY + 1) && b.minX <= x &&
    (x == b.minX || (y <= b.maxY && x <= b.maxX + 1))
  }

  /** Tile (cx, cy) of box b comes before scan position (y, x). */
  predicate Processed(b: TileBox, y: int, x: int, cx: int, cy: int)
  {
    b.Contains(cx, cy) && (cy < y || (cy == y && cx < x))
  }

  /** Tile (cx, cy) comes before tile (dx, dy) in row-major order. */
  predicate RowMajorBefore(cx: int, cy: int, dx: int, dy: int)
  {
    cy < dy || (cy == dy && cx < dx)
  }

  /** The trivial flag after the general-path loops reach scan position (y, x), starting from init:
      every tile not rejected overwrites it with its accept test. */
  function FlagAfter(s: Settings, T: Triangle, b: TileBox, y: int, x: int, init: bool): bool
    requires ScanPos(b, y, x)
    decreases y - b.minY, x - b.minX
  {
    if x > b.minX then
      var f := FlagAfter(s, T, b, y, x - 1, init);
      if Rejected(s, T, x - 1, y) then f else Accepted(s, T, x - 1, y)
    else if y > b.minY then
      FlagAfter(s, T, b, y - 1, Max(b.minX, b.maxX + 1), init)
    else
      init
  }

  /** Scanning tile (x, y): a rejected tile leaves the flag, any other overwrites it with its accept test. */
  lemma FlagStep(s: Settings, T: Triangle, b: TileBox, y: int, x: int, init: bool)
    requires ScanPos(b, y, x) && y <= b.maxY && x <= b.maxX
    ensures ScanPos(b, y, x + 1)
    ensures FlagAfter(s, T, b, y, x + 1, init) ==
      if Rejected(s, T, x, y) then FlagAfter(s, T, b, y, x, init) else Accepted(s, T, x, y)
  {
  }

  /** The end of row y is the start of row y + 1. */
  lemma FlagRowEnd(s: Settings, T: Triangle, b: TileBox, y: int, x: int, init: bool)
    requires ScanPos(b, y, x) && y <= b.maxY && b.maxX < x
    ensures ScanPos(b, y + 1, b.minX)
    ensures FlagAfter(s, T, b, y, x, init) == FlagAfter(s, T, b, y + 1, b.minX, init)
  {
  }

  /** If every tile processed so far was rejected, the flag is still the initial one. */
  lemma {:induction false} FlagAllRejected(s: Settings, T: Triangle, b: TileBox, y: int, x: int, init: bool)
    requires ScanPos(b, y, x)
    requires forall cx, cy :: Processed(b, y, x, cx, cy) ==> Rejected(s, T, cx, cy)
    ensures FlagAfter(s, T, b, y, x, init) == init
    decreases y - b.minY, x - b.minX
  {
    if x > b.minX {
      assert Processed(b, y, x, x - 1, y);
      forall cx, cy | Processed(b, y, x - 1, cx, cy) ensures Rejected(s, T, cx, cy) {
        assert Processed(b, y, x, cx, cy);
      }
      FlagAllRejected(s, T, b, y, x - 1, init);
    } else if y > b.minY {
      var x' := Max(b.minX, b.maxX + 1);
      forall cx, cy | Processed(b, y - 1, x', cx, cy) ensures Rejected(s, T, cx, cy) {
        assert Processed(b, y, x, cx, cy);
      }
      FlagAllRejected(s, T, b, y - 1, x', init);
    }
  }

  /** Otherwise the flag is the accept test of the last tile processed that was not rejected. */
  lemma {:induction false} FlagIsLastUnrejected(s: Settings, T: Triangle, b: TileBox, y: int, x: int, init: bool,
                                                cx: int, cy: int)
    requires ScanPos(b, y, x)
    requires Processed(b, y, x, cx, cy) && !Rejected(s, T, cx, cy)
    requires forall dx, dy :: Processed(b, y, x, dx, dy) && RowMajorBefore(cx, cy, dx, dy) ==> Rejected(s, T, dx, dy)
    ensures FlagAfter(s, T, b, y, x, init) == Accepted(s, T, cx, cy)
    decreases y - b.minY, x - b.minX
  {
    if x > b.minX {
      if cx != x - 1 || cy != y {
        assert Processed(b, y, x, x - 1, y) && RowMajorBefore(cx, cy, x - 1, y);
        forall dx, dy | Processed(b, y, x - 1, dx, dy) && RowMajorBefore(cx, cy, dx, dy)
          ensures Rejected(s, T, dx, dy)
        {
          assert Processed(b, y, x, dx, dy);
        }
        FlagIsLastUnrejected(s, T, b, y, x - 1, init, cx, cy);
      }
    } else if y > b.minY {
      var x' := Max(b.minX, b.maxX + 1);
      forall dx, dy | Processed(b, y - 1, x', dx, dy) && RowMajorBefore(cx, cy, dx, dy)
        ensures Rejected(s, T, dx, dy)
      {
        assert Processed(b, y, x, dx, dy);
      }
      FlagIsLastUnrejected(s, T, b, y - 1, x', init, cx, cy);
    } else {
      assert false;
    }
  }

  /** The trivial flag a triangle carries once the binner is done with it. */
  function TrivialAfter(s: Settings, T: Triangle): bool
    requires s.Valid() && Binnable(T)
  {
    var b := BoundingTiles(s, T);
    if FastPath(b) then T.isTrivial
    else FlagAfter(s, T, b, Max(b.minY, b.maxY + 1), b.minX, T.isTrivial)
  }

  /** On the general path, the final flag is the accept test of the last tile of the box, in
      row-major order, that was not rejected. */
  lemma TrivialFlagOfLastUnrejectedTile(s: Settings, T: Triangle, cx: int, cy: int)
    requires s.Valid() && Binnable(T) && !FastPath(BoundingTiles(s, T))
    requires BoundingTiles(s, T).Contains(cx, cy) && !Rejected(s, T, cx, cy)
    requires forall dx, dy :: BoundingTiles(s, T).Contains(dx, dy) && RowMajorBefore(cx, cy, dx, dy) ==>
      Rejected(s, T, dx, dy)
    ensures TrivialAfter(s, T) == Accepted(s, T, cx, cy)
  {
    var b := BoundingTiles(s, T);
    var y := Max(b.minY, b.maxY + 1);
    assert Processed(b, y, b.minX, cx, cy);
    forall dx, dy | Processed(b, y, b.minX, dx, dy) && RowMajorBefore(cx, cy, dx, dy)
      ensures Rejected(s, T, dx, dy)
    {
      assert b.Contains(dx, dy);
    }
    FlagIsLastUnrejected(s, T, b, y, b.minX, T.isTrivial, cx, cy);
  }

  /** When every tile of the box is rejected, the flag keeps its old value. */
  lemma TrivialFlagKeptWhenAllRejected(s: Settings, T: Triangle)
    requires s.Valid() && Binnable(T)
    requires forall x, y :: BoundingTiles(s, T).Contains(x, y) ==> Rejected(s, T, x, y)
    ensures TrivialAfter(s, T) == T.isTrivial
  {
    var b := BoundingTiles(s, T);
    if !FastPath(b) {
      var y := Max(b.minY, b.maxY + 1);
      forall cx, cy | Processed(b, y, b.minX, cx, cy) ensures Rejected(s, T, cx, cy) {
        assert b.Contains(cx, cy);
      }
      FlagAllRejected(s, T, b, y, b.minX, T.isTrivial);
    }
  }

  /** A triangle narrower and shorter than one tile spans at most two tiles per axis, so its
      box is either small enough for the fast path or empty: either way the trivial flag is left
      as it was, and never set from an accept test. */
  lemma SmallTriangleKeepsFlag(s: Settings, T: Triangle)
    requires s.Valid() && Binnable(T)
    requires T.MaxX() - T.MinX() < Pow2(s.Shift()) && T.MaxY() - T.MinY() < Pow2(s.Shift())
    ensures TrivialAfter(s, T) == T.isTrivial
  {
    var b := BoundingTiles(s, T);
    SpanAtMostTwoTiles(T.MinX(), T.MaxX(), s.Shift());
    SpanAtMostTwoTiles(T.MinY(), T.MaxY(), s.Shift());
    FastPathIsSmallBox(s, T);
    if !FastPath(b) {
      assert b.maxX < b.minX || b.maxY < b.minY;
      TrivialFlagKeptWhenAllRejected(s, T);
    }
  }

  /** Two values less than `2^n` apart land in the same or in adjacent cells of `>> n`. */
  lemma SpanAtMostTwoTiles(lo: int, hi: int, n: nat)
    requires hi - lo < Pow2(n)
    ensures ShiftRight(hi, n) <= ShiftRight(lo, n) + 1
  {
    var r, p := ShiftRight(lo, n), Pow2(n);
    assert (r + 2) * p == (r + 1) * p + p;
    FloorShiftAtMost(hi, n, r + 1);
  }
}
