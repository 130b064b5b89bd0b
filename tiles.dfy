/** The tile record (Tile of Tile.h, which is not part of this model): its raster bounds and,
    per bin, the ids appended to it and their count. */
module Tiles {
  import opened Numerics

  datatype Tile = Tile(minRaster: Point, maxRaster: Point, triangles: seq<seq<nat>>, binsIndex: seq<nat>)
  {
    /** One list and one count per bin; each count is its list's length. */
    predicate Valid()
    {
      |binsIndex| == |triangles| &&
      forall b :: 0 <= b < |triangles| ==> binsIndex[b] == |triangles[b]|
    }

    /** `Tile::Add` applied to each of ids in turn. */
    function AddAll(bin: nat, ids: seq<nat>): (t: Tile)
      requires Valid() && bin < |triangles|
      ensures t.Valid()
      ensures t.minRaster == minRaster && t.maxRaster == maxRaster
      ensures |t.triangles| == |triangles|
      ensures t.triangles[bin] == triangles[bin] + ids
      ensures t.binsIndex[bin] == binsIndex[bin] + |ids|
      ensures forall b :: 0 <= b < |triangles| && b != bin ==> t.triangles[b] == triangles[b]
      ensures forall b :: 0 <= b < |triangles| && b != bin ==> t.binsIndex[b] == binsIndex[b]
    {
      Tile(minRaster, maxRaster,
           triangles[bin := triangles[bin] + ids],
           binsIndex[bin := binsIndex[bin] + |ids|])
    }

    /** `Tile::Add(bin, id)`: appends id to the list of `bin` and counts it. */
    function Add(bin: nat, id: nat): (t: Tile)
      requires Valid() && bin < |triangles|
      ensures t.Valid() && |t.triangles| == |triangles|
    {
      AddAll(bin, [id])
    }
  }

  /** Adding ids one at a time is adding them all at once. */
  lemma AddAllThenAdd(t: Tile, bin: nat, ids: seq<nat>, id: nat)
    requires t.Valid() && bin < |t.triangles|
    ensures t.AddAll(bin, ids).Add(bin, id) == t.AddAll(bin, ids + [id])
  {
    var u := t.AddAll(bin, ids);
    assert u.triangles[bin] + [id] == t.triangles[bin] + (ids + [id]);
  }

  lemma AddNothing(t: Tile, bin: nat)
    requires t.Valid() && bin < |t.triangles|
    ensures t.AddAll(bin, []) == t
  {
    assert t.triangles[bin] + [] == t.triangles[bin];
  }
}
