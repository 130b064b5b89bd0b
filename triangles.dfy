/** The raster triangle as the binner and the tile rasterizer see it (LarrabeeTriangle of Triangle.h,
    which is not part of this model: its edge functions are modelled as affine functions). */
module Triangles {
  import opened Numerics

  /** A vertex in fixed-point screen space (`glm::ivec2`). */
  datatype Vertex = Vertex(x: Int32, y: Int32)

  /** The edge function `a*x + b*y + c`, nonnegative on the inner side of the edge. */
  datatype Edge = Edge(a: int, b: int, c: int)
  {
    function Eval(p: Point): int { a * p.x + b * p.y + c }
  }

  /** One of the four corners of a tile: 0 = (0,0), 1 = (1,0), 2 = (0,1), 3 = (1,1). */
  type Corner = c: int | 0 <= c < 4

  datatype Triangle = Triangle(
    id: nat,
    v0: Vertex, v1: Vertex, v2: Vertex,
    edge0: Edge, edge1: Edge, edge2: Edge,
    rejectCorner0: Corner, rejectCorner1: Corner, rejectCorner2: Corner,
    acceptCorner0: Corner, acceptCorner1: Corner, acceptCorner2: Corner,
    isTrivial: bool)
  {
    function MinX(): (m: Int32)
      ensures m <= v0.x && m <= v1.x && m <= v2.x
      ensures m == v0.x || m == v1.x || m == v2.x
    {
      Min(v0.x, Min(v1.x, v2.x))
    }

    function MaxX(): (m: Int32)
      ensures m >= v0.x && m >= v1.x && m >= v2.x
      ensures m == v0.x || m == v1.x || m == v2.x
    {
      Max(v0.x, Max(v1.x, v2.x))
    }

    function MinY(): (m: Int32)
      ensures m <= v0.y && m <= v1.y && m <= v2.y
      ensures m == v0.y || m == v1.y || m == v2.y
    {
      Min(v0.y, Min(v1.y, v2.y))
    }

    function MaxY(): (m: Int32)
      ensures m >= v0.y && m >= v1.y && m >= v2.y
      ensures m == v0.y || m == v1.y || m == v2.y
    {
      Max(v0.y, Max(v1.y, v2.y))
    }
  }

  /** Decodes a corner index into its offset in tiles: `(c % 2, c / 2)`. */
  function CornerOffset(c: Corner): (o: Point)
    ensures 0 <= o.x <= 1 && 0 <= o.y <= 1
    ensures o.x + 2 * o.y == c
  {
    Point(c % 2, c / 2)
  }

  /** `(tile + offset) << shift`: the fixed-point position of corner c of tile (x, y). */
  function CornerPosition(x: int, y: int, c: Corner, shift: nat): Point
  {
    var o := CornerOffset(c);
    Point(ShiftLeft(x + o.x, shift), ShiftLeft(y + o.y, shift))
  }

  /** Corner c of tile (x, y) lies in tile `(x, y) + CornerOffset(c)`: shifting its position back
      right recovers that tile's indices. */
  lemma CornerPositionTile(x: int, y: int, c: Corner, shift: nat)
    ensures ShiftRight(CornerPosition(x, y, c, shift).x, shift) == x + CornerOffset(c).x
    ensures ShiftRight(CornerPosition(x, y, c, shift).y, shift) == y + CornerOffset(c).y
  {
    var o := CornerOffset(c);
    ShiftLeftThenRight(x + o.x, shift);
    ShiftLeftThenRight(y + o.y, shift);
  }

  /** The corner of a tile at which edge e takes its largest value: a trivial reject
      corner as triangle setup is meant to choose it. */
  function MaxCorner(e: Edge): (c: Corner)
    ensures CornerOffset(c).x == (if e.a >= 0 then 1 else 0)
    ensures CornerOffset(c).y == (if e.b >= 0 then 1 else 0)
  {
    (if e.a >= 0 then 1 else 0) + 2 * (if e.b >= 0 then 1 else 0)
  }

  /** The corner of a tile at which edge e takes its smallest value: a trivial accept corner. */
  function MinCorner(e: Edge): (c: Corner)
    ensures CornerOffset(c).x == (if e.a >= 0 then 0 else 1)
    ensures CornerOffset(c).y == (if e.b >= 0 then 0 else 1)
  {
    (if e.a >= 0 then 0 else 1) + 2 * (if e.b >= 0 then 0 else 1)
  }

  /** The closed fixed-point square covered by tile (x, y). */
  predicate InTileSquare(p: Point, x: int, y: int, shift: nat)
  {
    x * Pow2(shift) <= p.x <= (x + 1) * Pow2(shift) &&
    y * Pow2(shift) <= p.y <= (y + 1) * Pow2(shift)
  }

  /** A term a*v over lo <= v <= hi is largest at hi when a >= 0 and at lo otherwise. */
  lemma TermExtremes(a: int, v: int, lo: int, hi: int)
    requires lo <= v <= hi
    ensures a * v <= a * (if a >= 0 then hi else lo)
    ensures a * (if a >= 0 then lo else hi) <= a * v
  {
    if a >= 0 {
      MulLeftMonotone(a, lo, v);
      MulLeftMonotone(a, v, hi);
    } else {
      MulLeftMonotone(-a, lo, v);
      MulLeftMonotone(-a, v, hi);
    }
  }

  /** Over a tile's square, an edge function is largest at MaxCorner. */
  lemma EdgeMaxAtCorner(e: Edge, x: int, y: int, shift: nat, p: Point)
    requires InTileSquare(p, x, y, shift)
    ensures e.Eval(p) <= e.Eval(CornerPosition(x, y, MaxCorner(e), shift))
  {
    var s := Pow2(shift);
    var hi := CornerPosition(x, y, MaxCorner(e), shift);
    assert hi.x == (if e.a >= 0 then (x + 1) * s else x * s);
    assert hi.y == (if e.b >= 0 then (y + 1) * s else y * s);
    TermExtremes(e.a, p.x, x * s, (x + 1) * s);
    TermExtremes(e.b, p.y, y * s, (y + 1) * s);
  }

  /** Over a tile's square, an edge function is smallest at MinCorner. */
  lemma EdgeMinAtCorner(e: Edge, x: int, y: int, shift: nat, p: Point)
    requires InTileSquare(p, x, y, shift)
    ensures e.Eval(CornerPosition(x, y, MinCorner(e), shift)) <= e.Eval(p)
  {
    var s := Pow2(shift);
    var lo := CornerPosition(x, y, MinCorner(e), shift);
    assert lo.x == (if e.a >= 0 then x * s else (x + 1) * s);
    assert lo.y == (if e.b >= 0 then y * s else (y + 1) * s);
    TermExtremes(e.a, p.x, x * s, (x + 1) * s);
    TermExtremes(e.b, p.y, y * s, (y + 1) * s);
  }
}
