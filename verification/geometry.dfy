/** Integer points, the six neighbour offsets of the hex lattice, and the two
    containment tests of the game's algorithms module that are plain integer
    comparisons (`inBounds` and `inRect`). The floating-point hexagon hit test
    is not modelled here: the board operations take it as a parameter. */
module Geometry {

  /** A point of the board or of the screen. On the board `x` is the row
      index and `y` the column index. */
  datatype Point = Point(x: int, y: int)

  /** The neighbour offsets of the hex lattice, in the fixed order in which
      the search tries them. */
  const MOVES: seq<Point> :=
    [Point(1, 0), Point(1, -1), Point(0, 1), Point(0, -1), Point(-1, 1), Point(-1, 0)]

  function Shift(p: Point, m: Point): Point
  {
    Point(p.x + m.x, p.y + m.y)
  }

  /** `q` is one of the six lattice neighbours of `p`. */
  predicate Adjacent(p: Point, q: Point)
  {
    exists k :: 0 <= k < |MOVES| && q == Shift(p, MOVES[k])
  }

  /** Adjacency on the hex lattice is symmetric and irreflexive: every offset
      has its opposite among the six, and none of them is zero. */
  lemma AdjacentSymmetric(p: Point, q: Point)
    requires Adjacent(p, q)
    ensures Adjacent(q, p)
    ensures p != q
  {
    var k :| 0 <= k < |MOVES| && q == Shift(p, MOVES[k]);
    var opposite := [5, 4, 3, 2, 1, 0];
    assert p == Shift(q, MOVES[opposite[k]]);
  }

  /** `inBounds`: `v` lies in a grid of `h` rows and `w` columns. */
  predicate InBounds(v: Point, w: int, h: int)
  {
    0 <= v.x < h && 0 <= v.y < w
  }

  /** `inRect`: `pos` lies strictly inside the rectangle with corner
      `(x, y)`, width `w` and height `h`. */
  predicate InRect(pos: Point, x: int, y: int, w: int, h: int)
  {
    x < pos.x < x + w && y < pos.y < y + h
  }

  /** The rectangle test is open: a point on any of the four sides is outside,
      and a rectangle of no width or no height contains nothing. */
  lemma InRectExcludesBorder(pos: Point, x: int, y: int, w: int, h: int)
    ensures (pos.x == x || pos.x == x + w || pos.y == y || pos.y == y + h) ==> !InRect(pos, x, y, w, h)
    ensures (w <= 0 || h <= 0) ==> !InRect(pos, x, y, w, h)
  {
  }
}
