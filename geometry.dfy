/** Screen geometry of the terminal UI: rectangles as the layout provider
    hands them out, and the pointer hit test every draw routine runs. */
module Geometry {

  /** Terminal coordinates are 16-bit unsigned integers. */
  const U16_MAX: nat := 65535

  datatype RawRect = RawRect(x: nat, y: nat, width: nat, height: nat)

  /** A rectangle whose right and bottom edges are still representable as
      16-bit coordinates, so that `x + width` and `y + height` in the hit test
      cannot overflow. */
  type Rect = r: RawRect | r.x + r.width <= U16_MAX && r.y + r.height <= U16_MAX
    witness RawRect(0, 0, 0, 0)

  datatype Point = Point(x: nat, y: nat)

  function Bottom(r: Rect): nat { r.y + r.height }

  /** The pointer hit test: the right and bottom edges are computed first and
      the comparison is inclusive on all four sides. */
  predicate InArea(p: Point, r: Rect)
  {
    var (x1, y1, x2, y2) := (r.x, r.y, r.x + r.width, r.y + r.height);
    x1 <= p.x && p.x <= x2 && y1 <= p.y && p.y <= y2
  }

  /** `outer` covers every cell of `inner`, edges included. */
  predicate Contains(outer: Rect, inner: Rect)
  {
    outer.x <= inner.x && inner.x + inner.width <= outer.x + outer.width &&
    outer.y <= inner.y && inner.y + inner.height <= outer.y + outer.height
  }

  /** The cell `dx` columns right of and `dy` rows below the top-left
      corner. */
  function Offset(r: Rect, dx: nat, dy: nat): Point
  {
    Point(r.x + dx, r.y + dy)
  }

  /** The hit test accepts exactly the points reached from the top-left
      corner by moving at most `width` cells right and at most `height`
      cells down. */
  lemma InAreaIffBetweenCorners(p: Point, r: Rect)
    ensures InArea(p, r) <==>
            exists dx: nat, dy: nat :: dx <= r.width && dy <= r.height && p == Offset(r, dx, dy)
  {
    if InArea(p, r) {
      var dx: nat, dy: nat := p.x - r.x, p.y - r.y;
      assert p == Offset(r, dx, dy);
    }
  }

  /** All four corners of a rectangle are hits; in particular a rectangle of
      zero width and zero height still matches its own origin. */
  lemma CornersAreHits(r: Rect)
    ensures InArea(Point(r.x, r.y), r)
    ensures InArea(Point(r.x + r.width, r.y), r)
    ensures InArea(Point(r.x, r.y + r.height), r)
    ensures InArea(Point(r.x + r.width, r.y + r.height), r)
    ensures r.width == 0 && r.height == 0 ==> forall p: Point :: InArea(p, r) <==> p == Point(r.x, r.y)
  {
  }

  /** One step beyond any edge is a miss. */
  lemma OutsideIsMiss(p: Point, r: Rect)
    requires p.x < r.x || p.x > r.x + r.width || p.y < r.y || p.y > r.y + r.height
    ensures !InArea(p, r)
  {
  }

  /** A hit in a nested rectangle is a hit in every rectangle around it. */
  lemma NestedHit(p: Point, outer: Rect, inner: Rect)
    requires Contains(outer, inner) && InArea(p, inner)
    ensures InArea(p, outer)
  {
  }

  /** Two rectangles laid side by side, the second starting where the first
      ends, both own every point of the shared column: with inclusive edges
      side-by-side regions are never disjoint for the hit test. */
  lemma SideBySideShareEdge(a: Rect, b: Rect, y: nat)
    requires b.x == a.x + a.width
    requires a.y <= y <= a.y + a.height && b.y <= y <= b.y + b.height
    ensures InArea(Point(b.x, y), a) && InArea(Point(b.x, y), b)
  {
  }
}
