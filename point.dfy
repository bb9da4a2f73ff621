/**
 * The vertex record of pkg/viswal/point.go and the triangle area that drives
 * the Visvalingam-Whyatt ranking.
 *
 * Coordinates and areas are exact reals. The float64 `+Inf` that marks a
 * vertex without two neighbours is the explicit `Infinite` value of `Area`.
 */
module Points {
  import opened Options

  /** The first two components of a GeoJSON position. */
  datatype Coord = Coord(x: real, y: real)

  /** A vertex priority: a finite area or `+Inf`. */
  datatype Area = Finite(value: real) | Infinite

  /**
   * Go's `<` on float64 restricted to finite values and `+Inf`: `+Inf` is
   * below nothing, and every finite area is below `+Inf`.
   */
  predicate Lt(a: Area, b: Area): (r: bool)
    ensures a.Infinite? ==> !r
    ensures a.Finite? && b.Infinite? ==> r
  {
    match a
    case Infinite => false
    case Finite(x) => b.Infinite? || x < b.value
  }

  /** `Lt` is a strict total order, so `heap.Fix` and `heap.Pop` have a minimum to find. */
  lemma LtIsStrictTotalOrder(a: Area, b: Area, c: Area)
    ensures !Lt(a, a)
    ensures Lt(a, b) ==> !Lt(b, a)
    ensures Lt(a, b) && Lt(b, c) ==> Lt(a, c)
    ensures Lt(a, b) || a == b || Lt(b, a)
  {
  }

  /** The non-strict order that `!Lt` gives. */
  predicate Le(a: Area, b: Area) {
    !Lt(b, a)
  }

  /**
   * A vertex. `left`/`right` are ids of neighbouring vertices (nil is
   * `None`), `index` is the vertex's slot in the priority queue.
   */
  datatype Point = Point(
    id: nat,
    x: real,
    y: real,
    left: Option<nat>,
    right: Option<nat>,
    alive: bool,
    currentArea: Area,
    index: nat)

  /** A fresh vertex: unlinked, alive, infinite area, queue slot equal to its id. */
  function NewPoint(idx: nat, x: real, y: real): (p: Point)
    ensures p.id == idx && p.index == idx && p.x == x && p.y == y
    ensures p.alive && p.currentArea == Infinite
    ensures p.left == None && p.right == None
  {
    Point(idx, x, y, None, None, true, Infinite, idx)
  }

  /** Twice the signed area of the triangle (p1, p2, p3), by the shoelace formula. */
  function ShoelaceSum(p1: Point, p2: Point, p3: Point): real {
    (p1.x * p2.y) + (p2.x * p3.y) + (p3.x * p1.y) - (p1.x * p3.y) - (p2.x * p1.y) - (p3.x * p2.y)
  }

  function Abs(r: real): real {
    if r < 0.0 then -r else r
  }

  /** The value `area` stores into `p2.currentArea`. */
  function TriangleArea(p1: Point, p2: Point, p3: Point): (a: real)
    ensures a >= 0.0
  {
    Abs(ShoelaceSum(p1, p2, p3)) / 2.0
  }

  /** The area is zero exactly when the three vertices lie on one line. */
  lemma TriangleAreaZeroIffCollinear(p1: Point, p2: Point, p3: Point)
    ensures TriangleArea(p1, p2, p3) == 0.0
        <==> (p2.x - p1.x) * (p3.y - p1.y) == (p3.x - p1.x) * (p2.y - p1.y)
  {
    assert ShoelaceSum(p1, p2, p3) == (p2.x - p1.x) * (p3.y - p1.y) - (p3.x - p1.x) * (p2.y - p1.y);
  }

  /** Three vertices on one horizontal line have zero area. */
  lemma HorizontalTriangleIsFlat(p1: Point, p2: Point, p3: Point)
    requires p1.y == p2.y == p3.y
    ensures TriangleArea(p1, p2, p3) == 0.0
  {
    TriangleAreaZeroIffCollinear(p1, p2, p3);
  }

  /** Exchanging the outer vertices only negates the signed sum. */
  lemma TriangleAreaOuterSymmetric(p1: Point, p2: Point, p3: Point)
    ensures TriangleArea(p1, p2, p3) == TriangleArea(p3, p2, p1)
  {
    assert ShoelaceSum(p3, p2, p1) == -ShoelaceSum(p1, p2, p3);
  }
}
