/**
  The values exchanged across the boundary and the guest's own logic
  (src/lib.rs). The host (examples/wasm.rs) declares the same two structs
  field for field, so one definition serves both sides.
 */
module Geometry {
  import opened Machine

  datatype Point = Point(x: Int32, y: Int32)

  /** `top` and `bottom` are y coordinates, `left` and `right` x coordinates. */
  datatype Rect = Rect(left: Int32, right: Int32, top: Int32, bottom: Int32)

  predicate Covers(r: Rect, p: Point) {
    r.left <= p.x <= r.right && r.top <= p.y <= r.bottom
  }

  /** `r` lies inside `outer`. */
  predicate Within(r: Rect, outer: Rect) {
    outer.left <= r.left && r.right <= outer.right && outer.top <= r.top && r.bottom <= outer.bottom
  }

  /** `r` is the axis-aligned bounding box of `p` and `q`: it covers both,
      and each of its edges passes through one of them. */
  predicate IsBoundingBox(r: Rect, p: Point, q: Point) {
    && Covers(r, p) && Covers(r, q)
    && (r.left == p.x || r.left == q.x) && (r.right == p.x || r.right == q.x)
    && (r.top == p.y || r.top == q.y) && (r.bottom == p.y || r.bottom == q.y)
  }
}

module Guest {
  import opened Machine
  import opened Geometry

  /** The exported `add`. The host loads the release build of the guest,
      where integer overflow is not checked, so the sum wraps around as
      wasm's `i32.add` does. */
  function Add(a: Int32, b: Int32): (r: Int32)
    ensures InInt32Range(a as int + b as int) ==> r as int == a as int + b as int
    ensures (r as int - (a as int + b as int)) % 0x1_0000_0000 == 0
  {
    Wrap32(a as int + b as int)
  }

  /** One of the two `if` blocks of `do_compute`: the pair in ascending order.
      When the values are equal the first comes first. */
  function Order(a: Int32, b: Int32): (r: (Int32, Int32))
    ensures r.0 <= r.1
    ensures multiset{r.0, r.1} == multiset{a, b}
  {
    if a > b then (b, a) else (a, b)
  }

  /** The computation in `do_compute` between decoding its argument tuple and
      encoding its result. */
  function ComputeRect(p0: Point, p1: Point): (r: Rect)
    ensures IsBoundingBox(r, p0, p1)
  {
    var (left, right) := Order(p0.x, p1.x);
    var (top, bottom) := Order(p0.y, p1.y);
    Rect(left, right, top, bottom)
  }

  /** A pair of points has exactly one bounding box, so `ComputeRect`'s
      contract determines its result. */
  lemma BoundingBoxUnique(r: Rect, s: Rect, p: Point, q: Point)
    requires IsBoundingBox(r, p, q) && IsBoundingBox(s, p, q)
    ensures r == s
  {
  }

  /** The result is well formed and its edges are the minimum and maximum
      of the points' coordinates. */
  lemma ComputeRectIsMinMax(p0: Point, p1: Point)
    ensures ComputeRect(p0, p1).left <= ComputeRect(p0, p1).right
    ensures ComputeRect(p0, p1).top <= ComputeRect(p0, p1).bottom
    ensures ComputeRect(p0, p1).left == (if p0.x <= p1.x then p0.x else p1.x)
    ensures ComputeRect(p0, p1).right == (if p0.x <= p1.x then p1.x else p0.x)
    ensures ComputeRect(p0, p1).top == (if p0.y <= p1.y then p0.y else p1.y)
    ensures ComputeRect(p0, p1).bottom == (if p0.y <= p1.y then p1.y else p0.y)
  {
  }

  /** The result is the smallest rectangle covering both points. */
  lemma ComputeRectIsSmallest(p0: Point, p1: Point, outer: Rect)
    requires Covers(outer, p0) && Covers(outer, p1)
    ensures Within(ComputeRect(p0, p1), outer)
  {
  }

  /** Swapping the two points gives the identical rectangle, also when
      coordinates tie. */
  lemma ComputeRectSymmetric(p0: Point, p1: Point)
    ensures ComputeRect(p0, p1) == ComputeRect(p1, p0)
  {
    BoundingBoxUnique(ComputeRect(p0, p1), ComputeRect(p1, p0), p0, p1);
  }

  /** `left` and `right` depend only on the x coordinates, `top` and
      `bottom` only on the y coordinates. */
  lemma ComputeRectSeparatesAxes(p0: Point, p1: Point, q0: Point, q1: Point)
    ensures p0.x == q0.x && p1.x == q1.x ==>
              ComputeRect(p0, p1).left == ComputeRect(q0, q1).left
              && ComputeRect(p0, p1).right == ComputeRect(q0, q1).right
    ensures p0.y == q0.y && p1.y == q1.y ==>
              ComputeRect(p0, p1).top == ComputeRect(q0, q1).top
              && ComputeRect(p0, p1).bottom == ComputeRect(q0, q1).bottom
  {
  }

  /** The rectangle spanned by a well-formed rectangle's corners is that
      rectangle again. */
  lemma ComputeRectOfCorners(r: Rect)
    requires r.left <= r.right && r.top <= r.bottom
    ensures ComputeRect(Point(r.left, r.top), Point(r.right, r.bottom)) == r
  {
  }

  /** The demo's scenario: (2, 3) and (8, 9), in either order. */
  lemma DemoScenario()
    ensures ComputeRect(Point(2, 3), Point(8, 9)) == Rect(2, 8, 3, 9)
    ensures ComputeRect(Point(8, 9), Point(2, 3)) == Rect(2, 8, 3, 9)
  {
  }
}
