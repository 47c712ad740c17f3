/** The bounding-box accumulator `Rect` of src/main.rs and the points it works on. */
module Geometry {

  /** A point or a delta, `(f32, f32)` in the source; modelled with exact reals. */
  datatype Point = Point(x: real, y: real)

  /** A point moved by a delta. */
  function Add(a: Point, d: Point): Point {
    Point(a.x + d.x, a.y + d.y)
  }

  function Min(a: real, b: real): real { if b < a then b else a }
  function Max(a: real, b: real): real { if b > a then b else a }

  /** The value of a non-empty box: its lower-left and upper-right corners. */
  datatype Box = Box(min: Point, max: Point)
  {
    predicate Contains(p: Point) {
      min.x <= p.x <= max.x && min.y <= p.y <= max.y
    }

    function Width(): real { max.x - min.x }
    function Height(): real { max.y - min.y }
  }

  /** The box that extending a fresh Rect with `pts`, in order, leaves behind. */
  function BoundsOf(pts: seq<Point>): Box
    requires |pts| > 0
  {
    var p := pts[|pts| - 1];
    if |pts| == 1 then Box(p, p)
    else
      var b := BoundsOf(pts[..|pts| - 1]);
      Box(Point(Min(b.min.x, p.x), Min(b.min.y, p.y)), Point(Max(b.max.x, p.x), Max(b.max.y, p.y)))
  }

  /** BoundsOf is the tightest box around the points: it contains every one of
      them and each of its four sides is touched by one of them. */
  lemma {:induction false} BoundsOfTight(pts: seq<Point>)
    requires |pts| > 0
    ensures forall q | q in pts :: BoundsOf(pts).Contains(q)
    ensures exists q | q in pts :: q.x == BoundsOf(pts).min.x
    ensures exists q | q in pts :: q.x == BoundsOf(pts).max.x
    ensures exists q | q in pts :: q.y == BoundsOf(pts).min.y
    ensures exists q | q in pts :: q.y == BoundsOf(pts).max.y
  {
    var p := pts[|pts| - 1];
    if |pts| == 1 {
      assert p in pts;
    } else {
      var init := pts[..|pts| - 1];
      assert pts == init + [p];
      BoundsOfTight(init);
      var b := BoundsOf(init);
      var q1 :| q1 in init && q1.x == b.min.x;
      var q2 :| q2 in init && q2.x == b.max.x;
      var q3 :| q3 in init && q3.y == b.min.y;
      var q4 :| q4 in init && q4.y == b.max.y;
      assert q1 in pts && q2 in pts && q3 in pts && q4 in pts && p in pts;
    }
  }

  /** Any box that contains all the points contains their bounds. */
  lemma BoundsOfSmallest(pts: seq<Point>, other: Box)
    requires |pts| > 0
    requires forall q | q in pts :: other.Contains(q)
    ensures other.min.x <= BoundsOf(pts).min.x && other.min.y <= BoundsOf(pts).min.y
    ensures BoundsOf(pts).max.x <= other.max.x && BoundsOf(pts).max.y <= other.max.y
  {
    BoundsOfTight(pts);
  }

  /** The accumulator. The source starts from min = (+inf, +inf) and
      max = (-inf, -inf); the model keeps that state as `empty`, in which
      `min` and `max` carry no meaning. The ghost `points` lists every point
      extended so far. */
  class Rect {
    var empty: bool
    var min: Point
    var max: Point
    ghost var points: seq<Point>

    ghost predicate Valid()
      reads this
    {
      (empty <==> points == []) &&
      (!empty ==> Box(min, max) == BoundsOf(points))
    }

    /** The box of a non-empty Rect as a value. */
    function Bounds(): (b: Box)
      reads this
      requires Valid() && !empty
      ensures forall q | q in points :: b.Contains(q)
    {
      BoundsOfTight(points);
      Box(min, max)
    }

    predicate Contains(p: Point)
      reads this
    {
      !empty && Box(min, max).Contains(p)
    }

    constructor ()
      ensures Valid() && empty && points == []
    {
      empty := true;
      min, max := Point(0.0, 0.0), Point(0.0, 0.0);
      points := [];
    }

    /** Grows the box to take in `p`; a comparison against the empty state's
        infinities always succeeds, hence the `empty ||` on each test. */
    method Extend(p: Point)
      requires Valid()
      modifies this
      ensures Valid() && !empty && points == old(points) + [p]
      ensures Contains(p)
      ensures !old(empty) ==> min.x <= old(min.x) && min.y <= old(min.y)
      ensures !old(empty) ==> max.x >= old(max.x) && max.y >= old(max.y)
      ensures old(Contains(p)) ==> min == old(min) && max == old(max)
    {
      if empty || p.x < min.x {
        min := min.(x := p.x);
      }
      if empty || p.x > max.x {
        max := max.(x := p.x);
      }
      if empty || p.y < min.y {
        min := min.(y := p.y);
      }
      if empty || p.y > max.y {
        max := max.(y := p.y);
      }
      empty := false;
      points := points + [p];
      assert points[..|points| - 1] == old(points);
    }

    /** The horizontal extent: the largest difference between the x
        coordinates of two extended points. */
    function Width(): (w: real)
      reads this
      requires Valid() && !empty
      ensures w >= 0.0
      ensures forall a, b | a in points && b in points :: a.x - b.x <= w
      ensures exists a, b | a in points && b in points :: a.x - b.x == w
    {
      BoundsOfTight(points);
      max.x - min.x
    }

    /** The vertical extent: the largest difference between the y
        coordinates of two extended points. */
    function Height(): (h: real)
      reads this
      requires Valid() && !empty
      ensures h >= 0.0
      ensures forall a, b | a in points && b in points :: a.y - b.y <= h
      ensures exists a, b | a in points && b in points :: a.y - b.y == h
    {
      BoundsOfTight(points);
      max.y - min.y
    }
  }
}
