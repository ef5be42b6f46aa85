/** The geometry engine of the connector layer: anchor points on the sides of
    a rectangle, the anchor and control points of a connector between two
    rectangles, and a segment-intersection test. Coordinates are exact reals;
    the editor's coordinate arithmetic only adds, subtracts, multiplies and
    halves them. */
module Geometry {
  import opened Types

  /** A segment given by its two endpoints. */
  datatype Segment = Segment(p1: Point, p2: Point)

  /** The midpoints of a rectangle's four sides. */
  datatype Anchors = Anchors(top: Point, bottom: Point, left: Point, right: Point)

  /** A side of a rectangle: the keys of an Anchors record. */
  datatype Side = Top | Bottom | Left | Right

  /** A connector: its two anchors and its two curve control points. */
  datatype Route = Route(start: Point, end: Point, control1: Point, control2: Point)

  /** Distance of each control point from its anchor, along the dominant axis. */
  const Offset: real := 10.0

  /** Tolerance of the colinearity test in IsPointOnSegment. */
  const Epsilon: real := 0.0000000001

  function Abs(v: real): (r: real)
  {
    if v < 0.0 then -v else v
  }

  /** Math.sign on a number that is not NaN. */
  function Sign(v: real): (r: real)
  {
    if v > 0.0 then 1.0 else if v < 0.0 then -1.0 else 0.0
  }

  function Min(a: real, b: real): (r: real)
  {
    if a <= b then a else b
  }

  function Max(a: real, b: real): (r: real)
  {
    if a >= b then a else b
  }

  // ---------------------------------------------------------------------------
  // Segment intersection
  // ---------------------------------------------------------------------------

  /** Cross product of b - a and c - a: its sign says on which side of the
      line through a and b the point c lies. */
  function CrossProduct(a: Point, b: Point, c: Point): (r: real)
  {
    (b.x - a.x) * (c.y - a.y) - (b.y - a.y) * (c.x - a.x)
  }

  /** point lies in the bounding box of the segment and, up to Epsilon, on its line. */
  predicate IsPointOnSegment(segStart: Point, segEnd: Point, point: Point)
  {
    var isInRange :=
      point.x >= Min(segStart.x, segEnd.x) &&
      point.x <= Max(segStart.x, segEnd.x) &&
      point.y >= Min(segStart.y, segEnd.y) &&
      point.y <= Max(segStart.y, segEnd.y);
    if !isInRange then false
    else
      var cross := (segEnd.x - segStart.x) * (point.y - segStart.y) -
                   (segEnd.y - segStart.y) * (point.x - segStart.x);
      Abs(cross) < Epsilon
  }

  /** Bounding-box rejection, then the straddle test, then the four
      endpoint-on-the-other-segment cases. */
  predicate IsSegmentsIntersect(seg1: Segment, seg2: Segment)
  {
    var a1, a2 := seg1.p1, seg1.p2;
    var b1, b2 := seg2.p1, seg2.p2;
    if Max(a1.x, a2.x) < Min(b1.x, b2.x) ||
       Max(b1.x, b2.x) < Min(a1.x, a2.x) ||
       Max(a1.y, a2.y) < Min(b1.y, b2.y) ||
       Max(b1.y, b2.y) < Min(a1.y, a2.y)
    then false
    else
      var d1 := CrossProduct(a1, a2, b1);
      var d2 := CrossProduct(a1, a2, b2);
      var d3 := CrossProduct(b1, b2, a1);
      var d4 := CrossProduct(b1, b2, a2);
      if d1 * d2 < 0.0 && d3 * d4 < 0.0 then true
      else if d1 == 0.0 && IsPointOnSegment(a1, a2, b1) then true
      else if d2 == 0.0 && IsPointOnSegment(a1, a2, b2) then true
      else if d3 == 0.0 && IsPointOnSegment(b1, b2, a1) then true
      else if d4 == 0.0 && IsPointOnSegment(b1, b2, a2) then true
      else false
  }

  /** p lies in the axis-aligned bounding box of s. */
  ghost predicate InBox(s: Segment, p: Point)
  {
    Min(s.p1.x, s.p2.x) <= p.x <= Max(s.p1.x, s.p2.x) &&
    Min(s.p1.y, s.p2.y) <= p.y <= Max(s.p1.y, s.p2.y)
  }

  /** The two bounding boxes have a point in common. */
  ghost predicate BoxesMeet(s1: Segment, s2: Segment)
  {
    exists p: Point :: InBox(s1, p) && InBox(s2, p)
  }

  /** The two segments properly straddle each other's lines. */
  ghost predicate Straddle(s1: Segment, s2: Segment)
  {
    CrossProduct(s1.p1, s1.p2, s2.p1) * CrossProduct(s1.p1, s1.p2, s2.p2) < 0.0 &&
    CrossProduct(s2.p1, s2.p2, s1.p1) * CrossProduct(s2.p1, s2.p2, s1.p2) < 0.0
  }

  /** p lies on the segment s, exactly: on its line and inside its bounding box. */
  ghost predicate OnSegment(s: Segment, p: Point)
  {
    CrossProduct(s.p1, s.p2, p) == 0.0 && InBox(s, p)
  }

  /** The cross product of the two segments' directions; zero iff they are parallel. */
  function DirectionCross(s1: Segment, s2: Segment): (r: real)
  {
    (s1.p2.x - s1.p1.x) * (s2.p2.y - s2.p1.y) - (s1.p2.y - s1.p1.y) * (s2.p2.x - s2.p1.x)
  }

  /** The point a fraction t of the way from p to q. */
  function Along(p: Point, q: Point, t: real): (r: Point)
  {
    Point(p.x + t * (q.x - p.x), p.y + t * (q.y - p.y))
  }

  /** A point reported on a segment lies in the segment's bounding box. */
  lemma PointOnSegmentInBox(s: Point, e: Point, p: Point)
    requires IsPointOnSegment(s, e, p)
    ensures InBox(Segment(s, e), p)
  {
  }

  /** Both endpoints of a segment lie on it. */
  lemma EndpointsOnSegment(s: Point, e: Point)
    ensures IsPointOnSegment(s, e, s) && IsPointOnSegment(s, e, e)
  {
  }

  /** Segments whose bounding boxes share no point never intersect; put the other
      way, an intersection implies a common point of the two boxes. */
  lemma IntersectImpliesBoxesMeet(s1: Segment, s2: Segment)
    ensures IsSegmentsIntersect(s1, s2) ==> BoxesMeet(s1, s2)
  {
    if IsSegmentsIntersect(s1, s2) {
      var p := Point(Max(Min(s1.p1.x, s1.p2.x), Min(s2.p1.x, s2.p2.x)),
                     Max(Min(s1.p1.y, s1.p2.y), Min(s2.p1.y, s2.p2.y)));
      assert InBox(s1, p) && InBox(s2, p);
    }
  }

  /** A product is negative only when its factors have strictly opposite signs. */
  lemma NegativeProduct(p: real, q: real)
    requires p * q < 0.0
    ensures (p < 0.0 < q) || (q < 0.0 < p)
  {
  }

  /** Scaling by a positive factor keeps a strict order. */
  lemma ScaleStrict(k: real, u: real, v: real)
    requires k > 0.0 && u < v
    ensures k * u < k * v
  {
    assert k * (v - u) > 0.0;
  }

  /** If two weighted means with positive weights summing to c agree, the
      intervals [min p, max p] and [min q, max q] are not separated. */
  lemma WeightedMeansOverlap(c: real, k1: real, k2: real, p1: real, p2: real, q1: real, q2: real)
    requires 0.0 < k1 < c && 0.0 < k2 < c
    requires (c - k1) * p1 + k1 * p2 == (c - k2) * q1 + k2 * q2
    ensures !(Max(p1, p2) < Min(q1, q2)) && !(Max(q1, q2) < Min(p1, p2))
  {
    if Max(p1, p2) < Min(q1, q2) {
      Separated(c, k1, k2, p1, p2, q1, q2);
    }
    if Max(q1, q2) < Min(p1, p2) {
      Separated(c, k2, k1, q1, q2, p1, p2);
    }
  }

  /** Scaling by a positive factor keeps a weak order. */
  lemma ScaleWeak(k: real, u: real, v: real)
    requires k > 0.0 && u <= v
    ensures k * u <= k * v
  {
    assert k * (v - u) >= 0.0;
  }

  /** The weighted mean of points left of m is left of m; that of points not
      left of m is not. */
  lemma Separated(c: real, k1: real, k2: real, p1: real, p2: real, q1: real, q2: real)
    requires 0.0 < k1 < c && 0.0 < k2 < c
    requires Max(p1, p2) < Min(q1, q2)
    ensures (c - k1) * p1 + k1 * p2 < (c - k2) * q1 + k2 * q2
  {
    var m := Min(q1, q2);
    ScaleStrict(c - k1, p1, m);
    ScaleStrict(k1, p2, m);
    ScaleWeak(c - k2, m, q1);
    ScaleWeak(k2, m, q2);
    var lhs, rhs := (c - k1) * p1 + k1 * p2, (c - k2) * q1 + k2 * q2;
    assert lhs < (c - k1) * m + k1 * m;
    assert (c - k1) * m + k1 * m == (c - k2) * m + k2 * m;
    assert (c - k2) * m + k2 * m <= rhs;
  }

  /** Shifting the third point of a cross product by v adds the cross product with v. */
  lemma CrossShift(ux: real, uy: real, px: real, py: real, vx: real, vy: real)
    ensures ux * (py + vy) - uy * (px + vx) == (ux * py - uy * px) + (ux * vy - uy * vx)
  {
    assert ux * (py + vy) == ux * py + ux * vy;
    assert uy * (px + vx) == uy * px + uy * vx;
  }

  /** The crossing point of two lines, written as a weighted mean of the
      endpoints of either segment, is the same point. */
  lemma CrossingIdentity(ux: real, uy: real, vx: real, vy: real, px: real, py: real)
    ensures (ux * vy - uy * vx) * px + (vx * py - vy * px) * ux - (ux * py - uy * px) * vx == 0.0
  {
    assert (ux * vy - uy * vx) * px == ux * vy * px - uy * vx * px;
    assert (vx * py - vy * px) * ux == vx * py * ux - vy * px * ux;
    assert (ux * py - uy * px) * vx == ux * py * vx - uy * px * vx;
  }

  /** A linear identity between the two weighted means, rearranged. */
  lemma MeansAgree(c: real, d1: real, d3: real, a1: real, a2: real, b1: real, b2: real)
    requires c * (b1 - a1) - d3 * (a2 - a1) - d1 * (b2 - b1) == 0.0
    ensures (c - d3) * a1 + d3 * a2 == (c + d1) * b1 + (-d1) * b2
  {
    assert c * (b1 - a1) == c * b1 - c * a1;
    assert d3 * (a2 - a1) == d3 * a2 - d3 * a1;
    assert d1 * (b2 - b1) == d1 * b2 - d1 * b1;
  }

  /** The identities behind the straddle test, with c the cross product of the
      directions: d2 = d1 + c, d4 = d3 - c, and the two weighted means of the
      endpoints, with weights from the cross products, agree in each coordinate. */
  lemma StraddleAlgebra(s1: Segment, s2: Segment)
    ensures var a1, a2, b1, b2 := s1.p1, s1.p2, s2.p1, s2.p2;
            var d1, d2 := CrossProduct(a1, a2, b1), CrossProduct(a1, a2, b2);
            var d3, d4 := CrossProduct(b1, b2, a1), CrossProduct(b1, b2, a2);
            var c := DirectionCross(s1, s2);
            d2 == d1 + c && d4 == d3 - c &&
            (c - d3) * a1.x + d3 * a2.x == (c + d1) * b1.x + (-d1) * b2.x &&
            (c - d3) * a1.y + d3 * a2.y == (c + d1) * b1.y + (-d1) * b2.y
  {
    var a1, a2, b1, b2 := s1.p1, s1.p2, s2.p1, s2.p2;
    var ux, uy := a2.x - a1.x, a2.y - a1.y;
    var vx, vy := b2.x - b1.x, b2.y - b1.y;
    var px, py := b1.x - a1.x, b1.y - a1.y;
    var d1, d2 := CrossProduct(a1, a2, b1), CrossProduct(a1, a2, b2);
    var d3, d4 := CrossProduct(b1, b2, a1), CrossProduct(b1, b2, a2);
    var c := ux * vy - uy * vx;
    assert d1 == ux * py - uy * px;
    assert d2 == ux * (py + vy) - uy * (px + vx);
    CrossShift(ux, uy, px, py, vx, vy);
    assert d2 == d1 + c;
    assert d3 == vx * (-py) - vy * (-px);
    assert d3 == -(vx * py - vy * px);
    assert d4 == vx * (-py + uy) - vy * (-px + ux);
    CrossShift(vx, vy, -px, -py, ux, uy);
    assert d4 == d3 - c;
    CrossingIdentity(ux, uy, vx, vy, px, py);
    CrossingIdentity(uy, ux, vy, vx, py, px);
    MeansAgree(c, d1, d3, a1.x, a2.x, b1.x, b2.x);
    MeansAgree(c, d1, d3, a1.y, a2.y, b1.y, b2.y);
  }

  /** Segments that properly straddle each other's lines are reported as
      intersecting: such segments cross, so their bounding boxes are never
      rejected. The crossing point is a weighted mean of the endpoints of
      either segment, with weights given by the cross products. */
  lemma StraddleIntersects(s1: Segment, s2: Segment)
    requires Straddle(s1, s2)
    ensures IsSegmentsIntersect(s1, s2)
  {
    var a1, a2, b1, b2 := s1.p1, s1.p2, s2.p1, s2.p2;
    var d1, d2 := CrossProduct(a1, a2, b1), CrossProduct(a1, a2, b2);
    var d3, d4 := CrossProduct(b1, b2, a1), CrossProduct(b1, b2, a2);
    var c := DirectionCross(s1, s2);
    StraddleAlgebra(s1, s2);
    NegativeProduct(d1, d2);
    NegativeProduct(d3, d4);
    if c > 0.0 {
      WeightedMeansOverlap(c, d3, -d1, a1.x, a2.x, b1.x, b2.x);
      WeightedMeansOverlap(c, d3, -d1, a1.y, a2.y, b1.y, b2.y);
    } else {
      WeightedMeansOverlap(-c, -d3, d1, a1.x, a2.x, b1.x, b2.x);
      WeightedMeansOverlap(-c, -d3, d1, a1.y, a2.y, b1.y, b2.y);
    }
  }

  /** The test does not depend on the order of its two arguments. */
  lemma IntersectSymmetric(s1: Segment, s2: Segment)
    ensures IsSegmentsIntersect(s1, s2) == IsSegmentsIntersect(s2, s1)
  {
  }

  /** Segments that share an endpoint intersect: touching counts. */
  lemma SharedEndpointIntersects(s1: Segment, s2: Segment)
    requires s1.p1 == s2.p1 || s1.p1 == s2.p2 || s1.p2 == s2.p1 || s1.p2 == s2.p2
    ensures IsSegmentsIntersect(s1, s2)
  {
    EndpointsOnSegment(s1.p1, s1.p2);
    EndpointsOnSegment(s2.p1, s2.p2);
    var a1, a2, b1, b2 := s1.p1, s1.p2, s2.p1, s2.p2;
    if b1 == a1 || b1 == a2 {
      assert CrossProduct(a1, a2, b1) == 0.0;
    } else {
      assert CrossProduct(a1, a2, b2) == 0.0;
    }
  }

  /** The X-shaped crossing (0,0)-(10,10) and (0,10)-(10,0) intersects. */
  lemma CrossingExample()
    ensures IsSegmentsIntersect(Segment(Point(0.0, 0.0), Point(10.0, 10.0)),
                                Segment(Point(0.0, 10.0), Point(10.0, 0.0)))
  {
  }

  /** Parallel segments (0,0)-(1,0) and (0,5)-(1,5) do not intersect. */
  lemma ParallelExample()
    ensures !IsSegmentsIntersect(Segment(Point(0.0, 0.0), Point(1.0, 0.0)),
                                 Segment(Point(0.0, 5.0), Point(1.0, 5.0)))
  {
  }

  /** Collinear segments (0,0)-(5,0) and (5,0)-(10,0) meet at (5,0). */
  lemma CollinearTouchExample()
    ensures IsSegmentsIntersect(Segment(Point(0.0, 0.0), Point(5.0, 0.0)),
                                Segment(Point(5.0, 0.0), Point(10.0, 0.0)))
  {
    var s1, s2 := Segment(Point(0.0, 0.0), Point(5.0, 0.0)), Segment(Point(5.0, 0.0), Point(10.0, 0.0));
    assert CrossProduct(s1.p1, s1.p2, s2.p1) == 0.0;
    assert IsPointOnSegment(s1.p1, s1.p2, s2.p1);
  }

  // ---------------------------------------------------------------------------
  // The test is exact: it holds iff the segments share a point
  // ---------------------------------------------------------------------------

  /** A fraction t in [0, 1] of w lies between 0 and w. */
  lemma ScaleUnit(t: real, w: real)
    requires 0.0 <= t <= 1.0
    ensures Min(0.0, w) <= t * w <= Max(0.0, w)
  {
    assert t * w + (1.0 - t) * w == w;
    if w > 0.0 && 0.0 < t {
      ScaleWeak(w, 0.0, t);
      ScaleWeak(w, 0.0, 1.0 - t);
    } else if w < 0.0 && 0.0 < t {
      ScaleWeak(-w, 0.0, t);
      ScaleWeak(-w, 0.0, 1.0 - t);
    }
  }

  /** A point of u..v at a fraction t in [0, 1] lies between the ends. */
  lemma InterpolateInRange(u: real, v: real, t: real)
    requires 0.0 <= t <= 1.0
    ensures Min(u, v) <= u + t * (v - u) <= Max(u, v)
  {
    ScaleUnit(t, v - u);
  }

  /** Every point a fraction t in [0, 1] along a segment lies on it. */
  lemma AlongOnSegment(p: Point, q: Point, t: real)
    requires 0.0 <= t <= 1.0
    ensures OnSegment(Segment(p, q), Along(p, q, t))
  {
    var r := Along(p, q, t);
    var vx, vy := q.x - p.x, q.y - p.y;
    assert r.x - p.x == t * vx && r.y - p.y == t * vy;
    assert vx * (t * vy) == vy * (t * vx);
    assert CrossProduct(p, q, r) == 0.0;
    InterpolateInRange(p.x, q.x, t);
    InterpolateInRange(p.y, q.y, t);
    assert InBox(Segment(p, q), r);
  }

  /** Both endpoints of a segment lie on it. */
  lemma EndpointsOnOwnSegment(s: Segment)
    ensures OnSegment(s, s.p1) && OnSegment(s, s.p2)
  {
    AlongOnSegment(s.p1, s.p2, 0.0);
    AlongOnSegment(s.p1, s.p2, 1.0);
    assert Along(s.p1, s.p2, 0.0) == s.p1 && Along(s.p1, s.p2, 1.0) == s.p2;
  }

  /** The quotient q / v, and where it lies when q lies between 0 and v. */
  lemma Quotient(q: real, v: real)
    requires v != 0.0
    ensures (q / v) * v == q
    ensures Min(0.0, v) <= q <= Max(0.0, v) ==> 0.0 <= q / v <= 1.0
    ensures Min(0.0, v) < q < Max(0.0, v) ==> 0.0 < q / v < 1.0
  {
    var t := q / v;
    assert t * v == q;
    var k := if v > 0.0 then v else -v;
    assert k * t == (if v > 0.0 then q else -q);
    if t < 0.0 {
      ScaleStrict(k, t, 0.0);
    } else if t > 1.0 {
      ScaleStrict(k, 1.0, t);
    }
    if t <= 0.0 {
      ScaleWeak(k, t, 0.0);
    } else if t >= 1.0 {
      ScaleWeak(k, 1.0, t);
    }
  }

  /** A point on the line through the origin with direction (vx, vy), vx != 0,
      at x-offset t * vx has y-offset t * vy. */
  lemma SolveLine(vx: real, vy: real, qx: real, qy: real, t: real)
    requires vx != 0.0 && t * vx == qx && vx * qy == vy * qx
    ensures qy == t * vy
  {
    assert vx * qy == vx * (t * vy);
    assert vx * (qy - t * vy) == 0.0;
  }

  /** An offset (qx, qy) on the line of direction (vx, vy), vx != 0, with qx
      between 0 and vx, is a fraction t in [0, 1] of that direction. */
  lemma RatioOnLine(vx: real, vy: real, qx: real, qy: real) returns (t: real)
    requires vx != 0.0 && vx * qy == vy * qx
    requires Min(0.0, vx) <= qx <= Max(0.0, vx)
    ensures 0.0 <= t <= 1.0 && qx == t * vx && qy == t * vy
  {
    t := qx / vx;
    Quotient(qx, vx);
    SolveLine(vx, vy, qx, qy, t);
  }

  /** The same without the assumption vx != 0: an offset on the line of
      (vx, vy) within the box spanned by it is a fraction of it. */
  lemma RatioInBox(vx: real, vy: real, qx: real, qy: real) returns (t: real)
    requires vx * qy == vy * qx
    requires Min(0.0, vx) <= qx <= Max(0.0, vx) && Min(0.0, vy) <= qy <= Max(0.0, vy)
    ensures 0.0 <= t <= 1.0 && qx == t * vx && qy == t * vy
  {
    if vx != 0.0 {
      t := RatioOnLine(vx, vy, qx, qy);
    } else if vy != 0.0 {
      t := RatioOnLine(vy, vx, qy, qx);
    } else {
      t := 0.0;
    }
  }

  /** Conversely, every point on a segment is a fraction t in [0, 1] along it. */
  lemma ParamOf(s: Segment, p: Point) returns (t: real)
    requires OnSegment(s, p)
    ensures 0.0 <= t <= 1.0 && p == Along(s.p1, s.p2, t)
  {
    var vx, vy := s.p2.x - s.p1.x, s.p2.y - s.p1.y;
    var qx, qy := p.x - s.p1.x, p.y - s.p1.y;
    assert vx * qy == vy * qx;
    t := RatioInBox(vx, vy, qx, qy);
  }

  /** The cross product is affine in its third point: moving it a fraction t
      along s2 adds t times the cross product of the directions. */
  lemma CrossAlong(s1: Segment, s2: Segment, t: real)
    ensures CrossProduct(s1.p1, s1.p2, Along(s2.p1, s2.p2, t))
            == CrossProduct(s1.p1, s1.p2, s2.p1) + t * DirectionCross(s1, s2)
  {
    var ux, uy := s1.p2.x - s1.p1.x, s1.p2.y - s1.p1.y;
    var vx, vy := s2.p2.x - s2.p1.x, s2.p2.y - s2.p1.y;
    var px, py := s2.p1.x - s1.p1.x, s2.p1.y - s1.p1.y;
    var q := Along(s2.p1, s2.p2, t);
    assert q.x - s1.p1.x == px + t * vx;
    assert q.y - s1.p1.y == py + t * vy;
    CrossShift(ux, uy, px, py, t * vx, t * vy);
    assert ux * (t * vy) - uy * (t * vx) == t * (ux * vy - uy * vx);
  }

  /** x lies strictly between 0 and c, in either order. */
  lemma FractionInUnit(x: real, c: real)
    requires x * (x - c) < 0.0
    ensures c != 0.0 && 0.0 < x / c < 1.0
  {
    NegativeProduct(x, x - c);
    Quotient(x, c);
  }

  /** Dividing the agreeing weighted means by the total weight c. */
  lemma DivideMeans(c: real, d1: real, d3: real, a1: real, a2: real, b1: real, b2: real)
    requires c != 0.0
    requires (c - d3) * a1 + d3 * a2 == (c + d1) * b1 + (-d1) * b2
    ensures a1 + (d3 / c) * (a2 - a1) == b1 + (-d1 / c) * (b2 - b1)
  {
    var s, t := d3 / c, -d1 / c;
    assert s * c == d3 && t * c == -d1;
    assert c * (a1 + s * (a2 - a1)) == c * a1 + (s * c) * (a2 - a1);
    assert c * (b1 + t * (b2 - b1)) == c * b1 + (t * c) * (b2 - b1);
    assert c * (a1 + s * (a2 - a1)) == c * (b1 + t * (b2 - b1));
  }

  /** Under a proper straddle the two lines cross at a point of both segments. */
  lemma StraddlePoint(s1: Segment, s2: Segment) returns (p: Point)
    requires Straddle(s1, s2)
    ensures OnSegment(s1, p) && OnSegment(s2, p)
    ensures DirectionCross(s1, s2) != 0.0
    ensures p == Along(s1.p1, s1.p2, CrossProduct(s2.p1, s2.p2, s1.p1) / DirectionCross(s1, s2))
    ensures p == Along(s2.p1, s2.p2, -CrossProduct(s1.p1, s1.p2, s2.p1) / DirectionCross(s1, s2))
  {
    var a1, a2, b1, b2 := s1.p1, s1.p2, s2.p1, s2.p2;
    var d1, d3 := CrossProduct(a1, a2, b1), CrossProduct(b1, b2, a1);
    var c := DirectionCross(s1, s2);
    StraddleAlgebra(s1, s2);
    assert (-d1) * (-d1 - c) == d1 * CrossProduct(a1, a2, b2);
    FractionInUnit(d3, c);
    FractionInUnit(-d1, c);
    DivideMeans(c, d1, d3, a1.x, a2.x, b1.x, b2.x);
    DivideMeans(c, d1, d3, a1.y, a2.y, b1.y, b2.y);
    p := Along(a1, a2, d3 / c);
    assert p == Along(b1, b2, -d1 / c);
    AlongOnSegment(a1, a2, d3 / c);
    AlongOnSegment(b1, b2, -d1 / c);
  }

  /** Soundness: whenever the test reports an intersection, some point lies on both segments. */
  lemma IntersectionPoint(s1: Segment, s2: Segment) returns (p: Point)
    requires IsSegmentsIntersect(s1, s2)
    ensures OnSegment(s1, p) && OnSegment(s2, p)
  {
    var a1, a2, b1, b2 := s1.p1, s1.p2, s2.p1, s2.p2;
    EndpointsOnOwnSegment(s1);
    EndpointsOnOwnSegment(s2);
    if Straddle(s1, s2) {
      p := StraddlePoint(s1, s2);
    } else if CrossProduct(a1, a2, b1) == 0.0 && IsPointOnSegment(a1, a2, b1) {
      p := b1;
    } else if CrossProduct(a1, a2, b2) == 0.0 && IsPointOnSegment(a1, a2, b2) {
      p := b2;
    } else if CrossProduct(b1, b2, a1) == 0.0 && IsPointOnSegment(b1, b2, a1) {
      p := a1;
    } else {
      p := a2;
    }
  }

  /** An endpoint of either segment lying on the other segment, at its end or
      in its middle (a T-junction), is reported as an intersection. */
  lemma EndpointOnOtherIntersects(s1: Segment, s2: Segment)
    requires OnSegment(s1, s2.p1) || OnSegment(s1, s2.p2) || OnSegment(s2, s1.p1) || OnSegment(s2, s1.p2)
    ensures IsSegmentsIntersect(s1, s2)
  {
  }

  /** On the line of a segment that is not vertical, a point whose x lies in
      the segment's x-range lies in its bounding box. */
  lemma LineSpanX(s: Segment, q: Point)
    requires CrossProduct(s.p1, s.p2, q) == 0.0 && s.p1.x != s.p2.x
    requires Min(s.p1.x, s.p2.x) <= q.x <= Max(s.p1.x, s.p2.x)
    ensures InBox(s, q)
  {
    var vx, vy := s.p2.x - s.p1.x, s.p2.y - s.p1.y;
    var qx, qy := q.x - s.p1.x, q.y - s.p1.y;
    assert Min(0.0, vx) <= qx <= Max(0.0, vx);
    Quotient(qx, vx);
    SolveLine(vx, vy, qx, qy, qx / vx);
    InterpolateInRange(s.p1.y, s.p2.y, qx / vx);
  }

  /** The same for a segment that is not horizontal, by its y-range. */
  lemma LineSpanY(s: Segment, q: Point)
    requires CrossProduct(s.p1, s.p2, q) == 0.0 && s.p1.y != s.p2.y
    requires Min(s.p1.y, s.p2.y) <= q.y <= Max(s.p1.y, s.p2.y)
    ensures InBox(s, q)
  {
    var vx, vy := s.p2.x - s.p1.x, s.p2.y - s.p1.y;
    var qx, qy := q.x - s.p1.x, q.y - s.p1.y;
    assert Min(0.0, vy) <= qy <= Max(0.0, vy);
    Quotient(qy, vy);
    SolveLine(vy, vx, qy, qx, qy / vy);
    InterpolateInRange(s.p1.x, s.p2.x, qy / vy);
  }

  /** Overlapping segments on one line: an endpoint of one lies on the other. */
  lemma CollinearOverlap(s1: Segment, s2: Segment, p: Point)
    requires CrossProduct(s1.p1, s1.p2, s2.p1) == 0.0 && CrossProduct(s1.p1, s1.p2, s2.p2) == 0.0
    requires CrossProduct(s2.p1, s2.p2, s1.p1) == 0.0
    requires InBox(s1, p) && InBox(s2, p)
    ensures OnSegment(s1, s2.p1) || OnSegment(s1, s2.p2) || OnSegment(s2, s1.p1)
  {
    var a1, a2, b1, b2 := s1.p1, s1.p2, s2.p1, s2.p2;
    if a1.x != a2.x {
      if Min(a1.x, a2.x) <= b1.x <= Max(a1.x, a2.x) {
        LineSpanX(s1, b1);
      } else if Min(a1.x, a2.x) <= b2.x <= Max(a1.x, a2.x) {
        LineSpanX(s1, b2);
      } else {
        LineSpanX(s2, a1);
      }
    } else if a1.y != a2.y {
      if Min(a1.y, a2.y) <= b1.y <= Max(a1.y, a2.y) {
        LineSpanY(s1, b1);
      } else if Min(a1.y, a2.y) <= b2.y <= Max(a1.y, a2.y) {
        LineSpanY(s1, b2);
      } else {
        LineSpanY(s2, a1);
      }
    } else {
      assert p == a1;
    }
  }

  /** A nonzero fraction strictly inside (0, 1) of a nonzero c lies strictly
      between 0 and c. */
  lemma InteriorProduct(d: real, c: real, t: real)
    requires d == t * c && 0.0 < t < 1.0 && c != 0.0
    ensures d * (d - c) < 0.0
  {
    var k, cc := t * (t - 1.0), c * c;
    assert d * (d - c) == cc * k;
    ScaleStrict(t, t - 1.0, 0.0);
    assert k < 0.0;
    if c > 0.0 {
      ScaleStrict(c, 0.0, c);
    } else {
      ScaleStrict(-c, c, 0.0);
      assert (-c) * c == -cc;
    }
    assert cc > 0.0;
    ScaleStrict(cc, k, 0.0);
  }

  /** Where a common point sits on each segment, and the cross products that
      follow: d1 = -t c and d3 = u c. */
  lemma CommonPointParams(s1: Segment, s2: Segment, p: Point) returns (t: real, u: real)
    requires OnSegment(s1, p) && OnSegment(s2, p)
    ensures 0.0 <= t <= 1.0 && p == Along(s2.p1, s2.p2, t)
    ensures 0.0 <= u <= 1.0 && p == Along(s1.p1, s1.p2, u)
    ensures CrossProduct(s1.p1, s1.p2, s2.p1) == -(t * DirectionCross(s1, s2))
    ensures CrossProduct(s2.p1, s2.p2, s1.p1) == u * DirectionCross(s1, s2)
  {
    t := ParamOf(s2, p);
    u := ParamOf(s1, p);
    CrossAlong(s1, s2, t);
    CrossAlong(s2, s1, u);
    var c := DirectionCross(s1, s2);
    assert DirectionCross(s2, s1) == -c;
    assert u * DirectionCross(s2, s1) == -(u * c);
  }

  /** Completeness: a point on both segments makes the test report an intersection. */
  lemma CommonPointIntersects(s1: Segment, s2: Segment, p: Point)
    requires OnSegment(s1, p) && OnSegment(s2, p)
    ensures IsSegmentsIntersect(s1, s2)
  {
    var a1, a2, b1, b2 := s1.p1, s1.p2, s2.p1, s2.p2;
    var t, u := CommonPointParams(s1, s2, p);
    var c := DirectionCross(s1, s2);
    var d1, d3 := CrossProduct(a1, a2, b1), CrossProduct(b1, b2, a1);
    if t == 0.0 || t == 1.0 || u == 0.0 || u == 1.0 {
      assert Along(b1, b2, 0.0) == b1 && Along(b1, b2, 1.0) == b2;
      assert Along(a1, a2, 0.0) == a1 && Along(a1, a2, 1.0) == a2;
      EndpointOnOtherIntersects(s1, s2);
    } else if c != 0.0 {
      StraddleAlgebra(s1, s2);
      InteriorProduct(-d1, c, t);
      InteriorProduct(d3, c, u);
      assert (-d1) * (-d1 - c) == d1 * CrossProduct(a1, a2, b2);
      StraddleIntersects(s1, s2);
    } else {
      StraddleAlgebra(s1, s2);
      CollinearOverlap(s1, s2, p);
      EndpointOnOtherIntersects(s1, s2);
    }
  }

  /** Over exact coordinates the test is exact: it reports an intersection iff
      some point lies on both segments. */
  lemma IntersectIffCommonPoint(s1: Segment, s2: Segment)
    ensures IsSegmentsIntersect(s1, s2) <==> exists p :: OnSegment(s1, p) && OnSegment(s2, p)
  {
    if IsSegmentsIntersect(s1, s2) {
      var p := IntersectionPoint(s1, s2);
    }
    if exists p :: OnSegment(s1, p) && OnSegment(s2, p) {
      var p :| OnSegment(s1, p) && OnSegment(s2, p);
      CommonPointIntersects(s1, s2, p);
    }
  }

  /** IsPointOnSegment alone is tolerant: (1, 0.000000000525) is accepted on
      (0,0)-(2, 0.000000001) though it is off the line by a cross product of
      0.00000000005. */
  lemma ToleranceExample()
    ensures IsPointOnSegment(Point(0.0, 0.0), Point(2.0, 0.000000001), Point(1.0, 0.000000000525))
    ensures !OnSegment(Segment(Point(0.0, 0.0), Point(2.0, 0.000000001)), Point(1.0, 0.000000000525))
  {
    assert CrossProduct(Point(0.0, 0.0), Point(2.0, 0.000000001), Point(1.0, 0.000000000525)) == 0.00000000005;
  }

  // ---------------------------------------------------------------------------
  // Anchors and control points
  // ---------------------------------------------------------------------------

  /** The midpoints of the rectangle's top, bottom, left and right sides. */
  function GetConnectionPoints(rect: Rect): (r: Anchors)
  {
    Anchors(
      Point(rect.x + rect.width / 2.0, rect.y),
      Point(rect.x + rect.width / 2.0, rect.y + rect.height),
      Point(rect.x, rect.y + rect.height / 2.0),
      Point(rect.x + rect.width, rect.y + rect.height / 2.0))
  }

  /** The anchor a side names. */
  function AnchorAt(anchors: Anchors, side: Side): (r: Point)
  {
    match side
    case Top => anchors.top
    case Bottom => anchors.bottom
    case Left => anchors.left
    case Right => anchors.right
  }

  function Center(r: Rect): (c: Point)
  {
    Point(r.x + r.width / 2.0, r.y + r.height / 2.0)
  }

  /** Horizontal displacement from the centre of a to the centre of b. */
  function Dx(a: Rect, b: Rect): (r: real)
  {
    Center(b).x - Center(a).x
  }

  /** Vertical displacement from the centre of a to the centre of b. */
  function Dy(a: Rect, b: Rect): (r: real)
  {
    Center(b).y - Center(a).y
  }

  /** The horizontal sides are used iff the horizontal displacement is strictly larger. */
  predicate IsHorizontal(a: Rect, b: Rect)
  {
    Abs(Dx(a, b)) > Abs(Dy(a, b))
  }

  /** The side of block1 a connector to block2 leaves from. */
  function StartSide(block1: Rect, block2: Rect): (r: Side)
  {
    if IsHorizontal(block1, block2) then (if Dx(block1, block2) > 0.0 then Right else Left)
    else (if Dy(block1, block2) > 0.0 then Bottom else Top)
  }

  /** The side of block2 a connector from block1 arrives at. */
  function EndSide(block1: Rect, block2: Rect): (r: Side)
  {
    if IsHorizontal(block1, block2) then (if Dx(block1, block2) > 0.0 then Left else Right)
    else (if Dy(block1, block2) > 0.0 then Top else Bottom)
  }

  /** Anchors on the facing sides of the two rectangles along the dominant axis,
      and control points Offset beyond them, signed by the displacement. */
  function ComputeConnectionPoints(block1: Rect, block2: Rect): (r: Route)
  {
    var dx, dy := Dx(block1, block2), Dy(block1, block2);
    var start := AnchorAt(GetConnectionPoints(block1), StartSide(block1, block2));
    var end := AnchorAt(GetConnectionPoints(block2), EndSide(block1, block2));
    if IsHorizontal(block1, block2) then
      Route(start, end,
            Point(start.x + Offset * Sign(dx), start.y),
            Point(end.x - Offset * Sign(dx), end.y))
    else
      Route(start, end,
            Point(start.x, start.y + Offset * Sign(dy)),
            Point(end.x, end.y - Offset * Sign(dy)))
  }

  /** The midpoint of two points. */
  function Midpoint(p: Point, q: Point): (r: Point)
  {
    Point((p.x + q.x) / 2.0, (p.y + q.y) / 2.0)
  }

  /** p lies on the outline of r. */
  ghost predicate OnBoundary(r: Rect, p: Point)
  {
    (r.x <= p.x <= r.x + r.width && (p.y == r.y || p.y == r.y + r.height)) ||
    (r.y <= p.y <= r.y + r.height && (p.x == r.x || p.x == r.x + r.width))
  }

  /** Each anchor is the midpoint between the two corners of its side, and lies
      on the rectangle's outline when the size is not negative. */
  lemma AnchorsAreSideMidpoints(r: Rect)
    ensures var a := GetConnectionPoints(r);
            var topLeft, topRight := Point(r.x, r.y), Point(r.x + r.width, r.y);
            var bottomLeft := Point(r.x, r.y + r.height);
            var bottomRight := Point(r.x + r.width, r.y + r.height);
            a.top == Midpoint(topLeft, topRight) &&
            a.bottom == Midpoint(bottomLeft, bottomRight) &&
            a.left == Midpoint(topLeft, bottomLeft) &&
            a.right == Midpoint(topRight, bottomRight)
    ensures r.width >= 0.0 && r.height >= 0.0 ==>
              forall side :: OnBoundary(r, AnchorAt(GetConnectionPoints(r), side))
  {
  }

  /** The side choice: across the dominant axis, towards the other rectangle.
      A tie |dx| == |dy|, including two concentric rectangles, is vertical. */
  lemma SideChoice(a: Rect, b: Rect)
    ensures var g, dx, dy := ComputeConnectionPoints(a, b), Dx(a, b), Dy(a, b);
            (Abs(dx) > Abs(dy) && dx > 0.0 ==>
               g.start == Point(a.x + a.width, a.y + a.height / 2.0) &&
               g.end == Point(b.x, b.y + b.height / 2.0)) &&
            (Abs(dx) > Abs(dy) && dx <= 0.0 ==>
               g.start == Point(a.x, a.y + a.height / 2.0) &&
               g.end == Point(b.x + b.width, b.y + b.height / 2.0)) &&
            (Abs(dx) <= Abs(dy) && dy > 0.0 ==>
               g.start == Point(a.x + a.width / 2.0, a.y + a.height) &&
               g.end == Point(b.x + b.width / 2.0, b.y)) &&
            (Abs(dx) <= Abs(dy) && dy <= 0.0 ==>
               g.start == Point(a.x + a.width / 2.0, a.y) &&
               g.end == Point(b.x + b.width / 2.0, b.y + b.height))
  {
  }

  /** Control points: Offset times the sign of the dominant displacement, away
      from the start anchor and back from the end anchor. */
  lemma ControlPoints(a: Rect, b: Rect)
    ensures var g, dx, dy := ComputeConnectionPoints(a, b), Dx(a, b), Dy(a, b);
            (Abs(dx) > Abs(dy) ==>
               g.control1 == Point(g.start.x + 10.0 * Sign(dx), g.start.y) &&
               g.control2 == Point(g.end.x - 10.0 * Sign(dx), g.end.y)) &&
            (Abs(dx) <= Abs(dy) ==>
               g.control1 == Point(g.start.x, g.start.y + 10.0 * Sign(dy)) &&
               g.control2 == Point(g.end.x, g.end.y - 10.0 * Sign(dy)))
  {
  }

  /** Manhattan distance. */
  function Distance1(p: Point, q: Point): (r: real)
  {
    Abs(p.x - q.x) + Abs(p.y - q.y)
  }

  /** A nonzero displacement v: 10 times its sign has length 10 and points along v. */
  lemma SignedOffset(v: real)
    requires v != 0.0
    ensures Abs(Offset * Sign(v)) == Offset && Offset * Sign(v) * v >= 0.0
  {
  }

  /** Unless the centres coincide, each control point is exactly Offset from its
      anchor; control1 lies on B's side of the start, control2 on A's side of the end. */
  lemma ControlsBowOutward(a: Rect, b: Rect)
    requires Center(a) != Center(b)
    ensures var g := ComputeConnectionPoints(a, b);
            Distance1(g.start, g.control1) == Offset &&
            Distance1(g.end, g.control2) == Offset &&
            (g.control1.x - g.start.x) * Dx(a, b) >= 0.0 &&
            (g.control1.y - g.start.y) * Dy(a, b) >= 0.0 &&
            (g.end.x - g.control2.x) * Dx(a, b) >= 0.0 &&
            (g.end.y - g.control2.y) * Dy(a, b) >= 0.0
  {
    var g, dx, dy := ComputeConnectionPoints(a, b), Dx(a, b), Dy(a, b);
    if IsHorizontal(a, b) {
      SignedOffset(dx);
      var k := Offset * Sign(dx);
      assert g.control1.x - g.start.x == k && g.control1.y - g.start.y == 0.0;
      assert g.end.x - g.control2.x == k && g.end.y - g.control2.y == 0.0;
    } else {
      assert dy != 0.0;
      SignedOffset(dy);
      var k := Offset * Sign(dy);
      assert g.control1.x - g.start.x == 0.0 && g.control1.y - g.start.y == k;
      assert g.end.x - g.control2.x == 0.0 && g.end.y - g.control2.y == k;
    }
  }

  /** Concentric rectangles: top of a to bottom of b, a flat curve whose control
      points coincide with the anchors. */
  lemma ConcentricRoute(a: Rect, b: Rect)
    requires Center(a) == Center(b)
    ensures var g := ComputeConnectionPoints(a, b);
            g.start == GetConnectionPoints(a).top &&
            g.end == GetConnectionPoints(b).bottom &&
            g.control1 == g.start && g.control2 == g.end
  {
  }

  /** When the centres differ, swapping the rectangles swaps the anchors and the
      control points. */
  lemma MirrorSymmetry(a: Rect, b: Rect)
    requires Center(a) != Center(b)
    ensures var g := ComputeConnectionPoints(a, b);
            ComputeConnectionPoints(b, a) == Route(g.end, g.start, g.control2, g.control1)
  {
    assert Dx(b, a) == -Dx(a, b) && Dy(b, a) == -Dy(a, b);
  }

  /** start lies on the outline of a and end on the outline of b, whenever both
      sizes are not negative. */
  lemma EndpointsOnBoundary(a: Rect, b: Rect)
    requires a.width >= 0.0 && a.height >= 0.0 && b.width >= 0.0 && b.height >= 0.0
    ensures OnBoundary(a, ComputeConnectionPoints(a, b).start)
    ensures OnBoundary(b, ComputeConnectionPoints(a, b).end)
  {
    AnchorsAreSideMidpoints(a);
    AnchorsAreSideMidpoints(b);
    assert ComputeConnectionPoints(a, b).start == AnchorAt(GetConnectionPoints(a), StartSide(a, b));
    assert ComputeConnectionPoints(a, b).end == AnchorAt(GetConnectionPoints(b), EndSide(a, b));
  }

  /** A at (0,0,200,100) and B at (400,0,200,100): right of A to left of B at y = 50. */
  lemma SideBySideExample()
    ensures ComputeConnectionPoints(Rect(0.0, 0.0, 200.0, 100.0), Rect(400.0, 0.0, 200.0, 100.0))
            == Route(Point(200.0, 50.0), Point(400.0, 50.0), Point(210.0, 50.0), Point(390.0, 50.0))
  {
  }

  // ---------------------------------------------------------------------------
  // The path handed to the curve renderer
  // ---------------------------------------------------------------------------

  /** The eight numbers of a route in drawing order: start, control1, control2,
      end. Both Connection.update methods set a curve's points to these. */
  function Path(g: Route): (s: seq<real>)
    ensures |s| == 8
  {
    [g.start.x, g.start.y, g.control1.x, g.control1.y,
     g.control2.x, g.control2.y, g.end.x, g.end.y]
  }

  /** Reads a route back from eight numbers in drawing order. */
  function FromPath(s: seq<real>): (r: Route)
    requires |s| == 8
  {
    Route(Point(s[0], s[1]), Point(s[6], s[7]), Point(s[2], s[3]), Point(s[4], s[5]))
  }

  /** Path loses nothing: it and FromPath are mutually inverse. */
  lemma PathRoundTrip(g: Route, s: seq<real>)
    requires |s| == 8
    ensures FromPath(Path(g)) == g
    ensures Path(FromPath(s)) == s
  {
  }
}
