/** Hit testing of Path.cs: `DistanceToSegment`, `IsNearPoint`, the circle and rectangle
    intersection tests and `IsPointInCircle`. */
module PathHit {
  import opened Text
  import opened Core
  import opened PathScanner
  import opened PathBounds
  import opened PathTokens

  // ---------------------------------------------------------------------------
  // Distance from a point to a segment
  // ---------------------------------------------------------------------------

  function Sub(a: Point, b: Point): Point { Point(a.x - b.x, a.y - b.y) }

  function Dot(u: Point, v: Point): real { u.x * v.x + u.y * v.y }

  /** Squared length of a vector; zero only for the zero vector. */
  function Len2(v: Point): (r: real)
    ensures r >= 0.0
    ensures !(v.x == 0.0 && v.y == 0.0) ==> r > 0.0
  {
    Sq(v.x) + Sq(v.y)
  }

  /** The point `s` of the way from `a` to `b`. */
  function Lerp(a: Point, b: Point, s: real): Point {
    Point(a.x + s * (b.x - a.x), a.y + s * (b.y - a.y))
  }

  /** `num / den` for a positive denominator. */
  function Ratio(num: real, den: real): (q: real)
    requires den > 0.0
    ensures q * den == num
  {
    num / den
  }

  /** The projection parameter of `p` on segment `ab`, clamped to [0, 1]; 0 for a
      degenerate segment. */
  function ProjectionParameter(p: Point, a: Point, b: Point): (t: real)
    ensures 0.0 <= t <= 1.0
  {
    var d := Sub(b, a);
    if d.x == 0.0 && d.y == 0.0 then 0.0
    else ClampReal(Ratio(Dot(Sub(p, a), d), Len2(d)), 0.0, 1.0)
  }

  /** The point of segment `ab` closest to `p` (`a` itself for a degenerate segment). */
  function Closest(p: Point, a: Point, b: Point): Point {
    Lerp(a, b, ProjectionParameter(p, a, b))
  }

  /** `DistanceToSegment(px, py, x1, y1, x2, y2)`: with a true square root, the length
      from `p` to the closest point of the segment. */
  function DistanceToSegment(nf: Numerics, p: Point, a: Point, b: Point): (r: real)
    ensures SqrtIsRoot(nf) ==> r >= 0.0 && r * r == DistSq(p, Closest(p, a, b))
  {
    nf.sqrt(DistSq(p, Closest(p, a, b)))
  }

  lemma SquareOfDifference(w: real, s: real, d: real)
    ensures Sq(w - s * d) == Sq(w) - 2.0 * s * (w * d) + s * s * Sq(d)
  {
    assert (w - s * d) * (w - s * d) == w * w - 2.0 * s * (w * d) + s * s * (d * d);
  }

  /** The quadratic `ww - 2 s wd + s^2 dd`. */
  function Quad(ww: real, wd: real, dd: real, s: real): real {
    ww - 2.0 * s * wd + s * s * dd
  }

  /** Squared distance from `p` to the point `s` of the way along `ab`, as a quadratic
      in `s`. */
  lemma SquaredDistanceAlong(p: Point, a: Point, b: Point, s: real)
    ensures DistSq(p, Lerp(a, b, s)) == Quad(Len2(Sub(p, a)), Dot(Sub(p, a), Sub(b, a)), Len2(Sub(b, a)), s)
  {
    var w, d := Sub(p, a), Sub(b, a);
    var q := Lerp(a, b, s);
    assert p.x - q.x == w.x - s * d.x;
    assert p.y - q.y == w.y - s * d.y;
    SquareOfDifference(w.x, s, d.x);
    SquareOfDifference(w.y, s, d.y);
  }

  /** Over [0, 1] the quadratic is lowest at its vertex `u` clamped to [0, 1]. */
  lemma ClampedVertexIsLowest(ww: real, wd: real, dd: real, u: real, s: real)
    requires dd > 0.0 && u * dd == wd && 0.0 <= s <= 1.0
    ensures Quad(ww, wd, dd, ClampReal(u, 0.0, 1.0)) <= Quad(ww, wd, dd, s)
  {
    var t := ClampReal(u, 0.0, 1.0);
    assert Quad(ww, wd, dd, s) == ww + dd * ((s - u) * (s - u) - u * u);
    assert Quad(ww, wd, dd, t) == ww + dd * ((t - u) * (t - u) - u * u);
    assert (t - u) * (t - u) <= (s - u) * (s - u) by {
      if u < 0.0 {
        SquareMonotone(-u, s - u);
      } else if u > 1.0 {
        SquareMonotone(u - 1.0, u - s);
      }
    }
    MulMono(dd, (t - u) * (t - u), (s - u) * (s - u));
  }

  /** The clamped projection is no farther from `p` than any other point of the segment. */
  lemma ClosestIsNearest(p: Point, a: Point, b: Point, s: real)
    requires 0.0 <= s <= 1.0
    ensures DistSq(p, Closest(p, a, b)) <= DistSq(p, Lerp(a, b, s))
  {
    var d := Sub(b, a);
    if d.x == 0.0 && d.y == 0.0 {
      assert b == a;
      assert Lerp(a, b, s) == a == Closest(p, a, b);
    } else {
      var w := Sub(p, a);
      var u := Ratio(Dot(w, d), Len2(d));
      SquaredDistanceAlong(p, a, b, s);
      SquaredDistanceAlong(p, a, b, ClampReal(u, 0.0, 1.0));
      ClampedVertexIsLowest(Len2(w), Dot(w, d), Len2(d), u, s);
    }
  }

  /** The distance to a segment vanishes at each of its points. */
  lemma DistanceToPointOnSegment(nf: Numerics, p: Point, a: Point, b: Point, s: real)
    requires SqrtIsRoot(nf) && 0.0 <= s <= 1.0 && p == Lerp(a, b, s)
    ensures DistanceToSegment(nf, p, a, b) == 0.0
  {
    ClosestIsNearest(p, a, b, s);
    assert DistSq(p, Lerp(a, b, s)) == 0.0;
    SqrtOfSquare(nf, 0.0);
  }

  // ---------------------------------------------------------------------------
  // IsNearPoint
  // ---------------------------------------------------------------------------

  /** Hit distance of `IsNearPoint`. */
  const Threshold: real := 5.0

  /** Samples per Bézier curve, at t = 0.1, 0.2, ..., 1.0. */
  const CurveSamples: nat := 10

  /** The 20-segment polyline `SampleArc` computes for a proper arc; its trigonometry
      is not part of this model. */
  type ArcSampler = (Point, real, real, real, bool, bool, Point) -> seq<Point>

  /** `SampleArc`: a zero radius degenerates to the chord. */
  function SampleArc(sampler: ArcSampler, from: Point, rx: real, ry: real, angle: real,
                     largeArc: bool, sweep: bool, to: Point): seq<Point> {
    if rx == 0.0 || ry == 0.0 then [from, to]
    else sampler(from, rx, ry, angle, largeArc, sweep, to)
  }

  /** Cubic Bernstein weights at `t`. */
  function Cubic(a: real, b: real, c: real, d: real, t: real): real {
    var s := 1.0 - t;
    (s * s * s) * a + (3.0 * (s * s) * t) * b + (3.0 * s * (t * t)) * c + (t * t * t) * d
  }

  function Quadratic(a: real, b: real, c: real, t: real): real {
    var s := 1.0 - t;
    (s * s) * a + (2.0 * s * t) * b + (t * t) * c
  }

  function SampleAt(i: nat): real { (i + 1) as real / CurveSamples as real }

  function CubicSamples(f: Point, c1: Point, c2: Point, p: Point): (ps: seq<Point>)
    ensures |ps| == CurveSamples
  {
    seq(CurveSamples, i requires 0 <= i < CurveSamples =>
      Point(Cubic(f.x, c1.x, c2.x, p.x, SampleAt(i)), Cubic(f.y, c1.y, c2.y, p.y, SampleAt(i))))
  }

  function QuadraticSamples(f: Point, c1: Point, p: Point): (ps: seq<Point>)
    ensures |ps| == CurveSamples
  {
    seq(CurveSamples, i requires 0 <= i < CurveSamples =>
      Point(Quadratic(f.x, c1.x, p.x, SampleAt(i)), Quadratic(f.y, c1.y, p.y, SampleAt(i))))
  }

  /** Some piece of the polyline from `prev` through `pts` is within the threshold. */
  predicate PolylineNear(nf: Numerics, q: Point, prev: Point, pts: seq<Point>)
    decreases |pts|
  {
    |pts| > 0 && (DistanceToSegment(nf, q, prev, pts[0]) < Threshold || PolylineNear(nf, q, pts[0], pts[1..]))
  }

  predicate SegmentNear(nf: Numerics, sampler: ArcSampler, q: Point, s: Segment) {
    match s
    case MoveTo(_) => false
    case LineTo(f, p) => DistanceToSegment(nf, q, f, p) < Threshold
    case HorizontalTo(f, p) => DistanceToSegment(nf, q, f, p) < Threshold
    case VerticalTo(f, p) => DistanceToSegment(nf, q, f, p) < Threshold
    case CubicTo(f, c1, c2, p) => PolylineNear(nf, q, f, CubicSamples(f, c1, c2, p))
    case QuadraticTo(f, c1, p) => PolylineNear(nf, q, f, QuadraticSamples(f, c1, p))
    case ArcTo(f, rx, ry, angle, large, sweep, p) =>
      var pts := SampleArc(sampler, f, rx, ry, angle, large, sweep, p);
      |pts| > 0 && PolylineNear(nf, q, pts[0], pts[1..])
    case ClosePath(f, p) => DistanceToSegment(nf, q, f, p) < Threshold
  }

  /** `IsNearPoint(x, y, path)`: some drawn piece of the path passes within the
      threshold of the query point. */
  predicate IsNearPoint(nf: Numerics, sampler: ArcSampler, q: Point, d: string) {
    var segs := Segments(nf, d);
    exists k :: 0 <= k < |segs| && SegmentNear(nf, sampler, q, segs[k])
  }

  // ---------------------------------------------------------------------------
  // A hit is always close to the bounds
  // ---------------------------------------------------------------------------

  lemma MulMono(w: real, x: real, y: real)
    requires w >= 0.0 && x <= y
    ensures w * x <= w * y
  {
    assert w * (y - x) >= 0.0;
  }

  /** A convex combination of values in [lo, hi] stays in [lo, hi]. */
  lemma Convex4(w0: real, w1: real, w2: real, w3: real, a: real, b: real, c: real, d: real, lo: real, hi: real)
    requires w0 >= 0.0 && w1 >= 0.0 && w2 >= 0.0 && w3 >= 0.0 && w0 + w1 + w2 + w3 == 1.0
    requires lo <= a <= hi && lo <= b <= hi && lo <= c <= hi && lo <= d <= hi
    ensures lo <= w0 * a + w1 * b + w2 * c + w3 * d <= hi
  {
    ConvexAbove(w0, w1, w2, w3, a, b, c, d, lo);
    ConvexAbove(w0, w1, w2, w3, -a, -b, -c, -d, -hi);
  }

  lemma ConvexAbove(w0: real, w1: real, w2: real, w3: real, a: real, b: real, c: real, d: real, lo: real)
    requires w0 >= 0.0 && w1 >= 0.0 && w2 >= 0.0 && w3 >= 0.0 && w0 + w1 + w2 + w3 == 1.0
    requires lo <= a && lo <= b && lo <= c && lo <= d
    ensures lo <= w0 * a + w1 * b + w2 * c + w3 * d
    ensures -(w0 * a + w1 * b + w2 * c + w3 * d) == w0 * -a + w1 * -b + w2 * -c + w3 * -d
  {
    var p0, p1, p2, p3 := w0 * (a - lo), w1 * (b - lo), w2 * (c - lo), w3 * (d - lo);
    MulMono(w0, 0.0, a - lo); MulMono(w1, 0.0, b - lo); MulMono(w2, 0.0, c - lo); MulMono(w3, 0.0, d - lo);
    assert p0 >= 0.0 && p1 >= 0.0 && p2 >= 0.0 && p3 >= 0.0;
    assert w0 * a + w1 * b + w2 * c + w3 * d == p0 + p1 + p2 + p3 + (w0 + w1 + w2 + w3) * lo;
  }

  lemma CubicWithin(a: real, b: real, c: real, d: real, t: real, lo: real, hi: real)
    requires 0.0 <= t <= 1.0
    requires lo <= a <= hi && lo <= b <= hi && lo <= c <= hi && lo <= d <= hi
    ensures lo <= Cubic(a, b, c, d, t) <= hi
  {
    var s := 1.0 - t;
    var ss, tt := Sq(s), Sq(t);
    assert s * s == ss && t * t == tt;
    var w0, w1, w2, w3 := ss * s, 3.0 * ss * t, 3.0 * s * tt, tt * t;
    MulMono(ss, 0.0, s); MulMono(ss, 0.0, t); MulMono(s, 0.0, tt); MulMono(tt, 0.0, t);
    assert ss == 1.0 - 2.0 * t + tt;
    assert w0 + w1 + w2 + w3 == (1.0 - 2.0 * t + tt) * (1.0 + 2.0 * t) + 3.0 * tt - 2.0 * t * tt;
    assert w0 + w1 + w2 + w3 == 1.0;
    Convex4(w0, w1, w2, w3, a, b, c, d, lo, hi);
  }

  lemma QuadraticWithin(a: real, b: real, c: real, t: real, lo: real, hi: real)
    requires 0.0 <= t <= 1.0
    requires lo <= a <= hi && lo <= b <= hi && lo <= c <= hi
    ensures lo <= Quadratic(a, b, c, t) <= hi
  {
    var s := 1.0 - t;
    var ss, tt := Sq(s), Sq(t);
    assert s * s == ss && t * t == tt;
    MulMono(s, 0.0, t);
    var w1 := 2.0 * s * t;
    assert ss == 1.0 - 2.0 * t + tt;
    assert ss + w1 + tt == 1.0;
    Convex4(ss, w1, tt, 0.0, a, b, c, c, lo, hi);
    assert 0.0 * c == 0.0;
    assert Quadratic(a, b, c, t) == ss * a + w1 * b + tt * c;
  }

  lemma LerpWithin(a: Point, b: Point, s: real, r: Rect)
    requires 0.0 <= s <= 1.0 && InRect(a, r) && InRect(b, r)
    ensures InRect(Lerp(a, b, s), r)
  {
    var t := 1.0 - s;
    assert a.x + s * (b.x - a.x) == t * a.x + s * b.x;
    assert a.y + s * (b.y - a.y) == t * a.y + s * b.y;
    Convex4(t, s, 0.0, 0.0, a.x, b.x, b.x, b.x, r.x, r.x + r.width);
    Convex4(t, s, 0.0, 0.0, a.y, b.y, b.y, b.y, r.y, r.y + r.height);
  }

  /** `r` widened by `m` on every side. */
  function Grow(r: Rect, m: real): Rect {
    Rect(r.x - m, r.y - m, r.width + 2.0 * m, r.height + 2.0 * m)
  }

  /** A point within the threshold of a segment inside a box is inside the grown box. */
  lemma NearSegmentInGrownBox(nf: Numerics, q: Point, a: Point, b: Point, r: Rect)
    requires SqrtIsRoot(nf) && InRect(a, r) && InRect(b, r)
    requires DistanceToSegment(nf, q, a, b) < Threshold
    ensures InRect(q, Grow(r, Threshold))
  {
    var c := Closest(q, a, b);
    LerpWithin(a, b, ProjectionParameter(q, a, b), r);
    SqrtBelow(nf, DistSq(q, c), Threshold);
    ComponentBelow(q.x - c.x, Threshold);
    ComponentBelow(q.y - c.y, Threshold);
  }

  lemma ComponentBelow(v: real, m: real)
    requires 0.0 <= m && Sq(v) < m * m
    ensures -m < v < m
  {
    if v >= m { SquareMonotone(m, v); }
    if -v >= m { assert Sq(-v) == Sq(v); SquareMonotone(m, -v); }
  }

  lemma ComponentAtMost(v: real, m: real)
    requires 0.0 <= m && Sq(v) <= m * m
    ensures -m <= v <= m
  {
    if v > m { SquareMonotone(m, v); }
    if -v > m { assert Sq(-v) == Sq(v); SquareMonotone(m, -v); }
  }

  lemma {:induction false} PolylineNearInGrownBox(nf: Numerics, q: Point, prev: Point, pts: seq<Point>, r: Rect)
    requires SqrtIsRoot(nf) && InRect(prev, r)
    requires forall i :: 0 <= i < |pts| ==> InRect(pts[i], r)
    requires PolylineNear(nf, q, prev, pts)
    ensures InRect(q, Grow(r, Threshold))
    decreases |pts|
  {
    if DistanceToSegment(nf, q, prev, pts[0]) < Threshold {
      NearSegmentInGrownBox(nf, q, prev, pts[0], r);
    } else {
      PolylineNearInGrownBox(nf, q, pts[0], pts[1..], r);
    }
  }

  lemma SegmentNearInGrownBox(nf: Numerics, sampler: ArcSampler, q: Point, s: Segment, r: Rect)
    requires SqrtIsRoot(nf) && !s.ArcTo?
    requires forall j :: 0 <= j < |Hull(s)| ==> InRect(Hull(s)[j], r)
    requires SegmentNear(nf, sampler, q, s)
    ensures InRect(q, Grow(r, Threshold))
  {
    var h := Hull(s);
    match s
    case CubicTo(f, c1, c2, p) =>
      assert InRect(f, r) && InRect(c1, r) && InRect(c2, r) && InRect(p, r) by {
        assert h[0] == f && h[1] == c1 && h[2] == c2 && h[3] == p;
      }
      var pts := CubicSamples(f, c1, c2, p);
      forall i | 0 <= i < |pts| ensures InRect(pts[i], r) {
        CubicWithin(f.x, c1.x, c2.x, p.x, SampleAt(i), r.x, r.x + r.width);
        CubicWithin(f.y, c1.y, c2.y, p.y, SampleAt(i), r.y, r.y + r.height);
      }
      PolylineNearInGrownBox(nf, q, f, pts, r);
    case QuadraticTo(f, c1, p) =>
      assert InRect(f, r) && InRect(c1, r) && InRect(p, r) by {
        assert h[0] == f && h[1] == c1 && h[2] == p;
      }
      var pts := QuadraticSamples(f, c1, p);
      forall i | 0 <= i < |pts| ensures InRect(pts[i], r) {
        QuadraticWithin(f.x, c1.x, p.x, SampleAt(i), r.x, r.x + r.width);
        QuadraticWithin(f.y, c1.y, p.y, SampleAt(i), r.y, r.y + r.height);
      }
      PolylineNearInGrownBox(nf, q, f, pts, r);
    case LineTo(f, p) =>
      assert h[0] == f && h[1] == p;
      NearSegmentInGrownBox(nf, q, f, p, r);
    case HorizontalTo(f, p) =>
      assert h[0] == f && h[1] == p;
      NearSegmentInGrownBox(nf, q, f, p, r);
    case VerticalTo(f, p) =>
      assert h[0] == f && h[1] == p;
      NearSegmentInGrownBox(nf, q, f, p, r);
    case ClosePath(f, p) =>
      assert h[0] == f && h[1] == p;
      NearSegmentInGrownBox(nf, q, f, p, r);
  }

  /** The path draws no elliptical arc. */
  predicate NoArcs(segs: seq<Segment>) {
    forall k :: 0 <= k < |segs| ==> !segs[k].ArcTo?
  }

  /** For a path that opens with a moveto and draws no arc, a hit is never farther than
      the threshold outside `GetBounds`: the bounds are a sound pre-filter for hits. */
  lemma NearPointIsNearBounds(nf: Numerics, sampler: ArcSampler, q: Point, d: string)
    requires SqrtIsRoot(nf)
    requires OpensWithMoveTo(Tokens(nf, d, false)) && NoArcs(Segments(nf, d))
    requires Finite(AllXs(Segments(nf, d))) && Finite(AllYs(Segments(nf, d)))
    requires IsNearPoint(nf, sampler, q, d)
    ensures InRect(q, Grow(GetBounds(nf, d), Threshold))
  {
    var segs := Segments(nf, d);
    var k :| 0 <= k < |segs| && SegmentNear(nf, sampler, q, segs[k]);
    BoundsHoldEverySegment(nf, d);
    SegmentNearInGrownBox(nf, sampler, q, segs[k], GetBounds(nf, d));
  }

  // ---------------------------------------------------------------------------
  // Circles and rectangles
  // ---------------------------------------------------------------------------

  /** `SegmentIntersectsCircle`: a degenerate segment never intersects; otherwise the
      closest point is within the radius. */
  predicate SegmentIntersectsCircle(a: Point, b: Point, c: Point, radius: real) {
    Len2(Sub(b, a)) != 0.0 && DistSq(Closest(c, a, b), c) <= radius * radius
  }

  lemma DistSqSymmetric(a: Point, b: Point)
    ensures DistSq(a, b) == DistSq(b, a)
  {
  }

  /** A proper segment intersects the circle exactly when one of its points lies within
      the radius of the centre. */
  lemma SegmentIntersectsCircleMeaning(a: Point, b: Point, c: Point, radius: real)
    requires a != b
    ensures SegmentIntersectsCircle(a, b, c, radius)
        <==> exists s :: 0.0 <= s <= 1.0 && DistSq(Lerp(a, b, s), c) <= radius * radius
  {
    assert Len2(Sub(b, a)) > 0.0;
    if SegmentIntersectsCircle(a, b, c, radius) {
      var t := ProjectionParameter(c, a, b);
      assert DistSq(Lerp(a, b, t), c) <= radius * radius;
    }
    if s :| 0.0 <= s <= 1.0 && DistSq(Lerp(a, b, s), c) <= radius * radius {
      PointWithinRadius(a, b, c, radius, s);
    }
  }

  lemma PointWithinRadius(a: Point, b: Point, c: Point, radius: real, s: real)
    requires 0.0 <= s <= 1.0 && DistSq(Lerp(a, b, s), c) <= radius * radius
    ensures DistSq(Closest(c, a, b), c) <= radius * radius
  {
    ClosestIsNearest(c, a, b, s);
    DistSqSymmetric(Lerp(a, b, s), c);
    DistSqSymmetric(Closest(c, a, b), c);
  }

  /** `IntersectsCircle(path, cx, cy, radius)` over the points `GetPoints` finds: some
      point is within the radius, or the segment joining it to the previous point
      intersects the circle. */
  predicate IntersectsCircle(nf: Numerics, d: string, c: Point, radius: real) {
    HitsPolyline(GetPoints(nf, d), c, radius)
  }

  /** The loop of `IntersectsCircle` over `pts`: some point is within the radius, or the
      segment joining it to the previous point intersects the circle. */
  predicate HitsPolyline(pts: seq<Point>, c: Point, radius: real) {
    exists i :: 0 <= i < |pts| && HitAt(pts, i, c, radius)
  }

  /** The loop returns at the `i`-th point. */
  predicate HitAt(pts: seq<Point>, i: int, c: Point, radius: real)
    requires 0 <= i < |pts|
  {
    DistSq(pts[i], c) <= radius * radius || (i > 0 && SegmentIntersectsCircle(pts[i - 1], pts[i], c, radius))
  }

  /** The point a fraction `s` along the polyline's segment that ends at `pts[i]`. */
  function Along(pts: seq<Point>, i: int, s: real): Point
    requires 0 < i < |pts|
  {
    Lerp(pts[i - 1], pts[i], s)
  }

  /** Some point of the polyline through `pts` lies within the radius of `c`: one of
      the points, or a point of a segment joining two consecutive ones. */
  ghost predicate PolylineWithin(pts: seq<Point>, c: Point, radius: real) {
    || (exists i :: 0 <= i < |pts| && DistSq(pts[i], c) <= radius * radius)
    || (exists i, s :: 0 < i < |pts| && 0.0 <= s <= 1.0 && DistSq(Along(pts, i, s), c) <= radius * radius)
  }

  /** A path meets the circle exactly when some point of the polyline through the
      points `GetPoints` finds lies within the radius. */
  lemma IntersectsCircleMeaning(nf: Numerics, d: string, c: Point, radius: real)
    ensures IntersectsCircle(nf, d, c, radius) <==> PolylineWithin(GetPoints(nf, d), c, radius)
  {
    HitsPolylineMeaning(GetPoints(nf, d), c, radius);
  }

  /** The loop over the points returns true exactly when some point of their polyline
      lies within the radius. */
  lemma HitsPolylineMeaning(pts: seq<Point>, c: Point, radius: real)
    ensures HitsPolyline(pts, c, radius) <==> PolylineWithin(pts, c, radius)
  {
    if HitsPolyline(pts, c, radius) {
      var i :| 0 <= i < |pts| && HitAt(pts, i, c, radius);
      HitIsWithin(pts, i, c, radius);
    }
    if PolylineWithin(pts, c, radius) {
      var i := WithinIsHit(pts, c, radius);
    }
  }

  /** A hit at the `i`-th point or on the segment ending there is a polyline point
      within the radius. */
  lemma HitIsWithin(pts: seq<Point>, i: int, c: Point, radius: real)
    requires 0 <= i < |pts| && HitAt(pts, i, c, radius)
    ensures PolylineWithin(pts, c, radius)
  {
    if !(DistSq(pts[i], c) <= radius * radius) {
      assert pts[i - 1] != pts[i];
      SegmentIntersectsCircleMeaning(pts[i - 1], pts[i], c, radius);
      var s :| 0.0 <= s <= 1.0 && DistSq(Lerp(pts[i - 1], pts[i], s), c) <= radius * radius;
      assert DistSq(Along(pts, i, s), c) <= radius * radius;
    }
  }

  /** A polyline point within the radius gives the loop a point where it returns. */
  lemma WithinIsHit(pts: seq<Point>, c: Point, radius: real) returns (i: int)
    requires PolylineWithin(pts, c, radius)
    ensures 0 <= i < |pts| && HitAt(pts, i, c, radius)
  {
    if exists k :: 0 <= k < |pts| && DistSq(pts[k], c) <= radius * radius {
      i :| 0 <= i < |pts| && DistSq(pts[i], c) <= radius * radius;
    } else {
      var s;
      i, s :| 0 < i < |pts| && 0.0 <= s <= 1.0 && DistSq(Along(pts, i, s), c) <= radius * radius;
      SegmentPointHit(pts, i, s, c, radius);
    }
  }

  /** A point of the segment ending at the `i`-th point that lies within the radius makes
      the loop return there: on a segment of length zero that point is the vertex itself. */
  lemma SegmentPointHit(pts: seq<Point>, i: int, s: real, c: Point, radius: real)
    requires 0 < i < |pts| && 0.0 <= s <= 1.0 && DistSq(Along(pts, i, s), c) <= radius * radius
    ensures HitAt(pts, i, c, radius)
  {
    if pts[i - 1] == pts[i] {
      LerpOfPoint(pts[i], s);
    } else {
      PointWithinRadius(pts[i - 1], pts[i], c, radius, s);
      assert Len2(Sub(pts[i], pts[i - 1])) > 0.0;
    }
  }

  /** Every point of a segment from a point to itself is that point. */
  lemma LerpOfPoint(a: Point, s: real)
    ensures Lerp(a, a, s) == a
  {
  }

  /** `IsPointInCircle(x, y, c)`: the circle is closed. */
  predicate IsPointInCircle(q: Point, center: Point, r: real) {
    DistSq(q, center) <= r * r
  }

  /** `CircleIntersectsCircle(c, cx, cy, radius)`. */
  predicate CircleIntersectsCircle(nf: Numerics, center: Point, r: real, c: Point, radius: real) {
    nf.sqrt(DistSq(center, c)) <= r + radius
  }

  /** Two circles meet exactly when the squared distance of their centres is at most the
      square of the radius sum. */
  lemma CircleIntersectsCircleMeaning(nf: Numerics, center: Point, r: real, c: Point, radius: real)
    requires SqrtIsRoot(nf) && r + radius >= 0.0
    ensures CircleIntersectsCircle(nf, center, r, c, radius)
        <==> DistSq(center, c) <= (r + radius) * (r + radius)
  {
    SqrtBelow(nf, DistSq(center, c), r + radius);
  }

  /** A point is in a circle exactly when the circle meets the zero-radius circle there. */
  lemma PointInCircleIsZeroRadiusHit(nf: Numerics, q: Point, center: Point, r: real)
    requires SqrtIsRoot(nf) && r >= 0.0
    ensures IsPointInCircle(q, center, r) <==> CircleIntersectsCircle(nf, center, r, q, 0.0)
  {
    CircleIntersectsCircleMeaning(nf, center, r, q, 0.0);
    DistSqSymmetric(q, center);
  }

  predicate InBounds(p: Point, minX: real, minY: real, maxX: real, maxY: real) {
    minX <= p.x <= maxX && minY <= p.y <= maxY
  }

  /** `CircleIntersectsRect(c, minX, minY, maxX, maxY)`. */
  predicate CircleIntersectsRect(center: Point, r: real, minX: real, minY: real, maxX: real, maxY: real) {
    || InBounds(center, minX, minY, maxX, maxY)
    || DistSq(Point(minX, minY), center) <= r * r
    || DistSq(Point(maxX, minY), center) <= r * r
    || DistSq(Point(minX, maxY), center) <= r * r
    || DistSq(Point(maxX, maxY), center) <= r * r
    || (center.x + r >= minX && center.x - r <= maxX && center.y + r >= minY && center.y - r <= maxY)
  }

  lemma CoordinateWithin(p: Point, center: Point, r: real)
    requires r >= 0.0 && DistSq(p, center) <= r * r
    ensures center.x - r <= p.x <= center.x + r && center.y - r <= p.y <= center.y + r
  {
    ComponentAtMost(p.x - center.x, r);
    ComponentAtMost(p.y - center.y, r);
  }

  /** For a non-negative radius the test is exactly "the circle's bounding square
      overlaps the rectangle": the centre and corner tests never decide anything the
      overlap test would not. */
  lemma CircleIntersectsRectIsSquareOverlap(center: Point, r: real, minX: real, minY: real, maxX: real, maxY: real)
    requires r >= 0.0 && minX <= maxX && minY <= maxY
    ensures CircleIntersectsRect(center, r, minX, minY, maxX, maxY)
        <==> (center.x + r >= minX && center.x - r <= maxX && center.y + r >= minY && center.y - r <= maxY)
  {
    if DistSq(Point(minX, minY), center) <= r * r { CoordinateWithin(Point(minX, minY), center, r); }
    if DistSq(Point(maxX, minY), center) <= r * r { CoordinateWithin(Point(maxX, minY), center, r); }
    if DistSq(Point(minX, maxY), center) <= r * r { CoordinateWithin(Point(minX, maxY), center, r); }
    if DistSq(Point(maxX, maxY), center) <= r * r { CoordinateWithin(Point(maxX, maxY), center, r); }
  }

  /** No circle that really touches the rectangle is missed. */
  lemma CircleIntersectsRectMissesNothing(center: Point, r: real, p: Point, minX: real, minY: real, maxX: real, maxY: real)
    requires r >= 0.0 && InBounds(p, minX, minY, maxX, maxY) && DistSq(p, center) <= r * r
    ensures CircleIntersectsRect(center, r, minX, minY, maxX, maxY)
  {
    CoordinateWithin(p, center, r);
  }

  /** Drops everything up to the next ASCII digit, '-' or '.'. */
  function SkipToNumber(s: string): (t: string)
    ensures |t| <= |s|
    ensures |t| > 0 ==> NumberStart(t[0])
  {
    if |s| == 0 || NumberStart(s[0]) then s else SkipToNumber(s[1..])
  }

  /** The coordinate pairs `IntersectsRect` reads: two consecutive number runs, wherever
      they stand in the string; a run that does not parse as x is dropped, a pair whose
      y does not parse is dropped whole. */
  function ScanPairs(nf: Numerics, s: string): seq<Point>
    decreases |s|
  {
    var t := SkipToNumber(s);
    if |t| == 0 then []
    else
      var n := RunLength(t, false);
      var rest := t[n..];
      match nf.parse(t[..n])
      case None => ScanPairs(nf, rest)
      case Some(px) =>
        var u := SkipToNumber(rest);
        if |u| == 0 then []
        else
          var m := RunLength(u, false);
          match nf.parse(u[..m])
          case None => ScanPairs(nf, u[m..])
          case Some(py) => [Point(px, py)] + ScanPairs(nf, u[m..])
  }

  /** The cached bounds lie entirely outside the rectangle. */
  predicate BoundsMiss(b: Rect, minX: real, minY: real, maxX: real, maxY: real) {
    b.x > maxX || b.x + b.width < minX || b.y > maxY || b.y + b.height < minY
  }

  /** `IntersectsRect(path, minX, minY, maxX, maxY)`. */
  function IntersectsRect(nf: Numerics, d: string, bounds: Option<Rect>,
                          minX: real, minY: real, maxX: real, maxY: real): (hit: bool)
    ensures hit ==> bounds.None? || !BoundsMiss(bounds.value, minX, minY, maxX, maxY)
    ensures hit <==> (bounds.None? || !BoundsMiss(bounds.value, minX, minY, maxX, maxY)) &&
                     exists i :: 0 <= i < |ScanPairs(nf, d)| && InBounds(ScanPairs(nf, d)[i], minX, minY, maxX, maxY)
  {
    if bounds.Some? && BoundsMiss(bounds.value, minX, minY, maxX, maxY) then false
    else AnyInBounds(ScanPairs(nf, d), minX, minY, maxX, maxY)
  }

  function AnyInBounds(ps: seq<Point>, minX: real, minY: real, maxX: real, maxY: real): (b: bool)
    ensures b <==> exists i :: 0 <= i < |ps| && InBounds(ps[i], minX, minY, maxX, maxY)
  {
    if |ps| == 0 then false
    else if InBounds(ps[0], minX, minY, maxX, maxY) then true
    else
      var b := AnyInBounds(ps[1..], minX, minY, maxX, maxY);
      assert b ==> exists i :: 0 <= i < |ps| && InBounds(ps[i], minX, minY, maxX, maxY) by {
        if b {
          var j :| 0 <= j < |ps[1..]| && InBounds(ps[1..][j], minX, minY, maxX, maxY);
          assert ps[j + 1] == ps[1..][j];
        }
      }
      assert (exists i :: 0 <= i < |ps| && InBounds(ps[i], minX, minY, maxX, maxY)) ==> b by {
        if exists i :: 0 <= i < |ps| && InBounds(ps[i], minX, minY, maxX, maxY) {
          var j :| 0 <= j < |ps| && InBounds(ps[j], minX, minY, maxX, maxY);
          assert j > 0 && ps[1..][j - 1] == ps[j];
        }
      }
      b
  }
}
