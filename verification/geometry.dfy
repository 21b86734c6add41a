/** Plane geometry on exact reals: squared distances (no square root is ever taken),
    the distance from a point to a segment and to a closed ring, a strict ray-casting
    containment test standing in for `Polygon.contains`, and the linear nearest-point
    query standing in for `idxmin` over distances and for a k-d tree query. */
module Geometry {
  import opened Wrappers

  datatype Point = Point(x: real, y: real)

  /** The squared length of the vector (u, v). */
  function Norm2(u: real, v: real): (r: real)
    ensures r >= 0.0
  {
    u * u + v * v
  }

  /** sqrt as a parameter: non-negative, zero exactly at zero, and squaring gives back
      its argument. */
  ghost predicate IsSqrt(sqrt: real -> real) {
    forall x :: 0.0 <= x ==> 0.0 <= sqrt(x) && sqrt(x) * sqrt(x) == x && (sqrt(x) == 0.0 <==> x == 0.0)
  }

  /** A vector has squared length 0 exactly when it is the zero vector. */
  lemma Norm2Zero(u: real, v: real)
    ensures Norm2(u, v) == 0.0 <==> u == 0.0 && v == 0.0
  {
    var a, b := u * u, v * v;
    assert Norm2(u, v) == a + b;
    SquareSign(u, a);
    SquareSign(v, b);
  }

  /** The square of a real is non-negative, and positive unless the real is 0. */
  lemma SquareSign(u: real, a: real)
    requires a == u * u
    ensures a >= 0.0 && (a == 0.0 <==> u == 0.0)
  {
    if u > 0.0 {
      PositiveSquare(u, a);
    } else if u < 0.0 {
      var w := -u;
      assert w * w == u * u;
      PositiveSquare(w, a);
    }
  }

  lemma PositiveSquare(w: real, a: real)
    requires w > 0.0 && a == w * w
    ensures a > 0.0
  {
    calc {
      a;
    ==
      w * w;
    >
      0.0;
    }
  }

  /** The dot product of the vectors (u1, v1) and (u2, v2). */
  function Dot2(u1: real, v1: real, u2: real, v2: real): real {
    u1 * u2 + v1 * v2
  }

  /** The squared Euclidean distance between two points. */
  function DistSq(p: Point, q: Point): (d: real)
    ensures d >= 0.0
  {
    Norm2(p.x - q.x, p.y - q.y)
  }

  function Clamp(v: real, lo: real, hi: real): (r: real)
    requires lo <= hi
    ensures lo <= r <= hi
    ensures lo <= v <= hi ==> r == v
    ensures v < lo ==> r == lo
    ensures hi < v ==> r == hi
  {
    if v < lo then lo else if hi < v then hi else v
  }

  // ---------------------------------------------------------------------------
  // Distance to a segment and to a ring

  /** Linear interpolation from u0 (at t = 0) to u1 (at t = 1). */
  function Lerp(u0: real, u1: real, t: real): real {
    u0 + t * (u1 - u0)
  }

  /** The point at parameter t on the segment from a to b. */
  function Along(a: Point, b: Point, t: real): Point {
    Point(Lerp(a.x, b.x, t), Lerp(a.y, b.y, t))
  }

  /** The dot product of p - a with b - a. */
  function Dot(p: Point, a: Point, b: Point): real {
    Dot2(p.x - a.x, p.y - a.y, b.x - a.x, b.y - a.y)
  }

  /** The quadratic c0 - 2 c1 s + c2 s^2. */
  function Quadratic(c0: real, c1: real, c2: real, s: real): real {
    c0 - 2.0 * s * c1 + s * s * c2
  }

  /** The parameter of the point of segment ab closest to p: the projection of p onto
      the line through a and b, clamped to [0, 1]; 0 for a segment of length zero. */
  function ClosestParam(p: Point, a: Point, b: Point): (t: real)
    ensures 0.0 <= t <= 1.0
  {
    if DistSq(b, a) == 0.0 then 0.0
    else Clamp(Dot(p, a, b) / DistSq(b, a), 0.0, 1.0)
  }

  /** Squared distance from p to the closed segment ab. */
  function SegDistSq(p: Point, a: Point, b: Point): (d: real)
    ensures d >= 0.0
  {
    DistSq(p, Along(a, b, ClosestParam(p, a, b)))
  }

  /** Both endpoints lie on their segment. */
  lemma EndpointsOnSegment(a: Point, b: Point)
    ensures SegDistSq(a, a, b) == 0.0
    ensures SegDistSq(b, a, b) == 0.0
  {
    assert Along(a, b, 0.0) == a;
    if DistSq(b, a) != 0.0 {
      assert Dot(b, a, b) == DistSq(b, a);
      assert Along(a, b, 1.0) == b;
    }
  }

  /** A segment whose ends coincide is a point. */
  lemma DegenerateSegment(p: Point, a: Point)
    ensures SegDistSq(p, a, a) == DistSq(p, a)
  {
    assert Along(a, a, ClosestParam(p, a, a)) == a;
  }

  lemma SquareOfDifference(u: real, d: real, s: real)
    ensures (u - s * d) * (u - s * d) == u * u - 2.0 * s * (u * d) + s * s * (d * d)
  {
  }

  lemma AlongCoordinates(px: real, py: real, x0: real, y0: real, x1: real, y1: real, s: real)
    ensures Norm2(px - Lerp(x0, x1, s), py - Lerp(y0, y1, s)) ==
      Quadratic(Norm2(px - x0, py - y0), Dot2(px - x0, py - y0, x1 - x0, y1 - y0),
                Norm2(x1 - x0, y1 - y0), s)
  {
    var ux, uy, dx, dy := px - x0, py - y0, x1 - x0, y1 - y0;
    SquareOfDifference(ux, dx, s);
    SquareOfDifference(uy, dy, s);
    assert px - Lerp(x0, x1, s) == ux - s * dx;
    assert py - Lerp(y0, y1, s) == uy - s * dy;
    assert s * s * Norm2(dx, dy) == s * s * (dx * dx) + s * s * (dy * dy);
    assert 2.0 * s * Dot2(ux, uy, dx, dy) == 2.0 * s * (ux * dx) + 2.0 * s * (uy * dy);
  }

  /** The squared distance from p to the point at parameter s of segment ab is a
      quadratic in s. */
  lemma AlongDistSq(p: Point, a: Point, b: Point, s: real)
    ensures DistSq(p, Along(a, b, s)) == Quadratic(DistSq(p, a), Dot(p, a, b), DistSq(b, a), s)
  {
    AlongCoordinates(p.x, p.y, a.x, a.y, b.x, b.y, s);
  }

  /** On [0, 1] a quadratic with positive leading coefficient is smallest at its
      vertex clamped to [0, 1]. */
  lemma ClampedVertexIsMinimal(d0: real, dot: real, len2: real, t: real, c: real)
    requires len2 > 0.0
    requires 0.0 <= t <= 1.0
    requires c == Clamp(dot / len2, 0.0, 1.0)
    ensures Quadratic(d0, dot, len2, c) <= Quadratic(d0, dot, len2, t)
  {
    var proj := dot / len2;
    assert dot == proj * len2;
    var diff := (t * t * len2 - 2.0 * t * dot) - (c * c * len2 - 2.0 * c * dot);
    var k := (t - c) * (t + c - 2.0 * proj);
    assert diff == len2 * k;
    if proj < 0.0 {
      assert c == 0.0;
      assert k == t * (t - 2.0 * proj);
      assert k >= 0.0;
    } else if proj > 1.0 {
      assert c == 1.0;
      assert k == (1.0 - t) * (2.0 * proj - t - 1.0);
      assert k >= 0.0;
    } else {
      assert c == proj;
      assert k == (t - c) * (t - c);
    }
    assert len2 * k >= 0.0;
  }

  /** The clamped projection really is the nearest point of a segment of positive
      length: no point of the segment is closer to p. */
  lemma SegDistSqIsMinimal(p: Point, a: Point, b: Point, t: real)
    requires DistSq(b, a) > 0.0
    requires 0.0 <= t <= 1.0
    ensures SegDistSq(p, a, b) <= DistSq(p, Along(a, b, t))
  {
    var c := ClosestParam(p, a, b);
    AlongDistSq(p, a, b, t);
    AlongDistSq(p, a, b, c);
    ClampedVertexIsMinimal(DistSq(p, a), Dot(p, a, b), DistSq(b, a), t, c);
  }

  /** Edge i of a closed ring joins vertex i to vertex i + 1, and the last vertex back
      to the first. */
  function EdgeDistSq(ring: seq<Point>, p: Point, i: nat): real
    requires i < |ring|
  {
    SegDistSq(p, ring[i], ring[(i + 1) % |ring|])
  }

  /** The smallest distance from p to edges 0 .. n - 1 of the ring. */
  function MinEdgeDistSq(ring: seq<Point>, p: Point, n: nat): (d: real)
    requires 0 < n <= |ring|
    ensures forall i :: 0 <= i < n ==> d <= EdgeDistSq(ring, p, i)
    ensures exists i :: 0 <= i < n && d == EdgeDistSq(ring, p, i)
  {
    if n == 1 then EdgeDistSq(ring, p, 0)
    else
      var d' := MinEdgeDistSq(ring, p, n - 1);
      var e := EdgeDistSq(ring, p, n - 1);
      if e < d' then e else d'
  }

  /** Squared distance from p to the exterior ring of the polygon (`exterior.distance`). */
  function RingDistSq(ring: seq<Point>, p: Point): real
    requires |ring| > 0
  {
    MinEdgeDistSq(ring, p, |ring|)
  }

  /** p lies on some edge of the ring. */
  predicate OnBoundary(ring: seq<Point>, p: Point) {
    exists i :: 0 <= i < |ring| && EdgeDistSq(ring, p, i) == 0.0
  }

  /** The ring distance is zero exactly for points on the boundary. */
  lemma RingDistSqZero(ring: seq<Point>, p: Point)
    requires |ring| > 0
    ensures RingDistSq(ring, p) == 0.0 <==> OnBoundary(ring, p)
  {
    if OnBoundary(ring, p) {
      var i :| 0 <= i < |ring| && EdgeDistSq(ring, p, i) == 0.0;
      assert RingDistSq(ring, p) <= EdgeDistSq(ring, p, i);
    }
  }

  /** Every vertex of a ring lies on its boundary. */
  lemma VertexOnBoundary(ring: seq<Point>, i: nat)
    requires i < |ring|
    ensures OnBoundary(ring, ring[i])
  {
    EndpointsOnSegment(ring[i], ring[(i + 1) % |ring|]);
    assert EdgeDistSq(ring, ring[i], i) == 0.0;
  }

  // ---------------------------------------------------------------------------
  // Containment by ray casting

  /** Edge ab crosses the horizontal ray going right from p (half-open rule on y). */
  predicate Crosses(p: Point, a: Point, b: Point) {
    (a.y > p.y) != (b.y > p.y) &&
    p.x < a.x + (p.y - a.y) * (b.x - a.x) / (b.y - a.y)
  }

  /** The number of edges among 0 .. n - 1 that cross the ray from p. */
  function Crossings(ring: seq<Point>, p: Point, n: nat): nat
    requires n <= |ring|
  {
    if n == 0 then 0
    else Crossings(ring, p, n - 1) +
         (if Crosses(p, ring[n - 1], ring[n % |ring|]) then 1 else 0)
  }

  /** Strict interior containment (`Polygon.contains`): a point on an edge or at a vertex
      is not contained; otherwise the even-odd rule decides. */
  predicate Contains(ring: seq<Point>, p: Point) {
    |ring| >= 3 && !OnBoundary(ring, p) && Crossings(ring, p, |ring|) % 2 == 1
  }

  /** No vertex of a ring is contained in it. */
  lemma VertexNotContained(ring: seq<Point>, i: nat)
    requires i < |ring|
    ensures !Contains(ring, ring[i])
  {
    VertexOnBoundary(ring, i);
  }

  // ---------------------------------------------------------------------------
  // Nearest point

  /** The position of the point of `pts` nearest to p, the first one on a tie
      (`idxmin` over the distances); None for an empty set of points. */
  function FindNearest(pts: seq<Point>, p: Point): (r: Option<nat>)
    ensures r.None? <==> |pts| == 0
    ensures r.Some? ==> r.value < |pts|
    ensures r.Some? ==> forall j :: 0 <= j < |pts| ==> DistSq(pts[r.value], p) <= DistSq(pts[j], p)
    ensures r.Some? ==> forall j :: 0 <= j < r.value ==> DistSq(pts[r.value], p) < DistSq(pts[j], p)
  {
    if |pts| == 0 then None
    else match FindNearest(pts[..|pts| - 1], p)
      case None => Some(0)
      case Some(k) =>
        if DistSq(pts[|pts| - 1], p) < DistSq(pts[k], p) then Some(|pts| - 1) else Some(k)
  }

  /** Squared distance from p to the nearest point of `pts` (a k-d tree query); None
      (an infinite distance) when there are no points. */
  function NearestDistSq(pts: seq<Point>, p: Point): (d: Option<real>)
    ensures d.None? <==> |pts| == 0
    ensures d.Some? ==> forall j :: 0 <= j < |pts| ==> d.value <= DistSq(pts[j], p)
    ensures d.Some? ==> exists j :: 0 <= j < |pts| && d.value == DistSq(pts[j], p)
  {
    match FindNearest(pts, p)
    case None => None
    case Some(k) => Some(DistSq(pts[k], p))
  }
}
