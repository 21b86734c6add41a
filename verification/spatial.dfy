/** The spatial stages: the corridor slice, track-limit enforcement, and the cut line
    across the track. Positions are compared through squared distances; the square root
    the cut line needs is a parameter. */
module Spatial {
  import opened Wrappers
  import opened Seqs
  import opened Geometry
  import opened Rows
  import opened Cleaning

  // ---------------------------------------------------------------------------
  // Corridor slice

  /** The six corners of the corridor polygon that `track_slice` keeps. */
  const SliceRing: seq<Point> := [
    Point(152.5310179012927, 413.5544859306186),
    Point(161.76398481864388, 423.11538718965284),
    Point(572.0, 423.0),
    Point(572.051098447852, -131.86683911251717),
    Point(564.8183173166642, -138.23284559314058),
    Point(152.0, -138.0)]

  /** The bounding rectangle, bounds included. */
  predicate InRectangle(p: Point) {
    0.0 <= p.x <= 600.0 && -200.0 <= p.y <= 600.0
  }

  /** The rectangle pre-filter. A row with a missing coordinate fails it, since every
      comparison with NaN is false. */
  function InBox(x: Sample): bool {
    Position(x.row).Some? && InRectangle(Position(x.row).value)
  }

  /** The polygon mask, evaluated on rows that passed the rectangle. */
  function InCorridor(x: Sample): bool {
    Position(x.row).Some? && Contains(SliceRing, Position(x.row).value)
  }

  /** Both masks. */
  function InSlice(x: Sample): bool {
    InBox(x) && InCorridor(x)
  }

  /** `track_slice`: the rows inside the inclusive rectangle and strictly inside the
      corridor polygon, every copy kept, in order. */
  function TrackSlice(s: seq<Sample>): (r: seq<Sample>)
    ensures forall i :: 0 <= i < |r| ==>
      (Position(r[i].row).Some? &&
       InRectangle(Position(r[i].row).value) && Contains(SliceRing, Position(r[i].row).value))
    ensures forall x :: multiset(r)[x] == if InBox(x) && InCorridor(x) then multiset(s)[x] else 0
    ensures r == Filter(s, InSlice)
  {
    var boxed := Filter(s, InBox);
    FilterMultisetAll(s, InBox);
    FilterMultisetAll(boxed, InCorridor);
    FilterFilter(s, InBox, InCorridor, InSlice);
    Filter(boxed, InCorridor)
  }

  /** A row lying on an edge of the corridor polygon (a corner included) is dropped:
      containment is strict. */
  lemma BoundaryRowDropped(s: seq<Sample>, x: Sample)
    requires Position(x.row).Some? && OnBoundary(SliceRing, Position(x.row).value)
    ensures x !in TrackSlice(s)
  {
    assert multiset(TrackSlice(s))[x] == 0;
  }

  /** In particular a row exactly at the corner (572, 423) is dropped even though it
      lies inside the rectangle. */
  lemma CornerRowDropped(s: seq<Sample>, x: Sample)
    requires Position(x.row) == Some(Point(572.0, 423.0))
    ensures InRectangle(Position(x.row).value)
    ensures x !in TrackSlice(s)
  {
    VertexOnBoundary(SliceRing, 2);
    BoundaryRowDropped(s, x);
  }

  // ---------------------------------------------------------------------------
  // Track limits

  /** 5 metres, squared. */
  const TrackLimitSq: real := 25.0

  datatype LimitsError = TooFewBoundaryPoints

  /** shapely builds a polygon from no points (the empty polygon) or from three or
      more; one or two points cannot be closed into a ring and raise. */
  predicate BuildsPolygon(ring: seq<Point>) {
    |ring| == 0 || |ring| >= 3
  }

  /** The `dist_to_track` value of a row: 0 strictly inside the polygon, otherwise the
      squared distance to its exterior ring; None (NaN) when the position is missing or
      the polygon is empty (its exterior is empty, and the distance to it is NaN). */
  function DistToTrack(ring: seq<Point>, p: Option<Point>): (d: Option<real>)
    requires BuildsPolygon(ring)
    ensures d.None? <==> p.None? || |ring| == 0
    ensures d.Some? ==> d.value >= 0.0
    ensures d.Some? && Contains(ring, p.value) ==> d.value == 0.0
    ensures d.Some? && !Contains(ring, p.value) ==> d.value == RingDistSq(ring, p.value)
  {
    match p
    case None => None
    case Some(q) =>
      if Contains(ring, q) then Some(0.0)
      else if |ring| == 0 then None
      else Some(RingDistSq(ring, q))
  }

  /** A row more than 5 metres from the track (strictly); NaN compares false. */
  predicate OffTrack(d: Option<real>) {
    d.Some? && d.value > TrackLimitSq
  }

  /** Lap k has a row off the track. */
  predicate LapOffTrack(s: seq<Sample>, ring: seq<Point>, k: nat)
    requires BuildsPolygon(ring)
  {
    exists i :: 0 <= i < |s| && s[i].lap == k && OffTrack(DistToTrack(ring, Position(s[i].row)))
  }

  /** The rows of every lap none of whose rows is more than 5 metres off the track:
      a lap is kept or dropped whole, its rows unchanged and in order. */
  function WithinTrackLimits(s: seq<Sample>, ring: seq<Point>): (r: seq<Sample>)
    requires BuildsPolygon(ring)
    ensures forall k :: LapRows(r, k) == if LapOffTrack(s, ring, k) then [] else LapRows(s, k)
    ensures forall x :: multiset(r)[x] == if LapOffTrack(s, ring, x.lap) then 0 else multiset(s)[x]
  {
    KeepLaps(s, (k: nat) => !LapOffTrack(s, ring, k))
  }

  /** The empty polygon gives no row a distance, so no lap is off the track and every
      row is kept, in order. */
  lemma EmptyPolygonKeepsAll(s: seq<Sample>)
    ensures forall k :: !LapOffTrack(s, [], k)
    ensures WithinTrackLimits(s, []) == s
  {
    var keep := (k: nat) => !LapOffTrack(s, [], k);
    forall x | x in s ensures KeepLap(keep)(x) {
      forall i | 0 <= i < |s| ensures !OffTrack(DistToTrack([], Position(s[i].row))) {
      }
    }
    FilterAll(s, KeepLap(keep));
  }

  /** `enforce_track_limits`: the polygon is the left boundary followed by the right one
      (shapely refuses one or two points, and builds the empty polygon from none). The
      method computes the `inside_track` and `dist_to_track` columns it writes into the
      frame it was given, collects the laps
      with a row more than 5 metres out, and returns the rows of every other lap,
      unchanged and in order. */
  method EnforceTrackLimits(s: seq<Sample>, left: seq<Point>, right: seq<Point>)
    returns (r: Result<seq<Sample>, LimitsError>, inside: seq<bool>, dist: seq<Option<real>>)
    ensures r.Err? <==> !BuildsPolygon(left + right)
    ensures r.Ok? ==> |inside| == |s| && |dist| == |s|
    ensures r.Ok? ==> forall i :: 0 <= i < |s| ==>
      inside[i] == (Position(s[i].row).Some? && Contains(left + right, Position(s[i].row).value)) &&
      dist[i] == DistToTrack(left + right, Position(s[i].row))
    ensures r.Ok? ==> r.value == WithinTrackLimits(s, left + right)
    ensures |left| + |right| == 0 ==> r == Ok(s)
  {
    var ring := left + right;
    if !BuildsPolygon(ring) {
      return Err(TooFewBoundaryPoints), [], [];
    }
    if |ring| == 0 {
      EmptyPolygonKeepsAll(s);
    }
    inside, dist := TrackColumns(s, ring);
    var offLaps := OffTrackLaps(s, dist);
    var keep := (k: nat) => k !in offLaps;
    assert forall k :: keep(k) <==> !LapOffTrack(s, ring, k);
    FilterExt(s, KeepLap(keep), KeepLap((k: nat) => !LapOffTrack(s, ring, k)));
    r := Ok(KeepLaps(s, keep));
  }

  /** The `inside_track` and `dist_to_track` columns, one row at a time. */
  method TrackColumns(s: seq<Sample>, ring: seq<Point>) returns (inside: seq<bool>, dist: seq<Option<real>>)
    requires BuildsPolygon(ring)
    ensures |inside| == |s| && |dist| == |s|
    ensures forall i :: 0 <= i < |s| ==>
      inside[i] == (Position(s[i].row).Some? && Contains(ring, Position(s[i].row).value)) &&
      dist[i] == DistToTrack(ring, Position(s[i].row))
  {
    inside, dist := [], [];
    for i := 0 to |s|
      invariant |inside| == i && |dist| == i
      invariant forall j :: 0 <= j < i ==>
        inside[j] == (Position(s[j].row).Some? && Contains(ring, Position(s[j].row).value)) &&
        dist[j] == DistToTrack(ring, Position(s[j].row))
    {
      var p := Position(s[i].row);
      var isIn := p.Some? && Contains(ring, p.value);
      inside := inside + [isIn];
      dist := dist + [if isIn then Some(0.0) else DistToTrack(ring, p)];
    }
  }

  /** The laps with a row whose distance is over the limit. */
  method OffTrackLaps(s: seq<Sample>, dist: seq<Option<real>>) returns (offLaps: set<nat>)
    requires |dist| == |s|
    ensures forall k :: k in offLaps <==> exists j :: 0 <= j < |s| && s[j].lap == k && OffTrack(dist[j])
  {
    offLaps := {};
    for i := 0 to |s|
      invariant forall k :: k in offLaps <==> exists j :: 0 <= j < i && s[j].lap == k && OffTrack(dist[j])
    {
      if OffTrack(dist[i]) {
        offLaps := offLaps + {s[i].lap};
      }
    }
  }

  // ---------------------------------------------------------------------------
  // Cut line

  /** Half the usual track width, in metres. */
  const RightLen: real := 20.0

  datatype CutLineError =
    | EmptyRight   // idxmin over no right-boundary points
    | NoNextPoint  // the nearest right point is the last one: no row right_idx + 1
    | ZeroNormal   // the boundary direction has norm 0; the projected point is NaN
    | EmptyLeft    // idxmin over no left-boundary points

  /** The cut line and its two ends. */
  datatype CutLine = CutLine(start: Point, end: Point)

  /** The point `len` units from p along (u, v) divided by `norm`. */
  function Project(p: Point, u: real, v: real, norm: real, len: real): Point
    requires norm != 0.0
  {
    Point(p.x + (u / norm) * len, p.y + (v / norm) * len)
  }

  /** `define_cut_line` on boundaries already in FRAME order: take the right-boundary point
      nearest to (x, y) and the next one, turn their direction (dx, dy) into the normal
      (-dy, dx), go 20 units from (x, y) along the unit normal, and end the line at the
      left-boundary point nearest to that spot. The line starts at (x, y) itself. */
  function DefineCutLine(right: seq<Point>, left: seq<Point>, x: real, y: real,
                         sqrt: real -> real): (r: Result<CutLine, CutLineError>)
    ensures |right| == 0 <==> r == Err(EmptyRight)
    ensures r.Ok? ==> r.value.start == Point(x, y)
    ensures r.Ok? ==> r.value.end in left
    ensures r.Err? && r.error == EmptyLeft ==> |left| == 0
  {
    match FindNearest(right, Point(x, y))
    case None => Err(EmptyRight)
    case Some(ri) => CutLineFrom(right, left, x, y, sqrt, ri)
  }

  /** The normal (-dy, dx) to the boundary direction (dx, dy) from right-boundary point ri
      to the next one. */
  function Normal(right: seq<Point>, ri: nat): Point
    requires ri + 1 < |right|
  {
    Point(-(right[ri + 1].y - right[ri].y), right[ri + 1].x - right[ri].x)
  }

  /** The cut line once the nearest right-boundary point, number ri, is known. */
  function CutLineFrom(right: seq<Point>, left: seq<Point>, x: real, y: real,
                       sqrt: real -> real, ri: nat): (r: Result<CutLine, CutLineError>)
    requires ri < |right|
    ensures r != Err(EmptyRight)
    ensures r.Ok? ==> r.value.start == Point(x, y) && r.value.end in left
    ensures r.Err? && r.error == EmptyLeft ==> |left| == 0
  {
    if ri + 1 >= |right| then Err(NoNextPoint)
    else
      var n := Normal(right, ri);
      var norm := sqrt(Norm2(n.x, n.y));
      if norm == 0.0 then Err(ZeroNormal)
      else
        match FindNearest(left, Project(Point(x, y), n.x, n.y, norm, RightLen))
        case None => Err(EmptyLeft)
        case Some(li) => Ok(CutLine(Point(x, y), left[li]))
  }

  /** Point i of pts is nearest to p, and strictly nearer than every earlier point
      (`idxmin` keeps the first of equal distances). */
  predicate FirstNearest(pts: seq<Point>, p: Point, i: nat) {
    i < |pts| &&
    (forall j :: 0 <= j < |pts| ==> DistSq(pts[i], p) <= DistSq(pts[j], p)) &&
    (forall j :: 0 <= j < i ==> DistSq(pts[i], p) < DistSq(pts[j], p))
  }

  /** The spot 20 units from (x, y) along the unit normal at right-boundary point ri. */
  function SearchSpot(right: seq<Point>, x: real, y: real, sqrt: real -> real, ri: nat): Point
    requires ri + 1 < |right| && sqrt(Norm2(Normal(right, ri).x, Normal(right, ri).y)) != 0.0
  {
    var n := Normal(right, ri);
    Project(Point(x, y), n.x, n.y, sqrt(Norm2(n.x, n.y)), RightLen)
  }

  /** A cut line that is found ends at the left-boundary point nearest to the search
      spot, the first of equally near ones. */
  lemma CutLineEnd(right: seq<Point>, left: seq<Point>, x: real, y: real, sqrt: real -> real, ri: nat)
    requires ri < |right|
    requires CutLineFrom(right, left, x, y, sqrt, ri).Ok?
    ensures ri + 1 < |right| && sqrt(Norm2(Normal(right, ri).x, Normal(right, ri).y)) != 0.0
    ensures exists li: nat ::
      (FirstNearest(left, SearchSpot(right, x, y, sqrt, ri), li) &&
       CutLineFrom(right, left, x, y, sqrt, ri).value.end == left[li])
  {
    var spot := SearchSpot(right, x, y, sqrt, ri);
    var li := FindNearest(left, spot).value;
    assert FirstNearest(left, spot, li);
  }

  /** `define_cut_line` as a whole: a line that is found starts at (x, y) and ends at the
      left-boundary point nearest to the spot 20 units along the normal at the
      right-boundary point nearest to (x, y), the first of equally near ones in both
      searches. */
  lemma DefineCutLineEnd(right: seq<Point>, left: seq<Point>, x: real, y: real, sqrt: real -> real)
    requires DefineCutLine(right, left, x, y, sqrt).Ok?
    ensures FindNearest(right, Point(x, y)).Some?
    ensures var ri := FindNearest(right, Point(x, y)).value;
      FirstNearest(right, Point(x, y), ri) && ri + 1 < |right| &&
      sqrt(Norm2(Normal(right, ri).x, Normal(right, ri).y)) != 0.0 &&
      exists li: nat ::
        (FirstNearest(left, SearchSpot(right, x, y, sqrt, ri), li) &&
         DefineCutLine(right, left, x, y, sqrt).value == CutLine(Point(x, y), left[li]))
  {
    var ri := FindNearest(right, Point(x, y)).value;
    assert FirstNearest(right, Point(x, y), ri);
    CutLineEnd(right, left, x, y, sqrt, ri);
  }

  /** With a correct square root, the search spot lies 20 units from (x, y), along a
      normal orthogonal to the boundary direction. */
  lemma SearchSpotDistance(right: seq<Point>, x: real, y: real, sqrt: real -> real, ri: nat)
    requires ri + 1 < |right| && IsSqrt(sqrt)
    requires sqrt(Norm2(Normal(right, ri).x, Normal(right, ri).y)) != 0.0
    ensures Dot2(right[ri + 1].x - right[ri].x, right[ri + 1].y - right[ri].y,
                 Normal(right, ri).x, Normal(right, ri).y) == 0.0
    ensures DistSq(SearchSpot(right, x, y, sqrt, ri), Point(x, y)) == RightLen * RightLen
  {
    var n := Normal(right, ri);
    var norm := sqrt(Norm2(n.x, n.y));
    NormalIsOrthogonal(right[ri + 1].x - right[ri].x, right[ri + 1].y - right[ri].y);
    assert norm * norm == Norm2(n.x, n.y);
    ProjectedSpotDistance(Point(x, y), n.x, n.y, norm);
  }

  /** The cut line fails with NoNextPoint exactly when the right-boundary point nearest to
      (x, y) is the last one. */
  lemma CutLineNeedsNextPoint(right: seq<Point>, left: seq<Point>, x: real, y: real, sqrt: real -> real)
    requires |right| > 0
    ensures DefineCutLine(right, left, x, y, sqrt) == Err(NoNextPoint) <==>
      FindNearest(right, Point(x, y)) == Some(|right| - 1)
  {
  }

  /** Once the nearest right-boundary point ri is known, and with a correct square root,
      the cut line fails with ZeroNormal exactly when the next right-boundary point repeats
      point ri: the direction is then (0, 0) and so is the normal. */
  lemma CutLineZeroDirection(right: seq<Point>, left: seq<Point>, x: real, y: real, sqrt: real -> real, ri: nat)
    requires ri < |right| && IsSqrt(sqrt)
    ensures CutLineFrom(right, left, x, y, sqrt, ri) == Err(ZeroNormal) <==>
      ri + 1 < |right| && right[ri + 1] == right[ri]
  {
    if ri + 1 < |right| {
      var n := Normal(right, ri);
      Norm2Zero(n.x, n.y);
      assert sqrt(Norm2(n.x, n.y)) == 0.0 <==> Norm2(n.x, n.y) == 0.0;
    }
  }

  /** DefineCutLine continues from the nearest right-boundary point. */
  lemma CutLineFromNearest(right: seq<Point>, left: seq<Point>, x: real, y: real, sqrt: real -> real, ri: nat)
    requires FindNearest(right, Point(x, y)) == Some(ri)
    ensures DefineCutLine(right, left, x, y, sqrt) == CutLineFrom(right, left, x, y, sqrt, ri)
  {
  }

  /** The normal (-dy, dx) is orthogonal to the direction (dx, dy). */
  lemma NormalIsOrthogonal(dx: real, dy: real)
    ensures Dot2(dx, dy, -dy, dx) == 0.0
  {
  }

  lemma UnitScaling(u: real, v: real, norm: real, len: real)
    requires norm != 0.0
    requires norm * norm == Norm2(u, v)
    ensures Norm2((u / norm) * len, (v / norm) * len) == len * len
  {
    var a, b := u / norm, v / norm;
    var m := norm * norm;
    assert a * norm == u && b * norm == v;
    assert u * u == (a * a) * m;
    assert v * v == (b * b) * m;
    var w := a * a + b * b - 1.0;
    assert w * m == 0.0;
    assert (w * norm) * norm == 0.0;
    ZeroProduct(w * norm, norm);
    ZeroProduct(w, norm);
    assert Norm2(a * len, b * len) == (a * a + b * b) * (len * len);
  }

  lemma ZeroProduct(w: real, m: real)
    requires m != 0.0 && w * m == 0.0
    ensures w == 0.0
  {
  }

  /** With a correct square root, the spot the left boundary is searched from lies exactly
      20 units from (x, y). */
  lemma ProjectedSpotDistance(p: Point, u: real, v: real, norm: real)
    requires norm != 0.0
    requires norm * norm == Norm2(u, v)
    ensures DistSq(Project(p, u, v, norm, RightLen), p) == RightLen * RightLen
  {
    UnitScaling(u, v, norm, RightLen);
    var q := Project(p, u, v, norm, RightLen);
    assert q.x - p.x == (u / norm) * RightLen;
    assert q.y - p.y == (v / norm) * RightLen;
  }
}
