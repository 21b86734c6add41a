/** Telemetry feature engineering: the columns the feature functions write into the
    frame in place (turning windows, racing-line deviation, brake-throttle, the wheel
    angle refill, the three angle features) and the velocity / G-force recomputation,
    which works on a copy. Square roots and trigonometric functions are parameters; what
    is proved about them is conditional on their defining properties. */
module Telemetry {
  import opened Wrappers
  import opened Geometry
  import opened Seqs
  import opened Rows
  import opened Cleaning
  import opened Kinematics

  // ---------------------------------------------------------------------------
  // Columns of the row data

  function Xs(s: seq<Sample>): (c: seq<Option<real>>)
    ensures |c| == |s|
  {
    seq(|s|, i requires 0 <= i < |s| => s[i].row.x)
  }

  function Ys(s: seq<Sample>): (c: seq<Option<real>>)
    ensures |c| == |s|
  {
    seq(|s|, i requires 0 <= i < |s| => s[i].row.y)
  }

  function Zs(s: seq<Sample>): (c: seq<Option<real>>)
    ensures |c| == |s|
  {
    seq(|s|, i requires 0 <= i < |s| => s[i].row.z)
  }

  function Times(s: seq<Sample>): (c: seq<real>)
    ensures |c| == |s|
  {
    seq(|s|, i requires 0 <= i < |s| => s[i].row.timeMs)
  }

  function WheelAngles(s: seq<Sample>): (c: seq<Option<real>>)
    ensures |c| == |s|
  {
    seq(|s|, i requires 0 <= i < |s| => s[i].row.wheelAngle)
  }

  /** The rows with M_FRONTWHEELSANGLE replaced by the column w; nothing else changes. */
  function SetWheelAngles(s: seq<Sample>, w: seq<Option<real>>): (r: seq<Sample>)
    requires |w| == |s|
    ensures |r| == |s| && WheelAngles(r) == w
    ensures Laps(r) == Laps(s) && Xs(r) == Xs(s) && Ys(r) == Ys(s) && Zs(r) == Zs(s) && Times(r) == Times(s)
    ensures forall i :: 0 <= i < |s| ==> Position(r[i].row) == Position(s[i].row)
  {
    seq(|s|, i requires 0 <= i < |s| => s[i].(row := s[i].row.(wheelAngle := w[i])))
  }

  /** m with the three angle columns of the rows s against the velocities vx, vy. */
  function WithAngles(m: map<Feature, Column>, s: seq<Sample>, vx: seq<real>, vy: seq<real>, t: Trig): map<Feature, Column>
    requires |vx| == |s| && |vy| == |s|
  {
    m[AngleFwVsVel := Values(AngleFwVsVelColumn(s, vx, vy, t))]
     [AngleCarVsVel := Values(AngleCarVsVelColumn(s, vx, vy, t))]
     [AngleFwVsCar := Values(AngleFwVsCarColumn(s, t))]
  }

  /** The angle stages write only the three angle columns. */
  lemma WithAnglesKeep(m: map<Feature, Column>, s: seq<Sample>, vx: seq<real>, vy: seq<real>, t: Trig)
    requires |vx| == |s| && |vy| == |s|
    ensures var r := WithAngles(m, s, vx, vy, t);
      (forall ft :: ft in m && ft !in {AngleFwVsVel, AngleCarVsVel, AngleFwVsCar} ==> ft in r && r[ft] == m[ft]) &&
      AngleFwVsVel in r && AngleCarVsVel in r && AngleFwVsCar in r
  {
  }

  // ---------------------------------------------------------------------------
  // The frame's feature columns

  /** The columns this stage adds to the frame. */
  datatype Feature =
    | DistToT1Apex | DistToT2Apex | IsT1Window | IsT2Window
    | LineDistance | BrakeThrottle
    | VelX | VelY | VelZ | GForceX | GForceY | GForceZ
    | AngleFwVsVel | AngleCarVsVel | AngleFwVsCar

  /** The column name pandas sees. */
  function Name(f: Feature): string {
    match f
    case DistToT1Apex => "dist_to_t1_apex"
    case DistToT2Apex => "dist_to_t2_apex"
    case IsT1Window => "is_t1_window"
    case IsT2Window => "is_t2_window"
    case LineDistance => "line_distance"
    case BrakeThrottle => "M_BRAKE_THROTTLE_1"
    case VelX => "VEL_X"
    case VelY => "VEL_Y"
    case VelZ => "VEL_Z"
    case GForceX => "GFORCE_X"
    case GForceY => "GFORCE_Y"
    case GForceZ => "GFORCE_Z"
    case AngleFwVsVel => "angle_fw_vs_vel"
    case AngleCarVsVel => "angle_car_vs_vel"
    case AngleFwVsCar => "angle_fw_vs_car"
  }

  /** A column of values: always present, possibly missing (NaN), or boolean. */
  datatype Column = Reals(reals: seq<real>) | Values(values: seq<Option<real>>) | Flags(flags: seq<bool>)

  function Length(c: Column): nat {
    match c
    case Reals(r) => |r|
    case Values(v) => |v|
    case Flags(b) => |b|
  }

  /** The column names after assigning `df[n]` for each n of ns in turn: a new name is
      appended, an existing one keeps its place. */
  function AddNames(names: seq<string>, ns: seq<string>): (r: seq<string>)
    ensures |names| <= |r| && r[..|names|] == names
    ensures forall m :: m in r <==> m in names || m in ns
    decreases |ns|
  {
    if |ns| == 0 then names
    else if ns[0] in names then AddNames(names, ns[1..])
    else
      var r := AddNames(names + [ns[0]], ns[1..]);
      assert r[..|names|] == r[..|names + [ns[0]]|][..|names|];
      r
  }

  /** The velocity and G-force columns of the raw export, dropped before recomputing. */
  const UpstreamMotionColumns: seq<string> := [
    "M_WORLDVELOCITYX_1", "M_WORLDVELOCITYY_1", "M_WORLDVELOCITYZ_1",
    "M_GFORCELATERAL_1", "M_GFORCELONGITUDINAL_1", "M_GFORCEVERTICAL_1"]

  const MotionNames: seq<string> := ["VEL_X", "VEL_Y", "VEL_Z", "GFORCE_X", "GFORCE_Y", "GFORCE_Z"]

  /** Assigning the columns of a and then those of b gives the same names as assigning
      those of a + b. */
  lemma {:induction false} AddNamesConcat(names: seq<string>, a: seq<string>, b: seq<string>)
    ensures AddNames(AddNames(names, a), b) == AddNames(names, a + b)
    decreases |a|
  {
    if |a| == 0 {
      assert a + b == b;
    } else {
      assert (a + b)[0] == a[0] && (a + b)[1..] == a[1..] + b;
      if a[0] in names {
        AddNamesConcat(names, a[1..], b);
      } else {
        AddNamesConcat(names + [a[0]], a[1..], b);
      }
    }
  }

  /** Assigning columns that are all present already leaves the names unchanged. */
  lemma {:induction false} AddNamesPresent(names: seq<string>, ns: seq<string>)
    requires forall m :: m in ns ==> m in names
    ensures AddNames(names, ns) == names
    decreases |ns|
  {
    if |ns| > 0 {
      assert ns[0] in ns;
      AddNamesPresent(names, ns[1..]);
    }
  }

  /** After the recomputation none of the raw velocity and G-force columns is left. */
  lemma UpstreamMotionDropped(names: seq<string>)
    ensures forall c :: c in UpstreamMotionColumns ==> c !in AddNames(DropPresent(names, UpstreamMotionColumns), MotionNames)
  {
    forall c | c in UpstreamMotionColumns
      ensures c !in MotionNames
    {
    }
  }

  // ---------------------------------------------------------------------------
  // Turning windows, racing-line deviation, brake-throttle

  const T1Apex: Point := Point(375.57, 191.519)
  const T2Apex: Point := Point(368.93, 90.0)
  const TurnRadius: real := 50.0

  /** dist_to_t*_apex, squared; NaN (None) for a row without a position. */
  function ApexDistSq(r: Row, apex: Point): (d: Option<real>)
    ensures d.Some? <==> Position(r).Some?
    ensures d.Some? ==> d.value >= 0.0
  {
    match Position(r)
    case None => None
    case Some(p) => Some(DistSq(p, apex))
  }

  /** is_t*_window: the apex distance is at most the turn radius; NaN compares false. */
  function InWindow(d: Option<real>): bool {
    d.Some? && d.value <= TurnRadius * TurnRadius
  }

  function ApexDistColumn(s: seq<Sample>, apex: Point): (c: seq<Option<real>>)
    ensures |c| == |s|
  {
    seq(|s|, i requires 0 <= i < |s| => ApexDistSq(s[i].row, apex))
  }

  function WindowColumn(s: seq<Sample>, apex: Point): (c: seq<bool>)
    ensures |c| == |s|
    ensures forall i :: 0 <= i < |s| ==>
      (c[i] <==> Position(s[i].row).Some? && DistSq(Position(s[i].row).value, apex) <= TurnRadius * TurnRadius)
  {
    seq(|s|, i requires 0 <= i < |s| => InWindow(ApexDistSq(s[i].row, apex)))
  }

  /** One apex's distance and window columns, computed row by row. */
  method ApexColumns(s: seq<Sample>, apex: Point) returns (d: seq<Option<real>>, w: seq<bool>)
    ensures d == ApexDistColumn(s, apex) && w == WindowColumn(s, apex)
  {
    d, w := [], [];
    for i := 0 to |s|
      invariant d == ApexDistColumn(s, apex)[..i]
      invariant w == WindowColumn(s, apex)[..i]
    {
      var a := ApexDistSq(s[i].row, apex);
      d, w := d + [a], w + [InWindow(a)];
    }
    assert d == ApexDistColumn(s, apex)[..|s|];
  }

  /** Comparing squared distances with the squared radius decides the same windows as
      comparing distances with the radius. */
  lemma WindowBySquares(sqrt: real -> real, d2: real)
    requires IsSqrt(sqrt) && d2 >= 0.0
    ensures sqrt(d2) <= TurnRadius <==> d2 <= TurnRadius * TurnRadius
  {
    RootBelow(sqrt(d2), d2);
  }

  lemma RootBelow(d: real, d2: real)
    requires d >= 0.0 && d * d == d2
    ensures d <= 50.0 <==> d2 <= 2500.0
  {
    if d <= 50.0 {
      assert d * d <= 50.0 * d;
    } else {
      assert d * d > 50.0 * d;
    }
  }

  /** line_distance, squared: the squared distance to the nearest racing-line point (a
      k-d tree query); None without a position or without a racing line. */
  function LineDistanceColumn(s: seq<Sample>, line: seq<Point>): (c: seq<Option<real>>)
    ensures |c| == |s|
    ensures forall i :: 0 <= i < |s| ==> (c[i].Some? <==> Position(s[i].row).Some? && |line| > 0)
    ensures forall i, j :: 0 <= i < |s| && 0 <= j < |line| && c[i].Some? ==>
      c[i].value <= DistSq(line[j], Position(s[i].row).value)
    ensures forall i :: 0 <= i < |s| && c[i].Some? ==>
      exists j :: 0 <= j < |line| && c[i].value == DistSq(line[j], Position(s[i].row).value)
  {
    seq(|s|, i requires 0 <= i < |s| =>
      match Position(s[i].row) case None => None case Some(p) => NearestDistSq(line, p))
  }

  /** M_BRAKE_THROTTLE_1: throttle minus brake; from it and the brake the throttle is
      recovered. */
  function BrakeThrottleColumn(s: seq<Sample>): (c: seq<real>)
    ensures |c| == |s|
    ensures forall i :: 0 <= i < |s| ==> c[i] + s[i].row.brake == s[i].row.throttle
  {
    seq(|s|, i requires 0 <= i < |s| => s[i].row.throttle - s[i].row.brake)
  }

  // ---------------------------------------------------------------------------
  // Velocity and G-force columns

  /** VEL_<axis> for the position column `pos`, grouped by lap_index. */
  function VelocityOf(s: seq<Sample>, pos: seq<Option<real>>): (c: seq<real>)
    requires |pos| == |s|
    ensures |c| == |s|
    ensures forall i :: 0 <= i < |s| ==> -VelocityLimit <= c[i] <= VelocityLimit
  {
    seq(|s|, i requires 0 <= i < |s| => VelocityAt(Laps(s), pos, Times(s), i))
  }

  /** GFORCE_<axis> for the velocity column `vel`: masked, then refilled per lap. */
  function GForceOf(s: seq<Sample>, vel: seq<real>): (c: seq<Option<real>>)
    requires |vel| == |s|
    ensures |c| == |s|
  {
    seq(|s|, i requires 0 <= i < |s| => GroupFillAt(Laps(s), MaskedG(Laps(s), vel, Times(s)), i))
  }

  /** Every refilled G-force is present and within [-7, 7]. */
  lemma GForceOfComplete(s: seq<Sample>, vel: seq<real>)
    requires |vel| == |s|
    ensures forall i :: 0 <= i < |s| ==>
      GForceOf(s, vel)[i].Some? && -GLimit <= GForceOf(s, vel)[i].value <= GLimit
  {
    forall i | 0 <= i < |s|
      ensures GForceOf(s, vel)[i].Some? && -GLimit <= GForceOf(s, vel)[i].value <= GLimit
    {
      RefilledGForceComplete(Laps(s), vel, Times(s), i);
    }
  }

  /** One axis of the recomputation: the velocity column, then the G-force column derived
      from it. */
  method RecomputeAxis(s: seq<Sample>, pos: seq<Option<real>>) returns (vel: seq<real>, g: seq<Option<real>>)
    requires |pos| == |s|
    ensures vel == VelocityOf(s, pos)
    ensures g == GForceOf(s, vel)
    ensures forall i :: 0 <= i < |s| ==> g[i].Some? && -GLimit <= g[i].value <= GLimit
  {
    vel := VelocityColumn(Laps(s), pos, Times(s));
    var masked := GForceColumn(Laps(s), vel, Times(s));
    g := FillWithinGroups(Laps(s), masked);
    GForceOfComplete(s, vel);
  }

  /** Every feature column is present. */
  predicate HasAllFeatures(m: map<Feature, Column>) {
    DistToT1Apex in m && DistToT2Apex in m && IsT1Window in m && IsT2Window in m &&
    LineDistance in m && BrakeThrottle in m &&
    VelX in m && VelY in m && VelZ in m && GForceX in m && GForceY in m && GForceZ in m &&
    AngleFwVsVel in m && AngleCarVsVel in m && AngleFwVsCar in m
  }

  /** The columns `compute_turning_window` adds. */
  const WindowNames: seq<string> :=
    [Name(DistToT1Apex), Name(DistToT2Apex), Name(IsT1Window), Name(IsT2Window)]

  /** The columns the three angle stages add. */
  const AngleNames: seq<string> := [Name(AngleFwVsVel), Name(AngleCarVsVel), Name(AngleFwVsCar)]

  /** m with the four turning-window columns of the rows s. */
  function WithWindows(m: map<Feature, Column>, s: seq<Sample>): map<Feature, Column> {
    m[DistToT1Apex := Values(ApexDistColumn(s, T1Apex))]
     [DistToT2Apex := Values(ApexDistColumn(s, T2Apex))]
     [IsT1Window := Flags(WindowColumn(s, T1Apex))]
     [IsT2Window := Flags(WindowColumn(s, T2Apex))]
  }

  /** m with the columns the in-place stages of `telemetry_eng` write on the rows s. */
  function InPlaceFeatures(m: map<Feature, Column>, s: seq<Sample>, line: seq<Point>): map<Feature, Column> {
    WithWindows(m, s)[LineDistance := Values(LineDistanceColumn(s, line))]
                     [BrakeThrottle := Reals(BrakeThrottleColumn(s))]
  }

  /** Recomputing the windows on other rows replaces the first ones entirely. */
  lemma WindowsAgain(m: map<Feature, Column>, s0: seq<Sample>, s1: seq<Sample>, a: Column, b: Column)
    ensures WithWindows(WithWindows(m, s0)[LineDistance := a][BrakeThrottle := b], s1) ==
            WithWindows(m, s1)[LineDistance := a][BrakeThrottle := b]
  {
  }

  /** The in-place stages keep every column and write the window, line and
      brake-throttle columns, the windows being those of s. */
  lemma InPlaceFeaturesKeep(m: map<Feature, Column>, s: seq<Sample>, line: seq<Point>)
    ensures forall ft :: ft in m ==> ft in InPlaceFeatures(m, s, line)
    ensures var r := InPlaceFeatures(m, s, line);
      DistToT1Apex in r && DistToT2Apex in r && LineDistance in r && BrakeThrottle in r &&
      IsT1Window in r && r[IsT1Window] == Flags(WindowColumn(s, T1Apex)) &&
      IsT2Window in r && r[IsT2Window] == Flags(WindowColumn(s, T2Apex))
  {
  }

  /** The apex columns depend only on the positions of the rows. */
  lemma SamePositionsSameWindows(s0: seq<Sample>, s1: seq<Sample>, apex: Point)
    requires |s1| == |s0| && forall i :: 0 <= i < |s0| ==> Position(s1[i].row) == Position(s0[i].row)
    ensures ApexDistColumn(s1, apex) == ApexDistColumn(s0, apex)
    ensures WindowColumn(s1, apex) == WindowColumn(s0, apex)
  {
  }

  /** m with the recomputed velocity and G-force columns of the rows s. */
  function WithMotion(m: map<Feature, Column>, s: seq<Sample>): map<Feature, Column> {
    var vx, vy, vz := VelocityOf(s, Xs(s)), VelocityOf(s, Ys(s)), VelocityOf(s, Zs(s));
    m[VelX := Reals(vx)][VelY := Reals(vy)][VelZ := Reals(vz)]
     [GForceX := Values(GForceOf(s, vx))]
     [GForceY := Values(GForceOf(s, vy))]
     [GForceZ := Values(GForceOf(s, vz))]
  }

  /** A G-force column with every one of its n values present and within [-7, 7]. */
  predicate RefilledG(c: Column, n: nat) {
    c.Values? && |c.values| == n &&
    forall i :: 0 <= i < n ==> c.values[i].Some? && -GLimit <= c.values[i].value <= GLimit
  }

  // ---------------------------------------------------------------------------
  // Angle features

  /** The trigonometric and root functions the angle features use: cos and sin of an
      angle in degrees, the square root, and arccos in degrees. */
  datatype Trig = Trig(cosDeg: real -> real, sinDeg: real -> real, sqrt: real -> real, acosDeg: real -> real)

  ghost predicate UnitCircle(t: Trig) {
    forall a :: t.cosDeg(a) * t.cosDeg(a) + t.sinDeg(a) * t.sinDeg(a) == 1.0
  }

  ghost predicate ArccosRange(t: Trig) {
    forall c :: -1.0 <= c <= 1.0 ==> 0.0 <= t.acosDeg(c) <= 180.0
  }

  /** The vector (fx, fy) rotated by the angle whose cosine and sine are c and s. */
  function Rotate(fx: real, fy: real, c: real, s: real): (real, real) {
    (fx * c - fy * s, fx * s + fy * c)
  }

  lemma RotationIdentity(fx: real, fy: real, c: real, s: real)
    ensures Norm2(fx * c - fy * s, fx * s + fy * c) == Norm2(fx, fy) * (c * c + s * s)
  {
    assert (fx * c - fy * s) * (fx * c - fy * s) == fx * fx * (c * c) - 2.0 * (fx * fy) * (c * s) + fy * fy * (s * s);
    assert (fx * s + fy * c) * (fx * s + fy * c) == fx * fx * (s * s) + 2.0 * (fx * fy) * (c * s) + fy * fy * (c * c);
  }

  /** A rotation keeps the length of a vector. */
  lemma RotationKeepsLength(fx: real, fy: real, c: real, s: real)
    requires c * c + s * s == 1.0
    ensures Norm2(Rotate(fx, fy, c, s).0, Rotate(fx, fy, c, s).1) == Norm2(fx, fy)
  {
    RotationIdentity(fx, fy, c, s);
  }

  /** The front wheel direction: the car's forward vector rotated by the wheel angle; NaN
      (None) when the wheel angle is missing. */
  function WheelDirection(r: Row, t: Trig): Option<(real, real)> {
    match r.wheelAngle
    case None => None
    case Some(a) => Some(Rotate(r.fwdX, r.fwdY, t.cosDeg(a), t.sinDeg(a)))
  }

  lemma MulPositive(a: real, b: real)
    requires a > 0.0 && b > 0.0
    ensures a * b > 0.0
  {
  }

  /** The cosine of the angle between u and v for a row the valid mask keeps (both norms
      positive), clipped to [-1, 1]; None for a masked row. */
  function MaskedCosine(u: (real, real), v: (real, real), sqrt: real -> real): (c: Option<real>)
    ensures c.Some? <==> sqrt(Norm2(u.0, u.1)) > 0.0 && sqrt(Norm2(v.0, v.1)) > 0.0
    ensures c.Some? ==> -1.0 <= c.value <= 1.0
  {
    var nu, nv := sqrt(Norm2(u.0, u.1)), sqrt(Norm2(v.0, v.1));
    if nu > 0.0 && nv > 0.0 then
      MulPositive(nu, nv);
      Some(Clamp(Dot2(u.0, u.1, v.0, v.1) / (nu * nv), -1.0, 1.0))
    else None
  }

  /** The cosine without a mask: a zero norm makes the quotient infinite or NaN; clipping
      turns an infinity into -1 or 1 and keeps NaN. */
  function UnmaskedCosine(u: (real, real), v: (real, real), sqrt: real -> real): (c: Option<real>)
    ensures c.Some? ==> -1.0 <= c.value <= 1.0
  {
    match Quotient(Some(Dot2(u.0, u.1, v.0, v.1)), Some(sqrt(Norm2(u.0, u.1)) * sqrt(Norm2(v.0, v.1))))
    case Fin(q) => Some(Clamp(q, -1.0, 1.0))
    case PosInf => Some(1.0)
    case NegInf => Some(-1.0)
    case NaN => None
  }

  /** angle_fw_vs_vel: 180 minus the angle between the front wheel direction and the
      velocity, NaN for masked rows. */
  function AngleFwVsVelAt(r: Row, vx: real, vy: real, t: Trig): Option<real> {
    match WheelDirection(r, t)
    case None => None
    case Some(w) =>
      match MaskedCosine(w, (vx, vy), t.sqrt)
      case None => None
      case Some(c) => Some(180.0 - t.acosDeg(c))
  }

  /** angle_car_vs_vel: 180 minus the angle between the forward direction and the
      velocity, NaN for masked rows. */
  function AngleCarVsVelAt(r: Row, vx: real, vy: real, t: Trig): Option<real> {
    match MaskedCosine((r.fwdX, r.fwdY), (vx, vy), t.sqrt)
    case None => None
    case Some(c) => Some(180.0 - t.acosDeg(c))
  }

  /** Folds an angle above 90 degrees back to 180 minus it. */
  function Fold(a: real): (r: real)
    ensures 0.0 <= a <= 180.0 ==> 0.0 <= r <= 90.0
    ensures r == a || r == 180.0 - a
  {
    if a > 90.0 then 180.0 - a else a
  }

  /** angle_fw_vs_car: the angle between the front wheel direction and the forward
      direction, folded into [0, 90]; there is no mask, so 0 / 0 stays NaN. */
  function AngleFwVsCarAt(r: Row, t: Trig): Option<real> {
    match WheelDirection(r, t)
    case None => None
    case Some(w) =>
      match UnmaskedCosine(w, (r.fwdX, r.fwdY), t.sqrt)
      case None => None
      case Some(c) => Some(Fold(t.acosDeg(c)))
  }

  /** With arccos mapping [-1, 1] onto [0, 180] degrees, the two velocity angles lie in
      [0, 180] and the folded one in [0, 90]. */
  lemma AngleRanges(r: Row, vx: real, vy: real, t: Trig)
    requires ArccosRange(t)
    ensures AngleFwVsVelAt(r, vx, vy, t).Some? ==> 0.0 <= AngleFwVsVelAt(r, vx, vy, t).value <= 180.0
    ensures AngleCarVsVelAt(r, vx, vy, t).Some? ==> 0.0 <= AngleCarVsVelAt(r, vx, vy, t).value <= 180.0
    ensures AngleFwVsCarAt(r, t).Some? ==> 0.0 <= AngleFwVsCarAt(r, t).value <= 90.0
  {
  }

  lemma SquareRootPositive(sqrt: real -> real, x: real)
    requires IsSqrt(sqrt) && x >= 0.0
    ensures sqrt(x) > 0.0 <==> x > 0.0
  {
  }

  /** The valid masks keep exactly the rows whose vectors are non-zero: for
      angle_fw_vs_vel the wheel angle must be present and both the forward vector (whose
      rotation has the same length) and the velocity non-zero. */
  lemma {:induction false} AngleMasks(r: Row, vx: real, vy: real, t: Trig)
    requires IsSqrt(t.sqrt) && UnitCircle(t)
    ensures AngleCarVsVelAt(r, vx, vy, t).Some? <==> Norm2(r.fwdX, r.fwdY) > 0.0 && Norm2(vx, vy) > 0.0
    ensures AngleFwVsVelAt(r, vx, vy, t).Some? <==>
      r.wheelAngle.Some? && Norm2(r.fwdX, r.fwdY) > 0.0 && Norm2(vx, vy) > 0.0
  {
    SquareRootPositive(t.sqrt, Norm2(r.fwdX, r.fwdY));
    SquareRootPositive(t.sqrt, Norm2(vx, vy));
    if r.wheelAngle.Some? {
      var a := r.wheelAngle.value;
      var w := Rotate(r.fwdX, r.fwdY, t.cosDeg(a), t.sinDeg(a));
      RotationKeepsLength(r.fwdX, r.fwdY, t.cosDeg(a), t.sinDeg(a));
      SquareRootPositive(t.sqrt, Norm2(w.0, w.1));
    }
  }

  lemma SquareRootZero(sqrt: real -> real)
    requires IsSqrt(sqrt)
    ensures sqrt(0.0) == 0.0
  {
    SquareRootPositive(sqrt, 0.0);
  }

  /** Without a mask, a car whose forward vector is zero gets NaN for angle_fw_vs_car:
      the dot product and the norm product are both 0. */
  lemma ZeroForwardIsNaN(r: Row, t: Trig)
    requires IsSqrt(t.sqrt)
    requires r.fwdX == 0.0 && r.fwdY == 0.0
    ensures AngleFwVsCarAt(r, t).None?
  {
    SquareRootZero(t.sqrt);
    assert Norm2(r.fwdX, r.fwdY) == 0.0;
  }

  function AngleFwVsVelColumn(s: seq<Sample>, vx: seq<real>, vy: seq<real>, t: Trig): (c: seq<Option<real>>)
    requires |vx| == |s| && |vy| == |s|
    ensures |c| == |s|
  {
    seq(|s|, i requires 0 <= i < |s| => AngleFwVsVelAt(s[i].row, vx[i], vy[i], t))
  }

  function AngleCarVsVelColumn(s: seq<Sample>, vx: seq<real>, vy: seq<real>, t: Trig): (c: seq<Option<real>>)
    requires |vx| == |s| && |vy| == |s|
    ensures |c| == |s|
  {
    seq(|s|, i requires 0 <= i < |s| => AngleCarVsVelAt(s[i].row, vx[i], vy[i], t))
  }

  function AngleFwVsCarColumn(s: seq<Sample>, t: Trig): (c: seq<Option<real>>)
    ensures |c| == |s|
  {
    seq(|s|, i requires 0 <= i < |s| => AngleFwVsCarAt(s[i].row, t))
  }

  // ---------------------------------------------------------------------------
  // The frame

  /** A telemetry frame: its rows (the columns the stage reads, with lap_index), its
      column names in order, and the feature columns assigned into it so far. */
  class Frame {
    var rows: seq<Sample>
    var names: seq<string>
    var features: map<Feature, Column>

    /** Every feature column has one entry per row. */
    ghost predicate Valid()
      reads this
    {
      forall f :: f in features ==> Length(features[f]) == |rows|
    }

    constructor (rows: seq<Sample>, names: seq<string>)
      ensures this.rows == rows && this.names == names && features == map[]
      ensures Valid()
    {
      this.rows := rows;
      this.names := names;
      features := map[];
    }

    /** `compute_turning_window`: writes dist_to_t1_apex, dist_to_t2_apex, is_t1_window and
        is_t2_window. */
    method ComputeTurningWindow()
      requires Valid()
      modifies this
      ensures Valid()
      ensures rows == old(rows)
      ensures names == AddNames(old(names), WindowNames)
      ensures features == WithWindows(old(features), rows)
    {
      var d1, w1 := ApexColumns(rows, T1Apex);
      var d2, w2 := ApexColumns(rows, T2Apex);
      features := features[DistToT1Apex := Values(d1)][DistToT2Apex := Values(d2)]
                          [IsT1Window := Flags(w1)][IsT2Window := Flags(w2)];
      names := AddNames(names, WindowNames);
    }

    /** `interpolate_wheel_angle` (and `interpolate_steering`): M_FRONTWHEELSANGLE is
        interpolated within each lap, then forward and back filled over the whole column. */
    method InterpolateWheelAngle()
      requires Valid()
      modifies this
      ensures Valid()
      ensures rows == SetWheelAngles(old(rows), BFill(FFill(InterpolateColumn(Laps(old(rows)), WheelAngles(old(rows))))))
      ensures names == old(names) && features == old(features)
    {
      var w := InterpolateWithinGroups(Laps(rows), WheelAngles(rows));
      var filled := FillColumn(w);
      rows := SetWheelAngles(rows, filled);
    }

    /** `racing_line_deviation`: writes line_distance. */
    method RacingLineDeviation(line: seq<Point>)
      requires Valid()
      modifies this
      ensures Valid()
      ensures rows == old(rows)
      ensures names == AddNames(old(names), [Name(LineDistance)])
      ensures features == old(features)[LineDistance := Values(LineDistanceColumn(rows, line))]
    {
      var d := [];
      for i := 0 to |rows|
        invariant d == LineDistanceColumn(rows, line)[..i]
      {
        var p := Position(rows[i].row);
        d := d + [if p.Some? then NearestDistSq(line, p.value) else None];
      }
      assert d == LineDistanceColumn(rows, line);
      features := features[LineDistance := Values(d)];
      names := AddNames(names, [Name(LineDistance)]);
    }

    /** `brake_throttle` (and `basic_features`): writes M_BRAKE_THROTTLE_1. */
    method AddBrakeThrottle()
      requires Valid()
      modifies this
      ensures Valid()
      ensures rows == old(rows)
      ensures names == AddNames(old(names), [Name(BrakeThrottle)])
      ensures features == old(features)[BrakeThrottle := Reals(BrakeThrottleColumn(rows))]
    {
      var c := [];
      for i := 0 to |rows|
        invariant c == BrakeThrottleColumn(rows)[..i]
      {
        c := c + [rows[i].row.throttle - rows[i].row.brake];
      }
      assert c == BrakeThrottleColumn(rows);
      features := features[BrakeThrottle := Reals(c)];
      names := AddNames(names, [Name(BrakeThrottle)]);
    }

    /** `recompute_velocity_and_gforce`: works on a copy, so this frame is unchanged. The
        copy drops the raw velocity and G-force columns that are present and holds
        VEL_X/Y/Z and GFORCE_X/Y/Z, every G-force present and within [-7, 7]. */
    method RecomputeVelocityAndGForce() returns (f: Frame)
      requires Valid()
      ensures fresh(f) && f.Valid()
      ensures f.rows == rows
      ensures f.names == AddNames(DropPresent(names, UpstreamMotionColumns), MotionNames)
      ensures f.features == WithMotion(features, rows)
      ensures RefilledG(f.features[GForceX], |rows|)
      ensures RefilledG(f.features[GForceY], |rows|)
      ensures RefilledG(f.features[GForceZ], |rows|)
    {
      var vx, gx := RecomputeAxis(rows, Xs(rows));
      var vy, gy := RecomputeAxis(rows, Ys(rows));
      var vz, gz := RecomputeAxis(rows, Zs(rows));
      var kept := DropPresent(names, UpstreamMotionColumns);
      f := new Frame(rows, AddNames(kept, MotionNames));
      f.features := features;
      f.Put(VelX, Reals(vx));
      f.Put(VelY, Reals(vy));
      f.Put(VelZ, Reals(vz));
      f.Put(GForceX, Values(gx));
      f.Put(GForceY, Values(gy));
      f.Put(GForceZ, Values(gz));
    }

    /** Stores a feature column of the right length. */
    method Put(ft: Feature, c: Column)
      requires Valid() && Length(c) == |rows|
      modifies this
      ensures Valid()
      ensures rows == old(rows) && names == old(names)
      ensures features == old(features)[ft := c]
    {
      features := features[ft := c];
    }

    /** `front_wheel_vs_velocity`: writes angle_fw_vs_vel; needs VEL_X and VEL_Y. */
    method FrontWheelVsVelocity(t: Trig)
      requires Valid()
      requires VelX in features && features[VelX].Reals? && VelY in features && features[VelY].Reals?
      modifies this
      ensures Valid()
      ensures rows == old(rows)
      ensures names == AddNames(old(names), [Name(AngleFwVsVel)])
      ensures features == old(features)[AngleFwVsVel :=
        Values(AngleFwVsVelColumn(rows, old(features)[VelX].reals, old(features)[VelY].reals, t))]
    {
      var vx, vy := features[VelX].reals, features[VelY].reals;
      var c := [];
      for i := 0 to |rows|
        invariant c == AngleFwVsVelColumn(rows, vx, vy, t)[..i]
      {
        c := c + [AngleFwVsVelAt(rows[i].row, vx[i], vy[i], t)];
      }
      assert c == AngleFwVsVelColumn(rows, vx, vy, t);
      features := features[AngleFwVsVel := Values(c)];
      names := AddNames(names, [Name(AngleFwVsVel)]);
    }

    /** `car_direction_vs_velocity`: writes angle_car_vs_vel; needs VEL_X and VEL_Y. */
    method CarDirectionVsVelocity(t: Trig)
      requires Valid()
      requires VelX in features && features[VelX].Reals? && VelY in features && features[VelY].Reals?
      modifies this
      ensures Valid()
      ensures rows == old(rows)
      ensures names == AddNames(old(names), [Name(AngleCarVsVel)])
      ensures features == old(features)[AngleCarVsVel :=
        Values(AngleCarVsVelColumn(rows, old(features)[VelX].reals, old(features)[VelY].reals, t))]
    {
      var vx, vy := features[VelX].reals, features[VelY].reals;
      var c := [];
      for i := 0 to |rows|
        invariant c == AngleCarVsVelColumn(rows, vx, vy, t)[..i]
      {
        c := c + [AngleCarVsVelAt(rows[i].row, vx[i], vy[i], t)];
      }
      assert c == AngleCarVsVelColumn(rows, vx, vy, t);
      features := features[AngleCarVsVel := Values(c)];
      names := AddNames(names, [Name(AngleCarVsVel)]);
    }

    /** `front_wheel_vs_car_direction`: writes angle_fw_vs_car. */
    method FrontWheelVsCarDirection(t: Trig)
      requires Valid()
      modifies this
      ensures Valid()
      ensures rows == old(rows)
      ensures names == AddNames(old(names), [Name(AngleFwVsCar)])
      ensures features == old(features)[AngleFwVsCar := Values(AngleFwVsCarColumn(rows, t))]
    {
      var c := [];
      for i := 0 to |rows|
        invariant c == AngleFwVsCarColumn(rows, t)[..i]
      {
        c := c + [AngleFwVsCarAt(rows[i].row, t)];
      }
      assert c == AngleFwVsCarColumn(rows, t);
      features := features[AngleFwVsCar := Values(c)];
      names := AddNames(names, [Name(AngleFwVsCar)]);
    }

    /** The stages of `telemetry_eng` that write into the frame it was given. The
        turning window is computed twice; the second pass, after the wheel angle refill,
        reproduces the first, since the positions are unchanged. */
    method InPlaceStages(line: seq<Point>)
      requires Valid()
      modifies this
      ensures Valid()
      ensures rows == SetWheelAngles(old(rows), BFill(FFill(InterpolateColumn(Laps(old(rows)), WheelAngles(old(rows))))))
      ensures names == AddNames(old(names), WindowNames + [Name(LineDistance), Name(BrakeThrottle)])
      ensures features == InPlaceFeatures(old(features), rows, line)
      ensures forall ft :: ft in old(features) ==> ft in features
      ensures DistToT1Apex in features && DistToT2Apex in features && LineDistance in features && BrakeThrottle in features
      ensures IsT1Window in features && features[IsT1Window] == Flags(WindowColumn(old(rows), T1Apex))
      ensures IsT2Window in features && features[IsT2Window] == Flags(WindowColumn(old(rows), T2Apex))
    {
      ComputeTurningWindow();
      InterpolateWheelAngle();
      RacingLineDeviation(line);
      AddBrakeThrottle();
      ghost var before, m := names, features;
      ComputeTurningWindow();
      WindowsAgain(old(features), old(rows), rows, m[LineDistance], m[BrakeThrottle]);
      AddNamesPresent(before, WindowNames);
      AddNamesConcat(old(names), WindowNames, [Name(LineDistance)]);
      AddNamesConcat(old(names), WindowNames + [Name(LineDistance)], [Name(BrakeThrottle)]);
      assert WindowNames + [Name(LineDistance)] + [Name(BrakeThrottle)] == WindowNames + [Name(LineDistance), Name(BrakeThrottle)];
      InPlaceFeaturesKeep(old(features), rows, line);
      SamePositionsSameWindows(old(rows), rows, T1Apex);
      SamePositionsSameWindows(old(rows), rows, T2Apex);
    }

    /** The three angle features of `telemetry_eng`, written after the recomputation,
        against the frame's velocity columns. */
    method AngleStages(t: Trig)
      requires Valid()
      requires VelX in features && features[VelX].Reals? && VelY in features && features[VelY].Reals?
      modifies this
      ensures Valid() && rows == old(rows)
      ensures |old(features)[VelX].reals| == |rows| && |old(features)[VelY].reals| == |rows|
      ensures features == WithAngles(old(features), rows, old(features)[VelX].reals, old(features)[VelY].reals, t)
      ensures names == AddNames(old(names), AngleNames)
      ensures forall ft :: ft in old(features) && ft !in {AngleFwVsVel, AngleCarVsVel, AngleFwVsCar} ==>
        ft in features && features[ft] == old(features)[ft]
      ensures AngleFwVsVel in features && AngleCarVsVel in features && AngleFwVsCar in features
    {
      FrontWheelVsVelocity(t);
      CarDirectionVsVelocity(t);
      FrontWheelVsCarDirection(t);
      AddNamesConcat(old(names), [Name(AngleFwVsVel)], [Name(AngleCarVsVel)]);
      AddNamesConcat(old(names), [Name(AngleFwVsVel), Name(AngleCarVsVel)], [Name(AngleFwVsCar)]);
      assert [Name(AngleFwVsVel)] + [Name(AngleCarVsVel)] == [Name(AngleFwVsVel), Name(AngleCarVsVel)];
      assert [Name(AngleFwVsVel), Name(AngleCarVsVel)] + [Name(AngleFwVsCar)] == AngleNames;
      WithAnglesKeep(old(features), rows, old(features)[VelX].reals, old(features)[VelY].reals, t);
    }

    /** `telemetry_eng`: the in-place stages change this frame; the recomputation returns
        a copy, which receives the angle features and is returned with every feature
        column present and every G-force refilled. */
    method TelemetryEng(line: seq<Point>, t: Trig) returns (f: Frame)
      requires Valid()
      modifies this
      ensures Valid() && fresh(f) && f.Valid()
      ensures rows == SetWheelAngles(old(rows), BFill(FFill(InterpolateColumn(Laps(old(rows)), WheelAngles(old(rows))))))
      ensures names == AddNames(old(names), WindowNames + [Name(LineDistance), Name(BrakeThrottle)])
      ensures features == InPlaceFeatures(old(features), rows, line)
      ensures f.rows == rows
      ensures f.names == AddNames(DropPresent(names, UpstreamMotionColumns), MotionNames + AngleNames)
      ensures f.features ==
        WithAngles(WithMotion(features, rows), rows, VelocityOf(rows, Xs(rows)), VelocityOf(rows, Ys(rows)), t)
      ensures HasAllFeatures(f.features)
      ensures IsT1Window in features && features[IsT1Window] == Flags(WindowColumn(old(rows), T1Apex))
      ensures IsT2Window in features && features[IsT2Window] == Flags(WindowColumn(old(rows), T2Apex))
      ensures RefilledG(f.features[GForceX], |rows|)
      ensures RefilledG(f.features[GForceY], |rows|)
      ensures RefilledG(f.features[GForceZ], |rows|)
    {
      InPlaceStages(line);
      f := RecomputedWithAngles(t);
    }

    /** The recomputed copy with the three angle features written into it, computed
        against the recomputed velocities. */
    method RecomputedWithAngles(t: Trig) returns (f: Frame)
      requires Valid()
      ensures fresh(f) && f.Valid() && f.rows == rows
      ensures f.names == AddNames(DropPresent(names, UpstreamMotionColumns), MotionNames + AngleNames)
      ensures f.features ==
        WithAngles(WithMotion(features, rows), rows, VelocityOf(rows, Xs(rows)), VelocityOf(rows, Ys(rows)), t)
      ensures forall ft :: ft in features ==> ft in f.features
      ensures VelX in f.features && VelY in f.features && VelZ in f.features
      ensures GForceX in f.features && GForceY in f.features && GForceZ in f.features
      ensures AngleFwVsVel in f.features && AngleCarVsVel in f.features && AngleFwVsCar in f.features
      ensures RefilledG(f.features[GForceX], |rows|)
      ensures RefilledG(f.features[GForceY], |rows|)
      ensures RefilledG(f.features[GForceZ], |rows|)
    {
      f := RecomputeVelocityAndGForce();
      ghost var before := f.features;
      f.AngleStages(t);
      AddNamesConcat(DropPresent(names, UpstreamMotionColumns), MotionNames, AngleNames);
      assert f.features[GForceX] == before[GForceX];
      assert f.features[GForceY] == before[GForceY];
      assert f.features[GForceZ] == before[GForceZ];
    }
  }
}
