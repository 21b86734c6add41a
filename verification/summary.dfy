/** The lap summary: one row per lap with its sector time, then columns merged in on
    `lap_index` — the mean racing-line deviation, the nearest approach to each apex, mean
    and peak brake and throttle, and the first braking and turning points. Distances are
    squared, as elsewhere in the model. */
module Summary {
  import opened Wrappers
  import opened Seqs
  import opened Geometry
  import opened Rows
  import opened LapTime
  import Telemetry

  /** The reading reported for the first row of a lap over a threshold: its position
      (NaN when the row has none) and the brake or steer value. */
  datatype FirstPoint = FirstPoint(x: Option<real>, y: Option<real>, value: real)

  /** One row of the summary frame. A column that a left merge found no match for is
      NaN, here None. */
  datatype LapSummary = LapSummary(
    lap: nat,                        // lap_index
    sectorTime: real,                // sector_time, seconds
    avgLineDistance: Option<real>,   // avg_line_distance
    distToApex1: Option<real>,       // dist_to_apex1, squared
    distToApex2: Option<real>,       // dist_to_apex2, squared
    avgBrake: Option<real>,          // avg_brake_pressure
    avgThrottle: Option<real>,       // avg_throttle_pressure
    peakBrake: Option<real>,         // peak_brake_pressure
    peakThrottle: Option<real>,      // peak_throttle_pressure
    brakePoint: Option<FirstPoint>,  // brake_x, brake_y, brake_pressure
    turnPoint: Option<FirstPoint>)   // turn_x, turn_y, steering_angle

  /** A summary row as `initialise_lap_summary` creates it: lap and sector time only. */
  function Fresh(k: nat, t: real): LapSummary {
    LapSummary(k, t, None, None, None, None, None, None, None, None, None)
  }

  datatype SummaryError =
    | BadLapTime(lap: nat, error: TimeError)  // time_to_seconds raised on a start or end row
    | NonFinitePosition                       // the k-d tree refuses a NaN coordinate

  /** Lap k has at least one row. */
  predicate HasLap(s: seq<Sample>, k: nat) {
    exists j :: 0 <= j < |s| && s[j].lap == k
  }

  lemma LapIdsHaveRows(s: seq<Sample>)
    ensures forall k :: k in LapIds(s) <==> HasLap(s, k)
  {
  }

  // ---------------------------------------------------------------------------
  // Sector time

  function Seconds(x: Sample): Result<real, TimeError> {
    TimeToSeconds(x.row.lapTime)
  }

  /** Row a comes first in lap k once the lap is sorted by lap distance: no row of the
      lap has a smaller distance. Which of several rows with the smallest distance comes
      first is not specified, as the sort is not stable. */
  predicate IsLapStart(s: seq<Sample>, k: nat, a: nat) {
    a < |s| && s[a].lap == k &&
    forall j :: 0 <= j < |s| && s[j].lap == k ==> s[a].row.lapDistance <= s[j].row.lapDistance
  }

  /** Row b comes last in lap k once the lap is sorted by lap distance. */
  predicate IsLapEnd(s: seq<Sample>, k: nat, b: nat) {
    b < |s| && s[b].lap == k &&
    forall j :: 0 <= j < |s| && s[j].lap == k ==> s[j].row.lapDistance <= s[b].row.lapDistance
  }

  /** t is the time from a first row to a last row of lap k. */
  ghost predicate IsSectorTime(s: seq<Sample>, k: nat, t: real) {
    exists a: nat, b: nat {:trigger IsLapStart(s, k, a), IsLapEnd(s, k, b)} ::
      IsLapStart(s, k, a) && IsLapEnd(s, k, b) &&
      Seconds(s[a]).Ok? && Seconds(s[b]).Ok? && t == Seconds(s[b]).value - Seconds(s[a]).value
  }

  /** The rows of lap k with the smallest and the largest lap distance. */
  method LapExtremes(s: seq<Sample>, k: nat) returns (a: nat, b: nat)
    requires HasLap(s, k)
    ensures IsLapStart(s, k, a) && IsLapEnd(s, k, b)
  {
    var found := false;
    a, b := 0, 0;
    for j := 0 to |s|
      invariant found <==> exists m :: 0 <= m < j && s[m].lap == k
      invariant found ==> a < |s| && s[a].lap == k && b < |s| && s[b].lap == k
      invariant found ==> forall m :: 0 <= m < j && s[m].lap == k ==>
        s[a].row.lapDistance <= s[m].row.lapDistance <= s[b].row.lapDistance
    {
      if s[j].lap == k {
        if !found || s[j].row.lapDistance < s[a].row.lapDistance {
          a := j;
        }
        if !found || s[j].row.lapDistance >= s[b].row.lapDistance {
          b := j;
        }
        found := true;
      }
    }
  }

  /** Reads the lap times of a first and a last row of lap k and subtracts them; fails
      as `time_to_seconds` does on either. */
  method LapSectorTime(s: seq<Sample>, k: nat) returns (r: Result<real, SummaryError>)
    requires HasLap(s, k)
    ensures r.Ok? ==> IsSectorTime(s, k, r.value)
    ensures r.Err? ==> exists j: nat :: (IsLapStart(s, k, j) || IsLapEnd(s, k, j)) && Seconds(s[j]).Err?
  {
    var a, b := LapExtremes(s, k);
    var start, end := Seconds(s[a]), Seconds(s[b]);
    if start.Err? {
      return Err(BadLapTime(k, start.error));
    }
    if end.Err? {
      return Err(BadLapTime(k, end.error));
    }
    return Ok(end.value - start.value);
  }

  /** `initialise_lap_summary`: one row per distinct lap, in order of first appearance,
      whose sector time is the lap time of its last row minus that of its first row by
      lap distance. It fails exactly as `time_to_seconds` does on one of those rows;
      a lap time elsewhere in the lap is never read. */
  method InitialiseLapSummary(s: seq<Sample>) returns (r: Result<seq<LapSummary>, SummaryError>)
    ensures r.Ok? ==> |r.value| == |LapIds(s)|
    ensures r.Ok? ==> forall i :: 0 <= i < |r.value| ==>
      r.value[i] == Fresh(LapIds(s)[i], r.value[i].sectorTime) &&
      IsSectorTime(s, LapIds(s)[i], r.value[i].sectorTime)
    ensures r.Err? ==> exists k: nat, j: nat :: (IsLapStart(s, k, j) || IsLapEnd(s, k, j)) && Seconds(s[j]).Err?
    ensures (forall j :: 0 <= j < |s| ==> Seconds(s[j]).Ok?) ==> r.Ok?
  {
    var ids := LapIds(s);
    LapIdsHaveRows(s);
    assert forall i :: 0 <= i < |ids| ==> ids[i] in ids;
    r := SectorTimes(s, ids);
  }

  /** One summary row per lap of ids, in the order of ids, each with its sector time. */
  method SectorTimes(s: seq<Sample>, ids: seq<nat>) returns (r: Result<seq<LapSummary>, SummaryError>)
    requires forall i :: 0 <= i < |ids| ==> HasLap(s, ids[i])
    ensures r.Ok? ==> |r.value| == |ids|
    ensures r.Ok? ==> forall i :: 0 <= i < |r.value| ==>
      r.value[i] == Fresh(ids[i], r.value[i].sectorTime) && IsSectorTime(s, ids[i], r.value[i].sectorTime)
    ensures r.Err? ==> exists k: nat, j: nat :: (IsLapStart(s, k, j) || IsLapEnd(s, k, j)) && Seconds(s[j]).Err?
    ensures (forall j :: 0 <= j < |s| ==> Seconds(s[j]).Ok?) ==> r.Ok?
  {
    var rows: seq<LapSummary> := [];
    for i := 0 to |ids|
      invariant |rows| == i
      invariant forall m :: 0 <= m < i ==>
        rows[m] == Fresh(ids[m], rows[m].sectorTime) && IsSectorTime(s, ids[m], rows[m].sectorTime)
    {
      var t := LapSectorTime(s, ids[i]);
      if t.Err? {
        return Err(t.error);
      }
      rows := rows + [Fresh(ids[i], t.value)];
    }
    return Ok(rows);
  }

  /** The sector time does not depend on which first and last rows are chosen when
      several share the smallest or the largest lap distance, as long as they read the
      same lap time. */
  lemma SectorTimeDetermined(s: seq<Sample>, k: nat, t: real, start: real, end: real)
    requires IsSectorTime(s, k, t)
    requires forall a: nat :: IsLapStart(s, k, a) ==> Seconds(s[a]) == Ok(start)
    requires forall b: nat :: IsLapEnd(s, k, b) ==> Seconds(s[b]) == Ok(end)
    ensures t == end - start
  {
    var a: nat, b: nat :| IsLapStart(s, k, a) && IsLapEnd(s, k, b) &&
      Seconds(s[a]).Ok? && Seconds(s[b]).Ok? && t == Seconds(s[b]).value - Seconds(s[a]).value;
    assert Seconds(s[a]) == Ok(start);
  }

  // ---------------------------------------------------------------------------
  // Per-lap aggregates

  /** The column a pressure statistic is taken over. */
  datatype Pedal = Brake | Throttle

  function Pressure(r: Row, p: Pedal): real {
    match p
    case Brake => r.brake
    case Throttle => r.throttle
  }

  /** The values of a pressure column on the rows of lap k, in row order. */
  function LapValues(s: seq<Sample>, k: nat, p: Pedal): (v: seq<real>)
    ensures |v| == |LapRows(s, k)|
    ensures forall i :: 0 <= i < |v| ==> v[i] == Pressure(LapRows(s, k)[i].row, p)
    ensures forall x :: x in v <==> exists j :: 0 <= j < |s| && s[j].lap == k && Pressure(s[j].row, p) == x
    ensures |v| == 0 <==> !HasLap(s, k)
  {
    if s == [] then []
    else
      var s' := s[..|s| - 1];
      var last := s[|s| - 1];
      assert forall j :: 0 <= j < |s'| ==> s'[j] == s[j];
      assert LapRows(s, k) == LapRows(s', k) + (if last.lap == k then [last] else []);
      LapValues(s', k, p) + (if last.lap == k then [Pressure(last.row, p)] else [])
  }

  /** `groupby("lap_index")[col].mean()` looked up for lap k: the sum of the column over
      the lap's rows divided by their number; NaN for a lap with no rows. */
  function GroupMean(s: seq<Sample>, k: nat, p: Pedal): (m: Option<real>)
    ensures m.Some? <==> HasLap(s, k)
    ensures m.Some? ==> m.value == Sum(LapValues(s, k, p)) / (|LapRows(s, k)| as real)
  {
    var v := LapValues(s, k, p);
    if |v| == 0 then None else Some(Mean(v))
  }

  /** `groupby("lap_index")[col].max()` looked up for lap k. */
  function GroupMax(s: seq<Sample>, k: nat, p: Pedal): (m: Option<real>)
    ensures m.Some? <==> HasLap(s, k)
    ensures m.Some? ==> exists j :: 0 <= j < |s| && s[j].lap == k && Pressure(s[j].row, p) == m.value
    ensures m.Some? ==> forall j :: 0 <= j < |s| && s[j].lap == k ==> Pressure(s[j].row, p) <= m.value
  {
    var v := LapValues(s, k, p);
    if |v| == 0 then None
    else
      var m := Max(v);
      assert forall j :: 0 <= j < |s| && s[j].lap == k ==> Pressure(s[j].row, p) in v;
      Some(m)
  }

  /** The mean pressure of a lap lies between its smallest and its largest sample, so it
      is at most the peak. */
  lemma AverageBelowPeak(s: seq<Sample>, k: nat, p: Pedal)
    requires HasLap(s, k)
    ensures GroupMean(s, k, p).value <= GroupMax(s, k, p).value
    ensures exists j :: 0 <= j < |s| && s[j].lap == k && Pressure(s[j].row, p) <= GroupMean(s, k, p).value
  {
    var v := LapValues(s, k, p);
    MeanBetweenMinAndMax(v);
    assert Max(v) == GroupMax(s, k, p).value;
    assert Min(v) in v;
  }

  /** The statistic a pressure merge adds. */
  datatype Stat = Avg | Peak

  function PressureStat(s: seq<Sample>, k: nat, p: Pedal, st: Stat): Option<real> {
    match st
    case Avg => GroupMean(s, k, p)
    case Peak => GroupMax(s, k, p)
  }

  /** The summary row with the column for (p, st) set to v. */
  function SetPressure(e: LapSummary, p: Pedal, st: Stat, v: Option<real>): LapSummary {
    match (p, st)
    case (Brake, Avg) => e.(avgBrake := v)
    case (Throttle, Avg) => e.(avgThrottle := v)
    case (Brake, Peak) => e.(peakBrake := v)
    case (Throttle, Peak) => e.(peakThrottle := v)
  }

  function GetPressure(e: LapSummary, p: Pedal, st: Stat): Option<real> {
    match (p, st)
    case (Brake, Avg) => e.avgBrake
    case (Throttle, Avg) => e.avgThrottle
    case (Brake, Peak) => e.peakBrake
    case (Throttle, Peak) => e.peakThrottle
  }

  /** `add_avg_brake_pressure`, `add_avg_throttle_pressure`, `add_peak_brake_pressure`
      and `add_peak_throttle_pressure`: a left merge of the per-lap statistic, which keeps
      every summary row in order and changes only the one column. */
  function AddPressure(summary: seq<LapSummary>, s: seq<Sample>, p: Pedal, st: Stat): (r: seq<LapSummary>)
    ensures |r| == |summary|
    ensures forall i :: 0 <= i < |r| ==>
      r[i] == SetPressure(summary[i], p, st, PressureStat(s, summary[i].lap, p, st)) &&
      GetPressure(r[i], p, st) == PressureStat(s, summary[i].lap, p, st) &&
      r[i].lap == summary[i].lap
  {
    seq(|summary|, i requires 0 <= i < |summary| =>
      SetPressure(summary[i], p, st, PressureStat(s, summary[i].lap, p, st)))
  }

  /** Each row paired with its line distance. */
  function WithColumn(s: seq<Sample>, col: seq<Option<real>>): (z: seq<(Sample, Option<real>)>)
    requires |col| == |s|
    ensures |z| == |s| && forall j :: 0 <= j < |s| ==> z[j] == (s[j], col[j])
  {
    seq(|s|, j requires 0 <= j < |s| => (s[j], col[j]))
  }

  /** A row of lap k whose line distance is present. */
  function PresentOn(k: nat): ((Sample, Option<real>)) -> bool {
    (x: (Sample, Option<real>)) => x.0.lap == k && x.1.Some?
  }

  /** The present line distances of lap k, in row order (`groupby(...).mean()` skips
      NaN). */
  function PresentInLap(s: seq<Sample>, col: seq<Option<real>>, k: nat): (v: seq<real>)
    requires |col| == |s|
    ensures var kept := Filter(WithColumn(s, col), PresentOn(k));
      |v| == |kept| && forall i :: 0 <= i < |v| ==> Some(v[i]) == kept[i].1
    ensures forall x :: x in v <==> exists j :: 0 <= j < |s| && s[j].lap == k && col[j] == Some(x)
  {
    var z := WithColumn(s, col);
    var kept := Filter(z, PresentOn(k));
    var v := seq(|kept|, i requires 0 <= i < |kept| => kept[i].1.value);
    forall x | x in v ensures exists j :: 0 <= j < |s| && s[j].lap == k && col[j] == Some(x) {
      var i :| 0 <= i < |v| && v[i] == x;
      var j :| 0 <= j < |z| && z[j] == kept[i];
    }
    forall j | 0 <= j < |s| && s[j].lap == k && col[j].Some? ensures col[j].value in v {
      assert PresentOn(k)(z[j]);
      var i :| 0 <= i < |kept| && kept[i] == z[j];
      assert v[i] == col[j].value;
    }
    v
  }

  /** The distances whose squares are `sq`: `sqrt` applied to each, in order. */
  function Roots(sq: seq<real>, sqrt: real -> real): (d: seq<real>)
    ensures |d| == |sq|
    ensures forall i :: 0 <= i < |sq| ==> d[i] == sqrt(sq[i])
  {
    seq(|sq|, i requires 0 <= i < |sq| => sqrt(sq[i]))
  }

  /** avg_line_distance of lap k: the line_distance column holds squared distances, so
      each present value is first taken back to a distance with `sqrt`; the mean is the
      sum of those distances divided by their number; NaN when the lap has none. */
  function LineDistanceMean(s: seq<Sample>, col: seq<Option<real>>, k: nat, sqrt: real -> real): (m: Option<real>)
    requires |col| == |s|
    ensures m.Some? <==> exists j :: 0 <= j < |s| && s[j].lap == k && col[j].Some?
    ensures m.Some? ==>
      (m.value == Sum(Roots(PresentInLap(s, col, k), sqrt)) / (|Filter(WithColumn(s, col), PresentOn(k))| as real))
  {
    var v := PresentInLap(s, col, k);
    assert forall j :: 0 <= j < |s| && s[j].lap == k && col[j].Some? ==> col[j].value in v;
    assert |v| > 0 ==> v[0] in v;
    if |v| == 0 then None
    else Some(Mean(Roots(v, sqrt)))
  }

  /** The mean deviation of a lap lies within any bounds that hold for the distances of
      its present rows. */
  lemma LineDistanceMeanBounds(s: seq<Sample>, col: seq<Option<real>>, k: nat, sqrt: real -> real, lo: real, hi: real)
    requires |col| == |s|
    requires forall j :: 0 <= j < |s| && s[j].lap == k && col[j].Some? ==> lo <= sqrt(col[j].value) <= hi
    requires LineDistanceMean(s, col, k, sqrt).Some?
    ensures lo <= LineDistanceMean(s, col, k, sqrt).value <= hi
  {
    var v := PresentInLap(s, col, k);
    var d := Roots(v, sqrt);
    forall x | x in d ensures lo <= x <= hi {
      var i :| 0 <= i < |d| && d[i] == x;
      assert v[i] in v;
    }
    MeanBounds(d, lo, hi);
  }

  /** A lap whose present rows all lie on the racing line (squared distance 0) has mean
      deviation 0, and one with a row off the line has a positive mean: the mean is of
      distances, so no row is weighted by its own distance. */
  lemma LineDistanceMeanZero(s: seq<Sample>, col: seq<Option<real>>, k: nat, sqrt: real -> real)
    requires |col| == |s| && IsSqrt(sqrt)
    requires forall j :: 0 <= j < |s| && s[j].lap == k && col[j].Some? ==> col[j].value >= 0.0
    requires LineDistanceMean(s, col, k, sqrt).Some?
    ensures LineDistanceMean(s, col, k, sqrt).value == 0.0 <==>
      forall j :: 0 <= j < |s| && s[j].lap == k && col[j].Some? ==> col[j].value == 0.0
  {
    var v := PresentInLap(s, col, k);
    RootsOfSquares(v, sqrt);
    var d := Roots(v, sqrt);
    if forall j :: 0 <= j < |s| && s[j].lap == k && col[j].Some? ==> col[j].value == 0.0 {
      assert forall x :: x in v ==> x == 0.0;
      MeanBounds(d, 0.0, 0.0);
    } else {
      var j :| 0 <= j < |s| && s[j].lap == k && col[j].Some? && col[j].value != 0.0;
      assert col[j].value in v;
      var i :| 0 <= i < |v| && v[i] == col[j].value;
      MeanPositive(d, i);
    }
  }

  /** The roots of non-negative squares are non-negative, and zero exactly for zero. */
  lemma RootsOfSquares(v: seq<real>, sqrt: real -> real)
    requires IsSqrt(sqrt)
    requires forall x :: x in v ==> x >= 0.0
    ensures forall i :: 0 <= i < |v| ==> Roots(v, sqrt)[i] >= 0.0 && (Roots(v, sqrt)[i] == 0.0 <==> v[i] == 0.0)
    ensures forall x :: x in Roots(v, sqrt) ==> x >= 0.0
    ensures (forall x :: x in v ==> x == 0.0) ==> forall x :: x in Roots(v, sqrt) ==> x == 0.0
  {
    var d := Roots(v, sqrt);
    forall i | 0 <= i < |v| ensures d[i] >= 0.0 && (d[i] == 0.0 <==> v[i] == 0.0) {
      assert v[i] in v;
      assert v[i] >= 0.0;
      assert d[i] == sqrt(v[i]);
      assert d[i] >= 0.0;
      assert d[i] == 0.0 <==> v[i] == 0.0;
    }
    forall x | x in d ensures exists i :: 0 <= i < |v| && x == d[i] {
      var i :| 0 <= i < |d| && d[i] == x;
    }
    if forall x :: x in v ==> x == 0.0 {
      forall x | x in d ensures x == 0.0 {
        var i :| 0 <= i < |d| && d[i] == x;
        assert v[i] in v;
      }
    }
  }

  /** `avg_line_distance`: a left merge of the per-lap mean of the line_distance
      column. */
  function AddAvgLineDistance(summary: seq<LapSummary>, s: seq<Sample>, col: seq<Option<real>>, sqrt: real -> real): (r: seq<LapSummary>)
    requires |col| == |s|
    ensures |r| == |summary|
    ensures forall i :: 0 <= i < |r| ==>
      r[i] == summary[i].(avgLineDistance := LineDistanceMean(s, col, summary[i].lap, sqrt))
  {
    seq(|summary|, i requires 0 <= i < |summary| =>
      summary[i].(avgLineDistance := LineDistanceMean(s, col, summary[i].lap, sqrt)))
  }

  // ---------------------------------------------------------------------------
  // Lookup tables and merges

  /** The value stored for key k in a table of (lap_index, value) rows; None when no row
      has that key. */
  function Lookup<V>(table: seq<(nat, V)>, k: nat): (r: Option<V>)
    ensures r.None? <==> forall i :: 0 <= i < |table| ==> table[i].0 != k
    ensures r.Some? ==> exists i :: 0 <= i < |table| && table[i] == (k, r.value)
  {
    if table == [] then None
    else if table[0].0 == k then Some(table[0].1)
    else
      var r := Lookup(table[1..], k);
      assert forall i :: 0 <= i < |table| - 1 ==> table[1..][i] == table[i + 1];
      r
  }

  /** A table with one row (k, f(k)) per lap of `ids` answers f(k) for those laps and
      nothing for the rest. */
  lemma LookupTable<V>(table: seq<(nat, V)>, ids: seq<nat>, f: nat -> V, k: nat)
    requires |table| == |ids|
    requires forall i :: 0 <= i < |ids| ==> table[i] == (ids[i], f(ids[i]))
    ensures Lookup(table, k) == if k in ids then Some(f(k)) else None
  {
    if k in ids {
      var i :| 0 <= i < |ids| && ids[i] == k;
      assert table[i].0 == k;
    }
  }

  // ---------------------------------------------------------------------------
  // Nearest approach to each apex

  /** No row has a missing coordinate, as the k-d tree requires. */
  predicate AllPositioned(s: seq<Sample>) {
    forall j :: 0 <= j < |s| ==> Position(s[j].row).Some?
  }

  /** The positions of the rows of lap k, in row order. */
  function LapPoints(s: seq<Sample>, k: nat): (pts: seq<Point>)
    ensures forall p :: p in pts <==> exists j :: 0 <= j < |s| && s[j].lap == k && Position(s[j].row) == Some(p)
  {
    if s == [] then []
    else
      var s' := s[..|s| - 1];
      var last := s[|s| - 1];
      assert forall j :: 0 <= j < |s'| ==> s'[j] == s[j];
      LapPoints(s', k) +
        (if last.lap == k && Position(last.row).Some? then [Position(last.row).value] else [])
  }

  /** dist_to_apex1 and dist_to_apex2 of lap k (squared). */
  function ApexDistances(s: seq<Sample>, k: nat): (Option<real>, Option<real>) {
    (NearestDistSq(LapPoints(s, k), Telemetry.T1Apex), NearestDistSq(LapPoints(s, k), Telemetry.T2Apex))
  }

  /** The apex distances of a lap are the smallest squared distance from the apex to one
      of the lap's own points: no point of the lap is nearer, and one is exactly that
      far. */
  lemma ApexDistanceIsNearest(s: seq<Sample>, k: nat, j: nat)
    requires AllPositioned(s) && j < |s| && s[j].lap == k
    ensures ApexDistances(s, k).0.Some? && ApexDistances(s, k).1.Some?
    ensures ApexDistances(s, k).0.value <= DistSq(Position(s[j].row).value, Telemetry.T1Apex)
    ensures ApexDistances(s, k).1.value <= DistSq(Position(s[j].row).value, Telemetry.T2Apex)
    ensures exists i, m :: (0 <= i < |s| && s[i].lap == k && 0 <= m < |s| && s[m].lap == k &&
      ApexDistances(s, k).0.value == DistSq(Position(s[i].row).value, Telemetry.T1Apex) &&
      ApexDistances(s, k).1.value == DistSq(Position(s[m].row).value, Telemetry.T2Apex))
  {
    var pts := LapPoints(s, k);
    var p := Position(s[j].row).value;
    assert p in pts;
    var a := IndexOf(pts, p);
    var d1, d2 := ApexDistances(s, k).0.value, ApexDistances(s, k).1.value;
    assert d1 <= DistSq(pts[a], Telemetry.T1Apex);
    assert d2 <= DistSq(pts[a], Telemetry.T2Apex);
    var u :| 0 <= u < |pts| && d1 == DistSq(pts[u], Telemetry.T1Apex);
    var w :| 0 <= w < |pts| && d2 == DistSq(pts[w], Telemetry.T2Apex);
    assert pts[u] in pts && pts[w] in pts;
    var i :| 0 <= i < |s| && s[i].lap == k && Position(s[i].row) == Some(pts[u]);
    var m :| 0 <= m < |s| && s[m].lap == k && Position(s[m].row) == Some(pts[w]);
  }

  /** The inner merge of the apex table: rows of laps present in the telemetry get the
      two distances; rows of other laps are dropped. */
  function ApexMerge(summary: seq<LapSummary>, s: seq<Sample>): (r: seq<LapSummary>)
    ensures |r| <= |summary|
    ensures forall i :: 0 <= i < |r| ==> HasLap(s, r[i].lap)
  {
    if summary == [] then []
    else
      var e := summary[|summary| - 1];
      ApexMerge(summary[..|summary| - 1], s) +
        (if HasLap(s, e.lap) then
           [e.(distToApex1 := ApexDistances(s, e.lap).0, distToApex2 := ApexDistances(s, e.lap).1)]
         else [])
  }

  /** When every summary row is a lap of the telemetry (as after
      `initialise_lap_summary`), the inner merge keeps every row, in order. */
  lemma {:induction false} ApexMergeKeepsRows(summary: seq<LapSummary>, s: seq<Sample>)
    requires forall i :: 0 <= i < |summary| ==> HasLap(s, summary[i].lap)
    ensures |ApexMerge(summary, s)| == |summary|
    ensures forall i :: 0 <= i < |summary| ==>
      ApexMerge(summary, s)[i] == summary[i].(distToApex1 := ApexDistances(s, summary[i].lap).0,
                                             distToApex2 := ApexDistances(s, summary[i].lap).1)
  {
    if summary != [] {
      ApexMergeKeepsRows(summary[..|summary| - 1], s);
    }
  }

  /** The apex table, one (lap, distances) row per distinct lap. */
  method ApexTable(s: seq<Sample>) returns (table: seq<(nat, (Option<real>, Option<real>))>)
    ensures |table| == |LapIds(s)|
    ensures forall i :: 0 <= i < |table| ==> table[i] == (LapIds(s)[i], ApexDistances(s, LapIds(s)[i]))
  {
    var ids := LapIds(s);
    table := [];
    for i := 0 to |ids|
      invariant |table| == i
      invariant forall m :: 0 <= m < i ==> table[m] == (ids[m], ApexDistances(s, ids[m]))
    {
      table := table + [(ids[i], ApexDistances(s, ids[i]))];
    }
  }

  /** `min_apex_distance`: fails when a coordinate is missing; otherwise the inner merge
      of the apex table. */
  method MinApexDistance(summary: seq<LapSummary>, s: seq<Sample>) returns (r: Result<seq<LapSummary>, SummaryError>)
    ensures r.Err? <==> !AllPositioned(s)
    ensures r.Ok? ==> r.value == ApexMerge(summary, s)
  {
    if exists j :: 0 <= j < |s| && Position(s[j].row).None? {
      return Err(NonFinitePosition);
    }
    var table := ApexTable(s);
    forall k ensures Lookup(table, k) == if HasLap(s, k) then Some(ApexDistances(s, k)) else None {
      ApexLookup(table, s, k);
    }
    var out := MergeApexTable(summary, s, table);
    return Ok(out);
  }

  /** The inner merge of the summary with a table that answers each lap's apex
      distances: the summary rows whose lap has rows, in order, with the distances set. */
  method MergeApexTable(summary: seq<LapSummary>, s: seq<Sample>, table: seq<(nat, (Option<real>, Option<real>))>)
    returns (out: seq<LapSummary>)
    requires forall k :: Lookup(table, k) == if HasLap(s, k) then Some(ApexDistances(s, k)) else None
    ensures out == ApexMerge(summary, s)
  {
    out := [];
    for i := 0 to |summary|
      invariant out == ApexMerge(summary[..i], s)
    {
      var e := summary[i];
      ApexMergeSnoc(summary, s, i);
      match Lookup(table, e.lap)
      case Some(d) =>
        out := out + [e.(distToApex1 := d.0, distToApex2 := d.1)];
      case None =>
    }
    assert summary[..|summary|] == summary;
  }

  /** The apex table answers a lap's distances when the lap has rows, nothing
      otherwise. */
  lemma ApexLookup(table: seq<(nat, (Option<real>, Option<real>))>, s: seq<Sample>, k: nat)
    requires |table| == |LapIds(s)|
    requires forall i :: 0 <= i < |table| ==> table[i] == (LapIds(s)[i], ApexDistances(s, LapIds(s)[i]))
    ensures Lookup(table, k) == if HasLap(s, k) then Some(ApexDistances(s, k)) else None
  {
    LookupTable(table, LapIds(s), k => ApexDistances(s, k), k);
    LapIdsHaveRows(s);
  }

  lemma ApexMergeSnoc(summary: seq<LapSummary>, s: seq<Sample>, i: nat)
    requires i < |summary|
    ensures ApexMerge(summary[..i + 1], s) == ApexMerge(summary[..i], s) +
      (if HasLap(s, summary[i].lap) then
         [summary[i].(distToApex1 := ApexDistances(s, summary[i].lap).0,
                      distToApex2 := ApexDistances(s, summary[i].lap).1)]
       else [])
  {
    assert summary[..i + 1][..i] == summary[..i];
  }

  // ---------------------------------------------------------------------------
  // First braking and turning points

  /** Brake and steer thresholds; both tests are strict. */
  const BrakeThreshold: real := 0.2
  const TurnThreshold: real := 0.2

  datatype Criterion = Braking | Turning

  function Abs(x: real): (r: real)
    ensures r >= 0.0 && (r == x || r == -x)
  {
    if x < 0.0 then -x else x
  }

  /** The value reported for a row: the brake, or the signed steer. */
  function Reading(r: Row, c: Criterion): real {
    match c
    case Braking => r.brake
    case Turning => r.steer
  }

  predicate Over(r: Row, c: Criterion) {
    match c
    case Braking => r.brake > BrakeThreshold
    case Turning => Abs(r.steer) > TurnThreshold
  }

  function Hit(k: nat, c: Criterion): Sample -> bool {
    (x: Sample) => x.lap == k && Over(x.row, c)
  }

  /** The row reported for lap k: the first row of the lap over the threshold, in row
      order (not in lap-distance order); (NaN, NaN, 0) when there is none. */
  function FirstOver(s: seq<Sample>, k: nat, c: Criterion): FirstPoint {
    match FirstWhere(s, Hit(k, c))
    case None => FirstPoint(None, None, 0.0)
    case Some(j) => FirstPoint(s[j].row.x, s[j].row.y, Reading(s[j].row, c))
  }

  /** The first point of lap k is the earliest row of the lap over the threshold, and
      carries its position and reading; when no row of the lap is over, the reading is
      0 and the position NaN. */
  lemma FirstOverSpec(s: seq<Sample>, k: nat, c: Criterion)
    ensures (exists j :: 0 <= j < |s| && s[j].lap == k && Over(s[j].row, c)) ==>
      exists j :: 0 <= j < |s| && s[j].lap == k && Over(s[j].row, c) &&
        (forall m :: 0 <= m < j && s[m].lap == k ==> !Over(s[m].row, c)) &&
        FirstOver(s, k, c) == FirstPoint(s[j].row.x, s[j].row.y, Reading(s[j].row, c))
    ensures (forall j :: 0 <= j < |s| && s[j].lap == k ==> !Over(s[j].row, c)) ==>
      FirstOver(s, k, c) == FirstPoint(None, None, 0.0)
  {
    var h := Hit(k, c);
    match FirstWhere(s, h)
    case None =>
    case Some(j) =>
      assert h(s[j]);
      forall m | 0 <= m < j && s[m].lap == k
        ensures !Over(s[m].row, c)
      {
        assert !h(s[m]);
      }
  }

  /** A lap brakes over the threshold exactly when its reported brake pressure is over
      the threshold; a lap turns exactly when the reported steer, which keeps its sign,
      is over the threshold in size. */
  lemma ReadingOverIff(s: seq<Sample>, k: nat, c: Criterion)
    ensures c == Braking ==>
      (FirstOver(s, k, c).value > BrakeThreshold <==>
       exists j :: 0 <= j < |s| && s[j].lap == k && s[j].row.brake > BrakeThreshold)
    ensures c == Turning ==>
      (Abs(FirstOver(s, k, c).value) > TurnThreshold <==>
       exists j :: 0 <= j < |s| && s[j].lap == k && Abs(s[j].row.steer) > TurnThreshold)
  {
    FirstOverSpec(s, k, c);
  }

  /** The table of first points, one row per distinct lap. */
  method FirstPointTable(s: seq<Sample>, c: Criterion) returns (table: seq<(nat, FirstPoint)>)
    ensures |table| == |LapIds(s)|
    ensures forall i :: 0 <= i < |table| ==> table[i] == (LapIds(s)[i], FirstOver(s, LapIds(s)[i], c))
  {
    var ids := LapIds(s);
    table := [];
    for i := 0 to |ids|
      invariant |table| == i
      invariant forall m :: 0 <= m < i ==> table[m] == (ids[m], FirstOver(s, ids[m], c))
    {
      var point := FirstPointOfLap(s, ids[i], c);
      table := table + [(ids[i], point)];
    }
  }

  /** Scans the rows in order for the first row of lap k over the threshold. */
  method FirstPointOfLap(s: seq<Sample>, k: nat, c: Criterion) returns (point: FirstPoint)
    ensures point == FirstOver(s, k, c)
  {
    var j := 0;
    while j < |s| && !(s[j].lap == k && Over(s[j].row, c))
      invariant j <= |s|
      invariant forall m :: 0 <= m < j ==> !Hit(k, c)(s[m])
    {
      j := j + 1;
    }
    FirstOverAt(s, k, c, j);
    if j == |s| {
      point := FirstPoint(None, None, 0.0);
    } else {
      point := FirstPoint(s[j].row.x, s[j].row.y, Reading(s[j].row, c));
    }
  }

  lemma FirstOverAt(s: seq<Sample>, k: nat, c: Criterion, j: nat)
    requires j <= |s|
    requires forall m :: 0 <= m < j ==> !Hit(k, c)(s[m])
    requires j < |s| ==> Hit(k, c)(s[j])
    ensures FirstWhere(s, Hit(k, c)) == if j == |s| then None else Some(j)
  {
  }

  /** `first_braking_point` / `first_turning_point`: the left merge of the first-point
      table, which keeps every summary row in order. */
  method AddFirstPoints(summary: seq<LapSummary>, s: seq<Sample>, c: Criterion) returns (r: seq<LapSummary>)
    ensures |r| == |summary|
    ensures forall i :: 0 <= i < |r| ==>
      r[i] == SetFirst(summary[i], c, if HasLap(s, summary[i].lap) then Some(FirstOver(s, summary[i].lap, c)) else None)
  {
    var table := FirstPointTable(s, c);
    r := [];
    for i := 0 to |summary|
      invariant |r| == i
      invariant forall m :: 0 <= m < i ==>
        r[m] == SetFirst(summary[m], c, if HasLap(s, summary[m].lap) then Some(FirstOver(s, summary[m].lap, c)) else None)
    {
      FirstPointLookup(table, s, c, summary[i].lap);
      r := r + [SetFirst(summary[i], c, Lookup(table, summary[i].lap))];
    }
  }

  /** The first-point table answers a lap's first point when the lap has rows, nothing
      otherwise. */
  lemma FirstPointLookup(table: seq<(nat, FirstPoint)>, s: seq<Sample>, c: Criterion, k: nat)
    requires |table| == |LapIds(s)|
    requires forall i :: 0 <= i < |table| ==> table[i] == (LapIds(s)[i], FirstOver(s, LapIds(s)[i], c))
    ensures Lookup(table, k) == if HasLap(s, k) then Some(FirstOver(s, k, c)) else None
  {
    LookupTable(table, LapIds(s), k => FirstOver(s, k, c), k);
    LapIdsHaveRows(s);
  }

  function SetFirst(e: LapSummary, c: Criterion, v: Option<FirstPoint>): LapSummary {
    match c
    case Braking => e.(brakePoint := v)
    case Turning => e.(turnPoint := v)
  }

  // ---------------------------------------------------------------------------
  // The summary stage

  /** The summary row for lap e.lap with every merged column filled in as the stages
      define it. */
  function Columns(e: LapSummary, s: seq<Sample>, col: seq<Option<real>>, sqrt: real -> real): LapSummary
    requires |col| == |s|
  {
    var k := e.lap;
    e.(avgLineDistance := LineDistanceMean(s, col, k, sqrt),
       distToApex1 := ApexDistances(s, k).0,
       distToApex2 := ApexDistances(s, k).1,
       avgBrake := GroupMean(s, k, Brake),
       avgThrottle := GroupMean(s, k, Throttle),
       peakBrake := GroupMax(s, k, Brake),
       peakThrottle := GroupMax(s, k, Throttle),
       brakePoint := Some(FirstOver(s, k, Braking)),
       turnPoint := Some(FirstOver(s, k, Turning)))
  }

  /** e is the complete summary row of lap k. */
  ghost predicate Summarises(e: LapSummary, s: seq<Sample>, col: seq<Option<real>>, sqrt: real -> real, k: nat)
    requires |col| == |s|
  {
    IsSectorTime(s, k, e.sectorTime) && e == Columns(Fresh(k, e.sectorTime), s, col, sqrt)
  }

  /** The four pressure merges in the order `summary_eng` applies them. */
  function AddPressures(summary: seq<LapSummary>, s: seq<Sample>): (r: seq<LapSummary>)
    ensures |r| == |summary|
    ensures forall i :: 0 <= i < |r| ==> r[i] == summary[i].(
      avgBrake := GroupMean(s, summary[i].lap, Brake),
      avgThrottle := GroupMean(s, summary[i].lap, Throttle),
      peakBrake := GroupMax(s, summary[i].lap, Brake),
      peakThrottle := GroupMax(s, summary[i].lap, Throttle))
  {
    var a := AddPressure(summary, s, Brake, Avg);
    var b := AddPressure(a, s, Throttle, Avg);
    var c := AddPressure(b, s, Brake, Peak);
    AddPressure(c, s, Throttle, Peak)
  }

  /** The two first-point merges, on laps that all have rows. */
  method AddBothFirstPoints(summary: seq<LapSummary>, s: seq<Sample>) returns (r: seq<LapSummary>)
    requires forall i :: 0 <= i < |summary| ==> HasLap(s, summary[i].lap)
    ensures |r| == |summary|
    ensures forall i :: 0 <= i < |r| ==> r[i] == summary[i].(
      brakePoint := Some(FirstOver(s, summary[i].lap, Braking)),
      turnPoint := Some(FirstOver(s, summary[i].lap, Turning)))
  {
    var a := AddFirstPoints(summary, s, Braking);
    r := AddFirstPoints(a, s, Turning);
  }

  /** The line-distance and apex merges; with every lap present the inner merge keeps
      every row. */
  method AddDistances(summary: seq<LapSummary>, s: seq<Sample>, col: seq<Option<real>>, sqrt: real -> real)
    returns (r: Result<seq<LapSummary>, SummaryError>)
    requires |col| == |s|
    requires forall i :: 0 <= i < |summary| ==> HasLap(s, summary[i].lap)
    ensures r.Err? <==> !AllPositioned(s)
    ensures r.Ok? ==> |r.value| == |summary|
    ensures r.Ok? ==> forall i :: 0 <= i < |summary| ==> r.value[i] == summary[i].(
      avgLineDistance := LineDistanceMean(s, col, summary[i].lap, sqrt),
      distToApex1 := ApexDistances(s, summary[i].lap).0,
      distToApex2 := ApexDistances(s, summary[i].lap).1)
  {
    var lined := AddAvgLineDistance(summary, s, col, sqrt);
    r := MinApexDistance(lined, s);
    if r.Ok? {
      ApexMergeKeepsRows(lined, s);
    }
  }

  /** Every merge after `initialise_lap_summary`, on rows whose laps all have
      telemetry: fails only on a missing coordinate, and otherwise fills in every column
      of every row, keeping the rows in order. */
  method AddColumns(started: seq<LapSummary>, s: seq<Sample>, col: seq<Option<real>>, sqrt: real -> real)
    returns (r: Result<seq<LapSummary>, SummaryError>)
    requires |col| == |s|
    requires forall i :: 0 <= i < |started| ==> HasLap(s, started[i].lap)
    ensures r.Err? <==> !AllPositioned(s)
    ensures r.Ok? ==> |r.value| == |started|
    ensures r.Ok? ==> forall i :: 0 <= i < |started| ==> r.value[i] == Columns(started[i], s, col, sqrt)
  {
    var placed := AddDistances(started, s, col, sqrt);
    if placed.Err? {
      return placed;
    }
    var pressed := AddPressures(placed.value, s);
    var summary := AddBothFirstPoints(pressed, s);
    forall i | 0 <= i < |started|
      ensures summary[i] == Columns(started[i], s, col, sqrt)
    {
      assert placed.value[i].lap == started[i].lap;
    }
    return Ok(summary);
  }

  /** `summary_eng`: the summary has one row per distinct lap, in order of first
      appearance, each carrying every per-lap column; it fails when a start or end lap
      time does not parse or a coordinate is missing. */
  method SummaryEng(s: seq<Sample>, col: seq<Option<real>>, sqrt: real -> real) returns (r: Result<seq<LapSummary>, SummaryError>)
    requires |col| == |s|
    ensures r.Ok? ==> AllPositioned(s) && |r.value| == |LapIds(s)|
    ensures r.Ok? ==> forall i :: 0 <= i < |r.value| ==> Summarises(r.value[i], s, col, sqrt, LapIds(s)[i])
    ensures AllPositioned(s) && (forall j :: 0 <= j < |s| ==> Seconds(s[j]).Ok?) ==> r.Ok?
  {
    var init := InitialiseLapSummary(s);
    if init.Err? {
      return init;
    }
    InitialRowsHaveLaps(s, init.value);
    r := AddColumns(init.value, s, col, sqrt);
  }

  lemma InitialRowsHaveLaps(s: seq<Sample>, started: seq<LapSummary>)
    requires |started| == |LapIds(s)|
    requires forall i :: 0 <= i < |started| ==> started[i].lap == LapIds(s)[i]
    ensures forall i :: 0 <= i < |started| ==> HasLap(s, started[i].lap)
  {
    LapIdsHaveRows(s);
    forall i | 0 <= i < |started| ensures HasLap(s, started[i].lap) {
      assert LapIds(s)[i] in LapIds(s);
    }
  }
}
