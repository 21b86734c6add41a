/** One telemetry frame as the pipeline sees it, and the lap-indexed sample that
    `re_index` produces from it. */
module Rows {
  import opened Wrappers
  import opened Geometry
  import opened Seqs

  /** The columns of one telemetry frame that the core reads. A position that pandas
      would hold as NaN is None; the other numeric columns are always present. */
  datatype Row = Row(
    session: int,            // M_SESSIONUID
    lapNum: int,             // M_CURRENTLAPNUM
    trackId: int,            // M_TRACKID
    rTrackId: int,           // R_TRACKID
    lapInvalid: int,         // M_LAPINVALID
    currentLapInvalid: int,  // M_CURRENTLAPINVALID_1
    driverStatus: int,       // M_DRIVERSTATUS_1
    x: Option<real>,         // M_WORLDPOSITIONX_1
    y: Option<real>,         // M_WORLDPOSITIONY_1
    z: Option<real>,         // M_WORLDPOSITIONZ_1
    timeMs: real,            // M_CURRENTLAPTIMEINMS_1
    lapTime: string,         // CURRENTLAPTIME, "M:SS.sss"
    lapDistance: real,       // M_LAPDISTANCE_1
    throttle: real,          // M_THROTTLE_1
    brake: real,             // M_BRAKE_1
    steer: real,             // M_STEER_1
    wheelAngle: Option<real>,// M_FRONTWHEELSANGLE, degrees
    fwdX: real,              // M_WORLDFORWARDDIRX_1
    fwdY: real,              // M_WORLDFORWARDDIRY_1
    turn: int,               // TURN
    speed: real)             // M_SPEED_1

  /** A row together with the `lap_index` column that `re_index` adds. */
  datatype Sample = Sample(lap: nat, row: Row)

  /** The (session, lap number) pair that identifies a lap before re-indexing. */
  function LapKey(r: Row): (int, int) {
    (r.session, r.lapNum)
  }

  /** Lexicographic order on (session, lap number) pairs. */
  predicate KeyLt(a: (int, int), b: (int, int)) {
    a.0 < b.0 || (a.0 == b.0 && a.1 < b.1)
  }

  /** The planar position of a row; None when X or Y is missing. */
  function Position(r: Row): (p: Option<Point>)
    ensures p.Some? <==> r.x.Some? && r.y.Some?
    ensures p.Some? ==> p.value == Point(r.x.value, r.y.value)
  {
    if r.x.Some? && r.y.Some? then Some(Point(r.x.value, r.y.value)) else None
  }

  /** The rows of lap k, in row order (`df[df["lap_index"] == k]`). */
  function LapRows(s: seq<Sample>, k: nat): (r: seq<Sample>)
    ensures forall i :: 0 <= i < |r| ==> r[i].lap == k
  {
    Filter(s, OnLap(k))
  }

  /** Membership of a sample in lap k, as a selection mask. */
  function OnLap(k: nat): Sample -> bool {
    (x: Sample) => x.lap == k
  }

  /** The lap_index column. */
  function Laps(s: seq<Sample>): (r: seq<nat>)
    ensures |r| == |s|
    ensures forall i :: 0 <= i < |s| ==> r[i] == s[i].lap
  {
    seq(|s|, i requires 0 <= i < |s| => s[i].lap)
  }

  /** The distinct lap indices in order of first appearance (`df["lap_index"].unique()`). */
  function LapIds(s: seq<Sample>): (r: seq<nat>)
    ensures NoDup(r)
    ensures forall k :: k in r <==> exists i :: 0 <= i < |s| && s[i].lap == k
    ensures FirstAppearanceOrder(Laps(s), r)
  {
    var ls := Laps(s);
    assert forall i :: 0 <= i < |s| ==> ls[i] == s[i].lap;
    Dedupe(ls)
  }
}
