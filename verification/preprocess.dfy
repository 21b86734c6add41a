/** The stand-alone preprocessing of the exploratory analysis (`preprocess_f1_data`): row
    filters, a sort by (session, lap, lap time), the exit speed of turn 2 as the target,
    velocities and G-forces recomputed per (session, lap) pair, the wheel-angle refill, and
    the column drops. Then `optimize_target_variable`'s filter on the target. */
module Preprocess {
  import opened Wrappers
  import opened Seqs
  import opened Rows
  import opened Sorting
  import opened Kinematics
  import opened Cleaning
  import Telemetry

  // ---------------------------------------------------------------------------
  // Row filters

  function OnMelbourne(r: Row): bool {
    r.trackId == 0 && r.rTrackId == 0
  }

  function ValidLap(r: Row): bool {
    r.currentLapInvalid == 0 && r.lapInvalid == 0
  }

  function Racing(r: Row): bool {
    r.driverStatus == 1
  }

  function HasXYZ(r: Row): bool {
    r.x.Some? && r.y.Some? && r.z.Some?
  }

  function NonNegativeDistance(r: Row): bool {
    r.lapDistance >= 0.0
  }

  function InTurns(r: Row): bool {
    r.turn == 1 || r.turn == 2
  }

  /** A row every filter of `preprocess_f1_data` keeps. */
  predicate KeepEda(r: Row) {
    OnMelbourne(r) && ValidLap(r) && Racing(r) && HasXYZ(r) && NonNegativeDistance(r) && InTurns(r)
  }

  /** The sort key (M_SESSIONUID, M_CURRENTLAPNUM, M_CURRENTLAPTIMEINMS_1). */
  function EdaKey(r: Row): SortKey {
    SortKey(r.session, r.lapNum, r.timeMs)
  }

  // ---------------------------------------------------------------------------
  // The target: exit speed of turn 2

  function TurnTwoOf(k: (int, int)): Row -> bool {
    (r: Row) => LapKey(r) == k && r.turn == 2
  }

  /** exit_T2_speed of the (session, lap) pair k: the speed of the pair's last TURN == 2
      row in row order (`groupby(...).last()`); NaN (None) when the pair has no such
      row. */
  function ExitT2Speed(s: seq<Row>, k: (int, int)): (e: Option<real>)
    ensures e.None? <==> forall j :: 0 <= j < |s| ==> !(LapKey(s[j]) == k && s[j].turn == 2)
    ensures e.Some? ==> exists j :: (0 <= j < |s| && LapKey(s[j]) == k && s[j].turn == 2 &&
      s[j].speed == e.value &&
      forall m :: j < m < |s| ==> !(LapKey(s[m]) == k && s[m].turn == 2))
  {
    var p := TurnTwoOf(k);
    match LastWhere(s, p)
    case None =>
      assert forall j :: 0 <= j < |s| ==> !p(s[j]);
      None
    case Some(j) =>
      assert p(s[j]);
      assert forall m :: j < m < |s| ==> !p(s[m]);
      Some(s[j].speed)
  }

  /** The left merge of the per-pair target back onto the rows: one value per row, the
      row count unchanged. */
  function ExitColumn(s: seq<Row>): (c: seq<Option<real>>)
    ensures |c| == |s|
    ensures forall i :: 0 <= i < |s| ==> c[i] == ExitT2Speed(s, LapKey(s[i]))
  {
    seq(|s|, i requires 0 <= i < |s| => ExitT2Speed(s, LapKey(s[i])))
  }

  // ---------------------------------------------------------------------------
  // Columns of the sorted rows

  function XOf(s: seq<Row>): (c: seq<Option<real>>)
    ensures |c| == |s| && forall i :: 0 <= i < |s| ==> c[i] == s[i].x
  {
    seq(|s|, i requires 0 <= i < |s| => s[i].x)
  }

  function YOf(s: seq<Row>): (c: seq<Option<real>>)
    ensures |c| == |s| && forall i :: 0 <= i < |s| ==> c[i] == s[i].y
  {
    seq(|s|, i requires 0 <= i < |s| => s[i].y)
  }

  function ZOf(s: seq<Row>): (c: seq<Option<real>>)
    ensures |c| == |s| && forall i :: 0 <= i < |s| ==> c[i] == s[i].z
  {
    seq(|s|, i requires 0 <= i < |s| => s[i].z)
  }

  function TimeOf(s: seq<Row>): (c: seq<real>)
    ensures |c| == |s| && forall i :: 0 <= i < |s| ==> c[i] == s[i].timeMs
  {
    seq(|s|, i requires 0 <= i < |s| => s[i].timeMs)
  }

  function WheelOf(s: seq<Row>): (c: seq<Option<real>>)
    ensures |c| == |s| && forall i :: 0 <= i < |s| ==> c[i] == s[i].wheelAngle
  {
    seq(|s|, i requires 0 <= i < |s| => s[i].wheelAngle)
  }

  // ---------------------------------------------------------------------------
  // Refill: interpolation per pair, then ffill and bfill over the whole column

  /** `groupby(pair)[v].transform(interpolate).ffill().bfill()`: the fills after the
      transform run over the whole column, so they can carry a value across pairs. */
  function Refill<K(==)>(key: seq<K>, v: seq<Option<real>>): (w: seq<Option<real>>)
    requires |v| == |key|
    ensures |w| == |key|
  {
    BFill(FFill(InterpolateColumn(key, v)))
  }

  /** A present value survives the refill. */
  lemma RefillKeepsPresent<K>(key: seq<K>, v: seq<Option<real>>, i: nat)
    requires |v| == |key| && i < |key| && v[i].Some?
    ensures Refill(key, v)[i] == v[i]
  {
    FillKeepsPresent(key, v, i);
    ColumnFillKeepsPresent(InterpolateColumn(key, v), i);
  }

  /** The column-wide fills only copy values, so bounds on the present values carry
      over. */
  lemma ColumnFillBounded(w: seq<Option<real>>, lo: real, hi: real)
    requires forall j :: 0 <= j < |w| && w[j].Some? ==> lo <= w[j].value <= hi
    ensures forall i :: 0 <= i < |w| && BFill(FFill(w))[i].Some? ==> lo <= BFill(FFill(w))[i].value <= hi
  {
    var f := FFill(w);
    forall i | 0 <= i < |w| && f[i].Some?
      ensures lo <= f[i].value <= hi
    {
      var j := LastPresent(w, i + 1).value;
      assert f[i] == w[j];
    }
    forall i | 0 <= i < |w| && BFill(f)[i].Some?
      ensures lo <= BFill(f)[i].value <= hi
    {
      var j := FirstPresent(f, i).value;
      assert BFill(f)[i] == f[j];
    }
  }

  /** Bounds on the present values carry over to every refilled value. */
  lemma RefillBounded<K>(key: seq<K>, v: seq<Option<real>>, lo: real, hi: real)
    requires |v| == |key|
    requires forall j :: 0 <= j < |v| && v[j].Some? ==> lo <= v[j].value <= hi
    ensures forall i :: 0 <= i < |key| && Refill(key, v)[i].Some? ==> lo <= Refill(key, v)[i].value <= hi
  {
    var w := InterpolateColumn(key, v);
    forall j | 0 <= j < |w| && w[j].Some?
      ensures lo <= w[j].value <= hi
    {
      GroupFillBounded(key, v, j, lo, hi);
    }
    ColumnFillBounded(w, lo, hi);
  }

  /** After the velocity, mask and refill, every G-force of a non-empty table is present
      and within [-7, 7]: the first row of the table has no predecessor in its pair, so it
      holds 0, and the column-wide fills reach every row from it. */
  lemma RefilledGComplete<K>(key: seq<K>, vel: seq<real>, t: seq<real>)
    requires |vel| == |key| && |t| == |key|
    ensures forall i :: 0 <= i < |key| ==>
      Refill(key, MaskedG(key, vel, t))[i].Some? &&
      -GLimit <= Refill(key, MaskedG(key, vel, t))[i].value <= GLimit
  {
    var g := MaskedG(key, vel, t);
    if |key| > 0 {
      FirstRowOfGroup(key, Lift(vel), vel, t, 0);
      FillKeepsPresent(key, g, 0);
      var w := InterpolateColumn(key, g);
      assert w[0].Some?;
      forall i | 0 <= i < |key| ensures BFill(FFill(w))[i].Some? {
        ColumnFillComplete(w, i, 0);
      }
      RefillBounded(key, g, -GLimit, GLimit);
    }
  }

  // ---------------------------------------------------------------------------
  // The preprocessing

  /** One row of the preprocessed table: the sorted row and the columns added to it.
      wheelAngle replaces the row's own M_FRONTWHEELSANGLE. */
  datatype Record = Record(
    row: Row,
    exitT2Speed: Option<real>,
    velX: real, velY: real, velZ: real,
    gX: Option<real>, gY: Option<real>, gZ: Option<real>,
    wheelAngle: Option<real>)

  datatype Cleaned = Cleaned(records: seq<Record>, columns: seq<string>)

  function RowsOf(t: seq<Record>): (s: seq<Row>)
    ensures |s| == |t| && forall i :: 0 <= i < |t| ==> s[i] == t[i].row
  {
    seq(|t|, i requires 0 <= i < |t| => t[i].row)
  }

  const ExitName: string := "exit_T2_speed"

  /** The columns `preprocess_f1_data` drops must all be there; pandas raises on a drop
      of an absent column. */
  predicate HasDroppedColumns(cols: seq<string>) {
    (forall c :: c in Telemetry.UpstreamMotionColumns ==> c in cols) &&
    (forall c :: c in RedundantColumns ==> c in cols)
  }

  /** The names the preprocessing adds and the raw motion columns share a mark that no
      redundant column has: 'V' or 'e' first, 'F' second, 'W' third or 'F' fourth. */
  predicate Marked(c: string) {
    |c| >= 4 && (c[0] == 'V' || c[0] == 'e' || c[1] == 'F' || c[2] == 'W' || c[3] == 'F')
  }

  lemma RedundantUnmarkedA()
    ensures forall i :: 0 <= i < 12 ==> !Marked(RedundantColumns[i])
  {
  }

  lemma RedundantUnmarkedB()
    ensures forall i :: 12 <= i < 24 ==> !Marked(RedundantColumns[i])
  {
  }

  lemma RedundantUnmarkedC()
    ensures forall i :: 24 <= i < |RedundantColumns| ==> !Marked(RedundantColumns[i])
  {
  }

  /** The redundant list is disjoint from the names the preprocessing adds and from the
      raw motion columns it drops first. */
  lemma AddedNamesNotDropped()
    ensures ExitName !in Telemetry.UpstreamMotionColumns
    ensures forall c :: c in RedundantColumns ==>
      c != ExitName && c !in Telemetry.MotionNames && c !in Telemetry.UpstreamMotionColumns
  {
    RedundantUnmarkedA();
    RedundantUnmarkedB();
    RedundantUnmarkedC();
    assert forall c :: c in RedundantColumns ==> !Marked(c);
    assert forall i :: 0 <= i < |Telemetry.MotionNames| ==> Marked(Telemetry.MotionNames[i]);
    assert forall i :: 0 <= i < |Telemetry.UpstreamMotionColumns| ==> Marked(Telemetry.UpstreamMotionColumns[i]);
    assert Marked(ExitName);
  }

  /** Assigning the columns `add`, then dropping `drop`: an error naming the absent ones
      when a dropped column is neither there nor added. */
  function AddThenDrop(cols: seq<string>, add: seq<string>, drop: seq<string>): (r: Result<seq<string>, seq<string>>)
    ensures r.Err? <==> exists c :: c in drop && c !in cols && c !in add
    ensures r.Ok? ==> forall c :: c in r.value <==> (c in cols || c in add) && c !in drop
  {
    DropColumns(Telemetry.AddNames(cols, add), drop)
  }

  /** Merging `added` in, dropping `first` (an error naming the absent ones), adding
      `more`, and dropping `second` (again an error naming the absent ones), where the
      second list shares no name with what the steps add or the first drop removes. */
  function DropAddDrop(cols: seq<string>, added: string, first: seq<string>, more: seq<string>,
                       second: seq<string>): (r: Result<seq<string>, seq<string>>)
    requires added !in first
    requires forall c :: c in second ==> c != added && c !in more && c !in first
    ensures r.Err? <==> !((forall c :: c in first ==> c in cols) && (forall c :: c in second ==> c in cols))
    ensures r.Ok? ==> forall c :: c in r.value <==>
      (((c in cols || c == added) && c !in first) || c in more) && c !in second
  {
    match AddThenDrop(cols, [added], first)
    case Err(missing) => Err(missing)
    case Ok(kept) => AddThenDrop(kept, more, second)
  }

  /** The column list of `preprocess_f1_data`: exit_T2_speed is merged in, the raw motion
      columns dropped (an error naming the absent ones), the six recomputed columns
      added, and the redundant list dropped (again an error naming the absent ones). */
  function EdaColumns(cols: seq<string>): (r: Result<seq<string>, seq<string>>)
    ensures r.Err? <==> !HasDroppedColumns(cols)
    ensures r.Ok? ==> forall c :: c in r.value <==>
      (((c in cols || c == ExitName) && c !in Telemetry.UpstreamMotionColumns) || c in Telemetry.MotionNames) &&
      c !in RedundantColumns
  {
    AddedNamesNotDropped();
    DropAddDrop(cols, ExitName, Telemetry.UpstreamMotionColumns, Telemetry.MotionNames, RedundantColumns)
  }

  /** The motion columns each record derives from the rows it carries: the velocities
      against the previous row of the same (session, lap) pair, the G-forces from those
      velocities, masked, interpolated per pair and filled, and the refilled wheel angle. */
  predicate Derived(t: seq<Record>) {
    var s := RowsOf(t);
    var key := KeyColumn(s);
    forall i :: 0 <= i < |t| ==>
      t[i].velX == VelocityAt(key, XOf(s), TimeOf(s), i) &&
      t[i].velY == VelocityAt(key, YOf(s), TimeOf(s), i) &&
      t[i].velZ == VelocityAt(key, ZOf(s), TimeOf(s), i) &&
      t[i].gX == Refill(key, MaskedG(key, VelX(t), TimeOf(s)))[i] &&
      t[i].gY == Refill(key, MaskedG(key, VelY(t), TimeOf(s)))[i] &&
      t[i].gZ == Refill(key, MaskedG(key, VelZ(t), TimeOf(s)))[i] &&
      t[i].wheelAngle == Refill(key, WheelOf(s))[i]
  }

  /** Every G-force is present and within [-7, 7]. */
  predicate GForcesComplete(t: seq<Record>) {
    forall i :: 0 <= i < |t| ==>
      t[i].gX.Some? && t[i].gY.Some? && t[i].gZ.Some? &&
      -GLimit <= t[i].gX.value <= GLimit && -GLimit <= t[i].gY.value <= GLimit &&
      -GLimit <= t[i].gZ.value <= GLimit
  }

  /** The records of the sorted rows: the merged target, the three velocities, the three
      refilled G-forces and the refilled wheel angle, each axis computed in turn. */
  method BuildRecords(df: seq<Row>, exit: seq<Option<real>>) returns (t: seq<Record>)
    requires |exit| == |df|
    ensures RowsOf(t) == df
    ensures forall i :: 0 <= i < |t| ==> t[i].exitT2Speed == exit[i]
    ensures Derived(t) && GForcesComplete(t)
  {
    var key := KeyColumn(df);
    var time := TimeOf(df);
    var vx := VelocityColumn(key, XOf(df), time);
    var vy := VelocityColumn(key, YOf(df), time);
    var vz := VelocityColumn(key, ZOf(df), time);
    var gx := RefillG(key, vx, time);
    var gy := RefillG(key, vy, time);
    var gz := RefillG(key, vz, time);
    var wheel := InterpolateWithinGroups(key, WheelOf(df));
    wheel := FillColumn(wheel);
    t := seq(|df|, i requires 0 <= i < |df| =>
      Record(df[i], exit[i], vx[i], vy[i], vz[i], gx[i], gy[i], gz[i], wheel[i]));
    assert RowsOf(t) == df;
    assert VelX(t) == vx && VelY(t) == vy && VelZ(t) == vz;
  }

  /** `preprocess_f1_data`. The rows kept are exactly those passing every filter, every
      copy of them, sorted by (session, lap, lap time), rows with equal keys in their
      original order; each carries the exit speed of its
      pair's last turn-2 row, its velocities and G-forces computed against the previous
      row of the same pair, and the refilled wheel angle. The column list gains the new
      columns and loses the raw motion columns and the redundant list; an absent column
      in either drop is an error naming the absent ones. */
  method PreprocessF1Data(data: seq<Row>, cols: seq<string>) returns (r: Result<Cleaned, seq<string>>)
    ensures r.Err? <==> !HasDroppedColumns(cols)
    ensures r.Ok? ==> r.value.columns == EdaColumns(cols).value
    ensures r.Ok? ==> var s := RowsOf(r.value.records);
      SortedBy(s, EdaKey) &&
      (forall x :: multiset(s)[x] == if KeepEda(x) then multiset(data)[x] else 0)
    ensures r.Ok? ==> var s := RowsOf(r.value.records);
      forall k :: Filter(s, HasKey(EdaKey, k)) == Filter(data, KeptWithKey(k))
    ensures r.Ok? ==> var t := r.value.records; var s := RowsOf(t);
      forall i :: 0 <= i < |t| ==> t[i].exitT2Speed == ExitT2Speed(s, LapKey(s[i]))
    ensures r.Ok? ==> Derived(r.value.records) && GForcesComplete(r.value.records)
  {
    var df := Filters(data);
    df := SortBy(df, EdaKey);
    forall k ensures Filter(df, HasKey(EdaKey, k)) == Filter(data, KeptWithKey(k)) {
      FilterFilter(data, KeepEda, HasKey(EdaKey, k), KeptWithKey(k));
    }
    var exit := ExitColumn(df);
    var names := EdaColumns(cols);
    if names.Err? {
      return Err(names.error);
    }
    var t := BuildRecords(df, exit);
    return Ok(Cleaned(t, names.value));
  }

  function VelX(t: seq<Record>): (c: seq<real>)
    ensures |c| == |t| && forall i :: 0 <= i < |t| ==> c[i] == t[i].velX
  {
    seq(|t|, i requires 0 <= i < |t| => t[i].velX)
  }

  function VelY(t: seq<Record>): (c: seq<real>)
    ensures |c| == |t| && forall i :: 0 <= i < |t| ==> c[i] == t[i].velY
  {
    seq(|t|, i requires 0 <= i < |t| => t[i].velY)
  }

  function VelZ(t: seq<Record>): (c: seq<real>)
    ensures |c| == |t| && forall i :: 0 <= i < |t| ==> c[i] == t[i].velZ
  {
    seq(|t|, i requires 0 <= i < |t| => t[i].velZ)
  }

  /** The six filters applied in turn, each reassigning the frame: together one selection
      of the rows passing all six, in their original order. */
  method Filters(data: seq<Row>) returns (df: seq<Row>)
    ensures df == Filter(data, KeepEda)
    ensures forall x :: multiset(df)[x] == if KeepEda(x) then multiset(data)[x] else 0
  {
    df := Filter(data, OnMelbourne);
    df := Filter(df, ValidLap);
    var p1 := (r: Row) => OnMelbourne(r) && ValidLap(r);
    FilterFilter(data, OnMelbourne, ValidLap, p1);
    df := Filter(df, Racing);
    var p2 := (r: Row) => p1(r) && Racing(r);
    FilterFilter(data, p1, Racing, p2);
    df := Filter(df, HasXYZ);
    var p3 := (r: Row) => p2(r) && HasXYZ(r);
    FilterFilter(data, p2, HasXYZ, p3);
    df := Filter(df, NonNegativeDistance);
    var p4 := (r: Row) => p3(r) && NonNegativeDistance(r);
    FilterFilter(data, p3, NonNegativeDistance, p4);
    df := Filter(df, InTurns);
    var p5 := (r: Row) => p4(r) && InTurns(r);
    FilterFilter(data, p4, InTurns, p5);
    FilterExt(data, p5, KeepEda);
    FilterMultisetAll(data, KeepEda);
  }

  /** The rows every filter keeps whose sort key is k. */
  function KeptWithKey(k: SortKey): Row -> bool {
    (r: Row) => KeepEda(r) && EdaKey(r) == k
  }

  /** GFORCE_<axis>: the masked quotient, interpolated per pair, then filled over the
      whole column; every value present and within [-7, 7] on a non-empty table. */
  method RefillG<K(==)>(key: seq<K>, vel: seq<real>, t: seq<real>) returns (g: seq<Option<real>>)
    requires |vel| == |key| && |t| == |key|
    ensures g == Refill(key, MaskedG(key, vel, t))
    ensures forall i :: 0 <= i < |g| ==> g[i].Some? && -GLimit <= g[i].value <= GLimit
  {
    var masked := GForceColumn(key, vel, t);
    var w := InterpolateWithinGroups(key, masked);
    g := FillColumn(w);
    RefilledGComplete(key, vel, t);
  }

  /** The first row of each (session, lap) pair has velocity 0 on every axis. */
  lemma PreprocessedVelocities(s: seq<Row>, i: nat)
    requires i < |s|
    requires forall j :: 0 <= j < i ==> LapKey(s[j]) != LapKey(s[i])
    ensures VelocityAt(KeyColumn(s), XOf(s), TimeOf(s), i) == 0.0
    ensures VelocityAt(KeyColumn(s), YOf(s), TimeOf(s), i) == 0.0
    ensures VelocityAt(KeyColumn(s), ZOf(s), TimeOf(s), i) == 0.0
  {
    var key, time := KeyColumn(s), TimeOf(s);
    FirstRowOfGroup(key, XOf(s), time, time, i);
    FirstRowOfGroup(key, YOf(s), time, time, i);
    FirstRowOfGroup(key, ZOf(s), time, time, i);
  }

  // ---------------------------------------------------------------------------
  // Target filter

  function HighExit(x: Record): bool {
    x.exitT2Speed.Some? && x.exitT2Speed.value >= 175.0
  }

  /** `optimize_target_variable` without the logarithm: the records whose exit speed is
      at least 175, every copy kept, in order; a missing exit speed compares false. */
  function OptimizeTargetVariable(t: seq<Record>): (r: seq<Record>)
    ensures r == Filter(t, HighExit)
    ensures forall i :: 0 <= i < |r| ==> r[i].exitT2Speed.Some? && r[i].exitT2Speed.value >= 175.0
    ensures forall x :: multiset(r)[x] == if HighExit(x) then multiset(t)[x] else 0
  {
    FilterMultisetAll(t, HighExit);
    Filter(t, HighExit)
  }
}
