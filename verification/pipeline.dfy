/** `data_pipeline`: the track filter, the NA removal, re-indexing, the column drop, the
    corridor slice, the track-limit check, the short-lap filter, the turning window, the
    steering refill and the lap summary, in that order. Reading the three CSV files is
    not modelled: the table, its column names and the two boundaries are parameters. */
module Pipeline {
  import opened Wrappers
  import opened Seqs
  import opened Geometry
  import opened Rows
  import opened Cleaning
  import opened Spatial
  import opened Kinematics
  import opened Telemetry
  import opened Summary

  datatype PipelineError =
    | MissingColumns(names: seq<string>)   // remove_redundant_cols: the absent listed columns
    | BadBoundary(limits: LimitsError)     // enforce_track_limits: no polygon from the boundaries
    | BadSummary(summary: SummaryError)    // initialise_lap_summary: an unreadable lap time

  /** The frame, the two boundaries as loaded, and the lap summary. */
  datatype PipelineOutput = PipelineOutput(frame: Frame, left: seq<Point>, right: seq<Point>,
                                           summary: seq<LapSummary>)

  /** The column list `data_pipeline` works on: lap_index added by `re_index`, then the
      redundant columns dropped. */
  function FrameColumns(cols: seq<string>): Result<seq<string>, seq<string>> {
    RemoveRedundantCols(ReIndexColumns(cols))
  }

  /** The table after the track filter, the NA removal and re-indexing. */
  function Indexed(data: seq<Row>): seq<Sample> {
    ReIndex(RemoveNa(FilterMelbourne(data)))
  }

  /** ... then the corridor slice and the track-limit check. */
  function OnTrack(data: seq<Row>, ring: seq<Point>): seq<Sample>
    requires BuildsPolygon(ring)
  {
    WithinTrackLimits(TrackSlice(Indexed(data)), ring)
  }

  /** ... then the short-lap filter: the rows the later stages work on. */
  function Kept(data: seq<Row>, ring: seq<Point>): seq<Sample>
    requires BuildsPolygon(ring)
  {
    RemoveShortLaps(OnTrack(data, ring), MinLapRows)
  }

  /** `interpolate_steering`: the wheel angle interpolated within each lap, then
      forward- and back-filled over the whole column. */
  function SteeringFilled(s: seq<Sample>): seq<Sample> {
    SetWheelAngles(s, BFill(FFill(InterpolateColumn(Laps(s), WheelAngles(s)))))
  }

  /** The four turning-window columns computed on the rows s. */
  function WindowFeatures(s: seq<Sample>): map<Feature, Column> {
    map[DistToT1Apex := Values(ApexDistColumn(s, T1Apex)),
        DistToT2Apex := Values(ApexDistColumn(s, T2Apex)),
        IsT1Window := Flags(WindowColumn(s, T1Apex)),
        IsT2Window := Flags(WindowColumn(s, T2Apex))]
  }

  /** The frame `data_pipeline` returns for the kept rows and the remaining columns:
      the steering refilled and the turning-window columns added. */
  ghost predicate PipelineFrame(f: Frame, kept: seq<Sample>, names: seq<string>)
    reads f
  {
    f.Valid() && f.rows == SteeringFilled(kept) &&
    f.names == AddNames(names, WindowNames) && f.features == WindowFeatures(kept)
  }

  /** One summary row per lap of s, in order of first appearance, each with the lap's
      sector time. */
  ghost predicate SummaryOf(s: seq<Sample>, sm: seq<LapSummary>) {
    |sm| == |LapIds(s)| &&
    forall i :: 0 <= i < |sm| ==>
      sm[i] == Fresh(LapIds(s)[i], sm[i].sectorTime) && IsSectorTime(s, LapIds(s)[i], sm[i].sectorTime)
  }

  /** Some lap of s starts or ends on a row whose lap time does not read. */
  ghost predicate UnreadableLapTime(s: seq<Sample>) {
    exists k: nat, j: nat :: (IsLapStart(s, k, j) || IsLapEnd(s, k, j)) && Seconds(s[j]).Err?
  }

  /** Every lap time of s reads. */
  predicate LapTimesRead(s: seq<Sample>) {
    forall j :: 0 <= j < |s| ==> Seconds(s[j]).Ok?
  }

  /** `data_pipeline` minus the reading. An absent redundant column fails first; then a
      boundary pair of one or two points in all; then an unreadable lap time at the
      start or end of a lap. On success the frame holds the kept rows with the steering
      refilled; its column list is the input's with lap_index added by re-indexing, the
      redundant columns dropped and the four turning-window columns added, those
      computed on the kept rows; and the summary holds one row per lap of the frame with
      its sector time. */
  method DataPipeline(data: seq<Row>, cols: seq<string>, left: seq<Point>, right: seq<Point>)
    returns (r: Result<PipelineOutput, PipelineError>)
    ensures (r.Err? && r.error.MissingColumns?) <==> FrameColumns(cols).Err?
    ensures (r.Err? && r.error.BadBoundary?) <==> FrameColumns(cols).Ok? && !BuildsPolygon(left + right)
    ensures r.Ok? ==> FrameColumns(cols).Ok? && BuildsPolygon(left + right)
    ensures r.Ok? ==> r.value.left == left && r.value.right == right
    ensures r.Ok? ==>
      fresh(r.value.frame) &&
      PipelineFrame(r.value.frame, Kept(data, left + right), FrameColumns(cols).value)
    ensures r.Ok? ==> SummaryOf(r.value.frame.rows, r.value.summary)
    ensures r.Err? && r.error.BadSummary? ==>
      (BuildsPolygon(left + right) && UnreadableLapTime(SteeringFilled(Kept(data, left + right))))
    ensures (FrameColumns(cols).Ok? && BuildsPolygon(left + right) &&
             LapTimesRead(SteeringFilled(Kept(data, left + right)))) ==> r.Ok?
  {
    var names := FrameColumns(cols);
    if names.Err? {
      return Err(MissingColumns(names.error));
    }
    r := TableStages(data, names.value, left, right);
  }

  /** The column step of `data_pipeline` fails exactly when `remove_redundant_cols`
      fails on the loaded columns, since lap_index is not redundant; on success the
      list holds lap_index and the loaded columns that are not redundant, and so does
      the frame once the turning-window columns are added. */
  lemma FrameColumnsFacts(cols: seq<string>)
    ensures FrameColumns(cols).Ok? <==> RemoveRedundantCols(cols).Ok?
    ensures FrameColumns(cols).Ok? ==> forall c :: c in FrameColumns(cols).value <==>
      (c in cols || c == LapIndexColumn) && c !in RedundantColumns
    ensures FrameColumns(cols).Ok? ==> LapIndexColumn in AddNames(FrameColumns(cols).value, WindowNames)
  {
    ReIndexedColumnsDrop(cols);
  }

  /** The stages after the column drop, on the column list `names`: the row stages,
      then the frame, then the lap summary. */
  method TableStages(data: seq<Row>, names: seq<string>, left: seq<Point>, right: seq<Point>)
    returns (r: Result<PipelineOutput, PipelineError>)
    ensures r.Err? ==> r.error.BadBoundary? || r.error.BadSummary?
    ensures (r.Err? && r.error.BadBoundary?) <==> !BuildsPolygon(left + right)
    ensures r.Ok? ==> BuildsPolygon(left + right)
    ensures r.Ok? ==> r.value.left == left && r.value.right == right
    ensures r.Ok? ==> fresh(r.value.frame) && PipelineFrame(r.value.frame, Kept(data, left + right), names)
    ensures r.Ok? ==> forall c :: c in names ==> c in r.value.frame.names
    ensures r.Ok? ==> SummaryOf(r.value.frame.rows, r.value.summary)
    ensures r.Err? && r.error.BadSummary? ==>
      (BuildsPolygon(left + right) && UnreadableLapTime(SteeringFilled(Kept(data, left + right))))
    ensures (BuildsPolygon(left + right) && LapTimesRead(SteeringFilled(Kept(data, left + right)))) ==> r.Ok?
  {
    var kept := KeptStages(data, left, right);
    if kept.Err? {
      return Err(BadBoundary(kept.error));
    }
    var f := BuildFrame(kept.value, names);
    var summary := SummaryStage(f.rows);
    if summary.Err? {
      return Err(BadSummary(summary.error));
    }
    r := Ok(PipelineOutput(f, left, right, summary.value));
  }

  /** The row stages up to the short-lap filter. The source drops the redundant columns
      between re-indexing and the slice; that step does not touch the rows. */
  method KeptStages(data: seq<Row>, left: seq<Point>, right: seq<Point>) returns (r: Result<seq<Sample>, LimitsError>)
    ensures r.Err? <==> !BuildsPolygon(left + right)
    ensures r.Ok? ==> r.value == Kept(data, left + right)
  {
    var df := FilterMelbourne(data);
    df := RemoveNa(df);
    var indexed := ReIndex(df);
    var sliced := TrackSlice(indexed);
    var limited, _, _ := EnforceTrackLimits(sliced, left, right);
    if limited.Err? {
      return Err(limited.error);
    }
    r := Ok(RemoveShortLaps(limited.value, MinLapRows));
  }

  /** With both boundaries empty the polygon is empty and the track-limit check keeps
      every sliced row: only the short-lap filter remains. */
  lemma NoBoundaryKeepsSlice(data: seq<Row>)
    ensures Kept(data, []) == RemoveShortLaps(TrackSlice(Indexed(data)), MinLapRows)
  {
    EmptyPolygonKeepsAll(TrackSlice(Indexed(data)));
  }

  /** `initialise_lap_summary`, keyed "index" in this variant; the key name is the only
      difference. */
  method SummaryStage(s: seq<Sample>) returns (r: Result<seq<LapSummary>, SummaryError>)
    ensures r.Ok? ==> SummaryOf(s, r.value)
    ensures r.Err? ==> UnreadableLapTime(s)
    ensures LapTimesRead(s) ==> r.Ok?
  {
    r := InitialiseLapSummary(s);
  }

  /** The frame stages: the turning window, then the steering refill. */
  method BuildFrame(kept: seq<Sample>, names: seq<string>) returns (f: Frame)
    ensures fresh(f) && PipelineFrame(f, kept, names)
  {
    f := new Frame(kept, names);
    f.ComputeTurningWindow();
    f.InterpolateWheelAngle();
  }

  // ---------------------------------------------------------------------------
  // What the kept rows satisfy

  /** A re-indexed row survives the slice, the track-limit check and the short-lap
      filter when it lies inside the inclusive rectangle and strictly inside the
      corridor, belongs to a lap none of whose sliced rows is more than 5 metres off the
      track, and its lap has at least 700 rows after that check. */
  predicate Survives(data: seq<Row>, ring: seq<Point>, x: Sample)
    requires BuildsPolygon(ring)
  {
    InBox(x) && InCorridor(x) && !LapOffTrack(TrackSlice(Indexed(data)), ring, x.lap) &&
    |LapRows(OnTrack(data, ring), x.lap)| >= MinLapRows
  }

  /** The rows kept are exactly the surviving rows of the re-indexed table, every copy. */
  lemma {:induction false} KeptRows(data: seq<Row>, ring: seq<Point>)
    requires BuildsPolygon(ring)
    ensures forall x :: multiset(Kept(data, ring))[x] == if Survives(data, ring, x) then multiset(Indexed(data))[x] else 0
  {
    var sliced := TrackSlice(Indexed(data));
    var on := OnTrack(data, ring);
    forall x ensures multiset(Kept(data, ring))[x] == if Survives(data, ring, x) then multiset(Indexed(data))[x] else 0 {
      assert multiset(Kept(data, ring))[x] == if |LapRows(on, x.lap)| >= MinLapRows then multiset(on)[x] else 0;
      assert multiset(on)[x] == if LapOffTrack(sliced, ring, x.lap) then 0 else multiset(sliced)[x];
    }
  }

  /** Every kept row was recorded on track 0, has a position, lies in the rectangle and
      strictly inside the corridor, and its lap has at least 700 kept rows. */
  lemma KeptRowFacts(data: seq<Row>, ring: seq<Point>, x: Sample)
    requires BuildsPolygon(ring)
    requires x in Kept(data, ring)
    ensures x.row.trackId == 0
    ensures Position(x.row).Some? && InRectangle(Position(x.row).value)
    ensures Contains(SliceRing, Position(x.row).value)
    ensures |LapRows(Kept(data, ring), x.lap)| >= MinLapRows
  {
    var on := OnTrack(data, ring);
    KeptRows(data, ring);
    assert multiset(Kept(data, ring))[x] > 0;
    IndexedRowFacts(data, x);
    assert LapRows(Kept(data, ring), x.lap) == LapRows(on, x.lap);
  }

  /** A re-indexed row passed the track filter and the NA removal. */
  lemma IndexedRowFacts(data: seq<Row>, x: Sample)
    requires multiset(Indexed(data))[x] > 0
    ensures x.row.trackId == 0 && x.row.x.Some? && x.row.y.Some?
  {
    var rows := RemoveNa(FilterMelbourne(data));
    assert x in Indexed(data);
    var i :| 0 <= i < |Indexed(data)| && Indexed(data)[i] == x;
    assert x.row == rows[i];
    assert rows[i] in FilterMelbourne(data) by {
      assert multiset(rows)[rows[i]] > 0;
    }
  }

  /** The steering refill changes no lap index, so the summary has one row per lap of
      the kept rows, and it changes no lap time or lap distance. */
  lemma SteeringKeepsLaps(s: seq<Sample>)
    ensures LapIds(SteeringFilled(s)) == LapIds(s)
    ensures forall i :: 0 <= i < |s| ==>
      SteeringFilled(s)[i].lap == s[i].lap &&
      SteeringFilled(s)[i].row.lapTime == s[i].row.lapTime &&
      SteeringFilled(s)[i].row.lapDistance == s[i].row.lapDistance
  {
    var t := SteeringFilled(s);
    assert Laps(t) == Laps(s);
  }
}
