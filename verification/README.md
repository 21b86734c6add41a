# Albert Park telemetry pipeline, modelled in Dafny

This project models the core of the Albert Park (Melbourne) F1 telemetry pipeline: how
the Python code cleans per-frame samples, assigns lap indices, keeps or drops whole laps,
recomputes kinematics per lap, builds geometric features, and reduces each lap to a
summary row. The tables are modelled as sequences of rows. Each pandas stage becomes a
Dafny function, or a method where the source assigns columns or loops over laps. The
contracts state what each stage promises about the rows it keeps, their order, and the
values it writes.

Modules, one per file:

- `Wrappers`: `Option` and `Result`.
- `Seqs`: boolean-mask selection, `drop_duplicates`, first and last match, mean and max.
- `Geometry`: exact squared distances and segment distance. It also has strict polygon
  containment by ray casting and the nearest-point query.
- `Rows`: one telemetry row, and a row with its `lap_index`.
- `Sorting`: a stable sort by a lexicographic key, used for the multi-column `sort_values`.
- `Cleaning`: the row filters, `re_index`, the lap-level filters and the column drop.
- `Spatial`: `track_slice`, `enforce_track_limits`, `find_nearest_point` and
  `define_cut_line`.
- `Kinematics`: grouped differencing, the division cases, the mask, and the refill.
  The refill is linear interpolation by row position within a lap, then forward and
  backward fill.
- `Telemetry`: the feature columns of `telemetry_eng`. The `Frame` class holds the rows,
  the column names and the feature columns, and its methods update them in place.
- `LapTime`: `time_to_seconds` on "M:SS.sss" strings.
- `Summary`: `initialise_lap_summary` and the merges of `summary_eng`.
- `Preprocess`: `preprocess_f1_data` of the exploratory analysis and
  `optimize_target_variable`.
- `Pipeline`: the stage order of `data_pipeline`.

Several functions appear twice in the repository, in `pipeline/` and in `utils/`. The
`utils/` copy of `filter_melbourne`, `remove_na`, `re_index`, `track_slice`,
`enforce_track_limits`, `compute_turning_window`, `interpolate_steering` and
`remove_redundant_cols` has the same body as the `pipeline/` copy. Each pair shares one
model. The `initialise_lap_summary` in utils/pipeline.py differs only in naming its key
column "index".

## Model

| member | source | states |
|---|---|---|
| Seqs.FilterMultiset | pipeline/cleaning.py:39 | A boolean-mask selection keeps every copy of a selected row value, and no copy of the others. |
| Seqs.FilterAppend | pipeline/cleaning.py:39 | Selection distributes over concatenation, so the kept rows stay in their original relative order. |
| Seqs.FilterFilter | EDA_base_cleaned.py:47-70 | Two successive selections equal one selection by the conjunction of the two masks. |
| Seqs.FilterAtPositions | pipeline/cleaning.py:39 | A selection is the subsequence of the input at the ascending positions of the selected elements: kept rows keep their original order. |
| Seqs.Dedupe | pipeline/cleaning.py:68 | `drop_duplicates` gives a sequence without duplicates holding exactly the values of the input, in order of first appearance. |
| Seqs.AppearanceOrderPairs | pipeline/summary_eng.py:55 | In first-appearance order, every earlier element first occurs before every later one. |
| Seqs.DedupeCard | pipeline/cleaning.py:54-55 | The de-duplicated sequence has one element per distinct value. |
| Seqs.FirstWhere | pipeline/summary_eng.py:142-144 | None exactly when no element matches. Otherwise the position of a matching element with no match before it. |
| Seqs.LastWhere | EDA_base_cleaned.py:89-93 | None exactly when no element matches. Otherwise the position of a matching element with no match after it. |
| Seqs.Max | pipeline/summary_eng.py:118-135 | The maximum of a non-empty column is one of its values and at least every value. |
| Seqs.MeanBetweenMinAndMax | pipeline/summary_eng.py:98-135 | The mean of a non-empty column lies between its minimum and its maximum. |
| Geometry.Clamp | pipeline/telemetry_eng.py:364 | `clip(lo, hi)` lies in [lo, hi], keeps values already inside, and maps values below or above to the nearer bound. |
| Geometry.SegDistSqIsMinimal | pipeline/spatial.py:85-87 | The clamped projection onto a segment of positive length is no farther from p than any point of the segment. |
| Geometry.EndpointsOnSegment | pipeline/spatial.py:85-87 | Both ends of a segment are at distance 0 from it. |
| Geometry.MinEdgeDistSq | pipeline/spatial.py:85-87 | The distance to the ring is at most the distance to every edge, and equals the distance to some edge. |
| Geometry.RingDistSqZero | pipeline/spatial.py:81-90 | The exterior distance is 0 exactly for points on the boundary. |
| Geometry.VertexNotContained | pipeline/spatial.py:52-57 | Strict containment: no vertex of a polygon is contained in it. |
| Geometry.FindNearest | pipeline/spatial.py:102-112 | None exactly for no points. Otherwise an index whose distance is at most every other's, and strictly below that of every earlier index (`idxmin` takes the first of ties). |
| Geometry.NearestDistSq | pipeline/telemetry_eng.py:94-102 | The k-d tree distance is at most the distance to every point and equals the distance to some point. It is missing only when there are no points. |
| Rows.LapIds | pipeline/summary_eng.py:55 | `unique()` of lap_index: no duplicates, exactly the lap indices that occur, in order of first appearance. |
| Sorting.SortBy | EDA_base_cleaned.py:76-79 | The result is sorted by the key and is a permutation of the input. Rows with equal keys keep their relative order (a stable sort). |
| Sorting.InsertStable | EDA_base_cleaned.py:76-79 | Inserting a row keeps the order of the rows of each key and puts it after the rows with its own key. |
| Cleaning.FilterMelbourne | pipeline/cleaning.py:37-39 | The selection of the rows with track id 0, in their original order. A row value occurs as often as in the input when its track id is 0, and not at all otherwise. |
| Cleaning.RemoveNa | pipeline/cleaning.py:42-45 | The selection of the rows with X and Y, in their original order. A row value with both occurs as often as in the input, and one missing either does not occur. |
| Cleaning.SortedLapKeys | pipeline/cleaning.py:67-71 | The distinct (session, lap) pairs, in strictly ascending lexicographic order, exactly the pairs that occur. |
| Cleaning.ReIndex | pipeline/cleaning.py:64-79 | Every row is kept in place. Its lap_index is the position of its (session, lap) pair among the sorted distinct pairs. |
| Cleaning.ReIndexDense | pipeline/cleaning.py:68-74 | The lap indices are exactly 0 .. N-1, where N is the number of distinct (session, lap) pairs. |
| Cleaning.ReIndexMonotone | pipeline/cleaning.py:71-77 | A lexicographically smaller pair gets a smaller lap_index. Two rows get the same lap_index exactly when they have the same pair. |
| Cleaning.ReIndexColumns | pipeline/cleaning.py:64-79 | The merge appends lap_index after the existing columns: the old list is a prefix, and lap_index is the only new name. |
| Cleaning.ReIndexedColumnsDrop | pipeline/cleaning.py:64-127 | lap_index is not in the redundant list, so dropping after re-indexing fails exactly when dropping before it would, and lap_index survives. |
| Cleaning.KeepLaps | pipeline/cleaning.py:59 | `isin(valid_laps)`: the selection of the rows of kept laps in their original order. A kept lap keeps all its rows, a dropped lap keeps none, and lap indices are not renumbered. |
| Cleaning.DistinctPoints | pipeline/cleaning.py:50-55 | The number of distinct (X, Y) pairs of a lap, at most its row count. |
| Cleaning.RemoveStutteryLaps | pipeline/cleaning.py:48-61 | A lap is kept whole, duplicates included, iff it has at least `min_points` distinct positions. Otherwise it is dropped whole. |
| Cleaning.RemoveRepeatedPointLaps | utils/pipeline.py:81-100 | A lap is dropped whole iff some position occurs in it more than `max_repeats` times (strict). Otherwise it is kept whole. |
| Cleaning.RemoveShortLaps | utils/pipeline.py:190-199 | A lap is kept whole iff it has at least `min_points` rows, duplicates counted. |
| Cleaning.StutteryImpliesLong | pipeline/cleaning.py:48-61 | With the same threshold, the short-lap filter removes nothing after the stuttery-lap filter. |
| Cleaning.DropPresent | pipeline/telemetry_eng.py:354 | `drop(..., errors="ignore")`: a column remains iff it was there and is not listed. |
| Cleaning.DropColumns | pipeline/cleaning.py:125 | `drop(columns=...)` succeeds iff every listed column is present. Then it keeps the others. Otherwise the error names exactly the absent listed columns. |
| Cleaning.RemoveRedundantCols | pipeline/cleaning.py:82-127 | Succeeds iff every redundant column is present. Then the columns are the input ones minus the fixed list. |
| Spatial.TrackSlice | pipeline/spatial.py:30-59 | The selection, in original order, of the rows in the inclusive rectangle and strictly inside the 6-vertex polygon. Every copy is kept. |
| Spatial.BoundaryRowDropped | pipeline/spatial.py:52-57 | A row on an edge or corner of the corridor polygon is dropped. |
| Spatial.CornerRowDropped | pipeline/spatial.py:31-57 | The corner (572, 423) passes the rectangle but is still dropped. |
| Spatial.DistToTrack | pipeline/spatial.py:81-90 | dist_to_track is 0 strictly inside the polygon and the exterior distance otherwise. It is NaN for a row without position and for every row when the polygon is empty. |
| Spatial.WithinTrackLimits | pipeline/spatial.py:92-97 | A lap with a row more than 5 from the track (strict) loses all its rows. Any other lap keeps all of them. |
| Spatial.EnforceTrackLimits | pipeline/spatial.py:62-99 | Fails iff the two boundaries hold one or two points in all, which no ring can be closed from. Otherwise the helper columns are as DistToTrack defines them, and the result is WithinTrackLimits, without those columns. With no boundary points at all, every row is kept. |
| Spatial.EmptyPolygonKeepsAll | pipeline/spatial.py:72-97 | With the empty polygon no lap is off the track, so the track-limit check keeps every row, in order. |
| Spatial.TrackColumns | pipeline/spatial.py:74-90 | The inside_track and dist_to_track columns, row by row. |
| Spatial.OffTrackLaps | pipeline/spatial.py:92 | The set of laps with a row whose distance is over the limit, exactly. |
| Spatial.DefineCutLine | pipeline/spatial.py:115-165 | Fails on an empty right boundary (and only then with EmptyRight). The line starts at (x, y) itself, and ends at a point of the left boundary. |
| Spatial.CutLineFrom | pipeline/spatial.py:132-158 | From the nearest right point on: the start is (x, y), and the end is a left-boundary point. EmptyLeft only when the left boundary is empty. |
| Spatial.CutLineFromNearest | pipeline/spatial.py:129-133 | DefineCutLine continues from the right point FindNearest selects. |
| Spatial.CutLineNeedsNextPoint | pipeline/spatial.py:129-133 | The cut line fails for lack of a next point exactly when the nearest right point is the last one. |
| Spatial.CutLineZeroDirection | pipeline/spatial.py:136-146 | The zero-norm failure happens exactly when the nearest right point has a next point equal to it. |
| Spatial.CutLineEnd | pipeline/spatial.py:135-155 | On success, the end is the left-boundary point nearest the spot projected from (x, y), the first such point in row order. |
| Spatial.DefineCutLineEnd | pipeline/spatial.py:128-157 | On success, the right point is the first nearest to (x, y), and the line runs from (x, y) to the first left point nearest the projected spot. |
| Spatial.SearchSpotDistance | pipeline/spatial.py:139-152 | The projected spot lies 20 from (x, y), along the normal of the right boundary's local direction. |
| Geometry.Norm2Zero | pipeline/spatial.py:146 | The squared norm is 0 exactly for the zero vector. |
| Spatial.NormalIsOrthogonal | pipeline/spatial.py:136-141 | The normal (-dy, dx) is orthogonal to the direction (dx, dy). |
| Spatial.ProjectedSpotDistance | pipeline/spatial.py:143-151 | With a correct norm, the projected search spot lies exactly 20 from (x, y). |
| Kinematics.FillZeroClip | pipeline/telemetry_eng.py:362-364 | `fillna(0).clip(-b, b)` lies in [-b, b]. It keeps finite values inside, maps NaN to 0, and maps the infinities to the bounds. |
| Kinematics.FillZeroMask | pipeline/telemetry_eng.py:374-379 | After `fillna(0)` and the mask, a value is NaN exactly when it was infinite or outside [-b, b]. NaN becomes 0, and present values lie in [-b, b]. |
| Kinematics.PrevInGroup | pipeline/telemetry_eng.py:359-360 | The previous row of the same group: the last earlier row with the group's key, None for the group's first row. |
| Kinematics.VelocityAt | pipeline/telemetry_eng.py:357-364 | VEL_* at a row lies in [-100, 100]. |
| Kinematics.GForceAt | pipeline/telemetry_eng.py:367-379 | A GFORCE_* value that survives the mask lies in [-7, 7]. |
| Kinematics.MaskedG | pipeline/telemetry_eng.py:367-379 | The masked G-force column holds GForceAt at every row. |
| Kinematics.FirstRowOfGroup | pipeline/telemetry_eng.py:358-374 | The first row of a lap gets velocity 0 and pre-mask G-force 0. |
| Kinematics.VelocityCases | pipeline/telemetry_eng.py:358-364 | The velocity against the previous row of the same lap: clip(1000·Δpos/Δt). 0/0 gives 0, and a non-zero change in zero time gives ±100. |
| Kinematics.GForceInfiniteMasked | pipeline/telemetry_eng.py:368-379 | A velocity change in zero time gives an infinite G-force, which the mask removes. |
| Kinematics.PrevAnchor | pipeline/telemetry_eng.py:382-384 | The last earlier present value of the same lap, None when there is none. |
| Kinematics.NextAnchor | pipeline/telemetry_eng.py:382-384 | The first later present value of the same lap, None when there is none. |
| Kinematics.LastPresent | pipeline/telemetry_eng.py:64 | The last earlier present value of the whole column: what `ffill` copies. |
| Kinematics.FirstPresent | pipeline/telemetry_eng.py:65 | The first later present value of the whole column: what `bfill` copies. |
| Kinematics.InterpolateColumn | pipeline/telemetry_eng.py:61-63 | The grouped interpolation holds the per-row interpolation at every row. |
| Kinematics.FillKeepsPresent | pipeline/telemetry_eng.py:382-384 | The grouped interpolation and fill leave a present value unchanged. |
| Kinematics.InterpolatedBetweenAnchors | pipeline/telemetry_eng.py:382-384 | A gap between two in-lap anchors is filled by linear interpolation by row position: a weight in [0, 1] by the count of lap rows between them. |
| Kinematics.GroupFillBounded | pipeline/telemetry_eng.py:376-384 | When every present value lies in [lo, hi], so does every filled value. |
| Kinematics.GroupFillComplete | pipeline/telemetry_eng.py:382-384 | Every row of a lap with some present value is filled. |
| Kinematics.GroupFillLocal | pipeline/telemetry_eng.py:382-384 | The grouped fill never reads another lap: values of other laps do not change it. |
| Kinematics.RefilledGForceComplete | pipeline/telemetry_eng.py:366-384 | After the mask and the per-lap refill, every G-force is present and within [-7, 7]. |
| Kinematics.ColumnFillKeepsPresent | pipeline/telemetry_eng.py:61-66 | The column-wide `ffill().bfill()` leaves a present value unchanged. |
| Kinematics.ColumnFillComplete | pipeline/telemetry_eng.py:61-66 | After the column-wide fill, every row is filled once any row of the column is present. |
| Kinematics.ColumnFillCrossesGroups | pipeline/telemetry_eng.py:61-66 | The column-wide fill crosses laps: a lap starting with a gap takes the previous lap's last value. |
| Kinematics.PreviousInGroup | pipeline/telemetry_eng.py:359-360 | Walking back finds PrevInGroup. |
| Kinematics.VelocityColumn | pipeline/telemetry_eng.py:357-364 | One VEL_* column, row by row, equal to VelocityAt at every row. |
| Kinematics.GForceColumn | pipeline/telemetry_eng.py:367-379 | One masked GFORCE_* column, equal to MaskedG. |
| Kinematics.PreviousAnchor | pipeline/telemetry_eng.py:383 | Finds PrevAnchor, and the count of lap rows from it up to the row. |
| Kinematics.NextAnchorAfter | pipeline/telemetry_eng.py:383 | Finds NextAnchor, and the count of lap rows from the row up to it. |
| Kinematics.InterpolateWithinGroups | pipeline/telemetry_eng.py:61-63 | `groupby(lap).transform(interpolate)`, equal to InterpolateColumn. |
| Kinematics.FillWithinGroups | pipeline/telemetry_eng.py:382-384 | `groupby(lap).transform(interpolate.ffill.bfill)`, equal to the per-row GroupFillAt. |
| Kinematics.ForwardFill | pipeline/telemetry_eng.py:64 | `ffill()`, equal to FFill. |
| Kinematics.BackwardFill | pipeline/telemetry_eng.py:65 | `bfill()`, equal to BFill. |
| Kinematics.FillColumn | pipeline/telemetry_eng.py:61-66 | `ffill().bfill()`: keeps present values, and fills every row once some value is present. |
| Telemetry.SetWheelAngles | pipeline/telemetry_eng.py:61 | Writing M_FRONTWHEELSANGLE changes no other column: the lap, the positions and the times are unchanged. |
| Telemetry.AddNames | pipeline/telemetry_eng.py:358 | Assigning `df[name]` keeps the existing columns in order. The names afterwards are the old ones plus the assigned ones. |
| Telemetry.AddNamesConcat | pipeline/telemetry_eng.py:13-55 | Assigning one group of columns and then another gives the same names as assigning both groups at once. |
| Telemetry.AddNamesPresent | pipeline/telemetry_eng.py:35 | Assigning columns that already exist leaves the names unchanged (the second `compute_turning_window`). |
| Telemetry.UpstreamMotionDropped | pipeline/telemetry_eng.py:343-354 | After the recomputation none of the six raw velocity and G-force columns is left. |
| Telemetry.ApexDistSq | pipeline/telemetry_eng.py:128-136 | The (squared) apex distance is present exactly when the row has a position, and is non-negative. |
| Telemetry.WindowColumn | pipeline/telemetry_eng.py:138-140 | is_t*_window holds iff the row has a position within 50 of the apex (NaN compares false). |
| Telemetry.WindowBySquares | pipeline/telemetry_eng.py:139-140 | Comparing squared distances with 50² decides the same window as comparing distances with 50. |
| Telemetry.ApexColumns | pipeline/telemetry_eng.py:127-140 | One apex's distance and window columns, computed row by row. |
| Telemetry.LineDistanceColumn | pipeline/telemetry_eng.py:94-102 | line_distance is present iff the row has a position and the line is non-empty. It is at most the distance to every line point and equals the distance to one. |
| Telemetry.BrakeThrottleColumn | pipeline/telemetry_eng.py:105-112 | M_BRAKE_THROTTLE_1 plus the brake gives back the throttle. |
| Telemetry.VelocityOf | pipeline/telemetry_eng.py:357-364 | Every VEL_* of the frame lies in [-100, 100]. |
| Telemetry.GForceOfComplete | pipeline/telemetry_eng.py:366-384 | Every refilled GFORCE_* of the frame is present and within [-7, 7]. |
| Telemetry.RecomputeAxis | pipeline/telemetry_eng.py:356-384 | One axis: the velocity column and the G-force derived from it, every G-force present and within [-7, 7]. |
| Telemetry.RotationKeepsLength | pipeline/telemetry_eng.py:158-165 | Rotating the forward vector by an angle on the unit circle keeps its length. |
| Telemetry.MaskedCosine | pipeline/telemetry_eng.py:169-182 | The cosine is defined iff both norms are positive (the valid mask), and is clipped to [-1, 1]. |
| Telemetry.UnmaskedCosine | pipeline/telemetry_eng.py:257-260 | Without a mask the clipped cosine, where defined, lies in [-1, 1]. |
| Telemetry.Fold | pipeline/telemetry_eng.py:264-267 | An angle above 90 becomes 180 minus it, so an angle in [0, 180] lands in [0, 90]. |
| Telemetry.AngleRanges | utils/basic_feature_engineering.py:71-135 | With arccos onto [0, 180]: angle_fw_vs_vel and angle_car_vs_vel (180 − raw) lie in [0, 180], and angle_fw_vs_car in [0, 90]. |
| Telemetry.AngleMasks | utils/basic_feature_engineering.py:59-71 | angle_car_vs_vel is NaN iff the forward vector or the velocity is zero. angle_fw_vs_vel is NaN iff the rotated wheel vector or the velocity is zero. |
| Telemetry.ZeroForwardIsNaN | pipeline/telemetry_eng.py:257-262 | Without a mask, a zero forward vector gives NaN for angle_fw_vs_car. |
| Telemetry.Frame.ComputeTurningWindow | pipeline/telemetry_eng.py:115-141 | Writes the two apex distances and the two window flags, computed on the rows. Changes nothing else. |
| Telemetry.Frame.InterpolateWheelAngle | pipeline/telemetry_eng.py:60-68 | Replaces the wheel angle by the per-lap interpolation followed by the column-wide ffill and bfill. Changes nothing else. |
| Telemetry.Frame.RacingLineDeviation | pipeline/telemetry_eng.py:94-102 | Writes line_distance as LineDistanceColumn. Changes nothing else. |
| Telemetry.Frame.AddBrakeThrottle | pipeline/telemetry_eng.py:105-112 | Writes M_BRAKE_THROTTLE_1. Changes nothing else. |
| Telemetry.Frame.RecomputeVelocityAndGForce | pipeline/telemetry_eng.py:336-386 | Returns a new frame and leaves this one unchanged. The rows are the same, the raw motion columns are dropped, and VEL_* and GFORCE_* are written; every G-force is present and within [-7, 7]. |
| Telemetry.Frame.FrontWheelVsVelocity | pipeline/telemetry_eng.py:144-190 | Writes angle_fw_vs_vel from VEL_X and VEL_Y. Changes nothing else. |
| Telemetry.Frame.CarDirectionVsVelocity | pipeline/telemetry_eng.py:193-230 | Writes angle_car_vs_vel from VEL_X and VEL_Y. Changes nothing else. |
| Telemetry.Frame.FrontWheelVsCarDirection | pipeline/telemetry_eng.py:233-269 | Writes angle_fw_vs_car. Changes nothing else. |
| Telemetry.Frame.InPlaceStages | pipeline/telemetry_eng.py:13-36 | The wheel angle is refilled. The names gain the window, line_distance and brake-throttle columns. The features are the old ones with those columns, computed on the refilled rows. The window flags equal those of the original rows. |
| Telemetry.InPlaceFeaturesKeep | pipeline/telemetry_eng.py:13-36 | The in-place stages keep every column and write the window, line and brake-throttle columns. The windows are those of the rows. |
| Telemetry.SamePositionsSameWindows | pipeline/telemetry_eng.py:115-141 | The apex distances and window flags depend only on the rows' positions, so the second window pass reproduces the first. |
| Telemetry.WindowsAgain | pipeline/telemetry_eng.py:13-36 | Computing the windows again on other rows replaces the first ones entirely. |
| Telemetry.Frame.AngleStages | pipeline/telemetry_eng.py:42-55 | Writes the three angle columns, computed against the frame's VEL_X and VEL_Y, and adds their names. Every other column keeps its value. |
| Telemetry.WithAnglesKeep | pipeline/telemetry_eng.py:42-55 | The angle stages change only the three angle columns and write all three. |
| Telemetry.Frame.RecomputedWithAngles | pipeline/telemetry_eng.py:38-55 | The recomputed copy with the angles. It has the same rows and names without the raw motion columns, plus the motion and angle names. Its features are the recomputed motion columns and the angles against the recomputed velocities. Every G-force is present and within [-7, 7]. |
| Telemetry.Frame.TelemetryEng | pipeline/telemetry_eng.py:13-57 | The frame given ends as InPlaceStages leaves it. The returned frame has the same rows, and the motion and angle columns computed on them, as RecomputedWithAngles states. It has every feature column, with every G-force present and within [-7, 7]. |
| LapTime.Split | pipeline/summary_eng.py:50 | `split(":")` gives at least one part, and exactly one iff there is no ':'. |
| LapTime.TimeToSeconds | pipeline/summary_eng.py:48-51 | Fails with NotTwoParts exactly when the string does not split into two parts on ':'. |
| LapTime.SplitTwo | pipeline/summary_eng.py:50 | "A:B" with no ':' in A or B splits into [A, B]. |
| LapTime.ParseFixed | pipeline/summary_eng.py:51 | `float("P.Q")` for digit strings reads P + Q/10^\|Q\|. |
| LapTime.TimeFromParts | pipeline/summary_eng.py:50-51 | Minutes and a seconds part that reads as s give 60·minutes + s. |
| LapTime.FormatRoundTrip | pipeline/summary_eng.py:48-51 | Reading back "M:SS.sss" written for m minutes and ms milliseconds gives 60·m + ms/1000. |
| LapTime.NinetySeconds | pipeline/summary_eng.py:48-51 | "1:30.000" reads as 90 seconds. |
| LapTime.NinetyOneAndAHalfSeconds | pipeline/summary_eng.py:48-51 | "1:31.500" reads as 91.5 seconds, so the two give a sector time of 1.5. |
| LapTime.NoColonRefused | pipeline/summary_eng.py:50 | A time with no ':' or with two is refused. |
| Summary.LapExtremes | pipeline/summary_eng.py:56-58 | Finds a first and a last row of the lap in lap-distance order. |
| Summary.LapSectorTime | pipeline/summary_eng.py:56-59 | The last row's lap time minus the first row's. It fails only when one of those two times does not read. |
| Summary.InitialiseLapSummary | pipeline/summary_eng.py:42-63 | One row per distinct lap, in order of first appearance (as Rows.LapIds lists them), holding its sector time. It fails only when a first or last row's time does not read, and succeeds when every time reads. |
| Summary.SectorTimes | pipeline/summary_eng.py:54-61 | The loop over the given laps: one row per lap, in the given order, with its sector time, or the failure of the first unreadable lap. |
| Summary.SectorTimeDetermined | pipeline/summary_eng.py:56-59 | When the first rows agree on their time and so do the last rows, the sector time is their difference whichever rows the sort picks. |
| Summary.GroupMean | pipeline/summary_eng.py:98-115 | The per-lap mean is present exactly for laps with rows, and is then the column's sum over the lap's rows divided by their number. |
| Summary.LapValues | pipeline/summary_eng.py:98-115 | The column over the lap's rows: one value per row of the lap, in row order, and exactly the values those rows hold. |
| Summary.GroupMax | pipeline/summary_eng.py:118-135 | The per-lap peak is present exactly for laps with rows. It is one of the lap's values, and at least every value of the lap. |
| Summary.AverageBelowPeak | pipeline/summary_eng.py:98-135 | Average pressure is at most peak pressure, and at least one sample is at or below the average. |
| Summary.AddPressure | pipeline/summary_eng.py:98-135 | A pressure merge keeps every summary row in order and sets only its own column, to the lap's statistic. |
| Summary.LineDistanceMean | pipeline/summary_eng.py:71 | The mean is present iff the lap has a present line distance (NaN skipped). It is then the sum of the distances, each the root of its stored square, divided by their number. |
| Summary.PresentInLap | pipeline/summary_eng.py:71 | The present line distances of the lap's rows: one value per such row, in row order. |
| Summary.LineDistanceMeanBounds | pipeline/summary_eng.py:66-75 | The mean deviation lies within any bounds that hold for the lap's present distances. |
| Summary.LineDistanceMeanZero | pipeline/summary_eng.py:71 | Under `IsSqrt`, the mean deviation is 0 iff every present row of the lap lies on the racing line. |
| Summary.AddAvgLineDistance | pipeline/summary_eng.py:66-75 | The left merge keeps every summary row in order and sets avg_line_distance to the lap's mean distance. |
| Summary.Lookup | pipeline/summary_eng.py:74 | The value a merge finds for a lap: None iff no table row has that lap, otherwise a value stored for it. |
| Summary.LapPoints | pipeline/summary_eng.py:83-84 | Exactly the positions of the lap's rows. |
| Summary.ApexDistanceIsNearest | pipeline/summary_eng.py:82-88 | dist_to_apex1/2 are at most the distance from the apex to every row of the lap, and equal it for some row. |
| Summary.ApexMerge | pipeline/summary_eng.py:93 | The inner merge keeps only rows of laps present in the telemetry. |
| Summary.ApexMergeKeepsRows | pipeline/summary_eng.py:93 | When every summary lap has rows, the inner merge keeps every row in order and fills in the apex distances. |
| Summary.ApexTable | pipeline/summary_eng.py:81-92 | One (lap, distances) row per distinct lap, in order of first appearance (as Rows.LapIds lists them). |
| Summary.ApexLookup | pipeline/summary_eng.py:93 | The apex table answers a lap's distances iff the lap has rows. |
| Summary.MinApexDistance | pipeline/summary_eng.py:78-95 | Fails iff a position is missing (the k-d tree cannot be built). Otherwise it is the inner merge. |
| Summary.MergeApexTable | pipeline/summary_eng.py:93 | With a table that answers each lap's distances, the inner merge: summary rows whose lap has rows, in order, with the distances set. |
| Summary.FirstOverSpec | pipeline/summary_eng.py:140-154 | The reported point is the first row of the lap in row order over the threshold (strict), with its position and reading. It is (None, None, 0) when no row is over. |
| Summary.ReadingOverIff | pipeline/summary_eng.py:142-179 | The reported brake is over the threshold iff some brake of the lap is. The reported steer is over the threshold in size iff some steer of the lap is. The steer keeps its sign. |
| Summary.FirstPointOfLap | pipeline/summary_eng.py:141-154 | Scanning the rows in order finds FirstOver. |
| Summary.FirstPointTable | pipeline/summary_eng.py:139-158 | One first-point row per distinct lap, in order of first appearance (as Rows.LapIds lists them). |
| Summary.AddFirstPoints | pipeline/summary_eng.py:138-185 | The left merge keeps every summary row in order. It sets the brake or turn point of each lap with rows, and leaves it missing otherwise. |
| Summary.AddPressures | pipeline/summary_eng.py:24-32 | The four pressure merges set the four columns to the lap's mean and peak. |
| Summary.AddBothFirstPoints | pipeline/summary_eng.py:35-36 | Both first-point merges set the brake and turn points. |
| Summary.AddDistances | pipeline/summary_eng.py:17-22 | Fails iff a position is missing. Otherwise it keeps every row and sets the line and apex distances. |
| Summary.AddColumns | pipeline/summary_eng.py:16-37 | Fails iff a position is missing. Otherwise every row gets all its merged columns. |
| Summary.SummaryEng | pipeline/summary_eng.py:11-39 | One row per distinct lap, in order of first appearance (as Rows.LapIds lists them), each the complete summary of its lap. It succeeds when every position is present and every lap time reads. |
| Preprocess.ExitT2Speed | EDA_base_cleaned.py:86-93 | exit_T2_speed of a pair is the speed of its last TURN == 2 row, and NaN iff there is none. |
| Preprocess.ExitColumn | EDA_base_cleaned.py:95-99 | The left merge gives every row the target of its pair and keeps the row count. |
| Preprocess.RefillKeepsPresent | EDA_base_cleaned.py:143-149 | The refill leaves a present value unchanged. |
| Preprocess.ColumnFillBounded | EDA_base_cleaned.py:147-148 | The column-wide fills only copy values, so bounds on present values carry over. |
| Preprocess.RefillBounded | EDA_base_cleaned.py:143-149 | Bounds on the present values carry over to every refilled value. |
| Preprocess.RefilledGComplete | EDA_base_cleaned.py:128-149 | Every refilled G-force is present and within [-7, 7]. |
| Preprocess.AddedNamesNotDropped | EDA_base_cleaned.py:163-174 | The redundant list names neither exit_T2_speed nor a recomputed or raw motion column. |
| Preprocess.AddThenDrop | EDA_base_cleaned.py:95-110 | Adding then dropping fails iff a listed column is in neither list. Otherwise a column remains iff it was there or added, and is not listed. |
| Preprocess.DropAddDrop | EDA_base_cleaned.py:95-174 | Fails iff a column of either drop is absent. Otherwise it gives the exact membership of the resulting columns. |
| Preprocess.EdaColumns | EDA_base_cleaned.py:95-174 | Fails iff a dropped column is absent. Otherwise: the input columns plus exit_T2_speed, minus the raw motion columns, plus VEL_* and GFORCE_*, minus the redundant list. |
| Preprocess.Filters | EDA_base_cleaned.py:47-70 | The six filters (tracks, lap validity, status, X/Y/Z, distance, turn) in turn are one selection of the rows passing all six, in their original order, every copy kept. |
| Preprocess.RefillG | EDA_base_cleaned.py:128-149 | One GFORCE_* column: the refill of the masked quotient, every value present and within [-7, 7]. |
| Preprocess.BuildRecords | EDA_base_cleaned.py:112-156 | Every record carries its row, its target, and velocities, G-forces and wheel angle derived as the source does, with every G-force present and within [-7, 7]. |
| Preprocess.PreprocessedVelocities | EDA_base_cleaned.py:113-120 | The first row of each (session, lap) pair has velocity 0 on every axis. |
| Preprocess.PreprocessF1Data | EDA_base_cleaned.py:42-175 | Fails iff a dropped column is absent. Otherwise the rows are a sorted permutation of the filtered rows, and the rows with equal keys keep their original order. Each row carries its target and derived motion columns, with the column list EdaColumns gives. |
| Preprocess.OptimizeTargetVariable | utils/basic_feature_engineering.py:14-16 | The selection, in original order, of the records with exit_T2_speed ≥ 175. Every copy is kept. |
| Pipeline.KeptStages | utils/pipeline.py:311-339 | Fails iff the boundaries hold one or two points in all. Otherwise gives the rows after the filter, NA removal, re-index, slice, track limits and short-lap filter. |
| Pipeline.NoBoundaryKeepsSlice | utils/pipeline.py:335-339 | With no boundary points the track-limit check keeps every sliced row, so only the short-lap filter follows the slice. |
| Pipeline.KeptRows | utils/pipeline.py:311-339 | The kept rows are exactly the re-indexed rows that lie in the rectangle and corridor, whose lap stays on track, and whose lap still has 700 rows. Every copy is kept. |
| Pipeline.KeptRowFacts | utils/pipeline.py:311-339 | Every kept row is on track 0, has a position in the rectangle and inside the corridor, and its lap has at least 700 kept rows. |
| Pipeline.IndexedRowFacts | utils/pipeline.py:20-46 | A re-indexed row is on track 0 and has X and Y. |
| Pipeline.BuildFrame | utils/pipeline.py:342-347 | The frame holds the kept rows with the steering refilled and gains the four window columns. |
| Pipeline.SummaryStage | utils/pipeline.py:225-246 | The utils `initialise_lap_summary`: one row per lap, in order of first appearance, with its sector time. It fails only on an unreadable first or last time. |
| Pipeline.SteeringKeepsLaps | utils/pipeline.py:139-147 | The steering refill changes no lap index, lap time or lap distance, so the summary sees the same laps. |
| Pipeline.DataPipeline | utils/pipeline.py:297-352 | The stages in order: an absent redundant column fails first, then boundaries of one or two points in all, then an unreadable lap time. On success it returns the kept rows, steering refilled, plus the boundaries and one summary row per lap. The frame's columns are the loaded ones with lap_index added, the redundant ones dropped and the window columns added. |
| Pipeline.FrameColumnsFacts | utils/pipeline.py:318-324 | The column step fails iff `remove_redundant_cols` fails on the loaded columns. On success it holds lap_index and every loaded column that is not redundant, and the frame's columns hold lap_index. |
| Pipeline.TableStages | utils/pipeline.py:326-352 | After the column drop: fails with BadBoundary iff the boundaries hold one or two points in all. Otherwise the frame and the summary are as in DataPipeline, on the given column list, which the frame keeps. |

## Left out

- Reading and writing files: the CSV readers, `read_data`, the `read_process_*` readers and
  the file deletion. The table, its column names, the two boundaries and the racing line
  are parameters. The coordinate window the boundary readers apply is not modelled.
- Logging and the `print` calls of `define_cut_line`: side effects with no result.
- pipeline/pipeline.py and create_data.py: glue around file I/O. They are not part of
  this model.
- Plotting: `plot_track_rotated` and utils/visualization_functions.py.
- The logarithm in `optimize_target_variable` and the root-level
  basic_feature_engineering.py (the same filter followed by `np.log`).
- Square roots. Every distance column holds the squared distance: line_distance,
  dist_to_t*_apex, dist_to_apex*, dist_to_track. Every threshold is squared: 25 for 5 m
  and 2500 for 50 m. Telemetry.WindowBySquares shows the window test is unchanged. The
  cut line, the angle features and avg_line_distance take `sqrt` as a parameter.
  avg_line_distance takes the root of each stored square before averaging, so it is the
  mean of the distances.
- Trigonometry: cos, sin, deg2rad and arccos are a parameter record. Their properties
  are hypotheses of the lemmas that use them: the unit circle, and arccos onto [0, 180].
- Floating point. Reals are exact. NaN and ±inf appear only where the code relies on
  them: a missing value as `None`, and division results as `Num`.
- `float()` parses only plain decimal strings with an optional sign. Exponents, "inf",
  "nan", digit-group underscores ("1_000.5"), non-ASCII Unicode digits and surrounding
  spaces are not read. Any other string is an error, as a
  `ValueError` is.
- LapTime.TimeToSeconds: only the "not exactly two parts" error is characterised as an
  if-and-only-if. A part that does not read as a number is an error, but which error
  and for which strings is not stated.
- Telemetry.LineDistanceColumn: with an empty racing line the k-d tree query answers
  inf for every row, and avg_line_distance is then inf. The model gives None, so the mean
  is missing instead, because an infinite distance is not a value of the column type.
- Rows.Row: brake, throttle, steer, the lap time in ms, the lap distance, the lap time
  string, the speed and the forward vector (M_WORLDFORWARDDIRX_1/Y_1) are always present.
  In the source a NaN there is skipped by `mean`, `max` and `last`, and a NaN lap time
  makes `split` raise. Only the positions and the wheel angle may be missing here.
- The internals of shapely and scipy. `Polygon.contains` is ray casting with a strict
  boundary. `exterior.distance` is the minimum segment distance over the ring's
  edges. `cKDTree` is a linear minimum.
- Geometry.SegDistSqIsMinimal: stated only for segments of positive length. A
  zero-length segment is a point (Geometry.DegenerateSegment).
- The tie-breaking of the one-column `sort_values("M_LAPDISTANCE_1")` in
  `initialise_lap_summary`. That sort is not stable. The sector time is stated for some
  first and some last row by lap distance (Summary.SectorTimeDetermined covers agreeing
  ties).
- Sorting by FRAME in `define_cut_line`. The boundaries are taken as already in FRAME
  order.
- A row missing a coordinate inside `min_apex_distance`. The k-d tree raises, which is
  modelled as an error for the whole stage.
- Pandas merge suffixes when exit_T2_speed is already a column, or when lap_index already
  is before `re_index`. Each merge is modelled as adding one column, which is left in
  place when the name is already present.
- pandas behaviour on an empty table. For example, `diff` on no rows and merges with
  empty tables are modelled as empty sequences.

## Behaviour to note

The model follows these behaviours of the code:

- The corridor and track-limit polygons use strict containment
  (pipeline/spatial.py:53 and 75). A row on an edge or at a corner is outside
  (Spatial.BoundaryRowDropped).
- The first braking and turning points are the first rows over the threshold in row
  order (pipeline/summary_eng.py:144 and 169). They are not sorted by lap distance
  (Summary.FirstOverSpec).
- In `interpolate_wheel_angle` (pipeline/telemetry_eng.py:60-65), only the
  interpolation is per lap. The forward and backward fill run over the whole column
  and can cross laps (Kinematics.ColumnFillCrossesGroups). The same holds for
  `interpolate_steering` (utils/pipeline.py:140-144) and the exploratory refill
  (EDA_base_cleaned.py:147-155).
- `remove_repeated_point_laps` counts the occurrences of each position with
  `groupby.size` (utils/pipeline.py:86-93). `remove_short_laps` counts every row
  (utils/pipeline.py:193).
- `min_apex_distance` uses an inner merge (pipeline/summary_eng.py:93), so a summary
  lap with no telemetry rows is dropped (Summary.ApexMerge).
- The thresholds are those of the code: 5 for the track limits
  (pipeline/spatial.py:64), 500 distinct points (pipeline/cleaning.py:48), 10 repeats
  (utils/pipeline.py:81) and 700 rows (utils/pipeline.py:190).
