/** The cleaning stages: row filters, lap re-indexing, the lap-level filters that keep or
    drop whole laps, and the removal of a fixed list of columns. Every stage returns a new
    table; none updates its input. */
module Cleaning {
  import opened Wrappers
  import opened Seqs
  import opened Rows
  import opened Sorting
  import opened Geometry

  // ---------------------------------------------------------------------------
  // Row filters

  function IsMelbourne(r: Row): bool {
    r.trackId == 0
  }

  /** `filter_melbourne`: the rows recorded on track 0, every copy kept, in order. */
  function FilterMelbourne(rows: seq<Row>): (r: seq<Row>)
    ensures r == Filter(rows, IsMelbourne)
    ensures forall i :: 0 <= i < |r| ==> r[i].trackId == 0
    ensures forall x :: multiset(r)[x] == if x.trackId == 0 then multiset(rows)[x] else 0
  {
    FilterMultisetAll(rows, IsMelbourne);
    Filter(rows, IsMelbourne)
  }

  function HasXY(r: Row): bool {
    r.x.Some? && r.y.Some?
  }

  /** `remove_na`: the rows whose X and Y are both present, every copy kept, in order. */
  function RemoveNa(rows: seq<Row>): (r: seq<Row>)
    ensures r == Filter(rows, HasXY)
    ensures forall i :: 0 <= i < |r| ==> r[i].x.Some? && r[i].y.Some?
    ensures forall x :: multiset(r)[x] == if x.x.Some? && x.y.Some? then multiset(rows)[x] else 0
  {
    FilterMultisetAll(rows, HasXY);
    Filter(rows, HasXY)
  }

  // ---------------------------------------------------------------------------
  // Re-indexing

  function KeyColumn(rows: seq<Row>): (ks: seq<(int, int)>)
    ensures |ks| == |rows|
    ensures forall i :: 0 <= i < |rows| ==> ks[i] == LapKey(rows[i])
  {
    seq(|rows|, i requires 0 <= i < |rows| => LapKey(rows[i]))
  }

  function PairKey(k: (int, int)): SortKey {
    SortKey(k.0, k.1, 0.0)
  }

  /** The distinct (session, lap) pairs of the table in ascending lexicographic order
      (`drop_duplicates` followed by `sort_values`). */
  function SortedLapKeys(rows: seq<Row>): (ks: seq<(int, int)>)
    ensures NoDup(ks)
    ensures forall i, j :: 0 <= i < j < |ks| ==> KeyLt(ks[i], ks[j])
    ensures forall k :: k in ks <==> exists i :: 0 <= i < |rows| && LapKey(rows[i]) == k
  {
    var d := Dedupe(KeyColumn(rows));
    var ks := SortBy(d, PairKey);
    SortedDistinct(d, ks);
    ks
  }

  lemma SortedDistinct(d: seq<(int, int)>, ks: seq<(int, int)>)
    requires NoDup(d)
    requires multiset(ks) == multiset(d)
    requires SortedBy(ks, PairKey)
    ensures NoDup(ks)
    ensures forall i, j :: 0 <= i < j < |ks| ==> KeyLt(ks[i], ks[j])
    ensures forall k :: k in ks <==> k in d
  {
    NoDupMultiset(d);
    NoDupMultiset(ks);
    forall k ensures k in ks <==> k in d {
      assert k in ks <==> multiset(ks)[k] > 0;
      assert k in d <==> multiset(d)[k] > 0;
    }
    forall i, j | 0 <= i < j < |ks| ensures KeyLt(ks[i], ks[j]) {
      assert KeyLe(PairKey(ks[i]), PairKey(ks[j]));
    }
  }

  /** The column `re_index` adds. */
  const LapIndexColumn: string := "lap_index"

  /** The column list after `re_index`: the merge with the table of unique keys appends
      lap_index after the existing columns. */
  function ReIndexColumns(cols: seq<string>): (r: seq<string>)
    ensures |cols| <= |r| && r[..|cols|] == cols
    ensures forall c :: c in r <==> c in cols || c == LapIndexColumn
  {
    if LapIndexColumn in cols then cols else cols + [LapIndexColumn]
  }

  /** `re_index`: every row, in the same order, with lap_index set to the position of its
      (session, lap) pair among the sorted distinct pairs (the left merge on a table of
      unique keys). */
  function ReIndex(rows: seq<Row>): (r: seq<Sample>)
    ensures |r| == |rows|
    ensures forall i :: 0 <= i < |rows| ==> r[i].row == rows[i]
    ensures forall i :: 0 <= i < |rows| ==>
      r[i].lap < |SortedLapKeys(rows)| && SortedLapKeys(rows)[r[i].lap] == LapKey(rows[i])
  {
    var ks := SortedLapKeys(rows);
    seq(|rows|, i requires 0 <= i < |rows| => Sample(IndexOf(ks, LapKey(rows[i])), rows[i]))
  }

  /** The lap indices are exactly 0 .. N - 1, where N is the number of distinct
      (session, lap) pairs. */
  lemma ReIndexDense(rows: seq<Row>)
    ensures |SortedLapKeys(rows)| == |set i | 0 <= i < |rows| :: LapKey(rows[i])|
    ensures forall i :: 0 <= i < |rows| ==> ReIndex(rows)[i].lap < |SortedLapKeys(rows)|
    ensures forall m :: 0 <= m < |SortedLapKeys(rows)| ==> m in Laps(ReIndex(rows))
  {
    var ks := SortedLapKeys(rows);
    NoDupCard(ks);
    KeySets(rows, ks);
    forall m | 0 <= m < |ks| ensures m in Laps(ReIndex(rows)) {
      IndexReached(rows, m);
    }
  }

  lemma IndexReached(rows: seq<Row>, m: nat)
    requires m < |SortedLapKeys(rows)|
    ensures m in Laps(ReIndex(rows))
  {
    var ks := SortedLapKeys(rows);
    assert ks[m] in ks;
    var i :| 0 <= i < |rows| && LapKey(rows[i]) == ks[m];
    var r := ReIndex(rows);
    var a := r[i].lap;
    assert a < |ks| && ks[a] == ks[m];
    assert a == m;
    assert Laps(r)[i] == m;
  }

  lemma KeySets(rows: seq<Row>, ks: seq<(int, int)>)
    requires forall k :: k in ks <==> exists i :: 0 <= i < |rows| && LapKey(rows[i]) == k
    ensures (set k | k in ks) == (set i | 0 <= i < |rows| :: LapKey(rows[i]))
  {
    var a := set k | k in ks;
    var b := set i | 0 <= i < |rows| :: LapKey(rows[i]);
    forall k | k in a ensures k in b {
      var i := Witness(rows, k);
    }
  }

  /** A row carrying a given (session, lap) pair of the table. */
  lemma Witness(rows: seq<Row>, k: (int, int)) returns (i: nat)
    requires exists i :: 0 <= i < |rows| && LapKey(rows[i]) == k
    ensures i < |rows| && LapKey(rows[i]) == k
  {
    i :| 0 <= i < |rows| && LapKey(rows[i]) == k;
  }

  /** Lap indices follow the lexicographic order of (session, lap): a smaller pair gets a
      smaller index, and two rows share an index exactly when they share a pair. */
  lemma ReIndexMonotone(rows: seq<Row>, i: nat, j: nat)
    requires i < |rows| && j < |rows|
    ensures KeyLt(LapKey(rows[i]), LapKey(rows[j])) ==> ReIndex(rows)[i].lap < ReIndex(rows)[j].lap
    ensures LapKey(rows[i]) == LapKey(rows[j]) <==> ReIndex(rows)[i].lap == ReIndex(rows)[j].lap
  {
    var ks := SortedLapKeys(rows);
    var a, b := ReIndex(rows)[i].lap, ReIndex(rows)[j].lap;
    if a < b {
      assert KeyLt(ks[a], ks[b]);
    } else if a == b {
      assert ks[a] == ks[b];
    } else {
      assert KeyLt(ks[b], ks[a]);
    }
  }

  // ---------------------------------------------------------------------------
  // Lap-level filters

  function KeepLap(keep: nat -> bool): Sample -> bool {
    (x: Sample) => keep(x.lap)
  }

  /** Keeps the rows of the laps that `keep` accepts (`df[df["lap_index"].isin(...)]`):
      an accepted lap keeps all its rows, duplicates included, in order, with its
      lap_index unchanged, and a rejected lap loses all of them. */
  function KeepLaps(s: seq<Sample>, keep: nat -> bool): (r: seq<Sample>)
    ensures r == Filter(s, KeepLap(keep))
    ensures forall k :: LapRows(r, k) == if keep(k) then LapRows(s, k) else []
    ensures forall x :: multiset(r)[x] == if keep(x.lap) then multiset(s)[x] else 0
  {
    KeepLapsByLap(s, keep);
    FilterMultisetAll(s, KeepLap(keep));
    Filter(s, KeepLap(keep))
  }

  lemma KeepLapsByLap(s: seq<Sample>, keep: nat -> bool)
    ensures forall k :: LapRows(Filter(s, KeepLap(keep)), k) == if keep(k) then LapRows(s, k) else []
  {
    forall k ensures LapRows(Filter(s, KeepLap(keep)), k) == if keep(k) then LapRows(s, k) else [] {
      var both := (x: Sample) => keep(x.lap) && x.lap == k;
      FilterFilter(s, KeepLap(keep), OnLap(k), both);
      if keep(k) {
        FilterExt(s, both, OnLap(k));
      } else {
        FilterNone(s, both);
      }
    }
  }

  const MinDistinctPoints: nat := 500
  const MaxRepeats: nat := 10
  const MinLapRows: nat := 700

  /** The (X, Y) pair of a sample, missing values included (`drop_duplicates` treats two
      NaNs as equal). */
  function XY(x: Sample): (Option<real>, Option<real>) {
    (x.row.x, x.row.y)
  }

  function XYColumn(s: seq<Sample>): (r: seq<(Option<real>, Option<real>)>)
    ensures |r| == |s|
    ensures forall i :: 0 <= i < |s| ==> r[i] == XY(s[i])
  {
    seq(|s|, i requires 0 <= i < |s| => XY(s[i]))
  }

  /** The number of distinct (X, Y) pairs among the rows of lap k. */
  function DistinctPoints(s: seq<Sample>, k: nat): (n: nat)
    ensures n == |set x | x in LapRows(s, k) :: XY(x)|
    ensures n <= |LapRows(s, k)|
  {
    var pts := XYColumn(LapRows(s, k));
    DedupeCard(pts);
    assert (set p | p in pts) == (set x | x in LapRows(s, k) :: XY(x)) by {
      forall p | p in pts ensures p in (set x | x in LapRows(s, k) :: XY(x)) {
        var i :| 0 <= i < |pts| && pts[i] == p;
        assert LapRows(s, k)[i] in LapRows(s, k);
      }
      forall x | x in LapRows(s, k) ensures XY(x) in pts {
        var i :| 0 <= i < |LapRows(s, k)| && LapRows(s, k)[i] == x;
        assert pts[i] == XY(x);
      }
    }
    |Dedupe(pts)|
  }

  /** `remove_stuttery_laps`: keeps a lap iff it has at least `minPoints` distinct (X, Y)
      positions. */
  function RemoveStutteryLaps(s: seq<Sample>, minPoints: nat): (r: seq<Sample>)
    ensures forall k :: LapRows(r, k) == if DistinctPoints(s, k) >= minPoints then LapRows(s, k) else []
    ensures forall x :: multiset(r)[x] == if DistinctPoints(s, x.lap) >= minPoints then multiset(s)[x] else 0
  {
    KeepLaps(s, (k: nat) => DistinctPoints(s, k) >= minPoints)
  }

  function AtLapPoint(k: nat, p: Point): Sample -> bool {
    (x: Sample) => x.lap == k && Position(x.row) == Some(p)
  }

  /** How many rows of lap k sit exactly at p. */
  function Repeats(s: seq<Sample>, k: nat, p: Point): nat {
    |Filter(s, AtLapPoint(k, p))|
  }

  /** Some present position occurs more than `maxRepeats` times in lap k. Rows with a
      missing coordinate form no group (`groupby` drops NaN keys). */
  predicate HasRepeatedPoint(s: seq<Sample>, k: nat, maxRepeats: nat) {
    exists i :: 0 <= i < |s| && s[i].lap == k && Position(s[i].row).Some? &&
      Repeats(s, k, Position(s[i].row).value) > maxRepeats
  }

  /** `remove_repeated_point_laps`: drops a lap iff some (X, Y) position occurs in it more
      than `maxRepeats` times (strictly more). */
  function RemoveRepeatedPointLaps(s: seq<Sample>, maxRepeats: nat): (r: seq<Sample>)
    ensures forall k :: LapRows(r, k) == if HasRepeatedPoint(s, k, maxRepeats) then [] else LapRows(s, k)
    ensures forall x :: multiset(r)[x] == if HasRepeatedPoint(s, x.lap, maxRepeats) then 0 else multiset(s)[x]
  {
    KeepLaps(s, (k: nat) => !HasRepeatedPoint(s, k, maxRepeats))
  }

  /** `remove_short_laps`: keeps a lap iff it has at least `minPoints` rows, duplicates
      counted. */
  function RemoveShortLaps(s: seq<Sample>, minPoints: nat): (r: seq<Sample>)
    ensures forall k :: LapRows(r, k) == if |LapRows(s, k)| >= minPoints then LapRows(s, k) else []
    ensures forall x :: multiset(r)[x] == if |LapRows(s, x.lap)| >= minPoints then multiset(s)[x] else 0
  {
    KeepLaps(s, (k: nat) => |LapRows(s, k)| >= minPoints)
  }

  /** A lap with at least `minPoints` distinct positions also has at least `minPoints`
      rows, so the short-lap filter never removes a lap the stuttery-lap filter kept
      with the same threshold. */
  lemma StutteryImpliesLong(s: seq<Sample>, minPoints: nat)
    ensures RemoveShortLaps(RemoveStutteryLaps(s, minPoints), minPoints) == RemoveStutteryLaps(s, minPoints)
  {
    var r := RemoveStutteryLaps(s, minPoints);
    StutteryLapsLong(s, minPoints);
    FilterAll(r, KeepLap((k: nat) => |LapRows(r, k)| >= minPoints));
  }

  lemma StutteryLapsLong(s: seq<Sample>, minPoints: nat)
    ensures var r := RemoveStutteryLaps(s, minPoints);
      forall x :: x in r ==> |LapRows(r, x.lap)| >= minPoints
  {
    var r := RemoveStutteryLaps(s, minPoints);
    forall x | x in r ensures |LapRows(r, x.lap)| >= minPoints {
      StutteryLapLong(s, minPoints, x);
    }
  }

  lemma StutteryLapLong(s: seq<Sample>, minPoints: nat, x: Sample)
    requires x in RemoveStutteryLaps(s, minPoints)
    ensures |LapRows(RemoveStutteryLaps(s, minPoints), x.lap)| >= minPoints
  {
    var r := RemoveStutteryLaps(s, minPoints);
    assert multiset(r)[x] > 0;
    assert DistinctPoints(s, x.lap) >= minPoints;
    assert LapRows(r, x.lap) == LapRows(s, x.lap);
  }

  // ---------------------------------------------------------------------------
  // Columns

  /** The columns `remove_redundant_cols` and `preprocess_f1_data` remove. */
  const RedundantColumns: seq<string> := [
    "CREATED_ON", "GAMEHOST", "DEVICENAME", "SESSION_GUID", "R_SESSION", "R_GAMEHOST",
    "M_PACKETFORMAT", "M_GAMEMAJORVERSION", "M_GAMEMINORVERSION", "M_FRAMEIDENTIFIER",
    "R_STATUS", "M_CURRENTLAPNUM_1", "M_TRACKID", "R_TRACKID", "M_LAPINVALID",
    "M_SECTOR1TIMEMSPART_1", "M_SECTOR1TIMEMINUTESPART_1", "M_SECTOR2TIMEMSPART_1",
    "M_SECTOR2TIMEMINUTESPART_1", "M_SECTOR_1", "M_CURRENTLAPINVALID_1", "M_DRIVERSTATUS_1",
    "FRAMEID", "M_TOTALLAPS", "M_SESSIONTYPE", "R_FAV_TEAM",
    "M_TYRESSURFACETEMPERATURE_RL_1", "M_TYRESSURFACETEMPERATURE_RR_1",
    "M_TYRESSURFACETEMPERATURE_FL_1", "M_TYRESSURFACETEMPERATURE_FR_1",
    "M_TYRESINNERTEMPERATURE_RL_1", "M_TYRESINNERTEMPERATURE_RR_1",
    "M_TYRESINNERTEMPERATURE_FL_1", "M_TYRESINNERTEMPERATURE_FR_1", "M_ENGINETEMPERATURE_1"]

  function NotIn(drop: seq<string>): string -> bool {
    (c: string) => c !in drop
  }

  function MissingFrom(cols: seq<string>): string -> bool {
    (c: string) => c !in cols
  }

  /** `df.drop(columns=..., errors="ignore")`: the columns not listed, in order. */
  function DropPresent(cols: seq<string>, drop: seq<string>): (r: seq<string>)
    ensures forall c :: c in r <==> c in cols && c !in drop
  {
    Filter(cols, NotIn(drop))
  }

  /** `df.drop(columns=...)`: the columns not listed, in order; a listed column that is
      absent raises, and the error names exactly the absent ones. */
  function DropColumns(cols: seq<string>, drop: seq<string>): (r: Result<seq<string>, seq<string>>)
    ensures r.Ok? <==> forall c :: c in drop ==> c in cols
    ensures r.Ok? ==> r.value == DropPresent(cols, drop)
    ensures r.Err? ==> r.error != [] && forall c :: c in r.error <==> c in drop && c !in cols
  {
    var missing := Filter(drop, MissingFrom(cols));
    if missing == [] then Ok(DropPresent(cols, drop))
    else
      assert missing[0] in drop && MissingFrom(cols)(missing[0]);
      Err(missing)
  }

  /** `remove_redundant_cols`. */
  function RemoveRedundantCols(cols: seq<string>): (r: Result<seq<string>, seq<string>>)
    ensures r.Ok? <==> forall c :: c in RedundantColumns ==> c in cols
    ensures r.Ok? ==> forall c :: c in r.value <==> c in cols && c !in RedundantColumns
  {
    DropColumns(cols, RedundantColumns)
  }

  /** lap_index is not a redundant column: dropping the redundant columns after
      `re_index` fails for exactly the same missing names as before it, and keeps
      lap_index. */
  lemma ReIndexedColumnsDrop(cols: seq<string>)
    ensures RemoveRedundantCols(ReIndexColumns(cols)).Ok? <==> RemoveRedundantCols(cols).Ok?
    ensures RemoveRedundantCols(ReIndexColumns(cols)).Ok? ==>
      LapIndexColumn in RemoveRedundantCols(ReIndexColumns(cols)).value
  {
    assert LapIndexColumn !in RedundantColumns;
  }
}
