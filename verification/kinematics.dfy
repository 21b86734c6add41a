/** Per-lap finite differences, as `groupby(key).diff()` computes them, and the gap
    filling that follows them: grouped linear interpolation by position, forward fill and
    back fill. Everything is generic in the group key: `lap_index` in the pipeline, the
    (session, lap number) pair in the exploratory preprocessing. Float64 division is
    modelled exactly on reals, with its infinities and NaN made explicit. */
module Kinematics {
  import opened Wrappers
  import opened Geometry
  import Seqs

  // ---------------------------------------------------------------------------
  // Floating-point results of a division

  /** A float64 quotient: finite, +inf, -inf or NaN. */
  datatype Num = Fin(v: real) | PosInf | NegInf | NaN

  /** n / d: NaN when either operand is NaN or for 0 / 0, an infinity of the numerator's
      sign for a non-zero numerator over 0, the exact quotient otherwise. */
  function Quotient(n: Option<real>, d: Option<real>): Num {
    if n.None? || d.None? then NaN
    else if d.value == 0.0 then
      (if n.value > 0.0 then PosInf else if n.value < 0.0 then NegInf else NaN)
    else Fin(n.value / d.value)
  }

  /** Multiplication by a positive constant (`*= k`); infinities and NaN stay as they are. */
  function Times(q: Num, k: real): Num
    requires k > 0.0
  {
    match q
    case Fin(v) => Fin(v * k)
    case _ => q
  }

  /** Division by a positive constant (`/= k`). */
  function Over(q: Num, k: real): Num
    requires k > 0.0
  {
    match q
    case Fin(v) => Fin(v / k)
    case _ => q
  }

  /** `fillna(0)` followed by `clip(-b, b)`: NaN becomes 0 and an infinity the bound of
      its sign. */
  function FillZeroClip(q: Num, b: real): (r: real)
    requires b >= 0.0
    ensures -b <= r <= b
    ensures q.Fin? && -b <= q.v <= b ==> r == q.v
    ensures q.NaN? ==> r == 0.0
  {
    match q
    case NaN => 0.0
    case PosInf => b
    case NegInf => -b
    case Fin(v) => Clamp(v, -b, b)
  }

  /** `fillna(0)` followed by setting every value above b or below -b to NaN (None). */
  function FillZeroMask(q: Num, b: real): (r: Option<real>)
    requires b >= 0.0
    ensures r.Some? ==> -b <= r.value <= b
    ensures r.None? <==> q.PosInf? || q.NegInf? || (q.Fin? && (q.v > b || q.v < -b))
    ensures q.NaN? ==> r == Some(0.0)
  {
    match q
    case NaN => Some(0.0)
    case Fin(v) => if v > b || v < -b then None else Some(v)
    case _ => None
  }

  function Diff(a: Option<real>, b: Option<real>): Option<real> {
    if a.Some? && b.Some? then Some(a.value - b.value) else None
  }

  /** A column without missing values. */
  function Lift(t: seq<real>): (r: seq<Option<real>>)
    ensures |r| == |t|
    ensures forall i :: 0 <= i < |t| ==> r[i] == Some(t[i])
  {
    seq(|t|, i requires 0 <= i < |t| => Some(t[i]))
  }

  // ---------------------------------------------------------------------------
  // Grouped differences

  /** The previous row of group k before row hi: the last j < hi with key[j] == k. */
  function PrevInGroup<K(==)>(key: seq<K>, k: K, hi: nat): (r: Option<nat>)
    requires hi <= |key|
    ensures r.None? <==> forall j :: 0 <= j < hi ==> key[j] != k
    ensures r.Some? ==> r.value < hi && key[r.value] == k
    ensures r.Some? ==> forall j :: r.value < j < hi ==> key[j] != k
  {
    if hi == 0 then None
    else if key[hi - 1] == k then Some(hi - 1)
    else PrevInGroup(key, k, hi - 1)
  }

  /** `groupby(key)[col].diff()` at row i: NaN on the first row of a group, otherwise the
      difference from the previous row of the same group, wherever that row is. */
  function GroupDiff<K(==)>(key: seq<K>, col: seq<Option<real>>, i: nat): Option<real>
    requires |col| == |key| && i < |key|
  {
    match PrevInGroup(key, key[i], i)
    case None => None
    case Some(j) => Diff(col[i], col[j])
  }

  const MsPerSecond: real := 1000.0
  const VelocityLimit: real := 100.0
  const GLimit: real := 7.0
  const Gravity: real := 9.8

  /** VEL_* at row i: the position difference over the time difference (ms) within the
      group, times 1000, NaN filled with 0, clipped to [-100, 100]. */
  function VelocityAt<K(==)>(key: seq<K>, pos: seq<Option<real>>, t: seq<real>, i: nat): (r: real)
    requires |pos| == |key| && |t| == |key| && i < |key|
    ensures -VelocityLimit <= r <= VelocityLimit
  {
    FillZeroClip(Times(Quotient(GroupDiff(key, pos, i), GroupDiff(key, Lift(t), i)), MsPerSecond),
                 VelocityLimit)
  }

  /** GFORCE_* at row i before the refill: the velocity difference over the time
      difference within the group, times 1000, over 9.8, NaN filled with 0, and missing
      (NaN) when above 7 or below -7. */
  function GForceAt<K(==)>(key: seq<K>, vel: seq<real>, t: seq<real>, i: nat): (r: Option<real>)
    requires |vel| == |key| && |t| == |key| && i < |key|
    ensures r.Some? ==> -GLimit <= r.value <= GLimit
  {
    FillZeroMask(Over(Times(Quotient(GroupDiff(key, Lift(vel), i), GroupDiff(key, Lift(t), i)),
                            MsPerSecond), Gravity), GLimit)
  }

  /** The masked G-force column. */
  function MaskedG<K(==)>(key: seq<K>, vel: seq<real>, t: seq<real>): (g: seq<Option<real>>)
    requires |vel| == |key| && |t| == |key|
    ensures |g| == |key|
    ensures forall i :: 0 <= i < |key| ==> g[i] == GForceAt(key, vel, t, i)
  {
    seq(|key|, i requires 0 <= i < |key| => GForceAt(key, vel, t, i))
  }

  /** The first row of every group gets velocity 0 and (unmasked) G-force 0. */
  lemma FirstRowOfGroup<K>(key: seq<K>, pos: seq<Option<real>>, vel: seq<real>, t: seq<real>, i: nat)
    requires |pos| == |key| && |vel| == |key| && |t| == |key| && i < |key|
    requires forall j :: 0 <= j < i ==> key[j] != key[i]
    ensures VelocityAt(key, pos, t, i) == 0.0
    ensures GForceAt(key, vel, t, i) == Some(0.0)
  {
  }

  /** The division cases of the velocity at a row with an earlier row j of its group:
      a missing position gives 0; 0 / 0 gives 0; a non-zero displacement in zero time
      gives the clip bound of its sign; otherwise the clipped finite quotient. */
  lemma VelocityCases<K>(key: seq<K>, pos: seq<Option<real>>, t: seq<real>, i: nat)
    requires |pos| == |key| && |t| == |key| && i < |key|
    requires PrevInGroup(key, key[i], i).Some?
    ensures var j := PrevInGroup(key, key[i], i).value;
      var v := VelocityAt(key, pos, t, i);
      (pos[i].None? || pos[j].None? ==> v == 0.0) &&
      (pos[i].Some? && pos[j].Some? && t[i] == t[j] ==>
        v == (if pos[i].value > pos[j].value then VelocityLimit
              else if pos[i].value < pos[j].value then -VelocityLimit else 0.0)) &&
      (pos[i].Some? && pos[j].Some? && t[i] != t[j] ==>
        v == Clamp((pos[i].value - pos[j].value) / (t[i] - t[j]) * MsPerSecond, -VelocityLimit, VelocityLimit))
  {
  }

  /** A velocity change in zero time is an infinite acceleration, which the mask removes. */
  lemma GForceInfiniteMasked<K>(key: seq<K>, vel: seq<real>, t: seq<real>, i: nat)
    requires |vel| == |key| && |t| == |key| && i < |key|
    requires PrevInGroup(key, key[i], i).Some?
    requires var j := PrevInGroup(key, key[i], i).value; t[i] == t[j] && vel[i] != vel[j]
    ensures GForceAt(key, vel, t, i).None?
  {
  }

  // ---------------------------------------------------------------------------
  // Gap filling: specification

  /** The last row before hi of group k whose value is present. */
  function PrevAnchor<K(==)>(key: seq<K>, v: seq<Option<real>>, k: K, hi: nat): (r: Option<nat>)
    requires |v| == |key| && hi <= |key|
    ensures r.None? <==> forall j :: 0 <= j < hi && key[j] == k ==> v[j].None?
    ensures r.Some? ==> r.value < hi && key[r.value] == k && v[r.value].Some?
    ensures r.Some? ==> forall j :: r.value < j < hi && key[j] == k ==> v[j].None?
  {
    if hi == 0 then None
    else if key[hi - 1] == k && v[hi - 1].Some? then Some(hi - 1)
    else PrevAnchor(key, v, k, hi - 1)
  }

  /** The first row from lo on of group k whose value is present. */
  function NextAnchor<K(==)>(key: seq<K>, v: seq<Option<real>>, k: K, lo: nat): (r: Option<nat>)
    requires |v| == |key| && lo <= |key|
    ensures r.None? <==> forall j :: lo <= j < |key| && key[j] == k ==> v[j].None?
    ensures r.Some? ==> lo <= r.value < |key| && key[r.value] == k && v[r.value].Some?
    ensures r.Some? ==> forall j :: lo <= j < r.value && key[j] == k ==> v[j].None?
    decreases |key| - lo
  {
    if lo == |key| then None
    else if key[lo] == k && v[lo].Some? then Some(lo)
    else NextAnchor(key, v, k, lo + 1)
  }

  /** The number of rows of group k among rows lo .. hi - 1. */
  function GroupCount<K(==)>(key: seq<K>, k: K, lo: nat, hi: nat): nat
    requires lo <= hi <= |key|
    decreases hi - lo
  {
    if lo == hi then 0 else GroupCount(key, k, lo, hi - 1) + (if key[hi - 1] == k then 1 else 0)
  }

  lemma {:induction false} GroupCountSplit<K>(key: seq<K>, k: K, lo: nat, mid: nat, hi: nat)
    requires lo <= mid <= hi <= |key|
    ensures GroupCount(key, k, lo, hi) == GroupCount(key, k, lo, mid) + GroupCount(key, k, mid, hi)
    decreases hi - mid
  {
    if mid < hi {
      GroupCountSplit(key, k, lo, mid, hi - 1);
    }
  }

  /** A range holding a row of group k counts at least that row. */
  lemma GroupCountPositive<K>(key: seq<K>, k: K, lo: nat, j: nat, hi: nat)
    requires lo <= j < hi <= |key| && key[j] == k
    ensures GroupCount(key, k, lo, hi) >= 1
  {
    GroupCountSplit(key, k, lo, j, hi);
    GroupCountSplit(key, k, j, j + 1, hi);
  }

  /** `interpolate(method="linear")` applied to the group of row i: a present value stays;
      a missing one between two present values of its group is interpolated by its rank
      within the group (the index is ignored, values are taken as equally spaced); a
      missing one after the group's last present value takes that value; one before the
      group's first present value stays missing. */
  function InterpolateAt<K(==)>(key: seq<K>, v: seq<Option<real>>, i: nat): Option<real>
    requires |v| == |key| && i < |key|
  {
    if v[i].Some? then v[i]
    else
      match PrevAnchor(key, v, key[i], i)
      case None => None
      case Some(a) =>
        match NextAnchor(key, v, key[i], i + 1)
        case None => v[a]
        case Some(b) =>
          GroupCountPositive(key, key[i], a, a, b);
          Some(Lerp(v[a].value, v[b].value,
                    GroupCount(key, key[i], a, i) as real / GroupCount(key, key[i], a, b) as real))
  }

  /** `interpolate(method="linear").ffill().bfill()` inside the group of row i: as
      InterpolateAt, and a leading gap takes the group's first present value. */
  function GroupFillAt<K(==)>(key: seq<K>, v: seq<Option<real>>, i: nat): Option<real>
    requires |v| == |key| && i < |key|
  {
    var w := InterpolateAt(key, v, i);
    if w.Some? then w
    else
      match NextAnchor(key, v, key[i], i + 1)
      case None => None
      case Some(b) => v[b]
  }

  /** The last position before hi of the column holding a value. */
  function LastPresent(w: seq<Option<real>>, hi: nat): (r: Option<nat>)
    requires hi <= |w|
    ensures r.None? <==> forall j :: 0 <= j < hi ==> w[j].None?
    ensures r.Some? ==> r.value < hi && w[r.value].Some?
    ensures r.Some? ==> forall j :: r.value < j < hi ==> w[j].None?
  {
    if hi == 0 then None
    else if w[hi - 1].Some? then Some(hi - 1)
    else LastPresent(w, hi - 1)
  }

  /** The first position from lo on of the column holding a value. */
  function FirstPresent(w: seq<Option<real>>, lo: nat): (r: Option<nat>)
    requires lo <= |w|
    ensures r.None? <==> forall j :: lo <= j < |w| ==> w[j].None?
    ensures r.Some? ==> lo <= r.value < |w| && w[r.value].Some?
    ensures r.Some? ==> forall j :: lo <= j < r.value ==> w[j].None?
    decreases |w| - lo
  {
    if lo == |w| then None
    else if w[lo].Some? then Some(lo)
    else FirstPresent(w, lo + 1)
  }

  /** `Series.ffill()` over the whole column. */
  function FFill(w: seq<Option<real>>): (f: seq<Option<real>>)
    ensures |f| == |w|
  {
    seq(|w|, i requires 0 <= i < |w| =>
      match LastPresent(w, i + 1) case None => None case Some(j) => w[j])
  }

  /** `Series.bfill()` over the whole column. */
  function BFill(w: seq<Option<real>>): (b: seq<Option<real>>)
    ensures |b| == |w|
  {
    seq(|w|, i requires 0 <= i < |w| =>
      match FirstPresent(w, i) case None => None case Some(j) => w[j])
  }

  /** The grouped interpolation as a column. */
  function InterpolateColumn<K(==)>(key: seq<K>, v: seq<Option<real>>): (w: seq<Option<real>>)
    requires |v| == |key|
    ensures |w| == |key|
    ensures forall i :: 0 <= i < |key| ==> w[i] == InterpolateAt(key, v, i)
  {
    seq(|key|, i requires 0 <= i < |key| => InterpolateAt(key, v, i))
  }

  // ---------------------------------------------------------------------------
  // Gap filling: properties

  /** A present value is never changed by the fills. */
  lemma FillKeepsPresent<K>(key: seq<K>, v: seq<Option<real>>, i: nat)
    requires |v| == |key| && i < |key| && v[i].Some?
    ensures InterpolateAt(key, v, i) == v[i]
    ensures GroupFillAt(key, v, i) == v[i]
  {
  }

  /** The column-wide fill keeps present values, and fills every row of a column holding
      at least one value. */
  lemma ColumnFillKeepsPresent(w: seq<Option<real>>, i: nat)
    requires i < |w| && w[i].Some?
    ensures BFill(FFill(w))[i] == w[i]
  {
    assert LastPresent(w, i + 1) == Some(i);
    assert FirstPresent(FFill(w), i) == Some(i);
  }

  lemma ColumnFillComplete(w: seq<Option<real>>, i: nat, j: nat)
    requires i < |w| && j < |w| && w[j].Some?
    ensures BFill(FFill(w))[i].Some?
  {
    var f := FFill(w);
    assert LastPresent(w, j + 1).Some?;
    assert f[j].Some?;
    if j < i {
      assert LastPresent(w, i + 1).Some?;
      assert f[i].Some?;
      assert FirstPresent(f, i) == Some(i);
    } else {
      assert FirstPresent(f, i).Some?;
    }
  }

  lemma LerpBetween(u0: real, u1: real, t: real)
    requires 0.0 <= t <= 1.0
    ensures u0 <= u1 ==> u0 <= Lerp(u0, u1, t) <= u1
    ensures u1 <= u0 ==> u1 <= Lerp(u0, u1, t) <= u0
  {
    var d := u1 - u0;
    var s := 1.0 - t;
    assert s * d == d - t * d;
    if d >= 0.0 {
      assert t * d >= 0.0;
      assert s * d >= 0.0;
    } else {
      var e := -d;
      assert t * e >= 0.0;
      assert s * e >= 0.0;
      assert t * e == -(t * d);
      assert s * e == -(s * d);
    }
  }

  /** An interpolated value lies between the values of its two anchors, with a weight in
      (0, 1) that grows with the row's rank after the earlier anchor. */
  lemma {:induction false} InterpolatedBetweenAnchors<K>(key: seq<K>, v: seq<Option<real>>, i: nat)
    requires |v| == |key| && i < |key| && v[i].None?
    requires PrevAnchor(key, v, key[i], i).Some? && NextAnchor(key, v, key[i], i + 1).Some?
    ensures var a := PrevAnchor(key, v, key[i], i).value;
      var b := NextAnchor(key, v, key[i], i + 1).value;
      var r := InterpolateAt(key, v, i);
      r.Some? &&
      (v[a].value <= v[b].value ==> v[a].value <= r.value <= v[b].value) &&
      (v[b].value <= v[a].value ==> v[b].value <= r.value <= v[a].value) &&
      0 < GroupCount(key, key[i], a, i) < GroupCount(key, key[i], a, b)
  {
    var k := key[i];
    var a := PrevAnchor(key, v, k, i).value;
    var b := NextAnchor(key, v, k, i + 1).value;
    GroupCountPositive(key, k, a, a, i);
    GroupCountSplit(key, k, a, i, b);
    GroupCountPositive(key, k, i, i, b);
    var ca, cb := GroupCount(key, k, a, i), GroupCount(key, k, a, b);
    Seqs.DivBounds(ca as real, cb as real, 0.0, 1.0);
    LerpBetween(v[a].value, v[b].value, ca as real / cb as real);
  }

  /** When every present value lies in [lo, hi], so does every filled value. */
  lemma {:induction false} GroupFillBounded<K>(key: seq<K>, v: seq<Option<real>>, i: nat, lo: real, hi: real)
    requires |v| == |key| && i < |key|
    requires forall j :: 0 <= j < |v| && v[j].Some? ==> lo <= v[j].value <= hi
    ensures GroupFillAt(key, v, i).Some? ==> lo <= GroupFillAt(key, v, i).value <= hi
  {
    if v[i].None? {
      var a := PrevAnchor(key, v, key[i], i);
      var b := NextAnchor(key, v, key[i], i + 1);
      if a.Some? && b.Some? {
        InterpolatedBetweenAnchors(key, v, i);
      }
    }
  }

  /** Every row of a group holding at least one present value is filled. */
  lemma {:induction false} GroupFillComplete<K>(key: seq<K>, v: seq<Option<real>>, i: nat, j: nat)
    requires |v| == |key| && i < |key| && j < |key|
    requires key[j] == key[i] && v[j].Some?
    ensures GroupFillAt(key, v, i).Some?
  {
    if v[i].None? && PrevAnchor(key, v, key[i], i).None? {
      assert j > i;
      assert NextAnchor(key, v, key[i], i + 1).Some?;
    }
  }

  /** Every row has a first row of its group at or before it. */
  lemma {:induction false} GroupStart<K>(key: seq<K>, i: nat) returns (f: nat)
    requires i < |key|
    ensures f <= i && key[f] == key[i]
    ensures PrevInGroup(key, key[i], f).None?
    decreases i
  {
    match PrevInGroup(key, key[i], i)
    case None => f := i;
    case Some(j) => f := GroupStart(key, j);
  }

  /** After the refill every G-force is present and within [-7, 7]: the first row of each
      group has G-force 0, which anchors the whole group. */
  lemma {:induction false} RefilledGForceComplete<K>(key: seq<K>, vel: seq<real>, t: seq<real>, i: nat)
    requires |vel| == |key| && |t| == |key| && i < |key|
    ensures GroupFillAt(key, MaskedG(key, vel, t), i).Some?
    ensures -GLimit <= GroupFillAt(key, MaskedG(key, vel, t), i).value <= GLimit
  {
    var g := MaskedG(key, vel, t);
    var f := GroupStart(key, i);
    assert g[f] == Some(0.0);
    GroupFillComplete(key, g, i, f);
    GroupFillBounded(key, g, i, -GLimit, GLimit);
  }

  /** Two columns that agree on the rows of group k have the same anchors in group k. */
  lemma {:induction false} AnchorsLocal<K>(key: seq<K>, v: seq<Option<real>>, v': seq<Option<real>>, k: K, n: nat)
    requires |v| == |key| && |v'| == |key| && n <= |key|
    requires forall j :: 0 <= j < |key| && key[j] == k ==> v[j] == v'[j]
    ensures PrevAnchor(key, v, k, n) == PrevAnchor(key, v', k, n)
    ensures NextAnchor(key, v, k, n) == NextAnchor(key, v', k, n)
  {
    match PrevAnchor(key, v, k, n)
    case None =>
    case Some(a) =>
      assert PrevAnchor(key, v', k, n).Some?;
    match NextAnchor(key, v, k, n)
    case None =>
    case Some(b) =>
      assert NextAnchor(key, v', k, n).Some?;
  }

  /** The grouped fill never reads across groups: values of other groups do not matter. */
  lemma {:induction false} GroupFillLocal<K>(key: seq<K>, v: seq<Option<real>>, v': seq<Option<real>>, i: nat)
    requires |v| == |key| && |v'| == |key| && i < |key|
    requires forall j :: 0 <= j < |key| && key[j] == key[i] ==> v[j] == v'[j]
    ensures GroupFillAt(key, v, i) == GroupFillAt(key, v', i)
  {
    AnchorsLocal(key, v, v', key[i], i);
    AnchorsLocal(key, v, v', key[i], i + 1);
  }

  /** The column-wide fill does cross groups: a lap that starts with a gap takes the last
      value of the lap before it. */
  lemma ColumnFillCrossesGroups()
    ensures var key, w := [0, 1, 1], [Some(5.0), None, Some(1.0)];
      InterpolateColumn(key, w)[1].None? &&
      BFill(FFill(InterpolateColumn(key, w)))[1] == Some(5.0) &&
      GroupFillAt(key, w, 1) == Some(1.0)
  {
    var key, w := [0, 1, 1], [Some(5.0), None, Some(1.0)];
    assert PrevAnchor(key, w, 1, 1) == None;
    assert NextAnchor(key, w, 1, 2) == Some(2);
    var c := InterpolateColumn(key, w);
    assert c == [Some(5.0), None, Some(1.0)];
    assert LastPresent(c, 2) == Some(0);
    assert FFill(c)[1] == Some(5.0);
  }

  // ---------------------------------------------------------------------------
  // The column computations

  /** The position of the previous row of row i's group, found by walking back. */
  method PreviousInGroup<K(==)>(key: seq<K>, i: nat) returns (p: Option<nat>)
    requires i < |key|
    ensures p == PrevInGroup(key, key[i], i)
  {
    var j: nat := i;
    while j > 0 && key[j - 1] != key[i]
      invariant j <= i
      invariant PrevInGroup(key, key[i], i) == PrevInGroup(key, key[i], j)
    {
      j := j - 1;
    }
    p := if j == 0 then None else Some(j - 1);
  }

  /** One velocity column: `groupby(key)[pos].diff() / groupby(key)[t].diff() * 1000`,
      `fillna(0)`, `clip(-100, 100)`. */
  method VelocityColumn<K(==)>(key: seq<K>, pos: seq<Option<real>>, t: seq<real>) returns (vel: seq<real>)
    requires |pos| == |key| && |t| == |key|
    ensures |vel| == |key|
    ensures forall i :: 0 <= i < |key| ==> vel[i] == VelocityAt(key, pos, t, i)
  {
    vel := [];
    for i := 0 to |key|
      invariant |vel| == i
      invariant forall j :: 0 <= j < i ==> vel[j] == VelocityAt(key, pos, t, j)
    {
      var p := PreviousInGroup(key, i);
      var q := NaN;
      if p.Some? {
        q := Quotient(Diff(pos[i], pos[p.value]), Some(t[i] - t[p.value]));
      }
      vel := vel + [FillZeroClip(Times(q, MsPerSecond), VelocityLimit)];
    }
  }

  /** One masked G-force column: the grouped velocity difference over the grouped time
      difference, `* 1000 / 9.8`, `fillna(0)`, and values outside [-7, 7] set to NaN. */
  method GForceColumn<K(==)>(key: seq<K>, vel: seq<real>, t: seq<real>) returns (g: seq<Option<real>>)
    requires |vel| == |key| && |t| == |key|
    ensures g == MaskedG(key, vel, t)
  {
    g := [];
    for i := 0 to |key|
      invariant |g| == i
      invariant forall j :: 0 <= j < i ==> g[j] == GForceAt(key, vel, t, j)
    {
      var p := PreviousInGroup(key, i);
      var q := NaN;
      if p.Some? {
        q := Quotient(Some(vel[i] - vel[p.value]), Some(t[i] - t[p.value]));
      }
      g := g + [FillZeroMask(Over(Times(q, MsPerSecond), Gravity), GLimit)];
    }
  }

  /** The previous present value of row i's group and the number of group rows from it up
      to row i. */
  method PreviousAnchor<K(==)>(key: seq<K>, v: seq<Option<real>>, i: nat) returns (a: Option<nat>, gap: nat)
    requires |v| == |key| && i < |key|
    ensures a == PrevAnchor(key, v, key[i], i)
    ensures a.Some? ==> gap == GroupCount(key, key[i], a.value, i) && gap >= 1
  {
    var j: nat := i;
    gap := 0;
    while j > 0 && !(key[j - 1] == key[i] && v[j - 1].Some?)
      invariant j <= i
      invariant PrevAnchor(key, v, key[i], i) == PrevAnchor(key, v, key[i], j)
      invariant gap == GroupCount(key, key[i], j, i)
    {
      GroupCountSplit(key, key[i], j - 1, j, i);
      if key[j - 1] == key[i] {
        gap := gap + 1;
      }
      j := j - 1;
    }
    if j == 0 {
      a := None;
    } else {
      GroupCountSplit(key, key[i], j - 1, j, i);
      a := Some(j - 1);
      gap := gap + 1;
    }
  }

  /** The next present value of row i's group after row i and the number of group rows
      from row i up to it. */
  method NextAnchorAfter<K(==)>(key: seq<K>, v: seq<Option<real>>, i: nat) returns (b: Option<nat>, gap: nat)
    requires |v| == |key| && i < |key|
    ensures b == NextAnchor(key, v, key[i], i + 1)
    ensures b.Some? ==> gap == GroupCount(key, key[i], i, b.value)
  {
    var j := i + 1;
    gap := 1;
    while j < |key| && !(key[j] == key[i] && v[j].Some?)
      invariant i + 1 <= j <= |key|
      invariant NextAnchor(key, v, key[i], i + 1) == NextAnchor(key, v, key[i], j)
      invariant gap == GroupCount(key, key[i], i, j)
    {
      if key[j] == key[i] {
        gap := gap + 1;
      }
      j := j + 1;
    }
    b := if j == |key| then None else Some(j);
  }

  /** `groupby(key)[v].transform(lambda s: s.interpolate(method="linear"))`. */
  method InterpolateWithinGroups<K(==)>(key: seq<K>, v: seq<Option<real>>) returns (w: seq<Option<real>>)
    requires |v| == |key|
    ensures w == InterpolateColumn(key, v)
  {
    w := [];
    for i := 0 to |key|
      invariant |w| == i
      invariant forall j :: 0 <= j < i ==> w[j] == InterpolateAt(key, v, j)
    {
      var x := v[i];
      if x.None? {
        var a, gapA := PreviousAnchor(key, v, i);
        if a.Some? {
          var b, gapB := NextAnchorAfter(key, v, i);
          if b.None? {
            x := v[a.value];
          } else {
            GroupCountSplit(key, key[i], a.value, i, b.value);
            x := Some(Lerp(v[a.value].value, v[b.value].value, gapA as real / (gapA + gapB) as real));
          }
        }
      }
      w := w + [x];
    }
  }

  /** `groupby(key)[v].transform(lambda s: s.interpolate(method="linear").ffill().bfill())`. */
  method FillWithinGroups<K(==)>(key: seq<K>, v: seq<Option<real>>) returns (out: seq<Option<real>>)
    requires |v| == |key|
    ensures |out| == |key|
    ensures forall i :: 0 <= i < |key| ==> out[i] == GroupFillAt(key, v, i)
  {
    var w := InterpolateWithinGroups(key, v);
    out := [];
    for i := 0 to |key|
      invariant |out| == i
      invariant forall j :: 0 <= j < i ==> out[j] == GroupFillAt(key, v, j)
    {
      var x := w[i];
      if x.None? {
        var b, _ := NextAnchorAfter(key, v, i);
        if b.Some? {
          x := v[b.value];
        }
      }
      out := out + [x];
    }
  }

  /** `Series.ffill()`: carries the last value seen forward. */
  method ForwardFill(w: seq<Option<real>>) returns (f: seq<Option<real>>)
    ensures f == FFill(w)
  {
    var last: Option<real> := None;
    f := [];
    for i := 0 to |w|
      invariant |f| == i
      invariant forall j :: 0 <= j < i ==> f[j] == FFill(w)[j]
      invariant last == (match LastPresent(w, i) case None => None case Some(j) => w[j])
    {
      if w[i].Some? {
        last := w[i];
      }
      f := f + [last];
    }
  }

  /** `Series.bfill()`: carries the next value seen backward. */
  method BackwardFill(w: seq<Option<real>>) returns (b: seq<Option<real>>)
    ensures b == BFill(w)
  {
    var next: Option<real> := None;
    b := [];
    var i: nat := |w|;
    while i > 0
      invariant i <= |w|
      invariant |b| == |w| - i
      invariant forall j :: i <= j < |w| ==> b[j - i] == BFill(w)[j]
      invariant next == (match FirstPresent(w, i) case None => None case Some(j) => w[j])
    {
      i := i - 1;
      if w[i].Some? {
        next := w[i];
      }
      b := [next] + b;
    }
  }

  /** `ffill()` then `bfill()` over the whole column, across group boundaries. */
  method FillColumn(w: seq<Option<real>>) returns (out: seq<Option<real>>)
    ensures out == BFill(FFill(w))
    ensures forall i :: 0 <= i < |w| && w[i].Some? ==> out[i] == w[i]
    ensures (exists i :: 0 <= i < |w| && w[i].Some?) ==> forall i :: 0 <= i < |out| ==> out[i].Some?
  {
    var f := ForwardFill(w);
    out := BackwardFill(f);
    forall i | 0 <= i < |w| && w[i].Some?
      ensures out[i] == w[i]
    {
      ColumnFillKeepsPresent(w, i);
    }
    if j :| 0 <= j < |w| && w[j].Some? {
      forall i | 0 <= i < |out|
        ensures out[i].Some?
      {
        ColumnFillComplete(w, i, j);
      }
    }
  }
}
