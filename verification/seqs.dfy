/** Sequence operations that the table stages are built from: boolean-mask selection
    (`df[mask]`), first-occurrence de-duplication (`drop_duplicates`, `unique`),
    first/last matching row (`iloc[0]`, `last()`), and the sum, mean and maximum of a
    column (`groupby(...).mean()`, `.max()`). */
module Seqs {
  import opened Wrappers

  // ---------------------------------------------------------------------------
  // Selection

  /** The elements of `s` that satisfy `p`, in their original order. */
  function Filter<T(==)>(s: seq<T>, p: T -> bool): (r: seq<T>)
    ensures |r| <= |s|
    ensures forall i :: 0 <= i < |r| ==> r[i] in s && p(r[i])
    ensures forall i :: 0 <= i < |s| && p(s[i]) ==> s[i] in r
  {
    if s == [] then []
    else Filter(s[..|s| - 1], p) + (if p(s[|s| - 1]) then [s[|s| - 1]] else [])
  }

  lemma FilterSnoc<T>(s: seq<T>, x: T, p: T -> bool)
    ensures Filter(s + [x], p) == Filter(s, p) + (if p(x) then [x] else [])
  {
    assert (s + [x])[..|s + [x]| - 1] == s;
  }

  lemma FilterCons<T>(x: T, s: seq<T>, p: T -> bool)
    ensures Filter([x] + s, p) == (if p(x) then [x] else []) + Filter(s, p)
  {
    FilterAppend([x], s, p);
    FilterSnoc([], x, p);
    assert [] + [x] == [x];
  }

  /** Selection distributes over concatenation: relative order is kept. */
  lemma {:induction false} FilterAppend<T>(a: seq<T>, b: seq<T>, p: T -> bool)
    ensures Filter(a + b, p) == Filter(a, p) + Filter(b, p)
    decreases |b|
  {
    if b == [] {
      assert a + b == a;
    } else {
      var b' := b[..|b| - 1];
      var x := b[|b| - 1];
      var e := if p(x) then [x] else [];
      assert b == b' + [x];
      assert a + b == (a + b') + [x];
      calc {
        Filter(a + b, p);
        { FilterSnoc(a + b', x, p); }
        Filter(a + b', p) + e;
        { FilterAppend(a, b', p); }
        (Filter(a, p) + Filter(b', p)) + e;
        Filter(a, p) + (Filter(b', p) + e);
        { FilterSnoc(b', x, p); }
        Filter(a, p) + Filter(b, p);
      }
    }
  }

  /** The positions in `s` of the elements that satisfy `p`, ascending. */
  function Positions<T>(s: seq<T>, p: T -> bool): (ps: seq<nat>)
    ensures forall i :: 0 <= i < |ps| ==> ps[i] < |s| && p(s[ps[i]])
    ensures forall i, j :: 0 <= i < j < |ps| ==> ps[i] < ps[j]
    ensures forall j :: 0 <= j < |s| && p(s[j]) ==> j in ps
  {
    if s == [] then []
    else
      var s' := s[..|s| - 1];
      var ps' := Positions(s', p);
      assert forall i :: 0 <= i < |ps'| ==> s'[ps'[i]] == s[ps'[i]];
      ps' + (if p(s[|s| - 1]) then [|s| - 1] else [])
  }

  /** Selection is the subsequence at those positions: the selected elements in their
      original order. */
  lemma {:induction false} FilterAtPositions<T>(s: seq<T>, p: T -> bool)
    ensures |Filter(s, p)| == |Positions(s, p)|
    ensures forall i :: 0 <= i < |Filter(s, p)| ==> Filter(s, p)[i] == s[Positions(s, p)[i]]
    decreases |s|
  {
    if s != [] {
      var s', x := s[..|s| - 1], s[|s| - 1];
      FilterAtPositions(s', p);
      var f', ps' := Filter(s', p), Positions(s', p);
      var f, ps := Filter(s, p), Positions(s, p);
      assert f == f' + (if p(x) then [x] else []);
      assert ps == ps' + (if p(x) then [|s| - 1] else []);
      forall i | 0 <= i < |f| ensures f[i] == s[ps[i]] {
        if i < |f'| {
          assert f[i] == f'[i] && ps[i] == ps'[i] && s'[ps'[i]] == s[ps'[i]];
        }
      }
    }
  }

  /** Selection keeps every copy of a selected element (duplicates included) and no copy
      of a rejected one. */
  lemma {:induction false} FilterMultiset<T>(s: seq<T>, p: T -> bool, x: T)
    ensures multiset(Filter(s, p))[x] == if p(x) then multiset(s)[x] else 0
    decreases |s|
  {
    if s != [] {
      var s' := s[..|s| - 1];
      assert s == s' + [s[|s| - 1]];
      FilterMultiset(s', p, x);
    }
  }

  /** FilterMultiset for every value at once. */
  lemma FilterMultisetAll<T>(s: seq<T>, p: T -> bool)
    ensures forall x :: multiset(Filter(s, p))[x] == if p(x) then multiset(s)[x] else 0
  {
    forall x ensures multiset(Filter(s, p))[x] == if p(x) then multiset(s)[x] else 0 {
      FilterMultiset(s, p, x);
    }
  }

  /** When every element is selected nothing changes. */
  lemma {:induction false} FilterAll<T>(s: seq<T>, p: T -> bool)
    requires forall x :: x in s ==> p(x)
    ensures Filter(s, p) == s
    decreases |s|
  {
    if s != [] {
      var s' := s[..|s| - 1];
      assert s == s' + [s[|s| - 1]];
      FilterAll(s', p);
    }
  }

  /** Selection depends only on the values of the predicate on elements of `s`. */
  lemma {:induction false} FilterExt<T>(s: seq<T>, p: T -> bool, q: T -> bool)
    requires forall x :: x in s ==> p(x) == q(x)
    ensures Filter(s, p) == Filter(s, q)
    decreases |s|
  {
    if s != [] {
      var s' := s[..|s| - 1];
      assert s == s' + [s[|s| - 1]];
      FilterExt(s', p, q);
    }
  }

  /** When no element is selected the result is empty. */
  lemma {:induction false} FilterNone<T>(s: seq<T>, p: T -> bool)
    requires forall x :: x in s ==> !p(x)
    ensures Filter(s, p) == []
    decreases |s|
  {
    if s != [] {
      var s' := s[..|s| - 1];
      assert s == s' + [s[|s| - 1]];
      FilterNone(s', p);
    }
  }

  /** Two successive selections are one selection by the conjunction. */
  lemma {:induction false} FilterFilter<T>(s: seq<T>, p: T -> bool, q: T -> bool, pq: T -> bool)
    requires forall x :: pq(x) == (p(x) && q(x))
    ensures Filter(Filter(s, p), q) == Filter(s, pq)
    decreases |s|
  {
    if s != [] {
      var s' := s[..|s| - 1];
      var x := s[|s| - 1];
      assert s == s' + [x];
      FilterFilter(s', p, q, pq);
      FilterSnoc(s', x, p);
      FilterSnoc(s', x, pq);
      if p(x) {
        calc {
          Filter(Filter(s, p), q);
          Filter(Filter(s', p) + [x], q);
          { FilterSnoc(Filter(s', p), x, q); }
          Filter(Filter(s', p), q) + (if q(x) then [x] else []);
          Filter(s, pq);
        }
      } else {
        assert Filter(s, p) == Filter(s', p) + [];
        assert Filter(s', p) + [] == Filter(s', p);
        calc {
          Filter(Filter(s, p), q);
          Filter(Filter(s', p), q);
          Filter(s, pq);
        }
      }
    }
  }

  // ---------------------------------------------------------------------------
  // Distinct elements

  predicate NoDup<T(==)>(s: seq<T>) {
    forall i, j :: 0 <= i < j < |s| ==> s[i] != s[j]
  }

  /** The distinct elements of `s` in order of first occurrence (`drop_duplicates`,
      `Series.unique`). */
  function Dedupe<T(==)>(s: seq<T>): (r: seq<T>)
    ensures NoDup(r)
    ensures forall i :: 0 <= i < |r| ==> r[i] in s
    ensures forall i :: 0 <= i < |s| ==> s[i] in r
    ensures |r| <= |s|
    ensures FirstAppearanceOrder(s, r)
  {
    if s == [] then []
    else
      var s', x := s[..|s| - 1], s[|s| - 1];
      assert s == s' + [x];
      var d := Dedupe(s');
      DedupeSnoc(s', x, d);
      if x in d then d else d + [x]
  }

  /** The step of Dedupe: appending x to s keeps d when x already occurs, and appends x
      otherwise. */
  lemma DedupeSnoc<T>(s: seq<T>, x: T, d: seq<T>)
    requires NoDup(d) && |d| <= |s| && FirstAppearanceOrder(s, d)
    requires forall i :: 0 <= i < |d| ==> d[i] in s
    requires forall i :: 0 <= i < |s| ==> s[i] in d
    ensures var r := if x in d then d else d + [x];
      NoDup(r) && |r| <= |s| + 1 && FirstAppearanceOrder(s + [x], r) &&
      (forall i :: 0 <= i < |r| ==> r[i] in s + [x]) &&
      (forall i :: 0 <= i < |s| + 1 ==> (s + [x])[i] in r)
  {
    AppearanceOrderSnoc(s, x, d);
    assert x in d <==> x in s;
  }

  /** Every element of r occurs in s, and r lists them in order of their first occurrence
      in s (stated on consecutive elements; AppearanceOrderPairs gives every pair). */
  predicate FirstAppearanceOrder<T(==)>(s: seq<T>, r: seq<T>)
    decreases |r|
  {
    |r| == 0 ||
    (r[|r| - 1] in s && FirstAppearanceOrder(s, r[..|r| - 1]) &&
     (|r| == 1 || (r[|r| - 2] in s && IndexOf(s, r[|r| - 2]) < IndexOf(s, r[|r| - 1]))))
  }

  /** First-appearance order compares every pair, not only neighbours. */
  lemma {:induction false} AppearanceOrderPairs<T>(s: seq<T>, r: seq<T>)
    requires FirstAppearanceOrder(s, r)
    ensures forall i :: 0 <= i < |r| ==> r[i] in s
    ensures forall i, j :: 0 <= i < j < |r| ==> IndexOf(s, r[i]) < IndexOf(s, r[j])
    decreases |r|
  {
    if |r| > 0 {
      var n := |r| - 1;
      var r' := r[..n];
      AppearanceOrderPairs(s, r');
      assert forall i :: 0 <= i < n ==> r'[i] == r[i];
      forall i, j | 0 <= i < j <= n ensures IndexOf(s, r[i]) < IndexOf(s, r[j]) {
        if j < n {
          assert IndexOf(s, r'[i]) < IndexOf(s, r'[j]);
        } else if i < n - 1 {
          assert IndexOf(s, r'[i]) < IndexOf(s, r'[n - 1]);
          assert IndexOf(s, r[n - 1]) < IndexOf(s, r[n]);
        }
      }
    }
  }

  /** Appending x to s moves no first occurrence; when x is new, its first occurrence is
      the last position. */
  lemma AppearanceOrderSnoc<T>(s: seq<T>, x: T, d: seq<T>)
    requires FirstAppearanceOrder(s, d)
    ensures FirstAppearanceOrder(s + [x], d)
    ensures x !in s ==> FirstAppearanceOrder(s + [x], d + [x])
  {
    AppearanceOrderKept(s, x, d);
    if x !in s {
      var e := d + [x];
      assert e[..|e| - 1] == d;
      assert (s + [x])[|s|] == x;
      assert IndexOf(s + [x], x) == |s|;
      if |d| > 0 {
        IndexOfSnoc(s, x, d[|d| - 1]);
      }
    }
  }

  lemma {:induction false} AppearanceOrderKept<T>(s: seq<T>, x: T, d: seq<T>)
    requires FirstAppearanceOrder(s, d)
    ensures FirstAppearanceOrder(s + [x], d)
    decreases |d|
  {
    if |d| > 0 {
      AppearanceOrderKept(s, x, d[..|d| - 1]);
      IndexOfSnoc(s, x, d[|d| - 1]);
      if |d| > 1 {
        IndexOfSnoc(s, x, d[|d| - 2]);
      }
    }
  }

  lemma IndexOfSnoc<T>(s: seq<T>, x: T, y: T)
    requires y in s
    ensures IndexOf(s + [x], y) == IndexOf(s, y)
  {
    var m, n := IndexOf(s, y), IndexOf(s + [x], y);
    assert (s + [x])[m] == y;
    assert forall j :: 0 <= j < m ==> (s + [x])[j] == s[j];
  }

  /** De-duplication keeps one element per distinct value. */
  lemma DedupeCard<T>(s: seq<T>)
    ensures |Dedupe(s)| == |set x | x in s|
  {
    var d := Dedupe(s);
    NoDupCard(d);
    assert (set x | x in d) == (set x | x in s);
  }

  lemma {:induction false} FilterNoDup<T>(s: seq<T>, p: T -> bool)
    requires NoDup(s)
    ensures NoDup(Filter(s, p))
    decreases |s|
  {
    if s != [] {
      var s' := s[..|s| - 1];
      var x := s[|s| - 1];
      assert s == s' + [x];
      assert NoDup(s');
      FilterNoDup(s', p);
      assert x !in s';
    }
  }

  /** A sequence without duplicates has as many elements as its set of values. */
  lemma {:induction false} NoDupCard<T>(s: seq<T>)
    requires NoDup(s)
    ensures |set x | x in s| == |s|
    decreases |s|
  {
    if s != [] {
      var s' := s[..|s| - 1];
      var x := s[|s| - 1];
      assert s == s' + [x];
      assert NoDup(s');
      NoDupCard(s');
      assert x !in s';
      assert (set y | y in s) == (set y | y in s') + {x};
    }
  }

  /** No duplicates means every value occurs at most once. */
  lemma {:induction false} NoDupMultiset<T>(s: seq<T>)
    ensures NoDup(s) <==> forall x :: multiset(s)[x] <= 1
    decreases |s|
  {
    if s != [] {
      var s' := s[..|s| - 1];
      var y := s[|s| - 1];
      assert s == s' + [y];
      NoDupMultiset(s');
      if NoDup(s) {
        assert NoDup(s') && y !in s';
        forall x ensures multiset(s)[x] <= 1 {
          assert multiset(s)[x] == multiset(s')[x] + (if x == y then 1 else 0);
        }
      }
      if forall x :: multiset(s)[x] <= 1 {
        forall x ensures multiset(s')[x] <= 1 {
          assert multiset(s)[x] == multiset(s')[x] + (if x == y then 1 else 0);
        }
        assert multiset(s)[y] == multiset(s')[y] + 1;
        assert y !in s';
        forall i, j | 0 <= i < j < |s| ensures s[i] != s[j] {
          if j == |s| - 1 {
            assert s[i] in s';
          } else {
            assert s'[i] == s[i] && s'[j] == s[j];
          }
        }
      }
    }
  }

  /** The position of the first occurrence of x in s. */
  function IndexOf<T(==)>(s: seq<T>, x: T): (i: nat)
    requires x in s
    ensures i < |s| && s[i] == x
    ensures forall j :: 0 <= j < i ==> s[j] != x
  {
    IndexFrom(s, x, 0)
  }

  /** The position of the first x at or after position k. */
  function IndexFrom<T(==)>(s: seq<T>, x: T, k: nat): (i: nat)
    requires exists j :: k <= j < |s| && s[j] == x
    ensures k <= i < |s| && s[i] == x
    ensures forall j :: k <= j < i ==> s[j] != x
    decreases |s| - k
  {
    if s[k] == x then k else IndexFrom(s, x, k + 1)
  }

  // ---------------------------------------------------------------------------
  // First and last matching element

  /** The position of the first element satisfying `p` (`df[mask].iloc[0]`). */
  function FirstWhere<T(==)>(s: seq<T>, p: T -> bool): (r: Option<nat>)
    ensures r.None? <==> forall i :: 0 <= i < |s| ==> !p(s[i])
    ensures r.Some? ==> r.value < |s| && p(s[r.value]) &&
                        forall i :: 0 <= i < r.value ==> !p(s[i])
  {
    if s == [] then None
    else if p(s[0]) then Some(0)
    else match FirstWhere(s[1..], p)
      case None => None
      case Some(k) => Some(k + 1)
  }

  /** The position of the last element satisfying `p` (`groupby(...).last()`). */
  function LastWhere<T(==)>(s: seq<T>, p: T -> bool): (r: Option<nat>)
    ensures r.None? <==> forall i :: 0 <= i < |s| ==> !p(s[i])
    ensures r.Some? ==> r.value < |s| && p(s[r.value]) &&
                        forall i :: r.value < i < |s| ==> !p(s[i])
  {
    if s == [] then None
    else if p(s[|s| - 1]) then Some(|s| - 1)
    else LastWhere(s[..|s| - 1], p)
  }

  // ---------------------------------------------------------------------------
  // Reductions over a real column

  function Sum(s: seq<real>): real {
    if s == [] then 0.0 else Sum(s[..|s| - 1]) + s[|s| - 1]
  }

  /** The largest value of a non-empty column (`.max()`). */
  function Max(s: seq<real>): (m: real)
    requires |s| > 0
    ensures m in s
    ensures forall x :: x in s ==> x <= m
  {
    if |s| == 1 then s[0]
    else
      var m' := Max(s[..|s| - 1]);
      assert forall x :: x in s ==> x in s[..|s| - 1] || x == s[|s| - 1];
      if s[|s| - 1] > m' then s[|s| - 1] else m'
  }

  /** The smallest value of a non-empty column (`.min()`). */
  function Min(s: seq<real>): (m: real)
    requires |s| > 0
    ensures m in s
    ensures forall x :: x in s ==> m <= x
  {
    if |s| == 1 then s[0]
    else
      var m' := Min(s[..|s| - 1]);
      assert forall x :: x in s ==> x in s[..|s| - 1] || x == s[|s| - 1];
      if s[|s| - 1] < m' then s[|s| - 1] else m'
  }

  /** The arithmetic mean of a non-empty column (`.mean()`). */
  function Mean(s: seq<real>): real
    requires |s| > 0
  {
    Sum(s) / (|s| as real)
  }

  lemma {:induction false} SumBounds(s: seq<real>, lo: real, hi: real)
    requires forall x :: x in s ==> lo <= x <= hi
    ensures (|s| as real) * lo <= Sum(s) <= (|s| as real) * hi
    decreases |s|
  {
    if s != [] {
      var s' := s[..|s| - 1];
      assert forall x :: x in s' ==> x in s;
      SumBounds(s', lo, hi);
      assert s[|s| - 1] in s;
    }
  }

  /** The mean of values that all lie in [lo, hi] lies in [lo, hi]. */
  lemma MeanBounds(s: seq<real>, lo: real, hi: real)
    requires |s| > 0
    requires forall x :: x in s ==> lo <= x <= hi
    ensures lo <= Mean(s) <= hi
  {
    SumBounds(s, lo, hi);
    DivBounds(Sum(s), |s| as real, lo, hi);
  }

  /** Non-negative values have a non-negative sum. */
  lemma {:induction false} SumNonNegative(s: seq<real>)
    requires forall x :: x in s ==> 0.0 <= x
    ensures Sum(s) >= 0.0
    decreases |s|
  {
    if s != [] {
      var s' := s[..|s| - 1];
      assert forall x :: x in s' ==> x in s;
      SumNonNegative(s');
      assert s[|s| - 1] in s;
    }
  }

  /** Non-negative values with one positive value have a positive sum. */
  lemma {:induction false} SumPositive(s: seq<real>, i: nat)
    requires i < |s| && s[i] > 0.0
    requires forall x :: x in s ==> 0.0 <= x
    ensures Sum(s) > 0.0
    decreases |s|
  {
    var s' := s[..|s| - 1];
    assert forall x :: x in s' ==> x in s;
    if i == |s| - 1 {
      SumNonNegative(s');
    } else {
      assert s'[i] == s[i];
      SumPositive(s', i);
      assert s[|s| - 1] in s;
    }
  }

  /** ... and so a positive mean. */
  lemma MeanPositive(s: seq<real>, i: nat)
    requires i < |s| && s[i] > 0.0
    requires forall x :: x in s ==> 0.0 <= x
    ensures Mean(s) > 0.0
  {
    SumPositive(s, i);
    var q := Mean(s);
    assert Sum(s) == q * (|s| as real);
  }

  /** The mean lies between the smallest and the largest value. */
  lemma MeanBetweenMinAndMax(s: seq<real>)
    requires |s| > 0
    ensures Min(s) <= Mean(s) <= Max(s)
  {
    MeanBounds(s, Min(s), Max(s));
  }

  lemma DivBounds(a: real, n: real, lo: real, hi: real)
    requires n > 0.0 && n * lo <= a <= n * hi
    ensures lo <= a / n <= hi
  {
    var q := a / n;
    assert a == q * n;
    assert (q - hi) * n <= 0.0;
    assert (q - lo) * n >= 0.0;
  }
}
