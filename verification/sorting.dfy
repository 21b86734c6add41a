/** Sorting by a lexicographic (int, int, real) key, standing in for `sort_values` on
    two or three columns. The sort is stable: rows with equal keys keep their relative
    order, as pandas' lexicographic sort on several columns does. */
module Sorting {
  import opened Seqs

  datatype SortKey = SortKey(major: int, minor: int, fine: real)

  predicate KeyLe(a: SortKey, b: SortKey) {
    a.major < b.major ||
    (a.major == b.major && (a.minor < b.minor || (a.minor == b.minor && a.fine <= b.fine)))
  }

  /** a comes strictly before b. */
  predicate KeyBelow(a: SortKey, b: SortKey) {
    !KeyLe(b, a)
  }

  predicate SortedBy<T>(s: seq<T>, key: T -> SortKey) {
    forall i, j :: 0 <= i < j < |s| ==> KeyLe(key(s[i]), key(s[j]))
  }

  /** Inserts x into a sorted sequence before the first element whose key is above its
      own, so after every element with an equal key. */
  function Insert<T>(x: T, s: seq<T>, key: T -> SortKey): (r: seq<T>)
    requires SortedBy(s, key)
    ensures |r| == |s| + 1
    ensures multiset(r) == multiset(s) + multiset{x}
    ensures forall i :: 0 <= i < |r| ==> r[i] == x || r[i] in s
    ensures SortedBy(r, key)
  {
    if s == [] then [x]
    else if KeyBelow(key(x), key(s[0])) then [x] + s
    else
      var t := Insert(x, s[1..], key);
      InsertAfterHead(x, s, t, key);
      [s[0]] + t
  }

  /** Putting the head of s back in front of the insertion of x into the tail gives the
      insertion of x into s. */
  lemma InsertAfterHead<T>(x: T, s: seq<T>, t: seq<T>, key: T -> SortKey)
    requires SortedBy(s, key) && |s| > 0 && !KeyBelow(key(x), key(s[0]))
    requires multiset(t) == multiset(s[1..]) + multiset{x}
    requires forall i :: 0 <= i < |t| ==> t[i] == x || t[i] in s[1..]
    requires SortedBy(t, key)
    ensures multiset([s[0]] + t) == multiset(s) + multiset{x}
    ensures forall i :: 0 <= i < |t| + 1 ==> ([s[0]] + t)[i] == x || ([s[0]] + t)[i] in s
    ensures SortedBy([s[0]] + t, key)
  {
    assert s == [s[0]] + s[1..];
    HeadBelowInsert(x, s, t, key);
    ConsSorted(s[0], t, key);
  }

  /** When x goes after the head of s, the head's key is at most every key of the
      insertion into the tail. */
  lemma HeadBelowInsert<T>(x: T, s: seq<T>, t: seq<T>, key: T -> SortKey)
    requires SortedBy(s, key) && |s| > 0 && !KeyBelow(key(x), key(s[0]))
    requires forall i :: 0 <= i < |t| ==> t[i] == x || t[i] in s[1..]
    ensures forall i :: 0 <= i < |t| ==> KeyLe(key(s[0]), key(t[i]))
  {
    forall i | 0 <= i < |t| ensures KeyLe(key(s[0]), key(t[i])) {
      if t[i] != x {
        var j :| 0 <= j < |s[1..]| && s[1..][j] == t[i];
        assert s[j + 1] == t[i];
      }
    }
  }

  /** A sorted sequence stays sorted under a head whose key is at most all of its keys. */
  lemma ConsSorted<T>(a: T, t: seq<T>, key: T -> SortKey)
    requires SortedBy(t, key)
    requires forall i :: 0 <= i < |t| ==> KeyLe(key(a), key(t[i]))
    ensures SortedBy([a] + t, key)
  {
    var r := [a] + t;
    forall i, j | 0 <= i < j < |r| ensures KeyLe(key(r[i]), key(r[j])) {
      if i > 0 {
        assert r[i] == t[i - 1] && r[j] == t[j - 1];
      } else {
        assert r[j] == t[j - 1];
      }
    }
  }

  /** The selection mask of the elements whose key is k. */
  function HasKey<T>(key: T -> SortKey, k: SortKey): T -> bool {
    (x: T) => key(x) == k
  }

  /** Inserting x keeps the order of the elements of each key, and puts x after those of
      its own key. */
  lemma {:induction false} InsertStable<T>(x: T, t: seq<T>, key: T -> SortKey, k: SortKey)
    requires SortedBy(t, key)
    ensures Filter(Insert(x, t, key), HasKey(key, k)) == Filter(t + [x], HasKey(key, k))
    decreases |t|
  {
    if t == [] {
      assert t + [x] == [x];
    } else if KeyBelow(key(x), key(t[0])) {
      InsertFrontStable(x, t, key, k);
    } else {
      var p, u := HasKey(key, k), t[1..];
      assert SortedBy(u, key) by {
        forall i, j | 0 <= i < j < |u| ensures KeyLe(key(u[i]), key(u[j])) {
          assert u[i] == t[i + 1] && u[j] == t[j + 1];
        }
      }
      InsertStable(x, u, key, k);
      var h := if p(t[0]) then [t[0]] else [];
      var e := if p(x) then [x] else [];
      calc {
        Filter(Insert(x, t, key), p);
        { FilterCons(t[0], Insert(x, u, key), p); }
        h + Filter(Insert(x, u, key), p);
        h + Filter(u + [x], p);
        { FilterSnoc(u, x, p); }
        h + (Filter(u, p) + e);
        (h + Filter(u, p)) + e;
        { assert t == [t[0]] + u; FilterCons(t[0], u, p); }
        Filter(t, p) + e;
        { FilterSnoc(t, x, p); }
        Filter(t + [x], p);
      }
    }
  }

  /** When x goes in front of t, no element of t shares its key. */
  lemma InsertFrontStable<T>(x: T, t: seq<T>, key: T -> SortKey, k: SortKey)
    requires SortedBy(t, key) && |t| > 0 && KeyBelow(key(x), key(t[0]))
    ensures Filter([x] + t, HasKey(key, k)) == Filter(t + [x], HasKey(key, k))
  {
    var p := HasKey(key, k);
    FilterCons(x, t, p);
    FilterSnoc(t, x, p);
    if key(x) == k {
      forall i | 0 <= i < |t| ensures !p(t[i]) {
        if i > 0 {
          assert KeyLe(key(t[0]), key(t[i]));
        }
      }
      FilterNone(t, p);
    }
  }

  /** Two sequences with the same elements of each key, in the same order, still have
      them after x is appended to both. */
  lemma SnocStable<T>(a: seq<T>, b: seq<T>, x: T, key: T -> SortKey)
    requires forall k :: Filter(a, HasKey(key, k)) == Filter(b, HasKey(key, k))
    ensures forall k :: Filter(a + [x], HasKey(key, k)) == Filter(b + [x], HasKey(key, k))
  {
    forall k ensures Filter(a + [x], HasKey(key, k)) == Filter(b + [x], HasKey(key, k)) {
      FilterSnoc(a, x, HasKey(key, k));
      FilterSnoc(b, x, HasKey(key, k));
    }
  }

  /** A sorted permutation of s (insertion sort) that keeps the relative order of the
      elements of every key. */
  function SortBy<T>(s: seq<T>, key: T -> SortKey): (r: seq<T>)
    ensures |r| == |s|
    ensures multiset(r) == multiset(s)
    ensures SortedBy(r, key)
    ensures forall k :: Filter(r, HasKey(key, k)) == Filter(s, HasKey(key, k))
  {
    if s == [] then []
    else
      var s', x := s[..|s| - 1], s[|s| - 1];
      assert s == s' + [x];
      var t := SortBy(s', key);
      InsertAllStable(x, t, key);
      SnocStable(t, s', x, key);
      Insert(x, t, key)
  }

  lemma InsertAllStable<T>(x: T, t: seq<T>, key: T -> SortKey)
    requires SortedBy(t, key)
    ensures forall k :: Filter(Insert(x, t, key), HasKey(key, k)) == Filter(t + [x], HasKey(key, k))
  {
    forall k ensures Filter(Insert(x, t, key), HasKey(key, k)) == Filter(t + [x], HasKey(key, k)) {
      InsertStable(x, t, key, k);
    }
  }
}
