/**
 * Orders used by the scripts: group-by output is sorted by its key (Python compares
 * strings code point by code point), and `sort_values` orders rows by a column.
 */
module Ordering {
  import opened Relational

  /** Python's `<` on strings: lexicographic by code point, a proper prefix first. */
  predicate LexLess(a: string, b: string)
  {
    if a == [] then b != []
    else b != [] && (a[0] < b[0] || (a[0] == b[0] && LexLess(a[1..], b[1..])))
  }

  lemma {:induction false} LexLessIrreflexive(a: string)
    ensures !LexLess(a, a)
  {
    if a != [] {
      LexLessIrreflexive(a[1..]);
    }
  }

  lemma {:induction false} LexLessTransitive(a: string, b: string, c: string)
    requires LexLess(a, b) && LexLess(b, c)
    ensures LexLess(a, c)
  {
    if a != [] && a[0] == b[0] && b[0] == c[0] {
      LexLessTransitive(a[1..], b[1..], c[1..]);
    }
  }

  lemma {:induction false} LexLessTotal(a: string, b: string)
    requires a != b
    ensures LexLess(a, b) || LexLess(b, a)
  {
    if a != [] && b != [] && a[0] == b[0] {
      assert a == [a[0]] + a[1..] && b == [b[0]] + b[1..];
      LexLessTotal(a[1..], b[1..]);
    }
  }

  /** Strictly increasing in Python's string order, hence also free of repeats. */
  predicate StrictlyAscending(s: seq<string>)
  {
    forall i, j :: 0 <= i < j < |s| ==> LexLess(s[i], s[j])
  }

  lemma AscendingIsDistinct(s: seq<string>)
    requires StrictlyAscending(s)
    ensures Distinct(s)
  {
    forall i, j | 0 <= i < j < |s| ensures s[i] != s[j] {
      LexLessIrreflexive(s[i]);
    }
  }

  /** Adds `x` to a strictly ascending key list, unless it is already there. */
  function InsertKey(x: string, s: seq<string>): (r: seq<string>)
    requires StrictlyAscending(s)
    ensures StrictlyAscending(r)
    ensures forall y :: y in r <==> y == x || y in s
  {
    if s == [] then [x]
    else if x == s[0] then s
    else if LexLess(x, s[0]) then
      assert forall j :: 0 <= j < |s| ==> LexLess(x, s[j]) by {
        forall j | 0 <= j < |s| ensures LexLess(x, s[j]) {
          if j > 0 { LexLessTransitive(x, s[0], s[j]); }
        }
      }
      [x] + s
    else
      LexLessTotal(x, s[0]);
      var rest := InsertKey(x, s[1..]);
      assert forall y :: y in rest ==> LexLess(s[0], y);
      [s[0]] + rest
  }

  /** The distinct values of a string key column in ascending order: the index of `groupby(key)`. */
  function SortedKeys(ks: seq<string>): (r: seq<string>)
    ensures StrictlyAscending(r)
    ensures forall y :: y in r <==> y in ks
  {
    if ks == [] then [] else InsertKey(ks[0], SortedKeys(ks[1..]))
  }

  /** The values in lo .. hi-1 taken by an integer key column, ascending: the index of `groupby` on it. */
  function PresentKeys<T(==,!new)>(rows: seq<T>, key: T -> int, lo: int, hi: int): (r: seq<int>)
    decreases hi - lo
    ensures forall i, j :: 0 <= i < j < |r| ==> r[i] < r[j]
    ensures forall v :: v in r <==> lo <= v < hi && v in KeysOf(rows, key)
  {
    if lo >= hi then []
    else if lo in KeysOf(rows, key) then
      var rest := PresentKeys(rows, key, lo + 1, hi);
      assert forall j :: 0 <= j < |rest| ==> lo < rest[j] by {
        forall j | 0 <= j < |rest| ensures lo < rest[j] {
          assert rest[j] in rest;
        }
      }
      [lo] + rest
    else PresentKeys(rows, key, lo + 1, hi)
  }

  lemma IncreasingIsDistinct(s: seq<int>)
    requires forall i, j :: 0 <= i < j < |s| ==> s[i] < s[j]
    ensures Distinct(s)
  {
  }

  // ----- sort_values -----

  /** Pairwise order: every row may stand before every later row. */
  ghost predicate SortedBy<T>(s: seq<T>, before: (T, T) -> bool)
  {
    forall i, j :: 0 <= i < j < |s| ==> before(s[i], s[j])
  }

  lemma SortedByAt<T>(s: seq<T>, before: (T, T) -> bool, i: nat, j: nat)
    requires SortedBy(s, before)
    requires i < j < |s|
    ensures before(s[i], s[j])
  {
  }

  /** `before` is total and transitive, as `>=` on a numeric column is. */
  ghost predicate TotalPreorder<T(!new)>(before: (T, T) -> bool)
  {
    && (forall a, b :: before(a, b) || before(b, a))
    && (forall a, b, c :: before(a, b) && before(b, c) ==> before(a, c))
  }

  /** Puts `x` in front of the first row it may precede. */
  function Insert<T>(x: T, s: seq<T>, before: (T, T) -> bool): (r: seq<T>)
    ensures multiset(r) == multiset(s) + multiset{x}
  {
    if s == [] then [x]
    else if before(x, s[0]) then [x] + s
    else
      assert s == [s[0]] + s[1..];
      [s[0]] + Insert(x, s[1..], before)
  }

  lemma {:induction false} InsertSorted<T(!new)>(x: T, s: seq<T>, before: (T, T) -> bool)
    requires TotalPreorder(before)
    requires SortedBy(s, before)
    ensures SortedBy(Insert(x, s, before), before)
  {
    if s != [] && !before(x, s[0]) {
      var rest := Insert(x, s[1..], before);
      InsertSorted(x, s[1..], before);
      forall y | y in rest ensures before(s[0], y) {
        assert y in multiset(rest);
        if y != x {
          assert y in s[1..];
        }
      }
    }
  }

  lemma InsertKeepsSorted<T(!new)>(x: T, s: seq<T>, before: (T, T) -> bool)
    ensures TotalPreorder(before) && SortedBy(s, before) ==> SortedBy(Insert(x, s, before), before)
  {
    if TotalPreorder(before) && SortedBy(s, before) {
      InsertSorted(x, s, before);
    }
  }

  /**
   * `sort_values` with the order `before`; rows the order cannot tell apart keep their
   * input order (a stable insertion sort).
   */
  function Sort<T(!new)>(s: seq<T>, before: (T, T) -> bool): (r: seq<T>)
    ensures multiset(r) == multiset(s)
    ensures TotalPreorder(before) ==> SortedBy(r, before)
  {
    if s == [] then []
    else
      var rest := Sort(s[1..], before);
      assert s == [s[0]] + s[1..];
      InsertKeepsSorted(s[0], rest, before);
      Insert(s[0], rest, before)
  }

  /**
   * `sort_values(...).head(n)`: the first n rows in the order `before`. Every row it
   * leaves out may stand after every row it keeps.
   */
  function TopN<T(!new)>(s: seq<T>, before: (T, T) -> bool, n: nat): (r: seq<T>)
    requires TotalPreorder(before)
    ensures |r| == if n < |s| then n else |s|
    ensures SortedBy(r, before)
    ensures multiset(r) <= multiset(s)
    ensures forall x, y :: x in r && y in multiset(s) - multiset(r) ==> before(x, y)
  {
    var sorted := Sort(s, before);
    var end := if n < |sorted| then n else |sorted|;
    PrefixDominates(sorted, before, end);
    sorted[..end]
  }

  lemma PrefixDominates<T>(sorted: seq<T>, before: (T, T) -> bool, end: nat)
    requires SortedBy(sorted, before)
    requires end <= |sorted|
    ensures SortedBy(sorted[..end], before)
    ensures multiset(sorted[..end]) <= multiset(sorted)
    ensures multiset(sorted) - multiset(sorted[..end]) == multiset(sorted[end..])
    ensures forall x, y :: x in sorted[..end] && y in multiset(sorted[end..]) ==> before(x, y)
  {
    assert sorted == sorted[..end] + sorted[end..];
    forall x, y | x in sorted[..end] && y in multiset(sorted[end..]) ensures before(x, y) {
      var i :| 0 <= i < end && sorted[i] == x;
      assert y in sorted[end..];
      var k :| 0 <= k < |sorted[end..]| && sorted[end..][k] == y;
      SortedByAt(sorted, before, i, end + k);
    }
  }
}
