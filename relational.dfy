/**
 * The dataframe operations the three scripts rely on, over sequences of rows:
 * boolean-mask selection, column sums, group-by totals, inner and left merges,
 * `drop_duplicates` and `head`. Key and value columns are passed as functions.
 */
module Relational {
  import opened Wrappers

  /** The constant 1: counting rows is summing ones. */
  function One<T(==,!new)>(x: T): int { 1 }

  /** The rows whose key column equals `k`, in their original order (`df[df[key] == k]`). */
  function Where<T(==,!new), K(==)>(rows: seq<T>, key: T -> K, k: K): (r: seq<T>)
    ensures |r| <= |rows|
    ensures forall x :: x in r <==> x in rows && key(x) == k
  {
    if rows == [] then []
    else (if key(rows[0]) == k then [rows[0]] else []) + Where(rows[1..], key, k)
  }

  /** The rows whose key column lies in `keys`, in their original order (`df[df[key].isin(keys)]`). */
  function WhereIn<T(==,!new), K(==)>(rows: seq<T>, key: T -> K, keys: set<K>): (r: seq<T>)
    ensures |r| <= |rows|
    ensures forall x :: x in r <==> x in rows && key(x) in keys
  {
    if rows == [] then []
    else (if key(rows[0]) in keys then [rows[0]] else []) + WhereIn(rows[1..], key, keys)
  }

  /** The rows whose key is not among `keys`: `df[~df[key].isin(keys)]`. */
  function WhereNotIn<T(==,!new), K(==)>(rows: seq<T>, key: T -> K, keys: set<K>): (r: seq<T>)
    ensures |r| <= |rows|
    ensures forall x :: x in r <==> x in rows && key(x) !in keys
  {
    if rows == [] then []
    else (if key(rows[0]) !in keys then [rows[0]] else []) + WhereNotIn(rows[1..], key, keys)
  }

  /** The sum of a value column. */
  function Total<T(==,!new)>(rows: seq<T>, val: T -> int): int
  {
    if rows == [] then 0 else val(rows[0]) + Total(rows[1..], val)
  }

  /** The distinct values of a key column. */
  function KeysOf<T(==,!new), K>(rows: seq<T>, key: T -> K): set<K>
  {
    set x | x in rows :: key(x)
  }

  /** A key column as a sequence, one entry per row. */
  function Column<T(==,!new), K(==,!new)>(rows: seq<T>, key: T -> K): (r: seq<K>)
    ensures |r| == |rows|
    ensures forall i :: 0 <= i < |rows| ==> r[i] == key(rows[i])
    ensures forall k :: k in r <==> k in KeysOf(rows, key)
  {
    if rows == [] then [] else [key(rows[0])] + Column(rows[1..], key)
  }

  lemma {:induction false} ColumnAppend<T(!new), K(!new)>(a: seq<T>, b: seq<T>, key: T -> K)
    ensures Column(a + b, key) == Column(a, key) + Column(b, key)
  {
    if a == [] {
      assert a + b == b;
    } else {
      assert (a + b)[1..] == a[1..] + b;
      calc {
        Column(a + b, key);
        [key(a[0])] + Column(a[1..] + b, key);
        { ColumnAppend(a[1..], b, key); }
        [key(a[0])] + (Column(a[1..], key) + Column(b, key));
        Column(a, key) + Column(b, key);
      }
    }
  }

  function SumInts(s: seq<int>): int
  {
    if s == [] then 0 else s[0] + SumInts(s[1..])
  }

  predicate Distinct<K(==)>(ks: seq<K>)
  {
    forall i, j :: 0 <= i < j < |ks| ==> ks[i] != ks[j]
  }

  /** No two rows share a key: the key column identifies the rows. */
  predicate UniqueKeys<T(==,!new), K(==)>(rows: seq<T>, key: T -> K)
  {
    forall i, j :: 0 <= i < j < |rows| ==> key(rows[i]) != key(rows[j])
  }

  /** The first position of `k` in `ks`: the row of group `k` in a group table. */
  function IndexOf<K(==)>(ks: seq<K>, k: K): (i: nat)
    requires k in ks
    ensures i < |ks| && ks[i] == k
    ensures forall j :: 0 <= j < i ==> ks[j] != k
  {
    if ks[0] == k then 0 else 1 + IndexOf(ks[1..], k)
  }

  /** `groupby(key)[val].sum()` laid out along the group keys `ks`. */
  function GroupSums<T(==,!new), K(==)>(ks: seq<K>, rows: seq<T>, key: T -> K, val: T -> int): seq<int>
  {
    seq(|ks|, j requires 0 <= j < |ks| => Total(Where(rows, key, ks[j]), val))
  }

  /** `groupby(key).size()` laid out along the group keys `ks`. */
  function GroupSizes<T(==,!new), K(==)>(ks: seq<K>, rows: seq<T>, key: T -> K): seq<nat>
  {
    seq(|ks|, j requires 0 <= j < |ks| => |Where(rows, key, ks[j])|)
  }

  lemma {:induction false} TotalOfOnes<T(!new)>(rows: seq<T>)
    ensures Total(rows, One) == |rows|
  {
    if rows != [] {
      TotalOfOnes(rows[1..]);
    }
  }

  lemma {:induction false} TotalAppend<T(!new)>(a: seq<T>, b: seq<T>, val: T -> int)
    ensures Total(a + b, val) == Total(a, val) + Total(b, val)
  {
    if a == [] {
      assert a + b == b;
    } else {
      assert (a + b)[1..] == a[1..] + b;
      TotalAppend(a[1..], b, val);
    }
  }

  lemma {:induction false} WhereAppend<T(!new), K>(a: seq<T>, b: seq<T>, key: T -> K, k: K)
    ensures Where(a + b, key, k) == Where(a, key, k) + Where(b, key, k)
  {
    if a == [] {
      assert a + b == b;
    } else {
      assert (a + b)[1..] == a[1..] + b;
      WhereAppend(a[1..], b, key, k);
    }
  }

  /** Filtering on one column then another is filtering on both, in either order. */
  lemma {:induction false} WhereCommutes<T(!new), K, L>(rows: seq<T>, k1: T -> K, a: K, k2: T -> L, b: L)
    ensures Where(Where(rows, k1, a), k2, b) == Where(Where(rows, k2, b), k1, a)
  {
    if rows != [] {
      var x, rest := rows[0], rows[1..];
      var head1 := if k1(x) == a then [x] else [];
      var head2 := if k2(x) == b then [x] else [];
      WhereAppend(head1, Where(rest, k1, a), k2, b);
      WhereAppend(head2, Where(rest, k2, b), k1, a);
      WhereCommutes(rest, k1, a, k2, b);
    }
  }

  /** With a non-negative value column, the total over a selection is at most the grand total. */
  lemma {:induction false} TotalWhereBound<T(!new), K>(rows: seq<T>, key: T -> K, k: K, val: T -> int)
    requires forall x :: x in rows ==> val(x) >= 0
    ensures Total(Where(rows, key, k), val) <= Total(rows, val)
  {
    if rows != [] {
      var head := if key(rows[0]) == k then [rows[0]] else [];
      TotalAppend(head, Where(rows[1..], key, k), val);
      TotalWhereBound(rows[1..], key, k, val);
    }
  }

  lemma {:induction false} WhereAll<T(!new), K>(rows: seq<T>, key: T -> K, k: K)
    requires forall x :: x in rows ==> key(x) == k
    ensures Where(rows, key, k) == rows
  {
    if rows != [] {
      WhereAll(rows[1..], key, k);
    }
  }

  lemma WhereNone<T(!new), K>(rows: seq<T>, key: T -> K, k: K)
    requires forall x :: x in rows ==> key(x) != k
    ensures Where(rows, key, k) == []
  {
  }

  lemma {:induction false} GroupSizesAreSumsOfOnes<T(!new), K>(ks: seq<K>, rows: seq<T>, key: T -> K)
    ensures GroupSizes(ks, rows, key) == GroupSums(ks, rows, key, One)
  {
    forall j | 0 <= j < |ks|
      ensures GroupSizes(ks, rows, key)[j] == GroupSums(ks, rows, key, One)[j]
    {
      TotalOfOnes(Where(rows, key, ks[j]));
    }
  }

  /** Dropping the first row changes each group total by that row's value, in that row's group only. */
  lemma {:induction false} GroupSumsUncons<T(!new), K>(ks: seq<K>, rows: seq<T>, key: T -> K, val: T -> int)
    requires Distinct(ks)
    requires rows != []
    ensures SumInts(GroupSums(ks, rows, key, val))
         == (if key(rows[0]) in ks then val(rows[0]) else 0) + SumInts(GroupSums(ks, rows[1..], key, val))
  {
    if ks != [] {
      assert GroupSums(ks, rows, key, val)[1..] == GroupSums(ks[1..], rows, key, val);
      assert GroupSums(ks, rows[1..], key, val)[1..] == GroupSums(ks[1..], rows[1..], key, val);
      var head := if key(rows[0]) == ks[0] then [rows[0]] else [];
      TotalAppend(head, Where(rows[1..], key, ks[0]), val);
      GroupSumsUncons(ks[1..], rows, key, val);
      assert key(rows[0]) == ks[0] ==> key(rows[0]) !in ks[1..];
    }
  }

  lemma {:induction false} GroupSumsOfNothing<T(!new), K>(ks: seq<K>, rows: seq<T>, key: T -> K, val: T -> int)
    requires rows == []
    ensures SumInts(GroupSums(ks, rows, key, val)) == 0
  {
    if ks != [] {
      assert GroupSums(ks, rows, key, val)[1..] == GroupSums(ks[1..], rows, key, val);
      GroupSumsOfNothing(ks[1..], rows, key, val);
    }
  }

  /**
   * The groups of a group-by partition the rows: over distinct keys that cover every
   * row's key, the group totals add up to the grand total.
   */
  lemma {:induction false} PartitionTotal<T(!new), K>(ks: seq<K>, rows: seq<T>, key: T -> K, val: T -> int)
    requires Distinct(ks)
    requires forall x :: x in rows ==> key(x) in ks
    ensures SumInts(GroupSums(ks, rows, key, val)) == Total(rows, val)
  {
    if rows == [] {
      GroupSumsOfNothing(ks, rows, key, val);
    } else {
      GroupSumsUncons(ks, rows, key, val);
      PartitionTotal(ks, rows[1..], key, val);
    }
  }

  /** Over distinct keys that cover every row's key, the group sizes add up to the row count. */
  lemma PartitionCount<T(!new), K>(ks: seq<K>, rows: seq<T>, key: T -> K)
    requires Distinct(ks)
    requires forall x :: x in rows ==> key(x) in ks
    ensures SumInts(GroupSizes(ks, rows, key)) == |rows|
  {
    GroupSizesAreSumsOfOnes(ks, rows, key);
    PartitionTotal(ks, rows, key, One);
    TotalOfOnes(rows);
  }

  lemma {:induction false} ReportColumnIsGroupSums<R(!new), T(!new), K>(
    report: seq<R>, field: R -> int, ks: seq<K>, data: seq<T>, key: T -> K, val: T -> int)
    requires |report| == |ks|
    requires forall i :: 0 <= i < |ks| ==> field(report[i]) == Total(Where(data, key, ks[i]), val)
    ensures Total(report, field) == SumInts(GroupSums(ks, data, key, val))
  {
    if ks != [] {
      assert GroupSums(ks, data, key, val)[1..] == GroupSums(ks[1..], data, key, val);
      ReportColumnIsGroupSums(report[1..], field, ks[1..], data, key, val);
    }
  }

  /**
   * A report with one row per key of a complete list of distinct keys, each holding
   * the total of its group, adds up to the total of the whole relation.
   */
  lemma GroupReportTotal<R(!new), T(!new), K>(
    report: seq<R>, field: R -> int, ks: seq<K>, data: seq<T>, key: T -> K, val: T -> int)
    requires |report| == |ks|
    requires forall i :: 0 <= i < |ks| ==> field(report[i]) == Total(Where(data, key, ks[i]), val)
    requires Distinct(ks)
    requires forall x :: x in data ==> key(x) in ks
    ensures Total(report, field) == Total(data, val)
  {
    ReportColumnIsGroupSums(report, field, ks, data, key, val);
    PartitionTotal(ks, data, key, val);
  }

  /** The same for a report of group sizes: they add up to the number of rows. */
  lemma GroupReportCount<R(!new), T(!new), K>(report: seq<R>, field: R -> int, ks: seq<K>, data: seq<T>, key: T -> K)
    requires |report| == |ks|
    requires forall i :: 0 <= i < |ks| ==> field(report[i]) == |Where(data, key, ks[i])|
    requires Distinct(ks)
    requires forall x :: x in data ==> key(x) in ks
    ensures Total(report, field) == |data|
  {
    forall i | 0 <= i < |ks| ensures field(report[i]) == Total(Where(data, key, ks[i]), One) {
      TotalOfOnes(Where(data, key, ks[i]));
    }
    GroupReportTotal(report, field, ks, data, key, One);
    TotalOfOnes(data);
  }

  /** Under a unique key, a key selects at most one row, and exactly one when it occurs. */
  lemma {:induction false} WhereUnique<T(!new), K>(rows: seq<T>, key: T -> K, k: K)
    requires UniqueKeys(rows, key)
    ensures |Where(rows, key, k)| == if k in KeysOf(rows, key) then 1 else 0
  {
    if rows != [] {
      var rest := rows[1..];
      assert UniqueKeys(rest, key) by {
        forall i, j | 0 <= i < j < |rest| ensures key(rest[i]) != key(rest[j]) {
          assert rest[i] == rows[i + 1] && rest[j] == rows[j + 1];
        }
      }
      WhereUnique(rest, key, k);
      if key(rows[0]) == k {
        forall j | 0 <= j < |rest| ensures key(rest[j]) != k {
          assert rest[j] == rows[j + 1];
        }
        assert k !in KeysOf(rest, key);
      } else {
        assert KeysOf(rows, key) == {key(rows[0])} + KeysOf(rest, key) by {
          assert rows == [rows[0]] + rest;
        }
      }
    }
  }

  /** Under a unique key, rows with the same key are the same row. */
  lemma UniqueKeysIdentify<T(!new), K>(rows: seq<T>, key: T -> K, x: T, y: T)
    requires UniqueKeys(rows, key)
    requires x in rows && y in rows
    ensures key(x) == key(y) ==> x == y
  {
    var i :| 0 <= i < |rows| && rows[i] == x;
    var j :| 0 <= j < |rows| && rows[j] == y;
    assert key(rows[i]) == key(rows[j]) ==> i == j;
  }

  /** Under a unique key, each row occurs once. */
  lemma {:induction false} UniqueKeysOccurOnce<T(!new), K>(rows: seq<T>, key: T -> K, x: T)
    requires UniqueKeys(rows, key)
    requires x in rows
    ensures multiset(rows)[x] == 1
  {
    var rest := rows[1..];
    assert rows == [rows[0]] + rest;
    assert UniqueKeys(rest, key) by {
      forall i, j | 0 <= i < j < |rest| ensures key(rest[i]) != key(rest[j]) {
        assert rest[i] == rows[i + 1] && rest[j] == rows[j + 1];
      }
    }
    if x == rows[0] {
      forall j | 0 <= j < |rest| ensures rest[j] != x {
        assert rest[j] == rows[j + 1];
      }
      assert x !in rest;
    } else {
      UniqueKeysOccurOnce(rest, key, x);
    }
  }

  // ----- Inner merge -----

  /** `a` paired with each of `bs`. */
  function PairWith<A(==,!new), B(==,!new)>(a: A, bs: seq<B>): (r: seq<(A, B)>)
    ensures forall p :: p in r <==> p.0 == a && p.1 in bs
  {
    var r := seq(|bs|, i requires 0 <= i < |bs| => (a, bs[i]));
    assert forall i :: 0 <= i < |bs| ==> r[i] == (a, bs[i]);
    r
  }

  /**
   * `pd.merge(left, right, how='inner')` on lk == rk: for each left row in order, one
   * output row per matching right row.
   */
  function Join<A(==,!new), B(==,!new), K(==)>(left: seq<A>, right: seq<B>, lk: A -> K, rk: B -> K): (r: seq<(A, B)>)
    ensures forall p :: p in r <==> p.0 in left && p.1 in right && lk(p.0) == rk(p.1)
  {
    if left == [] then []
    else PairWith(left[0], Where(right, rk, lk(left[0]))) + Join(left[1..], right, lk, rk)
  }

  /** The left-hand rows of merged pairs, in order. */
  function Lefts<A(==,!new), B(==,!new)>(ps: seq<(A, B)>): (r: seq<A>)
    ensures |r| == |ps|
    ensures forall i :: 0 <= i < |ps| ==> r[i] == ps[i].0
  {
    if ps == [] then [] else [ps[0].0] + Lefts(ps[1..])
  }

  lemma {:induction false} LeftsAppend<A(!new), B(!new)>(a: seq<(A, B)>, b: seq<(A, B)>)
    ensures Lefts(a + b) == Lefts(a) + Lefts(b)
  {
  }

  /**
   * When the right key is unique, an inner merge keeps exactly the left rows whose key
   * occurs on the right, once each and in their original order.
   */
  lemma {:induction false} JoinOnUniqueKey<A(!new), B(!new), K>(left: seq<A>, right: seq<B>, lk: A -> K, rk: B -> K)
    requires UniqueKeys(right, rk)
    ensures Lefts(Join(left, right, lk, rk)) == WhereIn(left, lk, KeysOf(right, rk))
  {
    if left != [] {
      var matches := Where(right, rk, lk(left[0]));
      WhereUnique(right, rk, lk(left[0]));
      LeftsAppend(PairWith(left[0], matches), Join(left[1..], right, lk, rk));
      JoinOnUniqueKey(left[1..], right, lk, rk);
    }
  }

  // ----- Left merge -----

  /** `a` with each of its matches, or with None when it has none. */
  function Attach<A(==,!new), B(==,!new)>(a: A, bs: seq<B>): (r: seq<(A, Option<B>)>)
    ensures r != []
    ensures forall p :: p in r ==> p.0 == a
    ensures (a, None) in r <==> bs == []
    ensures forall b :: (a, Some(b)) in r <==> b in bs
  {
    if bs == [] then [(a, None)]
    else
      var r := seq(|bs|, i requires 0 <= i < |bs| => (a, Some(bs[i])));
      assert forall i :: 0 <= i < |bs| ==> r[i] == (a, Some(bs[i]));
      r
  }

  /** No row has key `k` exactly when `k` is not among the keys. */
  lemma WhereEmptyIff<T(!new), K>(rows: seq<T>, key: T -> K, k: K)
    ensures Where(rows, key, k) == [] <==> k !in KeysOf(rows, key)
  {
    if k in KeysOf(rows, key) {
      var x :| x in rows && key(x) == k;
      assert x in Where(rows, key, k);
    }
  }

  /**
   * `pd.merge(left, right, how='left')` on lk == rk: every left row is kept, in order,
   * once per matching right row, or once with a missing right side.
   */
  function LeftJoin<A(==,!new), B(==,!new), K(==)>(left: seq<A>, right: seq<B>, lk: A -> K, rk: B -> K): (r: seq<(A, Option<B>)>)
    ensures forall p :: p in r ==> p.0 in left
    ensures forall a :: (a, None) in r <==> a in left && lk(a) !in KeysOf(right, rk)
    ensures forall a, b :: (a, Some(b)) in r <==> a in left && b in right && lk(a) == rk(b)
  {
    if left == [] then []
    else
      var head := Attach(left[0], Where(right, rk, lk(left[0])));
      var rest := LeftJoin(left[1..], right, lk, rk);
      WhereEmptyIff(right, rk, lk(left[0]));
      LeftJoinStep(left, right, lk, rk, head, rest);
      head + rest
  }

  lemma LeftJoinStep<A(!new), B(!new), K>(left: seq<A>, right: seq<B>, lk: A -> K, rk: B -> K,
                                         head: seq<(A, Option<B>)>, rest: seq<(A, Option<B>)>)
    requires left != []
    requires forall p :: p in head ==> p.0 == left[0]
    requires (left[0], None) in head <==> lk(left[0]) !in KeysOf(right, rk)
    requires forall b :: (left[0], Some(b)) in head <==> b in right && lk(left[0]) == rk(b)
    requires forall p :: p in rest ==> p.0 in left[1..]
    requires forall a :: (a, None) in rest <==> a in left[1..] && lk(a) !in KeysOf(right, rk)
    requires forall a, b :: (a, Some(b)) in rest <==> a in left[1..] && b in right && lk(a) == rk(b)
    ensures forall p :: p in head + rest ==> p.0 in left
    ensures forall a :: (a, None) in head + rest <==> a in left && lk(a) !in KeysOf(right, rk)
    ensures forall a, b :: (a, Some(b)) in head + rest <==> a in left && b in right && lk(a) == rk(b)
  {
    assert left == [left[0]] + left[1..];
    forall a ensures a in left <==> a == left[0] || a in left[1..] { }
  }

  /** Each row of a left merge pairs a left row with one of its matches, or with None when it has none. */
  lemma {:induction false} LeftJoinRowAt<A(!new), B(!new), K>(left: seq<A>, right: seq<B>, lk: A -> K, rk: B -> K, i: nat)
    requires i < |LeftJoin(left, right, lk, rk)|
    ensures var p := LeftJoin(left, right, lk, rk)[i];
      && p.0 in left
      && (p.1.None? ==> lk(p.0) !in KeysOf(right, rk))
      && (p.1.Some? ==> p.1.value in right && lk(p.0) == rk(p.1.value))
  {
    var m := Where(right, rk, lk(left[0]));
    var att := Attach(left[0], m);
    var r := LeftJoin(left, right, lk, rk);
    assert r == att + LeftJoin(left[1..], right, lk, rk);
    if i < |att| {
      assert r[i] == att[i];
      if m != [] {
        assert att[i] == (left[0], Some(m[i]));
        assert m[i] in m;
      }
    } else {
      LeftJoinRowAt(left[1..], right, lk, rk, i - |att|);
      assert r[i] == LeftJoin(left[1..], right, lk, rk)[i - |att|];
    }
  }

  /** When the right key is unique, a left merge has exactly one row per left row, in order. */
  lemma {:induction false} LeftJoinOnUniqueKey<A(!new), B(!new), K>(left: seq<A>, right: seq<B>, lk: A -> K, rk: B -> K)
    requires UniqueKeys(right, rk)
    ensures Lefts(LeftJoin(left, right, lk, rk)) == left
  {
    if left != [] {
      var matches := Where(right, rk, lk(left[0]));
      WhereUnique(right, rk, lk(left[0]));
      LeftsAppend(Attach(left[0], matches), LeftJoin(left[1..], right, lk, rk));
      LeftJoinOnUniqueKey(left[1..], right, lk, rk);
    }
  }

  // ----- drop_duplicates -----

  /** The position of the first row whose key is `k`. */
  function FirstIndex<T(==,!new), K(==)>(rows: seq<T>, key: T -> K, k: K): (i: nat)
    requires k in KeysOf(rows, key)
    ensures i < |rows| && key(rows[i]) == k
    ensures forall j :: 0 <= j < i ==> key(rows[j]) != k
  {
    if key(rows[0]) == k then 0
    else
      assert k in KeysOf(rows[1..], key) by {
        var x :| x in rows && key(x) == k;
        assert x != rows[0];
      }
      1 + FirstIndex(rows[1..], key, k)
  }

  lemma FirstIndexAt<T(!new), K>(rows: seq<T>, key: T -> K, i: nat)
    requires i < |rows|
    requires forall j :: 0 <= j < i ==> key(rows[j]) != key(rows[i])
    ensures key(rows[i]) in KeysOf(rows, key)
    ensures FirstIndex(rows, key, key(rows[i])) == i
  {
    assert rows[i] in rows;
  }

  /** `drop_duplicates(subset=key)`: the first row of each key, in order of first appearance. */
  function DropDuplicates<T(==,!new), K(==)>(rows: seq<T>, key: T -> K): (r: seq<T>)
    ensures UniqueKeys(r, key)
    ensures KeysOf(r, key) == KeysOf(rows, key)
    ensures forall x :: x in r ==> x in rows
  {
    if rows == [] then []
    else
      var before := rows[..|rows| - 1];
      var last := rows[|rows| - 1];
      var kept := DropDuplicates(before, key);
      assert rows == before + [last];
      if key(last) in KeysOf(kept, key) then kept
      else
        assert forall i :: 0 <= i < |kept| ==> key(kept[i]) != key(last) by {
          forall i | 0 <= i < |kept| ensures key(kept[i]) != key(last) {
            assert kept[i] in kept;
          }
        }
        KeysOfAppend(kept, [last], key);
        kept + [last]
  }

  lemma KeysOfAppend<T(!new), K>(a: seq<T>, b: seq<T>, key: T -> K)
    ensures KeysOf(a + b, key) == KeysOf(a, key) + KeysOf(b, key)
  {
    forall k | k in KeysOf(a + b, key) ensures k in KeysOf(a, key) + KeysOf(b, key) {
      var x :| x in a + b && key(x) == k;
    }
  }

  /** A key already present in a prefix has its first position there. */
  lemma FirstIndexInPrefix<T(!new), K>(before: seq<T>, last: T, key: T -> K, k: K)
    requires k in KeysOf(before, key)
    ensures k in KeysOf(before + [last], key)
    ensures FirstIndex(before + [last], key, k) == FirstIndex(before, key, k)
  {
    var f := FirstIndex(before, key, k);
    assert (before + [last])[f] == before[f];
    forall j | 0 <= j < f ensures key((before + [last])[j]) != k {
      assert (before + [last])[j] == before[j];
    }
    FirstIndexAt(before + [last], key, f);
  }

  /** A key absent from a prefix first appears at the row just after it. */
  lemma FirstIndexAtEnd<T(!new), K>(before: seq<T>, last: T, key: T -> K)
    requires key(last) !in KeysOf(before, key)
    ensures key(last) in KeysOf(before + [last], key)
    ensures FirstIndex(before + [last], key, key(last)) == |before|
  {
    forall j | 0 <= j < |before| ensures key((before + [last])[j]) != key(last) {
      assert (before + [last])[j] == before[j] && before[j] in before;
    }
    FirstIndexAt(before + [last], key, |before|);
  }

  /** Each row `drop_duplicates` keeps is the first row with its key. */
  lemma {:induction false} DropDuplicatesKeepsFirst<T(!new), K>(rows: seq<T>, key: T -> K)
    ensures forall i :: 0 <= i < |DropDuplicates(rows, key)| ==>
      key(DropDuplicates(rows, key)[i]) in KeysOf(rows, key) &&
      DropDuplicates(rows, key)[i] == rows[FirstIndex(rows, key, key(DropDuplicates(rows, key)[i]))]
  {
    var r := DropDuplicates(rows, key);
    if rows != [] {
      var n := |rows| - 1;
      var before, last := rows[..n], rows[n];
      var kept := DropDuplicates(before, key);
      DropDuplicatesKeepsFirst(before, key);
      assert rows == before + [last];
      forall i | 0 <= i < |kept|
        ensures key(kept[i]) in KeysOf(rows, key) && kept[i] == rows[FirstIndex(rows, key, key(kept[i]))]
      {
        FirstIndexInPrefix(before, last, key, key(kept[i]));
      }
      if key(last) !in KeysOf(kept, key) {
        assert r == kept + [last];
        FirstIndexAtEnd(before, last, key);
      }
    }
  }

  /** The keys of `kept` occur in `rows`, and in `kept` in the order of their first appearance in `rows`. */
  ghost predicate FirstSeenOrder<T(!new), K>(rows: seq<T>, kept: seq<T>, key: T -> K)
  {
    && (forall x :: x in kept ==> key(x) in KeysOf(rows, key))
    && forall i, j :: 0 <= i < j < |kept| ==>
         key(kept[i]) in KeysOf(rows, key) && key(kept[j]) in KeysOf(rows, key) &&
         FirstIndex(rows, key, key(kept[i])) < FirstIndex(rows, key, key(kept[j]))
  }

  lemma FirstSeenOrderExtend<T(!new), K>(before: seq<T>, last: T, kept: seq<T>, key: T -> K)
    requires FirstSeenOrder(before, kept, key)
    ensures FirstSeenOrder(before + [last], kept, key)
  {
    forall x | x in kept ensures key(x) in KeysOf(before + [last], key) {
      FirstIndexInPrefix(before, last, key, key(x));
    }
    forall i | 0 <= i < |kept|
      ensures FirstIndex(before + [last], key, key(kept[i])) == FirstIndex(before, key, key(kept[i]))
    {
      assert kept[i] in kept;
      FirstIndexInPrefix(before, last, key, key(kept[i]));
    }
  }

  lemma FirstSeenOrderAppend<T(!new), K>(before: seq<T>, last: T, kept: seq<T>, key: T -> K)
    requires FirstSeenOrder(before + [last], kept, key)
    requires key(last) !in KeysOf(before, key)
    requires forall x :: x in kept ==> key(x) in KeysOf(before, key)
    ensures FirstSeenOrder(before + [last], kept + [last], key)
  {
    FirstIndexAtEnd(before, last, key);
    forall i | 0 <= i < |kept| ensures FirstIndex(before + [last], key, key(kept[i])) < |before| {
      assert kept[i] in kept;
      FirstIndexInPrefix(before, last, key, key(kept[i]));
    }
  }

  /** The rows `drop_duplicates` keeps come in the order in which their keys first appear. */
  lemma {:induction false} DropDuplicatesInOrder<T(!new), K>(rows: seq<T>, key: T -> K)
    ensures FirstSeenOrder(rows, DropDuplicates(rows, key), key)
  {
    if rows != [] {
      var n := |rows| - 1;
      var before, last := rows[..n], rows[n];
      var kept := DropDuplicates(before, key);
      DropDuplicatesInOrder(before, key);
      assert rows == before + [last];
      FirstSeenOrderExtend(before, last, kept, key);
      if key(last) !in KeysOf(kept, key) {
        FirstSeenOrderAppend(before, last, kept, key);
      }
    }
  }



  // ----- head -----

  /** `head(n)`: the first n rows, or all of them when there are fewer. */
  function Take<T(==,!new)>(s: seq<T>, n: nat): (r: seq<T>)
    ensures |r| <= n && |r| <= |s|
    ensures |r| == n || |r| == |s|
    ensures r == s[..|r|]
  {
    if |s| < n then s else s[..n]
  }
}
