/**
 * The pandas table operations the aggregations are built from, over a table
 * given as a sequence of rows: `groupby(key).count()[value]`,
 * `groupby(key)[value].mean()`, an inner `merge` on the key,
 * `value_counts()` and `head(n)`.
 *
 * A grouped result is a sequence of (key, value) rows. Rows whose key is
 * null belong to no group, as in pandas.
 */
module Grouping {
  import opened Wrappers

  ghost predicate Distinct<T>(s: seq<T>) {
    forall i, j :: 0 <= i < j < |s| ==> s[i] != s[j]
  }

  function KeysOf<K(==, !new), V(!new)>(rows: seq<(K, V)>): (ks: seq<K>)
    ensures |ks| == |rows| && forall i :: 0 <= i < |rows| ==> ks[i] == rows[i].0
  {
    seq(|rows|, i requires 0 <= i < |rows| => rows[i].0)
  }

  /** Some row of the table has the (non-null) key `k`. */
  ghost predicate HasKey<K(!new), V(!new)>(cells: seq<(Option<K>, V)>, k: K) {
    exists i :: 0 <= i < |cells| && cells[i].0 == Some(k)
  }

  /** The distinct non-null keys of the table, in order of first appearance. */
  function UniqueKeys<K(==, !new), V(!new)>(cells: seq<(Option<K>, V)>): (r: seq<K>)
    ensures Distinct(r)
    ensures forall k :: k in r <==> HasKey(cells, k)
  {
    if cells == [] then []
    else
      var init := cells[..|cells| - 1];
      var keys := UniqueKeys(init);
      assert forall k :: HasKey(cells, k) <==> HasKey(init, k) || cells[|cells| - 1].0 == Some(k);
      match cells[|cells| - 1].0
      case None => keys
      case Some(k) => if k in keys then keys else keys + [k]
  }

  // ---------------------------------------------------------------------------
  // groupby(key).count()[value]

  /** The row falls in group `k` and its value is not null. */
  predicate Counted<K(==, !new), V(!new)>(cell: (Option<K>, Option<V>), k: K) {
    cell.0 == Some(k) && cell.1.Some?
  }

  /** How many rows of group `k` have a non-null value. */
  function CountNonNull<K(==, !new), V(!new)>(cells: seq<(Option<K>, Option<V>)>, k: K): nat {
    if cells == [] then 0
    else CountNonNull(cells[..|cells| - 1], k) + (if Counted(cells[|cells| - 1], k) then 1 else 0)
  }

  /** How many rows have both a non-null key and a non-null value. */
  function CountBoth<K(==, !new), V(!new)>(cells: seq<(Option<K>, Option<V>)>): nat {
    if cells == [] then 0
    else
      var last := cells[|cells| - 1];
      CountBoth(cells[..|cells| - 1]) + (if last.0.Some? && last.1.Some? then 1 else 0)
  }

  lemma {:induction false} CountNonNullIsSize<K(!new), V(!new)>(cells: seq<(Option<K>, Option<V>)>, k: K)
    ensures CountNonNull(cells, k) == |set i | 0 <= i < |cells| && Counted(cells[i], k)|
  {
    if cells != [] {
      var n := |cells| - 1;
      var init := cells[..n];
      CountNonNullIsSize(init, k);
      var before := set i | 0 <= i < n && Counted(init[i], k);
      var after := set i | 0 <= i < |cells| && Counted(cells[i], k);
      if Counted(cells[n], k) {
        assert after == before + {n};
      } else {
        assert after == before;
      }
    }
  }

  lemma {:induction false} CountBothIsSize<K(!new), V(!new)>(cells: seq<(Option<K>, Option<V>)>)
    ensures CountBoth(cells) == |set i | 0 <= i < |cells| && cells[i].0.Some? && cells[i].1.Some?|
  {
    if cells != [] {
      var n := |cells| - 1;
      var init := cells[..n];
      CountBothIsSize(init);
      var before := set i | 0 <= i < n && init[i].0.Some? && init[i].1.Some?;
      var after := set i | 0 <= i < |cells| && cells[i].0.Some? && cells[i].1.Some?;
      if cells[n].0.Some? && cells[n].1.Some? {
        assert after == before + {n};
      } else {
        assert after == before;
      }
    }
  }

  /** One row per key of `ks`, with that group's count. */
  function CountsFor<K(==, !new), V(!new)>(ks: seq<K>, cells: seq<(Option<K>, Option<V>)>): (r: seq<(K, nat)>)
    ensures |r| == |ks|
    ensures forall i :: 0 <= i < |ks| ==> r[i] == (ks[i], CountNonNull(cells, ks[i]))
  {
    if ks == [] then [] else [(ks[0], CountNonNull(cells, ks[0]))] + CountsFor(ks[1..], cells)
  }

  /** `groupby(key).count()[value]`: one row per distinct non-null key. */
  function GroupCount<K(==, !new), V(!new)>(cells: seq<(Option<K>, Option<V>)>): (r: seq<(K, nat)>)
    ensures Distinct(KeysOf(r))
    ensures forall k :: k in KeysOf(r) <==> HasKey(cells, k)
    ensures forall i :: 0 <= i < |r| ==>
      r[i].1 == |set j | 0 <= j < |cells| && Counted(cells[j], r[i].0)|
  {
    var ks := UniqueKeys(cells);
    var r := CountsFor(ks, cells);
    assert KeysOf(r) == ks;
    forall i | 0 <= i < |r|
      ensures r[i].1 == |set j | 0 <= j < |cells| && Counted(cells[j], r[i].0)|
    {
      CountNonNullIsSize(cells, r[i].0);
    }
    r
  }

  function SumCounts<K(==, !new)>(rows: seq<(K, nat)>): nat {
    if rows == [] then 0 else rows[0].1 + SumCounts(rows[1..])
  }

  /** How many keys of `ks` the row is counted under. */
  function Hits<K(==, !new), V(!new)>(ks: seq<K>, cell: (Option<K>, Option<V>)): nat {
    if ks == [] then 0 else (if Counted(cell, ks[0]) then 1 else 0) + Hits(ks[1..], cell)
  }

  lemma {:induction false} HitsDistinct<K(!new), V(!new)>(ks: seq<K>, cell: (Option<K>, Option<V>))
    requires Distinct(ks)
    ensures Hits(ks, cell) == if cell.0.Some? && cell.1.Some? && cell.0.value in ks then 1 else 0
  {
    if ks != [] {
      assert Distinct(ks[1..]) by {
        forall i, j | 0 <= i < j < |ks| - 1 ensures ks[1..][i] != ks[1..][j] {
          assert ks[1..][i] == ks[i + 1] && ks[1..][j] == ks[j + 1];
        }
      }
      HitsDistinct(ks[1..], cell);
      assert ks[0] !in ks[1..] by {
        forall j | 0 <= j < |ks| - 1 ensures ks[1..][j] != ks[0] {
          assert ks[1..][j] == ks[j + 1];
        }
      }
      assert forall k :: k in ks <==> k == ks[0] || k in ks[1..];
    }
  }

  lemma {:induction false} SumCountsSnoc<K(!new), V(!new)>(ks: seq<K>, cells: seq<(Option<K>, Option<V>)>, cell: (Option<K>, Option<V>))
    ensures SumCounts(CountsFor(ks, cells + [cell])) == SumCounts(CountsFor(ks, cells)) + Hits(ks, cell)
  {
    if ks != [] {
      assert (cells + [cell])[..|cells|] == cells;
      SumCountsSnoc(ks[1..], cells, cell);
    }
  }

  /** Summing the group counts over any distinct key list that covers every key counts each row once. */
  lemma {:induction false} SumOfCounts<K(!new), V(!new)>(ks: seq<K>, cells: seq<(Option<K>, Option<V>)>)
    requires Distinct(ks)
    requires forall i :: 0 <= i < |cells| && cells[i].0.Some? ==> cells[i].0.value in ks
    ensures SumCounts(CountsFor(ks, cells)) == CountBoth(cells)
  {
    if cells == [] {
      ZeroCounts<K, V>(ks);
    } else {
      var n := |cells| - 1;
      var init := cells[..n];
      SumOfCounts(ks, init);
      assert init + [cells[n]] == cells;
      SumCountsSnoc(ks, init, cells[n]);
      HitsDistinct(ks, cells[n]);
    }
  }

  /** The empty table counts nothing under any key. */
  lemma {:induction false} ZeroCounts<K(!new), V(!new)>(ks: seq<K>)
    ensures SumCounts(CountsFor<K, V>(ks, [])) == 0
  {
    if ks != [] {
      ZeroCounts<K, V>(ks[1..]);
    }
  }

  /** The group counts add up to the number of rows with a non-null key and a non-null value. */
  lemma GroupCountSum<K(!new), V(!new)>(cells: seq<(Option<K>, Option<V>)>)
    ensures SumCounts(GroupCount(cells)) == |set i | 0 <= i < |cells| && cells[i].0.Some? && cells[i].1.Some?|
  {
    var ks := UniqueKeys(cells);
    forall i | 0 <= i < |cells| && cells[i].0.Some? ensures cells[i].0.value in ks {
      assert HasKey(cells, cells[i].0.value);
    }
    SumOfCounts(ks, cells);
    CountBothIsSize(cells);
  }

  lemma {:induction false} CountAtMostBoth<K(!new), V(!new)>(cells: seq<(Option<K>, Option<V>)>, k: K)
    ensures CountNonNull(cells, k) <= CountBoth(cells)
  {
    if cells != [] {
      CountAtMostBoth(cells[..|cells| - 1], k);
    }
  }

  /** A row of the group counts is a key of the table, with a count no larger than the rows it could count. */
  lemma GroupCountRow<K(!new), V(!new)>(cells: seq<(Option<K>, Option<V>)>, row: (K, nat))
    requires row in GroupCount(cells)
    ensures HasKey(cells, row.0)
    ensures row.1 == CountNonNull(cells, row.0) <= CountBoth(cells)
  {
    var g := GroupCount(cells);
    var i :| 0 <= i < |g| && g[i] == row;
    assert KeysOf(g)[i] == row.0;
    assert row.0 in KeysOf(g);
    CountAtMostBoth(cells, row.0);
  }

  // ---------------------------------------------------------------------------
  // groupby(key)[value].mean() over a column without nulls

  function CountKey<K(==, !new)>(cells: seq<(Option<K>, real)>, k: K): nat {
    if cells == [] then 0
    else CountKey(cells[..|cells| - 1], k) + (if cells[|cells| - 1].0 == Some(k) then 1 else 0)
  }

  function SumKey<K(==, !new)>(cells: seq<(Option<K>, real)>, k: K): real {
    if cells == [] then 0.0
    else SumKey(cells[..|cells| - 1], k) + (if cells[|cells| - 1].0 == Some(k) then cells[|cells| - 1].1 else 0.0)
  }

  lemma {:induction false} CountKeyPositive<K(!new)>(cells: seq<(Option<K>, real)>, k: K)
    requires HasKey(cells, k)
    ensures CountKey(cells, k) > 0
  {
    var n := |cells| - 1;
    if cells[n].0 != Some(k) {
      var i :| 0 <= i < |cells| && cells[i].0 == Some(k);
      assert cells[..n][i] == cells[i];
      CountKeyPositive(cells[..n], k);
    }
  }

  /** A group whose values are all at most `b` sums to at most `b` times its size. */
  lemma {:induction false} SumKeyBounded<K(!new)>(cells: seq<(Option<K>, real)>, k: K, b: real)
    requires forall i :: 0 <= i < |cells| && cells[i].0 == Some(k) ==> cells[i].1 <= b
    ensures SumKey(cells, k) <= b * (CountKey(cells, k) as real)
  {
    if cells != [] {
      var n := |cells| - 1;
      assert forall i :: 0 <= i < n ==> cells[..n][i] == cells[i];
      SumKeyBounded(cells[..n], k, b);
    }
  }

  /** The arithmetic mean of group `k`'s values. */
  function Mean<K(==, !new)>(cells: seq<(Option<K>, real)>, k: K): real
    requires CountKey(cells, k) > 0
  {
    SumKey(cells, k) / (CountKey(cells, k) as real)
  }

  function MeansFor<K(==, !new)>(ks: seq<K>, cells: seq<(Option<K>, real)>): (r: seq<(K, real)>)
    requires forall k :: k in ks ==> CountKey(cells, k) > 0
    ensures |r| == |ks|
    ensures forall i :: 0 <= i < |ks| ==> r[i] == (ks[i], Mean(cells, ks[i]))
  {
    if ks == [] then [] else [(ks[0], Mean(cells, ks[0]))] + MeansFor(ks[1..], cells)
  }

  /** `groupby(key)[value].mean()`: one row per distinct non-null key, with that group's mean. */
  function GroupMean<K(==, !new)>(cells: seq<(Option<K>, real)>): (r: seq<(K, real)>)
    ensures Distinct(KeysOf(r))
    ensures forall k :: k in KeysOf(r) <==> HasKey(cells, k)
    ensures forall i :: 0 <= i < |r| ==> CountKey(cells, r[i].0) > 0 && r[i].1 == Mean(cells, r[i].0)
  {
    var ks := UniqueKeys(cells);
    forall k | k in ks ensures CountKey(cells, k) > 0 {
      CountKeyPositive(cells, k);
    }
    var r := MeansFor(ks, cells);
    assert KeysOf(r) == ks;
    r
  }

  lemma QuotientBounded(s: real, c: real, b: real)
    requires c > 0.0 && s <= b * c
    ensures s / c <= b
  {
  }

  /** When every value is at most `b`, so is every group mean. */
  lemma GroupMeanBounded<K(!new)>(cells: seq<(Option<K>, real)>, b: real)
    requires forall i :: 0 <= i < |cells| ==> cells[i].1 <= b
    ensures forall i :: 0 <= i < |GroupMean(cells)| ==> GroupMean(cells)[i].1 <= b
  {
    var r := GroupMean(cells);
    forall i | 0 <= i < |r| ensures r[i].1 <= b {
      var k := r[i].0;
      SumKeyBounded(cells, k, b);
      QuotientBounded(SumKey(cells, k), CountKey(cells, k) as real, b);
    }
  }

  // ---------------------------------------------------------------------------
  // merge(left, right, on=key), inner join

  /** The values of every row of `right` with key `k`, in order. */
  function Lookup<K(==, !new), B(==, !new)>(right: seq<(K, B)>, k: K): (r: seq<B>)
    ensures forall b :: b in r <==> (k, b) in right
  {
    if right == [] then []
    else (if right[0].0 == k then [right[0].1] else []) + Lookup(right[1..], k)
  }

  function JoinRow<K(==, !new), A(==, !new), B(==, !new)>(l: (K, A), bs: seq<B>): (r: seq<(K, A, B)>)
    ensures |r| == |bs|
    ensures forall i :: 0 <= i < |bs| ==> r[i] == (l.0, l.1, bs[i])
  {
    seq(|bs|, i requires 0 <= i < |bs| => (l.0, l.1, bs[i]))
  }

  /** The inner join on the key: every pair of a left row and a right row with the same key. */
  function InnerJoin<K(==, !new), A(==, !new), B(==, !new)>(left: seq<(K, A)>, right: seq<(K, B)>): (r: seq<(K, A, B)>)
    ensures forall k, a, b :: (k, a, b) in r <==> (k, a) in left && (k, b) in right
  {
    if left == [] then []
    else
      var first := JoinRow(left[0], Lookup(right, left[0].0));
      var rest := InnerJoin(left[1..], right);
      assert forall k, a, b :: (k, a, b) in first <==> (k, a) == left[0] && (k, b) in right by {
        forall k, a, b | (k, a, b) in first ensures (k, a) == left[0] && (k, b) in right {
          var i :| 0 <= i < |first| && first[i] == (k, a, b);
          assert b in Lookup(right, left[0].0);
        }
      }
      assert forall k, a :: (k, a) in left <==> (k, a) == left[0] || (k, a) in left[1..];
      first + rest
  }

  /** The key column of a joined table: its rows seen as `(key, (left, right))` pairs. */
  function JoinKeys<K(==, !new), A(==, !new), B(==, !new)>(rows: seq<(K, A, B)>): (ks: seq<K>)
    ensures |ks| == |rows| && forall i :: 0 <= i < |rows| ==> ks[i] == rows[i].0
  {
    KeysOf(seq(|rows|, i requires 0 <= i < |rows| => (rows[i].0, (rows[i].1, rows[i].2))))
  }

  lemma {:induction false} LookupUnique<K(!new), B(!new)>(right: seq<(K, B)>, k: K)
    requires Distinct(KeysOf(right))
    ensures |Lookup(right, k)| <= 1
  {
    if right != [] {
      var tail := right[1..];
      assert KeysOf(tail) == KeysOf(right)[1..];
      LookupUnique(tail, k);
      if right[0].0 == k {
        forall j | 0 <= j < |tail| ensures tail[j].0 != k {
          assert KeysOf(right)[0] != KeysOf(right)[j + 1];
        }
        LookupAbsent(tail, k);
      }
    }
  }

  lemma {:induction false} LookupAbsent<K(!new), B(!new)>(right: seq<(K, B)>, k: K)
    requires forall j :: 0 <= j < |right| ==> right[j].0 != k
    ensures Lookup(right, k) == []
  {
    if right != [] {
      LookupAbsent(right[1..], k);
    }
  }

  /** With unique keys on both sides, the join has unique keys and at most one row per left row. */
  lemma {:induction false} JoinUniqueKeys<K(!new), A(!new), B(!new)>(left: seq<(K, A)>, right: seq<(K, B)>)
    requires Distinct(KeysOf(left)) && Distinct(KeysOf(right))
    ensures Distinct(JoinKeys(InnerJoin(left, right)))
    ensures |InnerJoin(left, right)| <= |left|
  {
    if left != [] {
      var tail := left[1..];
      assert KeysOf(tail) == KeysOf(left)[1..];
      JoinUniqueKeys(tail, right);
      LookupUnique(right, left[0].0);
      var first := JoinRow(left[0], Lookup(right, left[0].0));
      var rest := InnerJoin(tail, right);
      assert InnerJoin(left, right) == first + rest;
      forall j | 0 <= j < |rest| ensures rest[j].0 != left[0].0 {
        assert rest[j] in rest;
        var i :| 0 <= i < |tail| && tail[i] == (rest[j].0, rest[j].1);
        assert KeysOf(left)[0] != KeysOf(left)[i + 1];
      }
      var ks := JoinKeys(first + rest);
      forall i, j | 0 <= i < j < |ks| ensures ks[i] != ks[j] {
        if j >= |first| {
          assert ks[j] == JoinKeys(rest)[j - |first|];
          if i >= |first| {
            assert ks[i] == JoinKeys(rest)[i - |first|];
          }
        }
      }
    }
  }

  /** Removes the first occurrence of `x`. */
  function RemoveOne<T(==)>(s: seq<T>, x: T): (r: seq<T>)
    requires x in s
    ensures |r| == |s| - 1
    ensures forall y :: y in s && y != x ==> y in r
  {
    if s[0] == x then s[1..] else [s[0]] + RemoveOne(s[1..], x)
  }

  /** A duplicate-free sequence is no longer than any sequence holding all its elements. */
  lemma {:induction false} DistinctSubsetLength<T>(a: seq<T>, b: seq<T>)
    requires Distinct(a)
    requires forall x :: x in a ==> x in b
    ensures |a| <= |b|
  {
    if a != [] {
      var n := |a| - 1;
      var x := a[n];
      var a' := a[..n];
      forall y | y in a' ensures y in RemoveOne(b, x) {
        var i :| 0 <= i < n && a'[i] == y;
        assert a[i] != a[n];
      }
      DistinctSubsetLength(a', RemoveOne(b, x));
    }
  }

  /** The join's keys are those present on both sides, each once; it is no longer than either side. */
  lemma JoinKeysAreIntersection<K(!new), A(!new), B(!new)>(left: seq<(K, A)>, right: seq<(K, B)>)
    requires Distinct(KeysOf(left)) && Distinct(KeysOf(right))
    ensures forall k :: k in JoinKeys(InnerJoin(left, right)) <==> k in KeysOf(left) && k in KeysOf(right)
    ensures Distinct(JoinKeys(InnerJoin(left, right)))
    ensures |InnerJoin(left, right)| <= |left| && |InnerJoin(left, right)| <= |right|
  {
    var r := InnerJoin(left, right);
    forall k ensures k in JoinKeys(r) <==> k in KeysOf(left) && k in KeysOf(right) {
      if k in JoinKeys(r) {
        var i :| 0 <= i < |r| && JoinKeys(r)[i] == k;
        assert r[i] in r;
        var li :| 0 <= li < |left| && left[li] == (k, r[i].1);
        var ri :| 0 <= ri < |right| && right[ri] == (k, r[i].2);
        assert KeysOf(left)[li] == k && KeysOf(right)[ri] == k;
      }
      if k in KeysOf(left) && k in KeysOf(right) {
        var li :| 0 <= li < |left| && KeysOf(left)[li] == k;
        var ri :| 0 <= ri < |right| && KeysOf(right)[ri] == k;
        assert left[li] in left && right[ri] in right;
        assert (k, left[li].1, right[ri].1) in r;
        var i :| 0 <= i < |r| && r[i] == (k, left[li].1, right[ri].1);
        assert JoinKeys(r)[i] == k;
      }
    }
    JoinUniqueKeys(left, right);
    DistinctSubsetLength(JoinKeys(r), KeysOf(right));
  }

  // ---------------------------------------------------------------------------
  // value_counts() and head(n)

  ghost predicate SortedByCountDesc<K(!new)>(rows: seq<(K, nat)>) {
    forall i, j :: 0 <= i < j < |rows| ==> rows[i].1 >= rows[j].1
  }

  /** Inserts `x` before the first row with a smaller count. */
  function InsertByCount<K(==, !new)>(x: (K, nat), rows: seq<(K, nat)>): (r: seq<(K, nat)>)
    ensures multiset(r) == multiset(rows) + multiset{x}
    ensures SumCounts(r) == x.1 + SumCounts(rows)
    ensures |r| == |rows| + 1 && (r[0] == x || (rows != [] && r[0] == rows[0]))
  {
    if rows == [] || x.1 >= rows[0].1 then [x] + rows
    else
      assert rows == [rows[0]] + rows[1..];
      [rows[0]] + InsertByCount(x, rows[1..])
  }

  lemma {:induction false} InsertKeepsSorted<K(!new)>(x: (K, nat), rows: seq<(K, nat)>)
    requires SortedByCountDesc(rows)
    ensures SortedByCountDesc(InsertByCount(x, rows))
  {
    if rows != [] && x.1 < rows[0].1 {
      var tail := InsertByCount(x, rows[1..]);
      InsertKeepsSorted(x, rows[1..]);
      var r := [rows[0]] + tail;
      assert r == InsertByCount(x, rows);
      forall j | 0 < j < |r| ensures rows[0].1 >= r[j].1 {
        assert r[j] == tail[j - 1];
        assert tail[0].1 >= tail[j - 1].1;
        assert tail[0] == x || tail[0] == rows[1];
      }
      forall i, j | 0 < i < j < |r| ensures r[i].1 >= r[j].1 {
        assert r[i] == tail[i - 1] && r[j] == tail[j - 1];
      }
    }
  }

  /** No two rows share a key. */
  ghost predicate DistinctKeys<K(!new)>(rows: seq<(K, nat)>) {
    forall i, j :: 0 <= i < j < |rows| ==> rows[i].0 != rows[j].0
  }

  lemma DistinctKeysOf<K(!new)>(rows: seq<(K, nat)>)
    ensures Distinct(KeysOf(rows)) <==> DistinctKeys(rows)
  {
    var ks := KeysOf(rows);
    if Distinct(ks) {
      forall i, j | 0 <= i < j < |rows| ensures rows[i].0 != rows[j].0 {
        assert ks[i] != ks[j];
      }
    }
  }

  /** A row of the insertion result is the inserted row or one of the old rows. */
  lemma InsertedFrom<K(!new)>(x: (K, nat), rows: seq<(K, nat)>, y: (K, nat))
    requires y in InsertByCount(x, rows)
    ensures y == x || y in rows
  {
    assert y in multiset(InsertByCount(x, rows));
  }

  /** Inserting a row whose key is new keeps the keys distinct. */
  lemma {:induction false} InsertKeepsDistinct<K(!new)>(x: (K, nat), rows: seq<(K, nat)>)
    requires DistinctKeys(rows)
    requires forall y :: y in rows ==> y.0 != x.0
    ensures DistinctKeys(InsertByCount(x, rows))
  {
    var r := InsertByCount(x, rows);
    if rows != [] && x.1 < rows[0].1 {
      var tail := InsertByCount(x, rows[1..]);
      InsertKeepsDistinct(x, rows[1..]);
      assert r == [rows[0]] + tail;
      forall j | 0 < j < |r| ensures r[0].0 != r[j].0 {
        InsertedFrom(x, rows[1..], tail[j - 1]);
      }
    } else {
      assert r == [x] + rows;
    }
  }

  /** Sorting rows with distinct keys keeps the keys distinct. */
  lemma {:induction false} SortKeepsDistinct<K(!new)>(rows: seq<(K, nat)>)
    requires DistinctKeys(rows)
    ensures DistinctKeys(SortByCountDesc(rows))
  {
    if rows != [] {
      var sorted := SortByCountDesc(rows[1..]);
      SortKeepsDistinct(rows[1..]);
      forall y | y in sorted ensures y.0 != rows[0].0 {
        assert y in multiset(rows[1..]);
      }
      InsertKeepsDistinct(rows[0], sorted);
    }
  }

  /** Orders rows by count, largest first; rows with equal counts keep their order. */
  function SortByCountDesc<K(==, !new)>(rows: seq<(K, nat)>): (r: seq<(K, nat)>)
    ensures SortedByCountDesc(r)
    ensures multiset(r) == multiset(rows)
    ensures SumCounts(r) == SumCounts(rows)
  {
    if rows == [] then []
    else
      assert rows == [rows[0]] + rows[1..];
      var sorted := SortByCountDesc(rows[1..]);
      InsertKeepsSorted(rows[0], sorted);
      InsertByCount(rows[0], sorted)
  }

  /** Each non-null value paired with itself, so that a group count counts its occurrences. */
  function SelfPairs<K(==, !new)>(column: seq<Option<K>>): (r: seq<(Option<K>, Option<K>)>)
    ensures |r| == |column| && forall i :: 0 <= i < |column| ==> r[i] == (column[i], column[i])
  {
    seq(|column|, i requires 0 <= i < |column| => (column[i], column[i]))
  }

  /** `value_counts()`: each distinct non-null value with its number of occurrences, most frequent first. */
  function ValueCounts<K(==, !new)>(column: seq<Option<K>>): (r: seq<(K, nat)>)
    ensures SortedByCountDesc(r)
    ensures multiset(r) == multiset(GroupCount(SelfPairs(column)))
    ensures Distinct(KeysOf(r))
  {
    DistinctKeysOf(GroupCount(SelfPairs(column)));
    SortKeepsDistinct(GroupCount(SelfPairs(column)));
    DistinctKeysOf(SortByCountDesc(GroupCount(SelfPairs(column))));
    SortByCountDesc(GroupCount(SelfPairs(column)))
  }

  /** `head(n)`: the first `n` rows; a negative `n` drops the last `-n` rows instead. */
  function Head<T(==)>(s: seq<T>, n: int): (r: seq<T>)
    ensures n >= 0 ==> |r| == if n <= |s| then n else |s|
    ensures n < 0 ==> |r| == if |s| + n >= 0 then |s| + n else 0
    ensures r == s[..|r|]
  {
    if n >= 0 then (if n <= |s| then s[..n] else s)
    else if |s| + n >= 0 then s[..|s| + n]
    else []
  }

  lemma {:induction false} PrefixSumAtMost<K(!new)>(rows: seq<(K, nat)>, m: nat)
    requires m <= |rows|
    ensures SumCounts(rows[..m]) <= SumCounts(rows)
  {
    if m > 0 {
      assert rows[..m][1..] == rows[1..][..m - 1];
      PrefixSumAtMost(rows[1..], m - 1);
    }
  }
}
