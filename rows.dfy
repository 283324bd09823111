/** Row-level operations on tables: keeping the rows that pass a test, in
    order (`dropna`, `drop_duplicates`), and ordering rows by a key column
    (`sort_values`). */
module Rows {
  import opened Frame

  /** Positions 0 .. n-1 in order. */
  function Range(n: nat): (r: seq<nat>)
    ensures |r| == n && forall m :: 0 <= m < n ==> r[m] == m
  {
    if n == 0 then [] else Range(n - 1) + [n - 1]
  }

  /** The positions below `n` that pass `p`, in increasing order. */
  function Filter(n: nat, p: nat -> bool): (r: seq<nat>)
    ensures Increasing(r)
    ensures forall m :: 0 <= m < |r| ==> r[m] < n && p(r[m])
    ensures forall i :: 0 <= i < n && p(i) ==> i in r
  {
    if n == 0 then [] else Filter(n - 1, p) + (if p(n - 1) then [n - 1] else [])
  }

  /** A test every position passes keeps every position. */
  lemma {:induction false} FilterAll(n: nat, p: nat -> bool)
    requires forall i :: 0 <= i < n ==> p(i)
    ensures Filter(n, p) == Range(n)
  {
    if n > 0 {
      FilterAll(n - 1, p);
    }
  }

  /** An increasing list of positions below `n` has at most `n` entries. */
  lemma {:induction false} IncreasingLength(idx: seq<nat>, n: nat)
    requires Increasing(idx) && forall m :: 0 <= m < |idx| ==> idx[m] < n
    ensures |idx| <= n
  {
    if idx != [] {
      var last := idx[|idx| - 1];
      IncreasingLength(idx[..|idx| - 1], last);
    }
  }

  lemma IncreasingOrder(idx: seq<nat>, x: nat, y: nat)
    requires Increasing(idx) && x < |idx| && y < |idx|
    ensures idx[x] < idx[y] <==> x < y
  {
  }

  /** Positions into a selection, translated back to the original rows,
      are `Pick(outer, inner)`; picking keeps an increasing order. */
  lemma ComposeIncreasing(outer: seq<nat>, inner: seq<nat>)
    requires forall m :: 0 <= m < |inner| ==> inner[m] < |outer|
    requires Increasing(outer) && Increasing(inner)
    ensures Increasing(Pick(outer, inner))
  {
  }

  /** No missing cell in row `i` of any column (`dropna` keeps it). */
  predicate RowComplete(t: Table, i: nat) {
    forall k :: k in t.cols ==> i < |t.cols[k]| && t.cols[k][i].Some?
  }

  /** Row `i` holds the first occurrence of its value in `c`. */
  predicate FirstOccurrence(c: Column, i: nat) {
    i < |c| && forall j :: 0 <= j < i ==> c[j] != c[i]
  }

  /** The positions of the rows without a missing cell, in order. */
  function CompleteRows(t: Table): (r: seq<nat>)
    ensures Increasing(r)
    ensures forall m :: 0 <= m < |r| ==> r[m] < t.rows && RowComplete(t, r[m])
    ensures forall i :: 0 <= i < t.rows && RowComplete(t, i) ==> i in r
  {
    Filter(t.rows, (i: nat) => RowComplete(t, i))
  }

  /** The positions of the first occurrence of each value of `c`, in order. */
  function FirstRows(c: Column): (r: seq<nat>)
    ensures Increasing(r)
    ensures forall m :: 0 <= m < |r| ==> r[m] < |c| && FirstOccurrence(c, r[m])
    ensures forall i :: 0 <= i < |c| && FirstOccurrence(c, i) ==> i in r
  {
    Filter(|c|, (i: nat) => FirstOccurrence(c, i))
  }

  lemma CompleteRowsOfComplete(t: Table)
    requires forall i :: 0 <= i < t.rows ==> RowComplete(t, i)
    ensures CompleteRows(t) == Range(t.rows)
  {
    FilterAll(t.rows, (i: nat) => RowComplete(t, i));
  }

  lemma FirstRowsOfDistinct(c: Column)
    requires forall x, y :: 0 <= x < y < |c| ==> c[x] != c[y]
    ensures FirstRows(c) == Range(|c|)
  {
    FilterAll(|c|, (i: nat) => FirstOccurrence(c, i));
  }

  /** `t.dropna()`: the rows without a missing cell, in order. */
  function DropMissing(t: Table): (r: Table)
    requires t.Valid()
    ensures r.Valid() && r.names == t.names
    ensures forall k :: k in r.cols <==> k in t.cols
  {
    Select(t, CompleteRows(t))
  }

  /** `t.drop_duplicates(subset=key, keep='first')`. */
  function DropDuplicates(t: Table, key: string): (r: Table)
    requires t.Valid() && key in t.cols
    ensures r.Valid() && r.names == t.names
    ensures forall k :: k in r.cols <==> k in t.cols
  {
    Select(t, FirstRows(t.cols[key]))
  }

  /** Selecting every row in order gives the table back. */
  lemma SelectRange(t: Table)
    requires t.Valid()
    ensures Select(t, Range(t.rows)) == t
  {
    var r := Select(t, Range(t.rows));
    forall k | k in t.cols ensures r.cols[k] == t.cols[k] {
      assert |r.cols[k]| == |t.cols[k]|;
    }
    assert r.cols == t.cols;
  }

  /** Two selections in a row are one selection of the composed positions. */
  lemma SelectSelect(t: Table, outer: seq<nat>, inner: seq<nat>)
    requires t.Valid()
    requires forall m :: 0 <= m < |outer| ==> outer[m] < t.rows
    requires forall m :: 0 <= m < |inner| ==> inner[m] < |outer|
    ensures Select(Select(t, outer), inner) == Select(t, Pick(outer, inner))
  {
    var r := Select(Select(t, outer), inner);
    var q := Select(t, Pick(outer, inner));
    forall k | k in t.cols ensures r.cols[k] == q.cols[k] {
      assert |r.cols[k]| == |q.cols[k]|;
    }
    assert r.cols == q.cols;
  }

  // ---------------------------------------------------------------------------
  // Ordering by a key column

  /** The order `sort_values` uses: numbers ascending, missing cells last. */
  predicate KeyLe(a: Option<real>, b: Option<real>) {
    if a.Some? && b.Some? then a.value <= b.value else b.None?
  }

  predicate SortedBy(keys: Column, s: seq<nat>)
    requires forall m :: 0 <= m < |s| ==> s[m] < |keys|
  {
    forall a, b :: 0 <= a < b < |s| ==> KeyLe(keys[s[a]], keys[s[b]])
  }

  predicate Distinct(s: seq<nat>) {
    forall a, b :: 0 <= a < b < |s| ==> s[a] != s[b]
  }

  /** Inserts position `x` into a list of positions, after the leading
      positions whose key is not greater. */
  function Insert(keys: Column, s: seq<nat>, x: nat): (r: seq<nat>)
    requires x < |keys| && forall m :: 0 <= m < |s| ==> s[m] < |keys|
    ensures |r| == |s| + 1
    ensures forall y :: y in r <==> y in s || y == x
    ensures forall m :: 0 <= m < |r| ==> r[m] < |keys|
  {
    if s == [] then [x]
    else if KeyLe(keys[s[0]], keys[x]) then
      assert s == [s[0]] + s[1..];
      [s[0]] + Insert(keys, s[1..], x)
    else
      [x] + s
  }

  lemma {:induction false} InsertSorted(keys: Column, s: seq<nat>, x: nat)
    requires x < |keys| && forall m :: 0 <= m < |s| ==> s[m] < |keys|
    requires SortedBy(keys, s)
    ensures SortedBy(keys, Insert(keys, s, x))
  {
    var r := Insert(keys, s, x);
    assert forall m :: 0 <= m < |r| ==> r[m] in r;
    if s != [] && KeyLe(keys[s[0]], keys[x]) {
      var tail := s[1..];
      InsertSorted(keys, tail, x);
      var rest := Insert(keys, tail, x);
      assert forall m :: 0 <= m < |rest| ==> rest[m] in rest;
      assert forall m :: 0 <= m < |tail| ==> tail[m] == s[m + 1];
      forall m | 0 <= m < |rest| ensures KeyLe(keys[s[0]], keys[rest[m]]) {
        if rest[m] != x {
          var j :| 0 <= j < |tail| && tail[j] == rest[m];
          assert s[j + 1] == rest[m];
        }
      }
    } else if s != [] {
      forall m | 0 <= m < |s| ensures KeyLe(keys[x], keys[s[m]]) {
        assert m > 0 ==> KeyLe(keys[s[0]], keys[s[m]]);
      }
    }
  }

  lemma {:induction false} InsertDistinct(keys: Column, s: seq<nat>, x: nat)
    requires x < |keys| && forall m :: 0 <= m < |s| ==> s[m] < |keys|
    requires Distinct(s) && x !in s
    ensures Distinct(Insert(keys, s, x))
  {
    if s != [] && KeyLe(keys[s[0]], keys[x]) {
      var tail := s[1..];
      InsertDistinct(keys, tail, x);
      assert forall j :: 0 <= j < |tail| ==> tail[j] == s[j + 1];
      assert s[0] !in tail;
    }
  }

  /** The positions 0 .. n-1 ordered by their keys (insertion sort). */
  function SortedPositions(keys: Column, n: nat): (r: seq<nat>)
    requires n <= |keys|
    ensures SortedPermutation(keys, r, n)
  {
    if n == 0 then []
    else
      var s := SortedPositions(keys, n - 1);
      SortedStep(keys, s, n);
      Insert(keys, s, n - 1)
  }

  /** `r` lists each of the positions 0 .. n-1 once, ordered by their keys. */
  predicate SortedPermutation(keys: Column, r: seq<nat>, n: nat)
    requires n <= |keys|
  {
    && |r| == n && Distinct(r)
    && (forall m :: 0 <= m < n ==> r[m] < n)
    && (forall y :: 0 <= y < n ==> y in r)
    && SortedBy(keys, r)
  }

  /** One insertion step extends a sorted permutation of 0 .. n-2 to one
      of 0 .. n-1. */
  lemma SortedStep(keys: Column, s: seq<nat>, n: nat)
    requires 1 <= n <= |keys| && SortedPermutation(keys, s, n - 1)
    ensures SortedPermutation(keys, Insert(keys, s, n - 1), n)
  {
    var r := Insert(keys, s, n - 1);
    assert n - 1 !in s by {
      forall m | 0 <= m < |s| ensures s[m] != n - 1 {
        assert s[m] < n - 1;
      }
    }
    InsertSorted(keys, s, n - 1);
    InsertDistinct(keys, s, n - 1);
    assert forall m :: 0 <= m < n ==> r[m] < n by {
      forall m | 0 <= m < n ensures r[m] < n {
        assert r[m] in r;
      }
    }
    assert forall y :: 0 <= y < n ==> y in r by {
      forall y | 0 <= y < n ensures y in r {
        if y < n - 1 {
          assert y in s;
        }
      }
    }
  }

  /** `t.sort_values(by=key)`. */
  function SortBy(t: Table, key: string): (r: Table)
    requires t.Valid() && key in t.cols
    ensures r.Valid() && r.names == t.names && r.rows == t.rows
    ensures forall k :: k in r.cols <==> k in t.cols
    ensures forall k, m :: k in t.cols && 0 <= m < t.rows ==>
              r.cols[k][m] == t.cols[k][SortedPositions(t.cols[key], t.rows)[m]]
  {
    Select(t, SortedPositions(t.cols[key], t.rows))
  }

  lemma PickConcat(c: Column, a: seq<nat>, b: seq<nat>)
    requires forall m :: 0 <= m < |a| ==> a[m] < |c|
    requires forall m :: 0 <= m < |b| ==> b[m] < |c|
    ensures Pick(c, a + b) == Pick(c, a) + Pick(c, b)
  {
  }

  /** Picking a position in front of others puts its cell in front. */
  lemma PickCons(c: Column, a: nat, b: seq<nat>)
    requires a < |c| && forall m :: 0 <= m < |b| ==> b[m] < |c|
    ensures Pick(c, [a] + b) == [c[a]] + Pick(c, b)
  {
    PickConcat(c, [a], b);
  }

  /** Multiset bookkeeping for a common first element. */
  lemma MultisetCons<T>(p: seq<T>, q: seq<T>, s: seq<T>, t: seq<T>, a: T, x: T)
    requires p == [a] + q && s == [a] + t
    requires multiset(q) == multiset(t) + multiset{x}
    ensures multiset(p) == multiset(s) + multiset{x}
  {
  }

  /** Multiset bookkeeping for a prefix grown by one element. */
  lemma MultisetPrefix<T>(a: seq<T>, n: nat)
    requires 0 < n <= |a|
    ensures multiset(a[..n]) == multiset(a[..n - 1]) + multiset{a[n - 1]}
  {
    assert a[..n] == a[..n - 1] + [a[n - 1]];
  }

  /** Inserting a position adds exactly its cell to the picked cells. */
  lemma {:induction false} PickInsert(c: Column, keys: Column, s: seq<nat>, x: nat)
    requires |c| == |keys| && x < |keys| && forall m :: 0 <= m < |s| ==> s[m] < |keys|
    ensures multiset(Pick(c, Insert(keys, s, x))) == multiset(Pick(c, s)) + multiset{c[x]}
  {
    if s == [] {
      assert Pick(c, Insert(keys, s, x)) == [c[x]];
    } else if KeyLe(keys[s[0]], keys[x]) {
      var tail := s[1..];
      var rest := Insert(keys, tail, x);
      PickInsert(c, keys, tail, x);
      assert Insert(keys, s, x) == [s[0]] + rest;
      PickCons(c, s[0], rest);
      assert s == [s[0]] + tail;
      PickCons(c, s[0], tail);
      MultisetCons(Pick(c, Insert(keys, s, x)), Pick(c, rest), Pick(c, s), Pick(c, tail), c[s[0]], c[x]);
    } else {
      assert Insert(keys, s, x) == [x] + s;
      PickCons(c, x, s);
    }
  }

  /** The cells picked in sorted order are the first `n` cells, rearranged. */
  lemma {:induction false} PickSortedPositions(c: Column, keys: Column, n: nat)
    requires |c| == |keys| && n <= |keys|
    ensures multiset(Pick(c, SortedPositions(keys, n))) == multiset(c[..n])
  {
    if n > 0 {
      var s := SortedPositions(keys, n - 1);
      PickSortedPositions(c, keys, n - 1);
      PickInsert(c, keys, s, n - 1);
      assert SortedPositions(keys, n) == Insert(keys, s, n - 1);
      MultisetPrefix(c, n);
    }
  }

  /** Sorting rearranges the rows: every column keeps its cells, each as
      often as before. */
  lemma SortByPermutes(t: Table, key: string)
    requires t.Valid() && key in t.cols
    ensures forall k :: k in t.cols ==> multiset(SortBy(t, key).cols[k]) == multiset(t.cols[k])
  {
    forall k | k in t.cols ensures multiset(SortBy(t, key).cols[k]) == multiset(t.cols[k]) {
      PickSortedPositions(t.cols[k], t.cols[key], t.rows);
      assert t.cols[k][..t.rows] == t.cols[k];
    }
  }

  /** Sorting on a key column whose cells are all defined and pairwise
      distinct leaves that column strictly increasing. */
  lemma SortByStrictlyIncreasing(t: Table, key: string)
    requires t.Valid() && key in t.cols
    requires forall m :: 0 <= m < t.rows ==> t.cols[key][m].Some?
    requires forall x, y :: 0 <= x < y < t.rows ==> t.cols[key][x] != t.cols[key][y]
    ensures var d := SortBy(t, key).cols[key];
            forall x, y :: 0 <= x < y < |d| ==> d[x].Some? && d[y].Some? && d[x].value < d[y].value
  {
    var keys := t.cols[key];
    var p := SortedPositions(keys, t.rows);
    var d := SortBy(t, key).cols[key];
    forall x, y | 0 <= x < y < |d| ensures d[x].Some? && d[y].Some? && d[x].value < d[y].value {
      assert d[x] == keys[p[x]] && d[y] == keys[p[y]];
      assert KeyLe(keys[p[x]], keys[p[y]]);
      if p[x] < p[y] {
        assert keys[p[x]] != keys[p[y]];
      } else {
        assert p[y] < p[x];
        assert keys[p[y]] != keys[p[x]];
      }
    }
  }
}
