/**
  Ordering and averaging of the real numbers that novelty search produces:
  the ascending sort of a distance list (numpy's `sort`), the stable sort of
  a fitness table by value (Python's `sorted` with a value key), slicing as
  Python slices, and the mean of a slice, which is NaN when the slice is empty.
 */
module Ranking {

  /** A floating-point score as numpy yields it: a number, or NaN (the mean of an empty slice). */
  datatype Score = NaN | Num(value: real)

  predicate Sorted(s: seq<real>) {
    forall i, j :: 0 <= i < j < |s| ==> s[i] <= s[j]
  }

  /** Inserts `x` in front of the first element it does not exceed. */
  function Insert(x: real, s: seq<real>): (r: seq<real>)
    requires Sorted(s)
    ensures Sorted(r)
    ensures multiset(r) == multiset(s) + multiset{x}
  {
    if s == [] || x <= s[0] then
      InsertInFront(x, s);
      [x] + s
    else
      var rest := Insert(x, s[1..]);
      InsertBehind(x, s, rest);
      [s[0]] + rest
  }

  lemma InsertInFront(x: real, s: seq<real>)
    requires Sorted(s) && (s == [] || x <= s[0])
    ensures Sorted([x] + s)
    ensures multiset([x] + s) == multiset(s) + multiset{x}
  {
  }

  /** The head of `s` stays in front of `rest`, the insertion of `x` into the tail of `s`. */
  lemma InsertBehind(x: real, s: seq<real>, rest: seq<real>)
    requires Sorted(s) && s != [] && s[0] < x
    requires Sorted(rest) && multiset(rest) == multiset(s[1..]) + multiset{x}
    ensures Sorted([s[0]] + rest)
    ensures multiset([s[0]] + rest) == multiset(s) + multiset{x}
  {
    assert s == [s[0]] + s[1..];
    BoundByElements(s[0], rest, s[1..] + [x]);
  }

  /** A bound that holds for every element of `t` holds for every element of any rearrangement of `t`. */
  lemma BoundByElements(lo: real, r: seq<real>, t: seq<real>)
    requires multiset(r) == multiset(t)
    requires forall i :: 0 <= i < |t| ==> lo <= t[i]
    ensures forall j :: 0 <= j < |r| ==> lo <= r[j]
  {
    forall j | 0 <= j < |r| ensures lo <= r[j] {
      assert r[j] in multiset(t);
      var i :| 0 <= i < |t| && t[i] == r[j];
    }
  }

  /** The ascending sort of a list of reals. */
  function Sort(s: seq<real>): (r: seq<real>)
    ensures Sorted(r)
    ensures multiset(r) == multiset(s)
  {
    if s == [] then []
    else
      assert s == [s[0]] + s[1..];
      Insert(s[0], Sort(s[1..]))
  }

  /** Two ascending lists holding the same elements are the same list. */
  lemma {:induction false} SortedUnique(a: seq<real>, b: seq<real>)
    requires Sorted(a) && Sorted(b)
    requires multiset(a) == multiset(b)
    ensures a == b
  {
    if a == [] {
      assert |b| == |multiset(b)| == 0;
    } else {
      SameHead(a, b);
      SortedTail(a);
      SortedTail(b);
      SortedUnique(a[1..], b[1..]);
    }
  }

  /** Two ascending lists holding the same elements start with the same element. */
  lemma SameHead(a: seq<real>, b: seq<real>)
    requires Sorted(a) && Sorted(b) && a != []
    requires multiset(a) == multiset(b)
    ensures b != [] && a[0] == b[0]
  {
    assert a[0] in multiset(a);
    SortedHeadIsLeast(b, a[0]);
    assert b[0] in multiset(b);
    SortedHeadIsLeast(a, b[0]);
  }

  /** Without its head an ascending list is still ascending and holds the remaining elements. */
  lemma SortedTail(a: seq<real>)
    requires Sorted(a) && a != []
    ensures Sorted(a[1..]) && a == [a[0]] + a[1..]
    ensures multiset(a[1..]) == multiset(a) - multiset{a[0]}
  {
    assert a == [a[0]] + a[1..];
  }

  /** The head of an ascending list is its least element. */
  lemma SortedHeadIsLeast(a: seq<real>, x: real)
    requires Sorted(a) && x in multiset(a)
    ensures a != [] && a[0] <= x
  {
    var i :| 0 <= i < |a| && a[i] == x;
  }

  /** An element no greater than any other sorts in front of the rest. */
  lemma SortLeastFirst(x: real, s: seq<real>, t: seq<real>)
    requires multiset(t) == multiset(s) + multiset{x}
    requires forall d :: d in s ==> x <= d
    ensures Sort(t) == [x] + Sort(s)
  {
    var sorted := Sort(s);
    if sorted != [] {
      assert sorted[0] in multiset(s);
      assert sorted[0] in s;
    }
    InsertInFront(x, sorted);
    SortedUnique(Sort(t), [x] + sorted);
  }

  /** Sorting depends only on which elements are present, not on their order. */
  lemma SortDependsOnElementsOnly(s: seq<real>, t: seq<real>)
    requires multiset(s) == multiset(t)
    ensures Sort(s) == Sort(t)
  {
    SortedUnique(Sort(s), Sort(t));
  }

  function Sum(s: seq<real>): real
  {
    if s == [] then 0.0 else s[0] + Sum(s[1..])
  }

  lemma {:induction false} SumNonNegative(s: seq<real>)
    requires forall i :: 0 <= i < |s| ==> s[i] >= 0.0
    ensures Sum(s) >= 0.0
  {
    if s != [] {
      SumNonNegative(s[1..]);
    }
  }

  /** numpy's mean (and unweighted average): NaN for an empty list. */
  function Mean(s: seq<real>): Score
  {
    if |s| == 0 then NaN else Num(Sum(s) / |s| as real)
  }

  lemma MeanNonNegative(s: seq<real>)
    requires forall i :: 0 <= i < |s| ==> s[i] >= 0.0
    ensures Mean(s).Num? ==> Mean(s).value >= 0.0
  {
    SumNonNegative(s);
  }

  /** The Python slice `s[lo:hi]` for non-negative bounds. */
  function Slice<T>(s: seq<T>, lo: nat, hi: nat): (r: seq<T>)
    ensures |r| == if lo < hi && lo < |s| then (if hi <= |s| then hi else |s|) - lo else 0
    ensures forall i :: 0 <= i < |r| ==> r[i] == s[lo + i]
  {
    var h := if hi <= |s| then hi else |s|;
    var l := if lo <= h then lo else h;
    s[l..h]
  }

  /** The Python slice `s[:k]`. */
  function Take<T>(s: seq<T>, k: nat): seq<T>
  {
    Slice(s, 0, k)
  }

  predicate SortedByValue<K>(s: seq<(K, real)>) {
    forall i, j :: 0 <= i < j < |s| ==> s[i].1 <= s[j].1
  }

  /** Inserts `x` before the first entry whose value is not smaller, so ties keep their order. */
  function InsertByValue<K>(x: (K, real), s: seq<(K, real)>): (r: seq<(K, real)>)
    requires SortedByValue(s)
    ensures SortedByValue(r)
    ensures multiset(r) == multiset(s) + multiset{x}
  {
    if s == [] || x.1 <= s[0].1 then
      InsertByValueInFront(x, s);
      [x] + s
    else
      var rest := InsertByValue(x, s[1..]);
      InsertByValueBehind(x, s, rest);
      [s[0]] + rest
  }

  lemma InsertByValueInFront<K>(x: (K, real), s: seq<(K, real)>)
    requires SortedByValue(s) && (s == [] || x.1 <= s[0].1)
    ensures SortedByValue([x] + s)
    ensures multiset([x] + s) == multiset(s) + multiset{x}
  {
  }

  /** The head of `s` stays in front of `rest`, the insertion of `x` into the tail of `s`. */
  lemma InsertByValueBehind<K>(x: (K, real), s: seq<(K, real)>, rest: seq<(K, real)>)
    requires SortedByValue(s) && s != [] && s[0].1 < x.1
    requires SortedByValue(rest) && multiset(rest) == multiset(s[1..]) + multiset{x}
    ensures SortedByValue([s[0]] + rest)
    ensures multiset([s[0]] + rest) == multiset(s) + multiset{x}
  {
    assert s == [s[0]] + s[1..];
    forall j | 0 <= j < |rest| ensures s[0].1 <= rest[j].1 {
      assert rest[j] in multiset(s[1..] + [x]);
      var i :| 0 <= i < |s[1..] + [x]| && (s[1..] + [x])[i] == rest[j];
    }
  }

  /** The entries of `s` whose value is `v`, in order. */
  function WithValue<K>(s: seq<(K, real)>, v: real): seq<(K, real)>
  {
    if s == [] then [] else (if s[0].1 == v then [s[0]] else []) + WithValue(s[1..], v)
  }

  /** Inserting `x` leaves the entries of each value in the order `[x] + s` lists them. */
  lemma {:induction false} InsertByValueKeepsTies<K>(x: (K, real), s: seq<(K, real)>, v: real)
    requires SortedByValue(s)
    ensures WithValue(InsertByValue(x, s), v) == WithValue([x] + s, v)
    decreases |s|
  {
    if s != [] && s[0].1 < x.1 {
      var rest := InsertByValue(x, s[1..]);
      InsertByValueKeepsTies(x, s[1..], v);
      // `s[0]` and `x` have different values, so at most one of them is kept
      var first := if s[0].1 == v then [s[0]] else [];
      var inserted := if x.1 == v then [x] else [];
      assert first == [] || inserted == [];
      assert ([s[0]] + rest)[1..] == rest;
      assert WithValue([s[0]] + rest, v) == first + WithValue(rest, v);
      assert ([x] + s[1..])[1..] == s[1..];
      assert WithValue(rest, v) == inserted + WithValue(s[1..], v);
      assert WithValue(s, v) == first + WithValue(s[1..], v);
      assert ([x] + s)[1..] == s;
      assert WithValue([x] + s, v) == inserted + WithValue(s, v);
    }
  }

  /**
    `sorted(items, key=lambda item: item[1])`: an ascending sort of a table
    by value that is stable (entries of equal value keep their order).
   */
  function SortByValue<K>(s: seq<(K, real)>): (r: seq<(K, real)>)
    ensures SortedByValue(r)
    ensures multiset(r) == multiset(s)
    ensures forall v :: WithValue(r, v) == WithValue(s, v)
  {
    if s == [] then []
    else
      assert s == [s[0]] + s[1..];
      var rest := SortByValue(s[1..]);
      assert forall v :: WithValue(InsertByValue(s[0], rest), v) == WithValue(s, v) by {
        forall v ensures WithValue(InsertByValue(s[0], rest), v) == WithValue(s, v) {
          InsertByValueKeepsTies(s[0], rest, v);
          assert ([s[0]] + rest)[1..] == rest;
        }
      }
      InsertByValue(s[0], rest)
  }

  /** The keys of a table, in table order. */
  function Keys<K, V>(s: seq<(K, V)>): (r: seq<K>)
    ensures |r| == |s| && forall i :: 0 <= i < |s| ==> r[i] == s[i].0
  {
    if s == [] then [] else [s[0].0] + Keys(s[1..])
  }

  /** Splitting an ascending list, no element of the front exceeds an element of the back. */
  lemma SortedSplit(r: seq<real>, m: nat)
    requires Sorted(r) && m <= |r|
    ensures forall x, y :: x in multiset(r[..m]) && y in multiset(r[m..]) ==> x <= y
  {
    forall x, y | x in multiset(r[..m]) && y in multiset(r[m..]) ensures x <= y {
      assert x in r[..m] && y in r[m..];
      var i :| 0 <= i < m && r[..m][i] == x;
      var j :| 0 <= j < |r| - m && r[m..][j] == y;
      assert r[i] == x && r[m + j] == y;
    }
  }

  /**
    The first k elements of the ascending sort are the min(k, |s|) smallest
    elements of `s`: a sub-collection of `s` none of which exceeds an element
    left out, and all of `s` when |s| <= k. Their mean is NaN exactly when
    there are none of them.
   */
  lemma TakeOfSortIsSmallest(s: seq<real>, k: nat)
    ensures var m := if k <= |s| then k else |s|;
            var nearest := Take(Sort(s), k);
            && |nearest| == m
            && (Mean(nearest).NaN? <==> m == 0)
            && multiset(nearest) <= multiset(s)
            && (forall x, y :: x in multiset(nearest) && y in multiset(s) - multiset(nearest) ==> x <= y)
            && (|s| <= k ==> multiset(nearest) == multiset(s))
  {
    var m := if k <= |s| then k else |s|;
    var r := Sort(s);
    assert |r| == |s| by {
      assert |multiset(r)| == |multiset(s)|;
    }
    PrefixOfSorted(r, m);
    assert Take(r, k) == r[..m];
  }

  /** A prefix of an ascending list holds its smallest elements. */
  lemma PrefixOfSorted(r: seq<real>, m: nat)
    requires Sorted(r) && m <= |r|
    ensures multiset(r[..m]) <= multiset(r)
    ensures forall x, y :: x in multiset(r[..m]) && y in multiset(r) - multiset(r[..m]) ==> x <= y
    ensures m == |r| ==> multiset(r[..m]) == multiset(r)
  {
    assert r == r[..m] + r[m..];
    assert multiset(r) == multiset(r[..m]) + multiset(r[m..]);
    assert multiset(r) - multiset(r[..m]) == multiset(r[m..]);
    SortedSplit(r, m);
  }

  /** Any slice of the sorted list of non-negative reals has a non-negative mean. */
  lemma SliceOfSortNonNegative(s: seq<real>, lo: nat, hi: nat)
    requires forall x :: x in s ==> x >= 0.0
    ensures Mean(Slice(Sort(s), lo, hi)).Num? ==> Mean(Slice(Sort(s), lo, hi)).value >= 0.0
  {
    var r := Sort(s);
    var part := Slice(r, lo, hi);
    forall i | 0 <= i < |part| ensures part[i] >= 0.0 {
      assert part[i] == r[lo + i];
      assert r[lo + i] in multiset(r);
      assert r[lo + i] in multiset(s);
      assert r[lo + i] in s;
    }
    MeanNonNegative(part);
  }
}
