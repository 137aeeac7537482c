/**
  The novelty score that serves as fitness during evolution: the average
  Euclidean distance from a genome's latent vector to its k nearest
  neighbours among this generation's latent vectors and the novelty
  archive, where every neighbour exactly equal to the candidate is skipped.

  The square root is numpy's and is not modelled: it is the parameter
  `root`, of which only `SqrtLike` is assumed. Rounding the score to two
  decimals is not modelled either.
 */
module Novelty {
  import opened Ranking

  /** A latent vector produced by the encoder. */
  type Vector = seq<real>

  /** What the model relies on about the square root. */
  ghost predicate SqrtLike(root: real -> real) {
    && root(0.0) == 0.0
    && forall x :: x >= 0.0 ==> root(x) >= 0.0
  }

  /** Every vector has the candidate's dimension (the encoder's output size is fixed). */
  ghost predicate SameDimension(candidate: Vector, vectors: seq<Vector>) {
    forall i :: 0 <= i < |vectors| ==> |vectors[i]| == |candidate|
  }

  /** numpy's `square`; its one property used here is that it is never negative. */
  function Square(x: real): (r: real)
    ensures r >= 0.0
  {
    x * x
  }

  /** The sum of squared elementwise differences, accumulated in element order. */
  function SquaredDistance(u: Vector, v: Vector): real
    requires |u| == |v|
    decreases |v|
  {
    if |v| == 0 then 0.0
    else SquaredDistance(u[..|v| - 1], v[..|v| - 1]) + Square(u[|v| - 1] - v[|v| - 1])
  }

  /** The squared distance is never negative, and a vector is at distance zero from itself. */
  lemma {:induction false} SquaredDistanceBasics(u: Vector, v: Vector)
    requires |u| == |v|
    ensures SquaredDistance(u, v) >= 0.0
    ensures SquaredDistance(u, u) == 0.0
    decreases |v|
  {
    if |v| > 0 {
      var n := |v| - 1;
      SquaredDistanceBasics(u[..n], v[..n]);
      assert Square(u[n] - u[n]) == Square(0.0) == 0.0;
    }
  }

  function Distance(root: real -> real, u: Vector, v: Vector): real
    requires |u| == |v|
  {
    root(SquaredDistance(u, v))
  }

  /**
    The distances from `candidate` to `neighbours`, in neighbour order. With
    `skipEqual` a neighbour exactly equal to the candidate contributes nothing
    (the policy of `novelty_search`); without it every neighbour contributes
    (the policy of `novelty_search2`).
   */
  function Distances(root: real -> real, candidate: Vector, neighbours: seq<Vector>, skipEqual: bool): seq<real>
    requires SameDimension(candidate, neighbours)
    decreases |neighbours|
  {
    if neighbours == [] then []
    else
      var init, last := neighbours[..|neighbours| - 1], neighbours[|neighbours| - 1];
      Distances(root, candidate, init, skipEqual)
        + (if skipEqual && last == candidate then [] else [Distance(root, candidate, last)])
  }

  lemma {:induction false} DistancesConcat(root: real -> real, candidate: Vector, a: seq<Vector>, b: seq<Vector>, skipEqual: bool)
    requires SameDimension(candidate, a + b)
    ensures SameDimension(candidate, a) && SameDimension(candidate, b)
    ensures Distances(root, candidate, a + b, skipEqual)
         == Distances(root, candidate, a, skipEqual) + Distances(root, candidate, b, skipEqual)
    decreases |b|
  {
    if b == [] {
      assert a + b == a;
    } else {
      var n := |b| - 1;
      assert (a + b)[..|a + b| - 1] == a + b[..n];
      assert (a + b)[|a + b| - 1] == b[n];
      DistancesConcat(root, candidate, a, b[..n], skipEqual);
    }
  }

  /** Taking one neighbour out of the list takes its contribution out of the distances. */
  lemma DistancesRemoveAt(root: real -> real, candidate: Vector, t: seq<Vector>, i: nat, skipEqual: bool)
    requires SameDimension(candidate, t) && i < |t|
    ensures SameDimension(candidate, t[..i] + t[i + 1..])
    ensures multiset(Distances(root, candidate, t, skipEqual))
         == multiset(Distances(root, candidate, t[..i] + t[i + 1..], skipEqual)) + multiset(Distances(root, candidate, [t[i]], skipEqual))
  {
    var before, here, after := t[..i], [t[i]], t[i + 1..];
    assert t == before + here + after;
    DistancesConcat(root, candidate, before + here, after, skipEqual);
    DistancesConcat(root, candidate, before, here, skipEqual);
    DistancesConcat(root, candidate, before, after, skipEqual);
    var db, dh, da := Distances(root, candidate, before, skipEqual), Distances(root, candidate, here, skipEqual),
                      Distances(root, candidate, after, skipEqual);
    assert multiset(db + dh + da) == multiset(db + da) + multiset(dh);
  }

  /** The distance list holds the same elements however the neighbours are ordered. */
  lemma {:induction false} DistancesPermutation(root: real -> real, candidate: Vector, s: seq<Vector>, t: seq<Vector>, skipEqual: bool)
    requires SameDimension(candidate, s) && multiset(s) == multiset(t)
    ensures SameDimension(candidate, t)
    ensures multiset(Distances(root, candidate, s, skipEqual)) == multiset(Distances(root, candidate, t, skipEqual))
    decreases |s|
  {
    forall j | 0 <= j < |t| ensures |t[j]| == |candidate| {
      assert t[j] in multiset(s);
    }
    if s != [] {
      var n := |s| - 1;
      var x := s[n];
      assert x in multiset(t);
      var i :| 0 <= i < |t| && t[i] == x;
      var rest := t[..i] + t[i + 1..];
      PermutationStep(s, t, i);
      DistancesPermutation(root, candidate, s[..n], rest, skipEqual);
      DistancesRemoveAt(root, candidate, s, n, skipEqual);
      assert s[..n] + s[n + 1..] == s[..n];
      DistancesRemoveAt(root, candidate, t, i, skipEqual);
    }
  }

  /** Removing the last element of `s` and an equal element of `t` keeps the two multisets equal. */
  lemma PermutationStep<T>(s: seq<T>, t: seq<T>, i: nat)
    requires multiset(s) == multiset(t) && s != [] && i < |t| && t[i] == s[|s| - 1]
    ensures multiset(s[..|s| - 1]) == multiset(t[..i] + t[i + 1..])
  {
    var n := |s| - 1;
    assert s == s[..n] + [s[n]];
    assert t == t[..i] + [t[i]] + t[i + 1..];
    assert multiset(s[..n]) == multiset(s) - multiset{s[n]};
    assert multiset(t[..i] + t[i + 1..]) == multiset(t[..i]) + multiset(t[i + 1..]);
    assert multiset(t[..i] + t[i + 1..]) == multiset(t) - multiset{t[i]};
  }

  /**
    How many distances there are: one per neighbour without skipping; with
    skipping, one per neighbour that is not equal to the candidate.
   */
  lemma {:induction false} DistancesCount(root: real -> real, candidate: Vector, neighbours: seq<Vector>, skipEqual: bool)
    requires SameDimension(candidate, neighbours)
    ensures |Distances(root, candidate, neighbours, skipEqual)|
         == if skipEqual then |neighbours| - multiset(neighbours)[candidate] else |neighbours|
    decreases |neighbours|
  {
    if neighbours != [] {
      var n := |neighbours| - 1;
      assert neighbours == neighbours[..n] + [neighbours[n]];
      DistancesCount(root, candidate, neighbours[..n], skipEqual);
    }
  }

  /** Every distance is non-negative. */
  lemma {:induction false} DistancesNonNegative(root: real -> real, candidate: Vector, neighbours: seq<Vector>, skipEqual: bool)
    requires SqrtLike(root) && SameDimension(candidate, neighbours)
    ensures forall d :: d in Distances(root, candidate, neighbours, skipEqual) ==> d >= 0.0
    decreases |neighbours|
  {
    if neighbours != [] {
      var n := |neighbours| - 1;
      DistancesNonNegative(root, candidate, neighbours[..n], skipEqual);
      SquaredDistanceBasics(candidate, neighbours[n]);
    }
  }

  /**
    The score `novelty_search` returns: the mean of the first k of the sorted
    distances to every population and archive vector not equal to the candidate.
   */
  function NoveltyScore(root: real -> real, k: nat, candidate: Vector, population: seq<Vector>, archive: seq<Vector>): Score
    requires SameDimension(candidate, population + archive)
  {
    Mean(Take(Sort(Distances(root, candidate, population + archive, true)), k))
  }

  /**
    The score averages the min(k, n) smallest of the n distances to the
    neighbours not equal to the candidate; it is NaN exactly when there are
    none of those (or k = 0), and with n <= k it averages all of them.
   */
  lemma NoveltyScoreAveragesNearest(root: real -> real, k: nat, candidate: Vector, population: seq<Vector>, archive: seq<Vector>)
    requires SameDimension(candidate, population + archive)
    ensures var ds := Distances(root, candidate, population + archive, true);
            var m := if k <= |ds| then k else |ds|;
            var nearest := Take(Sort(ds), k);
            var score := NoveltyScore(root, k, candidate, population, archive);
            && |ds| == |population + archive| - multiset(population + archive)[candidate]
            && |nearest| == m
            && (score.NaN? <==> m == 0)
            && multiset(nearest) <= multiset(ds)
            && (forall x, y :: x in multiset(nearest) && y in multiset(ds) - multiset(nearest) ==> x <= y)
            && (|ds| <= k ==> multiset(nearest) == multiset(ds))
  {
    var ds := Distances(root, candidate, population + archive, true);
    DistancesCount(root, candidate, population + archive, true);
    TakeOfSortIsSmallest(ds, k);
  }

  /** The score is never negative. */
  lemma NoveltyScoreNonNegative(root: real -> real, k: nat, candidate: Vector, population: seq<Vector>, archive: seq<Vector>)
    requires SqrtLike(root) && SameDimension(candidate, population + archive)
    ensures NoveltyScore(root, k, candidate, population, archive).Num? ==>
              NoveltyScore(root, k, candidate, population, archive).value >= 0.0
  {
    var ds := Distances(root, candidate, population + archive, true);
    DistancesNonNegative(root, candidate, population + archive, true);
    SliceOfSortNonNegative(ds, 0, k);
  }

  /**
    The score depends only on which vectors the population and the archive
    hold together, not on their order or on which of the two holds them.
   */
  lemma NoveltyScoreOrderIndependent(root: real -> real, k: nat, candidate: Vector,
                                     population: seq<Vector>, archive: seq<Vector>,
                                     population': seq<Vector>, archive': seq<Vector>)
    requires SameDimension(candidate, population + archive)
    requires multiset(population + archive) == multiset(population' + archive')
    ensures SameDimension(candidate, population' + archive')
    ensures NoveltyScore(root, k, candidate, population, archive) == NoveltyScore(root, k, candidate, population', archive')
  {
    DistancesPermutation(root, candidate, population + archive, population' + archive', true);
    SortDependsOnElementsOnly(Distances(root, candidate, population + archive, true),
                              Distances(root, candidate, population' + archive', true));
  }

  /** Dropping a neighbour equal to the candidate leaves the skipping distance list unchanged. */
  lemma DistancesDropEqual(root: real -> real, candidate: Vector, before: seq<Vector>, after: seq<Vector>)
    requires SameDimension(candidate, before + [candidate] + after)
    ensures SameDimension(candidate, before + after)
    ensures Distances(root, candidate, before + [candidate] + after, true) == Distances(root, candidate, before + after, true)
  {
    DistancesConcat(root, candidate, before + [candidate], after, true);
    DistancesConcat(root, candidate, before, [candidate], true);
    assert Distances(root, candidate, [candidate], true) == [] by {
      assert [candidate][..0] == [];
    }
    DistancesConcat(root, candidate, before, after, true);
  }

  /** When no neighbour equals the candidate, skipping equal neighbours skips nothing. */
  lemma {:induction false} DistancesSkipNothing(root: real -> real, candidate: Vector, neighbours: seq<Vector>)
    requires SameDimension(candidate, neighbours) && candidate !in neighbours
    ensures Distances(root, candidate, neighbours, true) == Distances(root, candidate, neighbours, false)
    decreases |neighbours|
  {
    if neighbours != [] {
      var n := |neighbours| - 1;
      assert neighbours == neighbours[..n] + [neighbours[n]];
      DistancesSkipNothing(root, candidate, neighbours[..n]);
    }
  }

  /**
    A population entry exactly equal to the candidate (its own entry, or a
    duplicate) contributes nothing: removing it leaves the score unchanged.
   */
  lemma EqualPopulationEntryIgnored(root: real -> real, k: nat, candidate: Vector,
                                    population: seq<Vector>, archive: seq<Vector>, i: nat)
    requires SameDimension(candidate, population + archive)
    requires i < |population| && population[i] == candidate
    ensures SameDimension(candidate, population[..i] + population[i + 1..] + archive)
    ensures NoveltyScore(root, k, candidate, population, archive)
         == NoveltyScore(root, k, candidate, population[..i] + population[i + 1..], archive)
  {
    var before, after := population[..i], population[i + 1..] + archive;
    assert population + archive == before + [candidate] + after;
    assert population[..i] + population[i + 1..] + archive == before + after;
    DistancesDropEqual(root, candidate, before, after);
  }

  /** An archive entry exactly equal to the candidate contributes nothing either. */
  lemma EqualArchiveEntryIgnored(root: real -> real, k: nat, candidate: Vector,
                                 population: seq<Vector>, archive: seq<Vector>, j: nat)
    requires SameDimension(candidate, population + archive)
    requires j < |archive| && archive[j] == candidate
    ensures SameDimension(candidate, population + (archive[..j] + archive[j + 1..]))
    ensures NoveltyScore(root, k, candidate, population, archive)
         == NoveltyScore(root, k, candidate, population, archive[..j] + archive[j + 1..])
  {
    var before, after := population + archive[..j], archive[j + 1..];
    assert population + archive == before + [candidate] + after;
    assert population + (archive[..j] + archive[j + 1..]) == before + after;
    DistancesDropEqual(root, candidate, before, after);
  }

  /** The inner loop of both novelty searches: squared differences summed element by element. */
  method SumOfSquares(candidate: Vector, neighbour: Vector) returns (distance: real)
    requires |candidate| == |neighbour|
    ensures distance == SquaredDistance(candidate, neighbour)
  {
    distance := 0.0;
    for e := 0 to |neighbour|
      invariant distance == SquaredDistance(candidate[..e], neighbour[..e])
    {
      assert candidate[..e + 1][..e] == candidate[..e] && neighbour[..e + 1][..e] == neighbour[..e];
      distance := distance + Square(candidate[e] - neighbour[e]);
    }
    assert candidate[..|neighbour|] == candidate && neighbour[..|neighbour|] == neighbour;
  }

  /**
    `novelty_search`: collects the distances to the population vectors and
    then the archive vectors, skipping every neighbour equal to the
    candidate, sorts them and averages the first k.
   */
  method NoveltySearch(root: real -> real, k: nat, candidate: Vector, population: seq<Vector>, archive: seq<Vector>)
    returns (score: Score)
    requires SameDimension(candidate, population + archive)
    ensures score == NoveltyScore(root, k, candidate, population, archive)
  {
    var neighbours := population + archive;
    var distances: seq<real> := [];
    var i := 0;
    while i < |neighbours|
      invariant 0 <= i <= |neighbours|
      invariant SameDimension(candidate, neighbours[..i])
      invariant distances == Distances(root, candidate, neighbours[..i], true)
    {
      var neighbour := neighbours[i];
      assert neighbours[..i + 1] == neighbours[..i] + [neighbour];
      if neighbour != candidate {
        var distance := SumOfSquares(candidate, neighbour);
        distances := distances + [root(distance)];
      }
      i := i + 1;
    }
    assert neighbours[..i] == neighbours;
    score := Mean(Take(Sort(distances), k));
  }
}
