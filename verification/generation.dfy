/**
  The pure bookkeeping behind one NEAT generation: which genomes survive the
  feasibility cull, the fitness table they end up with, the ranking by
  fitness, the picks that feed the novelty archive and the best-fit list,
  de-duplicated archive growth, the per-generation metrics, and which
  exception (if any) ends a generation early. The `NeatGenerator` class in
  generator.dfy is proved against these definitions.
 */
module Generation {
  import opened Ranking
  import opened Novelty

  type GenomeId = nat

  /** A building lattice: one material label per voxel. */
  type Lattice = seq<int>

  /** A trained encoder's `predict`: the latent vector of a lattice. */
  type Encoder = Lattice -> Vector

  datatype Option<T> = None | Some(value: T)

  /** What `generate_lattice` yields for one genome: its lattice and whether it meets the constraints. */
  datatype Generated = Generated(lattice: Lattice, feasible: bool)

  /** The Python exceptions that can end a generation part way. */
  datatype Failure = IndexError | ZeroDivisionError | ValueError

  /** The per-generation series kept in `neat_metrics` that the model tracks. */
  datatype Metrics = Metrics(archiveSize: seq<nat>, speciesCount: seq<nat>, infeasibleSize: seq<nat>,
                             minSpeciesSize: seq<nat>, maxSpeciesSize: seq<nat>)

  const NoMetrics: Metrics := Metrics([], [], [], [], [])

  predicate Distinct<T(==)>(s: seq<T>) {
    forall i, j :: 0 <= i < j < |s| ==> s[i] != s[j]
  }

  /** The size of the encoding of `l`. */
  ghost function OutputWidth<L>(encoder: L -> Vector, l: L): nat {
    |encoder(l)|
  }

  /** The encoder's output size is the same for every lattice. */
  ghost predicate FixedWidth<L(!new)>(encoder: L -> Vector, width: nat) {
    forall l :: OutputWidth(encoder, l) == width
  }

  ghost predicate AllWidth(vectors: seq<Vector>, width: nat) {
    forall i :: 0 <= i < |vectors| ==> |vectors[i]| == width
  }

  function Smaller(a: nat, b: nat): nat {
    if a <= b then a else b
  }

  // ---------------------------------------------------------------------------
  // The feasibility cull

  /** The ids of the feasible genomes, in population order. */
  function Feasible(ids: seq<GenomeId>, generated: seq<Generated>): seq<GenomeId>
    requires |ids| == |generated|
  {
    if ids == [] then []
    else
      var n := |ids| - 1;
      Feasible(ids[..n], generated[..n]) + (if generated[n].feasible then [ids[n]] else [])
  }

  /** How many generated lattices are infeasible. */
  function InfeasibleCount(generated: seq<Generated>): nat
  {
    if generated == [] then 0
    else InfeasibleCount(generated[..|generated| - 1]) + (if generated[|generated| - 1].feasible then 0 else 1)
  }

  /** The `lattices` dictionary: each feasible genome's lattice. */
  function LatticeMap(ids: seq<GenomeId>, generated: seq<Generated>): map<GenomeId, Lattice>
    requires |ids| == |generated|
  {
    if ids == [] then map[]
    else
      var n := |ids| - 1;
      var m := LatticeMap(ids[..n], generated[..n]);
      if generated[n].feasible then m[ids[n] := generated[n].lattice] else m
  }

  /** The fitness table after every infeasible genome's fitness is set to 0. */
  function ZeroCulled(fitness: map<GenomeId, Score>, ids: seq<GenomeId>, generated: seq<Generated>): map<GenomeId, Score>
    requires |ids| == |generated|
  {
    if ids == [] then fitness
    else
      var n := |ids| - 1;
      var f := ZeroCulled(fitness, ids[..n], generated[..n]);
      if generated[n].feasible then f else f[ids[n] := Num(0.0)]
  }

  /**
    The cull splits the population: every genome is either kept (feasible)
    or counted as removed, the kept ids keep their order and stay distinct,
    and a genome is kept exactly when its lattice is feasible.
   */
  lemma CullPartitions(ids: seq<GenomeId>, generated: seq<Generated>)
    requires |ids| == |generated| && Distinct(ids)
    ensures |Feasible(ids, generated)| + InfeasibleCount(generated) == |ids|
    ensures Distinct(Feasible(ids, generated))
    ensures forall x :: x in Feasible(ids, generated) ==> x in ids
    ensures forall i :: 0 <= i < |ids| ==> (ids[i] in Feasible(ids, generated) <==> generated[i].feasible)
  {
    CullCounts(ids, generated);
    FeasibleMembers(ids, generated);
    FeasibleDistinct(ids, generated);
  }

  lemma {:induction false} CullCounts(ids: seq<GenomeId>, generated: seq<Generated>)
    requires |ids| == |generated|
    ensures |Feasible(ids, generated)| + InfeasibleCount(generated) == |ids|
  {
    if ids != [] {
      var n := |ids| - 1;
      CullCounts(ids[..n], generated[..n]);
      assert generated[..n] == generated[..|generated| - 1];
    }
  }

  lemma {:induction false} FeasibleMembers(ids: seq<GenomeId>, generated: seq<Generated>)
    requires |ids| == |generated| && Distinct(ids)
    ensures forall x :: x in Feasible(ids, generated) ==> x in ids
    ensures forall i :: 0 <= i < |ids| ==> (ids[i] in Feasible(ids, generated) <==> generated[i].feasible)
  {
    if ids != [] {
      var n := |ids| - 1;
      FeasibleMembers(ids[..n], generated[..n]);
      forall i | 0 <= i < n ensures ids[i] == ids[..n][i] && ids[i] != ids[n] && generated[i] == generated[..n][i] {
      }
      assert ids[n] !in Feasible(ids[..n], generated[..n]) by {
        assert ids[n] !in ids[..n];
      }
      assert ids == ids[..n] + [ids[n]];
    }
  }

  /** The genomes kept by the cull are distinct when the population's are. */
  lemma {:induction false} FeasibleDistinct(ids: seq<GenomeId>, generated: seq<Generated>)
    requires |ids| == |generated| && Distinct(ids)
    ensures Distinct(Feasible(ids, generated))
  {
    if ids != [] {
      var n := |ids| - 1;
      FeasibleDistinct(ids[..n], generated[..n]);
      var kept := Feasible(ids[..n], generated[..n]);
      if generated[n].feasible {
        assert ids[n] !in kept by {
          FeasibleMembers(ids[..n], generated[..n]);
          assert ids[n] !in ids[..n];
        }
        forall i, j | 0 <= i < j < |kept| + 1 ensures (kept + [ids[n]])[i] != (kept + [ids[n]])[j] {
          if j == |kept| {
            assert kept[i] in kept;
          }
        }
      }
    }
  }

  /** One more genome through the cull: how each of its four results grows. */
  lemma CullStep(ids: seq<GenomeId>, generated: seq<Generated>, fitness: map<GenomeId, Score>, i: nat)
    requires |ids| == |generated| && i < |ids|
    ensures Feasible(ids[..i + 1], generated[..i + 1])
         == Feasible(ids[..i], generated[..i]) + (if generated[i].feasible then [ids[i]] else [])
    ensures InfeasibleCount(generated[..i + 1]) == InfeasibleCount(generated[..i]) + (if generated[i].feasible then 0 else 1)
    ensures LatticeMap(ids[..i + 1], generated[..i + 1])
         == (if generated[i].feasible then LatticeMap(ids[..i], generated[..i])[ids[i] := generated[i].lattice]
             else LatticeMap(ids[..i], generated[..i]))
    ensures ZeroCulled(fitness, ids[..i + 1], generated[..i + 1])
         == (if generated[i].feasible then ZeroCulled(fitness, ids[..i], generated[..i])
             else ZeroCulled(fitness, ids[..i], generated[..i])[ids[i] := Num(0.0)])
  {
    assert ids[..i + 1][..i] == ids[..i] && generated[..i + 1][..i] == generated[..i];
  }

  /** `lattices` holds exactly the feasible genomes, each with its own lattice. */
  lemma LatticeMapHoldsFeasible(ids: seq<GenomeId>, generated: seq<Generated>)
    requires |ids| == |generated| && Distinct(ids)
    ensures LatticeMap(ids, generated).Keys == set x | x in Feasible(ids, generated)
    ensures forall i :: 0 <= i < |ids| && generated[i].feasible ==>
              ids[i] in LatticeMap(ids, generated) && LatticeMap(ids, generated)[ids[i]] == generated[i].lattice
    ensures |LatticeMap(ids, generated)| == |Feasible(ids, generated)|
  {
    LatticeMapKeys(ids, generated);
    LatticeMapValues(ids, generated);
  }

  lemma {:induction false} LatticeMapKeys(ids: seq<GenomeId>, generated: seq<Generated>)
    requires |ids| == |generated| && Distinct(ids)
    ensures LatticeMap(ids, generated).Keys == set x | x in Feasible(ids, generated)
    ensures |LatticeMap(ids, generated)| == |Feasible(ids, generated)|
  {
    if ids != [] {
      var n := |ids| - 1;
      LatticeMapKeys(ids[..n], generated[..n]);
      CullPartitions(ids[..n], generated[..n]);
      forall i | 0 <= i < n ensures ids[i] == ids[..n][i] && ids[i] != ids[n] {
      }
      assert ids[n] !in Feasible(ids[..n], generated[..n]);
    }
  }

  lemma {:induction false} LatticeMapValues(ids: seq<GenomeId>, generated: seq<Generated>)
    requires |ids| == |generated| && Distinct(ids)
    ensures forall i :: 0 <= i < |ids| && generated[i].feasible ==>
              ids[i] in LatticeMap(ids, generated) && LatticeMap(ids, generated)[ids[i]] == generated[i].lattice
  {
    if ids != [] {
      var n := |ids| - 1;
      LatticeMapValues(ids[..n], generated[..n]);
      forall i | 0 <= i < n ensures ids[i] == ids[..n][i] && ids[i] != ids[n] && generated[i] == generated[..n][i] {
      }
    }
  }

  /** The cull sets every infeasible genome's fitness to 0, and adds no other entry. */
  lemma ZeroCulledSetsInfeasible(fitness: map<GenomeId, Score>, ids: seq<GenomeId>, generated: seq<Generated>)
    requires |ids| == |generated| && Distinct(ids)
    ensures forall i :: 0 <= i < |ids| && !generated[i].feasible ==>
              ids[i] in ZeroCulled(fitness, ids, generated) && ZeroCulled(fitness, ids, generated)[ids[i]] == Num(0.0)
    ensures forall x :: x in ZeroCulled(fitness, ids, generated) ==> x in fitness || x in ids
  {
    ZeroCulledZeroes(fitness, ids, generated);
    ZeroCulledAddsNoStranger(fitness, ids, generated);
  }

  lemma {:induction false} ZeroCulledZeroes(fitness: map<GenomeId, Score>, ids: seq<GenomeId>, generated: seq<Generated>)
    requires |ids| == |generated| && Distinct(ids)
    ensures forall i :: 0 <= i < |ids| && !generated[i].feasible ==>
              ids[i] in ZeroCulled(fitness, ids, generated) && ZeroCulled(fitness, ids, generated)[ids[i]] == Num(0.0)
  {
    if ids != [] {
      var n := |ids| - 1;
      ZeroCulledZeroes(fitness, ids[..n], generated[..n]);
      forall i | 0 <= i < n ensures ids[i] == ids[..n][i] && ids[i] != ids[n] && generated[i] == generated[..n][i] {
      }
    }
  }

  lemma {:induction false} ZeroCulledAddsNoStranger(fitness: map<GenomeId, Score>, ids: seq<GenomeId>, generated: seq<Generated>)
    requires |ids| == |generated|
    ensures forall x :: x in ZeroCulled(fitness, ids, generated) ==> x in fitness || x in ids
  {
    if ids != [] {
      var n := |ids| - 1;
      ZeroCulledAddsNoStranger(fitness, ids[..n], generated[..n]);
      assert ids == ids[..n] + [ids[n]];
    }
  }

  /** The cull leaves the fitness of every feasible genome, and of every genome outside the population, alone. */
  lemma ZeroCulledKeepsOthers(fitness: map<GenomeId, Score>, ids: seq<GenomeId>, generated: seq<Generated>)
    requires |ids| == |generated| && Distinct(ids)
    ensures forall x :: x in fitness ==> x in ZeroCulled(fitness, ids, generated)
    ensures forall i :: 0 <= i < |ids| && generated[i].feasible && ids[i] in fitness ==>
              ZeroCulled(fitness, ids, generated)[ids[i]] == fitness[ids[i]]
    ensures forall x :: x in fitness && x !in ids ==> ZeroCulled(fitness, ids, generated)[x] == fitness[x]
  {
    ZeroCulledKeepsFeasible(fitness, ids, generated);
    ZeroCulledKeepsOutsiders(fitness, ids, generated);
  }

  lemma {:induction false} ZeroCulledKeepsFeasible(fitness: map<GenomeId, Score>, ids: seq<GenomeId>, generated: seq<Generated>)
    requires |ids| == |generated| && Distinct(ids)
    ensures forall x :: x in fitness ==> x in ZeroCulled(fitness, ids, generated)
    ensures forall i :: 0 <= i < |ids| && generated[i].feasible && ids[i] in fitness ==>
              ZeroCulled(fitness, ids, generated)[ids[i]] == fitness[ids[i]]
  {
    if ids != [] {
      var n := |ids| - 1;
      ZeroCulledKeepsFeasible(fitness, ids[..n], generated[..n]);
      forall i | 0 <= i < n ensures ids[i] == ids[..n][i] && ids[i] != ids[n] && generated[i] == generated[..n][i] {
      }
      // the last genome has not been seen before, so its entry is still the original one
      ZeroCulledKeepsOutsiders(fitness, ids[..n], generated[..n]);
      assert ids[n] !in ids[..n];
    }
  }

  lemma {:induction false} ZeroCulledKeepsOutsiders(fitness: map<GenomeId, Score>, ids: seq<GenomeId>, generated: seq<Generated>)
    requires |ids| == |generated|
    ensures forall x :: x in fitness && x !in ids ==> x in ZeroCulled(fitness, ids, generated) && ZeroCulled(fitness, ids, generated)[x] == fitness[x]
  {
    if ids != [] {
      var n := |ids| - 1;
      ZeroCulledKeepsOutsiders(fitness, ids[..n], generated[..n]);
      forall x | x in fitness && x !in ids ensures x !in ids[..n] && x != ids[n] {
        assert ids == ids[..n] + [ids[n]];
      }
    }
  }

  // ---------------------------------------------------------------------------
  // Compression and fitness assignment

  /** The latent vectors of `ids`' lattices, as the encoder sees them (with noise added first when `noise` is set). */
  function Compressed(encoder: Encoder, noise: bool, addNoise: Lattice -> Lattice,
                      lattices: map<GenomeId, Lattice>, ids: seq<GenomeId>): (r: seq<Vector>)
    requires forall i :: 0 <= i < |ids| ==> ids[i] in lattices
    ensures |r| == |ids|
    ensures forall i :: 0 <= i < |ids| ==> r[i] == encoder(if noise then addNoise(lattices[ids[i]]) else lattices[ids[i]])
  {
    if ids == [] then []
    else
      var n := |ids| - 1;
      var l := lattices[ids[n]];
      Compressed(encoder, noise, addNoise, lattices, ids[..n]) + [encoder(if noise then addNoise(l) else l)]
  }

  /**
    Each vector's novelty with respect to all the vectors and the archive.
   */
  function NoveltyScores(root: real -> real, k: nat, vectors: seq<Vector>, archive: seq<Vector>, ghost width: nat): (r: seq<Score>)
    requires AllWidth(vectors + archive, width)
    ensures |r| == |vectors|
    ensures forall i :: 0 <= i < |vectors| ==> SameDimension(vectors[i], vectors + archive)
    ensures forall i :: 0 <= i < |vectors| ==> r[i] == NoveltyScore(root, k, vectors[i], vectors, archive)
  {
    assert forall i :: 0 <= i < |vectors| ==> |vectors[i]| == |(vectors + archive)[i]|;
    seq(|vectors|, i requires 0 <= i < |vectors| => NoveltyScore(root, k, vectors[i], vectors, archive))
  }

  /**
    Each genome's novelty leaves its own entry out of the population it is
    compared with: scoring against the whole population is the same as
    scoring against the population without that genome.
   */
  lemma NoveltyScoresIgnoreOwnEntry(root: real -> real, k: nat, vectors: seq<Vector>, archive: seq<Vector>, width: nat)
    requires AllWidth(vectors + archive, width)
    ensures var r := NoveltyScores(root, k, vectors, archive, width);
            forall i :: 0 <= i < |vectors| ==>
              && SameDimension(vectors[i], vectors[..i] + vectors[i + 1..] + archive)
              && r[i] == NoveltyScore(root, k, vectors[i], vectors[..i] + vectors[i + 1..], archive)
  {
    assert forall i :: 0 <= i < |vectors| ==> |vectors[i]| == |(vectors + archive)[i]|;
    forall i | 0 <= i < |vectors|
      ensures SameDimension(vectors[i], vectors[..i] + vectors[i + 1..] + archive)
      ensures NoveltyScore(root, k, vectors[i], vectors, archive)
           == NoveltyScore(root, k, vectors[i], vectors[..i] + vectors[i + 1..], archive)
    {
      EqualPopulationEntryIgnored(root, k, vectors[i], vectors, archive, i);
    }
  }

  /** The latent vectors of the population and the archive share the encoder's width. */
  lemma CompressedWidth(encoder: Encoder, width: nat, noise: bool, addNoise: Lattice -> Lattice,
                        lattices: map<GenomeId, Lattice>, ids: seq<GenomeId>, archive: seq<Vector>)
    requires FixedWidth(encoder, width) && AllWidth(archive, width)
    requires forall i :: 0 <= i < |ids| ==> ids[i] in lattices
    ensures AllWidth(Compressed(encoder, noise, addNoise, lattices, ids) + archive, width)
  {
    var vectors := Compressed(encoder, noise, addNoise, lattices, ids);
    forall i | 0 <= i < |vectors + archive| ensures |(vectors + archive)[i]| == width {
      if i < |vectors| {
        var l := lattices[ids[i]];
        assert OutputWidth(encoder, if noise then addNoise(l) else l) == width;
        assert (vectors + archive)[i] == vectors[i];
      } else {
        assert (vectors + archive)[i] == archive[i - |vectors|];
      }
    }
  }

  /** The fitness table after `ids[i]` is given `scores[i]`, in order. */
  function Scored(fitness: map<GenomeId, Score>, ids: seq<GenomeId>, scores: seq<Score>): map<GenomeId, Score>
    requires |ids| == |scores|
  {
    if ids == [] then fitness
    else
      var n := |ids| - 1;
      Scored(fitness, ids[..n], scores[..n])[ids[n] := scores[n]]
  }

  /** One more genome scored: the table grows by that genome's entry. */
  lemma ScoredStep(fitness: map<GenomeId, Score>, ids: seq<GenomeId>, scores: seq<Score>, i: nat)
    requires |ids| == |scores| && i < |ids|
    ensures Scored(fitness, ids[..i + 1], scores[..i + 1]) == Scored(fitness, ids[..i], scores[..i])[ids[i] := scores[i]]
  {
    assert ids[..i + 1][..i] == ids[..i] && scores[..i + 1][..i] == scores[..i];
  }

  /** With distinct ids, each gets exactly its own score and no other entry changes. */
  lemma ScoredAssignsEach(fitness: map<GenomeId, Score>, ids: seq<GenomeId>, scores: seq<Score>)
    requires |ids| == |scores| && Distinct(ids)
    ensures Scored(fitness, ids, scores).Keys == fitness.Keys + set x | x in ids
    ensures forall i :: 0 <= i < |ids| ==> Scored(fitness, ids, scores)[ids[i]] == scores[i]
    ensures forall x :: x in fitness && x !in ids ==> Scored(fitness, ids, scores)[x] == fitness[x]
  {
    ScoredKeys(fitness, ids, scores);
    ScoredValues(fitness, ids, scores);
    ScoredOutsiders(fitness, ids, scores);
  }

  lemma {:induction false} ScoredKeys(fitness: map<GenomeId, Score>, ids: seq<GenomeId>, scores: seq<Score>)
    requires |ids| == |scores|
    ensures Scored(fitness, ids, scores).Keys == fitness.Keys + set x | x in ids
  {
    if ids != [] {
      var n := |ids| - 1;
      ScoredKeys(fitness, ids[..n], scores[..n]);
      assert ids == ids[..n] + [ids[n]];
    }
  }

  lemma {:induction false} ScoredValues(fitness: map<GenomeId, Score>, ids: seq<GenomeId>, scores: seq<Score>)
    requires |ids| == |scores| && Distinct(ids)
    ensures forall i :: 0 <= i < |ids| ==> ids[i] in Scored(fitness, ids, scores) && Scored(fitness, ids, scores)[ids[i]] == scores[i]
  {
    if ids != [] {
      var n := |ids| - 1;
      ScoredValues(fitness, ids[..n], scores[..n]);
      forall i | 0 <= i < n ensures ids[i] == ids[..n][i] && ids[i] != ids[n] && scores[i] == scores[..n][i] {
      }
    }
  }

  lemma {:induction false} ScoredOutsiders(fitness: map<GenomeId, Score>, ids: seq<GenomeId>, scores: seq<Score>)
    requires |ids| == |scores|
    ensures forall x :: x in fitness && x !in ids ==> x in Scored(fitness, ids, scores) && Scored(fitness, ids, scores)[x] == fitness[x]
  {
    if ids != [] {
      var n := |ids| - 1;
      ScoredOutsiders(fitness, ids[..n], scores[..n]);
      forall x | x in fitness && x !in ids ensures x !in ids[..n] && x != ids[n] {
        assert ids == ids[..n] + [ids[n]];
      }
    }
  }

  // ---------------------------------------------------------------------------
  // Ranking

  /** The (id, value) entries of the genomes with fitness above 0, in population order (NaN is not above 0). */
  function PositiveEntries(ids: seq<GenomeId>, fitness: map<GenomeId, Score>): seq<(GenomeId, real)>
    requires forall i :: 0 <= i < |ids| ==> ids[i] in fitness
  {
    if ids == [] then []
    else
      var n := |ids| - 1;
      var s := fitness[ids[n]];
      PositiveEntries(ids[..n], fitness) + (if s.Num? && s.value > 0.0 then [(ids[n], s.value)] else [])
  }

  /** `sorted_keys`: the ids with fitness above 0, by ascending fitness. */
  function SortedKeys(ids: seq<GenomeId>, fitness: map<GenomeId, Score>): seq<GenomeId>
    requires forall i :: 0 <= i < |ids| ==> ids[i] in fitness
  {
    Keys(SortByValue(PositiveEntries(ids, fitness)))
  }

  /** Each entry of `PositiveEntries` is a genome with that positive fitness, and every such genome has an entry. */
  lemma PositiveEntriesMeaning(ids: seq<GenomeId>, fitness: map<GenomeId, Score>)
    requires forall i :: 0 <= i < |ids| ==> ids[i] in fitness
    ensures |PositiveEntries(ids, fitness)| <= |ids|
    ensures forall e :: e in PositiveEntries(ids, fitness) ==> e.0 in ids && fitness[e.0] == Num(e.1) && e.1 > 0.0
    ensures forall i :: 0 <= i < |ids| && fitness[ids[i]].Num? && fitness[ids[i]].value > 0.0 ==>
              (ids[i], fitness[ids[i]].value) in PositiveEntries(ids, fitness)
  {
    PositiveEntriesSound(ids, fitness);
    PositiveEntriesComplete(ids, fitness);
  }

  lemma {:induction false} PositiveEntriesSound(ids: seq<GenomeId>, fitness: map<GenomeId, Score>)
    requires forall i :: 0 <= i < |ids| ==> ids[i] in fitness
    ensures |PositiveEntries(ids, fitness)| <= |ids|
    ensures forall e :: e in PositiveEntries(ids, fitness) ==> e.0 in ids && fitness[e.0] == Num(e.1) && e.1 > 0.0
  {
    if ids != [] {
      var n := |ids| - 1;
      PositiveEntriesSound(ids[..n], fitness);
      assert ids == ids[..n] + [ids[n]];
    }
  }

  lemma {:induction false} PositiveEntriesComplete(ids: seq<GenomeId>, fitness: map<GenomeId, Score>)
    requires forall i :: 0 <= i < |ids| ==> ids[i] in fitness
    ensures forall i :: 0 <= i < |ids| && fitness[ids[i]].Num? && fitness[ids[i]].value > 0.0 ==>
              (ids[i], fitness[ids[i]].value) in PositiveEntries(ids, fitness)
  {
    if ids != [] {
      var n := |ids| - 1;
      PositiveEntriesComplete(ids[..n], fitness);
      forall i | 0 <= i < n ensures ids[i] == ids[..n][i] {
      }
    }
  }

  /** Sorting by value keeps exactly the entries it was given. */
  lemma SortByValueKeepsEntries<K>(entries: seq<(K, real)>)
    ensures |SortByValue(entries)| == |entries|
    ensures forall j :: 0 <= j < |entries| ==> SortByValue(entries)[j] in entries
    ensures forall e :: e in entries ==> e in SortByValue(entries)
  {
    var sorted := SortByValue(entries);
    assert |multiset(sorted)| == |multiset(entries)|;
    forall j | 0 <= j < |entries| ensures sorted[j] in entries {
      assert sorted[j] in multiset(sorted);
    }
    SortByValueLosesNothing(entries);
  }

  lemma SortByValueLosesNothing<K>(entries: seq<(K, real)>)
    ensures forall e :: e in entries ==> e in SortByValue(entries)
  {
    forall e | e in entries ensures e in SortByValue(entries) {
      assert e in multiset(entries);
    }
  }

  /**
    `sorted_keys` lists only genomes whose fitness is a number above 0, in
    non-decreasing order of fitness; so its last entries are the most novel
    genomes.
   */
  lemma SortedKeysAscendPositive(ids: seq<GenomeId>, fitness: map<GenomeId, Score>)
    requires forall i :: 0 <= i < |ids| ==> ids[i] in fitness
    ensures var sk := SortedKeys(ids, fitness);
            && |sk| <= |ids|
            && (forall j :: 0 <= j < |sk| ==> sk[j] in ids && sk[j] in fitness && fitness[sk[j]].Num? && fitness[sk[j]].value > 0.0)
            && (forall j, j' :: 0 <= j < j' < |sk| ==> fitness[sk[j]].value <= fitness[sk[j']].value)
  {
    var entries := PositiveEntries(ids, fitness);
    var sorted := SortByValue(entries);
    PositiveEntriesMeaning(ids, fitness);
    SortByValueKeepsEntries(entries);
    forall j | 0 <= j < |sorted| ensures fitness[sorted[j].0] == Num(sorted[j].1) && sorted[j].1 > 0.0 && sorted[j].0 in ids {
      assert sorted[j] in entries;
    }
  }

  /** Every ranked genome has a lattice when every genome of the population has one. */
  lemma SortedKeysHaveLattices(ids: seq<GenomeId>, fitness: map<GenomeId, Score>, lattices: map<GenomeId, Lattice>)
    requires forall i :: 0 <= i < |ids| ==> ids[i] in fitness && ids[i] in lattices
    ensures forall j :: 0 <= j < |SortedKeys(ids, fitness)| ==> SortedKeys(ids, fitness)[j] in lattices
  {
    var sk := SortedKeys(ids, fitness);
    SortedKeysAscendPositive(ids, fitness);
    forall j | 0 <= j < |sk| ensures sk[j] in lattices {
      assert sk[j] in ids;
    }
  }

  /** Every genome whose fitness is a number above 0 appears in `sorted_keys`. */
  lemma SortedKeysHoldAllPositive(ids: seq<GenomeId>, fitness: map<GenomeId, Score>)
    requires forall i :: 0 <= i < |ids| ==> ids[i] in fitness
    ensures forall i :: 0 <= i < |ids| && fitness[ids[i]].Num? && fitness[ids[i]].value > 0.0 ==> ids[i] in SortedKeys(ids, fitness)
  {
    var entries := PositiveEntries(ids, fitness);
    var sorted := SortByValue(entries);
    var sk := Keys(sorted);
    PositiveEntriesComplete(ids, fitness);
    SortByValueLosesNothing(entries);
    forall i | 0 <= i < |ids| && fitness[ids[i]].Num? && fitness[ids[i]].value > 0.0 ensures ids[i] in sk {
      var e := (ids[i], fitness[ids[i]].value);
      assert e in sorted;
      var j :| 0 <= j < |sorted| && sorted[j] == e;
      assert sk[j] == ids[i];
    }
  }

  // ---------------------------------------------------------------------------
  // Archive and best-fit picks

  /** How many entries `range(1, min(limit, available))` visits: one fewer than the smaller bound. */
  function PickCount(limit: nat, available: nat): (r: nat)
    ensures r <= limit && r <= available
    ensures 1 <= limit <= available ==> r == limit - 1
    ensures 1 <= available <= limit ==> r == available - 1
  {
    var stop := Smaller(limit, available);
    if stop >= 1 then stop - 1 else 0
  }

  /**
    The lattices of the `count` top-ranked genomes, most novel first: what a
    loop over `sorted_keys[-1], sorted_keys[-2], ...` reads from the table.
   */
  function TopLattices(lattices: map<GenomeId, Lattice>, sortedKeys: seq<GenomeId>, count: nat): (r: seq<Lattice>)
    requires count <= |sortedKeys| && forall j :: 0 <= j < |sortedKeys| ==> sortedKeys[j] in lattices
    ensures |r| == count
  {
    if count == 0 then []
    else TopLattices(lattices, sortedKeys, count - 1) + [lattices[sortedKeys[|sortedKeys| - count]]]
  }

  /** The j-th pick is the lattice of the genome j places from the end of the ranking. */
  lemma {:induction false} TopLatticesFromTheEnd(lattices: map<GenomeId, Lattice>, sortedKeys: seq<GenomeId>, count: nat)
    requires count <= |sortedKeys| && forall j :: 0 <= j < |sortedKeys| ==> sortedKeys[j] in lattices
    ensures forall j :: 0 <= j < count ==> TopLattices(lattices, sortedKeys, count)[j] == lattices[sortedKeys[|sortedKeys| - 1 - j]]
  {
    if count > 0 {
      TopLatticesFromTheEnd(lattices, sortedKeys, count - 1);
    }
  }

  /** The encodings of `lattices`, in order. */
  function Encode(encoder: Encoder, lattices: seq<Lattice>): (r: seq<Vector>)
    ensures |r| == |lattices|
  {
    if lattices == [] then [] else Encode(encoder, lattices[..|lattices| - 1]) + [encoder(lattices[|lattices| - 1])]
  }

  /** The j-th encoding is the encoder's output for the j-th lattice. */
  lemma {:induction false} EncodeEach(encoder: Encoder, lattices: seq<Lattice>)
    ensures forall j :: 0 <= j < |lattices| ==> Encode(encoder, lattices)[j] == encoder(lattices[j])
  {
    if lattices != [] {
      EncodeEach(encoder, lattices[..|lattices| - 1]);
    }
  }

  /** Encoding one more lattice, and offering its vector to the archive. */
  lemma EncodeStep(encoder: Encoder, archive: seq<Vector>, lattices: seq<Lattice>, l: Lattice)
    ensures Encode(encoder, lattices + [l]) == Encode(encoder, lattices) + [encoder(l)]
    ensures var grown := AppendNew(archive, Encode(encoder, lattices));
            AppendNew(archive, Encode(encoder, lattices + [l])) == Offer(grown, encoder(l))
  {
    assert (lattices + [l])[..|lattices|] == lattices;
    assert (Encode(encoder, lattices) + [encoder(l)])[..|lattices|] == Encode(encoder, lattices);
  }

  /** One more pick from the top of the ranking: the picked lattices and the grown archive each take one step. */
  lemma PickStep(encoder: Encoder, lattices: map<GenomeId, Lattice>, sortedKeys: seq<GenomeId>, archive: seq<Vector>,
                 picked: seq<Lattice>, k: nat)
    requires k < |sortedKeys| && forall j :: 0 <= j < |sortedKeys| ==> sortedKeys[j] in lattices
    requires picked == TopLattices(lattices, sortedKeys, k)
    ensures var l := lattices[sortedKeys[|sortedKeys| - 1 - k]];
            && picked + [l] == TopLattices(lattices, sortedKeys, k + 1)
            && AppendNew(archive, Encode(encoder, picked + [l])) == Offer(AppendNew(archive, Encode(encoder, picked)), encoder(l))
  {
    EncodeStep(encoder, archive, picked, lattices[sortedKeys[|sortedKeys| - 1 - k]]);
  }

  /** Encodings all have the encoder's width. */
  lemma EncodeWidth(encoder: Encoder, width: nat, lattices: seq<Lattice>)
    requires FixedWidth(encoder, width)
    ensures AllWidth(Encode(encoder, lattices), width)
  {
    EncodeEach(encoder, lattices);
    forall j | 0 <= j < |lattices| ensures |Encode(encoder, lattices)[j]| == width {
      assert OutputWidth(encoder, lattices[j]) == width;
    }
  }

  /** The archive after offering `v`: appended unless an equal vector is already there. */
  function Offer(archive: seq<Vector>, v: Vector): seq<Vector>
  {
    if v in archive then archive else archive + [v]
  }

  /** The archive after each vector is offered in turn. */
  function AppendNew(archive: seq<Vector>, vectors: seq<Vector>): seq<Vector>
  {
    if vectors == [] then archive
    else Offer(AppendNew(archive, vectors[..|vectors| - 1]), vectors[|vectors| - 1])
  }

  /**
    Archive growth only appends, and never more than one vector per
    candidate; afterwards every candidate is present, nothing else is new,
    and an archive without duplicates stays without duplicates.
   */
  lemma {:induction false} AppendNewGrowsWithoutDuplicates(archive: seq<Vector>, vectors: seq<Vector>)
    ensures var r := AppendNew(archive, vectors);
            && |archive| <= |r| <= |archive| + |vectors|
            && r[..|archive|] == archive
            && (forall j :: 0 <= j < |vectors| ==> vectors[j] in r)
            && (forall v :: v in r ==> v in archive || v in vectors)
            && (Distinct(archive) ==> Distinct(r))
  {
    if vectors != [] {
      var n := |vectors| - 1;
      AppendNewGrowsWithoutDuplicates(archive, vectors[..n]);
      var grown := AppendNew(archive, vectors[..n]);
      forall j | 0 <= j < n ensures vectors[j] in grown {
        assert vectors[j] == vectors[..n][j];
      }
      if vectors[n] !in grown {
        assert (grown + [vectors[n]])[..|archive|] == grown[..|archive|];
      }
    }
  }

  /** Offering vectors of the archive's width keeps every archive vector at that width. */
  lemma AppendNewWidth(archive: seq<Vector>, vectors: seq<Vector>, width: nat)
    requires AllWidth(archive, width) && AllWidth(vectors, width)
    ensures AllWidth(AppendNew(archive, vectors), width)
  {
    var r := AppendNew(archive, vectors);
    AppendNewGrowsWithoutDuplicates(archive, vectors);
    forall i | 0 <= i < |r| ensures |r[i]| == width {
      assert r[i] in r;
      if r[i] in archive {
        var j :| 0 <= j < |archive| && archive[j] == r[i];
      } else {
        var j :| 0 <= j < |vectors| && vectors[j] == r[i];
      }
    }
  }

  /** The generations at which the least, median and most novel buildings are shown. */
  predicate DiagnosticDue(generation: nat, generationsPerRun: nat) {
    generation % 100 == 0 || generation + 1 == generationsPerRun
  }

  /**
    A diagnostic is due at least once in every 100 consecutive generations,
    and always in the final generation of a run.
   */
  lemma DiagnosticSchedule(generation: nat, generationsPerRun: nat)
    ensures exists j :: generation <= j < generation + 100 && DiagnosticDue(j, generationsPerRun)
    ensures generationsPerRun >= 1 ==> DiagnosticDue(generationsPerRun - 1, generationsPerRun)
  {
    var j := if generation % 100 == 0 then generation else generation - generation % 100 + 100;
    assert generation <= j < generation + 100 && DiagnosticDue(j, generationsPerRun);
  }

  /** The least, median and most novel of a non-empty ranking. */
  function DiagnosticPicks(sortedKeys: seq<GenomeId>): (r: (GenomeId, GenomeId, GenomeId))
    requires sortedKeys != []
    ensures r.0 in sortedKeys && r.1 in sortedKeys && r.2 in sortedKeys
  {
    (sortedKeys[0], sortedKeys[|sortedKeys| / 2], sortedKeys[|sortedKeys| - 1])
  }

  /**
    On a ranking by ascending fitness, the diagnostic's first pick has the
    least fitness of all ranked genomes and its last the greatest; the
    middle pick has fitness at least that of the lower half of the ranking
    and at most that of the upper half.
   */
  lemma PicksOfRanking(sk: seq<GenomeId>, fitness: map<GenomeId, Score>)
    requires sk != []
    requires forall j :: 0 <= j < |sk| ==> sk[j] in fitness && fitness[sk[j]].Num?
    requires forall j, j' :: 0 <= j < j' < |sk| ==> fitness[sk[j]].value <= fitness[sk[j']].value
    ensures var picks := DiagnosticPicks(sk);
            && (forall j :: 0 <= j < |sk| ==> fitness[picks.0].value <= fitness[sk[j]].value <= fitness[picks.2].value)
            && (forall j :: 0 <= j <= |sk| / 2 ==> fitness[sk[j]].value <= fitness[picks.1].value)
            && (forall j :: |sk| / 2 <= j < |sk| ==> fitness[picks.1].value <= fitness[sk[j]].value)
  {
    var half := |sk| / 2;
    assert DiagnosticPicks(sk) == (sk[0], sk[half], sk[|sk| - 1]);
    forall j | 0 <= j < |sk|
      ensures fitness[sk[0]].value <= fitness[sk[j]].value <= fitness[sk[|sk| - 1]].value
      ensures j <= half ==> fitness[sk[j]].value <= fitness[sk[half]].value
      ensures half <= j ==> fitness[sk[half]].value <= fitness[sk[j]].value
    {
      if 0 < j { assert fitness[sk[0]].value <= fitness[sk[j]].value; }
      if j < |sk| - 1 { assert fitness[sk[j]].value <= fitness[sk[|sk| - 1]].value; }
      if j < half { assert fitness[sk[j]].value <= fitness[sk[half]].value; }
      if half < j { assert fitness[sk[half]].value <= fitness[sk[j]].value; }
    }
  }

  /** The diagnostic picks on `sorted_keys` are its least, median and most novel genomes. */
  lemma DiagnosticPicksByNovelty(ids: seq<GenomeId>, fitness: map<GenomeId, Score>)
    requires forall i :: 0 <= i < |ids| ==> ids[i] in fitness
    requires SortedKeys(ids, fitness) != []
    ensures var sk := SortedKeys(ids, fitness);
            var picks := DiagnosticPicks(sk);
            && (forall j :: 0 <= j < |sk| ==> sk[j] in fitness && fitness[sk[j]].Num?)
            && (forall j :: 0 <= j < |sk| ==> fitness[picks.0].value <= fitness[sk[j]].value <= fitness[picks.2].value)
            && (forall j :: 0 <= j <= |sk| / 2 ==> fitness[sk[j]].value <= fitness[picks.1].value)
            && (forall j :: |sk| / 2 <= j < |sk| ==> fitness[picks.1].value <= fitness[sk[j]].value)
  {
    SortedKeysAscendPositive(ids, fitness);
    PicksOfRanking(SortedKeys(ids, fitness), fitness);
  }

  // ---------------------------------------------------------------------------
  // Metrics and the outcome of a generation

  function Minimum(s: seq<nat>): (m: nat)
    requires s != []
    ensures m in s && forall i :: 0 <= i < |s| ==> m <= s[i]
  {
    if |s| == 1 then s[0]
    else
      var rest := Minimum(s[1..]);
      if s[0] <= rest then s[0] else rest
  }

  function Maximum(s: seq<nat>): (m: nat)
    requires s != []
    ensures m in s && forall i :: 0 <= i < |s| ==> s[i] <= m
  {
    if |s| == 1 then s[0]
    else
      var rest := Maximum(s[1..]);
      if s[0] >= rest then s[0] else rest
  }

  /**
    The metrics after one generation's entries: the archive size, the species
    count and the number of infeasible genomes, then the smallest and the
    largest species, which `np.min` cannot give for no species at all.
   */
  function Recorded(m: Metrics, archiveSize: nat, remove: nat, speciesSizes: seq<nat>): Metrics
  {
    var counted := m.(archiveSize := m.archiveSize + [archiveSize],
                      speciesCount := m.speciesCount + [|speciesSizes|],
                      infeasibleSize := m.infeasibleSize + [remove]);
    if speciesSizes == [] then counted
    else counted.(minSpeciesSize := m.minSpeciesSize + [Minimum(speciesSizes)],
                  maxSpeciesSize := m.maxSpeciesSize + [Maximum(speciesSizes)])
  }

  /** The series are in step: one entry per recorded generation, the species extrema lagging only after a failure. */
  predicate MetricsInStep(m: Metrics) {
    && |m.speciesCount| == |m.archiveSize|
    && |m.infeasibleSize| == |m.archiveSize|
    && |m.minSpeciesSize| == |m.maxSpeciesSize| <= |m.archiveSize|
  }

  /**
    Which exception ends a generation, checked in the order the steps run:
    the archive loop running past the ranking, the diagnostic on an empty
    ranking, the complexity averages over an empty population, the minimum
    of no species sizes, and the report of the best novelty of an empty
    ranking.
   */
  function GenerationOutcome(archiveShort: bool, diagnosticEmpty: bool, populationEmpty: bool,
                             speciesEmpty: bool, rankingEmpty: bool): (r: Option<Failure>)
    ensures r.None? <==> !archiveShort && !diagnosticEmpty && !populationEmpty && !speciesEmpty && !rankingEmpty
    ensures r == Some(ZeroDivisionError) ==> populationEmpty
    ensures r == Some(ValueError) ==> speciesEmpty
  {
    if archiveShort then Some(IndexError)
    else if diagnosticEmpty then Some(IndexError)
    else if populationEmpty then Some(ZeroDivisionError)
    else if speciesEmpty then Some(ValueError)
    else if rankingEmpty then Some(IndexError)
    else None
  }

  /**
    A generation completes exactly when at least one genome has a positive
    fitness, there is at least one species, and the archive loop asks for no
    more picks than the ranking holds.
   */
  lemma CompletesExactlyWhen(picks: nat, ranked: nat, populationSize: nat, species: nat, due: bool)
    requires ranked <= populationSize
    ensures GenerationOutcome(picks > ranked, due && ranked == 0, populationSize == 0, species == 0, ranked == 0).None?
            <==> picks <= ranked && ranked >= 1 && species >= 1
  {
  }

  /**
    The archive loop can only run past the ranking when at least two
    feasible genomes are missing from it (their fitness is 0 or NaN):
    it takes at most one fewer pick than there are feasible genomes.
   */
  lemma ArchiveLoopShortNeedsTwoUnranked(limit: nat, feasible: nat, ranked: nat)
    requires PickCount(limit, feasible) > ranked
    ensures ranked + 2 <= feasible
  {
  }
}
