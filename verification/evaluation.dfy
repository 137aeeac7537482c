/**
  The ranking step of the qualitative evaluation: every lattice of a stored
  population is encoded under a counter key, scored by `novelty_search2`
  against the whole encoded population (itself included), and the lattices
  are returned in ascending order of that score.

  `novelty_search2` differs from the generator's `novelty_search`: it skips
  no neighbour, so the candidate's own zero distance is in the list, and it
  averages the sorted distances at positions 1 to 5 (ranks two to six).
  The square root is the parameter `root`; rounding to two decimals is not
  modelled.
 */
module Evaluation {
  import opened Ranking
  import opened Novelty
  import opened Generation

  // ---------------------------------------------------------------------------
  // novelty_search2

  /** The score `novelty_search2` returns for `genome` against `population`. */
  function NoveltyScore2(root: real -> real, genome: Vector, population: seq<Vector>): Score
    requires SameDimension(genome, population)
  {
    Mean(Slice(Sort(Distances(root, genome, population, false)), 1, 6))
  }

  /**
    There is one distance per population vector, and the score averages the
    sorted distances ranked second to sixth (fewer when the population is
    smaller); it is NaN exactly when the population has at most one vector.
   */
  lemma NoveltyScore2Ranks(root: real -> real, genome: Vector, population: seq<Vector>)
    requires SameDimension(genome, population)
    ensures var ranked := Sort(Distances(root, genome, population, false));
            && |ranked| == |population|
            && (NoveltyScore2(root, genome, population).NaN? <==> |population| <= 1)
            && (|population| >= 2 ==> Slice(ranked, 1, 6) == ranked[1..Smaller(|population|, 6)])
  {
    var ds := Distances(root, genome, population, false);
    DistancesCount(root, genome, population, false);
    assert |Sort(ds)| == |ds| by {
      assert |multiset(Sort(ds))| == |multiset(ds)|;
    }
  }

  /** The score is never negative. */
  lemma NoveltyScore2NonNegative(root: real -> real, genome: Vector, population: seq<Vector>)
    requires SqrtLike(root) && SameDimension(genome, population)
    ensures NoveltyScore2(root, genome, population).Num? ==> NoveltyScore2(root, genome, population).value >= 0.0
  {
    DistancesNonNegative(root, genome, population, false);
    SliceOfSortNonNegative(Distances(root, genome, population, false), 1, 6);
  }

  /** The score does not depend on the order in which the population lists its vectors. */
  lemma NoveltyScore2OrderIndependent(root: real -> real, genome: Vector, population: seq<Vector>, population': seq<Vector>)
    requires SameDimension(genome, population) && multiset(population) == multiset(population')
    ensures SameDimension(genome, population')
    ensures NoveltyScore2(root, genome, population) == NoveltyScore2(root, genome, population')
  {
    DistancesPermutation(root, genome, population, population', false);
    SortDependsOnElementsOnly(Distances(root, genome, population, false), Distances(root, genome, population', false));
  }

  /**
    When the genome's own vector is in the population once and no other
    vector equals it, its zero self-distance takes rank one, and the score is
    the generator's novelty score over the other vectors with k = 5.
   */
  lemma SelfEntryRankedFirst(root: real -> real, genome: Vector, population: seq<Vector>, i: nat)
    requires SqrtLike(root) && SameDimension(genome, population)
    requires i < |population| && population[i] == genome && multiset(population)[genome] == 1
    ensures SameDimension(genome, population[..i] + population[i + 1..])
    ensures NoveltyScore2(root, genome, population) == NoveltyScore(root, 5, genome, population[..i] + population[i + 1..], [])
  {
    var others := population[..i] + population[i + 1..];
    SelfDistanceFirst(root, genome, population, i);
    SliceBehindHead(0.0, Sort(Distances(root, genome, others, false)), 5);
    OnlyCopyRemoved(population, i);
    assert others + [] == others;
    DistancesSkipNothing(root, genome, others);
  }

  /** Taking out the only copy of an element leaves none. */
  lemma OnlyCopyRemoved<T>(s: seq<T>, i: nat)
    requires i < |s| && multiset(s)[s[i]] == 1
    ensures s[i] !in s[..i] + s[i + 1..]
  {
    var before, after := s[..i], s[i + 1..];
    assert s == before + [s[i]] + after;
    assert multiset(s) == multiset(before) + multiset{s[i]} + multiset(after);
    assert multiset(before + after) == multiset(before) + multiset(after);
    assert multiset(before + after)[s[i]] == 0;
  }

  /** The genome's zero distance to its own entry sorts in front of the distances to the other vectors. */
  lemma SelfDistanceFirst(root: real -> real, genome: Vector, population: seq<Vector>, i: nat)
    requires SqrtLike(root) && SameDimension(genome, population)
    requires i < |population| && population[i] == genome
    ensures SameDimension(genome, population[..i] + population[i + 1..])
    ensures Sort(Distances(root, genome, population, false))
         == [0.0] + Sort(Distances(root, genome, population[..i] + population[i + 1..], false))
  {
    var others := population[..i] + population[i + 1..];
    SelfDistanceSplit(root, genome, population, i);
    DistancesNonNegative(root, genome, others, false);
    SortLeastFirst(0.0, Distances(root, genome, others, false), Distances(root, genome, population, false));
  }

  /** The distances to the population are those to the other vectors and one zero. */
  lemma SelfDistanceSplit(root: real -> real, genome: Vector, population: seq<Vector>, i: nat)
    requires SqrtLike(root) && SameDimension(genome, population)
    requires i < |population| && population[i] == genome
    ensures SameDimension(genome, population[..i] + population[i + 1..])
    ensures multiset(Distances(root, genome, population, false))
         == multiset(Distances(root, genome, population[..i] + population[i + 1..], false)) + multiset{0.0}
  {
    DistancesRemoveAt(root, genome, population, i, false);
    assert Distances(root, genome, [genome], false) == [0.0] by {
      assert [genome][..0] == [];
      SquaredDistanceBasics(genome, genome);
    }
  }

  /** The Python slice `([x] + s)[1:k + 1]` is `s[:k]`. */
  lemma SliceBehindHead<T>(x: T, s: seq<T>, k: nat)
    ensures Slice([x] + s, 1, k + 1) == Take(s, k)
  {
    var a, b := Slice([x] + s, 1, k + 1), Take(s, k);
    assert |a| == |b|;
    forall j | 0 <= j < |a| ensures a[j] == b[j] {
      assert a[j] == ([x] + s)[1 + j] == s[j];
    }
  }

  /**
    `novelty_search2`: the distance to every population vector in turn, each
    a square root of summed squared differences, then the mean of the
    sorted distances at positions 1 to 5.
   */
  method NoveltySearch2(root: real -> real, genome: Vector, population: seq<Vector>) returns (score: Score)
    requires SameDimension(genome, population)
    ensures score == NoveltyScore2(root, genome, population)
  {
    var distances: seq<real> := [];
    for i := 0 to |population|
      invariant SameDimension(genome, population[..i])
      invariant distances == Distances(root, genome, population[..i], false)
    {
      var neighbour := population[i];
      assert population[..i + 1] == population[..i] + [neighbour];
      var distance := SumOfSquares(genome, neighbour);
      distances := distances + [root(distance)];
    }
    assert population[..|population|] == population;
    score := Mean(Slice(Sort(distances), 1, 6));
  }

  // ---------------------------------------------------------------------------
  // Counter-keyed stores: compress_lattice

  /** `f` applied to every element, in order. */
  function Apply<A, B>(f: A -> B, s: seq<A>): (r: seq<B>)
    ensures |r| == |s|
  {
    seq(|s|, i requires 0 <= i < |s| => f(s[i]))
  }

  /** The dictionary that stores `s[i]` under key `i`. */
  function Indexed<T>(s: seq<T>): (r: map<nat, T>)
    ensures forall key: nat :: key in r <==> key < |s|
  {
    map i: nat | i < |s| :: s[i]
  }

  /** `list(d.values())` for a dictionary whose keys were inserted as 0, 1, ..., n - 1. */
  function ValuesInOrder<T>(d: map<nat, T>, n: nat): (r: seq<T>)
    requires forall key: nat :: key < n ==> key in d
    ensures |r| == n
  {
    seq(n, i requires 0 <= i < n => d[i])
  }

  /** The two dictionaries `process_population` fills while it walks the population. */
  class PopulationStore {
    /** The integer lattice stored under each counter value. */
    var original: map<nat, Lattice>
    /** The encoder's latent vector stored under each counter value. */
    var compressed: map<nat, Vector>

    constructor ()
      ensures original == map[] && compressed == map[]
    {
      original := map[];
      compressed := map[];
    }

    /**
      `compress_lattice`: stores the integer form of `lattice` and its
      encoding under `counter`, and returns the next counter value.
     */
    method CompressLattice<Raw(!new)>(encoder: Raw -> Vector, toInteger: Raw -> Lattice, lattice: Raw, counter: nat)
      returns (next: nat)
      modifies this
      ensures original == old(original)[counter := toInteger(lattice)]
      ensures compressed == old(compressed)[counter := encoder(lattice)]
      ensures next == counter + 1
    {
      original := original[counter := toInteger(lattice)];
      compressed := compressed[counter := encoder(lattice)];
      next := counter + 1;
    }
  }

  /** Storing one more element under the next key. */
  lemma IndexedStep<A, B>(f: A -> B, s: seq<A>, i: nat)
    requires i < |s|
    ensures Indexed(Apply(f, s[..i + 1])) == Indexed(Apply(f, s[..i]))[i := f(s[i])]
  {
    var grown, stored := Indexed(Apply(f, s[..i + 1])), Indexed(Apply(f, s[..i]))[i := f(s[i])];
    assert grown.Keys == stored.Keys;
  }

  /**
    The loop of `process_population` over the population: after it, both
    dictionaries have exactly the keys 0 to n - 1, and key i holds the
    integer form and the encoding of the i-th lattice.
   */
  method CompressPopulation<Raw(!new)>(encoder: Raw -> Vector, toInteger: Raw -> Lattice, data: seq<Raw>)
    returns (store: PopulationStore, counter: nat)
    ensures fresh(store)
    ensures counter == |data|
    ensures forall key: nat :: key in store.original <==> key < |data|
    ensures forall key: nat :: key in store.compressed <==> key < |data|
    ensures store.original == Indexed(Apply(toInteger, data))
    ensures store.compressed == Indexed(Apply(encoder, data))
  {
    store := new PopulationStore();
    counter := 0;
    for i := 0 to |data|
      invariant counter == i
      invariant store.original == Indexed(Apply(toInteger, data[..i]))
      invariant store.compressed == Indexed(Apply(encoder, data[..i]))
    {
      counter := store.CompressLattice(encoder, toInteger, data[i], counter);
      IndexedStep(toInteger, data, i);
      IndexedStep(encoder, data, i);
    }
    assert data[..|data|] == data;
  }

  // ---------------------------------------------------------------------------
  // compute_fitness

  /** The fitness table `compute_fitness` builds: key i scored against every vector, in key order. */
  function FitnessTable(root: real -> real, vectors: seq<Vector>, ghost width: nat): (r: seq<(nat, Score)>)
    requires AllWidth(vectors, width)
    ensures |r| == |vectors|
  {
    seq(|vectors|, i requires 0 <= i < |vectors| => (i as nat, NoveltyScore2(root, vectors[i], vectors)))
  }

  /**
    `compute_fitness`: scores the vector under each key against all the
    stored vectors, in key order (the pool's jobs are collected in the order
    they were submitted).
   */
  method ComputeFitness(root: real -> real, compressed: map<nat, Vector>, n: nat, ghost width: nat)
    returns (fitness: seq<(nat, Score)>)
    requires forall key: nat :: key in compressed <==> key < n
    requires forall key: nat :: key in compressed ==> |compressed[key]| == width
    ensures fitness == FitnessTable(root, ValuesInOrder(compressed, n), width)
  {
    var population := ValuesInOrder(compressed, n);
    fitness := [];
    for key := 0 to n
      invariant fitness == FitnessTable(root, population, width)[..key]
    {
      var score := NoveltySearch2(root, compressed[key], population);
      fitness := fitness + [(key, score)];
    }
  }

  /**
    The table has one entry per vector, keyed 0 to n - 1 in order; with at
    least two vectors every score is a number, and it is never negative.
   */
  lemma FitnessTableScores(root: real -> real, vectors: seq<Vector>, width: nat)
    requires SqrtLike(root) && AllWidth(vectors, width)
    ensures var table := FitnessTable(root, vectors, width);
            && |table| == |vectors|
            && (forall i :: 0 <= i < |table| ==> table[i].0 == i)
            && (|vectors| >= 2 ==> forall i :: 0 <= i < |table| ==> table[i].1.Num? && table[i].1.value >= 0.0)
            && (|vectors| == 1 ==> table[0].1.NaN?)
  {
    var table := FitnessTable(root, vectors, width);
    forall i | 0 <= i < |table|
      ensures table[i].1.NaN? <==> |vectors| <= 1
      ensures table[i].1.Num? ==> table[i].1.value >= 0.0
    {
      NoveltyScore2Ranks(root, vectors[i], vectors);
      NoveltyScore2NonNegative(root, vectors[i], vectors);
    }
  }

  // ---------------------------------------------------------------------------
  // sort_lattices

  /**
    What `sort_lattices` produces: the lattices in ascending order of
    fitness, or a `KeyError` when a fitness key has no stored lattice. A
    NaN score among two or more entries leaves Python's order unspecified,
    which the model reports instead of guessing.
   */
  datatype SortOutcome = Ordered(lattices: seq<Lattice>) | KeyError | UnorderedByNaN

  /** The table's scores as numbers; NaN becomes 0.0, which is used only when the table has at most one entry. */
  function Numeric(fitness: seq<(nat, Score)>): (r: seq<(nat, real)>)
    ensures |r| == |fitness|
  {
    seq(|fitness|, i requires 0 <= i < |fitness| => (fitness[i].0, if fitness[i].1.Num? then fitness[i].1.value else 0.0))
  }

  /** `sorted(fitness.items(), key=lambda item: item[1])`. */
  function Ranked(fitness: seq<(nat, Score)>): seq<(nat, real)>
  {
    SortByValue(Numeric(fitness))
  }

  predicate AllStored(fitness: seq<(nat, Score)>, original: map<nat, Lattice>) {
    forall i :: 0 <= i < |fitness| ==> fitness[i].0 in original
  }

  predicate HasNaN(fitness: seq<(nat, Score)>) {
    exists i :: 0 <= i < |fitness| && fitness[i].1.NaN?
  }

  /** The stored lattices of the table's keys, in table order. */
  function StoredFor(fitness: seq<(nat, Score)>, original: map<nat, Lattice>): (r: seq<Lattice>)
    requires AllStored(fitness, original)
    ensures |r| == |fitness|
  {
    seq(|fitness|, i requires 0 <= i < |fitness| => original[fitness[i].0])
  }

  /** Every entry of the ranking is an entry of the table. */
  lemma RankedFromTable(fitness: seq<(nat, Score)>)
    ensures |Ranked(fitness)| == |fitness|
    ensures forall j :: 0 <= j < |fitness| ==> Ranked(fitness)[j] in Numeric(fitness)
  {
    SortByValueKeepsEntries(Numeric(fitness));
  }

  lemma RankedKeysStored(fitness: seq<(nat, Score)>, original: map<nat, Lattice>)
    requires AllStored(fitness, original)
    ensures |Ranked(fitness)| == |fitness|
    ensures forall j :: 0 <= j < |fitness| ==> Ranked(fitness)[j].0 in original
  {
    RankedFromTable(fitness);
    forall j | 0 <= j < |fitness| ensures Ranked(fitness)[j].0 in original {
      var i :| 0 <= i < |fitness| && Numeric(fitness)[i] == Ranked(fitness)[j];
    }
  }

  /**
    `sort_lattices`: the fitness keys by ascending fitness, then the stored
    lattice of each. A key without a stored lattice raises KeyError; with
    every key stored, a NaN among two or more scores leaves the order
    undefined; otherwise there is one stored lattice per entry.
   */
  function SortLattices(fitness: seq<(nat, Score)>, original: map<nat, Lattice>): (r: SortOutcome)
    ensures r.KeyError? <==> exists i :: 0 <= i < |fitness| && fitness[i].0 !in original
    ensures r.UnorderedByNaN? <==> && (forall i :: 0 <= i < |fitness| ==> fitness[i].0 in original)
                                   && |fitness| > 1
                                   && exists i :: 0 <= i < |fitness| && fitness[i].1.NaN?
    ensures r.Ordered? ==> |r.lattices| == |fitness| && forall j :: 0 <= j < |r.lattices| ==> r.lattices[j] in original.Values
  {
    if !AllStored(fitness, original) then KeyError
    else if |fitness| > 1 && HasNaN(fitness) then UnorderedByNaN
    else
      var order := Ranked(fitness);
      RankedKeysStored(fitness, original);
      Ordered(seq(|order|, j requires 0 <= j < |order| => original[order[j].0]))
  }

  /** A rearranged list maps to a rearranged list. */
  lemma {:induction false} ApplyPermutation<A, B>(f: A -> B, s: seq<A>, t: seq<A>)
    requires multiset(s) == multiset(t)
    ensures multiset(Apply(f, s)) == multiset(Apply(f, t))
    decreases |s|
  {
    if s == [] {
      assert |t| == |multiset(t)| == 0;
    } else {
      var n := |s| - 1;
      assert s[n] in multiset(t);
      var i :| 0 <= i < |t| && t[i] == s[n];
      PermutationStep(s, t, i);
      ApplyPermutation(f, s[..n], t[..i] + t[i + 1..]);
      assert Apply(f, s) == Apply(f, s[..n]) + [f(s[n])];
      assert Apply(f, t) == Apply(f, t[..i]) + [f(t[i])] + Apply(f, t[i + 1..]);
      assert Apply(f, t[..i] + t[i + 1..]) == Apply(f, t[..i]) + Apply(f, t[i + 1..]);
    }
  }

  /**
    When every key has a stored lattice (and no NaN makes the order
    undefined), `sort_lattices` returns one lattice per fitness entry,
    together a rearrangement of the stored lattices of the keys.
   */
  lemma SortLatticesPermutes(fitness: seq<(nat, Score)>, original: map<nat, Lattice>)
    requires AllStored(fitness, original) && (|fitness| <= 1 || !HasNaN(fitness))
    ensures SortLattices(fitness, original).Ordered?
    ensures |SortLattices(fitness, original).lattices| == |fitness|
    ensures multiset(SortLattices(fitness, original).lattices) == multiset(StoredFor(fitness, original))
  {
    var order := Ranked(fitness);
    RankedKeysStored(fitness, original);
    var lookup := (e: (nat, real)) => if e.0 in original then original[e.0] else [];
    ApplyPermutation(lookup, order, Numeric(fitness));
    assert SortLattices(fitness, original).lattices == Apply(lookup, order);
    assert StoredFor(fitness, original) == Apply(lookup, Numeric(fitness));
  }

  /**
    The j-th lattice returned is the stored lattice of the j-th entry of the
    ranking, and the ranking lists the table's entries by non-decreasing
    fitness.
   */
  lemma SortLatticesAscending(fitness: seq<(nat, Score)>, original: map<nat, Lattice>)
    requires AllStored(fitness, original) && (|fitness| <= 1 || !HasNaN(fitness))
    ensures SortLattices(fitness, original).Ordered?
    ensures var lattices, order := SortLattices(fitness, original).lattices, Ranked(fitness);
            && |lattices| == |order| == |fitness|
            && (forall j :: 0 <= j < |order| ==> order[j] in Numeric(fitness) && lattices[j] == original[order[j].0])
            && (forall j, j' :: 0 <= j < j' < |order| ==> order[j].1 <= order[j'].1)
  {
    RankedFromTable(fitness);
    RankedKeysStored(fitness, original);
  }

  // ---------------------------------------------------------------------------
  // process_population

  /** The encodings of the population's lattices, in order; all of the encoder's width. */
  function Encodings<Raw(!new)>(encoder: Raw -> Vector, data: seq<Raw>, ghost width: nat): (r: seq<Vector>)
    requires FixedWidth(encoder, width)
    ensures AllWidth(r, width)
  {
    var vectors := Apply(encoder, data);
    assert AllWidth(vectors, width) by {
      forall i | 0 <= i < |vectors| ensures |vectors[i]| == width {
        assert OutputWidth(encoder, data[i]) == width;
      }
    }
    vectors
  }

  /** What `process_population` returns for a population. */
  function ProcessedPopulation<Raw(!new)>(root: real -> real, encoder: Raw -> Vector, toInteger: Raw -> Lattice,
                                    data: seq<Raw>, ghost width: nat): SortOutcome
    requires FixedWidth(encoder, width)
  {
    SortLattices(FitnessTable(root, Encodings(encoder, data, width), width), Indexed(Apply(toInteger, data)))
  }

  /**
    `process_population`: stores and encodes every lattice under a counter
    key, scores each against the whole encoded population, and sorts the
    stored integer lattices by that score.
   */
  method ProcessPopulation<Raw(!new)>(root: real -> real, encoder: Raw -> Vector, toInteger: Raw -> Lattice,
                                data: seq<Raw>, ghost width: nat)
    returns (sorted: SortOutcome)
    requires FixedWidth(encoder, width)
    ensures sorted == ProcessedPopulation(root, encoder, toInteger, data, width)
  {
    var store, counter := CompressPopulation(encoder, toInteger, data);
    forall key | key in store.compressed ensures |store.compressed[key]| == width {
      assert OutputWidth(encoder, data[key]) == width;
    }
    var fitness := ComputeFitness(root, store.compressed, counter, width);
    assert ValuesInOrder(store.compressed, counter) == Encodings(encoder, data, width);
    sorted := SortLattices(fitness, store.original);
  }

  /**
    Every lattice of the population comes back exactly once, as its integer
    form, ordered by ascending novelty score.
   */
  lemma ProcessedPopulationSorted<Raw(!new)>(root: real -> real, encoder: Raw -> Vector, toInteger: Raw -> Lattice,
                                       data: seq<Raw>, width: nat)
    requires SqrtLike(root) && FixedWidth(encoder, width)
    ensures ProcessedPopulation(root, encoder, toInteger, data, width).Ordered?
    ensures var lattices := ProcessedPopulation(root, encoder, toInteger, data, width).lattices;
            && |lattices| == |data|
            && multiset(lattices) == multiset(Apply(toInteger, data))
  {
    var fitness, original := FitnessTable(root, Encodings(encoder, data, width), width), Indexed(Apply(toInteger, data));
    FitnessTableSortable(root, Encodings(encoder, data, width), width, Apply(toInteger, data));
    SortLatticesPermutes(fitness, original);
    assert StoredFor(fitness, original) == Apply(toInteger, data);
  }

  /**
    With at least two lattices, the j-th lattice returned is the integer form
    of some population lattice whose score is the j-th of the ranking, and
    the ranking's scores do not decrease.
   */
  lemma ProcessedPopulationAscending<Raw(!new)>(root: real -> real, encoder: Raw -> Vector, toInteger: Raw -> Lattice,
                                                data: seq<Raw>, width: nat)
    requires SqrtLike(root) && FixedWidth(encoder, width) && |data| >= 2
    ensures ProcessedPopulation(root, encoder, toInteger, data, width).Ordered?
    ensures var lattices := ProcessedPopulation(root, encoder, toInteger, data, width).lattices;
            var vectors := Encodings(encoder, data, width);
            var order := Ranked(FitnessTable(root, vectors, width));
            && |order| == |lattices| == |data|
            && (forall j :: 0 <= j < |order| ==>
                  && order[j].0 < |data|
                  && lattices[j] == toInteger(data[order[j].0])
                  && NoveltyScore2(root, vectors[order[j].0], vectors) == Num(order[j].1))
            && (forall j, j' :: 0 <= j < j' < |order| ==> order[j].1 <= order[j'].1)
  {
    var vectors := Encodings(encoder, data, width);
    var fitness, original := FitnessTable(root, vectors, width), Indexed(Apply(toInteger, data));
    FitnessTableSortable(root, vectors, width, Apply(toInteger, data));
    FitnessTableScores(root, vectors, width);
    SortLatticesAscending(fitness, original);
    var order := Ranked(fitness);
    forall j | 0 <= j < |order|
      ensures order[j].0 < |data| && NoveltyScore2(root, vectors[order[j].0], vectors) == Num(order[j].1)
    {
      var i :| 0 <= i < |fitness| && Numeric(fitness)[i] == order[j];
      assert fitness[i].1.Num?;
    }
  }

  /** The fitness table of n vectors has a stored lattice for every key and, unless n <= 1, no NaN. */
  lemma FitnessTableSortable(root: real -> real, vectors: seq<Vector>, width: nat, lattices: seq<Lattice>)
    requires SqrtLike(root) && AllWidth(vectors, width) && |lattices| == |vectors|
    ensures AllStored(FitnessTable(root, vectors, width), Indexed(lattices))
    ensures |vectors| <= 1 || !HasNaN(FitnessTable(root, vectors, width))
  {
    FitnessTableScores(root, vectors, width);
  }
}
