/**
  The NEAT side of the pipeline: a `NeatGenerator` keeps one population of
  genomes, their fitness, the novelty archive (latent vectors and the
  lattices they came from), the best-fit buildings of the current phase,
  the per-generation metrics and the compatibility threshold of the
  speciation. `StartPhase` and `FinishPhase` are the bookkeeping of
  `run_neat` around the evolutionary run; `RunOneGeneration` is the fitness
  function NEAT calls once per generation.
 */
module NeatGeneration {
  import opened Ranking
  import opened Novelty
  import opened Speciation
  import opened Generation

  /** Experiment parameters read from the configuration module. */
  datatype Settings = Settings(kNearest: nat, addToArchive: nat, bestFitCount: nat,
                               generationsPerRun: nat, targetSpeciesCount: nat)

  /** The saved encoder a phase starts from. */
  datatype ModelSource = PhaseModel(phase: nat) | SeedModel | NoisySeedModel

  /**
    The loop of the archive step on values: the first `limit - 1` genomes
    from the top of the ranking (at most one fewer than there are lattices)
    have their lattices appended to `kept` and their encodings offered to
    `grown`. Running past the start of the ranking stops the loop, as the
    IndexError of `sorted_keys[-individual]` does.
   */
  method ArchivePicks(encoder: Encoder, lattices: map<GenomeId, Lattice>, sortedKeys: seq<GenomeId>, limit: nat,
                      archiveLattices: seq<Lattice>, archive: seq<Vector>)
    returns (short: bool, kept: seq<Lattice>, grown: seq<Vector>)
    requires forall j :: 0 <= j < |sortedKeys| ==> sortedKeys[j] in lattices
    ensures var count := PickCount(limit, |lattices|);
            var picked := TopLattices(lattices, sortedKeys, Smaller(count, |sortedKeys|));
            && short == (count > |sortedKeys|)
            && kept == archiveLattices + picked
            && grown == AppendNew(archive, Encode(encoder, picked))
  {
    var stop := Smaller(limit, |lattices|);
    ghost var count := PickCount(limit, |lattices|);
    ghost var picked: seq<Lattice> := [];
    kept, grown := archiveLattices, archive;
    short := false;
    for individual := 1 to if stop >= 1 then stop else 1
      invariant individual - 1 <= |sortedKeys| && |picked| == individual - 1
      invariant picked == TopLattices(lattices, sortedKeys, individual - 1)
      invariant kept == archiveLattices + picked
      invariant grown == AppendNew(archive, Encode(encoder, picked))
    {
      if individual > |sortedKeys| {
        // `sorted_keys[-individual]` raises IndexError
        short := true;
        break;
      }
      var lattice := lattices[sortedKeys[|sortedKeys| - individual]];
      PickStep(encoder, lattices, sortedKeys, archive, picked, individual - 1);
      grown := Offer(grown, encoder(lattice));
      kept := kept + [lattice];
      picked := picked + [lattice];
    }
    assert |picked| == Smaller(count, |sortedKeys|);
  }

  /**
    The loop of the cull on values: walking the population with what
    `generate_lattice` gave each genome, an infeasible genome is deleted
    from the population dictionary, its fitness set to 0 and counted; a
    feasible one has its lattice collected.
   */
  method CullEntries(ids: seq<GenomeId>, generated: seq<Generated>, fitness: map<GenomeId, Score>)
    returns (remaining: seq<GenomeId>, scores: map<GenomeId, Score>, lattices: map<GenomeId, Lattice>, remove: nat)
    requires |generated| == |ids|
    ensures remaining == Feasible(ids, generated)
    ensures scores == ZeroCulled(fitness, ids, generated)
    ensures lattices == LatticeMap(ids, generated)
    ensures remove == InfeasibleCount(generated)
  {
    var kept: seq<GenomeId> := [];
    remaining, scores, lattices, remove := ids, fitness, map[], 0;
    for i := 0 to |ids|
      invariant kept == Feasible(ids[..i], generated[..i])
      invariant remaining == kept + ids[i..]
      invariant scores == ZeroCulled(fitness, ids[..i], generated[..i])
      invariant lattices == LatticeMap(ids[..i], generated[..i])
      invariant remove == InfeasibleCount(generated[..i])
    {
      CullStep(ids, generated, fitness, i);
      if !generated[i].feasible {
        // the deleted genome's entry comes right after the genomes kept so far
        DropNext(kept, ids, i);
        remaining := remaining[..|kept|] + remaining[|kept| + 1..];
        scores := scores[ids[i] := Num(0.0)];
        remove := remove + 1;
      } else {
        lattices := lattices[ids[i] := generated[i].lattice];
        KeepNext(kept, ids, i);
        kept := kept + [ids[i]];
      }
    }
    assert ids[..|ids|] == ids && generated[..|generated|] == generated;
  }

  /** Deleting the entry right after `kept` from `kept + ids[i..]` leaves `kept + ids[i + 1..]`. */
  lemma DropNext(kept: seq<GenomeId>, ids: seq<GenomeId>, i: nat)
    requires i < |ids|
    ensures var remaining := kept + ids[i..];
            remaining[..|kept|] + remaining[|kept| + 1..] == kept + ids[i + 1..]
  {
    var remaining := kept + ids[i..];
    assert remaining[..|kept|] == kept && remaining[|kept| + 1..] == ids[i + 1..];
  }

  /** Moving the entry right after `kept` into `kept` leaves the sequence as it was. */
  lemma KeepNext(kept: seq<GenomeId>, ids: seq<GenomeId>, i: nat)
    requires i < |ids|
    ensures kept + ids[i..] == (kept + [ids[i]]) + ids[i + 1..]
  {
    assert ids[i..] == [ids[i]] + ids[i + 1..];
  }

  /**
    The novelty loop on values: each genome in turn gets as fitness the
    novelty of its latent vector among the population's vectors and the
    archive.
   */
  method ScoreEntries(root: real -> real, k: nat, ids: seq<GenomeId>, vectors: seq<Vector>, archive: seq<Vector>,
                      ghost width: nat, fitness: map<GenomeId, Score>)
    returns (scored: map<GenomeId, Score>)
    requires |ids| == |vectors| && AllWidth(vectors + archive, width)
    ensures scored == Scored(fitness, ids, NoveltyScores(root, k, vectors, archive, width))
  {
    ghost var scores := NoveltyScores(root, k, vectors, archive, width);
    scored := fitness;
    for i := 0 to |ids|
      invariant scored == Scored(fitness, ids[..i], scores[..i])
    {
      ScoredStep(fitness, ids, scores, i);
      var score := NoveltySearch(root, k, vectors[i], vectors, archive);
      scored := scored[ids[i] := score];
    }
    assert ids[..|ids|] == ids && scores[..|scores|] == scores;
  }

  /**
    A phase after the first loads the encoder trained at the end of the
    previous phase, unless the experiment is static; otherwise it loads the
    seed encoder, the de-noising one when noise is on.
   */
  function EncoderChoice(phase: nat, staticModel: bool, noise: bool): (r: ModelSource)
    ensures r.PhaseModel? <==> phase > 0 && !staticModel
    ensures r.PhaseModel? ==> r.phase + 1 == phase
    ensures r == NoisySeedModel <==> (phase == 0 || staticModel) && noise
  {
    if phase > 0 && !staticModel then PhaseModel(phase - 1)
    else if !noise then SeedModel
    else NoisySeedModel
  }

  /**
    What the evaluation half of a generation leaves behind: every surviving
    genome `population` has a lattice among those `generated` for the
    genomes `ids`, the compressed lattices share the archive's width, and
    `fitness` is `before` with the culled genomes at 0 and each survivor
    scored by its novelty against the others and the `archive`.
   */
  ghost predicate Evaluated(root: real -> real, k: nat, encoder: Encoder, noise: bool, addNoise: Lattice -> Lattice,
                            width: nat, before: map<GenomeId, Score>, ids: seq<GenomeId>, generated: seq<Generated>,
                            population: seq<GenomeId>, fitness: map<GenomeId, Score>, archive: seq<Vector>)
  {
    && |ids| == |generated|
    && (forall i :: 0 <= i < |population| ==> population[i] in LatticeMap(ids, generated))
    && var vectors := Compressed(encoder, noise, addNoise, LatticeMap(ids, generated), population);
       && AllWidth(vectors + archive, width)
       && fitness == Scored(ZeroCulled(before, ids, generated), population,
                            NoveltyScores(root, k, vectors, archive, width))
  }

  lemma EvaluatedFrom(root: real -> real, k: nat, encoder: Encoder, noise: bool, addNoise: Lattice -> Lattice,
                      width: nat, before: map<GenomeId, Score>, ids: seq<GenomeId>, generated: seq<Generated>,
                      population: seq<GenomeId>, fitness: map<GenomeId, Score>, archive: seq<Vector>,
                      lattices: map<GenomeId, Lattice>)
    requires |ids| == |generated| && lattices == LatticeMap(ids, generated)
    requires forall i :: 0 <= i < |population| ==> population[i] in lattices
    requires AllWidth(Compressed(encoder, noise, addNoise, lattices, population) + archive, width)
    requires fitness == Scored(ZeroCulled(before, ids, generated), population,
                               NoveltyScores(root, k, Compressed(encoder, noise, addNoise, lattices, population),
                                             archive, width))
    ensures Evaluated(root, k, encoder, noise, addNoise, width, before, ids, generated, population, fitness, archive)
  {
  }

  /**
    What the report of generation `gen` shows and records, given the
    ranking `sk` and whether the archive step got that far (`reached`):
    the least, median and most novel lattices on a diagnostic generation
    with a non-empty ranking; the top `bestFitCount` lattices appended to
    the phase's best fit on its last generation; and one more entry per
    metric when the population is not empty. The IndexError of an empty
    ranking on a diagnostic generation stops before anything is recorded.
   */
  ghost predicate Reported(settings: Settings, lattices: map<GenomeId, Lattice>, sk: seq<GenomeId>, gen: nat,
                           reached: bool, populated: bool, archiveSize: nat, remove: nat, speciesSizes: seq<nat>,
                           shown: Option<(Lattice, Lattice, Lattice)>,
                           bestBefore: seq<Lattice>, best: seq<Lattice>, metricsBefore: Metrics, metrics: Metrics)
  {
    && (forall j :: 0 <= j < |sk| ==> sk[j] in lattices)
    && var due := DiagnosticDue(gen, settings.generationsPerRun);
       var recorded := reached && !(due && |sk| == 0);
       && shown == (if reached && due && |sk| > 0
                    then Some((lattices[sk[0]], lattices[sk[|sk| / 2]], lattices[sk[|sk| - 1]]))
                    else None)
       && best == (if recorded && gen + 1 == settings.generationsPerRun
                   then bestBefore + TopLattices(lattices, sk, PickCount(settings.bestFitCount, |sk|))
                   else bestBefore)
       && metrics == (if recorded && populated
                      then Recorded(metricsBefore, archiveSize, remove, speciesSizes)
                      else metricsBefore)
  }

  /** A generation stopped before its report shows and records nothing. */
  lemma NothingReported(settings: Settings, lattices: map<GenomeId, Lattice>, sk: seq<GenomeId>, gen: nat,
                        populated: bool, archiveSize: nat, remove: nat, speciesSizes: seq<nat>,
                        best: seq<Lattice>, metrics: Metrics)
    requires forall j :: 0 <= j < |sk| ==> sk[j] in lattices
    ensures Reported(settings, lattices, sk, gen, false, populated, archiveSize, remove, speciesSizes,
                     None, best, best, metrics, metrics)
  {
  }

  class NeatGenerator {
    const settings: Settings
    /** numpy's square root, as used by the distance. */
    const root: real -> real

    /** The keys of the NEAT population dictionary, in dictionary order. */
    var population: seq<GenomeId>
    /** The `fitness` attribute of each genome that has one. */
    var fitness: map<GenomeId, Score>
    var archive: seq<Vector>
    var archiveLattices: seq<Lattice>
    var phaseBestFit: seq<Lattice>
    var metrics: Metrics
    var currentGen: nat
    var currentPhase: nat
    var compatibilityThreshold: real
    var encoder: Option<Encoder>
    var noise: bool
    /** The output width of the loaded encoder. */
    ghost var width: nat

    ghost predicate Valid()
      reads this
    {
      && SqrtLike(root)
      && Distinct(population)
      && MetricsInStep(metrics)
      && (encoder.Some? ==> FixedWidth(encoder.value, width) && AllWidth(archive, width))
    }

    /** `__init__`: a fresh population and empty archives, metrics and phase state. */
    constructor (settings: Settings, root: real -> real, population: seq<GenomeId>, threshold: real)
      requires SqrtLike(root) && Distinct(population)
      ensures Valid()
      ensures this.settings == settings && this.root == root
      ensures this.population == population && fitness == map[] && compatibilityThreshold == threshold
      ensures archive == [] && archiveLattices == [] && phaseBestFit == [] && metrics == NoMetrics
      ensures currentGen == 0 && currentPhase == 0 && encoder == None && !noise
    {
      this.settings := settings;
      this.root := root;
      new;
      Reset(population, threshold);
    }

    /** The state `__init__` sets up, for a new population and the configured threshold. */
    method Reset(freshPopulation: seq<GenomeId>, threshold: real)
      requires SqrtLike(root) && Distinct(freshPopulation)
      modifies this
      ensures Valid()
      ensures population == freshPopulation && fitness == map[] && compatibilityThreshold == threshold
      ensures archive == [] && archiveLattices == [] && phaseBestFit == [] && metrics == NoMetrics
      ensures currentGen == 0 && currentPhase == 0 && encoder == None && !noise
    {
      population := freshPopulation;
      fitness := map[];
      archive := [];
      archiveLattices := [];
      phaseBestFit := [];
      metrics := NoMetrics;
      currentGen := 0;
      currentPhase := 0;
      compatibilityThreshold := threshold;
      encoder := None;
      noise := false;
    }

    /**
      The start of `run_neat`: optionally forget the archive, start over
      completely in phase 0, reset the phase state, load the phase's encoder
      and re-encode every archived lattice with it.
     */
    method StartPhase(phase: nat, persistentArchive: bool, staticModel: bool, useNoise: bool,
                      load: ModelSource -> Encoder, ghost newWidth: nat,
                      freshPopulation: seq<GenomeId>, freshThreshold: real)
      requires Valid() && Distinct(freshPopulation)
      requires FixedWidth(load(EncoderChoice(phase, staticModel, useNoise)), newWidth)
      modifies this
      ensures Valid()
      ensures archiveLattices == if phase == 0 || !persistentArchive then [] else old(archiveLattices)
      ensures encoder == Some(load(EncoderChoice(phase, staticModel, useNoise)))
      ensures archive == Encode(encoder.value, archiveLattices)
      ensures phaseBestFit == [] && currentGen == 0 && currentPhase == phase && noise == useNoise
      ensures phase == 0 ==> population == freshPopulation && fitness == map[] && metrics == NoMetrics
                             && compatibilityThreshold == freshThreshold
      ensures phase != 0 ==> population == old(population) && fitness == old(fitness) && metrics == old(metrics)
                             && compatibilityThreshold == old(compatibilityThreshold)
    {
      if !persistentArchive {
        archive := [];
        archiveLattices := [];
      }
      if phase == 0 {
        // `__init__` again, on the configuration reloaded from file
        Reset(freshPopulation, freshThreshold);
      }
      phaseBestFit := [];
      currentGen := 0;
      currentPhase := phase;
      noise := useNoise;
      LoadEncoder(load(EncoderChoice(phase, staticModel, useNoise)), newWidth);
    }

    /** Installs the phase's encoder and rebuilds the vector archive from the archived lattices with it. */
    method LoadEncoder(loaded: Encoder, ghost newWidth: nat)
      requires FixedWidth(loaded, newWidth)
      modifies this`encoder, this`width, this`archive
      ensures encoder == Some(loaded) && width == newWidth
      ensures archive == Encode(loaded, archiveLattices)
      ensures AllWidth(archive, width)
    {
      encoder := Some(loaded);
      width := newWidth;
      EncodeWidth(loaded, newWidth, archiveLattices);
      var lattices := archiveLattices;
      archive := [];
      for i := 0 to |lattices|
        invariant encoder == Some(loaded) && width == newWidth
        invariant archive == Encode(loaded, lattices[..i])
      {
        assert lattices[..i + 1][..i] == lattices[..i];
        archive := archive + [loaded(lattices[i])];
      }
      assert lattices[..|lattices|] == lattices;
    }

    /** The end of `run_neat`: drop the encoder and hand back the archive or the phase's best-fit buildings. */
    method FinishPhase(trainOnArchive: bool) returns (lattices: seq<Lattice>)
      requires Valid()
      modifies this`encoder
      ensures Valid() && encoder == None
      ensures lattices == if trainOnArchive then archiveLattices else phaseBestFit
    {
      encoder := None;
      lattices := if trainOnArchive then archiveLattices else phaseBestFit;
    }

    /**
      The cull: every infeasible genome is deleted from the population and
      its fitness set to 0; the feasible ones have their lattices collected.
     */
    method Cull(generated: seq<Generated>) returns (lattices: map<GenomeId, Lattice>, remove: nat)
      requires Valid() && |generated| == |population|
      modifies this`population, this`fitness
      ensures archive == old(archive) && archiveLattices == old(archiveLattices) && encoder == old(encoder)
      ensures currentGen == old(currentGen) && compatibilityThreshold == old(compatibilityThreshold)
      ensures Valid()
      ensures population == Feasible(old(population), generated)
      ensures fitness == ZeroCulled(old(fitness), old(population), generated)
      ensures lattices == LatticeMap(old(population), generated)
      ensures remove == InfeasibleCount(generated)
    {
      FeasibleDistinct(population, generated);
      population, fitness, lattices, remove := CullEntries(population, generated, fitness);
    }

    /** The latent vector of each of `ids`' lattices (noisy first when the phase uses noise). */
    method Compress(lattices: map<GenomeId, Lattice>, ids: seq<GenomeId>, addNoise: Lattice -> Lattice)
      returns (vectors: seq<Vector>)
      requires encoder.Some? && forall i :: 0 <= i < |ids| ==> ids[i] in lattices
      ensures vectors == Compressed(encoder.value, noise, addNoise, lattices, ids)
    {
      vectors := [];
      for i := 0 to |ids|
        invariant vectors == Compressed(encoder.value, noise, addNoise, lattices, ids[..i])
      {
        assert ids[..i + 1][..i] == ids[..i];
        var toCompress := lattices[ids[i]];
        if noise {
          toCompress := addNoise(toCompress);
        }
        vectors := vectors + [encoder.value(toCompress)];
      }
      assert ids[..|ids|] == ids;
    }

    /** Each genome of `ids` gets the novelty of its vector against all the vectors and the archive. */
    method AssignNovelty(ids: seq<GenomeId>, vectors: seq<Vector>)
      requires Valid() && encoder.Some? && |ids| == |vectors|
      requires AllWidth(vectors + archive, width)
      modifies this`fitness
      ensures population == old(population) && archive == old(archive) && archiveLattices == old(archiveLattices)
      ensures encoder == old(encoder) && currentGen == old(currentGen) && compatibilityThreshold == old(compatibilityThreshold)
      ensures Valid()
      ensures fitness == Scored(old(fitness), ids, NoveltyScores(root, settings.kNearest, vectors, archive, width))
    {
      fitness := ScoreEntries(root, settings.kNearest, ids, vectors, archive, width, fitness);
    }

    /**
      The archive loop: the lattices of the top-ranked genomes, most novel
      first, go into the lattice archive, and their encodings into the vector
      archive unless an equal vector is already there. It stops with an
      IndexError once it runs past the start of the ranking.
     */
    method GrowArchive(lattices: map<GenomeId, Lattice>, sortedKeys: seq<GenomeId>) returns (short: bool)
      requires Valid() && encoder.Some?
      requires forall j :: 0 <= j < |sortedKeys| ==> sortedKeys[j] in lattices
      modifies this`archive, this`archiveLattices
      ensures population == old(population) && fitness == old(fitness)
      ensures encoder == old(encoder) && noise == old(noise) && width == old(width)
      ensures currentGen == old(currentGen) && compatibilityThreshold == old(compatibilityThreshold)
      ensures Valid()
      ensures var count := PickCount(settings.addToArchive, |lattices|);
              var picked := TopLattices(lattices, sortedKeys, Smaller(count, |sortedKeys|));
              && short == (count > |sortedKeys|)
              && archiveLattices == old(archiveLattices) + picked
              && archive == AppendNew(old(archive), Encode(encoder.value, picked))
    {
      var kept, grown;
      short, kept, grown := ArchivePicks(encoder.value, lattices, sortedKeys, settings.addToArchive, archiveLattices, archive);
      ghost var picked := TopLattices(lattices, sortedKeys, Smaller(PickCount(settings.addToArchive, |lattices|), |sortedKeys|));
      EncodeWidth(encoder.value, width, picked);
      AppendNewWidth(archive, Encode(encoder.value, picked), width);
      archiveLattices, archive := kept, grown;
    }

    /** The final generation's best-fit list: the lattices of the top-ranked genomes, most novel first. */
    method RecordBestFit(lattices: map<GenomeId, Lattice>, sortedKeys: seq<GenomeId>)
      requires forall j :: 0 <= j < |sortedKeys| ==> sortedKeys[j] in lattices
      requires Valid()
      modifies this`phaseBestFit
      ensures Valid() && population == old(population) && fitness == old(fitness) && metrics == old(metrics)
      ensures archive == old(archive) && archiveLattices == old(archiveLattices) && encoder == old(encoder)
      ensures currentGen == old(currentGen) && compatibilityThreshold == old(compatibilityThreshold)
      ensures phaseBestFit == old(phaseBestFit) + TopLattices(lattices, sortedKeys, PickCount(settings.bestFitCount, |sortedKeys|))
    {
      var stop := Smaller(settings.bestFitCount, |sortedKeys|);
      ghost var count := PickCount(settings.bestFitCount, |sortedKeys|);
      var individual: int := 1;
      while individual < stop
        invariant 1 <= individual && individual - 1 <= count
        invariant stop >= 1 ==> individual <= stop
        invariant phaseBestFit == old(phaseBestFit) + TopLattices(lattices, sortedKeys, individual - 1)
        decreases stop - individual
      {
        phaseBestFit := phaseBestFit + [lattices[sortedKeys[|sortedKeys| - individual]]];
        individual := individual + 1;
      }
      assert individual - 1 == count;
    }

    /**
      The generation's metrics; with no species at all `np.min` raises
      ValueError after the first three series already have their entries.
     */
    method RecordMetrics(remove: nat, speciesSizes: seq<nat>) returns (noSpecies: bool)
      requires Valid()
      modifies this`metrics
      ensures Valid() && population == old(population) && fitness == old(fitness) && phaseBestFit == old(phaseBestFit)
      ensures archive == old(archive) && archiveLattices == old(archiveLattices) && encoder == old(encoder)
      ensures currentGen == old(currentGen) && compatibilityThreshold == old(compatibilityThreshold)
      ensures noSpecies == (speciesSizes == [])
      ensures metrics == Recorded(old(metrics), |archive|, remove, speciesSizes)
    {
      metrics := metrics.(archiveSize := metrics.archiveSize + [|archive|]);
      metrics := metrics.(speciesCount := metrics.speciesCount + [|speciesSizes|]);
      metrics := metrics.(infeasibleSize := metrics.infeasibleSize + [remove]);
      if speciesSizes == [] {
        noSpecies := true;
        return;
      }
      noSpecies := false;
      metrics := metrics.(minSpeciesSize := metrics.minSpeciesSize + [Minimum(speciesSizes)]);
      metrics := metrics.(maxSpeciesSize := metrics.maxSpeciesSize + [Maximum(speciesSizes)]);
    }

    /**
      The first half of a generation: cull the infeasible genomes, compress
      the lattices of the rest and give each its novelty against the others
      and the archive.
     */
    method Evaluate(generated: seq<Generated>, addNoise: Lattice -> Lattice)
      returns (lattices: map<GenomeId, Lattice>, remove: nat)
      requires Valid() && encoder.Some? && |generated| == |population|
      modifies this`population, this`fitness
      ensures archive == old(archive) && archiveLattices == old(archiveLattices) && encoder == old(encoder)
      ensures currentGen == old(currentGen) && compatibilityThreshold == old(compatibilityThreshold)
      ensures Valid()
      ensures population == Feasible(old(population), generated)
      ensures |population| + InfeasibleCount(generated) == |old(population)|
      ensures lattices == LatticeMap(old(population), generated) && |lattices| == |population|
      ensures remove == InfeasibleCount(generated)
      ensures forall i :: 0 <= i < |population| ==> population[i] in lattices && population[i] in fitness
      ensures AllWidth(Compressed(encoder.value, noise, addNoise, lattices, population) + archive, width)
      ensures fitness == Scored(ZeroCulled(old(fitness), old(population), generated), population,
                                NoveltyScores(root, settings.kNearest,
                                              Compressed(encoder.value, noise, addNoise, lattices, population),
                                              archive, width))
    {
      ghost var ids := population;
      lattices, remove := Cull(generated);
      LatticeMapKeys(ids, generated);
      assert |population| + remove == |ids| by {
        CullPartitions(ids, generated);
      }
      var vectors := Compress(lattices, population, addNoise);
      CompressedWidth(encoder.value, width, noise, addNoise, lattices, population, archive);
      ghost var culled := fitness;
      AssignNovelty(population, vectors);
      ScoredKeys(culled, population, NoveltyScores(root, settings.kNearest, vectors, archive, width));
    }

    /**
      The reports after the archive step: the least, median and most novel
      buildings when a diagnostic is due, the best fit in the final
      generation, the metrics, then the threshold step and the generation
      count. Each Python exception on the way ends the generation there.
     */
    method Report(lattices: map<GenomeId, Lattice>, sortedKeys: seq<GenomeId>, remove: nat, speciesSizes: seq<nat>)
      returns (outcome: Option<Failure>, shown: Option<(Lattice, Lattice, Lattice)>)
      requires Valid()
      requires forall j :: 0 <= j < |sortedKeys| ==> sortedKeys[j] in lattices
      modifies this`phaseBestFit, this`metrics, this`compatibilityThreshold, this`currentGen
      ensures population == old(population) && fitness == old(fitness)
      ensures archive == old(archive) && archiveLattices == old(archiveLattices) && encoder == old(encoder)
      ensures noise == old(noise) && width == old(width)
      ensures Valid()
      ensures outcome == GenerationOutcome(false, DiagnosticDue(old(currentGen), settings.generationsPerRun) && |sortedKeys| == 0,
                                           |population| == 0, |speciesSizes| == 0, |sortedKeys| == 0)
      ensures Reported(settings, lattices, sortedKeys, old(currentGen), true, |population| > 0, |archive|, remove,
                       speciesSizes, shown, old(phaseBestFit), phaseBestFit, old(metrics), metrics)
      ensures outcome.None? ==> currentGen == old(currentGen) + 1
                                && compatibilityThreshold == NextThreshold(old(compatibilityThreshold), |speciesSizes|,
                                                                           settings.targetSpeciesCount)
      ensures outcome.Some? ==> currentGen == old(currentGen) && compatibilityThreshold == old(compatibilityThreshold)
    {
      shown := None;
      if DiagnosticDue(currentGen, settings.generationsPerRun) {
        if sortedKeys == [] {
          // `sorted_keys[-1]` raises IndexError
          outcome := Some(IndexError);
          return;
        }
        var (least, median, most) := DiagnosticPicks(sortedKeys);
        shown := Some((lattices[least], lattices[median], lattices[most]));
      }
      if currentGen + 1 == settings.generationsPerRun {
        RecordBestFit(lattices, sortedKeys);
      }
      if |population| == 0 {
        // the complexity averages divide by the population size
        outcome := Some(ZeroDivisionError);
        return;
      }
      var noSpecies := RecordMetrics(remove, speciesSizes);
      if noSpecies {
        outcome := Some(ValueError);
        return;
      }
      if sortedKeys == [] {
        // the report of the best novelty reads `sorted_keys[-1]`
        outcome := Some(IndexError);
        return;
      }
      compatibilityThreshold := NextThreshold(compatibilityThreshold, |speciesSizes|, settings.targetSpeciesCount);
      currentGen := currentGen + 1;
      outcome := None;
    }

    /**
      The second half of a generation: rank the evaluated genomes, grow the
      archive from the top of the ranking, then report.
     */
    method RankAndReport(lattices: map<GenomeId, Lattice>, remove: nat, speciesSizes: seq<nat>)
      returns (sortedKeys: seq<GenomeId>, outcome: Option<Failure>, shown: Option<(Lattice, Lattice, Lattice)>)
      requires Valid() && encoder.Some? && |lattices| == |population|
      requires forall i :: 0 <= i < |population| ==> population[i] in fitness && population[i] in lattices
      modifies this`archive, this`archiveLattices
      modifies this`phaseBestFit, this`metrics, this`compatibilityThreshold, this`currentGen
      ensures Valid()
      ensures population == old(population) && fitness == old(fitness)
      ensures encoder == old(encoder) && noise == old(noise) && width == old(width)
      ensures sortedKeys == SortedKeys(population, fitness)
      ensures var count := PickCount(settings.addToArchive, |lattices|);
              && (forall j :: 0 <= j < |sortedKeys| ==> sortedKeys[j] in lattices)
              && archiveLattices == old(archiveLattices) + TopLattices(lattices, sortedKeys, Smaller(count, |sortedKeys|))
              && archive == AppendNew(old(archive), Encode(encoder.value, TopLattices(lattices, sortedKeys, Smaller(count, |sortedKeys|))))
              && outcome == GenerationOutcome(count > |sortedKeys|, DiagnosticDue(old(currentGen), settings.generationsPerRun) && |sortedKeys| == 0,
                                              |population| == 0, |speciesSizes| == 0, |sortedKeys| == 0)
      ensures Reported(settings, lattices, sortedKeys, old(currentGen),
                       PickCount(settings.addToArchive, |lattices|) <= |sortedKeys|, |population| > 0, |archive|, remove,
                       speciesSizes, shown, old(phaseBestFit), phaseBestFit, old(metrics), metrics)
      ensures outcome.None? ==> currentGen == old(currentGen) + 1
                                && compatibilityThreshold == NextThreshold(old(compatibilityThreshold), |speciesSizes|,
                                                                           settings.targetSpeciesCount)
      ensures outcome.Some? ==> currentGen == old(currentGen) && compatibilityThreshold == old(compatibilityThreshold)
    {
      sortedKeys := SortedKeys(population, fitness);
      SortedKeysHaveLattices(population, fitness, lattices);
      var short := GrowArchive(lattices, sortedKeys);
      if short {
        outcome, shown := Some(IndexError), None;
        NothingReported(settings, lattices, sortedKeys, currentGen, |population| > 0, |archive|, remove, speciesSizes,
                        phaseBestFit, metrics);
        return;
      }
      assert PickCount(settings.addToArchive, |lattices|) <= |sortedKeys|;
      outcome, shown := Report(lattices, sortedKeys, remove, speciesSizes);
    }

    /**
      `run_one_generation`: evaluate the population, then rank it, grow the
      archive and report. `generated[i]` is what `generate_lattice` gave for
      `population[i]`, `addNoise` the noise drawn for the de-noising
      encoder, and `speciesSizes` the member counts of the current species.
      A Python exception ends the generation where it is raised, keeping
      what was changed before it.
     */
    method RunOneGeneration(generated: seq<Generated>, addNoise: Lattice -> Lattice, speciesSizes: seq<nat>)
      returns (outcome: Option<Failure>, shown: Option<(Lattice, Lattice, Lattice)>)
      requires Valid() && encoder.Some? && |generated| == |population|
      modifies this`population, this`fitness, this`archive, this`archiveLattices
      modifies this`phaseBestFit, this`metrics, this`compatibilityThreshold, this`currentGen
      ensures Valid()
      ensures population == Feasible(old(population), generated)
      ensures forall i :: 0 <= i < |population| ==> population[i] in fitness
      ensures Evaluated(root, settings.kNearest, encoder.value, noise, addNoise, width, old(fitness), old(population),
                        generated, population, fitness, old(archive))
      ensures Reported(settings, LatticeMap(old(population), generated), SortedKeys(population, fitness), old(currentGen),
                       PickCount(settings.addToArchive, |population|) <= |SortedKeys(population, fitness)|,
                       |population| > 0, |archive|, InfeasibleCount(generated), speciesSizes,
                       shown, old(phaseBestFit), phaseBestFit, old(metrics), metrics)
      ensures var lattices := LatticeMap(old(population), generated);
              var sk := SortedKeys(population, fitness);
              var count := PickCount(settings.addToArchive, |population|);
              && (forall j :: 0 <= j < |sk| ==> sk[j] in lattices)
              && archiveLattices == old(archiveLattices) + TopLattices(lattices, sk, Smaller(count, |sk|))
              && archive == AppendNew(old(archive), Encode(encoder.value, TopLattices(lattices, sk, Smaller(count, |sk|))))
              && outcome == GenerationOutcome(count > |sk|, DiagnosticDue(old(currentGen), settings.generationsPerRun) && |sk| == 0,
                                              |population| == 0, |speciesSizes| == 0, |sk| == 0)
      ensures outcome.None? ==> currentGen == old(currentGen) + 1
                                && compatibilityThreshold == NextThreshold(old(compatibilityThreshold), |speciesSizes|,
                                                                           settings.targetSpeciesCount)
      ensures outcome.Some? ==> currentGen == old(currentGen) && compatibilityThreshold == old(compatibilityThreshold)
    {
      ghost var before, ids, archive0 := fitness, population, archive;
      var lattices, remove := Evaluate(generated, addNoise);
      EvaluatedFrom(root, settings.kNearest, encoder.value, noise, addNoise, width, before, ids, generated,
                    population, fitness, archive0, lattices);
      var sortedKeys;
      sortedKeys, outcome, shown := RankAndReport(lattices, remove, speciesSizes);
    }
  }
}
