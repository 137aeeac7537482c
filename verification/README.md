# Novelty search and qualitative measures of the building generator

This project models, in Dafny, the deterministic core of an open-ended
building generator. Populations of CPPN genomes, evolved with NEAT, produce
voxel lattices. An autoencoder compresses each lattice to a latent vector,
and a genome's fitness is its novelty: the mean distance to its nearest
neighbours among this generation's vectors and a novelty archive.

The model covers three parts:

- **The generator's bookkeeping** (`Generator/NeatGenerator.py`).
  - `novelty_search`;
  - one generation of `run_one_generation`: the feasibility cull, compression, novelty assignment, the ranking, archive growth with de-duplication, the diagnostic picks, the best-fit list, the species metrics, the compatibility-threshold controller and the generation counter;
  - the phase bookkeeping of `run_neat`.
- **The qualitative evaluation's helpers** (`Evaluation/QualitativeMeasures.py`).
  - `novelty_search2`;
  - the counter-keyed stores of `compress_lattice` and `process_population`;
  - `compute_fitness` and `sort_lattices`;
  - `surface_ratio`;
  - the key merge of `expressive` and `AVG_Properties`.
- **The form of each part follows the code.**
  - State that the code updates in place is a class with `modifies` clauses: `NeatGeneration.NeatGenerator`, `Evaluation.PopulationStore` and `PropertyMerge.PropertyTable`.
  - Loops are methods with invariants. Each is proved equal to a specification function, and the properties are proved about that function.

Modules:

- `Ranking` (ranking.dfy):
  - numpy-style scores (a number or NaN);
  - ascending sort, stable sort by value, mean, and Python slices.
- `Novelty` (novelty.dfy): distances and `novelty_search`.
- `Speciation` (speciation.dfy): the ±0.05 threshold controller.
- `Generation` (generation.dfy): the value-level definitions of one generation.
- `NeatGeneration` (generator.dfy): the `NeatGenerator` class.
- `Evaluation` (evaluation.dfy):
  - `novelty_search2`;
  - `compress_lattice`, `compute_fitness`, `sort_lattices` and `process_population`.
- `SurfaceRatio` (surface.dfy): `surface_ratio`.
- `PropertyMerge` (merge.dfy): the key merge.

Edge cases of the code, modelled as written:

- **`surface_ratio`'s fallback.** Its `except ZeroDivisionError` also catches an empty bounding box and a lattice of side 0, not only a lattice without building voxels. `SurfaceRatio.RatiosOf` returns `EmptyLatticeFound` in all three cases. This assumes the bounds, and so the box volume, are Python integers (see "Left out").
- **The archive and best-fit loops** run over `range(1, min(...))`, so they take one entry fewer than the configured count. That is modelled as written.
- **Running out of ranked genomes.** The archive loop indexes `sorted_keys[-individual]`. This raises an `IndexError` when fewer genomes are ranked than the loop visits. It is modelled as a failure outcome, not excluded by a precondition.

## Model

| member | source | states |
|---|---|---|
| Ranking.Sort | Generator/NeatGenerator.py:219 | `np.sort`: the result is ascending and a rearrangement of the input |
| Ranking.SortedUnique | Generator/NeatGenerator.py:219 | two ascending lists with the same elements are equal, so the sort is determined by its elements |
| Ranking.SortDependsOnElementsOnly | Generator/NeatGenerator.py:219 | lists with the same elements sort to the same list |
| Ranking.SortLeastFirst | Evaluation/QualitativeMeasures.py:114 | an element no greater than any other sorts in front of the sorted rest |
| Ranking.TakeOfSortIsSmallest | Generator/NeatGenerator.py:219-220 | the first k of the sorted list are min(k, n) of the elements, none larger than any element left out; the mean is NaN exactly when none are taken |
| Ranking.MeanNonNegative | Generator/NeatGenerator.py:220 | the mean of non-negative numbers is non-negative |
| Ranking.SliceOfSortNonNegative | Evaluation/QualitativeMeasures.py:114-115 | any slice of the sorted non-negative distances has a non-negative mean |
| Ranking.Slice | Evaluation/QualitativeMeasures.py:115 | the Python slice `s[lo:hi]`: its length is clipped to the list, and its i-th element is `s[lo + i]` |
| Ranking.SortByValue | Generator/NeatGenerator.py:140 | `sorted(items, key=item[1])`: ordered by value, a rearrangement of the entries, and stable: the entries of each value keep their order |
| Ranking.InsertByValueKeepsTies | Generator/NeatGenerator.py:140 | inserting an entry in front of the first not-smaller entry keeps the order among entries of equal value |
| Ranking.Keys | Generator/NeatGenerator.py:140 | the keys of the sorted entries, in order |
| Novelty.SumOfSquares | Generator/NeatGenerator.py:216-217 | the element loop computes the sum of squared differences |
| Novelty.SquaredDistanceBasics | Generator/NeatGenerator.py:216-218 | the squared distance is non-negative and zero from a vector to itself |
| Novelty.NoveltySearch | Generator/NeatGenerator.py:201-220 | the loop over population then archive, skipping equal neighbours, returns the novelty score |
| Novelty.DistancesCount | Generator/NeatGenerator.py:212-218 | one distance per neighbour not equal to the candidate (one per neighbour without skipping) |
| Novelty.DistancesNonNegative | Generator/NeatGenerator.py:212-218 | every distance is non-negative |
| Novelty.DistancesPermutation | Generator/NeatGenerator.py:212-218 | reordering the neighbours reorders the distances |
| Novelty.NoveltyScoreAveragesNearest | Generator/NeatGenerator.py:211-220 | the score averages the min(k, n) smallest of the n distances to non-equal neighbours; NaN exactly when none is taken; all of them when n <= k |
| Novelty.NoveltyScoreNonNegative | Generator/NeatGenerator.py:219-220 | a numeric score is non-negative |
| Novelty.NoveltyScoreOrderIndependent | Generator/NeatGenerator.py:212-220 | the score depends only on which vectors the population and archive hold together, not their order or split |
| Novelty.DistancesDropEqual | Generator/NeatGenerator.py:214-215 | a neighbour equal to the candidate contributes no distance |
| Novelty.EqualPopulationEntryIgnored | Generator/NeatGenerator.py:212-215 | removing a population entry equal to the candidate (its own entry or a duplicate) leaves the score unchanged |
| Novelty.EqualArchiveEntryIgnored | Generator/NeatGenerator.py:212-215 | removing an archive entry equal to the candidate leaves the score unchanged |
| Novelty.DistancesSkipNothing | Generator/NeatGenerator.py:214-215 | with no neighbour equal to the candidate, skipping changes nothing |
| Speciation.NextThreshold | Generator/NeatGenerator.py:192-196 | the threshold falls exactly when there are too few species, rises exactly when there are too many, and moves by 0.05 or not at all |
| Speciation.DriftCountsSteps | Generator/NeatGenerator.py:192-196 | over a run, the threshold moves by 0.05 times (generations above target minus generations below) |
| Speciation.DriftBounded | Generator/NeatGenerator.py:192-196 | over n generations the threshold moves by at most 0.05 n |
| Speciation.TooFewSpeciesLowersThreshold | Generator/NeatGenerator.py:193-194 | with too few species every generation, the threshold falls by exactly 0.05 per generation |
| Generation.CullPartitions | Generator/NeatGenerator.py:116-123 | kept plus removed equals the population; the kept genomes are distinct and in population order; a genome is kept exactly when feasible |
| Generation.LatticeMapHoldsFeasible | Generator/NeatGenerator.py:116-123 | `lattices` holds exactly the feasible genomes, each with its own lattice, one entry per kept genome |
| Generation.ZeroCulledSetsInfeasible | Generator/NeatGenerator.py:118-121 | every infeasible genome's fitness becomes 0, and no stranger gains an entry |
| Generation.ZeroCulledKeepsOthers | Generator/NeatGenerator.py:116-123 | feasible genomes and genomes outside the population keep their fitness |
| Generation.Compressed | Generator/NeatGenerator.py:125-129 | one latent vector per kept genome: the encoding of its lattice, with noise first when the phase uses noise |
| Generation.CompressedWidth | Generator/NeatGenerator.py:125-133 | the population's vectors and the archive share the encoder's width |
| Generation.NoveltyScoresIgnoreOwnEntry | Generator/NeatGenerator.py:132-134 | each genome's score is its novelty against the other genomes' vectors and the archive: its own entry plays no part |
| Generation.ScoredAssignsEach | Generator/NeatGenerator.py:135-136 | each compressed genome gets exactly its own score; every other fitness entry is unchanged |
| Generation.PositiveEntriesMeaning | Generator/NeatGenerator.py:138-139 | the fitness dictionary holds exactly the genomes whose fitness is a number above 0, with that fitness |
| Generation.SortedKeysAscendPositive | Generator/NeatGenerator.py:138-140 | `sorted_keys` lists only genomes with fitness above 0, in non-decreasing fitness order |
| Generation.SortedKeysHoldAllPositive | Generator/NeatGenerator.py:138-140 | every genome with fitness above 0 appears in `sorted_keys` |
| Generation.SortedKeysHaveLattices | Generator/NeatGenerator.py:138-143 | every ranked genome has a lattice |
| Generation.SortByValueKeepsEntries | Generator/NeatGenerator.py:140 | sorting keeps exactly the entries it was given |
| Generation.PickCount | Generator/NeatGenerator.py:142 | `range(1, min(limit, n))` visits one fewer than the smaller bound, and never more than either |
| Generation.TopLattices | Generator/NeatGenerator.py:142-143 | the picks number exactly the count asked for |
| Generation.TopLatticesFromTheEnd | Generator/NeatGenerator.py:142-143 | the j-th pick is the lattice of the genome j places from the end of the ranking (most novel first) |
| Generation.Encode | Generator/NeatGenerator.py:76-78 | one encoding per lattice |
| Generation.EncodeEach | Generator/NeatGenerator.py:76-78 | the j-th encoding is the encoder's output for the j-th lattice |
| Generation.AppendNewGrowsWithoutDuplicates | Generator/NeatGenerator.py:145-147 | the archive only grows, by at most one vector per candidate; afterwards every candidate is present and nothing else is new; an archive without duplicates stays without |
| Generation.DiagnosticSchedule | Generator/NeatGenerator.py:149 | a diagnostic falls in every 100 consecutive generations, and on the last generation of a run |
| Generation.PicksOfRanking | Generator/NeatGenerator.py:150-152 | on any ranking by ascending fitness, the first, middle and last picks bound the fitness of the whole ranking, of its lower half and of its upper half |
| Generation.DiagnosticPicksByNovelty | Generator/NeatGenerator.py:150-152 | the least-novel pick has the lowest fitness of the ranking and the most-novel pick the highest; the middle pick is at least the lower half and at most the upper half |
| Generation.Minimum | Generator/NeatGenerator.py:178 | `np.min` of the species sizes: an element no larger than any other |
| Generation.Maximum | Generator/NeatGenerator.py:179 | `np.max` of the species sizes: an element no smaller than any other |
| Generation.GenerationOutcome | Generator/NeatGenerator.py:142-198 | a generation fails exactly when one of its five error conditions holds; ZeroDivisionError only for an empty population, ValueError only with no species |
| Generation.CompletesExactlyWhen | Generator/NeatGenerator.py:142-198 | a generation completes exactly when some genome is ranked, a species exists and the archive loop fits in the ranking |
| Generation.ArchiveLoopShortNeedsTwoUnranked | Generator/NeatGenerator.py:142-143 | the archive loop can run past the ranking only when at least two feasible genomes are unranked |
| NeatGeneration.CullEntries | Generator/NeatGenerator.py:116-123 | the cull loop deletes infeasible genomes, zeroes their fitness, counts them and collects the feasible lattices |
| NeatGeneration.ScoreEntries | Generator/NeatGenerator.py:132-136 | the fitness loop assigns each genome the novelty of its vector |
| NeatGeneration.ArchivePicks | Generator/NeatGenerator.py:142-147 | the archive loop appends the top picks' lattices and offers their encodings; it reports the IndexError exactly when the ranking is shorter than the picks |
| NeatGeneration.EncoderChoice | Generator/NeatGenerator.py:61-73 | the previous phase's encoder exactly when the phase is after the first and the experiment is not static; the noisy seed encoder exactly otherwise with noise |
| NeatGeneration.NeatGenerator.constructor | Generator/NeatGenerator.py:16-35 | a fresh population with empty archives, best-fit list and metrics, generation and phase 0, no encoder, no noise |
| NeatGeneration.NeatGenerator.Reset | Generator/NeatGenerator.py:16-35 | the state `__init__` sets up, keeping the class invariant |
| NeatGeneration.NeatGenerator.StartPhase | Generator/NeatGenerator.py:44-78 | archives cleared unless persistent (and in phase 0), full reset in phase 0, phase fields reset, the phase's encoder loaded, the vector archive rebuilt as the encodings of the archived lattices |
| NeatGeneration.NeatGenerator.LoadEncoder | Generator/NeatGenerator.py:76-78 | the vector archive becomes the encoding of each archived lattice, in order |
| NeatGeneration.NeatGenerator.FinishPhase | Generator/NeatGenerator.py:92-99 | the encoder is dropped, and the archive lattices or the best-fit list are returned as asked |
| NeatGeneration.NeatGenerator.Cull | Generator/NeatGenerator.py:116-123 | population, fitness, lattices and removal count after the cull, other fields unchanged |
| NeatGeneration.NeatGenerator.Compress | Generator/NeatGenerator.py:125-129 | the latent vectors of the kept genomes, in order |
| NeatGeneration.NeatGenerator.AssignNovelty | Generator/NeatGenerator.py:131-136 | the fitness table after every compressed genome is scored, other fields unchanged |
| NeatGeneration.NeatGenerator.GrowArchive | Generator/NeatGenerator.py:142-147 | both archives grow from the top of the ranking, the vector archive by de-duplicated offers, with the IndexError flag |
| NeatGeneration.NeatGenerator.RecordBestFit | Generator/NeatGenerator.py:159-160 | the best-fit list grows by the lattices of the top min(best_fit_count, ranked) - 1 genomes, most novel first; nothing else changes |
| NeatGeneration.NeatGenerator.RecordMetrics | Generator/NeatGenerator.py:171-180 | archive size, species count and removal count are appended; the species extrema are appended unless there are no species (ValueError) |
| NeatGeneration.NeatGenerator.Evaluate | Generator/NeatGenerator.py:114-136 | after the cull and scoring, the population is the feasible genomes and each has a lattice and the novelty of its vector |
| NeatGeneration.NeatGenerator.Report | Generator/NeatGenerator.py:149-198 | diagnostic picks, best-fit list, metrics, threshold step and generation count, each stopped by the exception raised before it |
| NeatGeneration.NeatGenerator.RankAndReport | Generator/NeatGenerator.py:138-198 | the ranking, both archives grown from its top, the diagnostic picks, best-fit list and metrics (`Reported`; nothing shown or recorded after an IndexError in the archive loop), and the generation's outcome |
| NeatGeneration.NeatGenerator.RunOneGeneration | Generator/NeatGenerator.py:101-198 | one generation: the feasible population, its fitness as culled and scored by novelty against the archive it started with (`Evaluated`), the ranking, both archives, the diagnostic picks, best-fit list and metrics (`Reported`), the outcome, and on success the threshold step and one more generation |
| Evaluation.NoveltySearch2 | Evaluation/QualitativeMeasures.py:107-115 | the loop over every population vector, with no skip, returns the mean of the sorted distances at positions 1 to 5 |
| Evaluation.NoveltyScore2Ranks | Evaluation/QualitativeMeasures.py:109-115 | one distance per vector; the score averages ranks two to six; NaN exactly when the population has at most one vector |
| Evaluation.NoveltyScore2NonNegative | Evaluation/QualitativeMeasures.py:111-115 | a numeric score is non-negative |
| Evaluation.NoveltyScore2OrderIndependent | Evaluation/QualitativeMeasures.py:109-115 | the score does not depend on the order of the population's vectors |
| Evaluation.SelfDistanceFirst | Evaluation/QualitativeMeasures.py:109-114 | the candidate's zero distance to its own entry sorts in front of the other distances |
| Evaluation.SelfEntryRankedFirst | Evaluation/QualitativeMeasures.py:107-115 | with its own entry present once, the score is the generator's novelty over the other vectors with k = 5 |
| Evaluation.PopulationStore.constructor | Evaluation/QualitativeMeasures.py:208-209 | both dictionaries start empty |
| Evaluation.PopulationStore.CompressLattice | Evaluation/QualitativeMeasures.py:181-185 | stores the integer lattice and its encoding under `counter`, and returns `counter + 1` |
| Evaluation.CompressPopulation | Evaluation/QualitativeMeasures.py:206-213 | after the loop both dictionaries have keys exactly 0 to n - 1, key i holding the i-th lattice's integer form and encoding |
| Evaluation.ComputeFitness | Evaluation/QualitativeMeasures.py:188-197 | each key in key order, scored against every stored vector |
| Evaluation.FitnessTableScores | Evaluation/QualitativeMeasures.py:188-197 | one entry per key, in key order; with two or more vectors every score is a non-negative number; with one it is NaN |
| Evaluation.RankedFromTable | Evaluation/QualitativeMeasures.py:201 | the ranking holds the table's entries |
| Evaluation.SortLattices | Evaluation/QualitativeMeasures.py:200-203 | KeyError exactly when some fitness key has no stored lattice; an undefined order exactly when all are stored and a NaN is among two or more scores; otherwise one stored lattice per entry |
| Evaluation.SortLatticesPermutes | Evaluation/QualitativeMeasures.py:200-203 | one lattice per fitness entry, together a rearrangement of the keys' stored lattices |
| Evaluation.SortLatticesAscending | Evaluation/QualitativeMeasures.py:200-203 | the j-th lattice is the stored lattice of the j-th ranked entry, and the ranking does not decrease |
| Evaluation.FitnessTableSortable | Evaluation/QualitativeMeasures.py:215-216 | every fitness key has a stored lattice and, with two or more lattices, no score is NaN |
| Evaluation.ProcessPopulation | Evaluation/QualitativeMeasures.py:206-218 | the store, fitness and sort steps compose to the processed population |
| Evaluation.ProcessedPopulationSorted | Evaluation/QualitativeMeasures.py:206-218 | every lattice comes back exactly once, as its integer form |
| Evaluation.ProcessedPopulationAscending | Evaluation/QualitativeMeasures.py:206-218 | the j-th lattice returned is the integer form of the lattice whose score is j-th in a non-decreasing ranking |
| SurfaceRatio.TotalCountsNonEmpty | Evaluation/QualitativeMeasures.py:59-75 | `total_count` is the number of non-empty voxels |
| SurfaceRatio.TotalIsSumOfLabels | Evaluation/QualitativeMeasures.py:59-75 | with labels in 0..4, the total is interior plus walls plus floor plus roof |
| SurfaceRatio.BoundingBox | Evaluation/QualitativeMeasures.py:53-57 | the box volume is zero exactly when a dimension is; area and volume are non-negative for non-negative dimensions |
| SurfaceRatio.RatiosOf | Evaluation/QualitativeMeasures.py:77-88 | the fallback exactly when the voxel count, the box volume or the cube of the side is zero; otherwise each ratio times its divisor is its dividend |
| SurfaceRatio.SurfaceRatioOf | Evaluation/QualitativeMeasures.py:52-88 | the counting loop and the divisions give the ratios of the counts, or the empty-lattice fallback on a division by zero |
| SurfaceRatio.EmptyExactlyWithoutBuilding | Evaluation/QualitativeMeasures.py:77-88 | for a solid box and a non-empty lattice, the fallback is taken exactly when every voxel is empty |
| SurfaceRatio.SharesOfTheBuilding | Evaluation/QualitativeMeasures.py:77-85 | Surface Area equals Floor plus Walls plus Roof and one minus the interior share; every share lies in [0, 1] |
| PropertyMerge.PropertyTable.constructor | Evaluation/QualitativeMeasures.py:119 | the merge starts from an empty table |
| PropertyMerge.PropertyTable.Absorb | Evaluation/QualitativeMeasures.py:131-135 | absorbing a dictionary extends present columns and adds new ones |
| PropertyMerge.Gather | Evaluation/QualitativeMeasures.py:27-33 | absorbing each dictionary in turn gives the gathered table |
| PropertyMerge.MergeOneMore | Evaluation/QualitativeMeasures.py:132-135 | one more key extends its column when present (`+=`) and adds it otherwise (`update` after the KeyError) |
| PropertyMerge.GatheredKeys | Evaluation/QualitativeMeasures.py:131-135 | the gathered keys are the union of the incoming key sets |
| PropertyMerge.KeysOfMeaning | Evaluation/QualitativeMeasures.py:29-33 | a key is gathered exactly when some incoming dictionary has it |
| PropertyMerge.GatheredColumns | Evaluation/QualitativeMeasures.py:131-135 | each gathered column is the in-order concatenation of that key's incoming lists |
| PropertyMerge.ExpressiveRatios | Evaluation/QualitativeMeasures.py:130-135 | no table (the AttributeError) exactly when some lattice is empty |
| PropertyMerge.ExpressiveRatiosPerLattice | Evaluation/QualitativeMeasures.py:125-135 | with every lattice measured, the table has exactly the six ratio keys, each column listing that ratio of every lattice in order |
| PropertyMerge.RatioColumn | Evaluation/QualitativeMeasures.py:130-135 | a ratio's column has one entry per lattice, the i-th being that lattice's ratio |
| PropertyMerge.EmptyLatticeFails | Evaluation/QualitativeMeasures.py:130-131 | an empty lattice anywhere ends `expressive` with an AttributeError (the 0 has no `keys()`) |

## Left out

- Process pools (`Pool`, `apply_async`, `join`): each dispatch is an in-order sequential map, which is what the `zip` over the jobs in submission order gives.
- `generate_lattice`, the CPPN activation and the constraints: each genome's `(lattice, feasible)` is an input (`Generated`).
- `encoder.predict`, `load_model`, `add_noise` and `convert_to_integer` are uninterpreted function parameters. The encoder's output width is fixed (`FixedWidth`), which stands in for the Keras model's fixed latent size.
- `np.sqrt` is the parameter `root`, of which only `SqrtLike` is assumed (root of 0 is 0, roots of non-negative numbers are non-negative).
- Rounding to two decimals and all floating-point detail: arithmetic is exact over reals.
- NaN ordering: `sort_lattices` with a NaN score among two or more entries gives `UnorderedByNaN`, because Python's order is then unspecified. A NaN score arises only for a population of at most one lattice (`FitnessTableScores`).
- Node and connection complexity means, the mean species size, and the mean and confidence interval of `AVG_Properties`: floating-point statistics over NEAT internals. An empty population still ends the generation with the ZeroDivisionError those averages raise.
- NEAT library internals (species sets, reproduction, reporters, `Mean Novelty`/`Best Novelty` from the reporter). The population is the sequence of its genome ids and a fitness map. The species are their member counts, given as input.
- File and pickle I/O, plotting, printing, the `Experiment` metric and the diagnostic voxel plot. The diagnostic step yields the three lattices it would plot.
- `symmetry`, `bounding_box` and `stability`, whose definitions are not part of this model. `surface_ratio` takes the bounds as inputs. `expressive`'s Instability and symmetry columns are not modelled; its ratio columns are.
- Main.py is not part of this model: it is GPU set-up and a driver.
- Python dictionary order: a dictionary keyed by counter values 0..n-1 is iterated in key order. The `compute_fitness` dictionary is a sequence of (key, score) pairs in that order. The merged tables are maps, so their key order is not modelled.
- The merge's keys are generic (`Columns<K>`); `PropertyMerge.KeyText` gives the source's key strings.
- List aliasing: `update({key: new_ratios[key]})` stores the incoming list object, which later `+=` mutates in place. The incoming dictionaries are not used again, so the model treats the lists as values.
- The lattice is the flat sequence of its voxel labels in `value_range` order.
- SurfaceRatio.RatiosOf: assumes `bounding_box` returns Python integers, so that a zero box volume raises ZeroDivisionError. With numpy integers the division would give `inf` or `nan` and a warning instead, and no fallback.
- NeatGeneration.NeatGenerator.StartPhase: the no-duplicate property of the vector archive is not kept across phases. Re-encoding appends every archived lattice's encoding, and two lattices may share one.
