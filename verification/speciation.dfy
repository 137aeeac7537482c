/**
  The step controller that steers NEAT's compatibility threshold towards a
  target number of species: after every generation the threshold moves by a
  fixed step, down when there are too few species (so genomes split into more
  species), up when there are too many, and stays when the count is on target.
 */
module Speciation {

  /** The fixed step by which the threshold moves per generation. */
  const Step: real := 0.05

  /** The threshold for the next generation, given this generation's species count. */
  function NextThreshold(threshold: real, speciesCount: nat, target: nat): (r: real)
    ensures speciesCount < target <==> r < threshold
    ensures speciesCount > target <==> r > threshold
    ensures r - threshold == Step || threshold - r == Step || r == threshold
  {
    if speciesCount < target then threshold - Step
    else if speciesCount > target then threshold + Step
    else threshold
  }

  /** The threshold after one generation per entry of `counts`, the species counts in order. */
  function Drift(threshold: real, counts: seq<nat>, target: nat): real
  {
    if counts == [] then threshold
    else NextThreshold(Drift(threshold, counts[..|counts| - 1], target), counts[|counts| - 1], target)
  }

  /** How many of the counts fall below the target. */
  function Below(counts: seq<nat>, target: nat): (r: nat)
    ensures r <= |counts|
  {
    if counts == [] then 0
    else Below(counts[..|counts| - 1], target) + (if counts[|counts| - 1] < target then 1 else 0)
  }

  /** How many of the counts lie above the target. */
  function Above(counts: seq<nat>, target: nat): (r: nat)
    ensures r <= |counts|
  {
    if counts == [] then 0
    else Above(counts[..|counts| - 1], target) + (if counts[|counts| - 1] > target then 1 else 0)
  }

  /**
    Over a run of generations the threshold has moved by one step up per
    generation with too many species and one step down per generation with
    too few; generations on target do not move it.
   */
  lemma {:induction false} DriftCountsSteps(threshold: real, counts: seq<nat>, target: nat)
    ensures Drift(threshold, counts, target)
         == threshold + Step * (Above(counts, target) as real) - Step * (Below(counts, target) as real)
  {
    if counts != [] {
      DriftCountsSteps(threshold, counts[..|counts| - 1], target);
    }
  }

  /** The threshold never moves by more than one step per generation. */
  lemma DriftBounded(threshold: real, counts: seq<nat>, target: nat)
    ensures threshold - Step * (|counts| as real) <= Drift(threshold, counts, target) <= threshold + Step * (|counts| as real)
  {
    DriftCountsSteps(threshold, counts, target);
    assert Above(counts, target) + Below(counts, target) <= |counts| by {
      AboveBelowDisjoint(counts, target);
    }
  }

  /** No count is both above and below the target. */
  lemma {:induction false} AboveBelowDisjoint(counts: seq<nat>, target: nat)
    ensures Above(counts, target) + Below(counts, target) <= |counts|
  {
    if counts != [] {
      AboveBelowDisjoint(counts[..|counts| - 1], target);
    }
  }

  /** While every generation has too few species, the threshold falls by exactly one step each time. */
  lemma TooFewSpeciesLowersThreshold(threshold: real, counts: seq<nat>, target: nat)
    requires forall i :: 0 <= i < |counts| ==> counts[i] < target
    ensures Drift(threshold, counts, target) == threshold - Step * (|counts| as real)
  {
    DriftCountsSteps(threshold, counts, target);
    AllBelow(counts, target);
  }

  lemma {:induction false} AllBelow(counts: seq<nat>, target: nat)
    requires forall i :: 0 <= i < |counts| ==> counts[i] < target
    ensures Below(counts, target) == |counts| && Above(counts, target) == 0
  {
    if counts != [] {
      AllBelow(counts[..|counts| - 1], target);
    }
  }
}
