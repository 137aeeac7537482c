/**
  `surface_ratio`: how a building's voxels split into interior, walls, floor
  and roof, and how its volume compares with its bounding box and with the
  whole lattice.

  The lattice is given by its voxel labels in the order `value_range` visits
  them (0 empty, 1 interior, 2 wall, 3 floor, 4 roof). Divisions are exact
  real divisions; the model does not round to floating point.
 */
module SurfaceRatio {

  /** The label counters of `surface_ratio`. */
  datatype LabelCounts = LabelCounts(interior: nat, walls: nat, floor: nat, roof: nat, total: nat)

  /** The counters after one more voxel: an empty voxel is skipped, any other is counted in the total. */
  function Tally(c: LabelCounts, material: int): LabelCounts
  {
    if material == 0 then c
    else
      var counted := c.(total := c.total + 1);
      if material == 1 then counted.(interior := c.interior + 1)
      else if material == 2 then counted.(walls := c.walls + 1)
      else if material == 3 then counted.(floor := c.floor + 1)
      else if material == 4 then counted.(roof := c.roof + 1)
      else counted
  }

  /** The counters after visiting `voxels` in order. */
  function CountLabels(voxels: seq<int>): LabelCounts
  {
    if voxels == [] then LabelCounts(0, 0, 0, 0, 0)
    else Tally(CountLabels(voxels[..|voxels| - 1]), voxels[|voxels| - 1])
  }

  /** `total_count` is the number of non-empty voxels. */
  lemma {:induction false} TotalCountsNonEmpty(voxels: seq<int>)
    ensures CountLabels(voxels).total == |voxels| - multiset(voxels)[0]
  {
    if voxels != [] {
      var n := |voxels| - 1;
      TotalCountsNonEmpty(voxels[..n]);
      assert voxels == voxels[..n] + [voxels[n]];
    }
  }

  predicate KnownLabels(voxels: seq<int>) {
    forall i :: 0 <= i < |voxels| ==> 0 <= voxels[i] <= 4
  }

  /** With every label in 0..4, each counted voxel is interior, wall, floor or roof. */
  lemma {:induction false} TotalIsSumOfLabels(voxels: seq<int>)
    requires KnownLabels(voxels)
    ensures var c := CountLabels(voxels); c.total == c.interior + c.walls + c.floor + c.roof
  {
    if voxels != [] {
      TotalIsSumOfLabels(voxels[..|voxels| - 1]);
    }
  }

  /** An interval of the bounding box: `(lower, upper)`. */
  datatype Bound = Bound(lower: int, upper: int)

  /**
    The bounding box measures: width and depth are the differences of their
    bounds, but the height is the upper vertical bound alone (the box is
    taken to stand on the ground).
   */
  datatype Box = Box(width: int, depth: int, height: int, area: int, volume: int)

  function BoundingBox(horizontal: Bound, vertical: Bound, depthwise: Bound): (b: Box)
    ensures b.volume == 0 <==> b.width == 0 || b.depth == 0 || b.height == 0
    ensures b.width >= 0 && b.depth >= 0 && b.height >= 0 ==> b.area >= 0 && b.volume >= 0
  {
    var height := vertical.upper;
    var depth := depthwise.upper - depthwise.lower;
    var width := horizontal.upper - horizontal.lower;
    ZeroProduct(width, depth, height);
    Box(width, depth, height, 2 * (depth * width + depth * height + width * height), width * depth * height)
  }

  lemma ZeroProduct(a: int, b: int, c: int)
    ensures a * b * c == 0 <==> a == 0 || b == 0 || c == 0
    ensures a >= 0 && b >= 0 && c >= 0 ==> a * b * c >= 0 && a * b + a * c + b * c >= 0
  {
    if a != 0 && b != 0 {
      assert a * b != 0;
    }
  }

  /**
    The dictionary `surface_ratio` returns, one entry per key, or the 0 it
    returns when a division by zero occurs.
   */
  datatype Ratios =
    | Ratios(surfaceArea: real, floor: real, walls: real, roof: real, volumeVsBox: real, boxVsTotal: real)
    | EmptyLatticeFound

  /**
    The ratios for the given counts, box and lattice side length: the
    fallback exactly when one of the three divisors (the building's voxel
    count, the box volume, the cube of the side) is zero, and otherwise
    each ratio is its dividend over its divisor.
   */
  function RatiosOf(c: LabelCounts, box: Box, side: int): (r: Ratios)
    ensures r.EmptyLatticeFound? <==> c.total == 0 || box.volume == 0 || side * side * side == 0
    ensures r.Ratios? ==>
              var total := c.total as real;
              && r.surfaceArea * total == (c.walls + c.roof + c.floor) as real
              && r.floor * total == c.floor as real
              && r.walls * total == c.walls as real
              && r.roof * total == c.roof as real
              && r.volumeVsBox * box.volume as real == total
              && r.boxVsTotal * (side * side * side) as real == box.volume as real
  {
    ZeroProduct(side, side, side);
    if c.total == 0 || box.volume == 0 || side == 0 then EmptyLatticeFound
    else
      var total := c.total as real;
      Ratios((c.walls + c.roof + c.floor) as real / total,
             c.floor as real / total, c.walls as real / total, c.roof as real / total,
             total / box.volume as real,
             box.volume as real / (side * side * side) as real)
  }

  /**
    `surface_ratio`: counts the labels over the lattice, then divides; a
    division by zero (no building voxel, a flat box, a lattice of side 0)
    gives `EmptyLatticeFound`.
   */
  method SurfaceRatioOf(voxels: seq<int>, horizontal: Bound, vertical: Bound, depthwise: Bound, side: int)
    returns (r: Ratios)
    ensures r == RatiosOf(CountLabels(voxels), BoundingBox(horizontal, vertical, depthwise), side)
  {
    var box := BoundingBox(horizontal, vertical, depthwise);
    var roof, walls, floor, interior, total := 0, 0, 0, 0, 0;
    for i := 0 to |voxels|
      invariant LabelCounts(interior, walls, floor, roof, total) == CountLabels(voxels[..i])
    {
      assert voxels[..i + 1][..i] == voxels[..i];
      var material := voxels[i];
      if material == 0 {
        continue;
      }
      total := total + 1;
      if material == 1 {
        interior := interior + 1;
      } else if material == 2 {
        walls := walls + 1;
      } else if material == 3 {
        floor := floor + 1;
      } else if material == 4 {
        roof := roof + 1;
      }
    }
    assert voxels[..|voxels|] == voxels;
    if total == 0 || box.volume == 0 || side * side * side == 0 {
      r := EmptyLatticeFound;
      return;
    }
    var totalReal := total as real;
    var surfaceArea := (walls + roof + floor) as real / totalReal;
    var floorShare := floor as real / totalReal;
    var wallShare := walls as real / totalReal;
    var roofShare := roof as real / totalReal;
    var volumeVsBox := totalReal / box.volume as real;
    var boxVsTotal := box.volume as real / (side * side * side) as real;
    r := Ratios(surfaceArea, floorShare, wallShare, roofShare, volumeVsBox, boxVsTotal);
  }

  /**
    For a box that is not flat and a lattice of non-zero side, the result is
    `EmptyLatticeFound` exactly when every voxel is empty.
   */
  lemma EmptyExactlyWithoutBuilding(voxels: seq<int>, box: Box, side: int)
    requires box.volume != 0 && side != 0
    ensures RatiosOf(CountLabels(voxels), box, side).EmptyLatticeFound? <==> forall i :: 0 <= i < |voxels| ==> voxels[i] == 0
  {
    TotalCountsNonEmpty(voxels);
    if forall i :: 0 <= i < |voxels| ==> voxels[i] == 0 {
      AllEmpty(voxels);
    } else {
      var i :| 0 <= i < |voxels| && voxels[i] != 0;
      NotAllEmpty(voxels, i);
    }
  }

  lemma {:induction false} AllEmpty(voxels: seq<int>)
    requires forall i :: 0 <= i < |voxels| ==> voxels[i] == 0
    ensures multiset(voxels)[0] == |voxels|
  {
    if voxels != [] {
      var n := |voxels| - 1;
      assert voxels == voxels[..n] + [voxels[n]];
      AllEmpty(voxels[..n]);
    }
  }

  lemma NotAllEmpty(voxels: seq<int>, i: nat)
    requires i < |voxels| && voxels[i] != 0
    ensures multiset(voxels)[0] < |voxels|
  {
    assert voxels == voxels[..i] + [voxels[i]] + voxels[i + 1..];
    assert multiset(voxels)[0] == multiset(voxels[..i])[0] + multiset(voxels[i + 1..])[0];
    assert multiset(voxels[..i])[0] <= |voxels[..i]| && multiset(voxels[i + 1..])[0] <= |voxels[i + 1..]|;
  }

  /**
    With every label in 0..4, the surface share is the floor, wall and roof
    shares together, it is the share of voxels that are not interior, and
    each share lies between 0 and 1.
   */
  lemma SharesOfTheBuilding(voxels: seq<int>, box: Box, side: int)
    requires KnownLabels(voxels)
    ensures var c, r := CountLabels(voxels), RatiosOf(CountLabels(voxels), box, side);
            r.Ratios? ==>
              && r.surfaceArea == r.floor + r.walls + r.roof
              && r.surfaceArea == 1.0 - c.interior as real / c.total as real
              && 0.0 <= r.floor <= 1.0 && 0.0 <= r.walls <= 1.0 && 0.0 <= r.roof <= 1.0
              && 0.0 <= r.surfaceArea <= 1.0
  {
    var c := CountLabels(voxels);
    TotalIsSumOfLabels(voxels);
    if c.total > 0 {
      Shares(c.interior as real, c.walls as real, c.floor as real, c.roof as real, c.total as real);
    }
  }

  /** Shares of parts that add up to a positive whole. */
  lemma Shares(interior: real, walls: real, floor: real, roof: real, total: real)
    requires 0.0 <= interior && 0.0 <= walls && 0.0 <= floor && 0.0 <= roof
    requires total > 0.0 && total == interior + walls + floor + roof
    ensures (walls + roof + floor) / total == floor / total + walls / total + roof / total
    ensures (walls + roof + floor) / total == 1.0 - interior / total
    ensures 0.0 <= floor / total <= 1.0 && 0.0 <= walls / total <= 1.0 && 0.0 <= roof / total <= 1.0
    ensures 0.0 <= (walls + roof + floor) / total <= 1.0
  {
    assert (walls + roof + floor) / total + interior / total == total / total;
  }
}
