/**
  The key merge of `expressive` and `AVG_Properties`: a table of named
  columns (lists of numbers) absorbs one dictionary of columns after
  another; a column already present is extended (`+=`), a new one is
  added (`update` after the `KeyError`). The table's keys are then the
  union of all the keys seen, and each column is the in-order
  concatenation of that key's incoming lists.
 */
module PropertyMerge {
  import opened Generation
  import opened SurfaceRatio

  /** A dictionary of named columns (the source's keys are strings; any key type will do). */
  type Columns<K> = map<K, seq<real>>

  /** The column `incoming` contributes under `key`: its list, or nothing when the key is absent. */
  function Part<K>(incoming: Columns<K>, key: K): seq<real>
  {
    if key in incoming then incoming[key] else []
  }

  /** The table after absorbing `incoming`. */
  function Merged<K>(columns: Columns<K>, incoming: Columns<K>): Columns<K>
  {
    map key | key in columns.Keys + incoming.Keys :: Part(columns, key) + Part(incoming, key)
  }

  /** The table after absorbing each of `items` in turn, starting from an empty one. */
  function Gathered<K>(items: seq<Columns<K>>): Columns<K>
  {
    if items == [] then map[] else Merged(Gathered(items[..|items| - 1]), items[|items| - 1])
  }

  /** The union of the items' key sets. */
  function KeysOf<K>(items: seq<Columns<K>>): set<K>
  {
    if items == [] then {} else KeysOf(items[..|items| - 1]) + items[|items| - 1].Keys
  }

  /** The lists `items` hold under `key`, concatenated in order. */
  function Column<K>(items: seq<Columns<K>>, key: K): seq<real>
  {
    if items == [] then [] else Column(items[..|items| - 1], key) + Part(items[|items| - 1], key)
  }

  /** The gathered keys are exactly the keys of the items. */
  lemma {:induction false} GatheredKeys<K>(items: seq<Columns<K>>)
    ensures Gathered(items).Keys == KeysOf(items)
  {
    if items != [] {
      GatheredKeys(items[..|items| - 1]);
    }
  }

  /** A key is among the items' keys exactly when some item has it. */
  lemma {:induction false} KeysOfMeaning<K>(items: seq<Columns<K>>, key: K)
    ensures key in KeysOf(items) <==> exists i :: 0 <= i < |items| && key in items[i]
  {
    if items != [] {
      var n := |items| - 1;
      KeysOfMeaning(items[..n], key);
      if key in KeysOf(items[..n]) {
        var i :| 0 <= i < n && key in items[..n][i];
        assert key in items[i];
      }
      if exists i :: 0 <= i < n && key in items[i] {
        var i :| 0 <= i < n && key in items[i];
        assert key in items[..n][i];
      }
    }
  }

  /** Each gathered column is the in-order concatenation of that key's incoming lists. */
  lemma {:induction false} GatheredColumns<K>(items: seq<Columns<K>>, key: K)
    ensures key in Gathered(items) ==> Gathered(items)[key] == Column(items, key)
    ensures key !in Gathered(items) ==> Column(items, key) == []
  {
    if items != [] {
      GatheredColumns(items[..|items| - 1], key);
    }
  }

  /** The running table of a merge loop, updated in place. */
  class PropertyTable<K(==)> {
    var columns: Columns<K>

    constructor ()
      ensures columns == map[]
    {
      columns := map[];
    }

    /**
      One pass of the merge loop: for every key of `incoming`, extend the
      existing column or, on the `KeyError`, add the key with its list.
     */
    method Absorb(incoming: Columns<K>)
      modifies this
      ensures columns == Merged(old(columns), incoming)
    {
      var pending := incoming.Keys;
      var done: set<K> := {};
      MergedNothing(columns);
      while pending != {}
        invariant pending == incoming.Keys - done && done <= incoming.Keys
        invariant columns == Merged(old(columns), Restricted(incoming, done))
        decreases pending
      {
        var key :| key in pending;
        MergeOneMore(old(columns), incoming, done, key);
        if key in columns {
          columns := columns[key := columns[key] + incoming[key]];
        } else {
          columns := columns[key := incoming[key]];
        }
        pending := pending - {key};
        done := done + {key};
      }
      RestrictedToAll(incoming, done);
    }
  }

  /** The entries of `m` whose keys are in `keys`. */
  function Restricted<K>(m: Columns<K>, keys: set<K>): Columns<K>
  {
    map key | key in m.Keys * keys :: m[key]
  }

  lemma RestrictedToAll<K>(m: Columns<K>, keys: set<K>)
    requires m.Keys <= keys
    ensures Restricted(m, keys) == m
  {
  }

  /**
    Merging one more key of `incoming` updates just that key's column: it is
    extended when the table has it, and added otherwise.
   */
  lemma MergeOneMore<K>(columns: Columns<K>, incoming: Columns<K>, done: set<K>, key: K)
    requires key in incoming && key !in done
    ensures var before, after := Merged(columns, Restricted(incoming, done)), Merged(columns, Restricted(incoming, done + {key}));
            && (key in before ==> after == before[key := before[key] + incoming[key]])
            && (key !in before ==> after == before[key := incoming[key]])
  {
    var before := Merged(columns, Restricted(incoming, done));
    MergeStep(columns, incoming, done, key);
    assert Part(Restricted(incoming, done), key) == [];
    if key in before {
      assert before[key] == Part(columns, key) + [] == Part(columns, key);
    } else {
      assert Part(columns, key) + incoming[key] == incoming[key];
    }
  }

  lemma MergeStep<K>(columns: Columns<K>, incoming: Columns<K>, done: set<K>, key: K)
    requires key in incoming && key !in done
    ensures Merged(columns, Restricted(incoming, done + {key}))
         == Merged(columns, Restricted(incoming, done))[key := Part(columns, key) + incoming[key]]
  {
    var after := Merged(columns, Restricted(incoming, done + {key}));
    var updated := Merged(columns, Restricted(incoming, done))[key := Part(columns, key) + incoming[key]];
    assert after.Keys == updated.Keys;
    forall k | k in after ensures after[k] == updated[k] {
      if k != key {
        assert Part(Restricted(incoming, done + {key}), k) == Part(Restricted(incoming, done), k);
      }
    }
  }

  /** Merging nothing leaves the table as it is. */
  lemma MergedNothing<K>(columns: Columns<K>)
    ensures Merged(columns, Restricted(map[], {})) == columns
  {
    forall k | k in columns ensures Merged(columns, Restricted(map[], {}))[k] == columns[k] {
      assert Part(columns, k) + [] == columns[k];
    }
  }

  /** The merge loop over a list of dictionaries, as `expressive` and `AVG_Properties` run it. */
  method Gather<K(==)>(items: seq<Columns<K>>) returns (columns: Columns<K>)
    ensures columns == Gathered(items)
  {
    var table := new PropertyTable<K>();
    for i := 0 to |items|
      invariant table.columns == Gathered(items[..i])
    {
      assert items[..i + 1][..i] == items[..i];
      table.Absorb(items[i]);
    }
    assert items[..|items|] == items;
    columns := table.columns;
  }

  // ---------------------------------------------------------------------------
  // The ratios gathered by `expressive`

  /** The keys of the dictionary `surface_ratio` returns. */
  datatype RatioName = SurfaceArea | Floor | Walls | Roof | BuildingVsBox | BoxVsTotal

  /** Each key as the source spells it. */
  function KeyText(name: RatioName): string
  {
    match name
    case SurfaceArea => "Surface Area"
    case Floor => "Floor"
    case Walls => "Walls"
    case Roof => "Roof"
    case BuildingVsBox => "Building vs BB Volume Ratio"
    case BoxVsTotal => "BB vs Total Volume Ratio"
  }

  const RatioNames: set<RatioName> := {SurfaceArea, Floor, Walls, Roof, BuildingVsBox, BoxVsTotal}

  /** The value `r` holds under `name`. */
  function Field(r: Ratios, name: RatioName): real
    requires r.Ratios?
  {
    match name
    case SurfaceArea => r.surfaceArea
    case Floor => r.floor
    case Walls => r.walls
    case Roof => r.roof
    case BuildingVsBox => r.volumeVsBox
    case BoxVsTotal => r.boxVsTotal
  }

  /** The dictionary `surface_ratio` returns: every ratio as a one-element list. */
  function RatioColumns(r: Ratios): Columns<RatioName>
    requires r.Ratios?
  {
    map name | name in RatioNames :: [Field(r, name)]
  }

  predicate AllMeasured(ratios: seq<Ratios>) {
    forall i :: 0 <= i < |ratios| ==> ratios[i].Ratios?
  }

  function RatioDictionaries(ratios: seq<Ratios>): (r: seq<Columns<RatioName>>)
    requires AllMeasured(ratios)
    ensures |r| == |ratios|
  {
    seq(|ratios|, i requires 0 <= i < |ratios| && ratios[i].Ratios? => RatioColumns(ratios[i]))
  }

  /**
    The ratio columns `expressive` gathers from the lattices' results: the
    0 that `surface_ratio` returns for an empty lattice has no `keys()`, so
    any empty lattice ends the call with an `AttributeError` (`None`).
   */
  function ExpressiveRatios(ratios: seq<Ratios>): (r: Option<Columns<RatioName>>)
    ensures r.None? <==> exists i :: 0 <= i < |ratios| && ratios[i].EmptyLatticeFound?
  {
    if AllMeasured(ratios) then Some(Gathered(RatioDictionaries(ratios))) else None
  }

  /**
    When every lattice is measured and there is at least one, the gathered
    table has exactly the six ratio keys, and each column lists that ratio
    of every lattice, in lattice order.
   */
  lemma ExpressiveRatiosPerLattice(ratios: seq<Ratios>)
    requires AllMeasured(ratios) && ratios != []
    ensures ExpressiveRatios(ratios).Some?
    ensures var table := ExpressiveRatios(ratios).value;
            && table.Keys == RatioNames
            && forall name :: name in RatioNames ==>
                 (|table[name]| == |ratios| && forall i :: 0 <= i < |ratios| ==> table[name][i] == Field(ratios[i], name))
  {
    var items := RatioDictionaries(ratios);
    GatheredKeys(items);
    RatioKeys(ratios);
    forall name | name in RatioNames
      ensures |Gathered(items)[name]| == |ratios|
      ensures forall i :: 0 <= i < |ratios| ==> Gathered(items)[name][i] == Field(ratios[i], name)
    {
      GatheredColumns(items, name);
      RatioColumn(ratios, name);
    }
  }

  /** Every measured lattice contributes the six ratio keys. */
  lemma {:induction false} RatioKeys(ratios: seq<Ratios>)
    requires AllMeasured(ratios) && ratios != []
    ensures KeysOf(RatioDictionaries(ratios)) == RatioNames
  {
    var n := |ratios| - 1;
    assert RatioDictionaries(ratios)[..n] == RatioDictionaries(ratios[..n]);
    if n > 0 {
      RatioKeys(ratios[..n]);
    }
  }

  /** One ratio's column lists that ratio of every lattice. */
  lemma {:induction false} RatioColumn(ratios: seq<Ratios>, name: RatioName)
    requires AllMeasured(ratios)
    ensures var column := Column(RatioDictionaries(ratios), name);
            |column| == |ratios| && forall i :: 0 <= i < |ratios| ==> column[i] == Field(ratios[i], name)
  {
    if ratios != [] {
      var n := |ratios| - 1;
      RatioColumn(ratios[..n], name);
      assert RatioDictionaries(ratios)[..n] == RatioDictionaries(ratios[..n]);
      assert Part(RatioDictionaries(ratios)[n], name) == [Field(ratios[n], name)];
    }
  }

  /** An empty lattice anywhere makes `expressive` fail. */
  lemma EmptyLatticeFails(ratios: seq<Ratios>, i: nat)
    requires i < |ratios| && ratios[i].EmptyLatticeFound?
    ensures ExpressiveRatios(ratios).None?
  {
  }
}
