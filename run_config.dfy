/**
 * Step 1 of a graph run (backend/server.js lines 179-217): the run
 * configuration is rejected, before anything else happens, when both the
 * enable list and the disable list are non-empty, when a root input names a
 * node the catalog does not hold or omits one of that node's `data_in` keys,
 * or when an overwrite names a node the catalog does not hold or supplies no
 * `data_in` key. Root inputs are checked before overwrites, each in key order,
 * and the first failing entry decides the error.
 */
module RunConfigCheck {
  import opened OrderedMap
  import opened RunRecords

  /** The catalog look-up `Node.findOne({ node_id })`. */
  type Catalog = map<NodeId, CatalogNode>

  datatype ConfigError =
    | BothLists                        // "Only one of enable_list or disable_list can be provided."
    | RootNotFound(id: NodeId)         // "Root node … not found in database."
    | IncompleteRootInput(id: NodeId)  // "Incomplete data_in keys for root node …"
    | OverwriteNotFound(id: NodeId)    // "Overwrite node … not found in database."
    | EmptyOverwrite(id: NodeId)       // "data_in values must be provided for overwrite node …"

  predicate BothListsGiven(cfg: RunConfig) {
    |cfg.enableList| > 0 && |cfg.disableList| > 0
  }

  /** Every key the catalog node expects in `data_in` is supplied. */
  predicate Covers(required: DataMap, supplied: DataMap) {
    forall k :: k in Keys(required) ==> k in Keys(supplied)
  }

  /** The i-th root input passes: its node is in the catalog and all that node's `data_in` keys are supplied. */
  predicate RootOk(cat: Catalog, roots: OMap<DataMap>, i: nat)
    requires i < |roots|
  {
    roots[i].0 in cat && Covers(cat[roots[i].0].dataIn, Get(roots, roots[i].0))
  }

  /** The i-th overwrite passes: its node is in the catalog and at least one `data_in` key is supplied. */
  predicate OverwriteOk(cat: Catalog, overwrites: OMap<DataMap>, i: nat)
    requires i < |overwrites|
  {
    overwrites[i].0 in cat && |Get(overwrites, overwrites[i].0)| > 0
  }

  /** The error a failing root input reports. */
  function RootError(cat: Catalog, roots: OMap<DataMap>, i: nat): ConfigError
    requires i < |roots|
  {
    if roots[i].0 !in cat then RootNotFound(roots[i].0) else IncompleteRootInput(roots[i].0)
  }

  /** The error a failing overwrite reports. */
  function OverwriteError(cat: Catalog, overwrites: OMap<DataMap>, i: nat): ConfigError
    requires i < |overwrites|
  {
    if overwrites[i].0 !in cat then OverwriteNotFound(overwrites[i].0) else EmptyOverwrite(overwrites[i].0)
  }

  /** The run configuration passes every check. */
  ghost predicate Accepted(cfg: RunConfig, cat: Catalog) {
    && !BothListsGiven(cfg)
    && (forall i :: 0 <= i < |cfg.rootInputs| ==> RootOk(cat, cfg.rootInputs, i))
    && (forall i :: 0 <= i < |cfg.dataOverwrites| ==> OverwriteOk(cat, cfg.dataOverwrites, i))
  }

  /** `e` is the error the checks report: the first failing check, in source order. */
  ghost predicate RejectedWith(cfg: RunConfig, cat: Catalog, e: ConfigError) {
    if BothListsGiven(cfg) then e == BothLists
    else if exists i :: 0 <= i < |cfg.rootInputs| && !RootOk(cat, cfg.rootInputs, i) then
      exists i :: 0 <= i < |cfg.rootInputs| && !RootOk(cat, cfg.rootInputs, i) &&
        (forall j :: 0 <= j < i ==> RootOk(cat, cfg.rootInputs, j)) &&
        e == RootError(cat, cfg.rootInputs, i)
    else
      exists i :: 0 <= i < |cfg.dataOverwrites| && !OverwriteOk(cat, cfg.dataOverwrites, i) &&
        (forall j :: 0 <= j < i ==> OverwriteOk(cat, cfg.dataOverwrites, j)) &&
        e == OverwriteError(cat, cfg.dataOverwrites, i)
  }

  /** The checks of lines 179-217: `None` lets the run proceed. */
  method CheckConfig(cfg: RunConfig, cat: Catalog) returns (r: Option<ConfigError>)
    ensures r.None? <==> Accepted(cfg, cat)
    ensures r.Some? ==> RejectedWith(cfg, cat, r.value)
  {
    if |cfg.enableList| > 0 && |cfg.disableList| > 0 {
      return Some(BothLists);
    }
    var roots := cfg.rootInputs;
    var i := 0;
    while i < |roots|
      invariant 0 <= i <= |roots|
      invariant forall j :: 0 <= j < i ==> RootOk(cat, roots, j)
    {
      var nodeId := roots[i].0;
      HasIff(roots, nodeId);
      if nodeId !in cat {
        assert !RootOk(cat, roots, i) && RootError(cat, roots, i) == RootNotFound(nodeId);
        return Some(RootNotFound(nodeId));
      }
      var supplied := Get(roots, nodeId);
      if !(forall k :: k in Keys(cat[nodeId].dataIn) ==> k in Keys(supplied)) {
        assert !RootOk(cat, roots, i) && RootError(cat, roots, i) == IncompleteRootInput(nodeId);
        return Some(IncompleteRootInput(nodeId));
      }
      i := i + 1;
    }
    var overwrites := cfg.dataOverwrites;
    i := 0;
    while i < |overwrites|
      invariant 0 <= i <= |overwrites|
      invariant forall j :: 0 <= j < i ==> OverwriteOk(cat, overwrites, j)
    {
      var nodeId := overwrites[i].0;
      HasIff(overwrites, nodeId);
      if nodeId !in cat {
        assert !OverwriteOk(cat, overwrites, i) && OverwriteError(cat, overwrites, i) == OverwriteNotFound(nodeId);
        return Some(OverwriteNotFound(nodeId));
      }
      if |Get(overwrites, nodeId)| == 0 {
        assert !OverwriteOk(cat, overwrites, i) && OverwriteError(cat, overwrites, i) == EmptyOverwrite(nodeId);
        return Some(EmptyOverwrite(nodeId));
      }
      i := i + 1;
    }
    return None;
  }

  /** Root inputs are checked before overwrites: a bad root input is reported even when an overwrite is bad too. */
  lemma RootsBeforeOverwrites(cfg: RunConfig, cat: Catalog, e: ConfigError, i: nat)
    requires !BothListsGiven(cfg)
    requires i < |cfg.rootInputs| && !RootOk(cat, cfg.rootInputs, i)
    requires RejectedWith(cfg, cat, e)
    ensures e.RootNotFound? || e.IncompleteRootInput?
  {
  }

  /** Exactly one error is reported for a rejected configuration. */
  lemma {:induction false} RejectionIsUnique(cfg: RunConfig, cat: Catalog, e1: ConfigError, e2: ConfigError)
    requires RejectedWith(cfg, cat, e1) && RejectedWith(cfg, cat, e2)
    ensures e1 == e2
  {
    if !BothListsGiven(cfg) {
      if exists i :: 0 <= i < |cfg.rootInputs| && !RootOk(cat, cfg.rootInputs, i) {
        var i1 :| 0 <= i1 < |cfg.rootInputs| && !RootOk(cat, cfg.rootInputs, i1) &&
          (forall j :: 0 <= j < i1 ==> RootOk(cat, cfg.rootInputs, j)) && e1 == RootError(cat, cfg.rootInputs, i1);
        var i2 :| 0 <= i2 < |cfg.rootInputs| && !RootOk(cat, cfg.rootInputs, i2) &&
          (forall j :: 0 <= j < i2 ==> RootOk(cat, cfg.rootInputs, j)) && e2 == RootError(cat, cfg.rootInputs, i2);
        assert i1 == i2;
      } else {
        var i1 :| 0 <= i1 < |cfg.dataOverwrites| && !OverwriteOk(cat, cfg.dataOverwrites, i1) &&
          (forall j :: 0 <= j < i1 ==> OverwriteOk(cat, cfg.dataOverwrites, j)) && e1 == OverwriteError(cat, cfg.dataOverwrites, i1);
        var i2 :| 0 <= i2 < |cfg.dataOverwrites| && !OverwriteOk(cat, cfg.dataOverwrites, i2) &&
          (forall j :: 0 <= j < i2 ==> OverwriteOk(cat, cfg.dataOverwrites, j)) && e2 == OverwriteError(cat, cfg.dataOverwrites, i2);
        assert i1 == i2;
      }
    }
  }
}
