/**
 * `POST /run-graph/:id` (backend/server.js lines 170-445) end to end:
 * the configuration checks, the node table, the in-degrees, the seeded
 * queue, the processing loop, the end-of-run clean-up and the assembled
 * run result. The catalog look-ups, the graph fetch, the node processor and
 * the generated run id are parameters.
 */
module RunGraph {
  import opened OrderedMap
  import opened RunRecords
  import opened Collections
  import opened PriorityQueue
  import opened RunConfigCheck
  import opened RunSetup
  import opened RunLoop
  import opened RunFinish
  import opened SaveNodeResult

  /** The two ways the body of the handler throws (HTTP 500). */
  datatype Failure =
    | UnresolvedEdgeTarget   // line 267: `targetNode.node_id` on a null look-up
    | RootNotInTable         // line 278: `nodesMap[nodeId].level` on a missing entry

  /** What the handler answers: 400, 404, 500 or 200 with the stored result. */
  datatype Outcome =
    | Rejected(error: ConfigError)
    | GraphNotFound
    | Crashed(failure: Failure)
    | Completed(result: RunResult)

  /** The HTTP status the handler sends for an outcome. */
  function StatusCode(o: Outcome): (code: int)
    ensures o.Completed? <==> code == 200
  {
    match o
    case Rejected(_) => 400
    case GraphNotFound => 404
    case Crashed(_) => 500
    case Completed(_) => 200
  }

  /** Some edge of the graph has a destination the catalog does not resolve. */
  predicate SomeEdgeUnresolved(g: PopulatedGraph, index: NodeIndex) {
    exists i :: 0 <= i < |g.edges| && g.edges[i].dst !in index
  }

  /** Some root input names a node_id that no node of the graph carries. */
  predicate SomeRootOutside(g: PopulatedGraph, roots: OMap<DataMap>) {
    exists i :: 0 <= i < |roots| && roots[i].0 !in Elems(NodeIds(g.nodes))
  }

  /**
   * What a completed run stores, read off the result alone: one node result
   * per distinct node_id of the graph, in first-occurrence order; a repeat-free
   * topological order of table nodes; `processed` status exactly for the nodes
   * in it; every other node disabled; no reserved key left in any data_in;
   * every disabled node alone in an island of its own and every other node in
   * the `"Enabled"` island.
   */
  ghost predicate StoredResult(res: RunResult, order: seq<NodeId>) {
    var nr := res.nodeResults;
    && Keys(nr) == order && UniqueKeys(nr)
    && Distinct(res.topologicalOrder)
    && (forall x :: x in res.topologicalOrder ==> x in order)
    && (forall i :: 0 <= i < |nr| ==> (nr[i].1.status == Processed <==> nr[i].0 in res.topologicalOrder))
    && (forall i :: 0 <= i < |nr| && nr[i].0 !in res.topologicalOrder ==> nr[i].1.isEnabled == False)
    && (forall i, k :: 0 <= i < |nr| && k in Reserved() ==> !Has(nr[i].1.dataIn, k))
    && (forall i :: 0 <= i < |nr| && nr[i].1.isEnabled == False ==>
          exists j :: Disabled(j) in res.islands && res.islands[Disabled(j)] == [nr[i].0])
    && (forall i, j: nat, j': nat ::
          (0 <= i < |nr| && Disabled(j) in res.islands && Disabled(j') in res.islands &&
           nr[i].0 in res.islands[Disabled(j)] && nr[i].0 in res.islands[Disabled(j')]) ==> j == j')
    && (forall i :: 0 <= i < |nr| && nr[i].1.isEnabled != False ==>
          EnabledBucket in res.islands && nr[i].0 in res.islands[EnabledBucket])
  }

  /** What `BuildTable` promises of the run's node table. */
  ghost predicate TableBuilt(nodes: seq<CatalogNode>, enableList: seq<NodeId>, disableList: seq<NodeId>, t: NodeTable) {
    && TableOk(t) && t.order == Dedupe(NodeIds(nodes))
    && (forall i :: 0 <= i < |nodes| && LastWith(nodes, i, |nodes|) ==>
          nodes[i].nodeId in t.nodes && t.nodes[nodes[i].nodeId] == Fresh(nodes[i], t.nodes[nodes[i].nodeId].isEnabled))
    && (forall id :: id in t.nodes ==> FlagFor(t.nodes[id].isEnabled, id, enableList, disableList))
    && (forall id :: id in t.nodes ==> t.nodes[id].status == Unprocessed)
  }

  /** What `CountInDegrees` promises when every edge target resolves. */
  ghost predicate DegreesCounted(t: NodeTable, edges: seq<CatalogEdge>, index: NodeIndex, deg: map<NodeId, int>) {
    && (forall i :: 0 <= i < |edges| ==> edges[i].dst in index)
    && (forall id :: id in deg <==> id in t.order || Resolving(Targets(edges), index, id) > 0)
    && (forall id :: id in deg ==> deg[id] == Resolving(Targets(edges), index, id))
  }

  /** What `SeedRoots` promises when every root is a table node. */
  ghost predicate RootsSeeded(t: NodeTable, deg: map<NodeId, int>, roots: OMap<DataMap>,
                              nodes: map<NodeId, WorkingNode>, queue: seq<NodeId>) {
    && t.nodes.Keys <= deg.Keys && nodes.Keys == t.nodes.Keys
    && (forall j :: 0 <= j < |roots| ==> roots[j].0 in t.nodes)
    && (forall id :: id in t.nodes && id !in Keys(roots) ==> nodes[id] == t.nodes[id])
    && (forall j :: 0 <= j < |roots| ==> nodes[roots[j].0] == Seed(t.nodes[roots[j].0], roots[j].1, deg[roots[j].0]))
    && Sorted(queue) && Once(queue)
    && (forall x :: x in queue <==> x in Keys(roots) && x in deg && deg[x] <= 0)
  }

  /**
   * The state the processing loop starts from: the table built from the
   * graph's nodes and the lists, the counted in-degrees, the seeded roots
   * and queue, and nothing processed yet.
   */
  ghost predicate StartOf(g: PopulatedGraph, cfg: RunConfig, index: NodeIndex, s0: EngineState) {
    && s0.processed == []
    && exists t: NodeTable ::
         && TableBuilt(g.nodes, cfg.enableList, cfg.disableList, t)
         && DegreesCounted(t, g.edges, index, s0.inDegree)
         && RootsSeeded(t, s0.inDegree, cfg.rootInputs, s0.nodes, s0.queue)
  }

  /** The graph's nodes and the lists leave one possible table. */
  lemma TableUnique(nodes: seq<CatalogNode>, enableList: seq<NodeId>, disableList: seq<NodeId>, t: NodeTable, t': NodeTable)
    requires TableBuilt(nodes, enableList, disableList, t) && TableBuilt(nodes, enableList, disableList, t')
    ensures t == t'
  {
    assert t.nodes.Keys == Elems(t.order) == Elems(t'.order) == t'.nodes.Keys;
    forall id | id in t.nodes ensures t.nodes[id] == t'.nodes[id] {
      assert id in Elems(NodeIds(nodes));
      var k :| 0 <= k < |nodes| && NodeIds(nodes)[k] == id;
      LastOccurrence(nodes, |nodes|, k);
      var i :| k <= i < |nodes| && LastWith(nodes, i, |nodes|) && nodes[i].nodeId == id;
      var e, e' := t.nodes[id].isEnabled, t'.nodes[id].isEnabled;
      assert FlagFor(e, id, enableList, disableList) && FlagFor(e', id, enableList, disableList);
      assert e == e';
    }
  }

  /** The table and the edges leave one possible in-degree map. */
  lemma DegreesUnique(t: NodeTable, edges: seq<CatalogEdge>, index: NodeIndex, deg: map<NodeId, int>, deg': map<NodeId, int>)
    requires DegreesCounted(t, edges, index, deg) && DegreesCounted(t, edges, index, deg')
    ensures deg == deg'
  {
    assert deg.Keys == deg'.Keys;
  }

  /** The table, the in-degrees and the root inputs leave one possible seeded table and queue. */
  lemma SeededUnique(t: NodeTable, deg: map<NodeId, int>, roots: OMap<DataMap>,
                     nodes: map<NodeId, WorkingNode>, queue: seq<NodeId>,
                     nodes': map<NodeId, WorkingNode>, queue': seq<NodeId>)
    requires RootsSeeded(t, deg, roots, nodes, queue) && RootsSeeded(t, deg, roots, nodes', queue')
    ensures nodes == nodes' && queue == queue'
  {
    forall id | id in nodes ensures nodes[id] == nodes'[id] {
      if id in Keys(roots) {
        var j :| 0 <= j < |Keys(roots)| && Keys(roots)[j] == id;
        assert roots[j].0 == id;
      }
    }
    assert multiset(queue) == multiset(queue') by {
      forall x ensures multiset(queue)[x] == multiset(queue')[x] {
        assert x in queue <==> x in queue';
        assert multiset(queue)[x] <= 1 && multiset(queue')[x] <= 1;
      }
    }
    SortedUnique(queue, queue');
  }

  /** Everything the start state is built from leaves one possible start state. */
  lemma StartUnique(g: PopulatedGraph, cfg: RunConfig, index: NodeIndex, s0: EngineState, s0': EngineState)
    requires StartOf(g, cfg, index, s0) && StartOf(g, cfg, index, s0')
    ensures s0 == s0'
  {
    var t :| && TableBuilt(g.nodes, cfg.enableList, cfg.disableList, t)
             && DegreesCounted(t, g.edges, index, s0.inDegree)
             && RootsSeeded(t, s0.inDegree, cfg.rootInputs, s0.nodes, s0.queue);
    var t' :| && TableBuilt(g.nodes, cfg.enableList, cfg.disableList, t')
              && DegreesCounted(t', g.edges, index, s0'.inDegree)
              && RootsSeeded(t', s0'.inDegree, cfg.rootInputs, s0'.nodes, s0'.queue);
    TableUnique(g.nodes, cfg.enableList, cfg.disableList, t, t');
    DegreesUnique(t, g.edges, index, s0.inDegree, s0'.inDegree);
    SeededUnique(t, s0.inDegree, cfg.rootInputs, s0.nodes, s0.queue, s0'.nodes, s0'.queue);
  }

  /** The table left after the end-of-run clean-up of state `s`. */
  ghost function FinishedNodes(s: EngineState): (r: map<NodeId, WorkingNode>)
    ensures r.Keys == s.nodes.Keys
    ensures forall id :: id in s.nodes ==> r[id] == Finished(s.nodes[id], id in s.processed)
  {
    map id | id in s.nodes :: Finished(s.nodes[id], id in s.processed)
  }

  /**
   * The result stores what the run reached in `s`: the snapshot of every
   * cleaned-up node under its id in table order, the processing order, and
   * the islands of the cleaned-up table.
   */
  ghost predicate ResultOfRun(res: RunResult, order: seq<NodeId>, s: EngineState) {
    var nr := res.nodeResults;
    && AllIn(order, FinishedNodes(s))
    && Keys(nr) == order
    && (forall i :: 0 <= i < |nr| ==>
          nr[i].0 in s.nodes && nr[i].1 == Snapshot(Finished(s.nodes[nr[i].0], nr[i].0 in s.processed)))
    && res.topologicalOrder == s.processed
    && IslandsHold(res.islands, Select(order, FinishedNodes(s), true), Select(order, FinishedNodes(s), false))
  }

  /** The state the loop starts from satisfies the loop invariant. */
  lemma SeededInv(t: NodeTable, deg: map<NodeId, int>, roots: OMap<DataMap>, t1: NodeTable, queue: seq<NodeId>)
    requires TableOk(t) && t.nodes.Keys <= deg.Keys
    requires forall id :: id in t.nodes ==> t.nodes[id].status == Unprocessed
    requires forall j :: 0 <= j < |roots| ==> roots[j].0 in t.nodes
    requires t1.nodes.Keys == t.nodes.Keys
    requires forall id :: id in t.nodes && id !in Keys(roots) ==> t1.nodes[id] == t.nodes[id]
    requires forall j :: 0 <= j < |roots| ==>
               t1.nodes[roots[j].0] == Seed(t.nodes[roots[j].0], roots[j].1, deg[roots[j].0])
    requires Sorted(queue) && Once(queue)
    requires forall x :: x in queue <==> x in Keys(roots) && x in deg && deg[x] <= 0
    ensures Inv(EngineState(t1.nodes, deg, queue, []))
  {
    forall id | id in t1.nodes ensures t1.nodes[id].status != Processed {
      if id in Keys(roots) {
        var j :| 0 <= j < |Keys(roots)| && Keys(roots)[j] == id;
        assert t1.nodes[roots[j].0] == Seed(t.nodes[roots[j].0], roots[j].1, deg[roots[j].0]);
      }
    }
  }

  /** The result assembled from the drained state and the cleaned table has every stored property. */
  lemma CompletedResult(order: seq<NodeId>, s: EngineState, fin: NodeTable, res: RunResult)
    requires Distinct(order) && Elems(order) == s.nodes.Keys && Inv(s)
    requires fin.order == order && fin.nodes.Keys == s.nodes.Keys
    requires forall id :: id in s.nodes ==> fin.nodes[id] == Finished(s.nodes[id], id in s.processed)
    requires Keys(res.nodeResults) == order && UniqueKeys(res.nodeResults)
    requires forall i :: 0 <= i < |res.nodeResults| ==> res.nodeResults[i].1 == Snapshot(fin.nodes[order[i]])
    requires res.topologicalOrder == s.processed
    requires IslandsHold(res.islands, Select(order, fin.nodes, true), Select(order, fin.nodes, false))
    ensures StoredResult(res, order)
  {
    var nr := res.nodeResults;
    forall i | 0 <= i < |nr| ensures
      && (nr[i].1.status == Processed <==> nr[i].0 in res.topologicalOrder)
      && (nr[i].0 !in res.topologicalOrder ==> nr[i].1.isEnabled == False)
      && (forall k :: k in Reserved() ==> !Has(nr[i].1.dataIn, k))
    {
      var id := order[i];
      assert nr[i].0 == id && id in s.nodes;
      FinishedStripsReserved(s.nodes[id], id in s.processed);
    }
    assert fin.nodes.Keys == Elems(fin.order);
    forall i | 0 <= i < |nr| ensures
      && (nr[i].1.isEnabled == False ==> exists j :: Disabled(j) in res.islands && res.islands[Disabled(j)] == [nr[i].0])
      && (nr[i].1.isEnabled != False ==> EnabledBucket in res.islands && nr[i].0 in res.islands[EnabledBucket])
      && (forall j: nat, j': nat ::
            (Disabled(j) in res.islands && Disabled(j') in res.islands &&
             nr[i].0 in res.islands[Disabled(j)] && nr[i].0 in res.islands[Disabled(j')]) ==> j == j')
    {
      var id := order[i];
      assert nr[i].0 == id && id in fin.nodes && nr[i].1.isEnabled == fin.nodes[id].isEnabled;
      IslandsPartition(fin, res.islands, id);
    }
  }

  /** The same result, read as what the run reached in `s`. */
  lemma CompletedRun(order: seq<NodeId>, s: EngineState, fin: NodeTable, res: RunResult)
    requires Elems(order) == s.nodes.Keys
    requires fin.order == order && fin.nodes.Keys == s.nodes.Keys
    requires forall id :: id in s.nodes ==> fin.nodes[id] == Finished(s.nodes[id], id in s.processed)
    requires Keys(res.nodeResults) == order
    requires forall i :: 0 <= i < |res.nodeResults| ==> res.nodeResults[i].1 == Snapshot(fin.nodes[order[i]])
    requires res.topologicalOrder == s.processed
    requires IslandsHold(res.islands, Select(order, fin.nodes, true), Select(order, fin.nodes, false))
    ensures ResultOfRun(res, order, s)
  {
    assert fin.nodes == FinishedNodes(s);
    forall i | 0 <= i < |res.nodeResults| ensures res.nodeResults[i].0 in s.nodes {
      assert res.nodeResults[i].0 == order[i];
    }
  }

  /** The handler: each step in source order, with the first failure deciding the answer. */
  method RunGraph(graphId: string, runId: string, cfg: RunConfig, cat: Catalog, index: NodeIndex,
                  graph: Option<PopulatedGraph>, proc: Processor) returns (r: Outcome)
    requires UniqueKeys(cfg.rootInputs)
    ensures r.Rejected? <==> !Accepted(cfg, cat)
    ensures r.Rejected? ==> RejectedWith(cfg, cat, r.error)
    ensures r == GraphNotFound <==> Accepted(cfg, cat) && graph.None?
    ensures r == Crashed(UnresolvedEdgeTarget) <==>
              Accepted(cfg, cat) && graph.Some? && SomeEdgeUnresolved(graph.value, index)
    ensures r == Crashed(RootNotInTable) <==>
              Accepted(cfg, cat) && graph.Some? && !SomeEdgeUnresolved(graph.value, index) &&
              SomeRootOutside(graph.value, cfg.rootInputs)
    ensures r.Completed? ==>
              && r.result.runId == runId && r.result.graphId == graphId && r.result.graphConfig == cfg
              && StoredResult(r.result, Dedupe(NodeIds(graph.value.nodes)))
    ensures r.Completed? ==>
              exists s0 :: StartOf(graph.value, cfg, index, s0) && Inv(s0) &&
                ResultOfRun(r.result, Dedupe(NodeIds(graph.value.nodes)), Run(s0, cfg.dataOverwrites, proc, index))
  {
    var err := CheckConfig(cfg, cat);
    if err.Some? {
      return Rejected(err.value);
    }
    if graph.None? {
      return GraphNotFound;
    }
    var g := graph.value;
    var t := BuildTable(g.nodes, cfg.enableList, cfg.disableList);
    var deg := CountInDegrees(t, g.edges, index);
    if deg.None? {
      return Crashed(UnresolvedEdgeTarget);
    }
    var seeded := SeedRoots(t, deg.value, cfg.rootInputs);
    if seeded.None? {
      return Crashed(RootNotInTable);
    }
    var (t1, queue) := seeded.value;
    SeededInv(t, deg.value, cfg.rootInputs, t1, queue);
    ghost var s0 := EngineState(t1.nodes, deg.value, queue, []);
    assert TableBuilt(g.nodes, cfg.enableList, cfg.disableList, t);
    assert DegreesCounted(t, g.edges, index, deg.value);
    assert RootsSeeded(t, deg.value, cfg.rootInputs, t1.nodes, queue);
    assert StartOf(g, cfg, index, s0);
    var s := Drain(EngineState(t1.nodes, deg.value, queue, []), cfg.dataOverwrites, proc, index);
    var fin := Finalize(NodeTable(t.order, s.nodes), s.processed);
    var res := SaveNodeResult.SaveNodeResult(runId, graphId, fin, cfg, s.processed);
    CompletedResult(t.order, s, fin, res);
    CompletedRun(t.order, s, fin, res);
    return Completed(res);
  }
}
