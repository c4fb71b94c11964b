/**
 * Step 2 of a graph run (backend/server.js lines 220-296): the run's node
 * table `nodesMap` is built from the graph's nodes, in-degrees are counted
 * from the graph's edges, and the root inputs seed the ready queue.
 */
module RunSetup {
  import opened OrderedMap
  import opened RunRecords
  import opened Collections
  import opened PriorityQueue

  /** `nodesMap`: the keys in insertion order, and the entry under each key. */
  datatype NodeTable = NodeTable(order: seq<NodeId>, nodes: map<NodeId, WorkingNode>)

  ghost predicate TableOk(t: NodeTable) {
    Distinct(t.order) && Elems(t.order) == t.nodes.Keys
  }

  /** The catalog look-up `Node.findById(_id)`, giving the stored node's node_id; an id it lacks resolves to null. */
  type NodeIndex = map<ObjectId, NodeId>

  function NodeIds(nodes: seq<CatalogNode>): (ids: seq<NodeId>)
    ensures |ids| == |nodes| && forall i :: 0 <= i < |nodes| ==> ids[i] == nodes[i].nodeId
  {
    seq(|nodes|, i requires 0 <= i < |nodes| => nodes[i].nodeId)
  }

  /** The ids of `s` once each, in order of first occurrence. */
  function Dedupe(s: seq<NodeId>): (r: seq<NodeId>)
    ensures Distinct(r) && Elems(r) == Elems(s)
  {
    if s == [] then []
    else
      var p := Dedupe(s[..|s| - 1]);
      var x := s[|s| - 1];
      assert Elems(s) == Elems(s[..|s| - 1]) + {x} by {
        assert s == s[..|s| - 1] + [x];
      }
      if x in p then p
      else
        DistinctConcat(p, [x]);
        assert Elems(p + [x]) == Elems(p) + {x};
        p + [x]
  }

  // ---------------------------------------------------------------------
  // The node table (lines 231-257)

  /** The run's working copy of a graph node: empty data_in, the catalog data_out, unprocessed, no level. */
  function Fresh(n: CatalogNode, e: Enabled): WorkingNode {
    WorkingNode(n.nodeId, [], n.dataOut, n.pathsIn, n.pathsOut, Unprocessed, e, None)
  }

  /**
   * The `is_enabled` the lists give node `id`: membership when only the
   * enable list is non-empty, non-membership when the disable list is
   * non-empty (it is consulted last), null when both are empty.
   */
  ghost predicate FlagFor(e: Enabled, id: NodeId, enableList: seq<NodeId>, disableList: seq<NodeId>) {
    && (|disableList| > 0 ==> (e == False <==> id in disableList) && e != Unset)
    && (|disableList| == 0 && |enableList| > 0 ==> (e == True <==> id in enableList) && e != Unset)
    && (|disableList| == 0 && |enableList| == 0 ==> e == Unset)
  }

  /** No later graph node carries the same node_id as the i-th. */
  predicate LastWith(nodes: seq<CatalogNode>, i: nat, n: nat)
    requires i < n <= |nodes|
  {
    forall j :: i < j < n ==> nodes[j].nodeId != nodes[i].nodeId
  }

  /** The entry of every graph node among the first `i` whose node_id does not come again among them. */
  /** Every node_id of the first `n` graph nodes has a last occurrence among them. */
  lemma {:induction false} LastOccurrence(nodes: seq<CatalogNode>, n: nat, k: nat)
    requires k < n <= |nodes|
    ensures exists i :: k <= i < n && LastWith(nodes, i, n) && nodes[i].nodeId == nodes[k].nodeId
    decreases n
  {
    if nodes[n - 1].nodeId == nodes[k].nodeId {
      assert LastWith(nodes, n - 1, n);
    } else {
      LastOccurrence(nodes, n - 1, k);
      var i :| k <= i < n - 1 && LastWith(nodes, i, n - 1) && nodes[i].nodeId == nodes[k].nodeId;
      assert LastWith(nodes, i, n);
    }
  }

  ghost predicate LastEntries(nodes: seq<CatalogNode>, i: nat, t: NodeTable)
    requires i <= |nodes|
  {
    forall k :: 0 <= k < i && LastWith(nodes, k, i) ==>
      nodes[k].nodeId in t.nodes && t.nodes[nodes[k].nodeId] == Fresh(nodes[k], t.nodes[nodes[k].nodeId].isEnabled)
  }

  /** What the first `i` graph nodes leave in the table. */
  ghost predicate BuiltFrom(nodes: seq<CatalogNode>, enableList: seq<NodeId>, disableList: seq<NodeId>, i: nat, t: NodeTable)
    requires i <= |nodes|
  {
    && TableOk(t)
    && t.order == Dedupe(NodeIds(nodes)[..i])
    && LastEntries(nodes, i, t)
    && (forall id :: id in t.nodes ==> FlagFor(t.nodes[id].isEnabled, id, enableList, disableList))
  }

  /** Storing the entry of the i-th graph node. */
  function Store(t: NodeTable, node: CatalogNode, e: Enabled): NodeTable {
    NodeTable(if node.nodeId in t.nodes then t.order else t.order + [node.nodeId], t.nodes[node.nodeId := Fresh(node, e)])
  }

  lemma NodeIdsSnoc(nodes: seq<CatalogNode>, i: nat)
    requires i < |nodes|
    ensures NodeIds(nodes)[..i + 1] == NodeIds(nodes)[..i] + [nodes[i].nodeId]
  {
  }

  lemma StoreOk(t: NodeTable, node: CatalogNode, e: Enabled)
    requires TableOk(t)
    ensures TableOk(Store(t, node, e))
  {
    if node.nodeId !in t.nodes {
      DistinctConcat(t.order, [node.nodeId]);
      assert Elems(t.order + [node.nodeId]) == Elems(t.order) + {node.nodeId};
    }
  }

  lemma StoreOrder(nodes: seq<CatalogNode>, i: nat, t: NodeTable, e: Enabled)
    requires i < |nodes| && TableOk(t) && t.order == Dedupe(NodeIds(nodes)[..i])
    ensures Store(t, nodes[i], e).order == Dedupe(NodeIds(nodes)[..i + 1])
  {
    NodeIdsSnoc(nodes, i);
    var s := NodeIds(nodes)[..i + 1];
    assert s[..|s| - 1] == NodeIds(nodes)[..i];
    assert nodes[i].nodeId in t.nodes <==> nodes[i].nodeId in t.order;
  }

  lemma StoreEntries(nodes: seq<CatalogNode>, i: nat, t: NodeTable, e: Enabled)
    requires i < |nodes| && LastEntries(nodes, i, t)
    ensures LastEntries(nodes, i + 1, Store(t, nodes[i], e))
  {
    var t1 := Store(t, nodes[i], e);
    forall k | 0 <= k < i + 1 && LastWith(nodes, k, i + 1)
      ensures nodes[k].nodeId in t1.nodes && t1.nodes[nodes[k].nodeId] == Fresh(nodes[k], t1.nodes[nodes[k].nodeId].isEnabled)
    {
      if k < i {
        assert LastWith(nodes, k, i);
      }
    }
  }

  lemma BuildStep(nodes: seq<CatalogNode>, enableList: seq<NodeId>, disableList: seq<NodeId>, i: nat, t: NodeTable, e: Enabled)
    requires i < |nodes| && BuiltFrom(nodes, enableList, disableList, i, t)
    requires FlagFor(e, nodes[i].nodeId, enableList, disableList)
    ensures BuiltFrom(nodes, enableList, disableList, i + 1, Store(t, nodes[i], e))
  {
    StoreOk(t, nodes[i], e);
    StoreOrder(nodes, i, t, e);
    StoreEntries(nodes, i, t, e);
  }

  /** `nodesMap[node.node_id] = { … }` for every graph node: a repeated node_id keeps its first place and its last entry. */
  method BuildTable(nodes: seq<CatalogNode>, enableList: seq<NodeId>, disableList: seq<NodeId>) returns (t: NodeTable)
    ensures TableOk(t)
    ensures t.order == Dedupe(NodeIds(nodes))
    ensures forall i :: 0 <= i < |nodes| && LastWith(nodes, i, |nodes|) ==>
              nodes[i].nodeId in t.nodes && t.nodes[nodes[i].nodeId] == Fresh(nodes[i], t.nodes[nodes[i].nodeId].isEnabled)
    ensures forall id :: id in t.nodes ==> FlagFor(t.nodes[id].isEnabled, id, enableList, disableList)
    ensures forall id :: id in t.nodes ==> t.nodes[id].status == Unprocessed
  {
    t := NodeTable([], map[]);
    var i := 0;
    while i < |nodes|
      invariant 0 <= i <= |nodes|
      invariant BuiltFrom(nodes, enableList, disableList, i, t)
      invariant forall id :: id in t.nodes ==> t.nodes[id].status == Unprocessed
    {
      var node := nodes[i];
      var e := Unset;
      if |enableList| > 0 {
        e := if node.nodeId in enableList then True else False;
      }
      if |disableList| > 0 {
        e := if node.nodeId in disableList then False else True;
      }
      BuildStep(nodes, enableList, disableList, i, t, e);
      t := Store(t, node, e);
      i := i + 1;
    }
    assert NodeIds(nodes)[..i] == NodeIds(nodes);
  }

  // ---------------------------------------------------------------------
  // In-degrees (lines 260-274)

  /** How many entries of `refs` resolve, through `index`, to node `id`. */
  function Resolving(refs: seq<ObjectId>, index: NodeIndex, id: NodeId): nat {
    if refs == [] then 0
    else
      var last := refs[|refs| - 1];
      Resolving(refs[..|refs| - 1], index, id) + (if last in index && index[last] == id then 1 else 0)
  }

  /** No entry resolving to `id` is the same as a zero count. */
  lemma {:induction false} ResolvingZero(refs: seq<ObjectId>, index: NodeIndex, id: NodeId)
    ensures Resolving(refs, index, id) == 0 <==> forall i :: 0 <= i < |refs| && refs[i] in index ==> index[refs[i]] != id
  {
    if refs != [] {
      var p := refs[..|refs| - 1];
      ResolvingZero(p, index, id);
      assert forall i :: 0 <= i < |p| ==> p[i] == refs[i];
    }
  }

  function Targets(edges: seq<CatalogEdge>): (ts: seq<ObjectId>)
    ensures |ts| == |edges| && forall i :: 0 <= i < |edges| ==> ts[i] == edges[i].dst
  {
    seq(|edges|, i requires 0 <= i < |edges| => edges[i].dst)
  }

  /**
   * `inDegree`: 0 for every table key, then one more for each edge's
   * resolved destination. Line 267 reads `targetNode.node_id` before the
   * null test, so an edge whose destination does not resolve throws and
   * the run fails (`None`).
   */
  method CountInDegrees(t: NodeTable, edges: seq<CatalogEdge>, index: NodeIndex) returns (r: Option<map<NodeId, int>>)
    ensures r.None? <==> exists i :: 0 <= i < |edges| && edges[i].dst !in index
    ensures r.Some? ==> forall id :: id in r.value <==> id in t.order || Resolving(Targets(edges), index, id) > 0
    ensures r.Some? ==> forall id :: id in r.value ==> r.value[id] == Resolving(Targets(edges), index, id)
  {
    var deg: map<NodeId, int> := map[];
    var k := 0;
    while k < |t.order|
      invariant 0 <= k <= |t.order|
      invariant forall id :: id in deg <==> id in t.order[..k]
      invariant forall id :: id in deg ==> deg[id] == 0
    {
      assert t.order[..k + 1] == t.order[..k] + [t.order[k]];
      deg := deg[t.order[k] := 0];
      k := k + 1;
    }
    assert t.order[..k] == t.order;
    var ts := Targets(edges);
    var i := 0;
    while i < |edges|
      invariant 0 <= i <= |edges|
      invariant forall j :: 0 <= j < i ==> edges[j].dst in index
      invariant forall id :: id in deg <==> id in t.order || Resolving(ts[..i], index, id) > 0
      invariant forall id :: id in deg ==> deg[id] == Resolving(ts[..i], index, id)
    {
      var dst := edges[i].dst;
      if dst !in index {
        return None;
      }
      assert ts[..i + 1][..i] == ts[..i];
      var target := index[dst];
      deg := deg[target := (if target in deg then deg[target] else 0) + 1];
      i := i + 1;
    }
    assert ts[..i] == ts;
    return Some(deg);
  }

  /** A table node no edge resolves to has in-degree 0. */
  lemma NoIncomingEdge(t: NodeTable, edges: seq<CatalogEdge>, index: NodeIndex, deg: map<NodeId, int>, id: NodeId)
    requires forall v :: v in deg ==> deg[v] == Resolving(Targets(edges), index, v)
    requires id in deg
    requires forall i :: 0 <= i < |edges| && edges[i].dst in index ==> index[edges[i].dst] != id
    ensures deg[id] == 0
  {
    ResolvingZero(Targets(edges), index, id);
  }

  // ---------------------------------------------------------------------
  // Seeding the roots (lines 276-296)

  /** A seeded root: level 0, and data_in from its root input only when its in-degree is not positive. */
  function Seed(w: WorkingNode, input: DataMap, inDegree: int): WorkingNode {
    if inDegree > 0 then w.(level := Some(0)) else w.(level := Some(0), dataIn := FromEntries(input))
  }

  /** Each id occurs at most once. */
  ghost predicate Once(q: seq<NodeId>) {
    forall x :: multiset(q)[x] <= 1
  }

  /** What the first `i` root inputs leave in the table. */
  ghost predicate SeededNodes(t: NodeTable, deg: map<NodeId, int>, roots: OMap<DataMap>, i: nat,
                              nodes: map<NodeId, WorkingNode>)
    requires i <= |roots| && t.nodes.Keys <= deg.Keys
  {
    && nodes.Keys == t.nodes.Keys
    && (forall j :: 0 <= j < i ==> roots[j].0 in t.nodes)
    && (forall id :: id in t.nodes && id !in Keys(roots)[..i] ==> nodes[id] == t.nodes[id])
    && (forall j :: 0 <= j < i ==> nodes[roots[j].0] == Seed(t.nodes[roots[j].0], roots[j].1, deg[roots[j].0]))
  }

  /** What the first `i` root inputs leave in the queue. */
  ghost predicate SeededQueue(deg: map<NodeId, int>, roots: OMap<DataMap>, i: nat, queue: seq<NodeId>)
    requires i <= |roots|
  {
    && Sorted(queue) && Once(queue)
    && (forall x :: x in queue <==> x in Keys(roots)[..i] && x in deg && deg[x] <= 0)
  }

  /** Queueing an id not yet queued keeps every id queued once. */
  lemma EnqueueFresh(q: seq<NodeId>, x: NodeId)
    requires Sorted(q) && Once(q) && x !in q
    ensures Once(Enqueue(q, x))
    ensures forall y :: y in Enqueue(q, x) <==> y in q || y == x
  {
    var r := Enqueue(q, x);
    assert forall y :: y in r <==> multiset(r)[y] > 0;
  }

  /** The i-th root is not among the roots before it, and the prefix of keys grows by it. */
  lemma RootPrefix(roots: OMap<DataMap>, i: nat)
    requires UniqueKeys(roots) && i < |roots|
    ensures Keys(roots)[..i + 1] == Keys(roots)[..i] + [roots[i].0]
    ensures roots[i].0 !in Keys(roots)[..i]
  {
    forall j | 0 <= j < i ensures Keys(roots)[..i][j] != roots[i].0 {
      assert roots[j].0 != roots[i].0;
    }
  }

  lemma SeedNodesStep(t: NodeTable, deg: map<NodeId, int>, roots: OMap<DataMap>, i: nat,
                      nodes: map<NodeId, WorkingNode>)
    requires t.nodes.Keys <= deg.Keys && UniqueKeys(roots)
    requires i < |roots| && SeededNodes(t, deg, roots, i, nodes)
    requires roots[i].0 in nodes
    ensures var id := roots[i].0;
            SeededNodes(t, deg, roots, i + 1, nodes[id := Seed(nodes[id], roots[i].1, deg[id])])
  {
    RootPrefix(roots, i);
    assert nodes[roots[i].0] == t.nodes[roots[i].0];
  }

  lemma SeedQueueStep(deg: map<NodeId, int>, roots: OMap<DataMap>, i: nat, queue: seq<NodeId>)
    requires UniqueKeys(roots) && i < |roots| && roots[i].0 in deg
    requires SeededQueue(deg, roots, i, queue)
    ensures var id := roots[i].0;
            SeededQueue(deg, roots, i + 1, if deg[id] > 0 then queue else Enqueue(queue, id))
  {
    var id := roots[i].0;
    RootPrefix(roots, i);
    if deg[id] <= 0 {
      assert id !in queue;
      EnqueueFresh(queue, id);
    }
  }

  /**
   * For each root input in order: its level becomes 0 (line 278, which
   * throws when the root is not a key of the table, failing the run), and
   * unless its in-degree is positive it receives its root input as
   * data_in and is queued.
   */
  method SeedRoots(t: NodeTable, deg: map<NodeId, int>, roots: OMap<DataMap>) returns (r: Option<(NodeTable, seq<NodeId>)>)
    requires TableOk(t) && t.nodes.Keys <= deg.Keys && UniqueKeys(roots)
    ensures r.None? <==> exists i :: 0 <= i < |roots| && roots[i].0 !in t.nodes
    ensures r.Some? ==> r.value.0.order == t.order && r.value.0.nodes.Keys == t.nodes.Keys
    ensures r.Some? ==> forall id :: id in t.nodes && id !in Keys(roots) ==> r.value.0.nodes[id] == t.nodes[id]
    ensures r.Some? ==> forall j :: 0 <= j < |roots| ==>
              r.value.0.nodes[roots[j].0] == Seed(t.nodes[roots[j].0], roots[j].1, deg[roots[j].0])
    ensures r.Some? ==> Sorted(r.value.1) && Once(r.value.1)
    ensures r.Some? ==> forall x :: x in r.value.1 <==> x in Keys(roots) && x in deg && deg[x] <= 0
  {
    var nodes := t.nodes;
    var queue: seq<NodeId> := [];
    var i := 0;
    while i < |roots|
      invariant 0 <= i <= |roots|
      invariant SeededNodes(t, deg, roots, i, nodes) && SeededQueue(deg, roots, i, queue)
    {
      var (nodeId, rootInput) := roots[i];
      if nodeId !in nodes {
        return None;
      }
      SeedNodesStep(t, deg, roots, i, nodes);
      SeedQueueStep(deg, roots, i, queue);
      nodes := nodes[nodeId := Seed(nodes[nodeId], rootInput, deg[nodeId])];
      if deg[nodeId] <= 0 {
        queue := Enqueue(queue, nodeId);
      }
      i := i + 1;
    }
    assert Keys(roots)[..i] == Keys(roots);
    return Some((NodeTable(t.order, nodes), queue));
  }
}
