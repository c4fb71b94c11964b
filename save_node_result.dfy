/**
 * The run result assembler (backend/helper_functions/saveNodeResult.js): a
 * snapshot of every working node, in table order, the processed ids as the
 * topological order, and the islands. A node whose `is_enabled == false` gets
 * a bucket of its own under the next counter value 0, 1, 2, ...; every other
 * node (enabled, or with `is_enabled` null) goes to the single `"Enabled"`
 * bucket.
 */
module SaveNodeResult {
  import opened OrderedMap
  import opened RunRecords
  import opened Collections
  import opened RunSetup

  /** The persisted copy of a working node (lines 10-20); the timestamp is not modelled. */
  function Snapshot(w: WorkingNode): NodeResult {
    NodeResult(w.nodeId, w.dataIn, w.dataOut, w.pathsIn, w.pathsOut, w.status, w.level, w.isEnabled)
  }

  predicate AllIn(order: seq<NodeId>, nodes: map<NodeId, WorkingNode>) {
    forall i :: 0 <= i < |order| ==> order[i] in nodes
  }

  /**
   * The ids of `order`, in order, whose node is disabled (`is_enabled == false`)
   * when `disabled` holds, and the others when it does not.
   */
  function Select(order: seq<NodeId>, nodes: map<NodeId, WorkingNode>, disabled: bool): (r: seq<NodeId>)
    requires AllIn(order, nodes)
    ensures forall x :: x in r <==> x in order && LooseFalse(nodes[x].isEnabled) == disabled
    ensures |r| <= |order|
  {
    if order == [] then []
    else
      var last := order[|order| - 1];
      var front := order[..|order| - 1];
      assert order == front + [last];
      Select(front, nodes, disabled) + (if LooseFalse(nodes[last].isEnabled) == disabled then [last] else [])
  }

  /** The islands of the result: one singleton bucket per disabled id, and the `"Enabled"` bucket when it is non-empty. */
  ghost predicate IslandsHold(islands: map<IslandKey, seq<NodeId>>, dis: seq<NodeId>, en: seq<NodeId>) {
    && (forall key :: key in islands <==> (key.Disabled? && key.index < |dis|) || (key.EnabledBucket? && |en| > 0))
    && (forall j :: 0 <= j < |dis| ==> islands[Disabled(j)] == [dis[j]])
    && (|en| > 0 ==> islands[EnabledBucket] == en)
  }

  /** `results` holds the snapshots of the nodes of `order`, under their ids, in order. */
  ghost predicate Snapped(results: OMap<NodeResult>, order: seq<NodeId>, nodes: map<NodeId, WorkingNode>) {
    && |results| == |order|
    && forall i :: 0 <= i < |order| ==> order[i] in nodes && results[i] == (order[i], Snapshot(nodes[order[i]]))
  }

  lemma SnapStep(results: OMap<NodeResult>, order: seq<NodeId>, nodes: map<NodeId, WorkingNode>, k: nat)
    requires AllIn(order, nodes) && k < |order|
    requires Snapped(results, order[..k], nodes)
    ensures Snapped(results + [(order[k], Snapshot(nodes[order[k]]))], order[..k + 1], nodes)
  {
  }

  lemma SnappedKeys(results: OMap<NodeResult>, order: seq<NodeId>, nodes: map<NodeId, WorkingNode>)
    requires Snapped(results, order, nodes) && Distinct(order)
    ensures Keys(results) == order && UniqueKeys(results)
    ensures forall i :: 0 <= i < |results| ==> results[i].1 == Snapshot(nodes[order[i]])
  {
    assert Keys(results) == order;
  }

  /** Selecting from one more id of `order`. */
  lemma SelectSnoc(order: seq<NodeId>, nodes: map<NodeId, WorkingNode>, k: nat, disabled: bool)
    requires AllIn(order, nodes) && k < |order|
    ensures Select(order[..k + 1], nodes, disabled) ==
            Select(order[..k], nodes, disabled) + (if LooseFalse(nodes[order[k]].isEnabled) == disabled then [order[k]] else [])
  {
    assert order[..k + 1][..k] == order[..k];
  }

  /** One pass of the loop of lines 9-36 keeps the islands in step with the ids seen so far. */
  lemma IslandsStep(dis: seq<NodeId>, en: seq<NodeId>, id: NodeId, off: bool,
                    islands: map<IslandKey, seq<NodeId>>, islands': map<IslandKey, seq<NodeId>>)
    requires IslandsHold(islands, dis, en)
    requires islands' ==
      if off then islands[Disabled(|dis|) := [id]]
      else islands[EnabledBucket := (if EnabledBucket in islands then islands[EnabledBucket] else []) + [id]]
    ensures off ==> IslandsHold(islands', dis + [id], en)
    ensures !off ==> IslandsHold(islands', dis, en + [id])
  {
    if off {
      forall j | 0 <= j < |dis| + 1 ensures islands'[Disabled(j)] == [(dis + [id])[j]] {
      }
    } else {
      assert EnabledBucket in islands ==> islands[EnabledBucket] == en;
      assert EnabledBucket !in islands ==> en == [];
    }
  }

  /** The islands recorded after the first `k` ids of the table, with the next disabled index. */
  ghost predicate IslandsUpTo(t: NodeTable, k: nat, islands: map<IslandKey, seq<NodeId>>, disabledIndex: int)
    requires k <= |t.order| && AllIn(t.order, t.nodes)
  {
    && disabledIndex == |Select(t.order[..k], t.nodes, true)|
    && IslandsHold(islands, Select(t.order[..k], t.nodes, true), Select(t.order[..k], t.nodes, false))
  }

  /** Recording a disabled `k`-th id in a bucket of its own. */
  lemma IslandsUpToOff(t: NodeTable, k: nat, islands: map<IslandKey, seq<NodeId>>, disabledIndex: int)
    requires k < |t.order| && AllIn(t.order, t.nodes) && IslandsUpTo(t, k, islands, disabledIndex)
    requires LooseFalse(t.nodes[t.order[k]].isEnabled)
    ensures IslandsUpTo(t, k + 1, islands[Disabled(disabledIndex) := [t.order[k]]], disabledIndex + 1)
  {
    var dis, en := Select(t.order[..k], t.nodes, true), Select(t.order[..k], t.nodes, false);
    SelectSnoc(t.order, t.nodes, k, true);
    SelectSnoc(t.order, t.nodes, k, false);
    IslandsStep(dis, en, t.order[k], true, islands, islands[Disabled(disabledIndex) := [t.order[k]]]);
  }

  /** Recording an enabled `k`-th id at the end of the `"Enabled"` bucket. */
  lemma IslandsUpToOn(t: NodeTable, k: nat, islands: map<IslandKey, seq<NodeId>>, disabledIndex: int)
    requires k < |t.order| && AllIn(t.order, t.nodes) && IslandsUpTo(t, k, islands, disabledIndex)
    requires !LooseFalse(t.nodes[t.order[k]].isEnabled)
    ensures var bucket := if EnabledBucket in islands then islands[EnabledBucket] else [];
            IslandsUpTo(t, k + 1, islands[EnabledBucket := bucket + [t.order[k]]], disabledIndex)
  {
    var dis, en := Select(t.order[..k], t.nodes, true), Select(t.order[..k], t.nodes, false);
    var bucket := if EnabledBucket in islands then islands[EnabledBucket] else [];
    SelectSnoc(t.order, t.nodes, k, true);
    SelectSnoc(t.order, t.nodes, k, false);
    assert Select(t.order[..k + 1], t.nodes, true) == dis + [] == dis;
    assert Select(t.order[..k + 1], t.nodes, false) == en + [t.order[k]];
    IslandsStep(dis, en, t.order[k], false, islands, islands[EnabledBucket := bucket + [t.order[k]]]);
  }

  /** Once every id is seen, the islands are those of the whole table. */
  lemma IslandsUpToAll(t: NodeTable, islands: map<IslandKey, seq<NodeId>>, disabledIndex: int)
    requires AllIn(t.order, t.nodes) && IslandsUpTo(t, |t.order|, islands, disabledIndex)
    ensures IslandsHold(islands, Select(t.order, t.nodes, true), Select(t.order, t.nodes, false))
  {
    assert t.order[..|t.order|] == t.order;
  }

  /**
   * The loop of lines 9-36: the snapshot of every table node under its id,
   * in table order, and the island of each.
   */
  method Collect(t: NodeTable) returns (results: OMap<NodeResult>, islands: map<IslandKey, seq<NodeId>>)
    requires AllIn(t.order, t.nodes)
    ensures Snapped(results, t.order, t.nodes)
    ensures IslandsHold(islands, Select(t.order, t.nodes, true), Select(t.order, t.nodes, false))
  {
    results, islands := [], map[];
    var disabledIndex := 0;
    var k := 0;
    while k < |t.order|
      invariant 0 <= k <= |t.order|
      invariant Snapped(results, t.order[..k], t.nodes)
      invariant IslandsUpTo(t, k, islands, disabledIndex)
    {
      var id := t.order[k];
      SnapStep(results, t.order, t.nodes, k);
      results := results + [(id, Snapshot(t.nodes[id]))];
      if t.nodes[id].isEnabled == False {
        IslandsUpToOff(t, k, islands, disabledIndex);
        islands := islands[Disabled(disabledIndex) := [id]];
        disabledIndex := disabledIndex + 1;
      } else {
        IslandsUpToOn(t, k, islands, disabledIndex);
        var bucket := if EnabledBucket in islands then islands[EnabledBucket] else [];
        islands := islands[EnabledBucket := bucket + [id]];
      }
      k := k + 1;
    }
    IslandsUpToAll(t, islands, disabledIndex);
    assert t.order[..k] == t.order;
  }

  /** `saveNodeResultToDb` (lines 2-50) without the database write. */
  method SaveNodeResult(runId: string, graphId: string, t: NodeTable, cfg: RunConfig, processed: seq<NodeId>)
      returns (r: RunResult)
    requires Distinct(t.order) && AllIn(t.order, t.nodes)
    ensures r.runId == runId && r.graphId == graphId && r.graphConfig == cfg
    ensures Keys(r.nodeResults) == t.order && UniqueKeys(r.nodeResults)
    ensures forall i :: 0 <= i < |r.nodeResults| ==> r.nodeResults[i].1 == Snapshot(t.nodes[t.order[i]])
    ensures r.topologicalOrder == processed
    ensures IslandsHold(r.islands, Select(t.order, t.nodes, true), Select(t.order, t.nodes, false))
  {
    var results, islands := Collect(t);
    SnappedKeys(results, t.order, t.nodes);
    r := RunResult(runId, graphId, results, cfg, processed, islands);
  }

  /** The two buckets split the table: every id is in exactly one of them, and each at most once. */
  lemma {:induction false} SelectPartition(order: seq<NodeId>, nodes: map<NodeId, WorkingNode>)
    requires AllIn(order, nodes) && Distinct(order)
    ensures Distinct(Select(order, nodes, true)) && Distinct(Select(order, nodes, false))
    ensures |Select(order, nodes, true)| + |Select(order, nodes, false)| == |order|
    ensures forall x :: x in order ==> (x in Select(order, nodes, true) <==> x !in Select(order, nodes, false))
  {
    if order != [] {
      var last := order[|order| - 1];
      var front := order[..|order| - 1];
      assert order == front + [last];
      assert Distinct(front);
      assert last !in front;
      SelectPartition(front, nodes);
      DistinctConcat(Select(front, nodes, true), if LooseFalse(nodes[last].isEnabled) then [last] else []);
      DistinctConcat(Select(front, nodes, false), if LooseFalse(nodes[last].isEnabled) then [] else [last]);
    }
  }

  /** With distinct disabled ids, no id sits in two disabled buckets. */
  lemma DisabledOnce(islands: map<IslandKey, seq<NodeId>>, dis: seq<NodeId>, en: seq<NodeId>, id: NodeId)
    requires IslandsHold(islands, dis, en) && Distinct(dis)
    ensures forall j: nat, j': nat ::
              (Disabled(j) in islands && Disabled(j') in islands &&
               id in islands[Disabled(j)] && id in islands[Disabled(j')]) ==> j == j'
  {
    forall j: nat, j': nat | Disabled(j) in islands && Disabled(j') in islands &&
                   id in islands[Disabled(j)] && id in islands[Disabled(j')]
      ensures j == j'
    {
      assert islands[Disabled(j)] == [dis[j]] && islands[Disabled(j')] == [dis[j']];
    }
  }

  /**
   * Every table id is found in exactly one island: its own disabled bucket,
   * which no other disabled bucket shares, or the `"Enabled"` bucket.
   */
  lemma IslandsPartition(t: NodeTable, islands: map<IslandKey, seq<NodeId>>, id: NodeId)
    requires TableOk(t)
    requires IslandsHold(islands, Select(t.order, t.nodes, true), Select(t.order, t.nodes, false))
    requires id in t.nodes
    ensures LooseFalse(t.nodes[id].isEnabled) ==>
              (exists j :: Disabled(j) in islands && islands[Disabled(j)] == [id]) &&
              (forall j: nat, j': nat ::
                 (Disabled(j) in islands && Disabled(j') in islands &&
                  id in islands[Disabled(j)] && id in islands[Disabled(j')]) ==> j == j') &&
              (EnabledBucket in islands ==> id !in islands[EnabledBucket])
    ensures !LooseFalse(t.nodes[id].isEnabled) ==>
              EnabledBucket in islands && id in islands[EnabledBucket] &&
              (forall j :: Disabled(j) in islands ==> id !in islands[Disabled(j)])
  {
    var dis := Select(t.order, t.nodes, true);
    assert id in t.order;
    if LooseFalse(t.nodes[id].isEnabled) {
      var j :| 0 <= j < |dis| && dis[j] == id;
      assert islands[Disabled(j)] == [id];
      SelectPartition(t.order, t.nodes);
      DisabledOnce(islands, dis, Select(t.order, t.nodes, false), id);
    }
  }
}
