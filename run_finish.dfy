/**
 * The end of a graph run (backend/server.js lines 386-417): every table
 * node that was never processed is marked disabled, and the reserved
 * document keys are deleted from every node's data_in; data_out is left
 * as it is.
 */
module RunFinish {
  import opened OrderedMap
  import opened RunRecords
  import opened Collections
  import opened RunSetup

  /** `metadataKeys`, in insertion order (lines 397-406). */
  const ReservedList: seq<string> :=
    ["$__parent", "$basePath", "$__", "_doc", "__v", "$__deferred", "$__path", "$__schemaType"]

  function Reserved(): set<string> {
    Elems(ReservedList)
  }

  /** The entry the end of the run leaves for a node. */
  function Finished(w: WorkingNode, processed: bool): WorkingNode {
    w.(isEnabled := if processed then w.isEnabled else False, dataIn := Without(w.dataIn, Reserved()))
  }

  /** `for (const key of metadataKeys) if (data_in.has(key)) data_in.delete(key)`. */
  method StripReserved(dataIn: DataMap) returns (r: DataMap)
    ensures r == Without(dataIn, Reserved())
  {
    r := dataIn;
    WithoutAbsent(dataIn, {});
    assert Elems(ReservedList[..0]) == {};
    var j := 0;
    while j < |ReservedList|
      invariant 0 <= j <= |ReservedList|
      invariant r == Without(dataIn, Elems(ReservedList[..j]))
    {
      var key := ReservedList[j];
      var before := r;
      if Has(r, key) {
        r := Delete(r, key);
      }
      StripStep(dataIn, before, r, j);
      j := j + 1;
    }
    assert ReservedList[..j] == ReservedList;
  }

  /** One pass of the loop in `StripReserved`: deleting the j-th reserved key extends the stripped set by it. */
  lemma StripStep(dataIn: DataMap, before: DataMap, after: DataMap, j: nat)
    requires j < |ReservedList|
    requires before == Without(dataIn, Elems(ReservedList[..j]))
    requires after == if Has(before, ReservedList[j]) then Delete(before, ReservedList[j]) else before
    ensures after == Without(dataIn, Elems(ReservedList[..j + 1]))
  {
    var key := ReservedList[j];
    assert Elems(ReservedList[..j + 1]) == Elems(ReservedList[..j]) + {key} by {
      assert ReservedList[..j + 1] == ReservedList[..j] + [key];
    }
    WithoutUnion(dataIn, Elems(ReservedList[..j]), {key});
    HasIff(before, key);
    if !Has(before, key) {
      WithoutAbsent(before, {key});
    }
  }

  /** Lines 387-394: every node not in `processed` gets `is_enabled = false`. */
  method DisableUnprocessed(t: NodeTable, processed: seq<NodeId>) returns (nodes: map<NodeId, WorkingNode>)
    requires TableOk(t)
    ensures nodes.Keys == t.nodes.Keys
    ensures forall id :: id in t.nodes ==>
              nodes[id] == t.nodes[id].(isEnabled := if id in processed then t.nodes[id].isEnabled else False)
  {
    nodes := t.nodes;
    var k := 0;
    while k < |t.order|
      invariant 0 <= k <= |t.order|
      invariant nodes.Keys == t.nodes.Keys
      invariant forall id :: id in t.nodes ==>
                  nodes[id] == t.nodes[id].(isEnabled := if id in t.order[..k] && id !in processed then False else t.nodes[id].isEnabled)
    {
      var id := t.order[k];
      assert t.order[..k + 1] == t.order[..k] + [id];
      if id !in processed {
        nodes := nodes[id := nodes[id].(isEnabled := False)];
      }
      k := k + 1;
    }
    assert t.order[..k] == t.order;
  }

  /** Lines 409-424: the reserved keys are deleted from every node's data_in. */
  method StripAll(order: seq<NodeId>, nodes0: map<NodeId, WorkingNode>) returns (nodes: map<NodeId, WorkingNode>)
    requires Distinct(order) && Elems(order) == nodes0.Keys
    ensures nodes.Keys == nodes0.Keys
    ensures forall id :: id in nodes0 ==> nodes[id] == nodes0[id].(dataIn := Without(nodes0[id].dataIn, Reserved()))
  {
    nodes := nodes0;
    var k := 0;
    while k < |order|
      invariant 0 <= k <= |order|
      invariant nodes.Keys == nodes0.Keys
      invariant forall id :: id in nodes0 ==>
                  nodes[id] == if id in order[..k] then nodes0[id].(dataIn := Without(nodes0[id].dataIn, Reserved())) else nodes0[id]
    {
      var id := order[k];
      assert order[..k + 1] == order[..k] + [id];
      assert id !in order[..k] by {
        forall j | 0 <= j < k ensures order[j] != id {}
      }
      var stripped := StripReserved(nodes[id].dataIn);
      nodes := nodes[id := nodes[id].(dataIn := stripped)];
      k := k + 1;
    }
    assert order[..k] == order;
  }

  /** Lines 387-417: the two passes over the table in key order. */
  method Finalize(t: NodeTable, processed: seq<NodeId>) returns (r: NodeTable)
    requires TableOk(t)
    ensures r.order == t.order && r.nodes.Keys == t.nodes.Keys
    ensures forall id :: id in t.nodes ==> r.nodes[id] == Finished(t.nodes[id], id in processed)
  {
    var nodes := DisableUnprocessed(t, processed);
    nodes := StripAll(t.order, nodes);
    r := NodeTable(t.order, nodes);
  }

  /** After the end of the run: no reserved key is left in a data_in, and every other pair is kept. */
  lemma FinishedStripsReserved(w: WorkingNode, processed: bool)
    ensures forall k :: k in Reserved() ==> !Has(Finished(w, processed).dataIn, k)
    ensures ToMap(Finished(w, processed).dataIn) == ToMap(w.dataIn) - Reserved()
    ensures Finished(w, processed).dataOut == w.dataOut && Finished(w, processed).status == w.status
    ensures !processed ==> Finished(w, processed).isEnabled == False
  {
    WithoutToMap(w.dataIn, Reserved());
  }
}
