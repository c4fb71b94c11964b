/**
 * Step 3 of a graph run (backend/server.js lines 300-383): the ready queue
 * is drained in id order. Each dequeued node present in the table has its
 * data_in replaced by its overwrite (if any) and is given to the processor;
 * when the processor fails the node is skipped, otherwise its output
 * becomes its data_out and is written into every successor its `paths_out`
 * entries resolve to, each such entry decrementing the successor's
 * in-degree; a successor is queued, one level below the current node, when
 * its in-degree reaches 0, it is not yet processed and it is enabled.
 */
module RunLoop {
  import opened OrderedMap
  import opened RunRecords
  import opened Collections
  import opened PriorityQueue
  import opened RunSetup

  /** `processFunction`: its result map, or `None` when it throws. */
  type Processor = DataMap -> Option<DataMap>

  /** `nodesMap` entries, `inDegree`, the ready queue and `processedNodes` (in insertion order). */
  datatype EngineState = EngineState(
    nodes: map<NodeId, WorkingNode>,
    inDegree: map<NodeId, int>,
    queue: seq<NodeId>,
    processed: seq<NodeId>)

  /** `currentNode.level + 1`, where a null level counts as 0. */
  function NextLevel(level: Option<int>): int {
    match level
    case None => 1
    case Some(n) => n + 1
  }

  /** What a propagation step needs: every table key has an in-degree, and the queue is sorted. */
  ghost predicate Ready(s: EngineState) {
    s.nodes.Keys <= s.inDegree.Keys && Sorted(s.queue)
  }

  // ---------------------------------------------------------------------
  // Propagation to successors (lines 346-377)

  /**
   * One `paths_out` entry of node `cur`. An entry that does not resolve
   * throws at line 349 and is caught; one that resolves outside the table
   * is skipped; otherwise the successor receives every data_out pair of
   * `cur`, loses one in-degree, and is queued with the next level when the
   * in-degree is now 0, it is unprocessed and its `is_enabled` is truthy.
   */
  function Propagate(s: EngineState, cur: NodeId, entry: ObjectId, index: NodeIndex): (r: EngineState)
    requires cur in s.nodes && Ready(s)
    ensures Ready(r) && r.nodes.Keys == s.nodes.Keys && r.inDegree.Keys == s.inDegree.Keys
    ensures r.processed == s.processed
  {
    if entry !in index then s
    else
      var id := index[entry];
      if id !in s.nodes then s
      else
        var n := s.nodes[id].(dataIn := SetAll(s.nodes[id].dataIn, s.nodes[cur].dataOut));
        var deg := s.inDegree[id := s.inDegree[id] - 1];
        if deg[id] == 0 && id !in s.processed && Truthy(n.isEnabled) then
          s.(nodes := s.nodes[id := n.(level := Some(NextLevel(s.nodes[cur].level)))],
             inDegree := deg, queue := Enqueue(s.queue, id))
        else
          s.(nodes := s.nodes[id := n], inDegree := deg)
  }

  /** The entries `refs` in order. */
  function PropagateAll(s: EngineState, cur: NodeId, refs: seq<ObjectId>, index: NodeIndex): (r: EngineState)
    requires cur in s.nodes && Ready(s)
    ensures Ready(r) && r.nodes.Keys == s.nodes.Keys && r.inDegree.Keys == s.inDegree.Keys
    ensures r.processed == s.processed
    decreases |refs|
  {
    if refs == [] then s
    else Propagate(PropagateAll(s, cur, refs[..|refs| - 1], index), cur, refs[|refs| - 1], index)
  }

  /** `for (const node of currentNode.paths_out) { … }`. */
  method PropagateEach(s: EngineState, cur: NodeId, refs: seq<ObjectId>, index: NodeIndex) returns (r: EngineState)
    requires cur in s.nodes && Ready(s)
    ensures r == PropagateAll(s, cur, refs, index)
  {
    r := s;
    var i := 0;
    while i < |refs|
      invariant 0 <= i <= |refs|
      invariant r == PropagateAll(s, cur, refs[..i], index)
    {
      assert refs[..i + 1][..i] == refs[..i];
      r := Propagate(r, cur, refs[i], index);
      i := i + 1;
    }
    assert refs[..i] == refs;
  }

  // ---------------------------------------------------------------------
  // One iteration (lines 304-382)

  /** The data_in the processor is given: the overwrite when there is one, else the node's own. */
  function InputOf(w: WorkingNode, cur: NodeId, overwrites: OMap<DataMap>): DataMap {
    if Has(overwrites, cur) then FromEntries(Get(overwrites, cur)) else w.dataIn
  }

  /** `processedNodes.add(cur)`: a set keeps the first insertion only. */
  function AddProcessed(processed: seq<NodeId>, cur: NodeId): seq<NodeId> {
    if cur in processed then processed else processed + [cur]
  }

  /** `processedNodes.add(cur)` and status "processed" (lines 379-380). */
  function Finish(s: EngineState, cur: NodeId): EngineState
    requires cur in s.nodes
  {
    s.(nodes := s.nodes[cur := s.nodes[cur].(status := Processed)], processed := AddProcessed(s.processed, cur))
  }

  /** One pass of the `while (queue.length > 0)` loop. */
  function Step(s: EngineState, overwrites: OMap<DataMap>, proc: Processor, index: NodeIndex): (r: EngineState)
    requires Ready(s) && s.queue != []
    ensures Ready(r) && r.nodes.Keys == s.nodes.Keys && r.inDegree.Keys == s.inDegree.Keys
  {
    var (cur, rest) := Dequeue(s.queue);
    if cur !in s.nodes then s.(queue := rest)
    else
      var n := s.nodes[cur].(dataIn := InputOf(s.nodes[cur], cur, overwrites));
      match proc(n.dataIn)
      case None => s.(nodes := s.nodes[cur := n], queue := rest)
      case Some(out) =>
        var s1 := s.(nodes := s.nodes[cur := n.(dataOut := FromEntries(out))], queue := rest);
        Finish(PropagateAll(s1, cur, n.pathsOut, index), cur)
  }

  method ProcessNext(s: EngineState, overwrites: OMap<DataMap>, proc: Processor, index: NodeIndex) returns (r: EngineState)
    requires Ready(s) && s.queue != []
    ensures r == Step(s, overwrites, proc, index)
  {
    var (cur, rest) := Dequeue(s.queue);
    r := s.(queue := rest);
    if cur !in r.nodes {
      return;
    }
    var n := r.nodes[cur];
    if Has(overwrites, cur) {
      n := n.(dataIn := FromEntries(Get(overwrites, cur)));
    }
    assert n == s.nodes[cur].(dataIn := InputOf(s.nodes[cur], cur, overwrites));
    r := r.(nodes := r.nodes[cur := n]);
    var out := proc(n.dataIn);
    if out.None? {
      return;
    }
    r := r.(nodes := s.nodes[cur := n.(dataOut := FromEntries(out.value))]);
    r := PropagateEach(r, cur, n.pathsOut, index);
    var processed := AddProcessed(r.processed, cur);
    r := r.(nodes := r.nodes[cur := r.nodes[cur].(status := Processed)], processed := processed);
    assert r == Finish(PropagateAll(s.(nodes := s.nodes[cur := n.(dataOut := FromEntries(out.value))], queue := rest), cur, n.pathsOut, index), cur);
  }

  // ---------------------------------------------------------------------
  // What every iteration preserves, and why the loop ends

  /**
   * The loop invariant: the queue is sorted and holds each id once; the
   * processed list holds table keys, once each, none of them queued; a
   * queued or processed table node has no positive in-degree; and a table
   * node's status is "processed" exactly when it is in the processed list.
   */
  ghost predicate Inv(s: EngineState) {
    && Ready(s) && Once(s.queue) && Distinct(s.processed)
    && (forall x :: x in s.processed ==> x in s.nodes)
    && (forall x :: x in s.queue ==> x !in s.processed)
    && (forall x :: x in s.nodes && (x in s.queue || x in s.processed) ==> s.inDegree[x] <= 0)
    && (forall x :: x in s.nodes ==> (s.nodes[x].status == Processed <==> x in s.processed))
  }

  /** The invariant while `cur` is between its dequeue and `processedNodes.add(cur)`. */
  ghost predicate InFlight(s: EngineState, cur: NodeId) {
    Inv(s) && cur in s.nodes && cur !in s.queue && cur !in s.processed && s.inDegree[cur] <= 0
  }

  /** Table nodes whose in-degree is still positive. */
  ghost function Pending(s: EngineState): set<NodeId> {
    set x | x in s.nodes && x in s.inDegree && s.inDegree[x] > 0
  }

  /** Every pass dequeues one id, and an id is queued only when it leaves `Pending`. */
  ghost function Measure(s: EngineState): nat {
    |s.queue| + |Pending(s)|
  }

  lemma PropagateKeeps(s: EngineState, cur: NodeId, entry: ObjectId, index: NodeIndex)
    requires InFlight(s, cur)
    ensures InFlight(Propagate(s, cur, entry, index), cur)
  {
    if entry in index && index[entry] in s.nodes {
      var id := index[entry];
      var r := Propagate(s, cur, entry, index);
      if s.inDegree[id] - 1 == 0 && id !in s.processed && Truthy(s.nodes[id].isEnabled) {
        EnqueueKeeps(s, cur, id, r);
      } else {
        assert r.queue == s.queue;
        assert forall x :: x in r.nodes ==> r.nodes[x].status == s.nodes[x].status;
      }
    }
  }

  /** The enqueuing case of `PropagateKeeps`. */
  lemma EnqueueKeeps(s: EngineState, cur: NodeId, id: NodeId, r: EngineState)
    requires InFlight(s, cur) && id in s.nodes && s.inDegree[id] - 1 == 0 && id !in s.processed
    requires r.nodes.Keys == s.nodes.Keys && r.processed == s.processed
    requires r.inDegree == s.inDegree[id := s.inDegree[id] - 1]
    requires forall x :: x in r.nodes ==> r.nodes[x].status == s.nodes[x].status
    requires r.queue == Enqueue(s.queue, id)
    ensures InFlight(r, cur)
  {
    assert id !in s.queue && id != cur;
    assert forall x :: x in r.queue <==> multiset(r.queue)[x] > 0;
    assert forall x :: x in r.queue <==> x in s.queue || x == id;
  }

  lemma {:induction false} PropagateAllKeeps(s: EngineState, cur: NodeId, refs: seq<ObjectId>, index: NodeIndex)
    requires InFlight(s, cur)
    ensures InFlight(PropagateAll(s, cur, refs, index), cur)
    decreases |refs|
  {
    if refs != [] {
      PropagateAllKeeps(s, cur, refs[..|refs| - 1], index);
      PropagateKeeps(PropagateAll(s, cur, refs[..|refs| - 1], index), cur, refs[|refs| - 1], index);
    }
  }

  lemma PropagateMeasure(s: EngineState, cur: NodeId, entry: ObjectId, index: NodeIndex)
    requires cur in s.nodes && Ready(s)
    ensures Measure(Propagate(s, cur, entry, index)) <= Measure(s)
  {
    if entry in index && index[entry] in s.nodes {
      var id := index[entry];
      var r := Propagate(s, cur, entry, index);
      assert Pending(r) <= Pending(s);
      SubsetCard(Pending(r), Pending(s));
      if s.inDegree[id] - 1 == 0 && id !in s.processed && Truthy(s.nodes[id].isEnabled) {
        assert id in Pending(s) && Pending(r) <= Pending(s) - {id};
        SubsetCard(Pending(r), Pending(s) - {id});
        assert Pending(s) == (Pending(s) - {id}) + {id};
      }
    }
  }

  lemma {:induction false} PropagateAllMeasure(s: EngineState, cur: NodeId, refs: seq<ObjectId>, index: NodeIndex)
    requires cur in s.nodes && Ready(s)
    ensures Measure(PropagateAll(s, cur, refs, index)) <= Measure(s)
    decreases |refs|
  {
    if refs != [] {
      PropagateAllMeasure(s, cur, refs[..|refs| - 1], index);
      PropagateMeasure(PropagateAll(s, cur, refs[..|refs| - 1], index), cur, refs[|refs| - 1], index);
    }
  }

  /** Dequeuing from a queue that holds each id once. */
  lemma DequeueOnce(q: seq<NodeId>)
    requires Sorted(q) && q != [] && Once(q)
    ensures var (cur, rest) := Dequeue(q);
            Once(rest) && cur !in rest && cur in q && |rest| == |q| - 1 &&
            forall x :: x in rest ==> x in q
  {
    var (cur, rest) := Dequeue(q);
    assert multiset(q) == multiset{cur} + multiset(rest);
    assert forall x :: multiset(rest)[x] <= multiset(q)[x];
    assert |multiset(q)| == |multiset{cur}| + |multiset(rest)|;
    assert forall x :: x in rest <==> multiset(rest)[x] > 0;
    assert forall x :: x in q <==> multiset(q)[x] > 0;
  }

  /** Right after the dequeue, with the node's entry changed in anything but its status. */
  lemma DequeuedInFlight(s: EngineState, w: WorkingNode)
    requires Inv(s) && s.queue != [] && Dequeue(s.queue).0 in s.nodes
    requires w.status == s.nodes[Dequeue(s.queue).0].status
    ensures var (cur, rest) := Dequeue(s.queue);
            InFlight(s.(nodes := s.nodes[cur := w], queue := rest), cur)
  {
    DequeueOnce(s.queue);
  }

  /** `processedNodes.add(cur)` and status "processed". */
  lemma FinishKeeps(s: EngineState, cur: NodeId)
    requires InFlight(s, cur)
    ensures Inv(Finish(s, cur))
  {
    DistinctConcat(s.processed, [cur]);
  }

  lemma StepKeeps(s: EngineState, overwrites: OMap<DataMap>, proc: Processor, index: NodeIndex)
    requires Inv(s) && s.queue != []
    ensures Inv(Step(s, overwrites, proc, index))
  {
    var (cur, rest) := Dequeue(s.queue);
    DequeueOnce(s.queue);
    if cur in s.nodes {
      var n := s.nodes[cur].(dataIn := InputOf(s.nodes[cur], cur, overwrites));
      DequeuedInFlight(s, n);
      if proc(n.dataIn).Some? {
        var w := n.(dataOut := FromEntries(proc(n.dataIn).value));
        DequeuedInFlight(s, w);
        var s1 := s.(nodes := s.nodes[cur := w], queue := rest);
        PropagateAllKeeps(s1, cur, n.pathsOut, index);
        FinishKeeps(PropagateAll(s1, cur, n.pathsOut, index), cur);
      }
    }
  }

  lemma StepDecreases(s: EngineState, overwrites: OMap<DataMap>, proc: Processor, index: NodeIndex)
    requires Inv(s) && s.queue != []
    ensures Measure(Step(s, overwrites, proc, index)) < Measure(s)
  {
    var (cur, rest) := Dequeue(s.queue);
    DequeueOnce(s.queue);
    var r := Step(s, overwrites, proc, index);
    if cur !in s.nodes {
      assert Pending(r) == Pending(s);
    } else {
      var n := s.nodes[cur].(dataIn := InputOf(s.nodes[cur], cur, overwrites));
      if proc(n.dataIn).Some? {
        var s1 := s.(nodes := s.nodes[cur := n.(dataOut := FromEntries(proc(n.dataIn).value))], queue := rest);
        assert Pending(s1) == Pending(s);
        PropagateAllMeasure(s1, cur, n.pathsOut, index);
        var s2 := PropagateAll(s1, cur, n.pathsOut, index);
        assert Pending(r) == Pending(s2);
      } else {
        assert Pending(r) == Pending(s);
      }
    }
  }

  /** The state the loop leaves: the queue is empty and the invariant holds. */
  function Run(s: EngineState, overwrites: OMap<DataMap>, proc: Processor, index: NodeIndex): (r: EngineState)
    requires Inv(s)
    ensures Inv(r) && r.queue == []
    ensures r.nodes.Keys == s.nodes.Keys
    decreases Measure(s)
  {
    if s.queue == [] then s
    else
      StepKeeps(s, overwrites, proc, index);
      StepDecreases(s, overwrites, proc, index);
      Run(Step(s, overwrites, proc, index), overwrites, proc, index)
  }

  /** `while (queue.length > 0) { … }`. */
  method Drain(s0: EngineState, overwrites: OMap<DataMap>, proc: Processor, index: NodeIndex) returns (s: EngineState)
    requires Inv(s0)
    ensures s == Run(s0, overwrites, proc, index)
  {
    s := s0;
    while s.queue != []
      invariant Inv(s) && Run(s, overwrites, proc, index) == Run(s0, overwrites, proc, index)
      decreases Measure(s)
    {
      StepKeeps(s, overwrites, proc, index);
      StepDecreases(s, overwrites, proc, index);
      s := ProcessNext(s, overwrites, proc, index);
    }
  }

  // ---------------------------------------------------------------------
  // What propagation does

  /** Each entry resolving to a table node takes one from that node's in-degree; nothing else changes an in-degree. */
  lemma {:induction false} PropagateInDegree(s: EngineState, cur: NodeId, refs: seq<ObjectId>, index: NodeIndex)
    requires cur in s.nodes && Ready(s)
    ensures var r := PropagateAll(s, cur, refs, index);
            && (forall v :: v in s.nodes ==> r.inDegree[v] == s.inDegree[v] - Resolving(refs, index, v))
            && (forall v :: v in s.inDegree && v !in s.nodes ==> r.inDegree[v] == s.inDegree[v])
    decreases |refs|
  {
    if refs != [] {
      PropagateInDegree(s, cur, refs[..|refs| - 1], index);
      PropagateOneInDegree(PropagateAll(s, cur, refs[..|refs| - 1], index), cur, refs[|refs| - 1], index);
    }
  }

  /** One entry takes one from the in-degree of the table node it resolves to, and from no other. */
  lemma PropagateOneInDegree(m: EngineState, cur: NodeId, entry: ObjectId, index: NodeIndex)
    requires cur in m.nodes && Ready(m)
    ensures var r := Propagate(m, cur, entry, index);
            forall v :: v in m.inDegree ==>
              r.inDegree[v] == m.inDegree[v] - (if v in m.nodes && entry in index && index[entry] == v then 1 else 0)
  {
  }

  /** Propagation changes only data_in and level. */
  lemma {:induction false} PropagateFields(s: EngineState, cur: NodeId, refs: seq<ObjectId>, index: NodeIndex)
    requires cur in s.nodes && Ready(s)
    ensures var r := PropagateAll(s, cur, refs, index);
            forall v :: v in s.nodes ==> r.nodes[v] == s.nodes[v].(dataIn := r.nodes[v].dataIn, level := r.nodes[v].level)
    decreases |refs|
  {
    if refs != [] {
      PropagateFields(s, cur, refs[..|refs| - 1], index);
    }
  }

  /**
   * Every node of `m` holds, as data_in, what the entries `refs` leave from
   * `s`: a node some entry resolves to (`cur` itself included) has every
   * data_out pair of `cur` written into its data_in, in order; any other
   * node keeps its data_in.
   */
  ghost predicate MergedFrom(s: EngineState, m: EngineState, cur: NodeId, refs: seq<ObjectId>, index: NodeIndex) {
    && cur in s.nodes && m.nodes.Keys == s.nodes.Keys
    && (forall v :: v in s.nodes ==>
          m.nodes[v].dataIn == if Resolving(refs, index, v) == 0 then s.nodes[v].dataIn
                               else SetAll(s.nodes[v].dataIn, s.nodes[cur].dataOut))
  }

  /** Which entries one propagation step touches: at most the resolved table node, and its data_in gets `cur`'s pairs. */
  lemma PropagateTouches(m: EngineState, cur: NodeId, entry: ObjectId, index: NodeIndex)
    requires cur in m.nodes && Ready(m)
    ensures var r := Propagate(m, cur, entry, index);
            if entry in index && index[entry] in m.nodes then
              && (forall v :: v in m.nodes && v != index[entry] ==> r.nodes[v] == m.nodes[v])
              && r.nodes[index[entry]].dataIn == SetAll(m.nodes[index[entry]].dataIn, m.nodes[cur].dataOut)
            else r == m
  {
  }

  /** The last entry of `refs1` merges `cur`'s pairs into the node it resolves to. */
  lemma MergeStep(s: EngineState, m: EngineState, cur: NodeId, refs1: seq<ObjectId>, index: NodeIndex)
    requires refs1 != []
    requires Ready(m) && cur in m.nodes && MergedFrom(s, m, cur, refs1[..|refs1| - 1], index)
    requires UniqueKeys(s.nodes[cur].dataOut) && m.nodes[cur].dataOut == s.nodes[cur].dataOut
    ensures MergedFrom(s, Propagate(m, cur, refs1[|refs1| - 1], index), cur, refs1, index)
  {
    var refs, entry := refs1[..|refs1| - 1], refs1[|refs1| - 1];
    var r := Propagate(m, cur, entry, index);
    PropagateTouches(m, cur, entry, index);
    var hit := entry in index && index[entry] in m.nodes;
    forall v | v in s.nodes
      ensures r.nodes[v].dataIn == if Resolving(refs1, index, v) == 0 then s.nodes[v].dataIn
                                   else SetAll(s.nodes[v].dataIn, s.nodes[cur].dataOut)
    {
      if hit && v == index[entry] {
        if Resolving(refs, index, v) != 0 {
          SetAllTwice(s.nodes[v].dataIn, s.nodes[cur].dataOut);
        }
      } else {
        assert Resolving(refs1, index, v) == Resolving(refs, index, v);
        assert r.nodes[v] == m.nodes[v];
      }
    }
  }

  /** Propagation leaves the data_out of `cur` as it was. */
  lemma PropagateKeepsOut(s: EngineState, cur: NodeId, refs: seq<ObjectId>, index: NodeIndex)
    requires cur in s.nodes && Ready(s)
    ensures PropagateAll(s, cur, refs, index).nodes[cur].dataOut == s.nodes[cur].dataOut
  {
    PropagateFields(s, cur, refs, index);
  }

  /**
   * A node some entry resolves to ends with every data_out pair of `cur`
   * written into its old data_in, in order (an existing key keeps its place,
   * a new key is appended); every other node keeps its data_in.
   */
  lemma {:induction false} PropagateDataIn(s: EngineState, cur: NodeId, refs: seq<ObjectId>, index: NodeIndex)
    requires cur in s.nodes && Ready(s) && UniqueKeys(s.nodes[cur].dataOut)
    ensures MergedFrom(s, PropagateAll(s, cur, refs, index), cur, refs, index)
    decreases |refs|
  {
    if refs != [] {
      var p := refs[..|refs| - 1];
      PropagateDataIn(s, cur, p, index);
      PropagateKeepsOut(s, cur, p, index);
      MergeStep(s, PropagateAll(s, cur, p, index), cur, refs, index);
    }
  }

  /**
   * Node `v` is queued on the way from `s` to `r`: its in-degree went from
   * positive to at most 0 while it was unprocessed and enabled.
   */
  ghost predicate Released(s: EngineState, r: EngineState, v: NodeId) {
    && v in s.nodes && v in s.inDegree && v in r.inDegree
    && s.inDegree[v] >= 1 && r.inDegree[v] <= 0
    && v !in s.processed && Truthy(s.nodes[v].isEnabled)
  }

  /** How the queue and the levels of `m` follow from those of `s`, part way through propagating from `cur`. */
  ghost predicate Tracks(s: EngineState, m: EngineState, cur: NodeId) {
    && cur in s.nodes && s.nodes.Keys <= s.inDegree.Keys && s.nodes.Keys <= m.inDegree.Keys
    && m.nodes.Keys == s.nodes.Keys && m.processed == s.processed
    && (forall v :: v in s.nodes ==> m.inDegree[v] <= s.inDegree[v] && m.nodes[v].isEnabled == s.nodes[v].isEnabled)
    && (forall v :: v in m.queue <==> v in s.queue || Released(s, m, v))
    && (forall v :: v in s.nodes ==>
          m.nodes[v].level == if Released(s, m, v) then Some(NextLevel(s.nodes[cur].level)) else s.nodes[v].level)
  }

  /** One propagation step that resolves to table node `id`: the entries it changes. */
  lemma PropagateShape(m: EngineState, cur: NodeId, entry: ObjectId, index: NodeIndex)
    requires cur in m.nodes && Ready(m) && entry in index && index[entry] in m.nodes
    ensures var r := Propagate(m, cur, entry, index);
            var id := index[entry];
            && r.inDegree == m.inDegree[id := m.inDegree[id] - 1]
            && (forall v :: v in m.nodes && v != id ==> r.nodes[v] == m.nodes[v])
            && r.nodes[id].isEnabled == m.nodes[id].isEnabled
  {
  }

  /** One propagation step that resolves to table node `id`: the queue and `id`'s level. */
  lemma PropagateQueued(m: EngineState, cur: NodeId, entry: ObjectId, index: NodeIndex)
    requires cur in m.nodes && Ready(m) && entry in index && index[entry] in m.nodes
    ensures var r := Propagate(m, cur, entry, index);
            var id := index[entry];
            var enq := m.inDegree[id] - 1 == 0 && id !in m.processed && Truthy(m.nodes[id].isEnabled);
            && (forall v :: v in r.queue <==> v in m.queue || (enq && v == id))
            && r.nodes[id].level == if enq then Some(NextLevel(m.nodes[cur].level)) else m.nodes[id].level
  {
    var id := index[entry];
    var r := Propagate(m, cur, entry, index);
    if m.inDegree[id] - 1 == 0 && id !in m.processed && Truthy(m.nodes[id].isEnabled) {
      assert r.queue == Enqueue(m.queue, id);
      assert forall x :: x in r.queue <==> multiset(r.queue)[x] > 0;
      assert forall x :: x in m.queue <==> multiset(m.queue)[x] > 0;
    } else {
      assert r.queue == m.queue;
    }
  }

  lemma TracksStep(s: EngineState, m: EngineState, cur: NodeId, entry: ObjectId, index: NodeIndex)
    requires Ready(m) && cur in m.nodes && Tracks(s, m, cur) && s.inDegree[cur] <= 0
    ensures Tracks(s, Propagate(m, cur, entry, index), cur)
  {
    if entry in index && index[entry] in m.nodes {
      var id := index[entry];
      var r := Propagate(m, cur, entry, index);
      var enq := m.inDegree[id] - 1 == 0 && id !in m.processed && Truthy(m.nodes[id].isEnabled);
      PropagateShape(m, cur, entry, index);
      PropagateQueued(m, cur, entry, index);
      assert !Released(s, m, cur);
      forall v | true ensures Released(s, r, v) <==> Released(s, m, v) || (enq && v == id) {
        if v == id {
          assert m.inDegree[id] <= s.inDegree[id];
        }
      }
      forall v | v in s.nodes
        ensures r.nodes[v].level == if Released(s, r, v) then Some(NextLevel(s.nodes[cur].level)) else s.nodes[v].level
      {
        if v == id {
          assert m.nodes[cur].level == s.nodes[cur].level;
        }
      }
    }
  }

  /** Exactly the released successors are queued, each with the level after `cur`'s; no other level changes. */
  lemma {:induction false} PropagateQueue(s: EngineState, cur: NodeId, refs: seq<ObjectId>, index: NodeIndex)
    requires cur in s.nodes && Ready(s) && s.inDegree[cur] <= 0
    ensures Tracks(s, PropagateAll(s, cur, refs, index), cur)
    decreases |refs|
  {
    if refs != [] {
      PropagateQueue(s, cur, refs[..|refs| - 1], index);
      TracksStep(s, PropagateAll(s, cur, refs[..|refs| - 1], index), cur, refs[|refs| - 1], index);
    }
  }

  // ---------------------------------------------------------------------
  // What one pass does

  /**
   * A pass whose processor call fails (lines 340-343) skips the node: it is
   * not marked processed and keeps its status and data_out, no in-degree,
   * queue entry or other node changes; only its data_in has been replaced
   * by its overwrite, if it has one.
   */
  lemma StepFailure(s: EngineState, overwrites: OMap<DataMap>, proc: Processor, index: NodeIndex)
    requires Inv(s) && s.queue != []
    requires var cur := Dequeue(s.queue).0;
             cur in s.nodes && proc(InputOf(s.nodes[cur], cur, overwrites)).None?
    ensures var (cur, rest) := Dequeue(s.queue);
            var r := Step(s, overwrites, proc, index);
            && r.processed == s.processed && r.inDegree == s.inDegree && r.queue == rest
            && (forall v :: v in s.nodes && v != cur ==> r.nodes[v] == s.nodes[v])
            && r.nodes[cur] == s.nodes[cur].(dataIn := InputOf(s.nodes[cur], cur, overwrites))
            && r.nodes[cur].status != Processed && cur !in r.processed
  {
  }

  /** An overwrite replaces the node's data_in wholesale (line 326): whatever data_in the node had plays no part. */
  lemma OverwriteWholesale(s: EngineState, overwrites: OMap<DataMap>, proc: Processor, index: NodeIndex, d: DataMap)
    requires Ready(s) && s.queue != []
    requires var cur := Dequeue(s.queue).0; cur in s.nodes && Has(overwrites, cur)
    ensures var cur := Dequeue(s.queue).0;
            Step(s.(nodes := s.nodes[cur := s.nodes[cur].(dataIn := d)]), overwrites, proc, index) == Step(s, overwrites, proc, index)
  {
    var cur := Dequeue(s.queue).0;
    var s' := s.(nodes := s.nodes[cur := s.nodes[cur].(dataIn := d)]);
    var n := s.nodes[cur].(dataIn := InputOf(s.nodes[cur], cur, overwrites));
    assert s'.nodes[cur].(dataIn := InputOf(s'.nodes[cur], cur, overwrites)) == n;
    assert s'.nodes[cur := n] == s.nodes[cur := n];
    if proc(n.dataIn).Some? {
      var w := n.(dataOut := FromEntries(proc(n.dataIn).value));
      assert s'.nodes[cur := w] == s.nodes[cur := w];
    }
  }

  /** The pass that processes `cur` successfully, up to the propagation. */
  function Started(s: EngineState, overwrites: OMap<DataMap>, proc: Processor): EngineState
    requires Ready(s) && s.queue != []
    requires var cur := Dequeue(s.queue).0;
             cur in s.nodes && proc(InputOf(s.nodes[cur], cur, overwrites)).Some?
  {
    var (cur, rest) := Dequeue(s.queue);
    var n := s.nodes[cur].(dataIn := InputOf(s.nodes[cur], cur, overwrites));
    s.(nodes := s.nodes[cur := n.(dataOut := FromEntries(proc(n.dataIn).value))], queue := rest)
  }

  lemma StepIsStarted(s: EngineState, overwrites: OMap<DataMap>, proc: Processor, index: NodeIndex)
    requires Inv(s) && s.queue != []
    requires var cur := Dequeue(s.queue).0;
             cur in s.nodes && proc(InputOf(s.nodes[cur], cur, overwrites)).Some?
    ensures var cur := Dequeue(s.queue).0;
            var s1 := Started(s, overwrites, proc);
            && Ready(s1) && cur in s1.nodes && s1.inDegree[cur] <= 0 && cur !in s1.processed
            && Step(s, overwrites, proc, index) == Finish(PropagateAll(s1, cur, s.nodes[cur].pathsOut, index), cur)
  {
    DequeueOnce(s.queue);
  }

  /**
   * A pass whose processor call succeeds (lines 330-382): the node's
   * data_out is the processor's result, and it is marked processed and
   * appended to the processed list.
   */
  lemma StepSuccess(s: EngineState, overwrites: OMap<DataMap>, proc: Processor, index: NodeIndex)
    requires Inv(s) && s.queue != []
    requires var cur := Dequeue(s.queue).0;
             cur in s.nodes && proc(InputOf(s.nodes[cur], cur, overwrites)).Some?
    ensures var cur := Dequeue(s.queue).0;
            var r := Step(s, overwrites, proc, index);
            && r.processed == s.processed + [cur]
            && r.nodes[cur].status == Processed
            && r.nodes[cur].dataOut == FromEntries(proc(InputOf(s.nodes[cur], cur, overwrites)).value)
  {
    var cur := Dequeue(s.queue).0;
    StepIsStarted(s, overwrites, proc, index);
    PropagateFields(Started(s, overwrites, proc), cur, s.nodes[cur].pathsOut, index);
  }

  /**
   * On success every table node loses one in-degree per `paths_out` entry
   * of the node resolving to it, and each node reached has the new data_out
   * pairs written into its data_in, in order. That includes the node itself
   * when one of its own entries resolves to it, on top of its overwrite.
   * Nothing else of another node changes but its level.
   */
  lemma StepSuccessors(s: EngineState, overwrites: OMap<DataMap>, proc: Processor, index: NodeIndex)
    requires Inv(s) && s.queue != []
    requires var cur := Dequeue(s.queue).0;
             cur in s.nodes && proc(InputOf(s.nodes[cur], cur, overwrites)).Some?
    ensures var cur := Dequeue(s.queue).0;
            var out := FromEntries(proc(InputOf(s.nodes[cur], cur, overwrites)).value);
            var paths := s.nodes[cur].pathsOut;
            var r := Step(s, overwrites, proc, index);
            && (forall v :: v in s.nodes ==> r.inDegree[v] == s.inDegree[v] - Resolving(paths, index, v))
            && (forall v :: v in s.nodes && v != cur ==>
                  r.nodes[v] == s.nodes[v].(dataIn := r.nodes[v].dataIn, level := r.nodes[v].level))
            && (forall v :: v in s.nodes && v != cur ==>
                  r.nodes[v].dataIn == if Resolving(paths, index, v) == 0 then s.nodes[v].dataIn
                                       else SetAll(s.nodes[v].dataIn, out))
            && (var input := InputOf(s.nodes[cur], cur, overwrites);
                r.nodes[cur].dataIn == if Resolving(paths, index, cur) == 0 then input else SetAll(input, out))
  {
    var cur := Dequeue(s.queue).0;
    var s1 := Started(s, overwrites, proc);
    StepIsStarted(s, overwrites, proc, index);
    PropagateInDegree(s1, cur, s.nodes[cur].pathsOut, index);
    PropagateFields(s1, cur, s.nodes[cur].pathsOut, index);
    PropagateDataIn(s1, cur, s.nodes[cur].pathsOut, index);
  }

  /**
   * On success the successors queued are exactly those released: their
   * in-degree went from positive to at most 0 while they were unprocessed
   * and enabled; each gets the level after the node's, and no other level
   * changes.
   */
  lemma StepQueues(s: EngineState, overwrites: OMap<DataMap>, proc: Processor, index: NodeIndex)
    requires Inv(s) && s.queue != []
    requires var cur := Dequeue(s.queue).0;
             cur in s.nodes && proc(InputOf(s.nodes[cur], cur, overwrites)).Some?
    ensures var (cur, rest) := Dequeue(s.queue);
            var r := Step(s, overwrites, proc, index);
            && (forall v :: v in r.queue <==> v in rest || Released(s, r, v))
            && (forall v :: v in s.nodes ==>
                  r.nodes[v].level == if Released(s, r, v) then Some(NextLevel(s.nodes[cur].level)) else s.nodes[v].level)
  {
    var cur := Dequeue(s.queue).0;
    var s1 := Started(s, overwrites, proc);
    StepIsStarted(s, overwrites, proc, index);
    PropagateQueue(s1, cur, s.nodes[cur].pathsOut, index);
    var s2 := PropagateAll(s1, cur, s.nodes[cur].pathsOut, index);
    assert forall v :: Released(s1, s2, v) <==> Released(s, Step(s, overwrites, proc, index), v);
  }
}
