/**
 * Structural validation of a stored graph against a list of root ids
 * (backend/helper_functions/validateGraph.js). The checks run in a fixed
 * order and the first failing one decides the error:
 *   1. every referenced node and edge was fetched (count comparison);
 *   2. every fetched edge's source, then destination, is a fetched node;
 *   3. the graph's edge-id list has no repeat;
 *   4. at least one root is given, and a multi-source breadth-first search
 *      from the roots visits as many ids as there are nodes;
 *   5. Kahn's algorithm processes every node (no cycle).
 * The catalog look-ups `Node.find` / `Edge.find` become `FetchNodes` /
 * `FetchEdges` over the stored documents.
 */
module ValidateGraph {
  import opened RunRecords
  import opened Collections

  datatype EdgeDoc = EdgeDoc(id: ObjectId, src: ObjectId, dst: ObjectId)

  /** A graph document: its node and edge reference lists. */
  datatype GraphDoc = GraphDoc(nodes: seq<ObjectId>, edges: seq<ObjectId>)

  datatype ValidationError =
    | NodesNotValid                       // "Some nodes are not valid"
    | EdgesNotValid                       // "Some edges are not valid"
    | SourceMissing(src: ObjectId)        // "Source node … does not exist"
    | DestinationMissing(dst: ObjectId)   // "Destination node … does not exist"
    | DuplicateEdges                      // "Duplicate edges detected"
    | NoRoot                              // "At least one root node must be specified"
    | Islands                             // "Graph contains islands; …"
    | Cycle                               // "Graph contains a cycle"

  datatype Outcome = Valid | Invalid(error: ValidationError)

  // ---------------------------------------------------------------------
  // Fetching documents: `Model.find({ _id: { $in: refs } })` returns each
  // stored document whose id is referenced, once, in store order.

  function FetchNodes(store: seq<ObjectId>, refs: seq<ObjectId>): (r: seq<ObjectId>)
    ensures forall x :: x in r <==> x in store && x in refs
    ensures Distinct(store) ==> Distinct(r)
  {
    if store == [] then []
    else (if store[0] in refs then [store[0]] else []) + FetchNodes(store[1..], refs)
  }

  predicate DistinctIds(s: seq<EdgeDoc>) {
    forall i, j :: 0 <= i < j < |s| ==> s[i].id != s[j].id
  }

  function FetchEdges(store: seq<EdgeDoc>, refs: seq<ObjectId>): (r: seq<EdgeDoc>)
    ensures forall e :: e in r <==> e in store && e.id in refs
    ensures DistinctIds(store) ==> DistinctIds(r)
  {
    if store == [] then []
    else (if store[0].id in refs then [store[0]] else []) + FetchEdges(store[1..], refs)
  }

  function EdgeIds(s: seq<EdgeDoc>): (ids: seq<ObjectId>)
    ensures |ids| == |s|
    ensures forall i :: 0 <= i < |s| ==> ids[i] == s[i].id
  {
    seq(|s|, i requires 0 <= i < |s| => s[i].id)
  }

  /** With a repeat in the reference list, fewer documents than references come back. */
  lemma {:induction false} FetchedFewerOnRepeat(store: seq<EdgeDoc>, refs: seq<ObjectId>)
    requires DistinctIds(store) && !Distinct(refs)
    ensures |FetchEdges(store, refs)| < |refs|
  {
    var r := FetchEdges(store, refs);
    var ids := EdgeIds(r);
    assert Distinct(ids);
    assert Elems(ids) <= Elems(refs) by {
      forall x | x in Elems(ids) ensures x in Elems(refs) {
        var i :| 0 <= i < |ids| && ids[i] == x;
        assert r[i] in r;
      }
    }
    DistinctCard(ids);
    SubsetCard(Elems(ids), Elems(refs));
    RepeatCard(refs);
  }

  lemma {:induction false} FetchedNodesFewerOnRepeat(store: seq<ObjectId>, refs: seq<ObjectId>)
    requires Distinct(store) && !Distinct(refs)
    ensures |FetchNodes(store, refs)| < |refs|
  {
    var r := FetchNodes(store, refs);
    assert Elems(r) <= Elems(refs);
    DistinctCard(r);
    SubsetCard(Elems(r), Elems(refs));
    RepeatCard(refs);
  }

  // ---------------------------------------------------------------------
  // Step 2: endpoint integrity, src before dst, edge by edge.

  function EndpointError(edges: seq<EdgeDoc>, nodes: seq<ObjectId>): (r: Option<ValidationError>)
    ensures r.None? <==> forall i :: 0 <= i < |edges| ==> edges[i].src in nodes && edges[i].dst in nodes
    ensures r.Some? ==> exists i :: (0 <= i < |edges| &&
      (forall j :: 0 <= j < i ==> edges[j].src in nodes && edges[j].dst in nodes) &&
      (if edges[i].src !in nodes then r.value == SourceMissing(edges[i].src)
       else edges[i].dst !in nodes && r.value == DestinationMissing(edges[i].dst)))
  {
    if edges == [] then None
    else if edges[0].src !in nodes then Some(SourceMissing(edges[0].src))
    else if edges[0].dst !in nodes then Some(DestinationMissing(edges[0].dst))
    else
      var r := EndpointError(edges[1..], nodes);
      assert forall i :: 1 <= i < |edges| ==> edges[i] == edges[1..][i - 1];
      r
  }

  // ---------------------------------------------------------------------
  // The edge relation, paths, reachability and cycles.

  predicate IsEdge(edges: seq<EdgeDoc>, u: ObjectId, v: ObjectId) {
    exists i :: 0 <= i < |edges| && edges[i].src == u && edges[i].dst == v
  }

  ghost predicate IsPath(edges: seq<EdgeDoc>, p: seq<ObjectId>) {
    |p| >= 1 && forall i :: 0 <= i < |p| - 1 ==> IsEdge(edges, p[i], p[i + 1])
  }

  /** `v` is a root or lies on a path of edges starting at a root. */
  ghost predicate Reachable(edges: seq<EdgeDoc>, roots: seq<ObjectId>, v: ObjectId) {
    exists p :: IsPath(edges, p) && p[0] in roots && p[|p| - 1] == v
  }

  /** Some non-empty path of edges (a self-loop included) returns to its start. */
  ghost predicate HasCycle(edges: seq<EdgeDoc>) {
    exists p :: IsPath(edges, p) && |p| >= 2 && p[0] == p[|p| - 1]
  }

  function Dsts(edges: seq<EdgeDoc>): set<ObjectId> {
    set i | 0 <= i < |edges| :: edges[i].dst
  }

  /** The reachable ids (all of them are roots or edge destinations). */
  ghost function ReachableSet(edges: seq<EdgeDoc>, roots: seq<ObjectId>): set<ObjectId> {
    set v | v in Elems(roots) + Dsts(edges) && Reachable(edges, roots, v)
  }

  /** The out-neighbours of `u`, in edge order, with one entry per edge. */
  function Succ(edges: seq<EdgeDoc>, u: ObjectId): (s: seq<ObjectId>)
    ensures forall w :: w in s <==> IsEdge(edges, u, w)
  {
    if edges == [] then []
    else
      var init := edges[..|edges| - 1];
      var e := edges[|edges| - 1];
      var s := Succ(init, u) + (if e.src == u then [e.dst] else []);
      assert forall w :: IsEdge(edges, u, w) <==> IsEdge(init, u, w) || (e.src == u && e.dst == w) by {
        forall w | IsEdge(edges, u, w) ensures IsEdge(init, u, w) || (e.src == u && e.dst == w) {
          var i :| 0 <= i < |edges| && edges[i].src == u && edges[i].dst == w;
          if i < |edges| - 1 { assert init[i] == edges[i]; }
        }
        forall w | IsEdge(init, u, w) ensures IsEdge(edges, u, w) {
          var i :| 0 <= i < |init| && init[i].src == u && init[i].dst == w;
          assert edges[i] == init[i];
        }
      }
      s
  }

  lemma SuccStep(edges: seq<EdgeDoc>, i: nat, u: ObjectId)
    requires i < |edges|
    ensures Succ(edges[..i + 1], u) ==
            Succ(edges[..i], u) + (if edges[i].src == u then [edges[i].dst] else [])
  {
    assert edges[..i + 1][..i] == edges[..i];
  }

  /** `adjacencyList[node] || []`. */
  function Neighbors(adj: map<ObjectId, seq<ObjectId>>, u: ObjectId): seq<ObjectId> {
    if u in adj then adj[u] else []
  }

  /** `adj` lists, for every id, exactly its out-neighbours. */
  ghost predicate AdjacencyOf(adj: map<ObjectId, seq<ObjectId>>, edges: seq<EdgeDoc>) {
    (forall i :: 0 <= i < |edges| ==> edges[i].src in adj) &&
    (forall u :: u in adj ==> adj[u] == Succ(edges, u))
  }

  lemma NeighborsAreSucc(adj: map<ObjectId, seq<ObjectId>>, edges: seq<EdgeDoc>, u: ObjectId)
    requires AdjacencyOf(adj, edges)
    ensures Neighbors(adj, u) == Succ(edges, u)
  {
    if u !in adj {
      if Succ(edges, u) != [] {
        assert Succ(edges, u)[0] in Succ(edges, u);
      }
    }
  }

  lemma ExtendReach(edges: seq<EdgeDoc>, roots: seq<ObjectId>, u: ObjectId, w: ObjectId)
    requires Reachable(edges, roots, u) && IsEdge(edges, u, w)
    ensures Reachable(edges, roots, w)
  {
    var p :| IsPath(edges, p) && p[0] in roots && p[|p| - 1] == u;
    var q := p + [w];
    assert forall i :: 0 <= i < |q| - 1 ==> IsEdge(edges, q[i], q[i + 1]) by {
      forall i | 0 <= i < |q| - 1 ensures IsEdge(edges, q[i], q[i + 1]) {
        if i < |p| - 1 { assert q[i] == p[i] && q[i + 1] == p[i + 1]; }
      }
    }
    assert IsPath(edges, q);
  }

  lemma RootReach(edges: seq<EdgeDoc>, roots: seq<ObjectId>, r: ObjectId)
    requires r in roots
    ensures Reachable(edges, roots, r)
  {
    assert IsPath(edges, [r]);
  }

  /** Every id of `s` has all its out-neighbours in `s`. */
  ghost predicate Closed(edges: seq<EdgeDoc>, s: set<ObjectId>) {
    forall u, w :: u in s && IsEdge(edges, u, w) ==> w in s
  }

  lemma {:induction false} PathStaysInClosed(edges: seq<EdgeDoc>, s: set<ObjectId>, p: seq<ObjectId>)
    requires Closed(edges, s) && IsPath(edges, p) && p[0] in s
    ensures p[|p| - 1] in s
    decreases |p|
  {
    if |p| > 1 {
      var q := p[..|p| - 1];
      assert IsPath(edges, q) by {
        forall i | 0 <= i < |q| - 1 ensures IsEdge(edges, q[i], q[i + 1]) {
          assert q[i] == p[i] && q[i + 1] == p[i + 1];
        }
      }
      PathStaysInClosed(edges, s, q);
      assert IsEdge(edges, p[|p| - 2], p[|p| - 1]);
    }
  }

  lemma ReachableWithin(edges: seq<EdgeDoc>, roots: seq<ObjectId>, v: ObjectId)
    requires Reachable(edges, roots, v)
    ensures v in Elems(roots) + Dsts(edges)
  {
    var p :| IsPath(edges, p) && p[0] in roots && p[|p| - 1] == v;
    if |p| > 1 {
      assert IsEdge(edges, p[|p| - 2], p[|p| - 1]);
      var i :| 0 <= i < |edges| && edges[i].src == p[|p| - 2] && edges[i].dst == v;
      assert v in Dsts(edges);
    }
  }

  // ---------------------------------------------------------------------
  // Step 4: adjacency list and multi-source BFS (validateGraph.js lines 56-82).

  method BuildAdjacency(nodes: seq<ObjectId>, edges: seq<EdgeDoc>) returns (adj: map<ObjectId, seq<ObjectId>>)
    requires forall i :: 0 <= i < |edges| ==> edges[i].src in nodes
    ensures adj.Keys == Elems(nodes)
    ensures AdjacencyOf(adj, edges)
  {
    adj := map[];
    var k := 0;
    while k < |nodes|
      invariant 0 <= k <= |nodes|
      invariant adj.Keys == Elems(nodes[..k])
      invariant forall u :: u in adj ==> adj[u] == []
    {
      assert Elems(nodes[..k + 1]) == Elems(nodes[..k]) + {nodes[k]} by {
        assert nodes[..k + 1] == nodes[..k] + [nodes[k]];
      }
      adj := adj[nodes[k] := []];
      k := k + 1;
    }
    assert nodes[..k] == nodes;
    var i := 0;
    while i < |edges|
      invariant 0 <= i <= |edges|
      invariant adj.Keys == Elems(nodes)
      invariant forall u :: u in adj ==> adj[u] == Succ(edges[..i], u)
    {
      var e := edges[i];
      forall u | u in adj ensures Succ(edges[..i + 1], u) == Succ(edges[..i], u) + (if e.src == u then [e.dst] else []) {
        SuccStep(edges, i, u);
      }
      adj := adj[e.src := adj[e.src] + [e.dst]];
      i := i + 1;
    }
    assert edges[..i] == edges;
  }

  /**
   * The ids of `ns` outside `seen`, in order of first occurrence: what a
   * walk over `ns` that marks each id as seen pushes, each id at most once.
   */
  function FreshIn(ns: seq<ObjectId>, seen: set<ObjectId>): (r: seq<ObjectId>)
    ensures Distinct(r)
    ensures forall x :: x in r <==> x in ns && x !in seen
    ensures (forall x :: x in ns ==> x in seen) ==> r == []
  {
    if ns == [] then []
    else
      var front, last := ns[..|ns| - 1], ns[|ns| - 1];
      var f := FreshIn(front, seen);
      if last in seen || last in front then f
      else
        assert forall x :: x in ns <==> x in front || x == last;
        DistinctConcat(f, [last]);
        f + [last]
  }

  /** The inner `forEach` of the search: visit and enqueue each id not visited yet. */
  method VisitAll(neighbors: seq<ObjectId>, visited0: set<ObjectId>, queue0: seq<ObjectId>)
    returns (visited: set<ObjectId>, queue: seq<ObjectId>)
    ensures visited == visited0 + Elems(neighbors)
    ensures queue == queue0 + FreshIn(neighbors, visited0)
  {
    visited, queue := visited0, queue0;
    var j := 0;
    while j < |neighbors|
      invariant 0 <= j <= |neighbors|
      invariant visited == visited0 + Elems(neighbors[..j])
      invariant queue == queue0 + FreshIn(neighbors[..j], visited0)
    {
      var neighbor := neighbors[j];
      assert neighbors[..j + 1][..j] == neighbors[..j];
      assert neighbors[..j + 1][j] == neighbor;
      assert neighbor in visited <==> neighbor in visited0 || neighbor in neighbors[..j];
      if neighbor !in visited {
        visited := visited + {neighbor};
        queue := queue + [neighbor];
      }
      assert neighbors[..j + 1] == neighbors[..j] + [neighbor];
      j := j + 1;
    }
    assert neighbors[..j] == neighbors;
  }

  /** Every out-neighbour of `u` is in `s`. */
  ghost predicate Expanded(edges: seq<EdgeDoc>, u: ObjectId, s: set<ObjectId>) {
    forall w :: IsEdge(edges, u, w) ==> w in s
  }

  lemma NeighborsReachable(edges: seq<EdgeDoc>, roots: seq<ObjectId>, node: ObjectId, neighbors: seq<ObjectId>)
    requires neighbors == Succ(edges, node) && Reachable(edges, roots, node)
    ensures Elems(neighbors) <= Dsts(edges)
    ensures forall w :: w in neighbors ==> Reachable(edges, roots, w)
  {
    forall w | w in neighbors ensures w in Dsts(edges) && Reachable(edges, roots, w) {
      var i :| 0 <= i < |edges| && edges[i].src == node && edges[i].dst == w;
      ExtendReach(edges, roots, node, w);
    }
  }

  /** After `node` is dequeued and its neighbours visited, every visited id off the queue is expanded. */
  lemma ExpandStep(edges: seq<EdgeDoc>, node: ObjectId, neighbors: seq<ObjectId>,
                   before: set<ObjectId>, oldQueue: seq<ObjectId>, visited: set<ObjectId>, queue: seq<ObjectId>)
    requires oldQueue != [] && node == oldQueue[0] && neighbors == Succ(edges, node)
    requires forall u :: u in before && u !in oldQueue ==> Expanded(edges, u, before)
    requires visited == before + Elems(neighbors)
    requires Elems(queue) == Elems(oldQueue[1..]) + (Elems(neighbors) - before)
    ensures forall u :: u in visited && u !in queue ==> Expanded(edges, u, visited)
  {
    forall u | u in visited && u !in queue ensures Expanded(edges, u, visited) {
      assert u !in Elems(queue);
      if u != node {
        assert u in before && u !in oldQueue;
        assert Expanded(edges, u, before);
      }
    }
  }

  lemma ClosedContainsReachable(edges: seq<EdgeDoc>, roots: seq<ObjectId>, s: set<ObjectId>)
    requires Elems(roots) <= s
    requires forall u :: u in s ==> Expanded(edges, u, s)
    ensures forall v :: Reachable(edges, roots, v) ==> v in s
  {
    assert Closed(edges, s) by {
      forall u, w | u in s && IsEdge(edges, u, w) ensures w in s {
        assert Expanded(edges, u, s);
      }
    }
    forall v | Reachable(edges, roots, v) ensures v in s {
      var p :| IsPath(edges, p) && p[0] in roots && p[|p| - 1] == v;
      PathStaysInClosed(edges, s, p);
    }
  }

  /**
   * What holds between two rounds of the search. `pushed` lists the ids
   * enqueued so far after the roots: each non-root visited id exactly once,
   * and the queue is what is left of the roots followed by `pushed`.
   */
  ghost predicate SearchInv(edges: seq<EdgeDoc>, roots: seq<ObjectId>, visited: set<ObjectId>,
                            queue: seq<ObjectId>, pushed: seq<ObjectId>) {
    Elems(roots) <= visited <= Elems(roots) + Dsts(edges) &&
    Elems(queue) <= visited &&
    (forall v :: v in visited ==> Reachable(edges, roots, v)) &&
    (forall u :: u in visited && u !in queue ==> Expanded(edges, u, visited)) &&
    Traced(roots, visited, queue, pushed)
  }

  /** The queue part of the round invariant: what `pushed` records. */
  ghost predicate Traced(roots: seq<ObjectId>, visited: set<ObjectId>, queue: seq<ObjectId>, pushed: seq<ObjectId>) {
    Distinct(pushed) && Elems(pushed) == visited - Elems(roots) &&
    IsSuffix(queue, roots + pushed)
  }

  /** `q` is what is left of `all` once some prefix is dropped. */
  ghost predicate IsSuffix(q: seq<ObjectId>, all: seq<ObjectId>) {
    |q| <= |all| && q == all[|all| - |q|..]
  }

  /** Dropping the head of a suffix and appending to both keeps it a suffix. */
  lemma SuffixStep(all: seq<ObjectId>, queue0: seq<ObjectId>, added: seq<ObjectId>)
    requires queue0 != [] && IsSuffix(queue0, all)
    ensures IsSuffix(queue0[1..] + added, all + added)
  {
    var k := |all| - |queue0| + 1;
    assert |all + added| - |queue0[1..] + added| == k;
    assert (all + added)[k..] == all[k..] + added;
    assert all[k..] == queue0[1..];
  }

  /** The ids recorded after a round are the non-root visited ids, each once. */
  lemma PushedStep(roots: seq<ObjectId>, visited0: set<ObjectId>, pushed0: seq<ObjectId>,
                   neighbors: seq<ObjectId>, visited: set<ObjectId>)
    requires Elems(roots) <= visited0 && Distinct(pushed0) && Elems(pushed0) == visited0 - Elems(roots)
    requires visited == visited0 + Elems(neighbors)
    ensures Distinct(pushed0 + FreshIn(neighbors, visited0))
    ensures Elems(pushed0 + FreshIn(neighbors, visited0)) == visited - Elems(roots)
  {
    var added := FreshIn(neighbors, visited0);
    forall x | x in added ensures x !in pushed0 {
      assert x in pushed0 ==> x in Elems(pushed0);
    }
    DistinctConcat(pushed0, added);
    forall x ensures x in Elems(pushed0 + added) <==> x in visited - Elems(roots) {
      assert x in pushed0 + added <==> x in pushed0 || x in added;
      assert x in Elems(pushed0) <==> x in pushed0;
      assert x in Elems(roots) <==> x in roots;
      assert x in Elems(neighbors) <==> x in neighbors;
    }
  }

  /** The new queue holds the new neighbours, and is shorter when nothing new was visited. */
  lemma QueueStep(visited0: set<ObjectId>, queue0: seq<ObjectId>, neighbors: seq<ObjectId>,
                  visited: set<ObjectId>, queue: seq<ObjectId>)
    requires queue0 != []
    requires visited == visited0 + Elems(neighbors) && queue == queue0[1..] + FreshIn(neighbors, visited0)
    ensures Elems(queue) == Elems(queue0[1..]) + (Elems(neighbors) - visited0)
    ensures visited == visited0 ==> |queue| < |queue0|
  {
    var added := FreshIn(neighbors, visited0);
    forall x ensures x in Elems(queue) <==> x in Elems(queue0[1..]) + (Elems(neighbors) - visited0) {
      assert x in queue <==> x in queue0[1..] || x in added;
      assert x in Elems(neighbors) <==> x in neighbors;
    }
  }

  /** Enqueueing the new neighbours after dequeueing the head extends the record by them. */
  lemma TracedStep(roots: seq<ObjectId>, visited0: set<ObjectId>, queue0: seq<ObjectId>, pushed0: seq<ObjectId>,
                   neighbors: seq<ObjectId>, visited: set<ObjectId>, queue: seq<ObjectId>)
    requires queue0 != [] && Elems(roots) <= visited0 && Traced(roots, visited0, queue0, pushed0)
    requires visited == visited0 + Elems(neighbors) && queue == queue0[1..] + FreshIn(neighbors, visited0)
    ensures Traced(roots, visited, queue, pushed0 + FreshIn(neighbors, visited0))
  {
    var added := FreshIn(neighbors, visited0);
    PushedStep(roots, visited0, pushed0, neighbors, visited);
    SuffixStep(roots + pushed0, queue0, added);
    assert roots + pushed0 + added == roots + (pushed0 + added);
  }

  /** One round: dequeue the head, then visit its neighbours, enqueueing the new ones. */
  method SearchStep(adj: map<ObjectId, seq<ObjectId>>, roots: seq<ObjectId>, ghost edges: seq<EdgeDoc>,
                    visited0: set<ObjectId>, queue0: seq<ObjectId>, ghost pushed0: seq<ObjectId>)
    returns (visited: set<ObjectId>, queue: seq<ObjectId>, ghost pushed: seq<ObjectId>)
    requires AdjacencyOf(adj, edges) && queue0 != []
    requires SearchInv(edges, roots, visited0, queue0, pushed0)
    ensures SearchInv(edges, roots, visited, queue, pushed)
    ensures visited0 <= visited
    ensures visited == visited0 ==> |queue| < |queue0|
  {
    var node := queue0[0];
    var neighbors := Neighbors(adj, node);
    NeighborsAreSucc(adj, edges, node);
    NeighborsReachable(edges, roots, node, neighbors);
    visited, queue := VisitAll(neighbors, visited0, queue0[1..]);
    pushed := pushed0 + FreshIn(neighbors, visited0);
    TracedStep(roots, visited0, queue0, pushed0, neighbors, visited, queue);
    QueueStep(visited0, queue0, neighbors, visited, queue);
    ExpandStep(edges, node, neighbors, visited0, queue0, visited, queue);
  }

  /**
   * The search from `roots`; the ghost `pushed` lists the ids enqueued after
   * the roots, each at most once.
   */
  method Bfs(adj: map<ObjectId, seq<ObjectId>>, roots: seq<ObjectId>, ghost edges: seq<EdgeDoc>)
    returns (visited: set<ObjectId>, ghost pushed: seq<ObjectId>)
    requires AdjacencyOf(adj, edges)
    ensures forall v :: v in visited <==> Reachable(edges, roots, v)
    ensures Distinct(pushed) && Elems(pushed) == visited - Elems(roots)
  {
    var queue := roots;
    visited := set r | r in roots;
    pushed := [];
    forall v | v in visited ensures Reachable(edges, roots, v) {
      RootReach(edges, roots, v);
    }
    assert roots + pushed == roots;
    ghost var universe := Elems(roots) + Dsts(edges);
    while |queue| > 0
      invariant SearchInv(edges, roots, visited, queue, pushed)
      decreases |universe| - |visited|, |queue|
    {
      SubsetCard(visited, universe);
      ghost var before := visited;
      visited, queue, pushed := SearchStep(adj, roots, edges, visited, queue, pushed);
      if visited != before {
        StrictSubsetCard(before, visited);
        SubsetCard(visited, universe);
      }
    }
    ClosedContainsReachable(edges, roots, visited);
  }

  // ---------------------------------------------------------------------
  // Step 5: Kahn's algorithm (validateGraph.js lines 96-131).

  /** The number of edges into `v` whose source is not in `out`. */
  function CountIn(edges: seq<EdgeDoc>, v: ObjectId, out: set<ObjectId>): nat {
    if edges == [] then 0
    else
      var e := edges[|edges| - 1];
      CountIn(edges[..|edges| - 1], v, out) + (if e.dst == v && e.src !in out then 1 else 0)
  }

  lemma {:induction false} CountInZero(edges: seq<EdgeDoc>, v: ObjectId, out: set<ObjectId>)
    ensures CountIn(edges, v, out) == 0 <==>
            forall i :: 0 <= i < |edges| && edges[i].dst == v ==> edges[i].src in out
  {
    if edges != [] {
      var init := edges[..|edges| - 1];
      CountInZero(init, v, out);
      assert forall i :: 0 <= i < |init| ==> init[i] == edges[i];
    }
  }

  /** Counting with `u` excluded removes exactly the edges from `u`. */
  lemma {:induction false} CountInStep(edges: seq<EdgeDoc>, u: ObjectId, v: ObjectId, out: set<ObjectId>)
    requires u !in out
    ensures multiset(Succ(edges, u))[v] <= CountIn(edges, v, out)
    ensures CountIn(edges, v, out + {u}) == CountIn(edges, v, out) - multiset(Succ(edges, u))[v]
  {
    if edges != [] {
      var init := edges[..|edges| - 1];
      CountInStep(init, u, v, out);
    }
  }

  lemma SuccInNodes(edges: seq<EdgeDoc>, nodes: seq<ObjectId>, u: ObjectId, w: ObjectId)
    requires forall i :: 0 <= i < |edges| ==> edges[i].src in nodes && edges[i].dst in nodes
    requires w in Succ(edges, u)
    ensures w in nodes && CountIn(edges, w, {}) > 0
  {
    var i :| 0 <= i < |edges| && edges[i].src == u && edges[i].dst == w;
    CountInZero(edges, w, {});
  }

  /** Position of `x` in `s`. */
  function Pos(s: seq<ObjectId>, x: ObjectId): (i: nat)
    requires x in s
    ensures i < |s| && s[i] == x
    ensures forall j :: 0 <= j < i ==> s[j] != x
  {
    if s[0] == x then 0 else 1 + Pos(s[1..], x)
  }

  /** Edges that all go forward in a repeat-free order. */
  ghost predicate Forward(edges: seq<EdgeDoc>, order: seq<ObjectId>) {
    forall i :: 0 <= i < |edges| ==>
      edges[i].src in order && edges[i].dst in order && Pos(order, edges[i].src) < Pos(order, edges[i].dst)
  }

  lemma {:induction false} PathRises(edges: seq<EdgeDoc>, order: seq<ObjectId>, p: seq<ObjectId>)
    requires Forward(edges, order) && IsPath(edges, p) && |p| >= 2
    ensures p[0] in order && p[|p| - 1] in order && Pos(order, p[0]) < Pos(order, p[|p| - 1])
    decreases |p|
  {
    assert IsEdge(edges, p[|p| - 2], p[|p| - 1]);
    var i :| 0 <= i < |edges| && edges[i].src == p[|p| - 2] && edges[i].dst == p[|p| - 1];
    if |p| > 2 {
      var q := p[..|p| - 1];
      assert IsPath(edges, q) by {
        forall k | 0 <= k < |q| - 1 ensures IsEdge(edges, q[k], q[k + 1]) {
          assert q[k] == p[k] && q[k + 1] == p[k + 1];
        }
      }
      PathRises(edges, order, q);
    }
  }

  /** A topological order rules out cycles. */
  lemma AcyclicByOrder(edges: seq<EdgeDoc>, order: seq<ObjectId>)
    requires Forward(edges, order)
    ensures !HasCycle(edges)
  {
    if HasCycle(edges) {
      var p :| IsPath(edges, p) && |p| >= 2 && p[0] == p[|p| - 1];
      PathRises(edges, order, p);
    }
  }

  /** Some edge into `v` starts in `r`. */
  ghost predicate HasPredIn(edges: seq<EdgeDoc>, r: set<ObjectId>, v: ObjectId) {
    exists i :: 0 <= i < |edges| && edges[i].dst == v && edges[i].src in r
  }

  lemma {:induction false} Walk(edges: seq<EdgeDoc>, r: set<ObjectId>, p: seq<ObjectId>)
    requires forall v {:trigger HasPredIn(edges, r, v)} :: v in r ==> HasPredIn(edges, r, v)
    requires IsPath(edges, p) && Distinct(p) && Elems(p) <= r
    ensures HasCycle(edges)
    decreases |r| - |p|
  {
    assert p[0] in r;
    assert HasPredIn(edges, r, p[0]);
    var i :| 0 <= i < |edges| && edges[i].dst == p[0] && edges[i].src in r;
    var u := edges[i].src;
    var q := [u] + p;
    assert IsPath(edges, q) by {
      forall k | 0 <= k < |q| - 1 ensures IsEdge(edges, q[k], q[k + 1]) {
        if k == 0 {
          assert q[0] == u && q[1] == p[0];
        } else {
          assert q[k] == p[k - 1] && q[k + 1] == p[k];
        }
      }
    }
    if u in p {
      var k :| 0 <= k < |p| && p[k] == u;
      var c := q[..k + 2];
      assert IsPath(edges, c) by {
        forall m | 0 <= m < |c| - 1 ensures IsEdge(edges, c[m], c[m + 1]) {
          assert c[m] == q[m] && c[m + 1] == q[m + 1];
        }
      }
      assert c[0] == c[|c| - 1];
    } else {
      assert Distinct(q);
      DistinctWithin(q, r);
      Walk(edges, r, q);
    }
  }

  /** If every id of a non-empty set has an incoming edge from the set, there is a cycle. */
  lemma CycleFromNoSource(edges: seq<EdgeDoc>, r: set<ObjectId>)
    requires r != {}
    requires forall v {:trigger HasPredIn(edges, r, v)} :: v in r ==> HasPredIn(edges, r, v)
    ensures HasCycle(edges)
  {
    var v :| v in r;
    assert IsPath(edges, [v]);
    Walk(edges, r, [v]);
  }

  /** When Kahn's loop has taken every node, the order it took them in is topological. */
  lemma KahnAllTaken(nodes: seq<ObjectId>, edges: seq<EdgeDoc>, done: seq<ObjectId>)
    requires Distinct(done) && Elems(done) == Elems(nodes)
    requires forall i :: 0 <= i < |edges| ==> edges[i].src in nodes && edges[i].dst in nodes
    requires forall p :: 0 <= p < |done| ==> CountIn(edges, done[p], Elems(done[..p])) == 0
    ensures !HasCycle(edges)
  {
    forall i | 0 <= i < |edges|
      ensures edges[i].src in done && edges[i].dst in done && Pos(done, edges[i].src) < Pos(done, edges[i].dst)
    {
      assert edges[i].dst in Elems(nodes);
      var q := Pos(done, edges[i].dst);
      CountInZero(edges, done[q], Elems(done[..q]));
      assert edges[i].src in done[..q];
      var p :| 0 <= p < q && done[p] == edges[i].src;
      assert Pos(done, edges[i].src) == p;
    }
    AcyclicByOrder(edges, done);
  }

  /** When Kahn's loop stops with a node never taken, the untaken nodes contain a cycle. */
  lemma KahnStuck(nodes: seq<ObjectId>, edges: seq<EdgeDoc>, done: seq<ObjectId>)
    requires exists y :: y in nodes && y !in done
    requires forall i :: 0 <= i < |edges| ==> edges[i].src in nodes && edges[i].dst in nodes
    requires forall v :: v in nodes && v !in done ==> CountIn(edges, v, Elems(done)) != 0
    ensures HasCycle(edges)
  {
    var r := Elems(nodes) - Elems(done);
    var y :| y in nodes && y !in done;
    assert y in r;
    forall v | v in r ensures HasPredIn(edges, r, v) {
      CountInZero(edges, v, Elems(done));
      var i :| 0 <= i < |edges| && edges[i].dst == v && edges[i].src !in Elems(done);
      assert edges[i].src in r;
    }
    CycleFromNoSource(edges, r);
  }

  /** The Kahn loop's state after its last iteration decides acyclicity. */
  lemma KahnVerdict(nodes: seq<ObjectId>, edges: seq<EdgeDoc>, done: seq<ObjectId>)
    requires Distinct(nodes) && Distinct(done) && Elems(done) <= Elems(nodes)
    requires forall i :: 0 <= i < |edges| ==> edges[i].src in nodes && edges[i].dst in nodes
    requires forall v :: v in nodes ==> (v in done <==> CountIn(edges, v, Elems(done)) == 0)
    requires forall p :: 0 <= p < |done| ==> CountIn(edges, done[p], Elems(done[..p])) == 0
    ensures |done| <= |nodes|
    ensures |done| == |nodes| <==> !HasCycle(edges)
  {
    DistinctCard(done);
    DistinctCard(nodes);
    SubsetCard(Elems(done), Elems(nodes));
    if |done| == |nodes| {
      SameSize(Elems(done), Elems(nodes));
      KahnAllTaken(nodes, edges, done);
    } else {
      ExistsOutside(Elems(done), Elems(nodes));
      KahnStuck(nodes, edges, done);
    }
  }

  /** The in-degree map: one entry per id with an incoming edge, holding the number of such edges. */
  method CountInDegrees(edges: seq<EdgeDoc>) returns (indegree: map<ObjectId, int>)
    ensures forall v :: v in indegree <==> CountIn(edges, v, {}) > 0
    ensures forall v :: v in indegree ==> indegree[v] == CountIn(edges, v, {})
  {
    indegree := map[];
    var i := 0;
    while i < |edges|
      invariant 0 <= i <= |edges|
      invariant forall v :: v in indegree <==> CountIn(edges[..i], v, {}) > 0
      invariant forall v :: v in indegree ==> indegree[v] == CountIn(edges[..i], v, {})
    {
      assert edges[..i + 1][..i] == edges[..i];
      var d := edges[i].dst;
      indegree := indegree[d := (if d in indegree then indegree[d] else 0) + 1];
      i := i + 1;
    }
    assert edges[..i] == edges;
  }

  /** The nodes without an entry in the in-degree map, in node order. */
  method Sources(nodes: seq<ObjectId>, indegree: map<ObjectId, int>) returns (queue: seq<ObjectId>)
    requires Distinct(nodes)
    ensures Distinct(queue)
    ensures forall x :: x in queue <==> x in nodes && x !in indegree
  {
    queue := [];
    var k := 0;
    while k < |nodes|
      invariant 0 <= k <= |nodes|
      invariant Distinct(queue)
      invariant forall x :: x in queue <==> x in nodes[..k] && x !in indegree
    {
      assert nodes[..k + 1] == nodes[..k] + [nodes[k]];
      if nodes[k] !in indegree {
        queue := queue + [nodes[k]];
      }
      k := k + 1;
    }
    assert nodes[..k] == nodes;
  }

  /**
   * The inner `forEach` of Kahn's loop: decrement each neighbour's in-degree
   * and enqueue it when that reaches zero. No count drops below the number
   * of times its id is still to come.
   */
  method Release(neighbors: seq<ObjectId>, indegree0: map<ObjectId, int>, queue0: seq<ObjectId>)
    returns (indegree: map<ObjectId, int>, queue: seq<ObjectId>)
    requires forall v :: v in neighbors ==> v in indegree0 && indegree0[v] >= multiset(neighbors)[v]
    ensures indegree.Keys == indegree0.Keys
    ensures forall v :: v in indegree ==> indegree[v] == indegree0[v] - multiset(neighbors)[v]
    ensures |queue| >= |queue0| && queue[..|queue0|] == queue0
    ensures Distinct(queue[|queue0|..])
    ensures forall x :: x in queue[|queue0|..] <==> x in neighbors && indegree[x] == 0
  {
    indegree, queue := indegree0, queue0;
    var j := 0;
    while j < |neighbors|
      invariant 0 <= j <= |neighbors|
      invariant indegree.Keys == indegree0.Keys
      invariant forall v :: v in indegree ==> indegree[v] == indegree0[v] - multiset(neighbors[..j])[v]
      invariant |queue| >= |queue0| && queue[..|queue0|] == queue0
      invariant Distinct(queue[|queue0|..])
      invariant forall x :: x in queue[|queue0|..] <==> x in neighbors[..j] && indegree[x] == 0
    {
      var neighbor := neighbors[j];
      ReleaseRemaining(neighbors, j, indegree0);
      ghost var tail := queue[|queue0|..];
      indegree := indegree[neighbor := indegree[neighbor] - 1];
      if indegree[neighbor] == 0 {
        queue := queue + [neighbor];
        assert queue[|queue0|..] == tail + [neighbor];
      }
      j := j + 1;
    }
    assert neighbors[..j] == neighbors;
  }

  /** Before the `j`-th decrement, the id about to be decremented still has a positive count. */
  lemma ReleaseRemaining(neighbors: seq<ObjectId>, j: nat, indegree0: map<ObjectId, int>)
    requires j < |neighbors|
    requires forall v :: v in neighbors ==> v in indegree0 && indegree0[v] >= multiset(neighbors)[v]
    ensures neighbors[..j + 1] == neighbors[..j] + [neighbors[j]]
    ensures forall x :: x in neighbors[..j + 1] <==> x in neighbors[..j] || x == neighbors[j]
    ensures multiset(neighbors[..j + 1]) == multiset(neighbors[..j]) + multiset{neighbors[j]}
    ensures indegree0[neighbors[j]] - multiset(neighbors[..j])[neighbors[j]] >= 1
  {
    assert neighbors[..j + 1] == neighbors[..j] + [neighbors[j]];
    assert neighbors[..j + 1] + neighbors[j + 1..] == neighbors;
    assert multiset(neighbors[..j + 1]) + multiset(neighbors[j + 1..]) == multiset(neighbors);
    assert neighbors[j] in neighbors;
  }

  /** What holds between two rounds of Kahn's loop; `done` lists the nodes taken so far. */
  ghost predicate KahnInv(nodes: seq<ObjectId>, edges: seq<EdgeDoc>, indegree: map<ObjectId, int>,
                          queue: seq<ObjectId>, done: seq<ObjectId>) {
    Distinct(done + queue) &&
    Elems(done + queue) <= Elems(nodes) &&
    (forall v :: v in nodes ==> (v in done || v in queue <==> CountIn(edges, v, Elems(done)) == 0)) &&
    (forall v :: v in indegree ==> indegree[v] == CountIn(edges, v, Elems(done))) &&
    (forall v :: v !in indegree ==> CountIn(edges, v, {}) == 0) &&
    (forall p :: 0 <= p < |done| ==> CountIn(edges, done[p], Elems(done[..p])) == 0)
  }

  /** One round of Kahn's loop: take the head of the queue and release its out-edges. */
  method KahnStep(nodes: seq<ObjectId>, edges: seq<EdgeDoc>, adj: map<ObjectId, seq<ObjectId>>,
                  indegree0: map<ObjectId, int>, queue0: seq<ObjectId>, ghost done0: seq<ObjectId>)
    returns (indegree: map<ObjectId, int>, queue: seq<ObjectId>, ghost done: seq<ObjectId>)
    requires forall i :: 0 <= i < |edges| ==> edges[i].src in nodes && edges[i].dst in nodes
    requires AdjacencyOf(adj, edges) && queue0 != []
    requires KahnInv(nodes, edges, indegree0, queue0, done0)
    ensures KahnInv(nodes, edges, indegree, queue, done)
    ensures |done| == |done0| + 1
  {
    var node := queue0[0];
    var neighbors := Neighbors(adj, node);
    NeighborsAreSucc(adj, edges, node);
    KahnNodeFresh(nodes, edges, indegree0, queue0, done0);
    ghost var out := Elems(done0);
    forall v ensures multiset(neighbors)[v] <= CountIn(edges, v, out) {
      CountInStep(edges, node, v, out);
    }
    forall v | v in neighbors ensures v in indegree0 {
      SuccInNodes(edges, nodes, node, v);
    }
    indegree, queue := Release(neighbors, indegree0, queue0[1..]);
    done := done0 + [node];
    KahnStepKeeps(nodes, edges, indegree0, queue0, done0, neighbors, indegree, queue);
  }

  lemma KahnNodeFresh(nodes: seq<ObjectId>, edges: seq<EdgeDoc>, indegree: map<ObjectId, int>,
                      queue: seq<ObjectId>, done: seq<ObjectId>)
    requires queue != [] && KahnInv(nodes, edges, indegree, queue, done)
    ensures queue[0] !in Elems(done)
  {
    forall k | 0 <= k < |done| ensures done[k] != queue[0] {
      assert (done + queue)[k] == done[k] && (done + queue)[|done|] == queue[0];
    }
  }

  /** The facts `KahnStep` establishes about one round, before `KahnInv` is restored. */
  ghost predicate StepFacts(nodes: seq<ObjectId>, edges: seq<EdgeDoc>, indegree0: map<ObjectId, int>,
                            queue0: seq<ObjectId>, done0: seq<ObjectId>, neighbors: seq<ObjectId>,
                            indegree: map<ObjectId, int>, queue: seq<ObjectId>) {
    (forall i :: 0 <= i < |edges| ==> edges[i].src in nodes && edges[i].dst in nodes) &&
    KahnInv(nodes, edges, indegree0, queue0, done0) &&
    queue0 != [] && queue0[0] !in Elems(done0) && neighbors == Succ(edges, queue0[0]) &&
    (forall v :: v in neighbors ==> v in indegree0) &&
    indegree.Keys == indegree0.Keys &&
    (forall v :: v in indegree ==> indegree[v] == indegree0[v] - multiset(neighbors)[v]) &&
    |queue| >= |queue0| - 1 && queue[..|queue0| - 1] == queue0[1..] &&
    Distinct(queue[|queue0| - 1..]) &&
    (forall x :: x in queue[|queue0| - 1..] <==> x in neighbors && indegree[x] == 0)
  }

  lemma CountAfterStep(edges: seq<EdgeDoc>, done0: seq<ObjectId>, node: ObjectId, neighbors: seq<ObjectId>)
    requires node !in Elems(done0) && neighbors == Succ(edges, node)
    ensures Elems(done0 + [node]) == Elems(done0) + {node}
    ensures forall v :: CountIn(edges, v, Elems(done0 + [node])) == CountIn(edges, v, Elems(done0)) - multiset(neighbors)[v]
  {
    assert Elems(done0 + [node]) == Elems(done0) + {node};
    forall v ensures CountIn(edges, v, Elems(done0) + {node}) == CountIn(edges, v, Elems(done0)) - multiset(neighbors)[v] {
      CountInStep(edges, node, v, Elems(done0));
    }
  }

  /** A neighbour whose count drops to zero had positive count before, so it was neither done nor queued. */
  lemma ReleasedIsNew(nodes: seq<ObjectId>, edges: seq<EdgeDoc>, indegree0: map<ObjectId, int>,
                      queue0: seq<ObjectId>, done0: seq<ObjectId>, neighbors: seq<ObjectId>, x: ObjectId)
    requires forall i :: 0 <= i < |edges| ==> edges[i].src in nodes && edges[i].dst in nodes
    requires KahnInv(nodes, edges, indegree0, queue0, done0)
    requires queue0 != [] && neighbors == Succ(edges, queue0[0])
    requires x in neighbors && x in indegree0 && indegree0[x] - multiset(neighbors)[x] == 0
    ensures x !in done0 + queue0 && x in Elems(nodes)
  {
    SuccInNodes(edges, nodes, queue0[0], x);
    assert multiset(neighbors)[x] > 0;
    assert CountIn(edges, x, Elems(done0)) > 0;
  }

  lemma StepDistinct(nodes: seq<ObjectId>, edges: seq<EdgeDoc>, indegree0: map<ObjectId, int>,
                     queue0: seq<ObjectId>, done0: seq<ObjectId>, neighbors: seq<ObjectId>,
                     indegree: map<ObjectId, int>, queue: seq<ObjectId>)
    requires StepFacts(nodes, edges, indegree0, queue0, done0, neighbors, indegree, queue)
    ensures done0 + [queue0[0]] + queue == done0 + queue0 + queue[|queue0| - 1..]
    ensures Distinct(done0 + [queue0[0]] + queue)
    ensures Elems(done0 + [queue0[0]] + queue) <= Elems(nodes)
  {
    var node := queue0[0];
    var added := queue[|queue0| - 1..];
    assert queue == queue0[1..] + added;
    assert queue0 == [node] + queue0[1..];
    forall x | x in added ensures x !in done0 + queue0 && x in Elems(nodes) {
      ReleasedIsNew(nodes, edges, indegree0, queue0, done0, neighbors, x);
    }
    DistinctConcat(done0 + queue0, added);
  }

  lemma StepZero(nodes: seq<ObjectId>, edges: seq<EdgeDoc>, indegree0: map<ObjectId, int>,
                 queue0: seq<ObjectId>, done0: seq<ObjectId>, neighbors: seq<ObjectId>,
                 indegree: map<ObjectId, int>, queue: seq<ObjectId>)
    requires StepFacts(nodes, edges, indegree0, queue0, done0, neighbors, indegree, queue)
    ensures forall v :: v in nodes ==>
      (v in done0 + [queue0[0]] || v in queue <==> CountIn(edges, v, Elems(done0 + [queue0[0]])) == 0)
  {
    forall v | v in nodes
      ensures (v in done0 + [queue0[0]] || v in queue <==> CountIn(edges, v, Elems(done0 + [queue0[0]])) == 0)
    {
      StepZeroAt(nodes, edges, indegree0, queue0, done0, neighbors, indegree, queue, v);
    }
  }

  /** One round moves the head of the queue to the done list and appends the new ids. */
  lemma QueueSplit(done0: seq<ObjectId>, queue0: seq<ObjectId>, queue: seq<ObjectId>)
    requires queue0 != [] && |queue| >= |queue0| - 1 && queue[..|queue0| - 1] == queue0[1..]
    ensures forall x :: x in done0 + [queue0[0]] || x in queue <==>
                        x in done0 || x in queue0 || x in queue[|queue0| - 1..]
  {
    assert queue == queue0[1..] + queue[|queue0| - 1..];
    assert queue0 == [queue0[0]] + queue0[1..];
  }

  lemma StepZeroAt(nodes: seq<ObjectId>, edges: seq<EdgeDoc>, indegree0: map<ObjectId, int>,
                   queue0: seq<ObjectId>, done0: seq<ObjectId>, neighbors: seq<ObjectId>,
                   indegree: map<ObjectId, int>, queue: seq<ObjectId>, v: ObjectId)
    requires StepFacts(nodes, edges, indegree0, queue0, done0, neighbors, indegree, queue)
    requires v in nodes
    ensures v in done0 + [queue0[0]] || v in queue <==> CountIn(edges, v, Elems(done0 + [queue0[0]])) == 0
  {
    var node := queue0[0];
    var added := queue[|queue0| - 1..];
    QueueSplit(done0, queue0, queue);
    assert Elems(done0 + [node]) == Elems(done0) + {node};
    CountInStep(edges, node, v, Elems(done0));
    assert v in done0 || v in queue0 <==> CountIn(edges, v, Elems(done0)) == 0;
    if v in neighbors {
      assert v in indegree0;
    }
  }

  lemma StepOrder(done0: seq<ObjectId>, edges: seq<EdgeDoc>, node: ObjectId)
    requires forall p :: 0 <= p < |done0| ==> CountIn(edges, done0[p], Elems(done0[..p])) == 0
    requires CountIn(edges, node, Elems(done0)) == 0
    ensures forall p :: 0 <= p < |done0 + [node]| ==>
      CountIn(edges, (done0 + [node])[p], Elems((done0 + [node])[..p])) == 0
  {
    var done := done0 + [node];
    forall p | 0 <= p < |done| ensures CountIn(edges, done[p], Elems(done[..p])) == 0 {
      if p < |done0| {
        assert done[p] == done0[p] && done[..p] == done0[..p];
      } else {
        assert done[..p] == done0;
      }
    }
  }

  /** The facts `KahnStep` establishes restore `KahnInv`. */
  lemma KahnStepKeeps(nodes: seq<ObjectId>, edges: seq<EdgeDoc>, indegree0: map<ObjectId, int>,
                      queue0: seq<ObjectId>, done0: seq<ObjectId>, neighbors: seq<ObjectId>,
                      indegree: map<ObjectId, int>, queue: seq<ObjectId>)
    requires StepFacts(nodes, edges, indegree0, queue0, done0, neighbors, indegree, queue)
    ensures KahnInv(nodes, edges, indegree, queue, done0 + [queue0[0]])
  {
    var node := queue0[0];
    StepDistinct(nodes, edges, indegree0, queue0, done0, neighbors, indegree, queue);
    StepZero(nodes, edges, indegree0, queue0, done0, neighbors, indegree, queue);
    assert (done0 + queue0)[|done0|] == node;
    assert node in Elems(done0 + queue0);
    assert node in nodes && node in queue0;
    assert CountIn(edges, node, Elems(done0)) == 0;
    StepOrder(done0, edges, node);
    CountAfterStep(edges, done0, node, neighbors);
  }

  method Kahn(nodes: seq<ObjectId>, edges: seq<EdgeDoc>, adj: map<ObjectId, seq<ObjectId>>) returns (count: nat)
    requires Distinct(nodes)
    requires forall i :: 0 <= i < |edges| ==> edges[i].src in nodes && edges[i].dst in nodes
    requires AdjacencyOf(adj, edges)
    ensures count <= |nodes|
    ensures count == |nodes| <==> !HasCycle(edges)
  {
    var indegree := CountInDegrees(edges);
    var queue := Sources(nodes, indegree);
    count := 0;
    ghost var done: seq<ObjectId> := [];
    assert done + queue == queue;
    assert Elems(done) == {};
    while |queue| > 0
      invariant count == |done|
      invariant KahnInv(nodes, edges, indegree, queue, done)
      decreases |nodes| - |done|
    {
      DistinctWithin(done + queue, Elems(nodes));
      DistinctCard(nodes);
      indegree, queue, done := KahnStep(nodes, edges, adj, indegree, queue, done);
      count := count + 1;
    }
    assert done + queue == done;
    KahnVerdict(nodes, edges, done);
  }
  // ---------------------------------------------------------------------
  // The whole validation.

  /** The endpoint loop: the first edge whose source, then destination, is not a fetched node. */
  method CheckEndpoints(edges: seq<EdgeDoc>, nodes: seq<ObjectId>) returns (r: Option<ValidationError>)
    ensures r == EndpointError(edges, nodes)
  {
    var i := 0;
    while i < |edges|
      invariant 0 <= i <= |edges|
      invariant EndpointError(edges, nodes) == EndpointError(edges[i..], nodes)
    {
      assert edges[i..][1..] == edges[i + 1..];
      if edges[i].src !in nodes {
        return Some(SourceMissing(edges[i].src));
      }
      if edges[i].dst !in nodes {
        return Some(DestinationMissing(edges[i].dst));
      }
      i := i + 1;
    }
    assert edges[i..] == [];
    return None;
  }

  lemma VisitedIsReachableSet(edges: seq<EdgeDoc>, roots: seq<ObjectId>, visited: set<ObjectId>)
    requires forall v :: v in visited <==> Reachable(edges, roots, v)
    ensures visited == ReachableSet(edges, roots)
  {
    forall v | v in visited ensures v in Elems(roots) + Dsts(edges) {
      ReachableWithin(edges, roots, v);
    }
  }

  /** What `validateGraph(graph, root_inputs)` decides, check by check. */
  ghost function ValidateSpec(graph: GraphDoc, roots: seq<ObjectId>, nodeStore: seq<ObjectId>, edgeStore: seq<EdgeDoc>): Outcome {
    var nodes := FetchNodes(nodeStore, graph.nodes);
    var edges := FetchEdges(edgeStore, graph.edges);
    if |nodes| != |graph.nodes| then Invalid(NodesNotValid)
    else if |edges| != |graph.edges| then Invalid(EdgesNotValid)
    else if EndpointError(edges, nodes).Some? then Invalid(EndpointError(edges, nodes).value)
    else if |Elems(graph.edges)| != |graph.edges| then Invalid(DuplicateEdges)
    else if |roots| < 1 then Invalid(NoRoot)
    else if |ReachableSet(edges, roots)| != |nodes| then Invalid(Islands)
    else if HasCycle(edges) then Invalid(Cycle)
    else Valid
  }

  /** validateGraph: the stores hold each `_id` once, as a MongoDB collection does. */
  method Validate(graph: GraphDoc, roots: seq<ObjectId>, nodeStore: seq<ObjectId>, edgeStore: seq<EdgeDoc>)
    returns (r: Outcome)
    requires Distinct(nodeStore) && DistinctIds(edgeStore)
    ensures r == ValidateSpec(graph, roots, nodeStore, edgeStore)
  {
    var nodes := FetchNodes(nodeStore, graph.nodes);
    var edges := FetchEdges(edgeStore, graph.edges);
    if |nodes| != |graph.nodes| {
      return Invalid(NodesNotValid);
    }
    if |edges| != |graph.edges| {
      return Invalid(EdgesNotValid);
    }

    var endpointError := CheckEndpoints(edges, nodes);
    if endpointError.Some? {
      return Invalid(endpointError.value);
    }

    var uniqueEdges := set x | x in graph.edges;
    if |uniqueEdges| != |graph.edges| {
      return Invalid(DuplicateEdges);
    }

    if |roots| < 1 {
      return Invalid(NoRoot);
    }
    var adj := BuildAdjacency(nodes, edges);
    var visited;
    ghost var pushed;
    visited, pushed := Bfs(adj, roots, edges);
    VisitedIsReachableSet(edges, roots, visited);
    if |visited| != |nodes| {
      return Invalid(Islands);
    }

    var count := Kahn(nodes, edges, adj);
    if count != |nodes| {
      return Invalid(Cycle);
    }
    return Valid;
  }

  // ---------------------------------------------------------------------
  // Properties of the validation.

  /**
   * A repeated edge reference is never reported as "Duplicate edges
   * detected": the store returns each edge once, so the count check of
   * step 1 fails first.
   */
  lemma DuplicatesCaughtByCount(graph: GraphDoc, roots: seq<ObjectId>, nodeStore: seq<ObjectId>, edgeStore: seq<EdgeDoc>)
    requires DistinctIds(edgeStore)
    ensures ValidateSpec(graph, roots, nodeStore, edgeStore) != Invalid(DuplicateEdges)
    ensures !Distinct(graph.edges) ==>
      ValidateSpec(graph, roots, nodeStore, edgeStore) in {Invalid(NodesNotValid), Invalid(EdgesNotValid)}
  {
    if Distinct(graph.edges) {
      DistinctCard(graph.edges);
    } else {
      FetchedFewerOnRepeat(edgeStore, graph.edges);
    }
  }

  lemma FetchedAll(store: seq<ObjectId>, refs: seq<ObjectId>)
    requires Distinct(store) && Distinct(refs)
    requires forall x :: x in refs ==> x in store
    ensures |FetchNodes(store, refs)| == |refs|
    ensures Elems(FetchNodes(store, refs)) == Elems(refs)
  {
    var r := FetchNodes(store, refs);
    assert Elems(r) == Elems(refs);
    DistinctCard(r);
    DistinctCard(refs);
  }

  lemma FetchedAllEdges(store: seq<EdgeDoc>, refs: seq<ObjectId>)
    requires DistinctIds(store) && Distinct(refs)
    requires forall x :: x in refs ==> x in EdgeIds(store)
    ensures |FetchEdges(store, refs)| == |refs|
  {
    var r := FetchEdges(store, refs);
    var ids := EdgeIds(r);
    assert Distinct(ids);
    assert Elems(ids) == Elems(refs) by {
      forall x | x in Elems(ids) ensures x in Elems(refs) {
        var i :| 0 <= i < |ids| && ids[i] == x;
        assert r[i] in r;
      }
      forall x | x in Elems(refs) ensures x in Elems(ids) {
        var i :| 0 <= i < |store| && EdgeIds(store)[i] == x;
        assert store[i] in r;
        var j :| 0 <= j < |r| && r[j] == store[i];
        assert ids[j] == x;
      }
    }
    DistinctCard(ids);
    DistinctCard(refs);
  }

  /** The conditions a passing validation met, check by check. */
  lemma ValidChecks(graph: GraphDoc, roots: seq<ObjectId>, nodeStore: seq<ObjectId>, edgeStore: seq<EdgeDoc>)
    requires ValidateSpec(graph, roots, nodeStore, edgeStore) == Valid
    ensures |FetchNodes(nodeStore, graph.nodes)| == |graph.nodes|
    ensures |FetchEdges(edgeStore, graph.edges)| == |graph.edges|
    ensures EndpointError(FetchEdges(edgeStore, graph.edges), FetchNodes(nodeStore, graph.nodes)).None?
    ensures |Elems(graph.edges)| == |graph.edges|
    ensures |roots| >= 1
    ensures |ReachableSet(FetchEdges(edgeStore, graph.edges), roots)| == |FetchNodes(nodeStore, graph.nodes)|
    ensures !HasCycle(FetchEdges(edgeStore, graph.edges))
  {
  }

  /**
   * What a passing validation guarantees: the graph's references all
   * resolve, its edge list has no repeat, every edge joins two of its nodes,
   * at least one root is given, the edges form no cycle, and, when every root
   * is one of the graph's nodes, every node is reachable from a root.
   */
  lemma ValidSound(graph: GraphDoc, roots: seq<ObjectId>, nodeStore: seq<ObjectId>, edgeStore: seq<EdgeDoc>)
    requires Distinct(nodeStore) && DistinctIds(edgeStore)
    requires ValidateSpec(graph, roots, nodeStore, edgeStore) == Valid
    ensures forall x :: x in graph.nodes ==> x in nodeStore
    ensures Distinct(graph.edges)
    ensures forall x :: x in graph.edges ==> x in EdgeIds(edgeStore)
    ensures forall e :: e in FetchEdges(edgeStore, graph.edges) ==> e.src in graph.nodes && e.dst in graph.nodes
    ensures |roots| >= 1
    ensures !HasCycle(FetchEdges(edgeStore, graph.edges))
    ensures (forall r :: r in roots ==> r in graph.nodes) ==>
      forall v :: v in graph.nodes ==> Reachable(FetchEdges(edgeStore, graph.edges), roots, v)
  {
    ValidChecks(graph, roots, nodeStore, edgeStore);
    SoundFromChecks(graph, roots, nodeStore, edgeStore);
  }

  lemma SoundFromChecks(graph: GraphDoc, roots: seq<ObjectId>, nodeStore: seq<ObjectId>, edgeStore: seq<EdgeDoc>)
    requires Distinct(nodeStore) && DistinctIds(edgeStore)
    requires |FetchNodes(nodeStore, graph.nodes)| == |graph.nodes|
    requires |FetchEdges(edgeStore, graph.edges)| == |graph.edges|
    requires EndpointError(FetchEdges(edgeStore, graph.edges), FetchNodes(nodeStore, graph.nodes)).None?
    requires |ReachableSet(FetchEdges(edgeStore, graph.edges), roots)| == |FetchNodes(nodeStore, graph.nodes)|
    ensures forall x :: x in graph.nodes ==> x in nodeStore
    ensures Distinct(graph.edges)
    ensures forall x :: x in graph.edges ==> x in EdgeIds(edgeStore)
    ensures forall e :: e in FetchEdges(edgeStore, graph.edges) ==> e.src in graph.nodes && e.dst in graph.nodes
    ensures (forall r :: r in roots ==> r in graph.nodes) ==>
      forall v :: v in graph.nodes ==> Reachable(FetchEdges(edgeStore, graph.edges), roots, v)
  {
    if !Distinct(graph.edges) {
      FetchedFewerOnRepeat(edgeStore, graph.edges);
    }
    RefsAllStored(edgeStore, graph.edges);
    SoundNodes(graph.nodes, nodeStore, FetchEdges(edgeStore, graph.edges));
    if forall r :: r in roots ==> r in graph.nodes {
      SoundReach(graph.nodes, nodeStore, FetchEdges(edgeStore, graph.edges), roots);
    }
  }

  lemma SoundNodes(refs: seq<ObjectId>, nodeStore: seq<ObjectId>, edges: seq<EdgeDoc>)
    requires Distinct(nodeStore) && |FetchNodes(nodeStore, refs)| == |refs|
    requires EndpointError(edges, FetchNodes(nodeStore, refs)).None?
    ensures forall x :: x in refs ==> x in nodeStore
    ensures forall e :: e in edges ==> e.src in refs && e.dst in refs
  {
    var nodes := FetchNodes(nodeStore, refs);
    NodeRefsAllStored(nodeStore, refs);
    forall x | x in refs ensures x in nodeStore {
      assert x in Elems(refs);
    }
    forall e | e in edges ensures e.src in refs && e.dst in refs {
      var i :| 0 <= i < |edges| && edges[i] == e;
      assert e.src in Elems(nodes) && e.dst in Elems(nodes);
    }
  }

  lemma SoundReach(refs: seq<ObjectId>, nodeStore: seq<ObjectId>, edges: seq<EdgeDoc>, roots: seq<ObjectId>)
    requires Distinct(nodeStore) && |FetchNodes(nodeStore, refs)| == |refs|
    requires EndpointError(edges, FetchNodes(nodeStore, refs)).None?
    requires |ReachableSet(edges, roots)| == |FetchNodes(nodeStore, refs)|
    requires forall r :: r in roots ==> r in refs
    ensures forall v :: v in refs ==> Reachable(edges, roots, v)
  {
    var nodes := FetchNodes(nodeStore, refs);
    NodeRefsAllStored(nodeStore, refs);
    forall r | r in roots ensures r in nodes {
      assert r in Elems(refs);
    }
    AllReachable(nodes, edges, roots);
    forall v | v in refs ensures Reachable(edges, roots, v) {
      assert v in Elems(refs);
    }
  }

  /** When the fetched nodes are as many as the references, every reference resolved. */
  lemma NodeRefsAllStored(store: seq<ObjectId>, refs: seq<ObjectId>)
    requires Distinct(store) && |FetchNodes(store, refs)| == |refs|
    ensures Elems(FetchNodes(store, refs)) == Elems(refs)
    ensures Distinct(FetchNodes(store, refs))
  {
    var nodes := FetchNodes(store, refs);
    if !Distinct(refs) {
      FetchedNodesFewerOnRepeat(store, refs);
    }
    assert Elems(nodes) <= Elems(refs);
    DistinctCard(nodes);
    DistinctCard(refs);
    SameSize(Elems(nodes), Elems(refs));
  }

  /** As many reachable ids as nodes, with all of them nodes, means every node is reachable. */
  lemma AllReachable(nodes: seq<ObjectId>, edges: seq<EdgeDoc>, roots: seq<ObjectId>)
    requires Distinct(nodes) && |ReachableSet(edges, roots)| == |nodes|
    requires forall r :: r in roots ==> r in nodes
    requires forall i :: 0 <= i < |edges| ==> edges[i].dst in nodes
    ensures forall v :: v in nodes ==> Reachable(edges, roots, v)
  {
    var reach := ReachableSet(edges, roots);
    assert reach <= Elems(nodes) by {
      forall v | v in reach ensures v in Elems(nodes) {
        if v !in Elems(roots) {
          var i :| 0 <= i < |edges| && edges[i].dst == v;
        }
      }
    }
    DistinctCard(nodes);
    SameSize(reach, Elems(nodes));
    forall v | v in nodes ensures Reachable(edges, roots, v) {
      assert v in Elems(nodes);
    }
  }

  lemma RefsAllStored(store: seq<EdgeDoc>, refs: seq<ObjectId>)
    requires DistinctIds(store) && Distinct(refs)
    requires |FetchEdges(store, refs)| == |refs|
    ensures forall x :: x in refs ==> x in EdgeIds(store)
  {
    var r := FetchEdges(store, refs);
    var ids := EdgeIds(r);
    assert Distinct(ids);
    assert Elems(ids) <= Elems(refs) by {
      forall x | x in Elems(ids) ensures x in Elems(refs) {
        var i :| 0 <= i < |ids| && ids[i] == x;
        assert r[i] in r;
      }
    }
    DistinctCard(ids);
    DistinctCard(refs);
    SameSize(Elems(ids), Elems(refs));
    forall x | x in refs ensures x in EdgeIds(store) {
      assert x in Elems(ids);
      var i :| 0 <= i < |ids| && ids[i] == x;
      assert r[i] in store;
      var j :| 0 <= j < |store| && store[j] == r[i];
      assert EdgeIds(store)[j] == x;
    }
  }

  /**
   * The converse: a graph whose references resolve without repeats, whose
   * edges join its nodes, and whose edges form no cycle, with roots among its
   * nodes from which every node is reachable, passes.
   */
  lemma ValidComplete(graph: GraphDoc, roots: seq<ObjectId>, nodeStore: seq<ObjectId>, edgeStore: seq<EdgeDoc>)
    requires Distinct(nodeStore) && DistinctIds(edgeStore)
    requires Distinct(graph.nodes) && forall x :: x in graph.nodes ==> x in nodeStore
    requires Distinct(graph.edges) && forall x :: x in graph.edges ==> x in EdgeIds(edgeStore)
    requires forall e :: e in FetchEdges(edgeStore, graph.edges) ==> e.src in graph.nodes && e.dst in graph.nodes
    requires |roots| >= 1 && forall r :: r in roots ==> r in graph.nodes
    requires forall v :: v in graph.nodes ==> Reachable(FetchEdges(edgeStore, graph.edges), roots, v)
    requires !HasCycle(FetchEdges(edgeStore, graph.edges))
    ensures ValidateSpec(graph, roots, nodeStore, edgeStore) == Valid
  {
    var nodes := FetchNodes(nodeStore, graph.nodes);
    var edges := FetchEdges(edgeStore, graph.edges);
    FetchedAll(nodeStore, graph.nodes);
    FetchedAllEdges(edgeStore, graph.edges);
    forall i | 0 <= i < |edges| ensures edges[i].src in nodes && edges[i].dst in nodes {
      assert edges[i] in edges;
      assert edges[i].src in Elems(graph.nodes) && edges[i].dst in Elems(graph.nodes);
    }
    DistinctCard(graph.edges);
    ReachAllNodes(nodes, edges, roots);
    DistinctCard(nodes);
  }

  lemma ReachAllNodes(nodes: seq<ObjectId>, edges: seq<EdgeDoc>, roots: seq<ObjectId>)
    requires forall r :: r in roots ==> r in nodes
    requires forall i :: 0 <= i < |edges| ==> edges[i].dst in nodes
    requires forall v :: v in nodes ==> Reachable(edges, roots, v)
    ensures ReachableSet(edges, roots) == Elems(nodes)
  {
    var reach := ReachableSet(edges, roots);
    forall v | v in Elems(nodes) ensures v in reach {
      ReachableWithin(edges, roots, v);
    }
    forall v | v in reach ensures v in Elems(nodes) {
      if v !in Elems(roots) {
        var i :| 0 <= i < |edges| && edges[i].dst == v;
      }
    }
  }

  /**
   * The reachability check compares counts only: a root that is not one of
   * the graph's nodes still counts as visited, so it can stand in for a node
   * that no root reaches. Here node "b" is unreachable, yet the graph passes.
   */
  lemma UnknownRootHidesIsland()
    ensures ValidateSpec(GraphDoc(["a", "b"], []), ["x", "a"], ["a", "b"], []) == Valid
    ensures !Reachable([], ["x", "a"], "b")
  {
    var edges: seq<EdgeDoc> := [];
    RootReach(edges, ["x", "a"], "x");
    RootReach(edges, ["x", "a"], "a");
    assert Elems(["x", "a"]) == {"x", "a"};
    assert ReachableSet(edges, ["x", "a"]) == {"x", "a"};
    assert FetchNodes(["a", "b"], ["a", "b"]) == ["a", "b"];
    forall p | IsPath(edges, p) ensures |p| == 1 {
      PathNeedsEdges(edges, p);
    }
  }

  lemma PathNeedsEdges(edges: seq<EdgeDoc>, p: seq<ObjectId>)
    requires IsPath(edges, p)
    ensures |p| >= 2 ==> |edges| >= 1
  {
    if |p| >= 2 {
      assert IsEdge(edges, p[0], p[1]);
    }
  }
}
