# DAG-FLowNet backend core in Dafny

DAG-FLowNet stores directed graphs of computation nodes and executes them in
dependency order. Each node's output is propagated into its successors'
inputs. A caller can enable or disable nodes and can override their inputs for
one run. This project models the backend's core in Dafny and proves
properties of that model:

- **Structural validator** (`validateGraph`). It runs these checks in a fixed
  order: every reference is fetched, every edge endpoint is a fetched node,
  edge ids are repeat-free, at least one root is given, a multi-source
  breadth-first search reaches as many ids as there are nodes, and Kahn's
  algorithm finds no cycle. The search and the sort are imperative methods
  over a `map` adjacency list, a visited `set`, a queue `seq` and an in-degree
  `map`. The proofs show:
  - the search visits exactly the ids reachable from the roots;
  - Kahn's counter equals the node count exactly when the edge relation has
    no cycle;
  - the whole validator agrees with a check-by-check reference definition;
  - that definition is sound and complete with respect to reachability and
    acyclicity.
- **Run engine** (`POST /run-graph/:id`). It covers the run configuration
  checks, the per-run node table, the in-degrees, and the seeding of the root
  queue. It also covers the main loop: dequeue the least id, apply the
  overwrite, call the processor, then propagate into successors. It ends with
  the clean-up that disables unprocessed nodes and strips the reserved
  metadata keys. Each phase is a method with a loop, proved against a
  function or predicate of its inputs. The loop is one `Step` function;
  `ProcessNext` is proved equal to it. Lemmas about `Step` show:
  - it preserves an invariant (processed ids are distinct and carry status
    "processed", queued ids are unprocessed, and so on);
  - it decreases a measure, so the loop terminates;
  - what a failed and a successful pass do to every node, in-degree and queue
    entry.
- **Result assembler** (`saveNodeResultToDb`). It takes a snapshot of each
  node, records the topological order and partitions nodes into islands. A
  disabled node gets a singleton bucket of its own, keyed 0, 1, 2, …; every
  other node goes into the single `"Enabled"` bucket.
- **Read views.** Leaf outputs are the nodes at the largest level. The
  level-wise view groups the nodes by level, in ascending order.
- **Placeholder processor** (`processFunction`). It returns `{sum: 2 × the
  last number in data_in}`.

## How the systems are represented

- **JavaScript `Map`s** are sequences of key/value pairs in insertion order
  (module `OrderedMap`). `map.set` keeps a key's position and `new Map(pairs)`
  keeps the last value for a key.
- **Catalog look-ups.** `Node.findOne({node_id})` becomes a `Catalog` map.
  `Node.findById` becomes a `NodeIndex` map from object id to node_id.
- **The graph document** arrives already populated.
- **The processor** is a parameter of type `DataMap -> Option<DataMap>`;
  `None` stands for a throw.
- **The run id** is a parameter.

## Where the code and the design disagree

Each point below follows the code. Where a member shows the point, it is
named in brackets.

- **Duplicate edge ids** are never reported as "Duplicate edges detected". A
  repeated reference is returned once by the `$in` query, so the count check
  of step 1 reports "Some edges are not valid" first
  (`ValidateGraph.DuplicatesCaughtByCount`).
- **The reachability check compares sizes only.** A root id that is not a
  node of the graph still counts as visited, so it can hide an unreachable
  node (`ValidateGraph.UnknownRootHidesIsland`).
- **Nodes whose `is_enabled` is `null`** go into the `"Enabled"` island
  together with the enabled ones, because `null == false` is false in
  JavaScript.
- **An edge whose destination does not resolve** makes the run fail with 500.
  The log line dereferences the look-up before the null check
  (`RunGraph.RunGraph`, `Crashed(UnresolvedEdgeTarget)`).
- **A root input naming a node outside the graph** makes the run fail with
  500. The level is assigned before the guard
  (`RunGraph.RunGraph`, `Crashed(RootNotInTable)`).
- **`paths_out` entries are resolved with `Node.findById`.** An entry that
  resolves to nothing, or to a node outside the table, is skipped and
  decrements nothing.
- **The leaf-outputs maximum starts at 0.** When no node has a level of 0 or
  more, the view is empty (`ResultViews.LeafOutputs`).

## Model

| member | source | states |
|---|---|---|
| ValidateGraph.FetchNodes | backend/helper_functions/validateGraph.js:10 | A stored node is fetched iff the graph references it; a store without repeats gives a fetch without repeats. |
| ValidateGraph.FetchEdges | backend/helper_functions/validateGraph.js:11 | A stored edge is fetched iff its id is referenced; ids stay unique. |
| ValidateGraph.FetchedFewerOnRepeat | backend/helper_functions/validateGraph.js:11-21 | A repeated edge reference makes the fetched edges fewer than the references. |
| ValidateGraph.EndpointError | backend/helper_functions/validateGraph.js:26-35 | The error reported is for the first edge with a missing source, or else a missing destination; there is none iff every endpoint is a fetched node. |
| ValidateGraph.CheckEndpoints | backend/helper_functions/validateGraph.js:26-35 | The endpoint loop returns exactly `EndpointError`. |
| ValidateGraph.BuildAdjacency | backend/helper_functions/validateGraph.js:56-65 | The adjacency map has one key per node, and each key holds the destinations of its outgoing edges, in edge order. |
| ValidateGraph.FreshIn | backend/helper_functions/validateGraph.js:74-81 | The ids a visit pushes are repeat-free and are exactly the neighbours not visited before; none are pushed when every neighbour was visited. |
| ValidateGraph.VisitAll | backend/helper_functions/validateGraph.js:74-81 | The neighbours become visited, and the queue becomes the old queue followed by exactly `FreshIn`: the neighbours not visited before, in order, each once. |
| ValidateGraph.QueueStep | backend/helper_functions/validateGraph.js:72-81 | After a round the queue holds the rest of the old queue and the newly visited neighbours; it is shorter when nothing new was visited. |
| ValidateGraph.PushedStep | backend/helper_functions/validateGraph.js:74-81 | After a round the ids pushed after the roots are still repeat-free and are exactly the visited ids that are not roots. |
| ValidateGraph.SuffixStep | backend/helper_functions/validateGraph.js:72-80 | `shift` followed by `push` keeps the queue a suffix of everything enqueued so far. |
| ValidateGraph.TracedStep | backend/helper_functions/validateGraph.js:72-81 | A round keeps the pushed-ids record: each id at most once, and the queue a suffix of the roots followed by the pushed ids. |
| ValidateGraph.SearchStep | backend/helper_functions/validateGraph.js:72-81 | A round keeps the search invariant and either grows the visited set or shortens the queue. |
| ValidateGraph.Bfs | backend/helper_functions/validateGraph.js:69-82 | The search terminates, and an id is visited iff it is a root or reachable from a root along fetched edges. The ids pushed after the roots are pushed at most once each, and they are exactly the visited ids that are not roots. |
| ValidateGraph.CountInDegrees | backend/helper_functions/validateGraph.js:96-100 | An id has an entry iff some edge enters it; the entry is the number of such edges. |
| ValidateGraph.Sources | backend/helper_functions/validateGraph.js:103-108 | The initial queue holds, once each, exactly the nodes without an in-degree entry. |
| ValidateGraph.Release | backend/helper_functions/validateGraph.js:115-123 | Each neighbour's count drops by the number of times it occurs; exactly the neighbours that reach 0 are appended, once each. |
| ValidateGraph.KahnVerdict | backend/helper_functions/validateGraph.js:111-131 | When the queue is empty, the processed count equals the node count iff the edges have no cycle. |
| ValidateGraph.ReleasedIsNew | backend/helper_functions/validateGraph.js:115-123 | A neighbour whose count drops to 0 was neither processed nor queued before. |
| ValidateGraph.Kahn | backend/helper_functions/validateGraph.js:96-131 | The count never exceeds the node count, and equals it iff the edges have no cycle. |
| ValidateGraph.Validate | backend/helper_functions/validateGraph.js:5-135 | The validator returns the outcome of the reference definition: the first failing check, in source order, or success. |
| ValidateGraph.ValidSound | backend/helper_functions/validateGraph.js:5-135 | A graph that passes has all references stored, repeat-free edge ids, endpoints among its nodes, a root, and no cycle; when its roots are nodes, every node is reachable from them. |
| ValidateGraph.ValidComplete | backend/helper_functions/validateGraph.js:5-135 | A graph with stored, repeat-free references and endpoints in the graph, with at least one root (all roots graph nodes), every node reachable and no cycle passes. |
| ValidateGraph.DuplicatesCaughtByCount | backend/helper_functions/validateGraph.js:13-21 | "Duplicate edges detected" is never the outcome; a repeated edge reference ends in the node or edge count error. |
| ValidateGraph.UnknownRootHidesIsland | backend/helper_functions/validateGraph.js:70-90 | A graph with an unreachable node passes when a root outside the graph makes up the visited count. |
| ProcessFunction.LastNumber | backend/helper_functions/processFunction.js:6-9 | The result is absent iff no value is a number; otherwise it is a number of `data_in` with no number after it. |
| ProcessFunction.Process | backend/helper_functions/processFunction.js:1-15 | The output has the single key `"sum"`, holding twice the last number, or 0. |
| ProcessFunction.LastNumericWins | backend/helper_functions/processFunction.js:6-9 | The sum is twice the last numeric value, whatever the numbers before it. |
| ProcessFunction.NoNumberSumsToZero | backend/helper_functions/processFunction.js:5-12 | Without numeric values the sum is 0. |
| ProcessFunction.KeysDoNotMatter | backend/helper_functions/processFunction.js:6-8 | Inputs with the same values in the same order give the same sum, whatever their keys. |
| ProcessFunction.NonNumericDoNotMatter | backend/helper_functions/processFunction.js:6-8 | Removing a non-numeric entry leaves the sum unchanged. |
| PriorityQueue.LessIrreflexive | backend/server.js:223 | No id is before itself under the queue's comparator. |
| PriorityQueue.LessTransitive | backend/server.js:223 | The comparator is transitive. |
| PriorityQueue.LessTotal | backend/server.js:223 | Any two distinct ids are ordered one way or the other. |
| PriorityQueue.LessAsymmetric | backend/server.js:223 | No two ids are each before the other. |
| PriorityQueue.Enqueue | backend/server.js:294 | `queue.queue(x)` keeps the queue ordered and adds exactly one `x`. |
| PriorityQueue.HeadIsLeast | backend/server.js:306 | The head of an ordered queue is least. |
| PriorityQueue.Dequeue | backend/server.js:306 | `queue.dequeue()` returns a least id and leaves the rest, ordered. |
| PriorityQueue.SortedHeads | backend/server.js:223 | Two ordered queues with the same ids start with the same id. |
| PriorityQueue.SortedUnique | backend/server.js:223 | Two ordered queues holding the same ids, with the same multiplicities, are equal: the queue's order is fixed by its contents. |
| OrderedMap.SetAllToMap | backend/server.js:361-363 | Writing every pair of `b` into `a` gives `a`'s entries overridden by `b`'s. |
| OrderedMap.SetAllHolds | backend/server.js:361-363 | After writing the unique-key pairs `b`, every key of `b` holds its value from `b`. |
| OrderedMap.SetAllFixed | backend/server.js:361-363 | Writing pairs that the map already holds leaves the map unchanged, keys and order included. |
| OrderedMap.SetAllTwice | backend/server.js:361-363 | Writing the same unique-key pairs a second time gives the same ordered map as writing them once. |
| OrderedMap.FromEntries | backend/server.js:326 | `new Map(pairs)` has unique keys, and a pair list with unique keys is copied unchanged. |
| OrderedMap.WithoutToMap | backend/server.js:413-417 | Deleting a key set leaves exactly the other entries. |
| RunConfigCheck.CheckConfig | backend/server.js:179-217 | No error iff the lists are not both given, every root is in the catalog with its `data_in` keys supplied, and every overwrite names a catalog node with a non-empty `data_in`; otherwise the error is that of the first failing check. |
| RunConfigCheck.RootsBeforeOverwrites | backend/server.js:186-217 | With a bad root, the error is a root error, whatever the overwrites. |
| RunConfigCheck.RejectionIsUnique | backend/server.js:179-217 | One configuration has only one first error. |
| RunSetup.Dedupe | backend/server.js:231-232 | The table order has no repeats and holds exactly the graph's node_ids. |
| RunSetup.LastOccurrence | backend/server.js:231-257 | Every node_id among the graph's nodes has a last node carrying it, which is the entry the table keeps. |
| RunSetup.BuildTable | backend/server.js:231-257 | One entry per distinct node_id, in first-occurrence order, copied from the last graph node with that id; all unprocessed; `is_enabled` is list membership, non-membership of the disable list, or null. |
| RunSetup.ResolvingZero | backend/server.js:264-273 | An id is counted zero times iff no entry resolves to it. |
| RunSetup.CountInDegrees | backend/server.js:259-274 | Fails iff some edge destination does not resolve; otherwise each table node and each resolved destination maps to the number of edges resolving to it. |
| RunSetup.NoIncomingEdge | backend/server.js:260-274 | A table node that no edge enters has in-degree 0. |
| RunSetup.EnqueueFresh | backend/server.js:294 | Queueing an id not in the queue keeps every id at most once. |
| RunSetup.SeedRoots | backend/server.js:276-296 | Fails iff a root is not in the table. Otherwise every root gets level 0, only roots with in-degree 0 get their input, exactly those are queued (once, in order), and no other node changes. |
| RunLoop.Propagate | backend/server.js:346-377 | One `paths_out` entry leaves the table keys, in-degree keys and processed list as they were, and the queue ordered. |
| RunLoop.PropagateAll | backend/server.js:346-377 | All entries, in order, keep those same facts. |
| RunLoop.PropagateEach | backend/server.js:346-377 | The neighbour loop computes `PropagateAll`. |
| RunLoop.Step | backend/server.js:305-382 | One pass keeps the table keys, the in-degree keys and the queue order. |
| RunLoop.ProcessNext | backend/server.js:305-382 | The loop body computes `Step`. |
| RunLoop.DequeueOnce | backend/server.js:306 | The dequeued id leaves a queue in which it no longer occurs. |
| RunLoop.PropagateKeeps | backend/server.js:346-377 | One propagation keeps the loop invariant while the current node is between its dequeue and its completion. |
| RunLoop.PropagateAllKeeps | backend/server.js:346-377 | All propagations keep it. |
| RunLoop.FinishKeeps | backend/server.js:379-380 | Marking the current node processed restores the loop invariant. |
| RunLoop.StepKeeps | backend/server.js:305-382 | A pass preserves the invariant: queued ids once each and unprocessed, processed ids distinct and in the table, status "processed" exactly for them, no positive in-degree among queued or processed nodes. |
| RunLoop.PropagateMeasure | backend/server.js:366-373 | A propagation queues an id only as it leaves the positive in-degree set. |
| RunLoop.StepDecreases | backend/server.js:305-382 | Every pass decreases queue length plus the number of nodes with positive in-degree, so the loop ends. |
| RunLoop.Run | backend/server.js:305-382 | The loop ends with an empty queue, the invariant, and the table keys unchanged. |
| RunLoop.Drain | backend/server.js:305-382 | The `while` loop computes `Run`. |
| RunLoop.PropagateInDegree | backend/server.js:346-377 | Each table node loses one in-degree per entry resolving to it; other in-degrees are untouched. |
| RunLoop.PropagateOneInDegree | backend/server.js:348-367 | One entry decrements only the table node it resolves to. |
| RunLoop.PropagateFields | backend/server.js:346-377 | Propagation changes a node's `data_in` and level only. |
| RunLoop.PropagateTouches | backend/server.js:348-364 | One entry changes at most the node it resolves to, whose `data_in` receives every `data_out` pair of the current node. |
| RunLoop.MergeStep | backend/server.js:348-363 | One more entry writes the current node's `data_out` into the node it resolves to; a node that was already reached is left as writing once made it. |
| RunLoop.PropagateKeepsOut | backend/server.js:346-377 | Propagation leaves the current node's `data_out` as it was. |
| RunLoop.PropagateDataIn | backend/server.js:348-363 | A node some entry reaches, the current node included, ends with the current node's `data_out` pairs written into its old `data_in`, in order. An existing key keeps its place and a new key is appended, and reaching a node several times gives the same map as once. The others keep their `data_in`. |
| RunLoop.PropagateQueued | backend/server.js:367-372 | One entry queues its node iff the in-degree becomes 0 while it is unprocessed and enabled, and that node's level becomes the current level plus one. |
| RunLoop.PropagateQueue | backend/server.js:366-373 | After all entries, exactly the released successors (in-degree from positive to 0, unprocessed, enabled) are added, each with the next level; no other level changes. |
| RunLoop.StepFailure | backend/server.js:333-343 | A processor failure skips the node: not processed, status and `data_out` kept, no in-degree or other node changed, only the overwrite applied. |
| RunLoop.OverwriteWholesale | backend/server.js:316-329 | With an overwrite, the node's previous `data_in` has no effect on the pass. |
| RunLoop.StepIsStarted | backend/server.js:330-382 | A successful pass is the propagation from the updated node followed by its completion. |
| RunLoop.StepSuccess | backend/server.js:333-380 | On success the node's `data_out` is the processor's output, its status is "processed", and it is appended to the processed list. |
| RunLoop.StepSuccessors | backend/server.js:316-377 | On success the in-degrees drop by the number of entries resolving to each node. Each other reached node's `data_in` becomes exactly its old ordered map with the new `data_out` pairs written in. The current node's `data_in` is its overwrite result, with those pairs written in when one of its own entries resolves to it. |
| RunLoop.StepQueues | backend/server.js:366-373 | On success the queue is the rest plus exactly the released successors, each at the next level. |
| RunFinish.StripReserved | backend/server.js:413-417 | The cleaned `data_in` is the original without the eight reserved keys, in order. |
| RunFinish.DisableUnprocessed | backend/server.js:387-394 | Every node not processed has `is_enabled` false; nothing else changes. |
| RunFinish.StripAll | backend/server.js:409-428 | Each node's `data_in` loses the reserved keys; nothing else changes. |
| RunFinish.Finalize | backend/server.js:386-428 | Each table node becomes its finished form; keys and order are kept. |
| RunFinish.FinishedStripsReserved | backend/server.js:386-417 | A finished node has no reserved key in `data_in` and the same other entries; `data_out` and status are unchanged; an unprocessed node is disabled. |
| SaveNodeResult.IslandsUpToOff | backend/helper_functions/saveNodeResult.js:22-29 | A disabled id gets a singleton bucket under the next disabled index, and the islands match the ids seen so far. |
| SaveNodeResult.IslandsUpToOn | backend/helper_functions/saveNodeResult.js:30-35 | Any other id is appended to the `"Enabled"` bucket, and the islands match the ids seen so far. |
| SaveNodeResult.IslandsUpToAll | backend/helper_functions/saveNodeResult.js:9-36 | After every id, the islands are those of the whole table. |
| SaveNodeResult.Collect | backend/helper_functions/saveNodeResult.js:9-36 | The loop stores the snapshot of every table node under its id, in table order, and the islands: disabled id j at key j, and the `"Enabled"` bucket holding the others iff there are any. |
| SaveNodeResult.Select | backend/helper_functions/saveNodeResult.js:22-35 | An id is selected iff it is in the table and its loose `is_enabled == false` test matches. |
| SaveNodeResult.SaveNodeResult | backend/helper_functions/saveNodeResult.js:2-45 | One snapshot per table key in table order, the processed list as topological order, and islands: disabled id j at key j, and the `"Enabled"` bucket holding the others iff there are any. |
| SaveNodeResult.SelectPartition | backend/helper_functions/saveNodeResult.js:21-36 | Disabled and other ids split the table: lengths add up, no repeats, each id on exactly one side. |
| SaveNodeResult.DisabledOnce | backend/helper_functions/saveNodeResult.js:22-29 | With repeat-free disabled ids, no id lies in two disabled buckets. |
| SaveNodeResult.IslandsPartition | backend/helper_functions/saveNodeResult.js:21-36 | Every table id lies in exactly one island. A disabled id has a singleton bucket of its own, no other disabled bucket holds it, and it is not in the `"Enabled"` bucket. Any other id is in the `"Enabled"` bucket and in no disabled bucket. |
| ResultViews.MaxLevel | backend/server.js:477-483 | The maximum is at least 0, bounds every level, and is 0 or a level that occurs. |
| ResultViews.AtLevel | backend/server.js:486-493 | A result is kept iff its level equals the given level. |
| ResultViews.ComputeMaxLevel | backend/server.js:477-483 | The maximum loop returns `MaxLevel`. |
| ResultViews.LeafOutputs | backend/server.js:477-494 | The view lists, in key order, the id and `data_out` of the nodes at `MaxLevel`. |
| ResultViews.LeavesAreDeepest | backend/server.js:477-494 | Each listed leaf is a node at the maximum level, and each node at the maximum level is listed. |
| ResultViews.LeavesNonEmpty | backend/server.js:477-494 | With at least one node a level of 0 or more, the view is not empty. |
| ResultViews.InsertSorted | backend/server.js:522-523 | Inserting a level keeps the levels strictly ascending and adds exactly that level. |
| ResultViews.LevelWise | backend/server.js:507-529 | Groups in strictly ascending level; a group exists iff some node has that level; each group holds exactly the nodes at that level, in key order. |
| ResultViews.LevelViewPartition | backend/server.js:507-529 | A node without a level is in no group; a node with a level is in exactly one group. |
| RunGraph.StatusCode | backend/server.js:439-444 | The answer is 200 exactly when the run completed. |
| RunGraph.SeededInv | backend/server.js:276-305 | The seeded table and queue satisfy the main loop's invariant. |
| RunGraph.TableUnique | backend/server.js:231-257 | The graph's nodes and the lists allow only one node table. |
| RunGraph.DegreesUnique | backend/server.js:259-274 | The table and the edges allow only one in-degree map. |
| RunGraph.SeededUnique | backend/server.js:276-296 | The table, the in-degrees and the root inputs allow only one seeded table and queue. |
| RunGraph.StartUnique | backend/server.js:220-296 | The graph, the configuration and the catalog index allow only one start state for the loop. |
| RunGraph.CompletedResult | backend/server.js:386-436 | The finished table and assembled result have every stored property (see `RunGraph.RunGraph`). |
| RunGraph.CompletedRun | backend/server.js:386-436 | The assembled result is what the drained state reached: each node's finished snapshot under its id in table order, the processed list, and the islands of the finished table. |
| RunGraph.RunGraph | backend/server.js:170-445 | 400 with the first error iff the configuration is rejected; 404 iff it is accepted and the graph is missing. 500 iff an edge destination does not resolve, or else a root input is outside the graph. On completion the result covers the distinct node_ids in order, with a repeat-free topological order, "processed" exactly for it, the rest disabled, no reserved key in any `data_in`, and the island partition. Beyond that, the result is exactly what the loop reaches from the start state (`StartOf`, unique by `RunGraph.StartUnique`): each node's finished snapshot, the processed list as topological order, and the islands of the finished table. |

## Left out

- HTTP routing, the CRUD handlers and the `/validate-graph`, results, topological-order and islands routes are transport with no logic of their own.
- The database is not modelled. Look-ups are given sequences and maps; the stores hold each `_id` once, as MongoDB guarantees, which is why `ValidateGraph.Validate` requires it. `populate` is taken as done, and `result.save()` and its rethrow are left out.
- The views take the stored node results directly rather than reading them by run id, so their 404 and 500 answers are not modelled.
- `async`/`await` is each modelled as a synchronous look-up, because nothing runs concurrently.
- `Date.now()` timestamps are not modelled: they are clock reads with no contract. `SaveNodeResult.Snapshot` has no timestamp field.
- `generateRandomRunId` is random, so the run id is a parameter.
- Logging is left out.
- JavaScript numbers are floating point; values are modelled as integers (`Num(int)`), so `ProcessFunction.Process` does not model float doubling or rounding.
- `localeCompare` is modelled as lexicographic order on code units, which is a total order. Locale-specific collation is not modelled.
- `js-priority-queue` is modelled as an ordered sequence (`PriorityQueue`). Its heap layout is not modelled; the order of equal ids cannot be observed.
- Plain-object key order is taken as insertion order (`for … in` over `nodesMap`, `Object.entries`, the islands object). JavaScript lists integer-like keys first, so node ids that look like array indices may be iterated in a different order.
- `Object.keys` on a Mongoose Map is read as the map's keys in the configuration checks.
- `Object.fromEntries` on `data_in` is taken as the identity on the pair list.
- The edge schema's key-rename map is not modelled: the engine never reads it.
- The processor is kept abstract as a parameter, with `None` for a throw. `ProcessFunction.Process` models the placeholder processor separately.
- RunGraph.RunGraph: requires the root inputs to have unique keys, since they come from a JavaScript `Map`.
- ResultViews.LevelWise: `Object.keys(levels).sort((a, b) => a - b)` is modelled as sorted insertion of integer levels into a repeat-free list. String keys and `parseInt` are not modelled.
- ResultViews.MaxLevel: levels are integers or null. A negative stored level is not excluded, but the engine only writes levels of 0 or more.
