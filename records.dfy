/**
 * The records the run engine and the result assembler share: values held in
 * `data_in`/`data_out`, catalog nodes, per-run working nodes, run
 * configurations and persisted run results (the files under backend/schemas).
 */
module RunRecords {
  import opened OrderedMap

  datatype Option<T> = None | Some(value: T)

  /** A catalog `_id` (an ObjectId, compared by its string form). */
  type ObjectId = string
  /** A node's user-facing `node_id`. */
  type NodeId = string

  /** A value stored in a data mapping; only `Num` is a JavaScript `number`. */
  datatype Value = Num(n: int) | Str(s: string) | Bool(b: bool) | Null | Composite

  /** `data_in` / `data_out`: string-keyed, insertion-ordered. */
  type DataMap = OMap<Value>

  /** `status` of a node result (result.js line 11). */
  datatype Status = Unprocessed | Processed | Unknown

  /** `is_enabled`: a nullable boolean (result.js line 13). */
  datatype Enabled = True | False | Unset

  /** JavaScript truthiness of `is_enabled`: only `true` is truthy. */
  predicate Truthy(e: Enabled) { e == True }

  /** JavaScript `is_enabled == false`: `null == false` is false. */
  predicate LooseFalse(e: Enabled) { e == False }

  /** A node as stored in the catalog (node.js). */
  datatype CatalogNode = CatalogNode(
    nodeId: NodeId,
    dataIn: DataMap,
    dataOut: DataMap,
    pathsIn: seq<ObjectId>,
    pathsOut: seq<ObjectId>)

  /** An edge as stored in the catalog (edge.js); the key-rename map is not read by the engine. */
  datatype CatalogEdge = CatalogEdge(src: ObjectId, dst: ObjectId)

  /** A graph with its node and edge references populated (graph.js). */
  datatype PopulatedGraph = PopulatedGraph(nodes: seq<CatalogNode>, edges: seq<CatalogEdge>)

  /** A run's private working copy of one node (server.js lines 232-242). */
  datatype WorkingNode = WorkingNode(
    nodeId: NodeId,
    dataIn: DataMap,
    dataOut: DataMap,
    pathsIn: seq<ObjectId>,
    pathsOut: seq<ObjectId>,
    status: Status,
    isEnabled: Enabled,
    level: Option<int>)

  /** A run configuration (graphRunConfig.js): root inputs and overwrites are node_id -> data_in maps. */
  datatype RunConfig = RunConfig(
    rootInputs: OMap<DataMap>,
    dataOverwrites: OMap<DataMap>,
    enableList: seq<NodeId>,
    disableList: seq<NodeId>)

  /** One persisted node result (result.js lines 4-14). */
  datatype NodeResult = NodeResult(
    nodeId: NodeId,
    dataIn: DataMap,
    dataOut: DataMap,
    pathsIn: seq<ObjectId>,
    pathsOut: seq<ObjectId>,
    status: Status,
    level: Option<int>,
    isEnabled: Enabled)

  /** An island bucket key: a disabled node's counter value, or the shared `"Enabled"` key. */
  datatype IslandKey = Disabled(index: nat) | EnabledBucket

  /** A persisted run result (result.js lines 16-38). */
  datatype RunResult = RunResult(
    runId: string,
    graphId: string,
    nodeResults: OMap<NodeResult>,
    graphConfig: RunConfig,
    topologicalOrder: seq<NodeId>,
    islands: map<IslandKey, seq<NodeId>>)
}
