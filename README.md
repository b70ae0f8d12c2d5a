# Pipeline DAG validator — a Dafny model

This project models the backend of a pipeline builder. The backend receives a pipeline as a
list of node descriptors and a list of directed `source -> target` edges. It decides whether
the pipeline is a directed acyclic graph (DAG), then records the request in an in-memory
analytics store.

The validator `is_dag_with_checks` runs its checks in a fixed order:

1. the node list is not empty;
2. the collected ids are unique;
3. an empty edge list is accepted only when there is exactly one node descriptor;
4. each edge, in input order, must name known ids and must not repeat an earlier ordered pair;
5. a three-colour depth-first search from every id looks for a cycle.

The request handler `parse_pipeline` then updates three counters and a history of the last
twenty submissions.

Files:

- `collections.dfy` (module `Collections`): `Option`, duplicate-freedom (`Distinct`), the set of
  a sequence (`Elems`), and the fact that Python's test `len(xs) != len(set(xs))` detects a
  repeated value and nothing else.
- `graph.dfy` (module `Graph`): edges, walks, reachability and `HasCycle`. The class
  `CycleSearch` holds the depth-first search's adjacency mapping and its `visited` and `stack`
  sets; its recursive method `Visit` is the nested `dfs`.
- `validator.dfy` (module `Validator`): the `Outcome` datatype (one variant per returned
  dictionary), the pure specification `Expected`, and the imperative implementation. The
  implementation is `CheckEdges` (the edge loop, which builds `adj` and `seen_edges`),
  `FindCycle` (the `for n in adj` loop) and `Validate` (the whole function). `Validate` is proved
  to return `Expected(nodes, edges)`.
- `properties.dfy` (module `ValidatorProperties`): what `Expected` promises, stated against
  independent definitions, plus the worked scenarios.
- `analytics.dfy` (module `Analytics`): the `Store` class (counters, bounded history, and a
  ghost log of every submission) with `Record` and `ParsePipeline`.

A node descriptor is `Some(id)` when it has an `"id"` key and `None` otherwise. Only the
descriptors that have an id are collected. However, the zero-edge test counts all descriptors
(`len(nodes)`), not just the ids. The model keeps that difference.

The depth-first search is proved sound and complete.

- Soundness: every node on `stack` reaches the node being visited. So meeting a node that is
  already on the stack means a cycle.
- Completeness: the finished nodes (visited and no longer on the stack) form a set that is
  closed under edges and lies on no cycle. When the outer loop ends, every id is finished, so
  the graph has no cycle.
- Termination: the measure is the set of ids not yet visited. It shrinks on every fresh visit.

The history keeps insertion order, newest last (`history[-20:]`, backend/main.py:119). The
zero-edge test counts descriptors (`len(nodes) == 1`, backend/main.py:58), not collected ids.
The two differ when a descriptor lacks an id, and the lemma `ZeroEdgeQuirks` shows both cases.

## Model

| member | source | states |
|---|---|---|
| `Validator.Validate` | backend/main.py:49-95 | returns exactly `Expected(nodes, edges)`. That is the first failing check in the source's order; otherwise `Cycle` or `ValidDag` according to whether the graph has a cycle |
| `Validator.Ids` | backend/main.py:53 | the collected ids are exactly the values of descriptors that carry an id, and there are no more of them than descriptors |
| `Collections.Elems` | backend/main.py:54 | `set(node_ids)` holds exactly the values of the list |
| `Collections.DistinctIffCard` | backend/main.py:54-55 | `len(xs) == len(set(xs))` holds exactly when no value repeats; the set is never larger than the list |
| `Validator.IdsDistinctIff` | backend/main.py:53-55 | the collected ids are duplicate-free exactly when no two descriptors carry the same id |
| `Validator.Targets` | backend/main.py:62-74 | the adjacency list of `u` holds exactly the targets of the edges leaving `u` |
| `Validator.CheckEdges` | backend/main.py:62-74 | the edge loop reports what the scan specification reports. When it passes, `adj` has every id as a key and, under each id, the targets of its edges in input order |
| `Validator.EdgeScanNone` | backend/main.py:65-74 | the edge loop reports nothing exactly when every edge names known ids and no ordered pair appears twice |
| `Validator.EdgeScanReportsFirst` | backend/main.py:65-74 | the edge loop reports the error of the first bad edge in input order |
| `Validator.FindCycle` | backend/main.py:76-93 | the depth-first search from every id finds a cycle exactly when the graph has one |
| `Graph.CycleSearch.constructor` | backend/main.py:76 | the search starts with empty `visited` and `stack` over the given adjacency mapping |
| `Graph.CycleSearch.Visit` | backend/main.py:78-89 | `stack ⊆ visited ⊆ ids` is kept and `visited` only grows. A true result means a cycle. A false result leaves `stack` as it was, with the node and all finished nodes closed under edges and cycle-free |
| `Graph.FinishKeepsAcyclic` | backend/main.py:85-89 | a node whose successors are all finished, and which is itself not finished, lies on no cycle once finished |
| `Graph.CycleThroughSource` | backend/main.py:91-93 | a cycle passes through some edge's source, so searching from every id covers every cycle |
| `ValidatorProperties.EmptyNodesRejected` | backend/main.py:50-51 | an empty node list is rejected whatever the edges are |
| `ValidatorProperties.DuplicateIdsIff` | backend/main.py:53-55 | the duplicate-id failure is reported exactly when two descriptors share an id, before any edge check |
| `ValidatorProperties.ZeroEdgesValidIffSingleNode` | backend/main.py:57-60 | with no edges, `isDAG` is true exactly when the raw node list has length 1; with a non-empty list and unique ids the outcome is "Valid single-node DAG." for one descriptor and "Edges list is empty or invalid." otherwise |
| `ValidatorProperties.FirstBadEdgeReported` | backend/main.py:65-71 | with unique ids, the outcome is the error of the first bad edge in input order. An unknown end gives `InvalidEdge`; otherwise a repeat gives `DuplicateEdge` |
| `ValidatorProperties.EdgeErrorsAreGenuine` | backend/main.py:65-71 | a reported invalid edge is an input edge with an end that is not a node id. A reported duplicate is the exact ordered pair at two positions |
| `ValidatorProperties.ReversePairIsNotDuplicate` | backend/main.py:69-71 | `a -> b` followed by `b -> a` passes the edge checks |
| `ValidatorProperties.ValidIff` | backend/main.py:49-95 | `isDAG` is true exactly when the nodes are non-empty with unique ids and either there is a single descriptor and no edges, or the edges are known, unrepeated and acyclic |
| `ValidatorProperties.CycleIff` | backend/main.py:76-93 | the cycle failure is reported exactly when all structural checks pass and the graph has a cycle |
| `ValidatorProperties.OrderIndependent` | backend/main.py:62-95 | permuting the edge list does not change `isDAG` |
| `ValidatorProperties.ChainIsValid` | backend/main.py:76-95 | nodes 1, 2, 3 with edges 1→2, 2→3 give "Valid DAG." |
| `ValidatorProperties.TwoCycleIsRejected` | backend/main.py:78-93 | nodes 1, 2 with edges 1→2, 2→1 give "Cycle detected in graph." |
| `ValidatorProperties.RepeatedIdIsRejected` | backend/main.py:53-55 | two descriptors with id 1 and no edges give the duplicate-id failure |
| `ValidatorProperties.DanglingEdgeIsRejected` | backend/main.py:65-67 | edge 1→9 with nodes 1, 2 gives "Invalid edge: 1 -> 9" |
| `ValidatorProperties.RepeatedEdgeIsRejected` | backend/main.py:69-71 | edge 1→2 given twice gives the duplicate-edge failure naming (1, 2) |
| `ValidatorProperties.ZeroEdgeQuirks` | backend/main.py:57-60 | two isolated nodes are acyclic yet rejected. A descriptor list `[id, no id]` is rejected, and `[no id]` is accepted |
| `Analytics.Recent` | backend/main.py:119 | `history[-20:]` keeps the last `min(len, 20)` entries in order |
| `Analytics.RecentAppend` | backend/main.py:112-119 | truncating after every append keeps the last 20 of all appended entries |
| `Analytics.CountsPartition` | backend/main.py:106-110 | every submission is counted as valid or as invalid, so the two counts add up to the number of submissions |
| `Analytics.Store.Balanced` | backend/main.py:106-119 | `total_requests == valid_dag + invalid_dag`, the history holds at most 20 entries, and its last entry is the newest submission |
| `Analytics.Store.constructor` | backend/main.py:38-43 | the store starts with zero counters and an empty history |
| `Analytics.Store.Record` | backend/main.py:106-119 | one request is added to the total and to the valid or invalid count. The entry is appended and the history cut to its last 20 entries; the ghost log gains the entry |
| `Analytics.Store.ParsePipeline` | backend/main.py:101-121 | the handler returns the validator's outcome and records it with the caller's timestamp and the raw node and edge counts |

## Left out

- The FastAPI application, the CORS middleware and the pydantic request models (backend/main.py:1-33). They are framework set-up and input parsing done by libraries outside this model.
- The HTML dashboard and the `/` liveness endpoint (backend/main.py:127-223). They render text and hold no logic.
- The clock (`datetime.datetime.now().strftime(...)`, backend/main.py:113). The timestamp is a string parameter of `ParsePipeline`.
- The `isinstance(nodes, list)` test. Dafny's types already guarantee a list.
- The exact response texts, including the Python tuple repr in the duplicate-edge message. Each outcome is an `Outcome` variant carrying the offending pair, and `IsDag` gives the `isDAG` field.
- Node ids are strings. An `"id"` of another JSON type (number, `null`), or an unhashable one such as a list, for which `set()` raises, is not modelled.
- Graph.CycleSearch.Visit: requires its node to be a key of `adj`, so the `adj.get(node, [])` default is not modelled. Every call in the source passes a key, because start nodes are keys and every edge target has been checked against the keys.
- Python's recursion depth limit, which makes `dfs` raise on very deep graphs, is not modelled. `Visit` recurses without bound. In the source the validator runs (backend/main.py:103) before the counters change (backend/main.py:106-119), so on such an input `parse_pipeline` raises, the request is not counted and nothing is added to the history; for those inputs the counter and history clauses of `Analytics.Store.ParsePipeline` do not describe the source.
- Thread-safety of the global analytics store is not modelled, since the model is sequential.
