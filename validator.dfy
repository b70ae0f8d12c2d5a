/** The pipeline validator `is_dag_with_checks` (backend/main.py): structural checks on the
    submitted nodes and edges, in a fixed order, followed by cycle detection. */
module Validator {
  import opened Collections
  import opened Graph

  /** The outcomes the validator can report, one per returned dictionary. The two valid
      outcomes carry `isDAG: true`; the rest carry `isDAG: false` and an error. */
  datatype Outcome =
    | EmptyNodes                                 // "Nodes list is empty or invalid."
    | DuplicateIds                               // "Duplicate node IDs detected."
    | EmptyEdges                                 // "Edges list is empty or invalid."
    | SingleNodeValid                            // "Valid single-node DAG."
    | InvalidEdge(source: string, target: string)  // "Invalid edge: s -> t"
    | DuplicateEdge(source: string, target: string) // "Duplicate edge detected (s, t)"
    | Cycle                                      // "Cycle detected in graph."
    | ValidDag                                   // "Valid DAG."

  /** The `isDAG` field of the response. */
  predicate IsDag(o: Outcome) {
    o.SingleNodeValid? || o.ValidDag?
  }

  // ---------------------------------------------------------------------------
  // Node ids

  /** `[n.get("id") for n in nodes if "id" in n]`: the ids of the descriptors that carry one,
      in order. A descriptor is `Some(id)` or, lacking an id, `None`. */
  function Ids(nodes: seq<Option<string>>): (r: seq<string>)
    ensures |r| <= |nodes|
    ensures forall x :: x in r <==> Some(x) in nodes
  {
    if nodes == [] then []
    else (if nodes[0].Some? then [nodes[0].value] else []) + Ids(nodes[1..])
  }

  /** Two different descriptors carry the same id. */
  ghost predicate SharedId(nodes: seq<Option<string>>) {
    exists i, j :: 0 <= i < j < |nodes| && nodes[i].Some? && nodes[i] == nodes[j]
  }

  lemma SharedIdCons(nodes: seq<Option<string>>)
    requires nodes != []
    ensures SharedId(nodes) <==> (nodes[0].Some? && nodes[0] in nodes[1..]) || SharedId(nodes[1..])
  {
    var rest := nodes[1..];
    if SharedId(nodes) {
      var i, j :| 0 <= i < j < |nodes| && nodes[i].Some? && nodes[i] == nodes[j];
      if i == 0 {
        assert nodes[j] == rest[j - 1];
      } else {
        assert rest[i - 1] == nodes[i] && rest[j - 1] == nodes[j];
      }
    }
    if nodes[0].Some? && nodes[0] in rest {
      var k :| 0 <= k < |rest| && rest[k] == nodes[0];
      assert nodes[k + 1] == rest[k];
    }
    if SharedId(rest) {
      var i, j :| 0 <= i < j < |rest| && rest[i].Some? && rest[i] == rest[j];
      assert nodes[i + 1] == rest[i] && nodes[j + 1] == rest[j];
    }
  }

  /** The collected ids are duplicate-free exactly when no two descriptors share an id. */
  lemma {:induction false} IdsDistinctIff(nodes: seq<Option<string>>)
    ensures Distinct(Ids(nodes)) <==> !SharedId(nodes)
  {
    if nodes != [] {
      var rest := nodes[1..];
      IdsDistinctIff(rest);
      SharedIdCons(nodes);
      if nodes[0].Some? {
        var x := nodes[0].value;
        assert Ids(nodes) == [x] + Ids(rest);
        assert nodes[0] in rest <==> x in Ids(rest);
        DistinctCons(x, Ids(rest));
      } else {
        assert Ids(nodes) == Ids(rest);
      }
    }
  }

  // ---------------------------------------------------------------------------
  // Edge checks

  /** The targets listed under `u` in the adjacency mapping built from `edges`: the target of
      every edge leaving `u`, in edge order. */
  function Targets(edges: seq<Edge>, u: string): (r: seq<string>)
    ensures forall v :: v in r <==> Edge(u, v) in edges
  {
    if edges == [] then []
    else
      var last := edges[|edges| - 1];
      Targets(edges[..|edges| - 1], u) + (if last.source == u then [last.target] else [])
  }

  /** Edge `i` names two known ids and does not repeat an earlier edge. */
  ghost predicate EdgeOk(known: set<string>, edges: seq<Edge>, i: nat)
    requires i < |edges|
  {
    edges[i].source in known && edges[i].target in known && edges[i] !in edges[..i]
  }

  /** Edge `j` is the first edge in input order that is not OK. */
  ghost predicate FirstViolationAt(known: set<string>, edges: seq<Edge>, j: nat) {
    j < |edges| && !EdgeOk(known, edges, j) && forall i :: 0 <= i < j ==> EdgeOk(known, edges, i)
  }

  /** The error reported for a bad edge: an unknown end takes precedence over a repeat. */
  ghost function Violation(known: set<string>, edges: seq<Edge>, j: nat): Outcome
    requires j < |edges|
  {
    var e := edges[j];
    if e.source !in known || e.target !in known then InvalidEdge(e.source, e.target)
    else DuplicateEdge(e.source, e.target)
  }

  /** Every edge names known ids. */
  ghost predicate EndpointsKnown(known: set<string>, edges: seq<Edge>) {
    forall e :: e in edges ==> e.source in known && e.target in known
  }

  /** The result of the `for e in edges` loop from edge `i` on, given that the edges before
      `i` passed: the error of the first bad edge, or `None`. */
  ghost function EdgeScan(known: set<string>, edges: seq<Edge>, i: nat): (r: Option<Outcome>)
    requires i <= |edges|
    decreases |edges| - i
    ensures r.Some? ==> r.value.InvalidEdge? || r.value.DuplicateEdge?
  {
    if i == |edges| then None
    else if EdgeOk(known, edges, i) then EdgeScan(known, edges, i + 1)
    else Some(Violation(known, edges, i))
  }

  lemma {:induction false} EdgeScanNoneIff(known: set<string>, edges: seq<Edge>, i: nat)
    requires i <= |edges|
    decreases |edges| - i
    ensures EdgeScan(known, edges, i) == None <==> forall j :: i <= j < |edges| ==> EdgeOk(known, edges, j)
  {
    if i < |edges| {
      EdgeScanNoneIff(known, edges, i + 1);
    }
  }

  lemma {:induction false} EdgeScanFindsFirst(known: set<string>, edges: seq<Edge>, i: nat, j: nat)
    requires i <= j < |edges| && !EdgeOk(known, edges, j)
    requires forall k :: i <= k < j ==> EdgeOk(known, edges, k)
    decreases j - i
    ensures EdgeScan(known, edges, i) == Some(Violation(known, edges, j))
  {
    if i < j {
      EdgeScanFindsFirst(known, edges, i + 1, j);
    }
  }

  /** All edges pass exactly when every edge names known ids and no ordered pair repeats. */
  lemma AllEdgesOkIff(known: set<string>, edges: seq<Edge>)
    ensures (forall j :: 0 <= j < |edges| ==> EdgeOk(known, edges, j)) <==>
            EndpointsKnown(known, edges) && Distinct(edges)
  {
    if forall j :: 0 <= j < |edges| ==> EdgeOk(known, edges, j) {
      forall e | e in edges ensures e.source in known && e.target in known {
        var j :| 0 <= j < |edges| && edges[j] == e;
        assert EdgeOk(known, edges, j);
      }
      forall i, j | 0 <= i < j < |edges| ensures edges[i] != edges[j] {
        assert EdgeOk(known, edges, j);
        assert edges[i] == edges[..j][i];
      }
    }
    if EndpointsKnown(known, edges) && Distinct(edges) {
      forall j | 0 <= j < |edges| ensures EdgeOk(known, edges, j) {
        assert edges[j] in edges;
        assert forall i :: 0 <= i < j ==> edges[..j][i] == edges[i] != edges[j];
      }
    }
  }

  /** The scan reports nothing exactly when the edges are well formed. */
  lemma EdgeScanNone(known: set<string>, edges: seq<Edge>)
    ensures EdgeScan(known, edges, 0) == None <==> EndpointsKnown(known, edges) && Distinct(edges)
  {
    EdgeScanNoneIff(known, edges, 0);
    AllEdgesOkIff(known, edges);
  }

  /** The scan reports exactly the error of the first bad edge. */
  lemma EdgeScanReportsFirst(known: set<string>, edges: seq<Edge>, j: nat)
    requires FirstViolationAt(known, edges, j)
    ensures EdgeScan(known, edges, 0) == Some(Violation(known, edges, j))
  {
    EdgeScanFindsFirst(known, edges, 0, j);
  }

  // ---------------------------------------------------------------------------
  // The specification

  /** What `is_dag_with_checks(nodes, edges)` returns: the first failing check among a
      non-empty node list, unique ids, a non-empty edge list (one node alone is valid without
      edges), well-formed edges in input order; otherwise whether the graph has a cycle. */
  ghost function Expected(nodes: seq<Option<string>>, edges: seq<Edge>): Outcome {
    if |nodes| == 0 then EmptyNodes
    else if !Distinct(Ids(nodes)) then DuplicateIds
    else if |edges| == 0 then (if |nodes| == 1 then SingleNodeValid else EmptyEdges)
    else match EdgeScan(Elems(Ids(nodes)), edges, 0)
      case Some(err) => err
      case None => if HasCycle(edges) then Cycle else ValidDag
  }

  // ---------------------------------------------------------------------------
  // The implementation

  /** The `for e in edges` loop: checks each edge in turn and builds the adjacency mapping
      `adj` (every id, with the targets of its edges in order) and the `seen_edges` set. */
  method CheckEdges(ids: seq<string>, edges: seq<Edge>) returns (err: Option<Outcome>, adj: map<string, seq<string>>)
    ensures err == EdgeScan(Elems(ids), edges, 0)
    ensures err == None ==> adj.Keys == Elems(ids) && forall u :: u in adj ==> adj[u] == Targets(edges, u)
  {
    var known := Elems(ids);
    adj := map u | u in known :: [];
    var seen: set<Edge> := {};
    for i := 0 to |edges|
      invariant EdgeScan(known, edges, 0) == EdgeScan(known, edges, i)
      invariant forall e :: e in seen <==> e in edges[..i]
      invariant adj.Keys == known
      invariant forall u :: u in adj ==> adj[u] == Targets(edges[..i], u)
    {
      var e := edges[i];
      if e.source !in adj || e.target !in adj {
        return Some(InvalidEdge(e.source, e.target)), adj;
      }
      if e in seen {
        return Some(DuplicateEdge(e.source, e.target)), adj;
      }
      assert edges[..i + 1][..i] == edges[..i];
      seen := seen + {e};
      adj := adj[e.source := adj[e.source] + [e.target]];
    }
    assert edges[..|edges|] == edges;
    err := None;
  }

  /** The `for n in adj: if dfs(n)` loop: a depth-first search from every id, sharing one
      `visited` and one `stack` set, finds a cycle exactly when the graph has one. */
  method FindCycle(ids: seq<string>, adj: map<string, seq<string>>, edges: seq<Edge>) returns (found: bool)
    requires adj.Keys == Elems(ids) && EndpointsKnown(adj.Keys, edges)
    requires forall u :: u in adj ==> adj[u] == Targets(edges, u)
    ensures found <==> HasCycle(edges)
  {
    assert Represents(adj, edges);
    var search := new CycleSearch(adj, edges);
    for i := 0 to |ids|
      invariant search.adj == adj && search.edges == edges
      invariant search.Valid() && search.FinishedClosed() && search.FinishedAcyclic()
      invariant search.stack == {}
      invariant forall j :: 0 <= j < i ==> ids[j] in search.visited
    {
      found := search.Visit(ids[i]);
      if found {
        return;
      }
    }
    assert forall u :: u in adj ==> u in search.Finished() by {
      forall u | u in adj ensures u in search.Finished() {
        var j :| 0 <= j < |ids| && ids[j] == u;
      }
    }
    CycleThroughSource(edges, adj.Keys);
    found := false;
  }

  /** `is_dag_with_checks`: runs the checks in the source's order and, when they pass, the
      depth-first search from every id. */
  method Validate(nodes: seq<Option<string>>, edges: seq<Edge>) returns (r: Outcome)
    ensures r == Expected(nodes, edges)
  {
    if |nodes| == 0 {
      return EmptyNodes;
    }
    var ids := Ids(nodes);
    DistinctIffCard(ids);
    if |ids| != |Elems(ids)| {
      return DuplicateIds;
    }
    if |edges| == 0 {
      if |nodes| == 1 {
        return SingleNodeValid;
      }
      return EmptyEdges;
    }
    var err, adj := CheckEdges(ids, edges);
    if err.Some? {
      return err.value;
    }
    EdgeScanNone(Elems(ids), edges);
    var found := FindCycle(ids, adj, edges);
    if found {
      return Cycle;
    }
    return ValidDag;
  }
}
