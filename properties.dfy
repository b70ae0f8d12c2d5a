/** What the validator's specification `Expected` promises, stated against independent
    definitions: shared ids, the first bad edge in input order, and the cycles of the graph. */
module ValidatorProperties {
  import opened Collections
  import opened Graph
  import opened Validator

  /** An empty node list is rejected whatever the edges are. */
  lemma EmptyNodesRejected(edges: seq<Edge>)
    ensures Expected([], edges) == EmptyNodes
  {
  }

  /** The duplicate-id failure is reported exactly when two descriptors carry the same id,
      before any edge is looked at. */
  lemma DuplicateIdsIff(nodes: seq<Option<string>>, edges: seq<Edge>)
    ensures Expected(nodes, edges) == DuplicateIds <==> SharedId(nodes)
  {
    IdsDistinctIff(nodes);
    if nodes != [] && !SharedId(nodes) && edges != [] {
      var scan := EdgeScan(Elems(Ids(nodes)), edges, 0);
      assert scan.Some? ==> scan.value != DuplicateIds;
    }
  }

  /** With no edges the pipeline is valid exactly when the raw node list has one entry: the
      test counts descriptors, not ids, and rejects isolated multi-node graphs. */
  lemma ZeroEdgesValidIffSingleNode(nodes: seq<Option<string>>)
    ensures IsDag(Expected(nodes, [])) <==> |nodes| == 1
    ensures nodes != [] && !SharedId(nodes) ==>
              Expected(nodes, []) == (if |nodes| == 1 then SingleNodeValid else EmptyEdges)
  {
    IdsDistinctIff(nodes);
    if |nodes| == 1 {
      assert !SharedId(nodes);
    }
  }

  /** When the ids are unique and the edge list is not empty, the reported error is that of
      the first bad edge in input order: an unknown end gives `InvalidEdge`, a repeat of an
      earlier ordered pair gives `DuplicateEdge`, and no cycle check decides the outcome. */
  lemma FirstBadEdgeReported(nodes: seq<Option<string>>, edges: seq<Edge>, j: nat)
    requires nodes != [] && !SharedId(nodes)
    requires FirstViolationAt(Elems(Ids(nodes)), edges, j)
    ensures Expected(nodes, edges) == Violation(Elems(Ids(nodes)), edges, j)
  {
    IdsDistinctIff(nodes);
    EdgeScanReportsFirst(Elems(Ids(nodes)), edges, j);
  }

  /** A reported edge error names a real edge: an invalid edge has an end that is not a node
      id, and a duplicate edge is the exact ordered pair of two different positions. */
  lemma EdgeErrorsAreGenuine(nodes: seq<Option<string>>, edges: seq<Edge>, s: string, t: string)
    ensures Expected(nodes, edges) == InvalidEdge(s, t) ==>
              Edge(s, t) in edges && (Some(s) !in nodes || Some(t) !in nodes)
    ensures Expected(nodes, edges) == DuplicateEdge(s, t) ==>
              exists i, j :: 0 <= i < j < |edges| && edges[i] == edges[j] == Edge(s, t)
  {
    if nodes != [] && Distinct(Ids(nodes)) && edges != [] {
      var known := Elems(Ids(nodes));
      if EdgeScan(known, edges, 0) != None {
        ScanErrorIsGenuine(known, edges, 0, s, t);
      }
    }
  }

  lemma {:induction false} ScanErrorIsGenuine(known: set<string>, edges: seq<Edge>, i: nat, s: string, t: string)
    requires i <= |edges|
    decreases |edges| - i
    ensures EdgeScan(known, edges, i) == Some(InvalidEdge(s, t)) ==>
              Edge(s, t) in edges && (s !in known || t !in known)
    ensures EdgeScan(known, edges, i) == Some(DuplicateEdge(s, t)) ==>
              exists a, b :: 0 <= a < b < |edges| && edges[a] == edges[b] == Edge(s, t)
  {
    if i < |edges| {
      if EdgeOk(known, edges, i) {
        ScanErrorIsGenuine(known, edges, i + 1, s, t);
      } else if EdgeScan(known, edges, i) == Some(DuplicateEdge(s, t)) {
        assert edges[i] in edges[..i];
        var a :| 0 <= a < i && edges[..i][a] == edges[i];
        assert edges[a] == edges[i];
      }
    }
  }

  /** Only the exact ordered pair counts as a repeat: `a -> b` followed by `b -> a` between
      known ids passes the edge checks. */
  lemma ReversePairIsNotDuplicate(known: set<string>, a: string, b: string)
    requires a in known && b in known && a != b
    ensures EdgeScan(known, [Edge(a, b), Edge(b, a)], 0) == None
  {
    var edges := [Edge(a, b), Edge(b, a)];
    assert edges[..1] == [Edge(a, b)];
    assert EdgeOk(known, edges, 0) && EdgeOk(known, edges, 1);
    EdgeScanNoneIff(known, edges, 0);
  }

  /** `isDAG` is true exactly when the node list is non-empty with unique ids and either it
      is a single descriptor with no edges, or there are edges, all between known ids, none
      repeated, and the graph has no cycle. */
  lemma ValidIff(nodes: seq<Option<string>>, edges: seq<Edge>)
    ensures IsDag(Expected(nodes, edges)) <==>
      nodes != [] && !SharedId(nodes) &&
      (if edges == [] then |nodes| == 1
       else EndpointsKnown(Elems(Ids(nodes)), edges) && Distinct(edges) && !HasCycle(edges))
  {
    IdsDistinctIff(nodes);
    if |nodes| == 1 {
      assert !SharedId(nodes);
    }
    EdgeScanNone(Elems(Ids(nodes)), edges);
  }

  /** The cycle failure is reported exactly when every structural check passes and the graph
      has a cycle: the depth-first search is sound and complete. */
  lemma CycleIff(nodes: seq<Option<string>>, edges: seq<Edge>)
    ensures Expected(nodes, edges) == Cycle <==>
      nodes != [] && !SharedId(nodes) && edges != [] &&
      EndpointsKnown(Elems(Ids(nodes)), edges) && Distinct(edges) && HasCycle(edges)
  {
    IdsDistinctIff(nodes);
    EdgeScanNone(Elems(Ids(nodes)), edges);
  }

  /** Reordering the edge list does not change `isDAG`. */
  lemma OrderIndependent(nodes: seq<Option<string>>, edges: seq<Edge>, edges': seq<Edge>)
    requires multiset(edges) == multiset(edges')
    ensures IsDag(Expected(nodes, edges)) == IsDag(Expected(nodes, edges'))
  {
    ValidIff(nodes, edges);
    ValidIff(nodes, edges');
    var known := Elems(Ids(nodes));
    assert |edges| == |edges'| by {
      assert |multiset(edges)| == |edges| && |multiset(edges')| == |edges'|;
    }
    assert forall e :: e in edges <==> e in edges' by {
      forall e ensures e in edges <==> e in edges' {
        assert e in edges <==> e in multiset(edges);
        assert e in edges' <==> e in multiset(edges');
      }
    }
    DistinctPermutation(edges, edges');
    SameEdgesSameCycles(edges, edges');
    SameEdgesSameCycles(edges', edges);
  }

  lemma SameEdgesSameCycles(edges: seq<Edge>, edges': seq<Edge>)
    requires forall e :: e in edges ==> e in edges'
    ensures HasCycle(edges) ==> HasCycle(edges')
  {
    if HasCycle(edges) {
      var v :| Reaches(edges, v, v);
      var p :| IsPath(edges, p, v, v);
      assert IsPath(edges', p, v, v);
      assert Reaches(edges', v, v);
    }
  }

  // ---------------------------------------------------------------------------
  // Concrete inputs

  /** A chain 1 -> 2 -> 3 is a valid DAG. */
  lemma ChainIsValid()
    ensures Expected([Some("1"), Some("2"), Some("3")], [Edge("1", "2"), Edge("2", "3")]) == ValidDag
  {
    var nodes := [Some("1"), Some("2"), Some("3")];
    var edges := [Edge("1", "2"), Edge("2", "3")];
    assert Ids(nodes) == ["1", "2", "3"];
    RankedIsAcyclic(edges, map["1" := 1, "2" := 2, "3" := 3]);
    assert edges[..1] == [Edge("1", "2")];
    assert EdgeOk(Elems(Ids(nodes)), edges, 0) && EdgeOk(Elems(Ids(nodes)), edges, 1);
    EdgeScanNoneIff(Elems(Ids(nodes)), edges, 0);
  }

  /** 1 -> 2 -> 1 is reported as a cycle. */
  lemma TwoCycleIsRejected()
    ensures Expected([Some("1"), Some("2")], [Edge("1", "2"), Edge("2", "1")]) == Cycle
  {
    var nodes := [Some("1"), Some("2")];
    var edges := [Edge("1", "2"), Edge("2", "1")];
    assert Ids(nodes) == ["1", "2"];
    assert IsPath(edges, ["1", "2", "1"], "1", "1");
    assert Reaches(edges, "1", "1");
    ReversePairIsNotDuplicate(Elems(Ids(nodes)), "1", "2");
  }

  /** Two descriptors with id 1 are rejected before the empty edge list is considered. */
  lemma RepeatedIdIsRejected()
    ensures Expected([Some("1"), Some("1")], []) == DuplicateIds
  {
    var ids := Ids([Some("1"), Some("1")]);
    assert ids == ["1", "1"];
    assert ids[0] == ids[1];
  }

  /** An edge to the unknown id 9 is rejected and named. */
  lemma DanglingEdgeIsRejected()
    ensures Expected([Some("1"), Some("2")], [Edge("1", "9")]) == InvalidEdge("1", "9")
  {
    var nodes := [Some("1"), Some("2")];
    assert Ids(nodes) == ["1", "2"];
    assert "9" !in Elems(Ids(nodes));
  }

  /** A repeated edge 1 -> 2 is rejected and named. */
  lemma RepeatedEdgeIsRejected()
    ensures Expected([Some("1"), Some("2")], [Edge("1", "2"), Edge("1", "2")]) == DuplicateEdge("1", "2")
  {
    var nodes := [Some("1"), Some("2")];
    var edges := [Edge("1", "2"), Edge("1", "2")];
    assert Ids(nodes) == ["1", "2"];
    assert edges[..1] == [Edge("1", "2")];
    assert EdgeOk(Elems(Ids(nodes)), edges, 0) && !EdgeOk(Elems(Ids(nodes)), edges, 1);
  }

  /** Two isolated nodes form an acyclic graph and are still rejected for having no edges;
      a single descriptor without an id and no edges is accepted. */
  lemma ZeroEdgeQuirks()
    ensures !HasCycle([]) && Expected([Some("1"), Some("2")], []) == EmptyEdges
    ensures Expected([Some("1"), None], []) == EmptyEdges
    ensures Expected([None], []) == SingleNodeValid
  {
    RankedIsAcyclic([], map[]);
    assert Ids([Some("1"), Some("2")]) == ["1", "2"];
    assert Ids([Some("1"), None]) == ["1"];
    assert Ids([None]) == [];
  }
}
