/** Directed graphs given by a list of edges, their cycles, and the three-colour depth-first
    search that the validator runs to find one (`dfs` nested in `is_dag_with_checks`). */
module Graph {

  /** A directed edge `source -> target` between node ids. */
  datatype Edge = Edge(source: string, target: string)

  /** `p` steps along edges of `edges` from each of its nodes to the next one. */
  ghost predicate IsWalk(edges: seq<Edge>, p: seq<string>) {
    forall k :: 0 <= k < |p| - 1 ==> Edge(p[k], p[k + 1]) in edges
  }

  /** `p` is a walk of at least one edge from `a` to `b`. */
  ghost predicate IsPath(edges: seq<Edge>, p: seq<string>, a: string, b: string) {
    IsWalk(edges, p) && |p| >= 2 && p[0] == a && p[|p| - 1] == b
  }

  /** `b` can be reached from `a` by following one edge or more. */
  ghost predicate Reaches(edges: seq<Edge>, a: string, b: string) {
    exists p :: IsPath(edges, p, a, b)
  }

  /** Some node can reach itself: the graph is not a DAG. */
  ghost predicate HasCycle(edges: seq<Edge>) {
    exists v :: Reaches(edges, v, v)
  }

  lemma ReachesByEdge(edges: seq<Edge>, a: string, b: string)
    requires Edge(a, b) in edges
    ensures Reaches(edges, a, b)
  {
    assert IsPath(edges, [a, b], a, b);
  }

  lemma ReachesExtend(edges: seq<Edge>, a: string, b: string, c: string)
    requires Reaches(edges, a, b) && Edge(b, c) in edges
    ensures Reaches(edges, a, c)
  {
    var p :| IsPath(edges, p, a, b);
    var q := p + [c];
    forall k | 0 <= k < |q| - 1 ensures Edge(q[k], q[k + 1]) in edges {
      if k < |p| - 1 { assert q[k] == p[k] && q[k + 1] == p[k + 1]; }
    }
    assert IsPath(edges, q, a, c);
  }

  /** A walk that starts in a set closed under the edge relation stays in it. */
  lemma {:induction false} WalkStaysIn(edges: seq<Edge>, closed: set<string>, p: seq<string>)
    requires forall u, v :: u in closed && Edge(u, v) in edges ==> v in closed
    requires IsWalk(edges, p) && |p| > 0 && p[0] in closed
    ensures p[|p| - 1] in closed
  {
    if |p| > 1 {
      var init := p[..|p| - 1];
      assert IsWalk(edges, init) by {
        forall k | 0 <= k < |init| - 1 ensures Edge(init[k], init[k + 1]) in edges {
          assert init[k] == p[k] && init[k + 1] == p[k + 1];
        }
      }
      WalkStaysIn(edges, closed, init);
      assert Edge(p[|p| - 2], p[|p| - 1]) in edges;
    }
  }

  /** When `node` leaves the search path and every edge out of it leads into the
      finished set `done`, which is closed and disjoint from `node`, then `node` lies on
      no cycle: any cycle through it would return to it from inside `done`. */
  lemma FinishKeepsAcyclic(edges: seq<Edge>, done: set<string>, node: string)
    requires node !in done
    requires forall u, v :: u in done && Edge(u, v) in edges ==> v in done
    requires forall v :: Edge(node, v) in edges ==> v in done
    ensures !Reaches(edges, node, node)
  {
    if Reaches(edges, node, node) {
      var p :| IsPath(edges, p, node, node);
      assert Edge(p[0], p[1]) in edges;
      var rest := p[1..];
      assert IsWalk(edges, rest) by {
        forall k | 0 <= k < |rest| - 1 ensures Edge(rest[k], rest[k + 1]) in edges {
          assert rest[k] == p[k + 1] && rest[k + 1] == p[k + 2];
        }
      }
      WalkStaysIn(edges, done, rest);
      assert false;
    }
  }

  /** A cycle passes through the source of one of its edges, so when every edge source is in
      `nodes`, a cyclic graph has a node of `nodes` that reaches itself. */
  lemma CycleThroughSource(edges: seq<Edge>, nodes: set<string>)
    requires forall e :: e in edges ==> e.source in nodes
    ensures HasCycle(edges) ==> exists u :: u in nodes && Reaches(edges, u, u)
  {
    if HasCycle(edges) {
      var v :| Reaches(edges, v, v);
      var p :| IsPath(edges, p, v, v);
      assert Edge(p[0], p[1]) in edges;
    }
  }

  /** Every edge going strictly up a ranking of the nodes excludes a cycle (the easy half of
      "a graph is a DAG iff it has a topological order"). */
  lemma RankedIsAcyclic(edges: seq<Edge>, rank: map<string, int>)
    requires forall e :: e in edges ==> e.source in rank && e.target in rank && rank[e.source] < rank[e.target]
    ensures !HasCycle(edges)
  {
    if HasCycle(edges) {
      var v :| Reaches(edges, v, v);
      var p :| IsPath(edges, p, v, v);
      RankIncreases(edges, rank, p);
      assert false;
    }
  }

  lemma {:induction false} RankIncreases(edges: seq<Edge>, rank: map<string, int>, p: seq<string>)
    requires forall e :: e in edges ==> e.source in rank && e.target in rank && rank[e.source] < rank[e.target]
    requires IsWalk(edges, p) && |p| >= 2
    ensures p[0] in rank && p[|p| - 1] in rank && rank[p[0]] < rank[p[|p| - 1]]
  {
    assert Edge(p[0], p[1]) in edges;
    if |p| > 2 {
      var init := p[..|p| - 1];
      assert IsWalk(edges, init) by {
        forall k | 0 <= k < |init| - 1 ensures Edge(init[k], init[k + 1]) in edges {
          assert init[k] == p[k] && init[k + 1] == p[k + 1];
        }
      }
      RankIncreases(edges, rank, init);
      assert Edge(p[|p| - 2], p[|p| - 1]) in edges;
    }
  }

  /** `adj` is the adjacency mapping of `edges`: every edge is listed under its source, both
      of its ends are keys, and every listed target comes from an edge. */
  ghost predicate Represents(adj: map<string, seq<string>>, edges: seq<Edge>) {
    (forall e :: e in edges ==> e.source in adj && e.target in adj && e.target in adj[e.source]) &&
    (forall u, v :: u in adj && v in adj[u] ==> Edge(u, v) in edges)
  }

  /** The state of the depth-first search: the adjacency mapping it walks, the nodes it has
      entered (`visited`) and the nodes on the current recursion path (`stack`). Nodes that
      are visited but no longer on the path are finished. */
  class CycleSearch {
    const adj: map<string, seq<string>>
    ghost const edges: seq<Edge>
    var visited: set<string>
    var stack: set<string>

    ghost predicate Valid()
      reads this
    {
      Represents(adj, edges) && stack <= visited <= adj.Keys
    }

    ghost function Finished(): set<string>
      reads this
    {
      visited - stack
    }

    /** Every edge out of a finished node leads to a finished node. */
    ghost predicate FinishedClosed()
      reads this
    {
      forall u, v :: u in Finished() && Edge(u, v) in edges ==> v in Finished()
    }

    /** No finished node lies on a cycle. */
    ghost predicate FinishedAcyclic()
      reads this
    {
      forall u :: u in Finished() ==> !Reaches(edges, u, u)
    }

    constructor (adj: map<string, seq<string>>, ghost edges: seq<Edge>)
      requires Represents(adj, edges)
      ensures Valid() && FinishedClosed() && FinishedAcyclic()
      ensures this.adj == adj && this.edges == edges
      ensures visited == {} && stack == {}
    {
      this.adj := adj;
      this.edges := edges;
      visited := {};
      stack := {};
    }

    /** `dfs(node)`: true when a node on the path is met again, which is a cycle. When it
        returns false, `node` is finished, the path is as it was, and the finished nodes
        still form a closed, cycle-free set. */
    method Visit(node: string) returns (found: bool)
      requires Valid() && FinishedClosed() && FinishedAcyclic()
      requires node in adj
      requires forall g :: g in stack ==> Reaches(edges, g, node)
      modifies this
      decreases adj.Keys - visited
      ensures Valid()
      ensures old(visited) <= visited
      ensures found ==> HasCycle(edges)
      ensures !found ==> stack == old(stack) && node in Finished()
      ensures !found ==> FinishedClosed() && FinishedAcyclic()
    {
      if node in stack {
        assert Reaches(edges, node, node);
        return true;
      }
      if node in visited {
        return false;
      }
      visited := visited + {node};
      stack := stack + {node};
      var neighbours := adj[node];
      for i := 0 to |neighbours|
        invariant Valid() && FinishedClosed() && FinishedAcyclic()
        invariant stack == old(stack) + {node}
        invariant old(visited) + {node} <= visited
        invariant forall g :: g in old(stack) ==> Reaches(edges, g, node)
        invariant forall j :: 0 <= j < i ==> neighbours[j] in Finished()
      {
        var next := neighbours[i];
        assert Edge(node, next) in edges;
        forall g | g in stack ensures Reaches(edges, g, next) {
          if g == node { ReachesByEdge(edges, node, next); }
          else { ReachesExtend(edges, g, node, next); }
        }
        found := Visit(next);
        if found {
          return;
        }
      }
      ghost var done := Finished();
      assert forall v :: Edge(node, v) in edges ==> v in done by {
        forall v | Edge(node, v) in edges ensures v in done {
          assert v in neighbours;
        }
      }
      FinishKeepsAcyclic(edges, done, node);
      stack := stack - {node};
      assert Finished() == done + {node};
      found := false;
    }
  }
}
