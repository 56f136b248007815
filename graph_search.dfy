/**
 The directed-graph topology: an adjacency map from node names to their
 ordered successor lists, where a node missing from the map has no
 successors, and the two graph searches (`bfs_graph`, `dfs_graph`) as
 instances of the generic engines.
 */
module GraphSearch {
  import opened Walks
  import opened Frontier
  import opened Uninformed

  type Node = string
  type Graph = map<Node, seq<Node>>

  /** The successors of `n`: its adjacency list, or none when `n` is not a key. */
  function Adj(graph: Graph, n: Node): (r: seq<Node>)
    ensures n !in graph ==> r == []
    ensures forall m :: m in r <==> Edge(graph, n, m)
  {
    if n in graph then graph[n] else []
  }

  function GraphSucc(graph: Graph): (succ: Node -> seq<Node>)
    ensures forall n :: succ(n) == Adj(graph, n)
  {
    n => Adj(graph, n)
  }

  /** An edge: `a` is a key of the map and `b` is listed among its successors. */
  predicate Edge(graph: Graph, a: Node, b: Node)
  {
    a in graph && b in graph[a]
  }

  /** A path of the graph from `start` to `goal`, following edges. */
  ghost predicate IsGraphPath(graph: Graph, start: Node, goal: Node, p: seq<Node>)
  {
    && |p| > 0 && p[0] == start && p[|p| - 1] == goal
    && forall i :: 0 <= i < |p| - 1 ==> Edge(graph, p[i], p[i + 1])
  }

  /** Paths of the graph are exactly the walks of the successor function. */
  lemma AllPathsAreWalks(graph: Graph)
    ensures forall start, goal, p :: IsGraphPath(graph, start, goal, p) <==> Connects(GraphSucc(graph), start, goal, p)
  {
  }

  /** Every node some edge enters. */
  ghost function Targets(graph: Graph): set<Node>
  {
    set a, b | a in graph && b in graph[a] :: b
  }

  /** A finite set closed under edges that holds `start`: it bounds the searches. */
  lemma GraphClosed(graph: Graph, start: Node)
    ensures start in {start} + graph.Keys + Targets(graph)
    ensures Closed(GraphSucc(graph), {start} + graph.Keys + Targets(graph))
  {
    forall v, w | w in GraphSucc(graph)(v) ensures w in Targets(graph) {
      assert v in graph && w in graph[v];
    }
  }

  /**
   `bfs_graph`: a path with the fewest edges from `start` to `goal`, without
   repeated nodes, or `None` exactly when no path exists.
   */
  method BfsGraph(graph: Graph, start: Node, goal: Node) returns (path: Option<seq<Node>>)
    ensures start == goal ==> path == Some([start])
    ensures path.Some? ==> IsGraphPath(graph, start, goal, path.value) && Distinct(path.value)
    ensures path.Some? ==> forall p :: IsGraphPath(graph, start, goal, p) ==> |path.value| <= |p|
    ensures path.None? <==> forall p :: !IsGraphPath(graph, start, goal, p)
  {
    GraphClosed(graph, start);
    AllPathsAreWalks(graph);
    path := BreadthFirst(GraphSucc(graph), {start} + graph.Keys + Targets(graph), start, goal);
  }

  /** `dfs_graph`: a path from `start` to `goal` without repeated nodes, or `None` exactly when no path exists. */
  method DfsGraph(graph: Graph, start: Node, goal: Node) returns (path: Option<seq<Node>>)
    ensures start == goal ==> path == Some([start])
    ensures path.Some? ==> IsGraphPath(graph, start, goal, path.value) && Distinct(path.value)
    ensures path.None? <==> forall p :: !IsGraphPath(graph, start, goal, p)
  {
    GraphClosed(graph, start);
    AllPathsAreWalks(graph);
    path := DepthFirst(GraphSucc(graph), {start} + graph.Keys + Targets(graph), start, goal);
  }

  /** The graph of the assignment. */
  const Example: Graph := map[
    "A" := ["B"],
    "B" := ["C", "D"],
    "C" := ["E"],
    "D" := ["F"],
    "E" := [],
    "F" := []
  ]

  /** In the example graph the only path from A to E is A, B, C, E. */
  lemma OnlyExamplePath(p: seq<Node>)
    requires IsGraphPath(Example, "A", "E", p)
    ensures p == ["A", "B", "C", "E"]
  {
    forall i | 0 <= i < |p| - 1 ensures p[i] in Example && Example[p[i]] != [] {
      assert Edge(Example, p[i], p[i + 1]);
    }
    assert "A" != "E" && Edge(Example, p[0], p[1]) && p[1] == "B";
    assert "B" != "E" && Edge(Example, p[1], p[2]);
    assert |p| >= 4;
    assert Edge(Example, p[2], p[3]);
    assert p[2] == "C";
    assert p[3] == "E";
    assert |p| == 4;
  }

  /** Both graph searches find A, B, C, E from A to E. */
  method SolveExample() returns (bfs: Option<seq<Node>>, dfs: Option<seq<Node>>)
    ensures bfs == Some(["A", "B", "C", "E"])
    ensures dfs == Some(["A", "B", "C", "E"])
  {
    assert IsGraphPath(Example, "A", "E", ["A", "B", "C", "E"]);
    bfs := BfsGraph(Example, "A", "E");
    OnlyExamplePath(bfs.value);
    dfs := DfsGraph(Example, "A", "E");
    OnlyExamplePath(dfs.value);
  }
}
