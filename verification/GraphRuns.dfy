/** Queries of a graph object before and after AddConnection. */
module GraphRuns {

  import opened ShortestPaths
  import opened WeightedGraphs
  import opened GraphPaths
  import opened StaleAnswers

  /** Ask, link two nodes, ask again: the answer is the same, and right for the graph with the link exactly when
      StillRight says so of the graph without it. */
  method AskAgain(graph: WeightedGraph, s: int, t: int, u: int, v: int, w: int, INFINITE_WEIGHT: int)
    returns (first: seq<int>, second: seq<int>)
    requires graph.Valid() && NonNegative(graph.adjacencyLists) && 0 <= INFINITE_WEIGHT && 0 <= w
    requires !graph.isValidPath || graph.rootNode != s
    requires s != t && u != v && {s, t, u, v} <= graph.adjacencyLists.Keys && |graph.adjacencyLists.Keys| > 2
    modifies graph
    ensures graph.Valid() && graph.adjacencyLists == WithLink(old(graph.adjacencyLists), u, v, w)
    ensures IsShortest(old(graph.adjacencyLists), s, t, INFINITE_WEIGHT, first) && second == first
    ensures IsShortest(graph.adjacencyLists, s, t, INFINITE_WEIGHT, second) <==>
            StillRight(old(graph.adjacencyLists), u, v, w, s, t, INFINITE_WEIGHT, second)
  {
    hide IsWalk, Joins, Cost, Closed, NonNegative, Symmetric, WithLink, StillRight, IsShortest, IsRoute;
    hide WeightedGraph.MatrixFits;
    ghost var g := graph.adjacencyLists;
    if !graph.isValidPath {
      NothingToFit(graph, INFINITE_WEIGHT);
    }
    var result;
    first, result := graph.GetShortestPath(s, t, INFINITE_WEIGHT);
    graph.AddConnection(u, v, w);
    LinkedWeights(g, u, v, w);
    second, result := graph.GetShortestPath(s, t, INFINITE_WEIGHT);
    OneRoute(g, s, INFINITE_WEIGHT, graph.order, t, first, second);
    ShortestIsWalk(g, s, t, INFINITE_WEIGHT, first);
    StaleExactly(g, u, v, w, s, t, INFINITE_WEIGHT, first);
  }

  lemma NothingToFit(graph: WeightedGraph, infinity: int)
    requires !graph.isValidPath
    ensures graph.CacheFits(infinity)
  {
  }

  lemma LinkedWeights(g: Graph, u: int, v: int, w: int)
    requires NonNegative(g) && u != v && {u, v} <= g.Keys && 0 <= w
    ensures NonNegative(WithLink(g, u, v, w)) && WithLink(g, u, v, w).Keys == g.Keys
  {
    hide WithLink;
    var h := WithLink(g, u, v, w);
    LinkAdds(g, u, v, w, u, v);
    forall x, y | x in h && y in h[x] ensures 0 <= h[x][y] {
      LinkAdds(g, u, v, w, x, y);
    }
  }

  /** A run holds one route to a node. */
  lemma OneRoute(g: Graph, start: int, infinity: int, order: seq<int>, v: int, p: seq<int>, q: seq<int>)
    requires IsRoute(g, start, infinity, order, v, p) && IsRoute(g, start, infinity, order, v, q)
    ensures p == q
  {
    hide Route, Reached, NearestFirst;
  }

  lemma ShortestIsWalk(g: Graph, s: int, t: int, infinity: int, path: seq<int>)
    requires IsShortest(g, s, t, infinity, path)
    ensures path == [] || IsWalk(g, path)
  {
  }

  /** A run that ends with a wrong answer: 1 is linked to 2 and 2 to 3, the way from 1 to 3 is asked for, a shorter
      link from 1 to 3 is added, and the way is asked for again. */
  method StaleRun() returns (graph: WeightedGraph, path: seq<int>)
    ensures fresh(graph) && graph.Valid() && NonNegative(graph.adjacencyLists)
    ensures graph.adjacencyLists == map[1 := map[2 := 0, 3 := 1], 2 := map[1 := 0, 3 := 5], 3 := map[2 := 5, 1 := 1]]
    ensures !IsShortest(graph.adjacencyLists, 1, 3, 100, path)
  {
    hide *;
    graph := new WeightedGraph();
    graph.AddConnection(1, 2, 0);
    graph.AddConnection(2, 3, 5);
    ghost var g := RowMade();
    LinkedWeights(g, 1, 3, 1);
    var first;
    first, path := AskAgain(graph, 1, 3, 1, 3, 1, 100);
    NotRightStill(g, path);
  }

  lemma RowMade() returns (g: Graph)
    ensures g == map[1 := map[2 := 0], 2 := map[1 := 0, 3 := 5], 3 := map[2 := 5]]
    ensures g == WithLink(WithLink(map[], 1, 2, 0), 2, 3, 5) && NonNegative(g)
    ensures {1, 2, 3} <= g.Keys && |g.Keys| > 2
    ensures WithLink(g, 1, 3, 1) == map[1 := map[2 := 0, 3 := 1], 2 := map[1 := 0, 3 := 5], 3 := map[2 := 5, 1 := 1]]
  {
    g := ThreeInARow();
    assert g.Keys == {1, 2, 3};
  }

  lemma NotRightStill(g: Graph, path: seq<int>)
    requires g == map[1 := map[2 := 0], 2 := map[1 := 0, 3 := 5], 3 := map[2 := 5]]
    requires IsShortest(g, 1, 3, 100, path)
    ensures path == [] || IsWalk(g, path)
    ensures !StillRight(g, 1, 3, 1, 1, 3, 100, path)
  {
    hide IsWalk, Cost, Closed, Symmetric, IsShortest;
    var k := ThreeInARow();
    StandStill(g, 1, 0);
    StandStill(g, 3, 0);
    CostOne(g, [1]);
    CostOne(g, [3]);
    CheapestAgree(g, 1, 3, 100, [1, 2, 3], path);
    assert Joins(g, [1], 1, 1) && Joins(g, [3], 3, 3);
  }

  /** Two cheapest walks cost the same. */
  lemma CheapestAgree(g: Graph, s: int, t: int, infinity: int, p: seq<int>, q: seq<int>)
    requires IsShortest(g, s, t, infinity, p) && IsShortest(g, s, t, infinity, q) && p != []
    ensures q != [] && IsWalk(g, p) && IsWalk(g, q) && Cost(g, q) == Cost(g, p)
  {
    hide IsWalk, Cost;
  }
}
