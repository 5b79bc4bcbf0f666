/** The graph object of `DS_WeightedGraph.h`: links, shortest paths, and the cached matrix behind them. */
module GraphPaths {

  import opened ShortestPaths
  import opened OrderedLists
  import opened WeightedGraphs

  /** An answer of GetShortestPath between linked-up nodes: a cheapest walk, or nothing when no walk costs
      less than infinity. */
  ghost predicate IsShortest(g: Graph, u: int, v: int, infinity: int, path: seq<int>) {
    if path == [] then forall p :: Joins(g, p, u, v) ==> infinity <= Cost(g, p)
    else
      && Joins(g, path, u, v) && Cost(g, path) < infinity
      && forall p :: Joins(g, p, u, v) ==> Cost(g, path) <= Cost(g, p)
  }

  /** The path is the route the run holds, if it holds one. */
  ghost predicate IsRoute(g: Graph, start: int, infinity: int, order: seq<int>, v: int, path: seq<int>) {
    && NearestFirst(g, start, infinity, order)
    && path == if Reached(g, start, infinity, order, v) then Route(g, start, infinity, order, v) else []
  }

  lemma RouteIsShortest(g: Graph, start: int, infinity: int, order: seq<int>, v: int, path: seq<int>)
    requires Closed(g) && NonNegative(g) && 0 <= infinity
    requires IsRoute(g, start, infinity, order, v, path)
    requires Finished(g, Distances(g, start, infinity, order), infinity, order)
    requires v in g && v != start
    ensures IsShortest(g, start, v, infinity, path)
  {
    DistancesAreShortest(g, start, infinity, order, v);
    hide Distances, Route, IsNearest, Finished, Joins, Cost;
  }

  /** There is one way from the start to a node on which each node is preceded by the one who gave it its
      distance. */
  lemma {:induction false} OneWay(g: Graph, start: int, infinity: int, order: seq<int>, p: seq<int>, q: seq<int>)
    requires forall i :: 0 <= i < |order| ==> order[i] in g
    requires FollowsPrevious(g, start, infinity, order, p) && FollowsPrevious(g, start, infinity, order, q)
    requires |p| > 0 && |q| > 0 && p[0] == q[0] == start && p[|p| - 1] == q[|q| - 1]
    ensures p == q
    decreases |p|
  {
    hide Distances, LastChange, Reached, Previous;
    if |p| > 1 {
      assert Gave(g, start, infinity, order, p[|p| - 2], p[(|p| - 2) + 1]);
    }
    if |q| > 1 {
      assert Gave(g, start, infinity, order, q[|q| - 2], q[(|q| - 2) + 1]);
    }
    if |p| > 1 && |q| > 1 {
      OneWay(g, start, infinity, order, p[..|p| - 1], q[..|q| - 1]);
      assert p == p[..|p| - 1] + [p[|p| - 1]] && q == q[..|q| - 1] + [q[|q| - 1]];
    }
  }

  /** That way is a cheapest walk. */
  lemma TheWayIsShortest(g: Graph, start: int, infinity: int, order: seq<int>, p: seq<int>)
    requires Closed(g) && NonNegative(g) && 0 <= infinity && NearestFirst(g, start, infinity, order)
    requires Finished(g, Distances(g, start, infinity, order), infinity, order)
    requires |p| > 1 && p[0] == start && FollowsPrevious(g, start, infinity, order, p)
    ensures IsShortest(g, start, p[|p| - 1], infinity, p)
  {
    hide Distances, Finished, IsNearest, LastChange, Previous, IsShortest, Route;
    var v := p[|p| - 1];
    assert Gave(g, start, infinity, order, p[|p| - 2], p[(|p| - 2) + 1]);
    RouteFollowsPrevious(g, start, infinity, order, v);
    RouteCostsDistance(g, start, infinity, order, v);
    var q := Route(g, start, infinity, order, v);
    OneWay(g, start, infinity, order, p, q);
    RouteIsShortest(g, start, infinity, order, v, q);
  }

  lemma {:induction false} CostsAreNonNegative(g: Graph, p: seq<int>)
    requires NonNegative(g) && IsWalk(g, p)
    ensures 0 <= Cost(g, p)
    decreases |p|
  {
    if |p| > 1 {
      var u, v := p[|p| - 2], p[|p| - 1];
      assert p[(|p| - 2) + 1] == v && u in g && v in g[u];
      CostsAreNonNegative(g, p[..|p| - 1]);
    }
  }

  /** A graph of two nodes is never searched: its answer is the link between them, right exactly when
      there is one below infinity. */
  lemma TwoNodeShortcut(g: Graph, u: int, v: int, infinity: int)
    requires Closed(g) && NonNegative(g) && u != v && g.Keys == {u, v}
    ensures IsShortest(g, u, v, infinity, [u, v]) <==> v in g[u] && g[u][v] < infinity
  {
    if v in g[u] {
      StandStill(g, u, infinity);
      WalkOn(g, [u], v);
      assert [u] + [v] == [u, v];
      forall p | Joins(g, p, u, v) ensures g[u][v] <= Cost(g, p) {
        var q := p[..|p| - 1];
        assert p[(|p| - 2) + 1] in g[p[|p| - 2]];
        assert p[|p| - 2] in g.Keys;
        CostsAreNonNegative(g, q);
      }
    } else {
      var p := [u, v];
      assert p[0] == u && p[0 + 1] == v;
    }
  }

  // ----- links -----

  /** `g` with a link from `u` to `v`. */
  function WithHalf(g: Graph, u: int, v: int, weight: int): Graph {
    g[u := (if u in g then g[u] else map[])[v := weight]]
  }

  function WithLink(g: Graph, u: int, v: int, weight: int): Graph {
    WithHalf(WithHalf(g, u, v, weight), v, u, weight)
  }

  /** Linking two nodes links them both ways, and changes no other link. */
  lemma LinkAdds(g: Graph, u: int, v: int, weight: int, x: int, y: int)
    requires u != v
    ensures var h := WithLink(g, u, v, weight);
            && h.Keys == g.Keys + {u, v}
            && (x in h ==>
                  && (y in h[x] <==> (x in g && y in g[x]) || (x == u && y == v) || (x == v && y == u))
                  && (y in h[x] ==> h[x][y] == if (x == u && y == v) || (x == v && y == u) then weight else g[x][y]))
  {
  }

  lemma LinkKeepsShape(g: Graph, u: int, v: int, weight: int)
    requires Closed(g) && Symmetric(g) && u != v
    ensures Closed(WithLink(g, u, v, weight)) && Symmetric(WithLink(g, u, v, weight))
  {
    var h := WithLink(g, u, v, weight);
    LinkAdds(g, u, v, weight, u, v);
    forall x, y | x in h && y in h[x] ensures y in h && y != x && x in h[y] && h[y][x] == h[x][y] {
      LinkAdds(g, u, v, weight, x, y);
      LinkAdds(g, u, v, weight, y, x);
    }
  }

  /** A node without links is on no walk but its own. */
  lemma NodeJoinsNothing(g: Graph, node: int, p: seq<int>)
    requires Closed(g) && node !in g
    ensures IsWalk(g[node := map[]], p) <==> p == [node] || IsWalk(g, p)
  {
    if IsWalk(g[node := map[]], p) {
      if |p| > 1 {
        WalksInside(g, node, p);
      } else {
        assert p == [p[0]];
      }
    }
  }

  lemma LinkInside(g: Graph, u: int, v: int)
    requires Closed(g) && u in g && v in g[u]
    ensures v in g
  {
  }

  lemma StepInside(g: Graph, node: int, p: seq<int>, j: nat)
    requires Closed(g) && node !in g && IsWalk(g[node := map[]], p) && j + 1 < |p|
    ensures p[j] in g && p[j + 1] in g[p[j]] && p[j + 1] in g
  {
    var h := g[node := map[]];
    assert p[j + 1] in h[p[j]];
    assert h[p[j]] != map[];
    LinkInside(g, p[j], p[j + 1]);
  }

  lemma WalksInside(g: Graph, node: int, p: seq<int>)
    requires Closed(g) && node !in g && IsWalk(g[node := map[]], p) && |p| > 1
    ensures IsWalk(g, p)
  {
    forall j | 0 <= j < |p| ensures p[j] in g {
      StepInside(g, node, p, if j == 0 then 0 else j - 1);
    }
    forall j | 0 <= j < |p| - 1 ensures p[j + 1] in g[p[j]] {
      StepInside(g, node, p, j);
    }
  }

  lemma NodeAdded(g: Graph, h: Graph, node: int)
    requires node !in g && h.Keys == g.Keys + {node} && h[node] == map[]
    requires forall u :: u in g ==> h[u] == g[u]
    ensures h == g[node := map[]]
  {
    var k := g[node := map[]];
    assert h.Keys == k.Keys;
    assert forall u :: u in h ==> h[u] == k[u];
  }

  lemma ThreeInARow() returns (g: Graph)
    ensures g == map[1 := map[2 := 0], 2 := map[1 := 0, 3 := 5], 3 := map[2 := 5]]
    ensures Closed(g) && NonNegative(g) && IsShortest(g, 1, 3, 100, [1, 2, 3]) && Cost(g, [1, 2, 3]) == 5
  {
    g := map[1 := map[2 := 0], 2 := map[1 := 0, 3 := 5], 3 := map[2 := 5]];
    StandStill(g, 1, 100);
    WalkOn(g, [1], 2);
    WalkOn(g, [1, 2], 3);
    assert [1] + [2] == [1, 2] && [1, 2] + [3] == [1, 2, 3];
    forall p | Joins(g, p, 1, 3) ensures 5 <= Cost(g, p) {
      assert p[(|p| - 2) + 1] in g[p[|p| - 2]];
      assert p[|p| - 2] == 2;
      CostsAreNonNegative(g, p[..|p| - 1]);
    }
  }

  lemma OneStep(g: Graph, u: int, v: int)
    requires u in g && v in g && v in g[u]
    ensures Joins(g, [u, v], u, v) && Cost(g, [u, v]) == g[u][v]
  {
    StandStill(g, u, 0);
    WalkOn(g, [u], v);
    assert [u] + [v] == [u, v];
  }

  /** An answer from a matrix made before a link was added can be wrong for the graph with the link. */
  lemma StaleExample() returns (g: Graph, h: Graph)
    ensures g == map[1 := map[2 := 0], 2 := map[1 := 0, 3 := 5], 3 := map[2 := 5]] && h == WithLink(g, 1, 3, 1)
    ensures Closed(g) && NonNegative(g) && IsShortest(g, 1, 3, 100, [1, 2, 3]) && !IsShortest(h, 1, 3, 100, [1, 2, 3])
  {
    g := ThreeInARow();
    h := WithLink(g, 1, 3, 1);
    OneStep(h, 1, 3);
    OneStep(h, 1, 2);
    WalkOn(h, [1, 2], 3);
    assert [1, 2] + [3] == [1, 2, 3];
  }

  /** A graph of two nodes without a link between them gets an answer all the same. */
  lemma TwoNodeExample() returns (g: Graph)
    ensures g == map[1 := map[], 2 := map[]] && Closed(g) && Answers(g, 1, 2, 100, [1, 2], true)
    ensures !IsShortest(g, 1, 2, 100, [1, 2])
  {
    g := map[1 := map[], 2 := map[]];
    assert g.Keys == {1, 2};
    TwoNodeShortcut(g, 1, 2, 100);
  }

  /** What GetShortestPath says of two nodes. */
  ghost predicate Answers(g: Graph, u: int, v: int, infinity: int, path: seq<int>, result: bool) {
    if u == v then result && path == [u, v]
    else if |g.Keys| < 2 || v !in g then !result && path == []
    else if |g.Keys| == 2 then result && path == [u, v]
    else result && IsShortest(g, u, v, infinity, path)
  }

  class WeightedGraph {
    var adjacencyLists: Graph
    var isValidPath: bool
    var rootNode: int
    var costMatrixIndices: seq<int>
    var costMatrix: array2?<int>
    var leastNodeArray: array?<int>
    /** The graph the matrix was made for, and the nodes relaxed by the run in it. */
    ghost var traced: Graph
    ghost var order: seq<int>

    constructor ()
      ensures Valid() && adjacencyLists == map[] && !isValidPath
    {
      adjacencyLists := map[];
      isValidPath := false;
      costMatrixIndices := [];
      costMatrix := null;
      leastNodeArray := null;
    }

    ghost predicate Valid()
      reads this
    {
      && Closed(adjacencyLists) && Symmetric(adjacencyLists)
      && (isValidPath ==> costMatrix != null && leastNodeArray != null)
      && (!isValidPath ==> costMatrixIndices == [])
    }

    /** The cached matrix, if there is one, was made for this infinity and for a graph with the present nodes;
        its links may have been others, since adding a connection does not drop the cache. */
    ghost predicate CacheFits(infinity: int)
      reads this, costMatrix, leastNodeArray
    {
      MatrixFits(infinity, adjacencyLists.Keys)
    }

    ghost predicate MatrixFits(infinity: int, nodes: set<int>)
      reads this`isValidPath, this`rootNode, this`costMatrixIndices, this`costMatrix, this`leastNodeArray, this`traced
      reads this`order, costMatrix, leastNodeArray
    {
      isValidPath ==>
        && costMatrix != null && leastNodeArray != null
        && traced.Keys == nodes && Closed(traced) && NonNegative(traced)
        && costMatrixIndices == InOrder(nodes)
        && rootNode in nodes
        && (|nodes| >= 2 ==>
              Traced(costMatrix, leastNodeArray, costMatrixIndices, traced, rootNode, infinity, order))
    }

    /** A new node joins the graph, without links; nothing else changes. */
    method AddNode(node: int)
      requires node !in adjacencyLists
      modifies this`adjacencyLists
      ensures old(Valid()) ==> Valid()
      ensures adjacencyLists.Keys == old(adjacencyLists).Keys + {node} && adjacencyLists[node] == map[]
      ensures forall u :: u in old(adjacencyLists) ==> adjacencyLists[u] == old(adjacencyLists)[u]
    {
      adjacencyLists := adjacencyLists[node := map[]];
    }

    /** Link two nodes both ways, adding them if need be; a node is never linked to itself. */
    method AddConnection(node1: int, node2: int, weight: int)
      requires Valid()
      modifies this`adjacencyLists
      ensures Valid()
      ensures old(node1 in adjacencyLists && node2 in adjacencyLists) ==>
                forall infinity :: old(CacheFits(infinity)) ==> CacheFits(infinity)
      ensures adjacencyLists == if node1 == node2 then old(adjacencyLists)
                                else WithLink(old(adjacencyLists), node1, node2, weight)
    {
      hide Closed, Symmetric, MatrixFits, WithHalf;
      if node1 == node2 {
        return;
      }
      LinkKeepsShape(adjacencyLists, node1, node2, weight);
      LinkTo(node1, node2, weight);
      LinkTo(node2, node1, weight);
    }

    /** One direction of a link. */
    method LinkTo(node: int, other: int, weight: int)
      modifies this`adjacencyLists
      ensures adjacencyLists == WithHalf(old(adjacencyLists), node, other, weight)
      ensures adjacencyLists.Keys == old(adjacencyLists).Keys + {node}
      ensures old(node in adjacencyLists) ==> adjacencyLists.Keys == old(adjacencyLists).Keys
    {
      hide Closed, Symmetric;
      if node !in adjacencyLists {
        AddNode(node);
        NodeAdded(old(adjacencyLists), adjacencyLists, node);
      }
      adjacencyLists := adjacencyLists[node := adjacencyLists[node][other := weight]];
    }

    method ClearDijkstra()
      requires Valid()
      modifies this`isValidPath, this`costMatrixIndices
      ensures Valid() && !isValidPath
    {
      if isValidPath {
        isValidPath := false;
        costMatrixIndices := [];
      }
    }

    /** Make the matrix for paths from `startNode`. */
    method GenerateDisjktraMatrix(startNode: int, INFINITE_WEIGHT: int)
      requires Valid() && !isValidPath && NonNegative(adjacencyLists) && 0 <= INFINITE_WEIGHT
      requires adjacencyLists != map[] ==> startNode in adjacencyLists
      modifies this`isValidPath, this`rootNode, this`costMatrixIndices, this`costMatrix, this`leastNodeArray
      modifies this`traced, this`order
      ensures Valid() && CacheFits(INFINITE_WEIGHT)
      ensures isValidPath <==> adjacencyLists != map[]
      ensures isValidPath ==> rootNode == startNode && traced == adjacencyLists
    {
      hide InOrder, Traced, Closed, Symmetric, NonNegative, CacheFits;
      if |adjacencyLists| == 0 {
        NothingCached(INFINITE_WEIGHT);
        return;
      }
      assert startNode in adjacencyLists;
      costMatrixIndices := InOrder(adjacencyLists.Keys);
      costMatrix, leastNodeArray, order := GenerateMatrix(adjacencyLists, startNode, INFINITE_WEIGHT);
      traced := adjacencyLists;
      rootNode := startNode;
      isValidPath := true;
      JustCached(INFINITE_WEIGHT);
    }

    lemma NothingCached(infinity: int)
      requires !isValidPath
      ensures CacheFits(infinity)
    {
    }

    lemma JustCached(infinity: int)
      requires isValidPath && costMatrix != null && leastNodeArray != null
      requires traced == adjacencyLists && Closed(traced) && NonNegative(traced) && rootNode in traced
      requires costMatrixIndices == InOrder(adjacencyLists.Keys)
      requires |adjacencyLists.Keys| >= 2 ==>
                 Traced(costMatrix, leastNodeArray, costMatrixIndices, traced, rootNode, infinity, order)
      ensures CacheFits(infinity)
    {
      hide Traced, Closed, NonNegative, InOrder;
    }

    /** The graph that a query from this node is answered for. */
    ghost function Asked(startNode: int): Graph
      reads this
    {
      if isValidPath && rootNode == startNode then traced else adjacencyLists
    }

    /** The shortest path between two nodes, from the cached matrix if it starts at the right node: then it is a
        shortest path of the graph that the matrix was made for. */
    method GetShortestPath(startNode: int, endNode: int, INFINITE_WEIGHT: int) returns (path: seq<int>, result: bool)
      requires Valid() && NonNegative(adjacencyLists) && 0 <= INFINITE_WEIGHT
      requires startNode != endNode && adjacencyLists != map[] ==> startNode in adjacencyLists
      requires rootNode == startNode ==> CacheFits(INFINITE_WEIGHT)
      modifies this`isValidPath, this`rootNode, this`costMatrixIndices, this`costMatrix, this`leastNodeArray
      modifies this`traced, this`order
      ensures Valid() && Answers(old(Asked(startNode)), startNode, endNode, INFINITE_WEIGHT, path, result)
      // the cache
      ensures rootNode == startNode ==> CacheFits(INFINITE_WEIGHT)
      ensures old(isValidPath && rootNode == startNode) ==> isValidPath && rootNode == startNode && order == old(order)
      ensures startNode != endNode && adjacencyLists != map[] ==> isValidPath && rootNode == startNode
      ensures Asked(startNode) == old(Asked(startNode))
      ensures startNode != endNode && |adjacencyLists.Keys| > 2 && endNode in adjacencyLists ==>
                IsRoute(Asked(startNode), startNode, INFINITE_WEIGHT, order, endNode, path)
    {
      hide InOrder, Route, Distances, IsNearest, Traced, IsShortest, IsRoute, Closed, Symmetric, NonNegative;
      path := [];
      if startNode == endNode {
        return [startNode, endNode], true;
      }
      if !isValidPath || rootNode != startNode {
        ClearDijkstra();
        GenerateDisjktraMatrix(startNode, INFINITE_WEIGHT);
      }
      path, result := ReadAnswer(startNode, endNode, INFINITE_WEIGHT);
    }

    /** The answer from the cached matrix (DS_WeightedGraph.h:242-301). */
    method ReadAnswer(startNode: int, endNode: int, INFINITE_WEIGHT: int) returns (path: seq<int>, result: bool)
      requires CacheFits(INFINITE_WEIGHT) && 0 <= INFINITE_WEIGHT && startNode != endNode
      requires if isValidPath then rootNode == startNode else costMatrixIndices == [] && adjacencyLists == map[]
      ensures Answers(if isValidPath then traced else adjacencyLists, startNode, endNode, INFINITE_WEIGHT, path, result)
      ensures |adjacencyLists.Keys| > 2 && endNode in adjacencyLists ==>
                isValidPath && IsRoute(traced, startNode, INFINITE_WEIGHT, order, endNode, path)
    {
      hide InOrder, Route, Distances, IsNearest, Filled, History, IsShortest, Closed, NonNegative;
      if |costMatrixIndices| < 2 {
        return [], false;
      }
      var objectExists := endNode in adjacencyLists;
      if !objectExists {
        return [], false;
      }
      if |costMatrixIndices| - 2 == 0 {
        return [startNode, endNode], true;
      }
      path := ReadPath(costMatrix, leastNodeArray, costMatrixIndices, traced, startNode, endNode,
                       INFINITE_WEIGHT, order);
      RouteIsShortest(traced, startNode, INFINITE_WEIGHT, order, endNode, path);
      result := true;
    }
  }
}
