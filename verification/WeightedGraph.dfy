/** The weighted graph of `DS_WeightedGraph.h` with its cached cost matrix. */
module WeightedGraphs {

  import opened Collections
  import opened ShortestPaths
  import opened OrderedLists
  import opened Heaps

  ghost predicate Symmetric(g: Graph) {
    forall u, v :: u in g && v in g[u] ==> v in g && u in g[v] && g[v][u] == g[u][v]
  }

  /** The matrix with its finished rows above and the distances `d` in all rows from there on. */
  ghost predicate Filled(m: array2<int>, keys: seq<int>, rows: seq<Row>, d: Row)
    reads m
  {
    && m.Length0 == m.Length1 == |keys|
    && (forall row, col :: 0 <= row < |keys| && row < |rows| && 0 <= col < |keys| ==>
          keys[col] in rows[row] && m[row, col] == rows[row][keys[col]])
    && (forall col :: 0 <= col < |keys| ==> keys[col] in d)
    && (forall row, col :: |rows| <= row < |keys| && 0 <= col < |keys| ==> m[row, col] == d[keys[col]])
  }

  /** Does `openSet` hold the open nodes with their distances, `u` being relaxed? */
  ghost predicate HoldsOpen(openSet: map<int, int>, d: Row, infinity: int, order: seq<int>, u: int) {
    && (forall v :: v in openSet <==> v != u && Open(d, infinity, order, v))
    && (forall v :: v in openSet ==> openSet[v] == d[v])
  }

  /** The distances with `v`'s lowered to `w`, if that is lower. */
  ghost function Improved(e: Row, v: int, w: int): Row
    requires v in e
  {
    if w < e[v] then e[v := w] else e
  }

  /** Relaxing one more link of `u`. */
  lemma RelaxOne(g: Graph, d: Row, u: int, among: set<int>, v: int)
    requires IsRow(g, d) && u in g && v in g[u] && v !in among && v in g
    ensures v in Relaxed(g, d, u, among) && Relaxed(g, d, u, among)[v] == d[v]
    ensures Relaxed(g, d, u, among + {v}) == Improved(Relaxed(g, d, u, among), v, d[u] + g[u][v])
  {
  }

  lemma RelaxNone(g: Graph, d: Row, u: int)
    requires IsRow(g, d) && u in g
    ensures Relaxed(g, d, u, {}) == d
  {
  }

  /** No link of `u` improves a relaxed node, nor `u` itself. */
  ghost predicate LeavesSettled(g: Graph, d: Row, order: seq<int>, u: int)
    requires IsRow(g, d) && u in g
  {
    forall v :: v in g[u] && v in d && v in order + [u] ==> d[v] <= d[u] + g[u][v]
  }

  lemma SettledIsLeft(g: Graph, d: Row, order: seq<int>, u: int)
    requires IsRow(g, d) && u in g
    requires forall v :: v in g && v in order + [u] ==> Relaxed(g, d, u, g[u].Keys)[v] == d[v]
    ensures LeavesSettled(g, d, order, u)
  {
  }

  /** A distance improved enters the open set. */
  lemma OpenGrows(openSet: map<int, int>, d: Row, infinity: int, order: seq<int>, u: int, v: int, w: int)
    requires HoldsOpen(openSet, d, infinity, order, u)
    requires v in d && v !in order + [u] && w < infinity
    ensures HoldsOpen(openSet[v := w], d[v := w], infinity, order, u)
  {
    assert u in order + [u];
  }

  /** What one turn of the loop over the links of `u` needs to know and has to do. */
  lemma LinkReady(g: Graph, d: Row, infinity: int, order: seq<int>, u: int, links: seq<int>, col: nat)
    requires Closed(g) && u in g && links == InOrder(g[u].Keys) && col < |links|
    requires IsRow(g, d) && LeavesSettled(g, d, order, u) && forall v :: v in d ==> d[v] <= infinity
    ensures links[col] in g[u] && links[col] in g
    ensures var v, e := links[col], Relaxed(g, d, u, FirstOf(links, col));
            && v in e && (d[u] + g[u][v] < e[v] ==> v !in order + [u] && d[u] + g[u][v] < infinity)
            && Relaxed(g, d, u, FirstOf(links, col + 1)) == Improved(e, v, d[u] + g[u][v])
  {
    hide InOrder, FirstOf, Relaxed, Improved;
    ListingKeys(g[u].Keys, col);
    RelaxOne(g, d, u, FirstOf(links, col), links[col]);
  }

  /** Relax the links of `u`, writing improved distances into all rows from `row` on. */
  method RelaxLinks(m: array2<int>, keys: seq<int>, g: Graph, row: nat, u: int, uWeight: int,
                    openSet: map<int, int>, ghost infinity: int, ghost order: seq<int>, ghost rows: seq<Row>,
                    ghost d: Row)
    returns (openSet': map<int, int>)
    requires Closed(g) && u in g && row == |rows| < |keys| && keys == InOrder(g.Keys)
    requires IsRow(g, d) && uWeight == d[u] && LeavesSettled(g, d, order, u)
    requires forall v :: v in d ==> d[v] <= infinity
    requires Filled(m, keys, rows, d) && HoldsOpen(openSet, d, infinity, order, u)
    modifies m
    ensures Filled(m, keys, rows, Relaxed(g, d, u, g[u].Keys))
    ensures HoldsOpen(openSet', Relaxed(g, d, u, g[u].Keys), infinity, order, u)
  {
    hide *;
    openSet' := openSet;
    var links := InOrder(g[u].Keys);
    ghost var e: Row := d;
    ListingKeys(g[u].Keys, |links|);
    RelaxNone(g, d, u);
    var col := 0;
    while col < |links|
      invariant 0 <= col <= |links|
      invariant e == Relaxed(g, d, u, FirstOf(links, col))
      invariant Filled(m, keys, rows, e)
      invariant HoldsOpen(openSet', e, infinity, order, u)
    {
      LinkReady(g, d, infinity, order, u, links, col);
      var adjacentKey := links[col];
      openSet', e := RelaxLink(m, keys, row, adjacentKey, uWeight + g[u][adjacentKey], openSet',
                               infinity, order, u, rows, e);
      col := col + 1;
    }
  }

  /** One turn of the loop over the links: if `w` is an improvement, write it down. */
  method RelaxLink(m: array2<int>, keys: seq<int>, row: nat, adjacentKey: int, w: int, openSet: map<int, int>,
                   ghost infinity: int, ghost order: seq<int>, ghost u: int, ghost rows: seq<Row>, ghost e: Row)
    returns (openSet': map<int, int>, ghost e': Row)
    requires row == |rows| < |keys| && adjacentKey in keys && adjacentKey in e
    requires forall i, j :: 0 <= i < j < |keys| ==> keys[i] < keys[j]
    requires w < e[adjacentKey] ==> adjacentKey !in order + [u] && w < infinity
    requires Filled(m, keys, rows, e) && HoldsOpen(openSet, e, infinity, order, u)
    modifies m
    ensures e' == Improved(e, adjacentKey, w)
    ensures Filled(m, keys, rows, e') && HoldsOpen(openSet', e', infinity, order, u)
  {
    openSet', e' := openSet, e;
    var adjacentIndex := IndexOf(keys, adjacentKey);
    if w < m[row, adjacentIndex] {
      WriteDown(m, row, adjacentIndex, w);
      OpenGrows(openSet, e, infinity, order, u, adjacentKey, w);
      e' := e[adjacentKey := w];
      openSet' := openSet[adjacentKey := w];
    }
  }

  /** Write `value` into one column, from `row` down. */
  method WriteDown(m: array2<int>, row: nat, col: nat, value: int)
    requires row <= m.Length0 && col < m.Length1
    modifies m
    ensures forall i, j :: 0 <= i < m.Length0 && 0 <= j < m.Length1 ==>
              m[i, j] == if row <= i && j == col then value else old(m[i, j])
  {
    var row2 := row;
    while row2 < m.Length0
      invariant row <= row2 <= m.Length0
      invariant forall i, j :: 0 <= i < m.Length0 && 0 <= j < m.Length1 ==>
                  m[i, j] == if row <= i < row2 && j == col then value else old(m[i, j])
    {
      m[row2, col] := value;
      row2 := row2 + 1;
    }
  }

  /** The heap nodes of the first entries of the open set. */
  ghost function NodesOf(openSet: map<int, int>, keys: seq<int>): (nodes: seq<HeapNode<int>>)
    requires forall j :: 0 <= j < |keys| ==> keys[j] in openSet
    ensures |nodes| == |keys|
  {
    seq(|keys|, j requires 0 <= j < |keys| => HeapNode(openSet[keys[j]], keys[j]))
  }

  /** Push the whole open set on a heap. */
  method FillHeap(openSet: map<int, int>, keys: seq<int>) returns (minHeap: Heap<int>)
    requires forall j :: 0 <= j < |keys| ==> keys[j] in openSet
    ensures fresh(minHeap) && !minHeap.isMaxHeap
    ensures Ordered(false, minHeap.heap) && multiset(minHeap.heap) == multiset(NodesOf(openSet, keys))
  {
    minHeap := new Heap<int>(false);
    assert keys[..0] == [];
    var i := 0;
    while i < |keys|
      invariant 0 <= i <= |keys|
      invariant Ordered(false, minHeap.heap)
      invariant multiset(minHeap.heap) == multiset(NodesOf(openSet, keys[..i]))
    {
      PushAddsNode(false, minHeap.heap, HeapNode(openSet[keys[i]], keys[i]));
      assert NodesOf(openSet, keys[..i + 1]) ==
             NodesOf(openSet, keys[..i]) + [HeapNode(openSet[keys[i]], keys[i])];
      hide NodesOf, Pushed, Ordered;
      minHeap.Push(openSet[keys[i]], keys[i]);
      i := i + 1;
    }
    assert keys[..i] == keys;
  }

  /** Take the lightest entry of the open set, by way of a heap. */
  method Lightest(openSet: map<int, int>) returns (found: bool, weight: int, node: int)
    ensures found <==> openSet != map[]
    ensures found ==> node in openSet && weight == openSet[node]
    ensures found ==> forall v :: v in openSet ==> weight <= openSet[v]
  {
    hide Ordered, Popped, NodesOf, InOrder;
    var keys := InOrder(openSet.Keys);
    var minHeap := FillHeap(openSet, keys);
    HeapOfOpenSet(openSet, keys, minHeap.heap);
    if |minHeap.heap| == 0 {
      return false, 0, 0;
    }
    found := true;
    weight := minHeap.PeekWeight(0);
    assert minHeap.heap[0] in minHeap.heap;
    forall v | v in openSet ensures weight <= openSet[v] {
      assert HeapNode(openSet[v], v) in minHeap.heap;
    }
    node := minHeap.Pop(0);
  }

  /** A heap filled from the open set holds one node per entry. */
  lemma HeapOfOpenSet(openSet: map<int, int>, keys: seq<int>, heap: seq<HeapNode<int>>)
    requires keys == InOrder(openSet.Keys) && multiset(heap) == multiset(NodesOf(openSet, keys))
    ensures heap == [] <==> openSet == map[]
    ensures forall x :: x in heap ==> x.data in openSet && x.weight == openSet[x.data]
    ensures forall v :: v in openSet ==> HeapNode(openSet[v], v) in heap
  {
    hide InOrder;
    var nodes := NodesOf(openSet, keys);
    assert |heap| == |multiset(heap)| == |multiset(nodes)| == |keys|;
    forall x | x in heap ensures x in nodes {
      assert x in multiset(heap);
    }
    forall v | v in openSet ensures HeapNode(openSet[v], v) in heap {
      var j :| 0 <= j < |keys| && keys[j] == v;
      assert nodes[j] in multiset(nodes);
      assert nodes[j] in multiset(heap);
    }
  }

  // ----- the run of the algorithm -----

  /** The row written by each step of the run. */
  ghost function History(g: Graph, start: int, infinity: int, order: seq<int>): (rows: seq<Row>)
    requires forall i :: 0 <= i < |order| ==> order[i] in g
    ensures |rows| == |order|
  {
    seq(|order|, k requires 0 <= k < |order| => Distances(g, start, infinity, order[..k + 1]))
  }

  /** `u` is what the run relaxes next. */
  ghost predicate IsNext(g: Graph, start: int, infinity: int, order: seq<int>, u: int) {
    && (forall i :: 0 <= i < |order| ==> order[i] in g)
    && u in g
    && if order == [] then u == start
       else NearestFirst(g, start, infinity, order) && IsNearest(g, start, infinity, order, u)
  }

  lemma NextIsNearestFirst(g: Graph, start: int, infinity: int, order: seq<int>, u: int)
    requires IsNext(g, start, infinity, order, u)
    ensures NearestFirst(g, start, infinity, order + [u])
    ensures Distances(g, start, infinity, order + [u]) ==
            Relaxed(g, Distances(g, start, infinity, order), u, g[u].Keys)
  {
    var next := order + [u];
    assert next[..|order|] == order;
    forall i | 0 < i < |next| ensures IsNearest(g, start, infinity, next[..i], next[i]) {
      assert next[..i] == order[..i];
      assert order[..|order|] == order;
    }
  }

  /** Before a node is relaxed: no distance above infinity, and no settled node in its reach. */
  lemma BeforeRelaxing(g: Graph, start: int, infinity: int, order: seq<int>, u: int)
    requires Closed(g) && NonNegative(g) && 0 <= infinity && start in g
    requires IsNext(g, start, infinity, order, u)
    ensures forall v :: v in g ==> Distances(g, start, infinity, order)[v] <= infinity
    ensures LeavesSettled(g, Distances(g, start, infinity, order), order, u)
  {
    var d := Distances(g, start, infinity, order);
    if order == [] {
      UnreachedIsSettled(g, start, infinity);
    } else {
      RunSettles(g, start, infinity, order);
    }
    NextIsNearestFirst(g, start, infinity, order, u);
    RunStep(g, start, infinity, order + [u], |order|);
    assert (order + [u])[..|order|] == order;
    assert (order + [u])[..|order| + 1] == order + [u];
    hide Distances, NearestFirst, IsNearest;
    SettledIsLeft(g, d, order, u);
  }

  lemma HistoryNext(g: Graph, start: int, infinity: int, order: seq<int>, u: int)
    requires forall i :: 0 <= i < |order| ==> order[i] in g
    requires u in g
    ensures History(g, start, infinity, order + [u]) ==
            History(g, start, infinity, order) + [Distances(g, start, infinity, order + [u])]
  {
    hide Distances;
    var rows := History(g, start, infinity, order);
    var next := History(g, start, infinity, order + [u]);
    assert (order + [u])[..|order| + 1] == order + [u];
    forall k | 0 <= k < |order| ensures next[k] == rows[k] {
      assert (order + [u])[..k + 1] == order[..k + 1];
    }
  }

  /** Once a node is relaxed, its row of the matrix is finished. */
  lemma RowFinished(m: array2<int>, keys: seq<int>, rows: seq<Row>, e: Row)
    requires Filled(m, keys, rows, e) && |rows| < |keys|
    ensures Filled(m, keys, rows + [e], e)
  {
    var next := rows + [e];
    forall row, col | 0 <= row < |keys| && row < |next| && 0 <= col < |keys|
      ensures keys[col] in next[row] && m[row, col] == next[row][keys[col]]
    {
      assert row < |rows| ==> next[row] == rows[row];
    }
  }

  /** The open set lists what is open after `u` is relaxed. */
  lemma OpenAfter(openSet: map<int, int>, e: Row, infinity: int, order: seq<int>, u: int, v: int)
    requires HoldsOpen(openSet, e, infinity, order, u)
    ensures forall x :: x in openSet <==> Open(e, infinity, order + [u], x)
    ensures v in openSet ==> HoldsOpen(openSet - {v}, e, infinity, order + [u], v)
  {
    assert forall x :: x in order + [u] <==> x in order || x == u;
  }

  /** The open set after relaxing `u` decides what is relaxed next. */
  lemma NextIsLightest(g: Graph, start: int, infinity: int, order: seq<int>, u: int, openSet: map<int, int>, v: int)
    requires IsNext(g, start, infinity, order, u)
    requires HoldsOpen(openSet, Distances(g, start, infinity, order + [u]), infinity, order, u)
    ensures v in openSet ==> v in g && openSet[v] == Distances(g, start, infinity, order + [u])[v]
    ensures openSet == map[] ==>
              Finished(g, Distances(g, start, infinity, order + [u]), infinity, order + [u])
    ensures v in openSet && (forall x :: x in openSet ==> openSet[v] <= openSet[x]) ==>
              && IsNext(g, start, infinity, order + [u], v)
              && HoldsOpen(openSet - {v}, Distances(g, start, infinity, order + [u]), infinity, order + [u], v)
  {
    NextIsNearestFirst(g, start, infinity, order, u);
    var e := Distances(g, start, infinity, order + [u]);
    OpenAfter(openSet, e, infinity, order, u, v);
    hide Distances, NearestFirst;
    if v in openSet {
      assert Open(e, infinity, order + [u], v);
    }
  }

  /** When all nodes but one are relaxed, the run is finished. */
  lemma AllButOne(g: Graph, start: int, infinity: int, order: seq<int>)
    requires Closed(g) && NonNegative(g) && 0 <= infinity
    requires NearestFirst(g, start, infinity, order) && |order| >= |g.Keys| - 1
    ensures Finished(g, Distances(g, start, infinity, order), infinity, order)
  {
    hide Distances, IsNearest, Settled, Closed, NonNegative;
    RunSettles(g, start, infinity, order);
    DistinctCardinality(order);
    var done := set x | x in order;
    forall u, v | u in g && v in g && u !in order && v !in order ensures u == v {
      if u != v {
        assert done + {u, v} <= g.Keys;
        SubsetCardinality(done + {u, v}, g.Keys);
      }
    }
  }

  // ----- the matrix -----

  /** The cached matrix holds a finished run for the graph `g`. */
  ghost predicate Traced(m: array2<int>, least: array<int>, keys: seq<int>, g: Graph, start: int, infinity: int,
                         order: seq<int>)
    reads m, least
  {
    && keys == InOrder(g.Keys)
    && least.Length == |keys| > |order|
    && NearestFirst(g, start, infinity, order)
    && Finished(g, Distances(g, start, infinity, order), infinity, order)
    && Filled(m, keys, History(g, start, infinity, order), Distances(g, start, infinity, order))
    && (forall k :: 0 <= k < |order| - 1 ==> least[k] == order[k + 1])
  }

  lemma TracedRun(m: array2<int>, least: array<int>, keys: seq<int>, g: Graph, start: int, infinity: int,
                  order: seq<int>)
    requires Traced(m, least, keys, g, start, infinity, order)
    ensures NearestFirst(g, start, infinity, order)
    ensures forall i :: 0 <= i < |order| ==> order[i] in g
  {
  }

  /** The cost matrix and the array of least nodes before the first row. */
  method BlankMatrix(g: Graph, startNode: int, INFINITE_WEIGHT: int) returns (m: array2<int>, least: array<int>)
    requires startNode in g
    ensures fresh(m) && fresh(least) && least.Length == |g.Keys|
    ensures Filled(m, InOrder(g.Keys), [], Unreached(g, startNode, INFINITE_WEIGHT))
  {
    hide InOrder;
    var keys := InOrder(g.Keys);
    m := new int[|keys|, |keys|]((i, j) => INFINITE_WEIGHT);
    least := new int[|keys|];
    var adjacentIndex := IndexOf(keys, startNode);
    WriteDown(m, 0, adjacentIndex, 0);
    forall col | 0 <= col < |keys| ensures keys[col] in g {
      assert keys[col] in keys;
    }
  }

  /** The state of the run before `u`, at distance `w`, is relaxed. */
  ghost predicate Running(m: array2<int>, keys: seq<int>, g: Graph, start: int, infinity: int, order: seq<int>,
                          u: int, w: int, openSet: map<int, int>)
    reads m
  {
    && IsNext(g, start, infinity, order, u)
    && var d := Distances(g, start, infinity, order);
       && w == d[u]
       && Filled(m, keys, History(g, start, infinity, order), d)
       && HoldsOpen(openSet, d, infinity, order, u)
  }

  /** Relax one node and choose the next. */
  method RelaxNode(m: array2<int>, keys: seq<int>, g: Graph, ghost start: int, ghost infinity: int,
                   ghost order: seq<int>, row: nat, u: int, uWeight: int, openSet: map<int, int>)
    returns (openSet': map<int, int>, found: bool, weight: int, node: int)
    requires Closed(g) && NonNegative(g) && 0 <= infinity && start in g
    requires row == |order| < |keys| && keys == InOrder(g.Keys)
    requires Running(m, keys, g, start, infinity, order, u, uWeight, openSet)
    modifies m
    ensures NearestFirst(g, start, infinity, order + [u])
    ensures found ==> Running(m, keys, g, start, infinity, order + [u], node, weight, openSet')
    ensures !found ==>
              && Finished(g, Distances(g, start, infinity, order + [u]), infinity, order + [u])
              && Filled(m, keys, History(g, start, infinity, order + [u]), Distances(g, start, infinity, order + [u]))
  {
    hide InOrder, Relaxed, Filled, NearestFirst, IsNearest, Distances, Finished, LeavesSettled, HoldsOpen, History;
    BeforeRelaxing(g, start, infinity, order, u);
    NextIsNearestFirst(g, start, infinity, order, u);
    openSet' := RelaxLinks(m, keys, g, row, u, uWeight, openSet, infinity, order,
                           History(g, start, infinity, order), Distances(g, start, infinity, order));
    HistoryNext(g, start, infinity, order, u);
    RowFinished(m, keys, History(g, start, infinity, order), Distances(g, start, infinity, order + [u]));
    found, weight, node := Lightest(openSet');
    NextIsLightest(g, start, infinity, order, u, openSet', node);
    openSet' := openSet' - {node};
  }

  /** Relax node after node until none or only one is left. */
  method RelaxNodes(m: array2<int>, least: array<int>, keys: seq<int>, g: Graph, startNode: int,
                    ghost infinity: int)
    returns (ghost order: seq<int>)
    requires Closed(g) && NonNegative(g) && 0 <= infinity && startNode in g
    requires keys == InOrder(g.Keys) && |keys| >= 2 && least.Length == |keys|
    requires Running(m, keys, g, startNode, infinity, [], startNode, 0, map[])
    modifies m, least
    ensures Traced(m, least, keys, g, startNode, infinity, order)
  {
    hide InOrder, Filled, History, NearestFirst, IsNearest, Distances, Finished, Running, Closed, NonNegative;
    var currentNode, row, currentNodeWeight := startNode, 0, 0;
    var openSet: map<int, int> := map[];
    order := [];
    while row < |keys| - 1
      invariant 0 <= row == |order| < |keys|
      invariant Running(m, keys, g, startNode, infinity, order, currentNode, currentNodeWeight, openSet)
      invariant row > 0 ==> NearestFirst(g, startNode, infinity, order)
      invariant forall k :: 0 <= k < row ==> least[k] == if k + 1 < |order| then order[k + 1] else currentNode
    {
      var found, weight, node;
      openSet, found, weight, node :=
        RelaxNode(m, keys, g, startNode, infinity, order, row, currentNode, currentNodeWeight, openSet);
      order := order + [currentNode];
      if !found {
        return;
      }
      currentNodeWeight := weight;
      least[row] := node;
      currentNode := node;
      row := row + 1;
    }
    AllButOne(g, startNode, infinity, order);
    RunningIsFilled(m, keys, g, startNode, infinity, order, currentNode, currentNodeWeight, openSet);
  }

  method GenerateMatrix(g: Graph, startNode: int, INFINITE_WEIGHT: int)
    returns (m: array2<int>, least: array<int>, ghost order: seq<int>)
    requires Closed(g) && NonNegative(g) && 0 <= INFINITE_WEIGHT && startNode in g
    ensures fresh(m) && fresh(least)
    ensures |g.Keys| >= 2 ==> Traced(m, least, InOrder(g.Keys), g, startNode, INFINITE_WEIGHT, order)
  {
    hide *;
    var keys := InOrder(g.Keys);
    m, least := BlankMatrix(g, startNode, INFINITE_WEIGHT);
    NothingRelaxed(m, g, startNode, INFINITE_WEIGHT);
    order := [];
    if |keys| >= 2 {
      order := RelaxNodes(m, least, keys, g, startNode, INFINITE_WEIGHT);
    }
  }

  lemma NothingRelaxed(m: array2<int>, g: Graph, start: int, infinity: int)
    requires 0 <= infinity && start in g
    requires Filled(m, InOrder(g.Keys), [], Unreached(g, start, infinity))
    ensures Running(m, InOrder(g.Keys), g, start, infinity, [], start, 0, map[])
  {
    hide InOrder;
    assert History(g, start, infinity, []) == [];
  }

  lemma RunningIsFilled(m: array2<int>, keys: seq<int>, g: Graph, start: int, infinity: int, order: seq<int>,
                        u: int, w: int, openSet: map<int, int>)
    requires Running(m, keys, g, start, infinity, order, u, w, openSet)
    ensures forall i :: 0 <= i < |order| ==> order[i] in g
    ensures Filled(m, keys, History(g, start, infinity, order), Distances(g, start, infinity, order))
  {
  }

  // ----- reading a path out of the matrix -----

  lemma RowHolds(m: array2<int>, keys: seq<int>, g: Graph, start: int, infinity: int, order: seq<int>,
                 row: nat, col: nat)
    requires forall i :: 0 <= i < |order| ==> order[i] in g
    requires Filled(m, keys, History(g, start, infinity, order), Distances(g, start, infinity, order))
    requires row < |keys| && col < |keys| && keys[col] in g
    ensures m.Length0 == m.Length1 == |keys|
    ensures m[row, col] ==
            Distances(g, start, infinity, order[..if row < |order| then row + 1 else |order|])[keys[col]]
  {
    hide Distances;
    assert order[..|order|] == order;
  }

  /** Does the row tell that the distance of `v` in the first `q` steps has already been final by then? */
  lemma RowTells(m: array2<int>, keys: seq<int>, g: Graph, start: int, infinity: int, order: seq<int>,
                 q: nat, row: nat, col: nat)
    requires forall i :: 0 <= i < |order| ==> order[i] in g
    requires Filled(m, keys, History(g, start, infinity, order), Distances(g, start, infinity, order))
    requires row < |keys| && col < |keys| && keys[col] != start && q <= |order|
    requires Reached(g, start, infinity, order[..q], keys[col])
    requires q == |order| || row < q
    ensures m[row, col] == Distances(g, start, infinity, order[..q])[keys[col]] <==>
            LastChange(g, start, infinity, order[..q], keys[col]) <= row
  {
    hide Distances, LastChange, Filled, History;
    RowHolds(m, keys, g, start, infinity, order, row, col);
    var k := if row < |order| then row + 1 else |order|;
    assert order[..q][..k] == order[..k];
    RowsBeforeChange(g, start, infinity, order[..q], keys[col], k);
  }

  /** A route followed one node back. */
  lemma RouteBack(g: Graph, start: int, infinity: int, order: seq<int>, q: nat, v: int)
    requires Closed(g) && NonNegative(g) && 0 <= infinity
    requires NearestFirst(g, start, infinity, order) && 0 < q <= |order|
    requires v != start && NearestFirst(g, start, infinity, order[..q]) && Reached(g, start, infinity, order[..q], v)
    ensures var i := LastChange(g, start, infinity, order[..q], v);
            if i == 0 then Route(g, start, infinity, order[..q], v) == [start] + [v]
            else
              && order[i] != start
              && NearestFirst(g, start, infinity, order[..i])
              && Reached(g, start, infinity, order[..i], order[i])
              && Route(g, start, infinity, order[..q], v) == Route(g, start, infinity, order[..i], order[i]) + [v]
  {
    hide Distances, LastChange, Route, IsNearest;
    RouteStep(g, start, infinity, order[..q], v);
    var i := LastChange(g, start, infinity, order[..q], v);
    assert order[..q][..i] == order[..i];
  }

  /** The state of the walk down the rows: the end of the route from `vertex` on is in the queue. */
  ghost predicate Walking(g: Graph, start: int, infinity: int, order: seq<int>, endNode: int, q: nat, vertex: int,
                          outputQueue: seq<int>)
    requires NearestFirst(g, start, infinity, order) && Reached(g, start, infinity, order, endNode)
  {
    && 0 < q <= |order| && vertex != start
    && NearestFirst(g, start, infinity, order[..q])
    && Reached(g, start, infinity, order[..q], vertex)
    && |outputQueue| > 0 && outputQueue[0] == vertex
    && Route(g, start, infinity, order[..q], vertex) + outputQueue[1..] == Route(g, start, infinity, order, endNode)
  }

  /** What the state of the walk says of the vertex. */
  lemma WalkingStands(g: Graph, start: int, infinity: int, order: seq<int>, endNode: int, q: nat, vertex: int,
                      outputQueue: seq<int>)
    requires NearestFirst(g, start, infinity, order) && Reached(g, start, infinity, order, endNode)
    requires Walking(g, start, infinity, order, endNode, q, vertex, outputQueue)
    ensures 0 < q <= |order| && vertex != start && Reached(g, start, infinity, order[..q], vertex)
  {
  }

  lemma WalkBack(g: Graph, start: int, infinity: int, order: seq<int>, endNode: int, q: nat, vertex: int,
                 outputQueue: seq<int>)
    requires Closed(g) && NonNegative(g) && 0 <= infinity
    requires NearestFirst(g, start, infinity, order) && Reached(g, start, infinity, order, endNode)
    requires Walking(g, start, infinity, order, endNode, q, vertex, outputQueue)
    ensures var i := LastChange(g, start, infinity, order[..q], vertex);
            if i == 0 then Route(g, start, infinity, order, endNode) == [start] + outputQueue
            else Walking(g, start, infinity, order, endNode, i, order[i], [order[i]] + outputQueue)
  {
    hide Distances, LastChange, Route, IsNearest;
    RouteBack(g, start, infinity, order, q, vertex);
    var i := LastChange(g, start, infinity, order[..q], vertex);
    assert outputQueue == [vertex] + outputQueue[1..];
    if i != 0 {
      var p := Route(g, start, infinity, order[..i], order[i]);
      assert ([order[i]] + outputQueue)[1..] == outputQueue;
      assert (p + [vertex]) + outputQueue[1..] == p + outputQueue;
    }
  }

  /** The row before the last holds the distances of the whole run, none of them above infinity. */
  lemma LastRow(m: array2<int>, keys: seq<int>, g: Graph, start: int, infinity: int, order: seq<int>, col: nat)
    requires Closed(g) && NonNegative(g) && 0 <= infinity && NearestFirst(g, start, infinity, order)
    requires Filled(m, keys, History(g, start, infinity, order), Distances(g, start, infinity, order))
    requires 2 <= |keys| && |order| < |keys| && col < |keys| && keys[col] in g
    ensures m.Length0 == m.Length1 == |keys|
    ensures m[|keys| - 2, col] == Distances(g, start, infinity, order)[keys[col]]
    ensures Distances(g, start, infinity, order)[keys[col]] <= infinity
  {
    hide Filled, Distances, History, IsNearest;
    RowHolds(m, keys, g, start, infinity, order, |keys| - 2, col);
    assert order[..|order|] == order;
    NoneAboveInfinity(g, start, infinity, order, keys[col]);
  }

  lemma NoneAboveInfinity(g: Graph, start: int, infinity: int, order: seq<int>, v: int)
    requires Closed(g) && NonNegative(g) && 0 <= infinity && NearestFirst(g, start, infinity, order) && v in g
    ensures Distances(g, start, infinity, order)[v] <= infinity
  {
    RunSettles(g, start, infinity, order);
  }

  /** Where the walk down the rows is: at a row above which the distance of `vertex` in the first `q`
      steps last changed. */
  ghost predicate Cursor(keys: seq<int>, g: Graph, start: int, infinity: int, order: seq<int>, endNode: int,
                         q: nat, row: int, col: int, vertex: int, currentWeight: int, outputQueue: seq<int>)
    requires NearestFirst(g, start, infinity, order) && Reached(g, start, infinity, order, endNode)
  {
    && 0 <= row < |keys| - 2 && 0 <= col < |keys| && keys[col] == vertex
    && Walking(g, start, infinity, order, endNode, q, vertex, outputQueue)
    && currentWeight == Distances(g, start, infinity, order[..q])[vertex]
    && (q == |order| || row < q)
    && LastChange(g, start, infinity, order[..q], vertex) <= row + 1
  }

  lemma CursorStarts(keys: seq<int>, g: Graph, start: int, infinity: int, order: seq<int>, endNode: int,
                     row: nat, col: nat)
    requires NearestFirst(g, start, infinity, order) && Reached(g, start, infinity, order, endNode)
    requires row + 2 < |keys| && |order| <= row + 2 && col < |keys| && keys[col] == endNode != start
    ensures Cursor(keys, g, start, infinity, order, endNode, |order|, row, col, endNode,
                   Distances(g, start, infinity, order)[endNode], [endNode])
  {
    hide Distances, LastChange, Route, IsNearest;
    assert order[..|order|] == order;
  }

  /** The rebuilding of a path from the rows: where the distance of a node last changed, the least node
      of the row before is the one who changed it. */
  method ReadPath(m: array2<int>, least: array<int>, keys: seq<int>, ghost g: Graph, startNode: int, endNode: int,
                  INFINITE_WEIGHT: int, ghost order: seq<int>)
    returns (path: seq<int>)
    requires Closed(g) && NonNegative(g) && 0 <= INFINITE_WEIGHT
    requires Traced(m, least, keys, g, startNode, INFINITE_WEIGHT, order)
    requires |keys| > 2 && endNode in g && endNode != startNode
    ensures path == if Reached(g, startNode, INFINITE_WEIGHT, order, endNode)
                    then Route(g, startNode, INFINITE_WEIGHT, order, endNode) else []
  {
    hide InOrder, Filled, History, Distances, LastChange, Route, IsNearest;
    var col := IndexOf(keys, endNode);
    var row := |keys| - 2;
    LastRow(m, keys, g, startNode, INFINITE_WEIGHT, order, col);
    var currentWeight := m[row, col];
    if currentWeight == INFINITE_WEIGHT {
      return [];
    }
    CursorStarts(keys, g, startNode, INFINITE_WEIGHT, order, endNode, row - 1, col);
    path := WalkDown(m, least, keys, g, startNode, endNode, INFINITE_WEIGHT, order, row - 1, col, currentWeight);
  }

  /** The outer loop of the rebuilding. */
  method WalkDown(m: array2<int>, least: array<int>, keys: seq<int>, ghost g: Graph, startNode: int, endNode: int,
                  ghost infinity: int, ghost order: seq<int>, row0: nat, col0: nat, currentWeight0: int)
    returns (path: seq<int>)
    requires Closed(g) && NonNegative(g) && 0 <= infinity
    requires Traced(m, least, keys, g, startNode, infinity, order)
    requires Reached(g, startNode, infinity, order, endNode)
    requires Cursor(keys, g, startNode, infinity, order, endNode, |order|, row0, col0, endNode, currentWeight0,
                    [endNode])
    ensures path == Route(g, startNode, infinity, order, endNode)
  {
    hide *;
    TracedRun(m, least, keys, g, startNode, infinity, order);
    var row: nat, col: nat := row0, col0;
    var currentWeight, vertex, outputQueue := currentWeight0, endNode, [endNode];
    ghost var q: nat := |order|;
    var atStart := false;
    while !atStart
      invariant Traced(m, least, keys, g, startNode, infinity, order)
      invariant NearestFirst(g, startNode, infinity, order)
      invariant forall i :: 0 <= i < |order| ==> order[i] in g
      invariant if atStart then [startNode] + outputQueue == Route(g, startNode, infinity, order, endNode)
                else Cursor(keys, g, startNode, infinity, order, endNode, q, row, col, vertex, currentWeight,
                            outputQueue)
      decreases q, !atStart
    {
      atStart, row, col, vertex, currentWeight, outputQueue :=
        WalkBackOne(m, least, keys, g, startNode, endNode, infinity, order, q, row, col, vertex, currentWeight,
                    outputQueue);
      if !atStart {
        q := row + 1;
      }
    }
    path := [startNode] + outputQueue;
  }

  /** The walk takes the node relaxed at the last change, `order[i]`; from the first node relaxed after the start
      it is at its end. */
  lemma StepBack(g: Graph, start: int, infinity: int, order: seq<int>, endNode: int, q: nat, vertex: int,
                 outputQueue: seq<int>, i: nat)
    requires Closed(g) && NonNegative(g) && 0 <= infinity
    requires NearestFirst(g, start, infinity, order) && Reached(g, start, infinity, order, endNode)
    requires Walking(g, start, infinity, order, endNode, q, vertex, outputQueue)
    requires i == LastChange(g, start, infinity, order[..q], vertex)
    ensures i == 0 ==> [start] + outputQueue == Route(g, start, infinity, order, endNode)
    ensures i > 0 ==>
              && i < q && order[i] != start && Reached(g, start, infinity, order[..i], order[i])
              && Walking(g, start, infinity, order, endNode, i, order[i], [order[i]] + outputQueue)
    ensures i == 1 ==> [start] + ([order[i]] + outputQueue) == Route(g, start, infinity, order, endNode)
  {
    hide Distances, LastChange, Route, IsNearest, Closed, NonNegative, Walking;
    WalkingStands(g, start, infinity, order, endNode, q, vertex, outputQueue);
    WalkBack(g, start, infinity, order, endNode, q, vertex, outputQueue);
    if i > 0 {
      WalkingStands(g, start, infinity, order, endNode, i, order[i], [order[i]] + outputQueue);
      if i == 1 {
        WalkBack(g, start, infinity, order, endNode, 1, order[1], [order[1]] + outputQueue);
      }
    }
  }

  /** One turn of the outer loop: put the node that gave `vertex` its distance before it. */
  method WalkBackOne(m: array2<int>, least: array<int>, keys: seq<int>, ghost g: Graph, ghost startNode: int,
                     ghost endNode: int, ghost infinity: int, ghost order: seq<int>, ghost q: nat, row0: nat,
                     col0: nat, vertex0: int, currentWeight0: int, outputQueue0: seq<int>)
    returns (atStart: bool, row: nat, col: nat, vertex: int, currentWeight: int, outputQueue: seq<int>)
    requires Closed(g) && NonNegative(g) && 0 <= infinity
    requires Traced(m, least, keys, g, startNode, infinity, order)
    requires Reached(g, startNode, infinity, order, endNode)
    requires Cursor(keys, g, startNode, infinity, order, endNode, q, row0, col0, vertex0, currentWeight0, outputQueue0)
    ensures atStart ==> [startNode] + outputQueue == Route(g, startNode, infinity, order, endNode)
    ensures !atStart ==>
              && row + 1 < q
              && Cursor(keys, g, startNode, infinity, order, endNode, row + 1, row, col, vertex, currentWeight,
                        outputQueue)
  {
    hide InOrder, Filled, History, Distances, LastChange, Route, IsNearest, Closed, NonNegative, Finished, Walking;
    col, vertex, currentWeight, outputQueue := col0, vertex0, currentWeight0, outputQueue0;
    WalkingStands(g, startNode, infinity, order, endNode, q, vertex, outputQueue);
    row, atStart := FindChange(m, keys, g, startNode, infinity, order, q, row0, col, currentWeight);
    StepBack(g, startNode, infinity, order, endNode, q, vertex, outputQueue, if atStart then 0 else row + 1);
    if atStart {
      return;
    }
    vertex := least[row];
    outputQueue := [vertex] + outputQueue;
    if row == 0 {
      atStart := true;
      return;
    }
    col, currentWeight := EnterRow(m, least, keys, g, startNode, endNode, infinity, order, row, vertex, outputQueue);
  }

  /** Where the walk reads the matrix next. */
  method EnterRow(m: array2<int>, ghost least: array<int>, keys: seq<int>, ghost g: Graph, ghost startNode: int,
                  ghost endNode: int, ghost infinity: int, ghost order: seq<int>, row: nat, vertex: int,
                  ghost outputQueue: seq<int>)
    returns (col: nat, currentWeight: int)
    requires Traced(m, least, keys, g, startNode, infinity, order)
    requires Reached(g, startNode, infinity, order, endNode)
    requires row + 1 < |order| && row < |keys| - 2
    requires Walking(g, startNode, infinity, order, endNode, row + 1, vertex, outputQueue)
    ensures Cursor(keys, g, startNode, infinity, order, endNode, row + 1, row, col, vertex, currentWeight, outputQueue)
  {
    hide InOrder, Filled, History, Distances, LastChange, Route, IsNearest, Closed, NonNegative, Finished, Walking;
    WalkingStands(g, startNode, infinity, order, endNode, row + 1, vertex, outputQueue);
    col := IndexOf(keys, vertex);
    RowHolds(m, keys, g, startNode, infinity, order, row, col);
    currentWeight := m[row, col];
  }

  /** The inner loop: go down while the distance is the final one. */
  method FindChange(m: array2<int>, ghost keys: seq<int>, ghost g: Graph, ghost startNode: int, ghost infinity: int,
                    ghost order: seq<int>, ghost q: nat, row0: nat, col: nat, currentWeight: int)
    returns (row: nat, atStart: bool)
    requires forall i :: 0 <= i < |order| ==> order[i] in g
    requires Filled(m, keys, History(g, startNode, infinity, order), Distances(g, startNode, infinity, order))
    requires row0 < |keys| && col < |keys| && keys[col] != startNode && q <= |order|
    requires Reached(g, startNode, infinity, order[..q], keys[col])
    requires currentWeight == Distances(g, startNode, infinity, order[..q])[keys[col]]
    requires q == |order| || row0 < q
    requires LastChange(g, startNode, infinity, order[..q], keys[col]) <= row0 + 1
    ensures row <= row0
    ensures LastChange(g, startNode, infinity, order[..q], keys[col]) == if atStart then 0 else row + 1
  {
    ghost var i := LastChange(g, startNode, infinity, order[..q], keys[col]);
    row := row0;
    RowTells(m, keys, g, startNode, infinity, order, q, row, col);
    hide Filled, Distances, LastChange;
    while m[row, col] == currentWeight
      invariant row <= row0
      invariant i <= row + 1 && (m[row, col] == currentWeight <==> i <= row)
      decreases row
    {
      if row == 0 {
        return 0, true;
      }
      row := row - 1;
      RowTells(m, keys, g, startNode, infinity, order, q, row, col);
    }
    atStart := false;
  }
}
