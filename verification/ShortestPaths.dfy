/** The mathematics under Dijkstra's algorithm as `DS_WeightedGraph.h` runs it: one row of distances per
    node relaxed, every distance capped at the caller's stand-in for infinity. */
module ShortestPaths {

  type Graph = map<int, map<int, int>>

  ghost predicate Closed(g: Graph) {
    forall u, v :: u in g && v in g[u] ==> v in g && v != u
  }

  ghost predicate NonNegative(g: Graph) {
    forall u, v :: u in g && v in g[u] ==> 0 <= g[u][v]
  }

  // ----- walks -----

  ghost predicate IsWalk(g: Graph, p: seq<int>) {
    && |p| > 0
    && (forall i :: 0 <= i < |p| ==> p[i] in g)
    && (forall i :: 0 <= i < |p| - 1 ==> p[i + 1] in g[p[i]])
  }

  ghost function Cost(g: Graph, p: seq<int>): int
    requires IsWalk(g, p)
  {
    if |p| == 1 then 0 else Cost(g, p[..|p| - 1]) + g[p[|p| - 2]][p[|p| - 1]]
  }

  /** A walk of `g` from `u` to `v`. */
  ghost predicate Joins(g: Graph, p: seq<int>, u: int, v: int) {
    IsWalk(g, p) && p[0] == u && p[|p| - 1] == v
  }

  // ----- rows -----

  type Row = map<int, int>

  ghost predicate IsRow(g: Graph, d: Row) {
    d.Keys == g.Keys
  }

  /** The row before anything is relaxed. */
  ghost function Unreached(g: Graph, start: int, infinity: int): Row {
    map v | v in g :: if v == start then 0 else infinity
  }

  /** `d` after trying the links of `u` that lie in `among`. */
  ghost function Relaxed(g: Graph, d: Row, u: int, among: set<int>): Row
    requires IsRow(g, d) && u in g
  {
    map v | v in g :: if v in g[u] && v in among && d[u] + g[u][v] < d[v] then d[u] + g[u][v] else d[v]
  }

  /** The row after relaxing the nodes of `order` one after the other. */
  ghost function Distances(g: Graph, start: int, infinity: int, order: seq<int>): (d: Row)
    requires forall i :: 0 <= i < |order| ==> order[i] in g
    ensures IsRow(g, d)
  {
    if order == [] then Unreached(g, start, infinity)
    else
      var u := order[|order| - 1];
      Relaxed(g, Distances(g, start, infinity, order[..|order| - 1]), u, g[u].Keys)
  }

  /** Reached, but not yet relaxed. */
  ghost predicate Open(d: Row, infinity: int, order: seq<int>, v: int) {
    v in d && v !in order && d[v] < infinity
  }

  /** The start is relaxed first, then always the nearest open node. */
  ghost predicate NearestFirst(g: Graph, start: int, infinity: int, order: seq<int>) {
    && |order| > 0 && order[0] == start
    && (forall i :: 0 <= i < |order| ==> order[i] in g)
    && forall i :: 0 < i < |order| ==> IsNearest(g, start, infinity, order[..i], order[i])
  }

  ghost predicate IsNearest(g: Graph, start: int, infinity: int, order: seq<int>, u: int)
    requires forall i :: 0 <= i < |order| ==> order[i] in g
  {
    var d := Distances(g, start, infinity, order);
    && Open(d, infinity, order, u)
    && forall v :: Open(d, infinity, order, v) ==> d[u] <= d[v]
  }

  // ----- what the rows keep -----

  /** The relaxed nodes are nearer than all others, and no link out of them promises a shorter way. */
  ghost predicate Settled(g: Graph, d: Row, infinity: int, order: seq<int>) {
    && IsRow(g, d)
    && (forall v :: v in d ==> 0 <= d[v] <= infinity)
    && (forall u, v :: u in d && u in order && v in d && v !in order ==> d[u] <= d[v])
    && (forall u, v :: u in g && u in order && v in g[u] ==> v in d && d[v] <= d[u] + g[u][v])
  }

  /** Relaxing a node at least as near as all others that are not relaxed keeps this, and no longer
      changes the distances of relaxed nodes. */
  lemma RelaxSettles(g: Graph, d: Row, infinity: int, order: seq<int>, u: int)
    requires Closed(g) && NonNegative(g) && Settled(g, d, infinity, order) && u in g && u !in order
    requires forall v :: v in d && v !in order ==> d[u] <= d[v]
    ensures var e := Relaxed(g, d, u, g[u].Keys);
            && Settled(g, e, infinity, order + [u])
            && (forall v :: v in g && v in order + [u] ==> e[v] == d[v])
  {
    var e := Relaxed(g, d, u, g[u].Keys);
    assert forall v :: v in order + [u] <==> v in order || v == u;
    forall x, v | x in g && x in order + [u] && v in g[x] ensures v in e && e[v] <= e[x] + g[x][v] {
      assert e[x] == d[x];
    }
  }

  lemma NearestOfAll(g: Graph, start: int, infinity: int, order: seq<int>, u: int)
    requires forall i :: 0 <= i < |order| ==> order[i] in g
    requires IsNearest(g, start, infinity, order, u)
    ensures u !in order
    ensures forall v :: v in g && v !in order ==>
              Distances(g, start, infinity, order)[u] <= Distances(g, start, infinity, order)[v]
  {
    var d := Distances(g, start, infinity, order);
    forall v | v in g && v !in order ensures d[u] <= d[v] {
      if d[v] < infinity {
        assert Open(d, infinity, order, v);
      }
    }
  }

  lemma DistancesStep(g: Graph, start: int, infinity: int, order: seq<int>, k: nat)
    requires forall i :: 0 <= i < |order| ==> order[i] in g
    requires k < |order|
    ensures Distances(g, start, infinity, order[..k + 1]) ==
            Relaxed(g, Distances(g, start, infinity, order[..k]), order[k], g[order[k]].Keys)
  {
    assert order[..k + 1][..k] == order[..k];
  }

  lemma UnreachedIsSettled(g: Graph, start: int, infinity: int)
    requires 0 <= infinity && start in g
    ensures Settled(g, Unreached(g, start, infinity), infinity, [])
    ensures Distances(g, start, infinity, []) == Unreached(g, start, infinity)
  {
  }

  /** Step `k` of a run relaxes a new node, settles it, and leaves what was settled alone. */
  lemma {:induction false} RunStep(g: Graph, start: int, infinity: int, order: seq<int>, k: nat)
    requires Closed(g) && NonNegative(g) && 0 <= infinity
    requires NearestFirst(g, start, infinity, order) && k < |order|
    ensures order[k] !in order[..k]
    ensures var d, e := Distances(g, start, infinity, order[..k]), Distances(g, start, infinity, order[..k + 1]);
            && e == Relaxed(g, d, order[k], g[order[k]].Keys)
            && e[start] == 0
            && Settled(g, e, infinity, order[..k + 1])
            && forall v :: v in g && v in order[..k + 1] ==> e[v] == d[v]
    decreases k
  {
    hide Distances, Relaxed, Settled, IsNearest, Closed, NonNegative;
    var before, u := order[..k], order[k];
    DistancesStep(g, start, infinity, order, k);
    assert order[..k + 1] == before + [u];
    if k == 0 {
      UnreachedIsSettled(g, start, infinity);
      assert before == [];
    } else {
      RunStep(g, start, infinity, order, k - 1);
      NearestOfAll(g, start, infinity, before, u);
      assert before[0] == start;
    }
    RelaxSettles(g, Distances(g, start, infinity, before), infinity, before, u);
  }

  /** Every run settles the nodes it relaxes, each of them once. */
  lemma RunSettles(g: Graph, start: int, infinity: int, order: seq<int>)
    requires Closed(g) && NonNegative(g) && 0 <= infinity
    requires NearestFirst(g, start, infinity, order)
    ensures Settled(g, Distances(g, start, infinity, order), infinity, order)
    ensures Distances(g, start, infinity, order)[start] == 0
    ensures forall i, j :: 0 <= i < j < |order| ==> order[i] != order[j]
  {
    var k := |order| - 1;
    RunStep(g, start, infinity, order, k);
    assert order[..k + 1] == order;
    forall i, j | 0 <= i < j < |order| ensures order[i] != order[j] {
      RunStep(g, start, infinity, order, j);
      assert order[..j][i] == order[i];
    }
  }

  /** From the moment a node is nearest its distance stands. */
  lemma {:induction false} DistanceStands(g: Graph, start: int, infinity: int, order: seq<int>, i: nat, j: nat)
    requires Closed(g) && NonNegative(g) && 0 <= infinity
    requires NearestFirst(g, start, infinity, order) && i <= j <= |order| && i < |order|
    ensures Distances(g, start, infinity, order[..j])[order[i]] ==
            Distances(g, start, infinity, order[..i])[order[i]]
    decreases j
  {
    hide Distances, Settled, Relaxed, IsNearest, Closed, NonNegative;
    if i < j {
      DistanceStands(g, start, infinity, order, i, j - 1);
      RunStep(g, start, infinity, order, j - 1);
      assert order[..j][i] == order[i] && order[i] in g;
    }
  }

  // ----- when a distance last changed, and who changed it -----

  /** The step of the run at which the distance of `v` last changed. */
  ghost function LastChange(g: Graph, start: int, infinity: int, order: seq<int>, v: int): (i: nat)
    requires v in g && v != start
    requires forall i :: 0 <= i < |order| ==> order[i] in g
    requires Distances(g, start, infinity, order)[v] < infinity
    ensures i < |order|
  {
    var k := |order| - 1;
    if Distances(g, start, infinity, order)[v] != Distances(g, start, infinity, order[..k])[v] then k
    else LastChange(g, start, infinity, order[..k], v)
  }

  /** The node relaxed at that step links to `v`, and its distance and that link make up `v`'s. */
  lemma {:induction false} LastChangeExplains(g: Graph, start: int, infinity: int, order: seq<int>, v: int)
    requires v in g && v != start
    requires forall i :: 0 <= i < |order| ==> order[i] in g
    requires Distances(g, start, infinity, order)[v] < infinity
    ensures var i := LastChange(g, start, infinity, order, v);
            && v in g[order[i]]
            && Distances(g, start, infinity, order)[v] ==
               Distances(g, start, infinity, order[..i])[order[i]] + g[order[i]][v]
    decreases |order|
  {
    var k := |order| - 1;
    if Distances(g, start, infinity, order)[v] == Distances(g, start, infinity, order[..k])[v] {
      LastChangeExplains(g, start, infinity, order[..k], v);
      var i := LastChange(g, start, infinity, order[..k], v);
      assert order[..k][..i] == order[..i];
    }
  }

  /** Walking the rows down from the last one, the distance of `v` is the final one until the row of the
      last change, and another one in the row before it. */
  lemma {:induction false} RowsBeforeChange(g: Graph, start: int, infinity: int, order: seq<int>, v: int, k: nat)
    requires v in g && v != start && k <= |order|
    requires forall i :: 0 <= i < |order| ==> order[i] in g
    requires Distances(g, start, infinity, order)[v] < infinity
    ensures var i := LastChange(g, start, infinity, order, v);
            && (i < k ==> Distances(g, start, infinity, order[..k])[v] ==
                          Distances(g, start, infinity, order)[v] &&
                          LastChange(g, start, infinity, order[..k], v) == i)
            && (k <= i ==> Distances(g, start, infinity, order[..k])[v] >
                           Distances(g, start, infinity, order)[v])
    decreases |order|
  {
    hide Distances, LastChange;
    assert order[..|order|] == order;
    var n := |order| - 1;
    if k <= n {
      assert order[..n][..k] == order[..k];
      RowsShrink(g, start, infinity, order, v, k, n);
      RowsShrink(g, start, infinity, order, v, n, n + 1);
      LastChangeStep(g, start, infinity, order, v);
      if Distances(g, start, infinity, order)[v] == Distances(g, start, infinity, order[..n])[v] {
        RowsBeforeChange(g, start, infinity, order[..n], v, k);
      }
    }
  }

  /** Did the last step change the distance? */
  lemma LastChangeStep(g: Graph, start: int, infinity: int, order: seq<int>, v: int)
    requires v in g && v != start && order != []
    requires forall i :: 0 <= i < |order| ==> order[i] in g
    requires Distances(g, start, infinity, order)[v] < infinity
    ensures var n := |order| - 1;
            if Distances(g, start, infinity, order)[v] == Distances(g, start, infinity, order[..n])[v]
            then LastChange(g, start, infinity, order, v) == LastChange(g, start, infinity, order[..n], v)
            else LastChange(g, start, infinity, order, v) == n
  {
    hide Distances;
  }

  lemma {:induction false} RowsShrink(g: Graph, start: int, infinity: int, order: seq<int>, v: int, k: nat, n: nat)
    requires v in g && k <= n <= |order|
    requires forall i :: 0 <= i < |order| ==> order[i] in g
    ensures Distances(g, start, infinity, order[..k])[v] >= Distances(g, start, infinity, order[..n])[v]
    decreases n
  {
    if k < n {
      assert order[..n][..n - 1] == order[..n - 1];
      RowsShrink(g, start, infinity, order, v, k, n - 1);
    }
  }

  /** Who gave `v` its distance. */
  ghost function Previous(g: Graph, start: int, infinity: int, order: seq<int>, v: int): int
    requires v in g && v != start
    requires forall i :: 0 <= i < |order| ==> order[i] in g
    requires Distances(g, start, infinity, order)[v] < infinity
  {
    order[LastChange(g, start, infinity, order, v)]
  }

  /** Has `v` got a distance below infinity? */
  ghost predicate Reached(g: Graph, start: int, infinity: int, order: seq<int>, v: int)
    requires forall i :: 0 <= i < |order| ==> order[i] in g
  {
    v in g && Distances(g, start, infinity, order)[v] < infinity
  }

  /** A node of the run other than the start is reached when its turn comes. */
  lemma NearestIsReached(g: Graph, start: int, infinity: int, order: seq<int>, m: nat)
    requires NearestFirst(g, start, infinity, order) && 0 < m < |order|
    ensures order[m] != start && Reached(g, start, infinity, order[..m], order[m])
  {
    hide Distances;
    assert order[..m][0] == start;
    assert IsNearest(g, start, infinity, order[..m], order[m]);
  }

  /** A node of the run, once nearest, keeps the one who gave it its distance. */
  lemma PreviousStands(g: Graph, start: int, infinity: int, order: seq<int>, m: nat, k: nat)
    requires Closed(g) && NonNegative(g) && 0 <= infinity
    requires NearestFirst(g, start, infinity, order) && 0 < m < |order| && m <= k <= |order|
    ensures order[m] != start
    ensures Reached(g, start, infinity, order[..k], order[m]) && Reached(g, start, infinity, order, order[m])
    ensures LastChange(g, start, infinity, order, order[m]) < m
    ensures Previous(g, start, infinity, order[..k], order[m]) == Previous(g, start, infinity, order, order[m])
  {
    hide Distances, LastChange, IsNearest, Closed, NonNegative;
    var v := order[m];
    NearestIsReached(g, start, infinity, order, m);
    assert order[..|order|] == order;
    DistanceStands(g, start, infinity, order, m, k);
    DistanceStands(g, start, infinity, order, m, |order|);
    RowsBeforeChange(g, start, infinity, order, v, k);
    RowsBeforeChange(g, start, infinity, order, v, m);
  }

  // ----- routes -----

  /** The walk to `v` that the rows hold, read backwards from the last change of each node on it. */
  ghost function Route(g: Graph, start: int, infinity: int, order: seq<int>, v: int): (p: seq<int>)
    requires NearestFirst(g, start, infinity, order)
    requires v == start || Reached(g, start, infinity, order, v)
    ensures |p| > 0
    decreases |order|
  {
    if v == start then [start]
    else
      var i := LastChange(g, start, infinity, order, v);
      if i == 0 then [start, v]
      else
        PrefixIsNearestFirst(g, start, infinity, order, i);
        assert IsNearest(g, start, infinity, order[..i], order[i]);
        Route(g, start, infinity, order[..i], order[i]) + [v]
  }

  lemma PrefixIsNearestFirst(g: Graph, start: int, infinity: int, order: seq<int>, k: nat)
    requires NearestFirst(g, start, infinity, order) && 0 < k <= |order|
    ensures NearestFirst(g, start, infinity, order[..k])
  {
    forall i | 0 < i < k ensures IsNearest(g, start, infinity, order[..k][..i], order[..k][i]) {
      assert order[..k][..i] == order[..i];
    }
  }

  lemma StandStill(g: Graph, v: int, infinity: int)
    requires v in g
    ensures Joins(g, [v], v, v) && Cost(g, [v]) == Distances(g, v, infinity, [])[v]
  {
  }

  lemma WalkOn(g: Graph, p: seq<int>, v: int)
    requires IsWalk(g, p) && v in g && v in g[p[|p| - 1]]
    ensures IsWalk(g, p + [v]) && Cost(g, p + [v]) == Cost(g, p) + g[p[|p| - 1]][v]
  {
    assert (p + [v])[..|p|] == p;
  }

  lemma RouteStep(g: Graph, start: int, infinity: int, order: seq<int>, v: int)
    requires Closed(g) && NonNegative(g) && 0 <= infinity
    requires NearestFirst(g, start, infinity, order)
    requires v != start && Reached(g, start, infinity, order, v)
    ensures var i := LastChange(g, start, infinity, order, v);
            if i == 0 then Route(g, start, infinity, order, v) == [start, v]
            else
              && NearestFirst(g, start, infinity, order[..i])
              && Reached(g, start, infinity, order[..i], order[i])
              && order[i] != start
              && Route(g, start, infinity, order, v) == Route(g, start, infinity, order[..i], order[i]) + [v]
  {
    var i := LastChange(g, start, infinity, order, v);
    if i > 0 {
      PrefixIsNearestFirst(g, start, infinity, order, i);
      assert IsNearest(g, start, infinity, order[..i], order[i]);
      assert order[..i][0] == start;
      assert order[i] !in order[..i];
    }
  }

  /** The route joins the start to `v` and costs what the last row says. */
  lemma {:induction false} RouteCostsDistance(g: Graph, start: int, infinity: int, order: seq<int>, v: int)
    requires Closed(g) && NonNegative(g) && 0 <= infinity
    requires NearestFirst(g, start, infinity, order)
    requires v == start || Reached(g, start, infinity, order, v)
    ensures Joins(g, Route(g, start, infinity, order, v), start, v)
    ensures Cost(g, Route(g, start, infinity, order, v)) == Distances(g, start, infinity, order)[v]
    decreases |order|, 1
  {
    RunSettles(g, start, infinity, order);
    if v != start {
      RouteCostsDistanceStep(g, start, infinity, order, v);
    }
  }

  lemma RouteCostsDistanceStep(g: Graph, start: int, infinity: int, order: seq<int>, v: int)
    requires Closed(g) && NonNegative(g) && 0 <= infinity
    requires NearestFirst(g, start, infinity, order)
    requires v != start && Reached(g, start, infinity, order, v)
    ensures Joins(g, Route(g, start, infinity, order, v), start, v)
    ensures Cost(g, Route(g, start, infinity, order, v)) == Distances(g, start, infinity, order)[v]
    decreases |order|, 0
  {
    hide Distances, Route, LastChange, IsWalk, Cost, Relaxed, Settled;
    var i := LastChange(g, start, infinity, order, v);
    LastChangeExplains(g, start, infinity, order, v);
    RouteStep(g, start, infinity, order, v);
    if i == 0 {
      assert order[0] == start;
      assert order[..0] == [];
      StandStill(g, start, infinity);
      WalkOn(g, [start], v);
      assert [start] + [v] == [start, v];
    } else {
      RouteCostsDistance(g, start, infinity, order[..i], order[i]);
      WalkOn(g, Route(g, start, infinity, order[..i], order[i]), v);
    }
  }

  lemma RouteEnds(g: Graph, start: int, infinity: int, order: seq<int>, v: int)
    requires NearestFirst(g, start, infinity, order)
    requires v == start || Reached(g, start, infinity, order, v)
    ensures var p := Route(g, start, infinity, order, v);
            p[|p| - 1] == v
  {
  }

  /** Did `u` give `v` its distance? */
  ghost predicate Gave(g: Graph, start: int, infinity: int, order: seq<int>, u: int, v: int)
    requires forall i :: 0 <= i < |order| ==> order[i] in g
  {
    v != start && Reached(g, start, infinity, order, v) && Previous(g, start, infinity, order, v) == u
  }

  /** Is every node of `p` after the first preceded by the one who gave it its distance? */
  ghost predicate FollowsPrevious(g: Graph, start: int, infinity: int, order: seq<int>, p: seq<int>)
    requires forall i :: 0 <= i < |order| ==> order[i] in g
  {
    forall j :: 0 <= j < |p| - 1 ==> Gave(g, start, infinity, order, p[j], p[j + 1])
  }

  lemma FollowOn(g: Graph, start: int, infinity: int, order: seq<int>, p: seq<int>, v: int)
    requires forall i :: 0 <= i < |order| ==> order[i] in g
    requires |p| > 0 && FollowsPrevious(g, start, infinity, order, p)
    requires Gave(g, start, infinity, order, p[|p| - 1], v)
    ensures FollowsPrevious(g, start, infinity, order, p + [v])
  {
    hide Gave;
    var q := p + [v];
    forall j | 0 <= j < |q| - 1 ensures Gave(g, start, infinity, order, q[j], q[j + 1]) {
      if j < |p| - 1 {
        assert q[j] == p[j] && q[j + 1] == p[j + 1];
      } else {
        assert q[j] == p[|p| - 1] && q[j + 1] == v;
      }
    }
  }

  /** What holds on a route of a shorter run holds on it in the whole run. */
  lemma FollowsInWholeRun(g: Graph, start: int, infinity: int, order: seq<int>, i: nat, p: seq<int>)
    requires Closed(g) && NonNegative(g) && 0 <= infinity
    requires NearestFirst(g, start, infinity, order) && i < |order|
    requires FollowsPrevious(g, start, infinity, order[..i], p)
    requires forall j :: 0 <= j < |p| ==> p[j] in order[..i + 1]
    ensures FollowsPrevious(g, start, infinity, order, p)
  {
    hide Distances, LastChange, Previous, Reached, IsNearest, Closed, NonNegative;
    forall j | 0 <= j < |p| - 1 ensures Gave(g, start, infinity, order, p[j], p[j + 1]) {
      assert Gave(g, start, infinity, order[..i], p[j], p[j + 1]);
      assert p[j + 1] in order[..i + 1];
      var m :| 0 <= m <= i && order[m] == p[j + 1];
      PreviousStands(g, start, infinity, order, m, i);
    }
  }

  /** Routes to different nodes never disagree on how a node is come by. */
  lemma {:induction false} RouteFollowsPrevious(g: Graph, start: int, infinity: int, order: seq<int>, v: int)
    requires Closed(g) && NonNegative(g) && 0 <= infinity
    requires NearestFirst(g, start, infinity, order)
    requires v == start || Reached(g, start, infinity, order, v)
    ensures FollowsPrevious(g, start, infinity, order, Route(g, start, infinity, order, v))
    ensures forall j :: 0 <= j < |Route(g, start, infinity, order, v)| ==>
              Route(g, start, infinity, order, v)[j] in order + [v]
    decreases |order|, 1
  {
    if v != start {
      RouteFollowsPreviousStep(g, start, infinity, order, v);
    } else {
      FollowsNothing(g, start, infinity, order, start);
    }
  }

  lemma RouteFollowsPreviousStep(g: Graph, start: int, infinity: int, order: seq<int>, v: int)
    requires Closed(g) && NonNegative(g) && 0 <= infinity
    requires NearestFirst(g, start, infinity, order)
    requires v != start && Reached(g, start, infinity, order, v)
    ensures FollowsPrevious(g, start, infinity, order, Route(g, start, infinity, order, v))
    ensures forall j :: 0 <= j < |Route(g, start, infinity, order, v)| ==>
              Route(g, start, infinity, order, v)[j] in order + [v]
    decreases |order|, 0
  {
    hide Distances, Route, LastChange, Relaxed, FollowsPrevious, IsNearest;
    var i := LastChange(g, start, infinity, order, v);
    RouteStep(g, start, infinity, order, v);
    if i == 0 {
      assert order[0] == start;
      FollowsNothing(g, start, infinity, order, start);
      FollowOn(g, start, infinity, order, [start], v);
      assert [start] + [v] == [start, v];
    } else {
      RouteEnds(g, start, infinity, order[..i], order[i]);
      RouteFollowsPrevious(g, start, infinity, order[..i], order[i]);
      var p := Route(g, start, infinity, order[..i], order[i]);
      assert order[..i + 1] == order[..i] + [order[i]];
      FollowsInWholeRun(g, start, infinity, order, i, p);
      FollowOn(g, start, infinity, order, p, v);
      forall j | 0 <= j < |p + [v]| ensures (p + [v])[j] in order + [v] {
        if j < |p| {
          assert p[j] in order[..i + 1];
        }
      }
    }
  }

  lemma FollowsNothing(g: Graph, start: int, infinity: int, order: seq<int>, v: int)
    requires forall i :: 0 <= i < |order| ==> order[i] in g
    ensures FollowsPrevious(g, start, infinity, order, [v])
  {
  }

  // ----- shortest -----

  /** Nothing is left to relax, or nothing but one node. */
  ghost predicate Finished(g: Graph, d: Row, infinity: int, order: seq<int>) {
    || (forall v :: v in g ==> !Open(d, infinity, order, v))
    || (forall u, v :: u in g && v in g && u !in order && v !in order ==> u == v)
  }

  lemma {:induction false} NoShorterWalk(g: Graph, d: Row, infinity: int, order: seq<int>, p: seq<int>)
    requires Closed(g) && NonNegative(g)
    requires Settled(g, d, infinity, order) && Finished(g, d, infinity, order)
    requires IsWalk(g, p) && d[p[0]] == 0
    ensures d[p[|p| - 1]] <= Cost(g, p)
    decreases |p|
  {
    if |p| > 1 {
      var q := p[..|p| - 1];
      NoShorterWalk(g, d, infinity, order, q);
      var u, v := p[|p| - 2], p[|p| - 1];
      assert q[|q| - 1] == u && p[(|p| - 2) + 1] in g[p[|p| - 2]];
      assert d[v] <= d[u] + g[u][v];
    }
  }

  /** Dijkstra's theorem: the last row holds the cost of a cheapest walk from the start, or infinity if
      no walk is cheaper than that. */
  lemma DistancesAreShortest(g: Graph, start: int, infinity: int, order: seq<int>, v: int)
    requires Closed(g) && NonNegative(g) && 0 <= infinity
    requires NearestFirst(g, start, infinity, order)
    requires Finished(g, Distances(g, start, infinity, order), infinity, order)
    requires v in g
    ensures var d := Distances(g, start, infinity, order)[v];
            && (forall p :: Joins(g, p, start, v) ==> d <= Cost(g, p))
            && d <= infinity
            && (d < infinity ==>
                  var r := Route(g, start, infinity, order, v);
                  Joins(g, r, start, v) && Cost(g, r) == d && FollowsPrevious(g, start, infinity, order, r))
  {
    var d := Distances(g, start, infinity, order);
    RunSettles(g, start, infinity, order);
    forall p | Joins(g, p, start, v) ensures d[v] <= Cost(g, p) {
      NoShorterWalk(g, d, infinity, order, p);
    }
    if d[v] < infinity {
      RouteCostsDistance(g, start, infinity, order, v);
      RouteFollowsPrevious(g, start, infinity, order, v);
    }
  }
}
