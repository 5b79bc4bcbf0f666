/** When the answer of a cached matrix (DS_WeightedGraph.h:225-302) is still right after AddConnection
    (DS_WeightedGraph.h:180-192), which leaves the cache as it is. */
module StaleAnswers {

  import opened ShortestPaths
  import opened WeightedGraphs
  import opened GraphPaths

  // ----- walks put together and cut -----

  lemma {:induction false} Appended(g: Graph, p: seq<int>, q: seq<int>)
    requires IsWalk(g, p) && IsWalk(g, q) && q[0] in g[p[|p| - 1]]
    ensures IsWalk(g, p + q) && Cost(g, p + q) == Cost(g, p) + g[p[|p| - 1]][q[0]] + Cost(g, q)
    decreases |q|
  {
    hide Cost;
    if |q| == 1 {
      assert q == [q[0]];
      WalkOn(g, p, q[0]);
      CostOne(g, q);
    } else {
      var r, last := q[..|q| - 1], q[|q| - 1];
      FirstPart(g, q, |q| - 1);
      assert last == q[(|q| - 2) + 1] && r[|r| - 1] == q[|q| - 2];
      Appended(g, p, r);
      assert (p + r)[|p + r| - 1] == r[|r| - 1];
      WalkOn(g, p + r, last);
      WalkOn(g, r, last);
      assert p + q == p + r + [last] && q == r + [last];
    }
  }

  lemma CostOne(g: Graph, p: seq<int>)
    requires IsWalk(g, p) && |p| == 1
    ensures Cost(g, p) == 0
  {
  }

  lemma FirstPart(g: Graph, p: seq<int>, k: nat)
    requires IsWalk(g, p) && 0 < k <= |p|
    ensures IsWalk(g, p[..k])
  {
    forall i | 0 <= i < k - 1 ensures p[..k][i + 1] in g[p[..k][i]] {
      assert p[i + 1] in g[p[i]];
    }
  }

  lemma LastPart(g: Graph, p: seq<int>, k: nat)
    requires IsWalk(g, p) && k < |p|
    ensures IsWalk(g, p[k..])
  {
    forall i | 0 <= i < |p| - k - 1 ensures p[k..][i + 1] in g[p[k..][i]] {
      assert p[(k + i) + 1] in g[p[k + i]];
    }
  }

  // ----- walks over the link -----

  /** Is the step from `x` to `y` one over the link between `u` and `v`? */
  predicate OverLink(u: int, v: int, x: int, y: int) {
    (x == u && y == v) || (x == v && y == u)
  }

  /** How often a walk takes the link. */
  function Crossings(p: seq<int>, u: int, v: int): nat {
    if |p| < 2 then 0
    else Crossings(p[..|p| - 1], u, v) + if OverLink(u, v, p[|p| - 2], p[|p| - 1]) then 1 else 0
  }

  predicate HasLink(g: Graph, u: int, v: int) {
    u in g && v in g[u]
  }

  /** What a walk costs once the link between `u` and `v` weighs `w`. */
  ghost function CostWith(g: Graph, u: int, v: int, w: int, p: seq<int>): int
    requires IsWalk(g, p)
  {
    Cost(g, p) + if HasLink(g, u, v) then Crossings(p, u, v) * (w - g[u][v]) else 0
  }

  /** A walk stays a walk when a link is added or its weight changed. */
  lemma {:induction false} WalkStays(g: Graph, u: int, v: int, w: int, p: seq<int>)
    requires Symmetric(g) && u != v && IsWalk(g, p)
    ensures IsWalk(WithLink(g, u, v, w), p) && Cost(WithLink(g, u, v, w), p) == CostWith(g, u, v, w, p)
    decreases |p|
  {
    hide WithLink;
    var h := WithLink(g, u, v, w);
    LinkAdds(g, u, v, w, p[0], p[0]);
    if |p| == 1 {
      assert p == [p[0]];
      CostOne(g, p);
      CostOne(h, p);
    } else {
      var r, x, y := p[..|p| - 1], p[|p| - 2], p[|p| - 1];
      FirstPart(g, p, |p| - 1);
      WalkStays(g, u, v, w, r);
      assert y == p[(|p| - 2) + 1] && y in g[x];
      LinkAdds(g, u, v, w, x, y);
      WalkOn(g, r, y);
      WalkOn(h, r, y);
      assert p == r + [y];
      CrossOn(g, u, v, r, x, y);
      if HasLink(g, u, v) {
        OnceMore(Crossings(r, u, v), w - g[u][v]);
      }
    }
  }

  /** One step more. */
  lemma CrossOn(g: Graph, u: int, v: int, r: seq<int>, x: int, y: int)
    requires Symmetric(g) && u != v && |r| > 0 && r[|r| - 1] == x && x in g && y in g[x]
    ensures OverLink(u, v, x, y) ==>
              HasLink(g, u, v) && g[x][y] == g[u][v] && Crossings(r + [y], u, v) == Crossings(r, u, v) + 1
    ensures !OverLink(u, v, x, y) ==> Crossings(r + [y], u, v) == Crossings(r, u, v)
  {
    assert (r + [y])[..|r|] == r;
  }

  lemma OnceMore(n: int, d: int)
    ensures (n + 1) * d == n * d + d
  {
  }

  /** Without the link there is no walk over it. */
  lemma {:induction false} NoneCross(g: Graph, u: int, v: int, p: seq<int>)
    requires Symmetric(g) && u != v && IsWalk(g, p) && !HasLink(g, u, v)
    ensures Crossings(p, u, v) == 0
    decreases |p|
  {
    if |p| > 1 {
      FirstPart(g, p, |p| - 1);
      assert p[(|p| - 2) + 1] in g[p[|p| - 2]];
      NoneCross(g, u, v, p[..|p| - 1]);
    }
  }

  // ----- ways with a new or lighter link -----

  /** A way in a graph: along its own links, or once over the link in question. */
  datatype Way = Along(walk: seq<int>) | Over(a: int, b: int, before: seq<int>, after: seq<int>)

  /** The way leads from `s` to `x` and costs no more than that. */
  ghost predicate IsWay(g: Graph, u: int, v: int, w: int, s: int, x: int, way: Way, cost: int) {
    match way
    case Along(p) => Joins(g, p, s, x) && Cost(g, p) <= cost
    case Over(a, b, p, q) =>
      OverLink(u, v, a, b) && Joins(g, p, s, a) && Joins(g, q, b, x) && Cost(g, p) + w + Cost(g, q) <= cost
  }

  /** One step over the link. */
  lemma WayOver(g: Graph, u: int, v: int, w: int, s: int, x: int, y: int, way: Way, cost: int) returns (more: Way)
    requires NonNegative(g) && u != v && u in g && v in g && 0 <= w && OverLink(u, v, x, y)
    requires IsWay(g, u, v, w, s, x, way, cost)
    ensures IsWay(g, u, v, w, s, y, more, cost + w)
  {
    hide IsWalk, Cost, NonNegative;
    StandStill(g, y, 0);
    CostOne(g, [y]);
    match way
    case Along(p) =>
      more := Over(x, y, p, [y]);
    case Over(a, b, p, q) =>
      CostsAreNonNegative(g, q);
      more := if b == y then Over(a, b, p, [y]) else Along(p);
  }

  /** One step over another link. */
  lemma WayOn(g: Graph, u: int, v: int, w: int, s: int, x: int, y: int, way: Way, cost: int) returns (more: Way)
    requires Closed(g) && x in g && y in g[x] && IsWay(g, u, v, w, s, x, way, cost)
    ensures IsWay(g, u, v, w, s, y, more, cost + g[x][y])
  {
    hide IsWalk, Cost;
    match way
    case Along(p) =>
      StepOn(g, p, s, x, y);
      more := Along(p + [y]);
    case Over(a, b, p, q) =>
      StepOn(g, q, b, x, y);
      more := Over(a, b, p, q + [y]);
  }

  lemma StepOn(g: Graph, p: seq<int>, s: int, x: int, y: int)
    requires Closed(g) && Joins(g, p, s, x) && y in g[x]
    ensures Joins(g, p + [y], s, y) && Cost(g, p + [y]) == Cost(g, p) + g[x][y]
  {
    hide Cost;
    WalkOn(g, p, y);
  }

  /** Every walk of the graph with the link is matched by a way in the graph before, as cheap. */
  lemma {:induction false} WayFound(g: Graph, u: int, v: int, w: int, s: int, p: seq<int>) returns (way: Way)
    requires Closed(g) && NonNegative(g) && u != v && u in g && v in g && 0 <= w && s in g
    requires IsWalk(WithLink(g, u, v, w), p) && p[0] == s
    ensures IsWay(g, u, v, w, s, p[|p| - 1], way, Cost(WithLink(g, u, v, w), p))
    decreases |p|
  {
    hide WithLink, IsWay, Cost, Closed, NonNegative;
    var h := WithLink(g, u, v, w);
    if |p| == 1 {
      assert p == [s];
      way := Along([s]);
      WayStarts(g, u, v, w, s);
      CostOne(h, p);
    } else {
      var r, x, y := p[..|p| - 1], p[|p| - 2], p[|p| - 1];
      FirstPart(h, p, |p| - 1);
      var sofar := WayFound(g, u, v, w, s, r);
      assert y == p[(|p| - 2) + 1] && y in h[x] && p == r + [y];
      LinkAdds(g, u, v, w, x, y);
      WalkOn(h, r, y);
      if OverLink(u, v, x, y) {
        way := WayOver(g, u, v, w, s, x, y, sofar, Cost(h, r));
      } else {
        way := WayOn(g, u, v, w, s, x, y, sofar, Cost(h, r));
      }
    }
  }

  lemma WayStarts(g: Graph, u: int, v: int, w: int, s: int)
    requires s in g
    ensures IsWay(g, u, v, w, s, s, Along([s]), 0)
  {
  }

  // ----- a new or lighter link -----

  /** No way over the link, taken from `a` to `b`, costs less than `bound`. */
  ghost predicate NoneOver(g: Graph, a: int, b: int, w: int, s: int, t: int, bound: int) {
    forall p, q :: Joins(g, p, s, a) && Joins(g, q, b, t) ==> bound <= Cost(g, p) + w + Cost(g, q)
  }

  ghost predicate NoDetour(g: Graph, u: int, v: int, w: int, s: int, t: int, bound: int) {
    NoneOver(g, u, v, w, s, t, bound) && NoneOver(g, v, u, w, s, t, bound)
  }

  /** What the answer promises: no walk is cheaper than that. */
  ghost function Bound(g: Graph, u: int, v: int, w: int, infinity: int, path: seq<int>): int
    requires path == [] || IsWalk(g, path)
  {
    if path == [] then infinity else CostWith(g, u, v, w, path)
  }

  /** A walk of the graph with the link makes a detour over it, or is as good as one that does not. */
  lemma NothingCheaper(g: Graph, u: int, v: int, w: int, s: int, t: int, bound: int, p: seq<int>)
    requires Closed(g) && NonNegative(g) && u != v && u in g && v in g && 0 <= w && s in g
    requires NoDetour(g, u, v, w, s, t, bound)
    requires forall r :: Joins(g, r, s, t) ==> bound <= Cost(g, r)
    requires Joins(WithLink(g, u, v, w), p, s, t)
    ensures bound <= Cost(WithLink(g, u, v, w), p)
  {
    hide WithLink, IsWalk, Cost, Closed, NonNegative;
    var way := WayFound(g, u, v, w, s, p);
  }

  /** A way over the link is a walk of the graph with the link. */
  lemma DetourIsWalk(g: Graph, u: int, v: int, w: int, s: int, t: int, a: int, b: int, p: seq<int>, q: seq<int>)
    requires Symmetric(g) && u != v && OverLink(u, v, a, b) && (HasLink(g, u, v) ==> w <= g[u][v])
    requires Joins(g, p, s, a) && Joins(g, q, b, t)
    ensures Joins(WithLink(g, u, v, w), p + q, s, t)
    ensures Cost(WithLink(g, u, v, w), p + q) <= Cost(g, p) + w + Cost(g, q)
  {
    hide WithLink, Cost, Symmetric, CostWith;
    var h := WithLink(g, u, v, w);
    WalkStays(g, u, v, w, p);
    WalkStays(g, u, v, w, q);
    NotDearer(g, u, v, w, p);
    NotDearer(g, u, v, w, q);
    LinkAdds(g, u, v, w, a, b);
    Appended(h, p, q);
  }

  lemma NotDearer(g: Graph, u: int, v: int, w: int, p: seq<int>)
    requires IsWalk(g, p) && (HasLink(g, u, v) ==> w <= g[u][v])
    ensures CostWith(g, u, v, w, p) <= Cost(g, p)
  {
    if HasLink(g, u, v) {
      Signs(Crossings(p, u, v), w - g[u][v]);
    }
  }

  lemma Signs(n: int, d: int)
    requires 0 <= n
    ensures d <= 0 ==> n * d <= 0
    ensures 0 <= d ==> 0 <= n * d
    ensures 0 < n && 0 <= d ==> d <= n * d
  {
  }

  lemma LighterExactly(g: Graph, u: int, v: int, w: int, s: int, t: int, infinity: int, path: seq<int>)
    requires Closed(g) && NonNegative(g) && Symmetric(g) && u != v && u in g && v in g && 0 <= w && s in g
    requires HasLink(g, u, v) ==> w <= g[u][v]
    requires IsShortest(g, s, t, infinity, path)
    ensures IsShortest(WithLink(g, u, v, w), s, t, infinity, path) <==>
            NoDetour(g, u, v, w, s, t, Bound(g, u, v, w, infinity, path))
  {
    hide WithLink, IsWalk, Cost, Closed, NonNegative, Symmetric, CostWith;
    var h, bound := WithLink(g, u, v, w), Bound(g, u, v, w, infinity, path);
    if path != [] {
      WalkStays(g, u, v, w, path);
      NotDearer(g, u, v, w, path);
    }
    if NoDetour(g, u, v, w, s, t, bound) {
      forall p | Joins(h, p, s, t) ensures bound <= Cost(h, p) {
        NothingCheaper(g, u, v, w, s, t, bound, p);
      }
    }
    if IsShortest(h, s, t, infinity, path) {
      forall p, q | Joins(g, p, s, u) && Joins(g, q, v, t) ensures bound <= Cost(g, p) + w + Cost(g, q) {
        DetourIsWalk(g, u, v, w, s, t, u, v, p, q);
      }
      forall p, q | Joins(g, p, s, v) && Joins(g, q, u, t) ensures bound <= Cost(g, p) + w + Cost(g, q) {
        DetourIsWalk(g, u, v, w, s, t, v, u, p, q);
      }
    }
  }

  // ----- a heavier link -----

  /** A walk cut in two. */
  lemma {:induction false} CutAt(g: Graph, u: int, v: int, p: seq<int>, k: nat)
    requires IsWalk(g, p) && 0 < k < |p|
    ensures IsWalk(g, p[..k]) && IsWalk(g, p[k..]) && p[k - 1] in g && p[k] in g[p[k - 1]]
    ensures Cost(g, p) == Cost(g, p[..k]) + g[p[k - 1]][p[k]] + Cost(g, p[k..])
    ensures Crossings(p, u, v) ==
            Crossings(p[..k], u, v) + (if OverLink(u, v, p[k - 1], p[k]) then 1 else 0) + Crossings(p[k..], u, v)
  {
    hide Cost, Crossings;
    FirstPart(g, p, k);
    LastPart(g, p, k);
    assert p[(k - 1) + 1] in g[p[k - 1]];
    assert p == p[..k] + p[k..];
    Appended(g, p[..k], p[k..]);
    CrossAppended(p[..k], p[k..], u, v);
  }

  lemma {:induction false} CrossAppended(p: seq<int>, q: seq<int>, u: int, v: int)
    requires |p| > 0 && |q| > 0
    ensures Crossings(p + q, u, v) ==
            Crossings(p, u, v) + (if OverLink(u, v, p[|p| - 1], q[0]) then 1 else 0) + Crossings(q, u, v)
    decreases |q|
  {
    assert (p + q)[..|p + q| - 1] == p + q[..|q| - 1];
    if |q| == 1 {
      assert p + [] == p;
    } else {
      CrossAppended(p, q[..|q| - 1], u, v);
    }
  }

  /** Two walks, the second of which begins where the first ends. */
  lemma Glued(g: Graph, u: int, v: int, p: seq<int>, q: seq<int>)
    requires IsWalk(g, p) && IsWalk(g, q) && p[|p| - 1] == q[0]
    ensures IsWalk(g, p + q[1..]) && Cost(g, p + q[1..]) == Cost(g, p) + Cost(g, q)
    ensures (p + q[1..])[|p + q[1..]| - 1] == q[|q| - 1]
    ensures Crossings(p + q[1..], u, v) == Crossings(p, u, v) + Crossings(q, u, v)
  {
    hide Cost, Crossings;
    if |q| == 1 {
      assert p + q[1..] == p;
      CostOne(g, q);
      CrossOne(q, u, v);
    } else {
      CutAt(g, u, v, q, 1);
      CostOne(g, q[..1]);
      CrossOne(q[..1], u, v);
      Appended(g, p, q[1..]);
      CrossAppended(p, q[1..], u, v);
    }
  }

  lemma CrossOne(p: seq<int>, u: int, v: int)
    requires |p| == 1
    ensures Crossings(p, u, v) == 0
  {
  }

  /** The last step over the link. */
  lemma {:induction false} LastCrossing(p: seq<int>, u: int, v: int) returns (j: nat)
    requires Crossings(p, u, v) > 0
    ensures j + 1 < |p| && OverLink(u, v, p[j], p[j + 1])
    ensures Crossings(p[..j + 1], u, v) == Crossings(p, u, v) - 1
    decreases |p|
  {
    var r := p[..|p| - 1];
    if OverLink(u, v, p[|p| - 2], p[|p| - 1]) {
      j := |p| - 2;
    } else {
      j := LastCrossing(r, u, v);
      assert r[..j + 1] == p[..j + 1];
    }
  }

  /** A walk that takes the link twice can do without that. */
  lemma CrossedTwice(g: Graph, u: int, v: int, p: seq<int>) returns (r: seq<int>)
    requires Symmetric(g) && NonNegative(g) && u != v && IsWalk(g, p) && Crossings(p, u, v) >= 2
    ensures Joins(g, r, p[0], p[|p| - 1]) && Cost(g, r) <= Cost(g, p) && Crossings(r, u, v) < Crossings(p, u, v)
  {
    hide Cost, Crossings, IsWalk, NonNegative;
    var j := LastCrossing(p, u, v);
    var i := LastCrossing(p[..j + 1], u, v);
    var front, back := p[..i + 1], p[j + 1..];
    CutAt(g, u, v, p, j + 1);
    CutAt(g, u, v, p[..j + 1], i + 1);
    assert p[..j + 1][..i + 1] == front && front[|front| - 1] == p[i];
    CostsAreNonNegative(g, p[..j + 1][i + 1..]);
    LinkWeighs(g, u, v, p[i], p[i + 1]);
    LinkWeighs(g, u, v, p[j], p[j + 1]);
    if p[j] == p[i] {
      Appended(g, front, back);
      CrossAppended(front, back, u, v);
      r := front + back;
    } else {
      Glued(g, u, v, front, back);
      r := front + back[1..];
    }
  }

  lemma LinkWeighs(g: Graph, u: int, v: int, x: int, y: int)
    requires Symmetric(g) && NonNegative(g) && OverLink(u, v, x, y) && x in g && y in g[x]
    ensures HasLink(g, u, v) && g[x][y] == g[u][v] >= 0
  {
  }

  /** Changing the weight of a link adds no walk. */
  lemma WalkWasThere(g: Graph, u: int, v: int, w: int, p: seq<int>)
    requires Symmetric(g) && u != v && HasLink(g, u, v) && IsWalk(WithLink(g, u, v, w), p)
    ensures IsWalk(g, p)
  {
    hide WithLink;
    var h := WithLink(g, u, v, w);
    forall i | 0 <= i < |p| ensures p[i] in g {
      LinkAdds(g, u, v, w, p[i], p[i]);
    }
    forall i | 0 <= i < |p| - 1 ensures p[i + 1] in g[p[i]] {
      assert p[i + 1] in h[p[i]];
      LinkAdds(g, u, v, w, p[i], p[i + 1]);
    }
  }

  /** The answer takes the link, once, and is still below infinity and no dearer than what avoids the link. */
  ghost predicate WorthIt(g: Graph, u: int, v: int, w: int, s: int, t: int, infinity: int, path: seq<int>)
    requires IsWalk(g, path)
  {
    && Crossings(path, u, v) == 1 && CostWith(g, u, v, w, path) < infinity
    && forall p :: Joins(g, p, s, t) && Crossings(p, u, v) == 0 ==> CostWith(g, u, v, w, path) <= Cost(g, p)
  }

  lemma HeavierExactly(g: Graph, u: int, v: int, w: int, s: int, t: int, infinity: int, path: seq<int>)
    requires Closed(g) && NonNegative(g) && Symmetric(g) && u != v && HasLink(g, u, v) && g[u][v] < w
    requires IsShortest(g, s, t, infinity, path)
    ensures IsShortest(WithLink(g, u, v, w), s, t, infinity, path) <==>
            path == [] || Crossings(path, u, v) == 0 || WorthIt(g, u, v, w, s, t, infinity, path)
  {
    hide WithLink, IsWalk, Cost, Closed, NonNegative, Symmetric, Crossings;
    var h, d := WithLink(g, u, v, w), w - g[u][v];
    if path != [] {
      WalkStays(g, u, v, w, path);
    }
    if path == [] || Crossings(path, u, v) == 0 || WorthIt(g, u, v, w, s, t, infinity, path) {
      forall p | Joins(h, p, s, t)
        ensures (if path == [] then infinity else CostWith(g, u, v, w, path)) <= Cost(h, p)
      {
        WalkWasThere(g, u, v, w, p);
        WalkStays(g, u, v, w, p);
        Signs(Crossings(p, u, v), d);
      }
    } else if IsShortest(h, s, t, infinity, path) {
      if Crossings(path, u, v) > 1 {
        var r := CrossedTwice(g, u, v, path);
        WalkStays(g, u, v, w, r);
        Fewer(Crossings(r, u, v), Crossings(path, u, v), d);
      } else {
        forall p | Joins(g, p, s, t) && Crossings(p, u, v) == 0 ensures CostWith(g, u, v, w, path) <= Cost(g, p) {
          WalkStays(g, u, v, w, p);
        }
      }
      assert false;
    }
  }

  lemma Fewer(m: int, n: int, d: int)
    requires m < n && 0 < d
    ensures m * d < n * d
  {
  }

  // ----- a link to a node that is new -----

  /** A walk of the graph with the node that touches the graph before is one of its walks, at the same cost. */
  lemma WalkOfBoth(g: Graph, n: int, p: seq<int>)
    requires Closed(g) && n !in g
    ensures IsWalk(g, p) ==> IsWalk(g[n := map[]], p) && Cost(g, p) == Cost(g[n := map[]], p)
    ensures IsWalk(g[n := map[]], p) && (p[0] in g || p[|p| - 1] in g) ==> IsWalk(g, p)
  {
    hide Cost;
    if IsWalk(g[n := map[]], p) {
      NodeJoinsNothing(g, n, p);
    }
    if IsWalk(g, p) {
      CostOfBoth(g, n, p);
    }
  }

  lemma {:induction false} CostOfBoth(g: Graph, n: int, p: seq<int>)
    requires n !in g && IsWalk(g, p)
    ensures IsWalk(g[n := map[]], p) && Cost(g, p) == Cost(g[n := map[]], p)
    decreases |p|
  {
    forall i | 0 <= i < |p| - 1 ensures p[i + 1] in g[n := map[]][p[i]] {
      assert p[i + 1] in g[p[i]];
    }
    if |p| > 1 {
      FirstPart(g, p, |p| - 1);
      CostOfBoth(g, n, p[..|p| - 1]);
    }
  }

  lemma ShortestOfBoth(g: Graph, n: int, s: int, t: int, infinity: int, path: seq<int>)
    requires Closed(g) && n !in g && s in g && t in g
    ensures IsShortest(g, s, t, infinity, path) <==> IsShortest(g[n := map[]], s, t, infinity, path)
  {
    hide IsWalk, Cost, Closed;
    var k := g[n := map[]];
    forall p | Joins(g, p, s, t) ensures Joins(k, p, s, t) && Cost(g, p) == Cost(k, p) {
      WalkOfBoth(g, n, p);
    }
    forall p | Joins(k, p, s, t) ensures Joins(g, p, s, t) && Cost(g, p) == Cost(k, p) {
      WalkOfBoth(g, n, p);
    }
  }

  lemma NoneOverBoth(g: Graph, n: int, a: int, b: int, w: int, s: int, t: int, bound: int)
    requires Closed(g) && n !in g && s in g && t in g
    ensures NoneOver(g, a, b, w, s, t, bound) <==> NoneOver(g[n := map[]], a, b, w, s, t, bound)
  {
    hide IsWalk, Cost, Closed;
    var k := g[n := map[]];
    if NoneOver(g, a, b, w, s, t, bound) {
      forall p, q | Joins(k, p, s, a) && Joins(k, q, b, t) ensures bound <= Cost(k, p) + w + Cost(k, q) {
        WalkOfBoth(g, n, p);
        WalkOfBoth(g, n, q);
        assert Joins(g, p, s, a) && Joins(g, q, b, t);
      }
    }
    if NoneOver(k, a, b, w, s, t, bound) {
      forall p, q | Joins(g, p, s, a) && Joins(g, q, b, t) ensures bound <= Cost(g, p) + w + Cost(g, q) {
        WalkOfBoth(g, n, p);
        WalkOfBoth(g, n, q);
        assert Joins(k, p, s, a) && Joins(k, q, b, t);
      }
    }
  }

  lemma NodeKeepsShape(g: Graph, n: int)
    requires Closed(g) && NonNegative(g) && Symmetric(g) && n !in g
    ensures var k := g[n := map[]]; Closed(k) && NonNegative(k) && Symmetric(k)
  {
  }

  lemma NodeThenLink(g: Graph, u: int, v: int, w: int, n: int)
    requires u != v && n !in g && (n == u || n == v)
    ensures WithLink(g[n := map[]], u, v, w) == WithLink(g, u, v, w)
  {
  }

  // ----- the exact condition -----

  /** Is a cheapest walk of the graph, or no walk, still the answer when AddConnection has linked `u` and `v`, or
      changed the weight of their link?  All that is asked of is the graph as it was. */
  ghost predicate StillRight(g: Graph, u: int, v: int, w: int, s: int, t: int, infinity: int, path: seq<int>)
    requires path == [] || IsWalk(g, path)
  {
    if HasLink(g, u, v) && g[u][v] < w then
      path == [] || Crossings(path, u, v) == 0 || WorthIt(g, u, v, w, s, t, infinity, path)
    else
      NoDetour(g, u, v, w, s, t, Bound(g, u, v, w, infinity, path))
  }

  /** The answer for the graph as it was is right for the graph as it is if and only if that holds. */
  lemma {:induction false} StaleExactly(g: Graph, u: int, v: int, w: int, s: int, t: int, infinity: int, path: seq<int>)
    requires Closed(g) && NonNegative(g) && Symmetric(g) && u != v && 0 <= w && s in g && t in g
    requires IsShortest(g, s, t, infinity, path)
    ensures IsShortest(WithLink(g, u, v, w), s, t, infinity, path) <==> StillRight(g, u, v, w, s, t, infinity, path)
    decreases (if u in g then 0 else 1) + if v in g then 0 else 1
  {
    hide WithLink, IsWalk, Cost, Closed, NonNegative, Symmetric, Crossings, WorthIt, NoneOver;
    if HasLink(g, u, v) && g[u][v] < w {
      HeavierExactly(g, u, v, w, s, t, infinity, path);
    } else if u in g && v in g {
      LighterExactly(g, u, v, w, s, t, infinity, path);
    } else {
      var n := if u in g then v else u;
      var k := g[n := map[]];
      NodeKeepsShape(g, n);
      NodeThenLink(g, u, v, w, n);
      ShortestOfBoth(g, n, s, t, infinity, path);
      StaleExactly(k, u, v, w, s, t, infinity, path);
      NotLinked(g, u, v, n);
      if path != [] {
        WalkOfBoth(g, n, path);
      }
      var bound := Bound(g, u, v, w, infinity, path);
      NoneOverBoth(g, n, u, v, w, s, t, bound);
      NoneOverBoth(g, n, v, u, w, s, t, bound);
    }
  }

  lemma NotLinked(g: Graph, u: int, v: int, n: int)
    requires Closed(g) && Symmetric(g) && n !in g && (n == u || n == v)
    ensures !HasLink(g, u, v) && !HasLink(g[n := map[]], u, v)
  {
  }
}
