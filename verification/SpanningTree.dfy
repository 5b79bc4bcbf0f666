/** The spanning tree of `DS_WeightedGraph.h`: the shortest paths to a list of nodes, laid over each other
    and copied to a tree of `DS_Tree.h`. */
module SpanningTrees {

  import opened Collections
  import opened ShortestPaths
  import opened OrderedLists
  import opened WeightedGraphs
  import opened GraphPaths

  class Tree {
    var data: int
    var children: seq<Tree>

    constructor (data: int)
      ensures this.data == data && children == []
    {
      this.data := data;
      children := [];
    }
  }

  // ----- paths laid over each other -----

  /** `up` says of each node but the start which node the paths come from: such a node again or the start,
      and one that was settled earlier. */
  ghost predicate ComesFrom(up: map<int, int>, start: int, rank: map<int, nat>) {
    && start !in up
    && (forall v :: v in up ==> up[v] == start || up[v] in up)
    && (forall v :: v in up ==> v in rank && up[v] in rank && rank[up[v]] < rank[v])
  }

  /** Is there a step between the nodes, one way or the other? */
  ghost predicate Step(up: map<int, int>, x: int, y: int) {
    (y in up && up[y] == x) || (x in up && up[x] == y)
  }

  /** `out` has the links of `up`, both ways, and no others. */
  ghost predicate Mirrors(out: Graph, up: map<int, int>, start: int) {
    && out.Keys == (if up == map[] then {} else up.Keys + {start})
    && (forall x, y :: x in out ==> (y in out[x] <==> Step(up, x, y)))
  }

  lemma ComesFromGrows(up: map<int, int>, start: int, rank: map<int, nat>, u: int, v: int)
    requires ComesFrom(up, start, rank) && v != start && (u == start || u in up)
    requires u in rank && v in rank && rank[u] < rank[v]
    ensures ComesFrom(up[v := u], start, rank)
  {
  }

  lemma MirrorsGrow(out: Graph, up: map<int, int>, start: int, rank: map<int, nat>, u: int, v: int, weight: int)
    requires Mirrors(out, up, start) && ComesFrom(up, start, rank)
    requires u != v && v != start && (u == start || u in up) && (v in up ==> up[v] == u)
    ensures Mirrors(WithLink(out, u, v, weight), up[v := u], start)
  {
    hide WithLink;
    var h, up' := WithLink(out, u, v, weight), up[v := u];
    LinkAdds(out, u, v, weight, u, v);
    assert up'.Keys == up.Keys + {v};
    forall x, y | x in h ensures y in h[x] <==> Step(up', x, y) {
      LinkAdds(out, u, v, weight, x, y);
    }
    hide Step;
    assert Mirrors(h, up', start);
  }

  // ----- the copying, as listings of names -----

  /** The nodes come from `x`, in increasing order. */
  ghost predicate ListsKids(kids: seq<int>, up: map<int, int>, x: int) {
    && (forall i, j :: 0 <= i < j < |kids| ==> kids[i] < kids[j])
    && (forall y :: y in kids <==> y in up && up[y] == x)
  }

  /** The names of the tree nodes made so far, the first `done` of which have got their children. */
  ghost predicate Listed(names: seq<int>, done: nat, up: map<int, int>, start: int) {
    && done <= |names| && Distinct(names)
    && |names| > 0 && names[0] == start
    && (forall k :: 0 < k < |names| ==> names[k] in up)
    && (forall y :: y in up ==> (y in names <==> up[y] in names[..done]))
  }

  lemma ListedGrows(names: seq<int>, done: nat, up: map<int, int>, start: int, kids: seq<int>)
    requires Listed(names, done, up, start) && done < |names| && start !in up
    requires ListsKids(kids, up, names[done])
    ensures Listed(names + kids, done + 1, up, start)
  {
    var all := names + kids;
    assert all[..done + 1] == names[..done] + [names[done]];
    forall y | y in up ensures y in all <==> up[y] in all[..done + 1] {
      assert y in all <==> y in names || y in kids;
    }
    forall i, j | 0 <= i < j < |all| ensures all[i] != all[j] {
      if i < |names| <= j {
        assert all[j] in kids && up[all[j]] == names[done];
        assert names[done] !in names[..done];
      }
    }
  }

  /** Every node has been listed once all have got their children, as following `up` leads to the start. */
  lemma {:induction false} AllListed(names: seq<int>, up: map<int, int>, start: int, rank: map<int, nat>, v: int)
    requires Listed(names, |names|, up, start) && v in up && ComesFrom(up, start, rank)
    ensures v in names
    decreases rank[v]
  {
    assert names[..|names|] == names;
    if up[v] != start {
      AllListed(names, up, start, rank, up[v]);
    }
  }

  lemma NotTooMany(names: seq<int>, done: nat, up: map<int, int>, start: int)
    requires Listed(names, done, up, start)
    ensures |names| <= |up| + 1
  {
    var all := set x | x in names;
    DistinctCardinality(names);
    assert all <= up.Keys + {start};
    var rest := up.Keys + {start} - all;
    assert up.Keys + {start} == all + rest;
  }

  // ----- the tree -----

  /** The children of `t` are of `made`; they are the nodes come from `t`'s, in increasing order. */
  ghost predicate Hangs(t: Tree, made: seq<Tree>, up: map<int, int>)
    reads t, made`data
  {
    && (forall c :: 0 <= c < |t.children| ==>
          t.children[c] in made && t.children[c].data in up && up[t.children[c].data] == t.data)
    && (forall c, d :: 0 <= c < d < |t.children| ==> t.children[c].data < t.children[d].data)
    && (forall v :: v in up && up[v] == t.data ==>
          exists c :: 0 <= c < |t.children| && t.children[c].data == v)
  }

  /** The trees in `made` are what was made of the nodes in `names`; the first `done` have their children. */
  ghost predicate Made(made: seq<Tree>, names: seq<int>, done: nat, up: map<int, int>)
    reads made
  {
    && |made| == |names| && done <= |made|
    && (forall k :: 0 <= k < |made| ==> made[k].data == names[k])
    && (forall i, j :: 0 <= i < j < |made| ==> made[i] != made[j])
    && (forall k :: 0 <= k < done ==> Hangs(made[k], made, up))
    && (forall k :: done <= k < |made| ==> made[k].children == [])
  }

  /** The tree spans: its nodes are the start and the nodes on the paths, each of them once, and every
      node hangs under the node that the paths come to it from. */
  ghost predicate Spans(made: seq<Tree>, up: map<int, int>, start: int)
    reads made
  {
    && |made| > 0 && made[0].data == start
    && (forall i, j :: 0 <= i < j < |made| ==> made[i].data != made[j].data)
    && (forall v :: (exists k :: 0 <= k < |made| && made[k].data == v) <==> v == start || v in up)
    && (forall k :: 0 <= k < |made| ==> Hangs(made[k], made, up))
  }

  datatype NodeAndParent = NodeAndParent(node: Tree, parent: Tree)

  /** The keys that are not left out. */
  ghost function Others(keys: seq<int>, except: set<int>): seq<int> {
    if keys == [] then []
    else
      var last := keys[|keys| - 1];
      Others(keys[..|keys| - 1], except) + if last in except then [] else [last]
  }

  lemma {:induction false} OthersAreListed(keys: seq<int>, except: set<int>)
    requires forall i, j :: 0 <= i < j < |keys| ==> keys[i] < keys[j]
    ensures forall y :: y in Others(keys, except) <==> y in keys && y !in except
    ensures forall i, j :: 0 <= i < j < |Others(keys, except)| ==>
              Others(keys, except)[i] < Others(keys, except)[j]
  {
    hide Others;
    OthersStep(keys, except);
    if keys != [] {
      var rest, last := keys[..|keys| - 1], keys[|keys| - 1];
      OthersAreListed(rest, except);
      assert keys == rest + [last];
      var r := Others(rest, except);
      forall i | 0 <= i < |r| ensures r[i] < last {
        assert r[i] in r;
      }
    }
  }

  lemma OthersStep(keys: seq<int>, except: set<int>)
    ensures Others([], except) == []
    ensures keys != [] ==>
              var rest, last := keys[..|keys| - 1], keys[|keys| - 1];
              Others(keys, except) == Others(rest, except) + if last in except then [] else [last]
  {
  }

  /** Hang a new tree under `current` for each of its links but the one to its parent. */
  method HangChildren(current: Tree, parent: Tree?, keys: seq<int>) returns (more: seq<Tree>)
    requires current.children == []
    modifies current`children
    ensures current.children == more && fresh(more)
    ensures var kids := Others(keys, if parent == null then {} else {parent.data});
            |more| == |kids| && forall i :: 0 <= i < |more| ==> more[i].data == kids[i] && more[i].children == []
    ensures forall i, j :: 0 <= i < j < |more| ==> more[i] != more[j]
  {
    more := [];
    ghost var except := if parent == null then {} else {parent.data};
    assert keys[..0] == [];
    var i := 0;
    while i < |keys|
      invariant 0 <= i <= |keys|
      invariant current.children == more && fresh(more)
      invariant |more| == |Others(keys[..i], except)|
      invariant forall k :: 0 <= k < |more| ==>
                  more[k].data == Others(keys[..i], except)[k] && more[k].children == []
      invariant forall k, j :: 0 <= k < j < |more| ==> more[k] != more[j]
    {
      var key := keys[i];
      assert keys[..i + 1][..i] == keys[..i];
      if parent == null || key != parent.data {
        var node := new Tree(key);
        more := more + [node];
        current.children := current.children + [node];
      }
      i := i + 1;
    }
    assert keys[..i] == keys;
  }

  /** What lies under `x` in the tree: its links, without the one up. */
  lemma LinksDown(out: Graph, up: map<int, int>, start: int, rank: map<int, nat>, x: int)
    requires Mirrors(out, up, start) && ComesFrom(up, start, rank) && x in out
    ensures ListsKids(Others(InOrder(out[x].Keys), if x in up then {up[x]} else {}), up, x)
  {
    hide InOrder, Others;
    var except := if x in up then {up[x]} else {};
    OthersAreListed(InOrder(out[x].Keys), except);
    forall y ensures y in Others(InOrder(out[x].Keys), except) <==> y in up && up[y] == x {
      assert y in out[x] <==> Step(up, x, y);
      if x in up && up[x] == y && y in up {
        assert rank[up[y]] < rank[y] < rank[x];
      }
    }
  }

  /** Children hung under the first node without: it counts as done, they are new. */
  lemma MadeGrows(made: seq<Tree>, names: seq<int>, done: nat, up: map<int, int>, more: seq<Tree>, kids: seq<int>)
    requires |made| == |names| && done < |made|
    requires forall k :: 0 <= k < |made| ==> made[k].data == names[k]
    requires forall i, j :: 0 <= i < j < |made| ==> made[i] != made[j]
    requires forall k :: 0 <= k < done ==> Hangs(made[k], made, up)
    requires forall k :: done < k < |made| ==> made[k].children == []
    requires made[done].children == more && |more| == |kids| && ListsKids(kids, up, names[done])
    requires forall i :: 0 <= i < |more| ==> more[i].data == kids[i] && more[i].children == [] && more[i] !in made
    requires forall i, j :: 0 <= i < j < |more| ==> more[i] != more[j]
    ensures Made(made + more, names + kids, done + 1, up)
  {
    hide Hangs, ListsKids;
    var all := made + more;
    forall k | 0 <= k < done ensures Hangs(all[k], all, up) {
      HangsInMore(made[k], made, more, up);
    }
    forall k | 0 <= k < |all| ensures all[k].data == (names + kids)[k] && (done < k ==> all[k].children == []) {
      assert k < |made| ==> all[k] == made[k];
    }
    HangsNow(made[done], all, up, kids);
    ApartTogether(made, more);
  }

  lemma ApartTogether(made: seq<Tree>, more: seq<Tree>)
    requires forall i, j :: 0 <= i < j < |made| ==> made[i] != made[j]
    requires forall i, j :: 0 <= i < j < |more| ==> more[i] != more[j]
    requires forall i :: 0 <= i < |more| ==> more[i] !in made
    ensures forall i, j :: 0 <= i < j < |made + more| ==> (made + more)[i] != (made + more)[j]
  {
    var all := made + more;
    forall i, j | 0 <= i < j < |all| ensures all[i] != all[j] {
      if i < |made| <= j {
        assert all[j] == more[j - |made|];
      }
    }
  }

  lemma HangsInMore(t: Tree, made: seq<Tree>, more: seq<Tree>, up: map<int, int>)
    requires Hangs(t, made, up)
    ensures Hangs(t, made + more, up)
  {
  }

  lemma HangsNow(t: Tree, all: seq<Tree>, up: map<int, int>, kids: seq<int>)
    requires forall c :: 0 <= c < |t.children| ==> t.children[c] in all
    requires |t.children| == |kids| && ListsKids(kids, up, t.data)
    requires forall c :: 0 <= c < |t.children| ==> t.children[c].data == kids[c]
    ensures Hangs(t, all, up)
  {
    forall c | 0 <= c < |t.children| ensures t.children[c].data in up && up[t.children[c].data] == t.data {
      assert kids[c] in kids;
    }
    forall v | v in up && up[v] == t.data
      ensures exists c :: 0 <= c < |t.children| && t.children[c].data == v
    {
      assert v in kids;
      var c :| 0 <= c < |kids| && kids[c] == v;
      assert t.children[c].data == v;
    }
  }

  /** The queue holds the nodes without children, each with its parent. */
  ghost predicate Queued(queue: seq<NodeAndParent>, made: seq<Tree>, names: seq<int>, done: nat, up: map<int, int>)
    requires |made| == |names|
    reads made`data
  {
    && done <= |made| && |queue| == |made| - done
    && (forall i :: 0 <= i < |queue| ==> Waits(queue[i], made, names, done + i, up))
  }

  /** The k-th node made is in the queue with its parent. */
  ghost predicate Waits(nap: NodeAndParent, made: seq<Tree>, names: seq<int>, k: int, up: map<int, int>)
    requires 0 <= k < |made| == |names|
    reads made`data
  {
    nap.node == made[k] && names[k] in up && nap.parent in made && nap.parent.data == up[names[k]]
  }

  lemma QueuedGrows(queue: seq<NodeAndParent>, made: seq<Tree>, names: seq<int>, done: nat, up: map<int, int>,
                    more: seq<Tree>, kids: seq<int>, new': seq<NodeAndParent>)
    requires |made| == |names| && Queued(queue, made, names, done, up) && done < |made|
    requires made[done].data == names[done]
    requires |more| == |kids| == |new'| && ListsKids(kids, up, names[done])
    requires forall i :: 0 <= i < |new'| ==> new'[i] == NodeAndParent(more[i], made[done])
    ensures Queued(queue[1..] + new', made + more, names + kids, done + 1, up)
  {
    var q := queue[1..] + new';
    forall i | 0 <= i < |q| ensures Waits(q[i], made + more, names + kids, done + 1 + i, up) {
      if i < |queue| - 1 {
        var k := i + 1;
        assert q[i] == queue[k] && Waits(queue[k], made, names, done + k, up);
        assert (made + more)[done + k] == made[done + k] && (names + kids)[done + k] == names[done + k];
      } else {
        var k := i - (|queue| - 1);
        assert q[i] == new'[k] && kids[k] in kids;
        assert (made + more)[|made| + k] == more[k] && (names + kids)[|made| + k] == kids[k];
        assert (made + more)[done] == made[done];
      }
    }
  }

  function Naps(nodes: seq<Tree>, parent: Tree): (r: seq<NodeAndParent>)
    ensures |r| == |nodes| && forall i :: 0 <= i < |r| ==> r[i] == NodeAndParent(nodes[i], parent)
  {
    seq(|nodes|, i requires 0 <= i < |nodes| => NodeAndParent(nodes[i], parent))
  }

  /** The state of the copying. */
  ghost predicate Copying(queue: seq<NodeAndParent>, made: seq<Tree>, names: seq<int>, done: nat,
                          up: map<int, int>, start: int)
    reads made
  {
    Made(made, names, done, up) && Listed(names, done, up, start) && Queued(queue, made, names, done, up)
  }

  /** One turn of the loop: take a node from the queue, hang its children under it and queue them. */
  method CopyNode(out: Graph, nodesToProcess: seq<NodeAndParent>, ghost made: seq<Tree>, ghost names: seq<int>,
                  ghost done: nat, ghost up: map<int, int>, ghost start: int, ghost rank: map<int, nat>)
    returns (queue: seq<NodeAndParent>, ghost more: seq<Tree>, ghost kids: seq<int>)
    requires Mirrors(out, up, start) && ComesFrom(up, start, rank) && |nodesToProcess| > 0
    requires Copying(nodesToProcess, made, names, done, up, start)
    modifies made`children
    ensures fresh(more) && Copying(queue, made + more, names + kids, done + 1, up, start)
    ensures done < |up| + 1
  {
    hide InOrder, Others, Hangs, Listed;
    var nap := nodesToProcess[0];
    var current := nap.node;
    NotTooMany(names, done, up, start);
    LinksDown(out, up, start, rank, current.data);
    kids := Others(InOrder(out[current.data].Keys), {nap.parent.data});
    assert allocated(made);
    var below := HangChildren(current, nap.parent, InOrder(out[current.data].Keys));
    more := below;
    assert forall k :: 0 <= k < done ==> Hangs(made[k], made, up);
    ListedGrows(names, done, up, start, kids);
    MadeGrows(made, names, done, up, more, kids);
    QueuedGrows(nodesToProcess, made, names, done, up, more, kids, Naps(below, current));
    queue := nodesToProcess[1..] + Naps(below, current);
  }

  /** Hang the children of the start under the root. */
  method CopyStart(out: Graph, outTree: Tree, startNode: int, ghost up: map<int, int>, ghost rank: map<int, nat>)
    returns (queue: seq<NodeAndParent>, ghost more: seq<Tree>, ghost kids: seq<int>)
    requires Mirrors(out, up, startNode) && ComesFrom(up, startNode, rank) && startNode in out
    requires outTree.children == [] && outTree.data == startNode
    modifies outTree`children
    ensures fresh(more) && Copying(queue, [outTree] + more, [startNode] + kids, 1, up, startNode)
  {
    hide InOrder, Others, Hangs;
    LinksDown(out, up, startNode, rank, startNode);
    assert Listed([startNode], 0, up, startNode);
    kids := Others(InOrder(out[startNode].Keys), {});
    var below := HangChildren(outTree, null, InOrder(out[startNode].Keys));
    more := below;
    ListedGrows([startNode], 0, up, startNode, kids);
    MadeGrows([outTree], [startNode], 0, up, more, kids);
    queue := Naps(below, outTree);
    QueuedAtFirst(outTree, startNode, up, more, kids, queue);
  }

  lemma QueuedAtFirst(outTree: Tree, start: int, up: map<int, int>, more: seq<Tree>, kids: seq<int>,
                      queue: seq<NodeAndParent>)
    requires outTree.data == start && |more| == |kids| == |queue| && ListsKids(kids, up, start)
    requires forall i :: 0 <= i < |queue| ==> queue[i] == NodeAndParent(more[i], outTree)
    ensures Queued(queue, [outTree] + more, [start] + kids, 1, up)
  {
    forall i | 0 <= i < |kids| ensures kids[i] in up && up[kids[i]] == start {
      assert kids[i] in kids;
    }
  }

  /** Copy the links to a tree, breadth first.  It ends because no node is ever come to twice. */
  method CopyToTree(out: Graph, outTree: Tree, startNode: int, ghost up: map<int, int>, ghost rank: map<int, nat>)
    returns (ghost made: seq<Tree>)
    requires Mirrors(out, up, startNode) && ComesFrom(up, startNode, rank) && startNode in out
    requires outTree.children == [] && outTree.data == startNode
    modifies outTree`children
    ensures Spans(made, up, startNode) && made[0] == outTree && fresh(made[1..])
  {
    hide Made, Listed, Queued, Mirrors, ComesFrom, Spans;
    var nodesToProcess;
    ghost var more, kids;
    nodesToProcess, more, kids := CopyStart(out, outTree, startNode, up, rank);
    ghost var names, done := [startNode] + kids, 1;
    made := [outTree] + more;
    while |nodesToProcess| > 0
      invariant |made| > 0 && made[0] == outTree && fresh(made[1..])
      invariant Copying(nodesToProcess, made, names, done, up, startNode)
      decreases |up| + 1 - done
    {
      nodesToProcess, more, kids := CopyNode(out, nodesToProcess, made, names, done, up, startNode, rank);
      made, names, done := made + more, names + kids, done + 1;
    }
    SpansNow(made, names, done, up, startNode, rank);
  }

  lemma SpansNow(made: seq<Tree>, names: seq<int>, done: nat, up: map<int, int>, start: int, rank: map<int, nat>)
    requires Copying([], made, names, done, up, start) && ComesFrom(up, start, rank)
    ensures Spans(made, up, start)
  {
    hide Hangs;
    forall v | v in up ensures exists k :: 0 <= k < |made| && made[k].data == v {
      AllListed(names, up, start, rank, v);
      var k :| 0 <= k < |names| && names[k] == v;
      assert made[k].data == v;
    }
  }

  // ----- laying the paths over each other -----

  /** A path from the start on which every node is settled later than the one before, and comes from where
      all paths laid so far come to it. */
  ghost predicate Layable(path: seq<int>, up: map<int, int>, start: int, rank: map<int, nat>) {
    && |path| > 0 && path[0] == start
    && (forall j :: 0 <= j < |path| ==> path[j] in rank)
    && (forall j :: 0 < j < |path| ==> path[j] != start)
    && (forall j, k :: 0 <= j < k < |path| ==> rank[path[j]] < rank[path[k]])
    && (forall j, k :: 0 <= j < |path| && k == j + 1 < |path| && path[k] in up ==> up[path[k]] == path[j])
  }

  /** `up` with the first `n` nodes of a path laid over it. */
  ghost predicate Laid(path: seq<int>, n: nat, up: map<int, int>, up': map<int, int>) {
    && n <= |path|
    && (forall v :: v in up' <==> v in up || exists j :: 0 < j < n && path[j] == v)
    && (forall v :: v in up ==> up'[v] == up[v])
    && (forall j, k :: 0 <= j < n && k == j + 1 < n ==> path[k] in up' && up'[path[k]] == path[j])
  }

  /** The next link of the path starts where the graph of paths already reaches, and fits what it holds. */
  lemma LinkFits(path: seq<int>, n: nat, up: map<int, int>, up': map<int, int>, start: int, rank: map<int, nat>)
    requires Layable(path, up, start, rank) && 0 < n < |path| && Laid(path, n, up, up')
    ensures path[n - 1] == start || path[n - 1] in up'
    ensures path[n] in up' ==> up'[path[n]] == path[n - 1]
    ensures forall j :: 0 <= j < n ==> path[j] != path[n]
  {
    assert forall j :: 0 <= j < n ==> rank[path[j]] < rank[path[n]];
  }

  lemma LaidOneMore(path: seq<int>, n: nat, up: map<int, int>, up': map<int, int>, start: int, rank: map<int, nat>)
    requires Layable(path, up, start, rank) && 0 < n < |path| && Laid(path, n, up, up')
    ensures path[n - 1] == start || path[n - 1] in up'
    ensures path[n] in up' ==> up'[path[n]] == path[n - 1]
    ensures Laid(path, n + 1, up, up'[path[n] := path[n - 1]])
  {
    hide Layable;
    LinkFits(path, n, up, up', start, rank);
    var more := up'[path[n] := path[n - 1]];
    forall v ensures v in more <==> v in up || exists j :: 0 < j < n + 1 && path[j] == v {
      if v == path[n] {
        assert v in more;
      }
    }
  }

  /** Add the links of a path to the graph of paths.  The path from the start to itself has none. */
  method AddPath(outGraph: WeightedGraph, path: seq<int>, INFINITE_WEIGHT: int, ghost up: map<int, int>,
                 ghost start: int, ghost rank: map<int, nat>)
    returns (ghost up': map<int, int>)
    requires outGraph.Valid() && Mirrors(outGraph.adjacencyLists, up, start) && ComesFrom(up, start, rank)
    requires path == [start, start] || Layable(path, up, start, rank)
    modifies outGraph`adjacencyLists
    ensures outGraph.Valid() && Mirrors(outGraph.adjacencyLists, up', start) && ComesFrom(up', start, rank)
    ensures if path == [start, start] then up' == up else Laid(path, |path|, up, up')
  {
    hide Mirrors, ComesFrom, Laid, WithLink;
    ghost var trivial := path == [start, start];
    up' := up;
    LaidNothing(path, up);
    var j := 0;
    while j < |path| - 1
      invariant 0 <= j < |path|
      invariant outGraph.Valid() && Mirrors(outGraph.adjacencyLists, up', start) && ComesFrom(up', start, rank)
      invariant if trivial then up' == up else Laid(path, j + 1, up, up')
    {
      if !trivial {
        LaidOneMore(path, j + 1, up, up', start, rank);
        MirrorsGrow(outGraph.adjacencyLists, up', start, rank, path[j], path[j + 1], INFINITE_WEIGHT);
        ComesFromGrows(up', start, rank, path[j], path[j + 1]);
        up' := up'[path[j + 1] := path[j]];
      }
      outGraph.AddConnection(path[j], path[j + 1], INFINITE_WEIGHT);
      j := j + 1;
    }
  }

  lemma LaidNothing(path: seq<int>, up: map<int, int>)
    requires |path| > 0
    ensures Laid(path, 1, up, up)
  {
  }

  // ----- the routes of a run can be laid over each other -----

  /** When a node was given its distance, counted from the start. */
  ghost function RankOf(g: Graph, start: int, infinity: int, order: seq<int>): map<int, nat>
    requires |g.Keys| > 2 ==> NearestFirst(g, start, infinity, order)
  {
    map v | v in g ::
      if v == start then 0
      else if |g.Keys| > 2 && Reached(g, start, infinity, order, v) then
        LastChange(g, start, infinity, order, v) + 1
      else 1
  }

  /** Does `u` come before `v` on the paths of GetShortestPath? */
  ghost predicate Precedes(g: Graph, start: int, infinity: int, order: seq<int>, u: int, v: int)
    requires |g.Keys| > 2 ==> NearestFirst(g, start, infinity, order)
  {
    && v in g && v != start
    && if |g.Keys| > 2 then Gave(g, start, infinity, order, u, v) else u == start
  }

  lemma PrecedesRanks(g: Graph, start: int, infinity: int, order: seq<int>, u: int, v: int)
    requires Closed(g) && NonNegative(g) && 0 <= infinity && start in g
    requires |g.Keys| > 2 ==> NearestFirst(g, start, infinity, order)
    requires Precedes(g, start, infinity, order, u, v)
    ensures var rank := RankOf(g, start, infinity, order);
            u in rank && v in rank && rank[u] < rank[v]
  {
    hide Distances, LastChange, IsNearest, Closed, NonNegative;
    if |g.Keys| > 2 {
      var i := LastChange(g, start, infinity, order, v);
      if i > 0 {
        PreviousStands(g, start, infinity, order, i, |order|);
      }
    }
  }

  /** Is `v` on the path found to `x`, other than as the start? */
  ghost predicate OnPath(g: Graph, start: int, infinity: int, order: seq<int>, x: int, v: int)
    requires |g.Keys| > 2 ==> NearestFirst(g, start, infinity, order)
  {
    && x != start && x in g && v != start
    && if |g.Keys| > 2 then Reached(g, start, infinity, order, x) && v in Route(g, start, infinity, order, x)
       else v == x
  }

  /** `up` is the paths to all of `inputs` laid over each other. */
  ghost predicate Overlaid(g: Graph, start: int, infinity: int, order: seq<int>, inputs: seq<int>, up: map<int, int>)
    requires |g.Keys| > 2 ==> NearestFirst(g, start, infinity, order)
  {
    && (forall v :: v in up <==> exists i :: 0 <= i < |inputs| && OnPath(g, start, infinity, order, inputs[i], v))
    && (forall v :: v in up ==> Precedes(g, start, infinity, order, up[v], v))
  }

  /** The path GetShortestPath finds to a node other than the start. */
  ghost predicate Found(g: Graph, start: int, infinity: int, order: seq<int>, x: int, path: seq<int>)
    requires |g.Keys| > 2 ==> NearestFirst(g, start, infinity, order)
  {
    && x != start && x in g
    && if |g.Keys| > 2 then
         Reached(g, start, infinity, order, x) && path == Route(g, start, infinity, order, x)
       else path == [start, x]
  }

  lemma FoundSteps(g: Graph, start: int, infinity: int, order: seq<int>, x: int, path: seq<int>)
    requires Closed(g) && NonNegative(g) && 0 <= infinity && start in g
    requires |g.Keys| > 2 ==> NearestFirst(g, start, infinity, order)
    requires Found(g, start, infinity, order, x, path)
    ensures |path| > 0 && path[0] == start
    ensures forall j, k :: 0 <= j < |path| && k == j + 1 < |path| ==>
              Precedes(g, start, infinity, order, path[j], path[k])
  {
    hide Gave, Reached, Distances, Route, IsNearest, Closed, NonNegative;
    if |g.Keys| > 2 {
      RouteCostsDistance(g, start, infinity, order, x);
      RouteFollowsPrevious(g, start, infinity, order, x);
      forall j, k | 0 <= j < |path| && k == j + 1 < |path|
        ensures Precedes(g, start, infinity, order, path[j], path[k])
      {
        assert Gave(g, start, infinity, order, path[j], path[j + 1]);
        GaveNode(g, start, infinity, order, path[j], path[j + 1]);
      }
    }
  }

  lemma GaveNode(g: Graph, start: int, infinity: int, order: seq<int>, u: int, v: int)
    requires forall i :: 0 <= i < |order| ==> order[i] in g
    requires Gave(g, start, infinity, order, u, v)
    ensures v in g && v != start
  {
  }

  lemma {:induction false} RanksGrow(g: Graph, start: int, infinity: int, order: seq<int>, path: seq<int>,
                                     j: nat, k: nat)
    requires Closed(g) && NonNegative(g) && 0 <= infinity && start in g
    requires |g.Keys| > 2 ==> NearestFirst(g, start, infinity, order)
    requires forall j, k :: 0 <= j < |path| && k == j + 1 < |path| ==>
               Precedes(g, start, infinity, order, path[j], path[k])
    requires j < k < |path|
    ensures var rank := RankOf(g, start, infinity, order);
            path[j] in rank && path[k] in rank && rank[path[j]] < rank[path[k]]
    decreases k
  {
    hide Precedes, RankOf, NearestFirst;
    PrecedesRanks(g, start, infinity, order, path[k - 1], path[k]);
    if j < k - 1 {
      RanksGrow(g, start, infinity, order, path, j, k - 1);
    }
  }

  lemma FoundIsLayable(g: Graph, start: int, infinity: int, order: seq<int>, inputs: seq<int>, up: map<int, int>,
                       x: int, path: seq<int>)
    requires Closed(g) && NonNegative(g) && 0 <= infinity && start in g
    requires |g.Keys| > 2 ==> NearestFirst(g, start, infinity, order)
    requires Overlaid(g, start, infinity, order, inputs, up) && Found(g, start, infinity, order, x, path)
    ensures Layable(path, up, start, RankOf(g, start, infinity, order))
  {
    hide RankOf, OnPath, Found, Precedes, Closed, NonNegative, IsNearest;
    FoundSteps(g, start, infinity, order, x, path);
    StartRanks(g, start, infinity, order);
    forall j, k | 0 <= j < k < |path|
      ensures path[j] in RankOf(g, start, infinity, order) && path[k] in RankOf(g, start, infinity, order)
      ensures RankOf(g, start, infinity, order)[path[j]] < RankOf(g, start, infinity, order)[path[k]]
    {
      RanksGrow(g, start, infinity, order, path, j, k);
    }
    hide NearestFirst;
    forall j | 0 < j < |path| ensures path[j] != start {
      PrecedesOnce(g, start, infinity, order, path[j - 1], path[j - 1], path[j]);
    }
    forall j, k | 0 <= j < |path| && k == j + 1 < |path| && path[k] in up ensures up[path[k]] == path[j] {
      PrecedesOnce(g, start, infinity, order, up[path[k]], path[j], path[k]);
    }
  }

  lemma StartRanks(g: Graph, start: int, infinity: int, order: seq<int>)
    requires |g.Keys| > 2 ==> NearestFirst(g, start, infinity, order)
    requires start in g
    ensures start in RankOf(g, start, infinity, order)
  {
  }

  lemma PrecedesOnce(g: Graph, start: int, infinity: int, order: seq<int>, u: int, u': int, v: int)
    requires |g.Keys| > 2 ==> NearestFirst(g, start, infinity, order)
    requires Precedes(g, start, infinity, order, u, v) && Precedes(g, start, infinity, order, u', v)
    ensures u == u' && v != start
  {
  }

  /** Laying one more found path. */
  lemma OverlaidGrows(g: Graph, start: int, infinity: int, order: seq<int>, inputs: seq<int>, up: map<int, int>,
                      x: int, path: seq<int>, up': map<int, int>)
    requires Closed(g) && NonNegative(g) && 0 <= infinity && start in g
    requires |g.Keys| > 2 ==> NearestFirst(g, start, infinity, order)
    requires Overlaid(g, start, infinity, order, inputs, up) && Found(g, start, infinity, order, x, path)
    requires Laid(path, |path|, up, up')
    ensures Overlaid(g, start, infinity, order, inputs + [x], up')
  {
    FoundSteps(g, start, infinity, order, x, path);
    forall v ensures OnPath(g, start, infinity, order, x, v) <==> exists j :: 0 < j < |path| && path[j] == v {
      if v in path && v != start {
        var j :| 0 <= j < |path| && path[j] == v;
        assert j > 0;
      }
      if exists j :: 0 < j < |path| && path[j] == v {
        var j :| 0 < j < |path| && path[j] == v;
        assert Precedes(g, start, infinity, order, path[j - 1], path[j]);
      }
    }
    hide NearestFirst, OnPath, Found;
    var all := inputs + [x];
    forall v ensures v in up' <==> exists i :: 0 <= i < |all| && OnPath(g, start, infinity, order, all[i], v) {
      if exists i :: 0 <= i < |inputs| && OnPath(g, start, infinity, order, inputs[i], v) {
        var i :| 0 <= i < |inputs| && OnPath(g, start, infinity, order, inputs[i], v);
        assert all[i] == inputs[i];
      }
      if OnPath(g, start, infinity, order, x, v) {
        assert all[|inputs|] == x;
      }
    }
    forall v | v in up' ensures Precedes(g, start, infinity, order, up'[v], v) {
      if v !in up {
        var k :| 0 < k < |path| && path[k] == v;
        assert Precedes(g, start, infinity, order, path[k - 1], path[k]);
        assert up'[path[k]] == path[k - 1];
      }
    }
  }

  // ----- the spanning tree -----

  /** What the graph keeps between the searches: once a search has been made, the run in the cache; before
      that, nothing has been found. */
  ghost predicate Searching(graph: WeightedGraph, start: int, infinity: int, inputs: seq<int>, up: map<int, int>)
    reads graph, graph.costMatrix, graph.leastNodeArray
  {
    && graph.Valid() && NonNegative(graph.adjacencyLists) && start in graph.adjacencyLists
    && (graph.rootNode == start ==> graph.CacheFits(infinity))
    && if graph.isValidPath && graph.rootNode == start then
         && (|graph.Asked(start).Keys| > 2 ==> NearestFirst(graph.Asked(start), start, infinity, graph.order))
         && Overlaid(graph.Asked(start), start, infinity, graph.order, inputs, up)
       else
         up == map[] && forall i :: 0 <= i < |inputs| ==> inputs[i] == start || inputs[i] !in graph.Asked(start)
  }

  lemma NothingOverlaid(g: Graph, start: int, infinity: int, order: seq<int>, inputs: seq<int>, x: int,
                        up: map<int, int>)
    requires |g.Keys| > 2 ==> NearestFirst(g, start, infinity, order)
    requires Overlaid(g, start, infinity, order, inputs, up)
    requires forall v :: !OnPath(g, start, infinity, order, x, v)
    ensures Overlaid(g, start, infinity, order, inputs + [x], up)
  {
    hide OnPath, NearestFirst, Precedes;
    var all := inputs + [x];
    forall v ensures v in up <==> exists i :: 0 <= i < |all| && OnPath(g, start, infinity, order, all[i], v) {
      if exists i :: 0 <= i < |inputs| && OnPath(g, start, infinity, order, inputs[i], v) {
        var i :| 0 <= i < |inputs| && OnPath(g, start, infinity, order, inputs[i], v);
        assert all[i] == inputs[i];
      }
    }
  }

  lemma NothingFoundYet(g: Graph, start: int, infinity: int, order: seq<int>, inputs: seq<int>)
    requires |g.Keys| > 2 ==> NearestFirst(g, start, infinity, order)
    requires forall i :: 0 <= i < |inputs| ==> inputs[i] == start || inputs[i] !in g
    ensures Overlaid(g, start, infinity, order, inputs, map[])
  {
  }

  lemma NothingComes(start: int, rank: map<int, nat>)
    ensures ComesFrom(map[], start, rank)
  {
  }

  /** The ranks of the run in the cache. */
  ghost function Ranks(g: Graph, start: int, infinity: int, order: seq<int>): map<int, nat> {
    if |g.Keys| > 2 && !NearestFirst(g, start, infinity, order) then map[] else RankOf(g, start, infinity, order)
  }

  /** The state of the search together with the graph of the paths found. */
  ghost predicate Laying(graph: WeightedGraph, out: Graph, start: int, infinity: int, inputs: seq<int>,
                         up: map<int, int>)
    reads graph, graph.costMatrix, graph.leastNodeArray
  {
    && Searching(graph, start, infinity, inputs, up)
    && Mirrors(out, up, start)
    && ComesFrom(up, start, Ranks(graph.Asked(start), start, infinity, graph.order))
  }

  /** What a search finds. */
  ghost predicate Answered(graph: WeightedGraph, start: int, infinity: int, x: int, path: seq<int>, result: bool)
    reads graph
  {
    var g := graph.Asked(start);
    if x == start then result && path == [start, start]
    else if x !in g then !result
    else
      && result && graph.isValidPath && graph.rootNode == start
      && (|g.Keys| > 2 ==> NearestFirst(g, start, infinity, graph.order))
      && if path == [] then forall v :: !OnPath(g, start, infinity, graph.order, x, v)
         else Found(g, start, infinity, graph.order, x, path)
  }

  /** One search: it disturbs nothing found before. */
  method Search(graph: WeightedGraph, ghost out: Graph, startNode: int, x: int, INFINITE_WEIGHT: int,
                ghost inputs: seq<int>, ghost up: map<int, int>)
    returns (path: seq<int>, result: bool)
    requires 0 <= INFINITE_WEIGHT
    requires Laying(graph, out, startNode, INFINITE_WEIGHT, inputs, up)
    modifies graph`isValidPath, graph`rootNode, graph`costMatrixIndices, graph`costMatrix, graph`leastNodeArray
    modifies graph`traced, graph`order
    ensures Laying(graph, out, startNode, INFINITE_WEIGHT, inputs, up)
    ensures Answered(graph, startNode, INFINITE_WEIGHT, x, path, result)
    ensures graph.Asked(startNode) == old(graph.Asked(startNode))
  {
    hide ComesFrom, Mirrors, Overlaid, IsShortest, Route, Ranks, Distances, InOrder, Traced, IsNearest, Closed,
      Symmetric, NearestFirst, NonNegative, WeightedGraph.MatrixFits, OnPath, Found, Reached;
    ghost var g, order := graph.Asked(startNode), graph.order;
    ghost var ready := graph.isValidPath && graph.rootNode == startNode;
    SameNodes(graph, startNode, INFINITE_WEIGHT);
    path, result := graph.GetShortestPath(startNode, x, INFINITE_WEIGHT);
    SameNodes(graph, startNode, INFINITE_WEIGHT);
    if x != startNode && x in g {
      TwoNodes(g, startNode, x);
    }
    assert Answered(graph, startNode, INFINITE_WEIGHT, x, path, result) by {
      OutcomeIs(graph, startNode, INFINITE_WEIGHT, x, path, result);
    }
    SearchKeeps(graph, out, startNode, INFINITE_WEIGHT, inputs, up, ready, order);
  }

  lemma SameNodes(graph: WeightedGraph, start: int, infinity: int)
    requires graph.rootNode == start ==> graph.CacheFits(infinity)
    ensures graph.Asked(start).Keys == graph.adjacencyLists.Keys
  {
  }

  lemma OutcomeIs(graph: WeightedGraph, start: int, infinity: int, x: int, path: seq<int>, result: bool)
    requires start in graph.Asked(start) && graph.Asked(start).Keys == graph.adjacencyLists.Keys
    requires Answers(graph.Asked(start), start, x, infinity, path, result)
    requires start != x ==> graph.isValidPath && graph.rootNode == start
    requires start != x && x in graph.Asked(start) ==> |graph.Asked(start).Keys| >= 2
    requires start != x && |graph.Asked(start).Keys| > 2 && x in graph.Asked(start) ==>
               IsRoute(graph.Asked(start), start, infinity, graph.order, x, path)
    ensures Answered(graph, start, infinity, x, path, result)
  {
    hide Distances, IsNearest, IsShortest, NearestFirst, Route, Reached;
    if start != x && |graph.Asked(start).Keys| > 2 && x in graph.Asked(start) {
      RouteOrNothing(graph.Asked(start), start, infinity, graph.order, x, path);
    }
  }

  lemma RouteOrNothing(g: Graph, start: int, infinity: int, order: seq<int>, x: int, path: seq<int>)
    requires IsRoute(g, start, infinity, order, x, path) && x in g && x != start && |g.Keys| > 2
    ensures NearestFirst(g, start, infinity, order)
    ensures if path == [] then forall v :: !OnPath(g, start, infinity, order, x, v)
            else Found(g, start, infinity, order, x, path)
  {
    hide Distances, IsNearest;
  }

  /** A search either was not the first, and then the run in the cache is still there, or nothing had been
      found before it. */
  lemma SearchKeeps(graph: WeightedGraph, out: Graph, start: int, infinity: int, inputs: seq<int>,
                    up: map<int, int>, ready: bool, order: seq<int>)
    requires graph.Valid() && NonNegative(graph.adjacencyLists) && start in graph.adjacencyLists
    requires graph.rootNode == start ==> graph.CacheFits(infinity)
    requires Mirrors(out, up, start)
    requires ComesFrom(up, start, Ranks(graph.Asked(start), start, infinity, order))
    requires if ready then
               && graph.isValidPath && graph.rootNode == start && graph.order == order
               && (|graph.Asked(start).Keys| > 2 ==> NearestFirst(graph.Asked(start), start, infinity, order))
               && Overlaid(graph.Asked(start), start, infinity, order, inputs, up)
             else
               up == map[] && forall i :: 0 <= i < |inputs| ==> inputs[i] == start || inputs[i] !in graph.Asked(start)
    ensures Laying(graph, out, start, infinity, inputs, up)
  {
    hide ComesFrom, Mirrors, Overlaid, Ranks, InOrder, Closed, Symmetric, NearestFirst, Filled, Finished, History;
    if !ready {
      NothingComes(start, Ranks(graph.Asked(start), start, infinity, graph.order));
      if graph.isValidPath && graph.rootNode == start {
        TwoNodesOrRun(graph, start, infinity);
        NothingFoundYet(graph.Asked(start), start, infinity, graph.order, inputs);
      }
    }
  }

  lemma TwoNodes(g: Graph, u: int, v: int)
    requires u in g && v in g && u != v
    ensures |g.Keys| >= 2
  {
    assert {u, v} <= g.Keys;
    SubsetCardinality({u, v}, g.Keys);
  }

  lemma TwoNodesOrRun(graph: WeightedGraph, start: int, infinity: int)
    requires graph.isValidPath && graph.rootNode == start && graph.CacheFits(infinity)
    ensures |graph.Asked(start).Keys| > 2 ==> NearestFirst(graph.Asked(start), start, infinity, graph.order)
  {
  }

  /** Find the path to one more node and add it to the graph of paths. */
  method LayPath(graph: WeightedGraph, outGraph: WeightedGraph, startNode: int, x: int, INFINITE_WEIGHT: int,
                 ghost inputs: seq<int>, ghost up: map<int, int>)
    returns (ghost up': map<int, int>)
    requires graph != outGraph && 0 <= INFINITE_WEIGHT && outGraph.Valid()
    requires Laying(graph, outGraph.adjacencyLists, startNode, INFINITE_WEIGHT, inputs, up)
    modifies graph`isValidPath, graph`rootNode, graph`costMatrixIndices, graph`costMatrix, graph`leastNodeArray
    modifies graph`traced, graph`order, outGraph`adjacencyLists
    ensures outGraph.Valid() && graph.Asked(startNode) == old(graph.Asked(startNode))
    ensures Laying(graph, outGraph.adjacencyLists, startNode, INFINITE_WEIGHT, inputs + [x], up')
  {
    hide Closed, NonNegative, Symmetric, Laying, Answered;
    var path, result := Search(graph, outGraph.adjacencyLists, startNode, x, INFINITE_WEIGHT, inputs, up);
    up' := AddFound(graph, outGraph, startNode, x, INFINITE_WEIGHT, path, result, inputs, up);
  }

  method AddFound(ghost graph: WeightedGraph, outGraph: WeightedGraph, ghost startNode: int, ghost x: int,
                  INFINITE_WEIGHT: int, path: seq<int>, result: bool, ghost inputs: seq<int>, ghost up: map<int, int>)
    returns (ghost up': map<int, int>)
    requires graph != outGraph && 0 <= INFINITE_WEIGHT && outGraph.Valid()
    requires Laying(graph, outGraph.adjacencyLists, startNode, INFINITE_WEIGHT, inputs, up)
    requires Answered(graph, startNode, INFINITE_WEIGHT, x, path, result)
    modifies outGraph`adjacencyLists
    ensures outGraph.Valid()
    ensures Laying(graph, outGraph.adjacencyLists, startNode, INFINITE_WEIGHT, inputs + [x], up')
  {
    hide *;
    ghost var rank := Ranks(graph.Asked(startNode), startNode, INFINITE_WEIGHT, graph.order);
    BeforeAdding(graph, outGraph.adjacencyLists, startNode, INFINITE_WEIGHT, x, path, result, inputs, up);
    up' := up;
    if result && |path| > 0 {
      up' := AddPath(outGraph, path, INFINITE_WEIGHT, up, startNode, rank);
    }
    AfterAdding(graph, outGraph.adjacencyLists, startNode, INFINITE_WEIGHT, x, path, result, inputs, up, up');
  }

  lemma BeforeAdding(graph: WeightedGraph, out: Graph, start: int, infinity: int, x: int, path: seq<int>,
                     result: bool, inputs: seq<int>, up: map<int, int>)
    requires 0 <= infinity
    requires Laying(graph, out, start, infinity, inputs, up) && Answered(graph, start, infinity, x, path, result)
    ensures Searching(graph, start, infinity, inputs, up)
    ensures var rank := Ranks(graph.Asked(start), start, infinity, graph.order);
            && Mirrors(out, up, start) && ComesFrom(up, start, rank)
            && (result && |path| > 0 ==> path == [start, start] || Layable(path, up, start, rank))
  {
    hide ComesFrom, Mirrors, Overlaid, Ranks, OnPath, Found, Layable, NearestFirst, Closed, NonNegative, Symmetric;
    if x != start && x in graph.Asked(start) && path != [] {
      FoundIsLaid(graph.Asked(start), start, infinity, graph.order, inputs, up, x, path);
    }
  }

  lemma AfterAdding(graph: WeightedGraph, out: Graph, start: int, infinity: int, x: int, path: seq<int>,
                    result: bool, inputs: seq<int>, up: map<int, int>, up': map<int, int>)
    requires 0 <= infinity
    requires Searching(graph, start, infinity, inputs, up) && Answered(graph, start, infinity, x, path, result)
    requires Mirrors(out, up', start)
    requires ComesFrom(up', start, Ranks(graph.Asked(start), start, infinity, graph.order))
    requires if result && |path| > 0 && path != [start, start] then Laid(path, |path|, up, up') else up' == up
    ensures Laying(graph, out, start, infinity, inputs + [x], up')
  {
    hide ComesFrom, Mirrors, Overlaid, Ranks, OnPath, Found, Laid, NearestFirst, Closed, NonNegative, Symmetric;
    if x == start || x !in graph.Asked(start) || path == [] {
      AddNothing(graph, start, infinity, x, path, inputs, up);
    } else {
      FoundIsLaid(graph.Asked(start), start, infinity, graph.order, inputs, up, x, path);
      OverlaidGrows(graph.Asked(start), start, infinity, graph.order, inputs, up, x, path, up');
    }
    LaidMore(graph, out, start, infinity, inputs, up, x, up');
  }

  /** No path, or the path from the start to itself, adds nothing. */
  lemma AddNothing(graph: WeightedGraph, start: int, infinity: int, x: int, path: seq<int>, inputs: seq<int>,
                   up: map<int, int>)
    requires Searching(graph, start, infinity, inputs, up)
    requires x == start || x !in graph.Asked(start) || path == []
    requires x != start && x in graph.Asked(start) ==> Answered(graph, start, infinity, x, path, true)
    ensures if graph.isValidPath && graph.rootNode == start then
              Overlaid(graph.Asked(start), start, infinity, graph.order, inputs + [x], up)
            else x == start || x !in graph.Asked(start)
  {
    hide Overlaid, OnPath, Found, NearestFirst, Closed, Symmetric;
    if graph.isValidPath && graph.rootNode == start {
      NoPath(graph.Asked(start), start, infinity, graph.order, x);
      NothingOverlaid(graph.Asked(start), start, infinity, graph.order, inputs, x, up);
    }
  }

  lemma LaidMore(graph: WeightedGraph, out: Graph, start: int, infinity: int, inputs: seq<int>, up: map<int, int>,
                 x: int, up': map<int, int>)
    requires Searching(graph, start, infinity, inputs, up)
    requires Mirrors(out, up', start)
    requires ComesFrom(up', start, Ranks(graph.Asked(start), start, infinity, graph.order))
    requires if graph.isValidPath && graph.rootNode == start then
               Overlaid(graph.Asked(start), start, infinity, graph.order, inputs + [x], up')
             else up' == up && (x == start || x !in graph.Asked(start))
    ensures Laying(graph, out, start, infinity, inputs + [x], up')
  {
    hide ComesFrom, Mirrors, Overlaid, Ranks, NearestFirst;
  }

  lemma NoPath(g: Graph, start: int, infinity: int, order: seq<int>, x: int)
    requires |g.Keys| > 2 ==> NearestFirst(g, start, infinity, order)
    ensures x == start || x !in g ==> forall v :: !OnPath(g, start, infinity, order, x, v)
  {
  }

  lemma FoundIsLaid(g: Graph, start: int, infinity: int, order: seq<int>, inputs: seq<int>, up: map<int, int>,
                    x: int, path: seq<int>)
    requires Closed(g) && NonNegative(g) && 0 <= infinity && start in g
    requires |g.Keys| > 2 ==> NearestFirst(g, start, infinity, order)
    requires Overlaid(g, start, infinity, order, inputs, up) && Found(g, start, infinity, order, x, path)
    ensures Layable(path, up, start, Ranks(g, start, infinity, order)) && path != [start, start]
  {
    hide Overlaid, Found, NearestFirst;
    FoundIsLayable(g, start, infinity, order, inputs, up, x, path);
    assert |path| > 1 ==> path[1] != start;
  }

  /** Lay the shortest paths from the start to the input nodes over each other and copy them to a tree. */
  method GetSpanningTree(graph: WeightedGraph, outTree: Tree, inputNodes: seq<int>, startNode: int,
                         INFINITE_WEIGHT: int)
    returns (result: bool, ghost made: seq<Tree>, ghost up: map<int, int>)
    requires graph.Valid() && NonNegative(graph.adjacencyLists) && 0 <= INFINITE_WEIGHT
    requires startNode in graph.adjacencyLists && outTree.children == []
    requires graph.rootNode == startNode ==> graph.CacheFits(INFINITE_WEIGHT)
    modifies graph`isValidPath, graph`rootNode, graph`costMatrixIndices, graph`costMatrix, graph`leastNodeArray
    modifies graph`traced, graph`order, outTree
    ensures graph.Asked(startNode) == old(graph.Asked(startNode))
    ensures Searching(graph, startNode, INFINITE_WEIGHT, inputNodes, up)
    ensures ComesFrom(up, startNode, Ranks(graph.Asked(startNode), startNode, INFINITE_WEIGHT, graph.order))
    ensures result <==> up != map[]
    ensures result ==> Spans(made, up, startNode) && made[0] == outTree && fresh(made[1..])
    ensures !result ==> outTree.data == startNode && outTree.children == []
  {
    hide Closed, Symmetric, NonNegative, Mirrors, ComesFrom, Overlaid, Ranks, Spans, NearestFirst, InOrder,
      WeightedGraph.MatrixFits, WeightedGraph.Valid, Laying;
    var outGraph := new WeightedGraph();
    made := [];
    LayNothing(graph, outGraph.adjacencyLists, startNode, INFINITE_WEIGHT);
    up := LayAll(graph, outGraph, inputNodes, startNode, INFINITE_WEIGHT);
    outTree.data := startNode;
    assert Laying(graph, outGraph.adjacencyLists, startNode, INFINITE_WEIGHT, inputNodes, up);
    LayingMeans(graph, outGraph.adjacencyLists, startNode, INFINITE_WEIGHT, inputNodes, up);
    StartMirrored(outGraph.adjacencyLists, up, startNode);
    if startNode !in outGraph.adjacencyLists {
      return false, made, up;
    }
    made := CopyToTree(outGraph.adjacencyLists, outTree, startNode, up,
                       Ranks(graph.Asked(startNode), startNode, INFINITE_WEIGHT, graph.order));
    result := true;
  }

  /** The loop over the input nodes (DS_WeightedGraph.h:337-348). */
  method LayAll(graph: WeightedGraph, outGraph: WeightedGraph, inputNodes: seq<int>, startNode: int,
                INFINITE_WEIGHT: int)
    returns (ghost up: map<int, int>)
    requires graph != outGraph && 0 <= INFINITE_WEIGHT && outGraph.Valid()
    requires Laying(graph, outGraph.adjacencyLists, startNode, INFINITE_WEIGHT, [], map[])
    modifies graph`isValidPath, graph`rootNode, graph`costMatrixIndices, graph`costMatrix, graph`leastNodeArray
    modifies graph`traced, graph`order, outGraph`adjacencyLists
    ensures outGraph.Valid() && graph.Asked(startNode) == old(graph.Asked(startNode))
    ensures Laying(graph, outGraph.adjacencyLists, startNode, INFINITE_WEIGHT, inputNodes, up)
  {
    hide *;
    up := map[];
    assert inputNodes[..0] == [];
    var i := 0;
    while i < |inputNodes|
      invariant 0 <= i <= |inputNodes|
      invariant outGraph.Valid() && graph.Asked(startNode) == old(graph.Asked(startNode))
      invariant Laying(graph, outGraph.adjacencyLists, startNode, INFINITE_WEIGHT, inputNodes[..i], up)
    {
      assert inputNodes[..i + 1] == inputNodes[..i] + [inputNodes[i]];
      up := LayPath(graph, outGraph, startNode, inputNodes[i], INFINITE_WEIGHT, inputNodes[..i], up);
      i := i + 1;
    }
    assert inputNodes[..i] == inputNodes;
  }

  lemma LayingMeans(graph: WeightedGraph, out: Graph, start: int, infinity: int, inputs: seq<int>,
                    up: map<int, int>)
    requires Laying(graph, out, start, infinity, inputs, up)
    ensures Searching(graph, start, infinity, inputs, up) && Mirrors(out, up, start)
    ensures ComesFrom(up, start, Ranks(graph.Asked(start), start, infinity, graph.order))
  {
  }

  /** A way down the tree: each node is a child of the one before. */
  ghost predicate Descends(ts: seq<Tree>)
    reads ts
  {
    forall j, k :: 0 <= j && k == j + 1 < |ts| ==> ts[k] in ts[j].children
  }

  /** The nodes of the graph on it. */
  ghost function Names(ts: seq<Tree>): (p: seq<int>)
    reads ts
    ensures |p| == |ts| && forall k :: 0 <= k < |ts| ==> p[k] == ts[k].data
  {
    seq(|ts|, k requires 0 <= k < |ts| reads ts => ts[k].data)
  }

  lemma {:induction false} StaysInTree(made: seq<Tree>, up: map<int, int>, start: int, ts: seq<Tree>, k: nat)
    requires Spans(made, up, start) && Descends(ts) && k < |ts| && ts[0] == made[0]
    ensures ts[k] in made && Hangs(ts[k], made, up)
    ensures k > 0 ==> ts[k].data in up && up[ts[k].data] == ts[k - 1].data
  {
    hide Hangs;
    if k > 0 {
      StaysInTree(made, up, start, ts, k - 1);
      ChildHangs(ts[k - 1], ts[k], made, up);
    }
    var i :| 0 <= i < |made| && made[i] == ts[k];
  }

  lemma ChildHangs(t: Tree, child: Tree, made: seq<Tree>, up: map<int, int>)
    requires Hangs(t, made, up) && child in t.children
    ensures child in made && child.data in up && up[child.data] == t.data
  {
  }

  /** Walking down the tree spells a cheapest walk of the graph from the start. */
  lemma TreeSpellsShortest(graph: WeightedGraph, made: seq<Tree>, up: map<int, int>, start: int, infinity: int,
                           inputs: seq<int>, ts: seq<Tree>)
    requires Searching(graph, start, infinity, inputs, up) && |graph.Asked(start).Keys| > 2 && 0 <= infinity
    requires Spans(made, up, start) && Descends(ts) && |ts| > 1 && ts[0] == made[0]
    ensures IsShortest(graph.Asked(start), start, Names(ts)[|ts| - 1], infinity, Names(ts))
  {
    hide *;
    RootIsStart(made, up, start);
    StaysInTree(made, up, start, ts, 1);
    SearchTraced(graph, start, infinity, inputs, up, ts[1].data);
    TreeFollows(graph.Asked(start), made, up, start, infinity, graph.order, inputs, ts);
    TheWayIsShortest(graph.Asked(start), start, infinity, graph.order, Names(ts));
  }

  /** A search that has put a node in the tree has asked a finished run. */
  lemma SearchTraced(graph: WeightedGraph, start: int, infinity: int, inputs: seq<int>, up: map<int, int>, v: int)
    requires Searching(graph, start, infinity, inputs, up) && |graph.Asked(start).Keys| > 2 && v in up
    ensures var g := graph.Asked(start);
            && Closed(g) && NonNegative(g)
            && NearestFirst(g, start, infinity, graph.order)
            && Finished(g, Distances(g, start, infinity, graph.order), infinity, graph.order)
            && Overlaid(g, start, infinity, graph.order, inputs, up)
  {
    hide Distances, IsNearest, Finished, Overlaid, Filled, History, InOrder, Closed, NonNegative, Symmetric;
  }

  /** Each step down the tree goes from the one who gave the child its distance. */
  lemma TreeFollows(g: Graph, made: seq<Tree>, up: map<int, int>, start: int, infinity: int, order: seq<int>,
                    inputs: seq<int>, ts: seq<Tree>)
    requires |g.Keys| > 2 && NearestFirst(g, start, infinity, order)
    requires Overlaid(g, start, infinity, order, inputs, up)
    requires Spans(made, up, start) && Descends(ts) && |ts| > 1 && ts[0] == made[0]
    ensures FollowsPrevious(g, start, infinity, order, Names(ts))
  {
    hide Spans, Hangs, Descends, Names, Distances, IsNearest, Gave, OnPath;
    var p := Names(ts);
    forall j | 0 <= j < |p| - 1 ensures Gave(g, start, infinity, order, p[j], p[j + 1]) {
      StaysInTree(made, up, start, ts, j + 1);
      assert Precedes(g, start, infinity, order, up[p[j + 1]], p[j + 1]);
    }
  }

  lemma RootIsStart(made: seq<Tree>, up: map<int, int>, start: int)
    requires Spans(made, up, start)
    ensures |made| > 0 && made[0].data == start
  {
  }

  lemma StartMirrored(out: Graph, up: map<int, int>, start: int)
    requires Mirrors(out, up, start)
    ensures start in out <==> up != map[]
  {
  }

  lemma LayNothing(graph: WeightedGraph, out: Graph, start: int, infinity: int)
    requires graph.Valid() && NonNegative(graph.adjacencyLists) && start in graph.adjacencyLists && out == map[]
    requires graph.rootNode == start ==> graph.CacheFits(infinity)
    ensures Laying(graph, out, start, infinity, [], map[])
  {
    hide Closed, Symmetric, NearestFirst, InOrder, Filled, Finished, History;
    NothingComes(start, Ranks(graph.Asked(start), start, infinity, graph.order));
    if graph.isValidPath && graph.rootNode == start {
      TwoNodesOrRun(graph, start, infinity);
      NothingFoundYet(graph.Asked(start), start, infinity, graph.order, []);
    }
  }
}
