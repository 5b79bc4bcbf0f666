/** The binary heap of `DS_Heap.h`: a list in which every node's parent may stand above it. */
module Heaps {

  /** `weight` orders the heap, `data` is carried along. */
  datatype HeapNode<D> = HeapNode(weight: int, data: D)

  /** The order of the heap: may `a` be the parent of `b`?  (`max` is the template's isMaxHeap.) */
  predicate Above(max: bool, a: int, b: int) {
    if max then b <= a else a <= b
  }

  function Parent(i: nat): nat
    requires i != 0
  {
    (i - 1) / 2
  }

  /** Every node other than the root has its parent above it. */
  ghost predicate Ordered<D>(max: bool, s: seq<HeapNode<D>>) {
    forall i {:trigger Parent(i)} :: 0 < i < |s| ==> Above(max, s[Parent(i)].weight, s[i].weight)
  }

  function Swapped<D>(s: seq<HeapNode<D>>, i: nat, j: nat): (t: seq<HeapNode<D>>)
    requires i < |s| && j < |s|
    ensures |t| == |s|
  {
    s[i := s[j]][j := s[i]]
  }

  lemma SwapKeepsNodes<D>(s: seq<HeapNode<D>>, i: nat, j: nat)
    requires i < |s| && j < |s|
    ensures multiset(Swapped(s, i, j)) == multiset(s)
  {
  }

  // ----- sifting, as functions on the list -----

  /** The list after node `i` has climbed as long as its parent may not stand above it. */
  function SiftUp<D>(max: bool, s: seq<HeapNode<D>>, i: nat): (t: seq<HeapNode<D>>)
    requires i < |s|
    ensures |t| == |s|
    decreases i
  {
    if i == 0 || Above(max, s[Parent(i)].weight, s[i].weight) then s
    else SiftUp(max, Swapped(s, i, Parent(i)), Parent(i))
  }

  /** The child the sifted node trades places with; a tie goes to the right child. */
  function Favoured<D>(max: bool, s: seq<HeapNode<D>>, i: nat): (c: nat)
    requires 2 * i + 1 < |s|
    ensures i < c < |s|
  {
    if 2 * i + 2 >= |s| then 2 * i + 1
    else if max then
      if s[2 * i + 1].weight > s[2 * i + 2].weight then 2 * i + 1 else 2 * i + 2
    else
      if s[2 * i + 1].weight < s[2 * i + 2].weight then 2 * i + 1 else 2 * i + 2
  }

  /** The list after node `i` has sunk as long as a child may not stand below it. */
  function SiftDown<D>(max: bool, s: seq<HeapNode<D>>, i: nat): (t: seq<HeapNode<D>>)
    requires i < |s|
    ensures |t| == |s|
    decreases |s| - i
  {
    if 2 * i + 1 >= |s| then s
    else
      var c := Favoured(max, s, i);
      if Above(max, s[i].weight, s[c].weight) then s
      else SiftDown(max, Swapped(s, c, i), c)
  }

  /** `t` is the list once node `i`, if there is one, has sunk. */
  ghost predicate SinksTo<D>(max: bool, s: seq<HeapNode<D>>, i: nat, t: seq<HeapNode<D>>) {
    t == if i < |s| then SiftDown(max, s, i) else s
  }

  /** One step of the sinking. */
  lemma SinkStep<D>(max: bool, s: seq<HeapNode<D>>, i: nat, t: seq<HeapNode<D>>)
    requires i <= |s| && SinksTo(max, s, i, t)
    ensures 2 * i + 1 >= |s| ==> t == s
    ensures 2 * i + 1 < |s| ==>
              var c := Favoured(max, s, i);
              if Above(max, s[i].weight, s[c].weight) then t == s
              else SinksTo(max, Swapped(s, c, i), c, t) && (2 * i + 2 >= |s| ==> t == Swapped(s, c, i))
  {
  }

  function Pushed<D>(max: bool, s: seq<HeapNode<D>>, x: HeapNode<D>): (t: seq<HeapNode<D>>)
    ensures |t| == |s| + 1
  {
    SiftUp(max, s + [x], |s|)
  }

  function Overwritten<D>(s: seq<HeapNode<D>>, i: nat): (t: seq<HeapNode<D>>)
    requires i < |s|
    ensures |t| == |s| - 1
  {
    s[i := s[|s| - 1]][..|s| - 1]
  }

  /** The list after node `i` has been overwritten by the last one, which then sinks. */
  function Popped<D>(max: bool, s: seq<HeapNode<D>>, i: nat): (t: seq<HeapNode<D>>)
    requires i < |s|
    ensures |t| == |s| - 1
  {
    var rest := Overwritten(s, i);
    if i == |s| - 1 then rest else SiftDown(max, rest, i)
  }

  // ----- nodes: nothing is lost or made up -----

  lemma {:induction false} SiftUpKeepsNodes<D>(max: bool, s: seq<HeapNode<D>>, i: nat)
    requires i < |s|
    ensures multiset(SiftUp(max, s, i)) == multiset(s)
    decreases i
  {
    if i != 0 && !Above(max, s[Parent(i)].weight, s[i].weight) {
      SwapKeepsNodes(s, i, Parent(i));
      SiftUpKeepsNodes(max, Swapped(s, i, Parent(i)), Parent(i));
    }
  }

  lemma {:induction false} SiftDownKeepsNodes<D>(max: bool, s: seq<HeapNode<D>>, i: nat)
    requires i < |s|
    ensures multiset(SiftDown(max, s, i)) == multiset(s)
    decreases |s| - i
  {
    if 2 * i + 1 < |s| {
      var c := Favoured(max, s, i);
      if !Above(max, s[i].weight, s[c].weight) {
        SwapKeepsNodes(s, c, i);
        SiftDownKeepsNodes(max, Swapped(s, c, i), c);
      }
    }
  }

  /** Pushing adds exactly the new node. */
  lemma PushAddsNode<D>(max: bool, s: seq<HeapNode<D>>, x: HeapNode<D>)
    ensures multiset(Pushed(max, s, x)) == multiset(s) + multiset{x}
  {
    SiftUpKeepsNodes(max, s + [x], |s|);
  }

  lemma OverwriteRemovesNode<D>(s: seq<HeapNode<D>>, i: nat)
    requires i < |s|
    ensures multiset(Overwritten(s, i)) + multiset{s[i]} == multiset(s)
  {
    var last := |s| - 1;
    assert s == s[..last] + [s[last]];
    if i < last {
      assert s[..last] == s[..i] + [s[i]] + s[i + 1..last];
      assert Overwritten(s, i) == s[..i] + [s[last]] + s[i + 1..last];
    } else {
      assert Overwritten(s, i) == s[..last];
    }
  }

  /** Popping removes exactly the node popped. */
  lemma PopRemovesNode<D>(max: bool, s: seq<HeapNode<D>>, i: nat)
    requires i < |s|
    ensures multiset(Popped(max, s, i)) + multiset{s[i]} == multiset(s)
  {
    OverwriteRemovesNode(s, i);
    if i < |s| - 1 {
      SiftDownKeepsNodes(max, Overwritten(s, i), i);
    }
  }

  // ----- order -----

  /** Ordered but for the link from `i` up, with the nodes under `i` already below `i`'s parent. */
  ghost predicate OrderedExceptUp<D>(max: bool, s: seq<HeapNode<D>>, i: nat) {
    && (forall k {:trigger Parent(k)} :: 0 < k < |s| && k != i ==> Above(max, s[Parent(k)].weight, s[k].weight))
    && (forall k {:trigger Parent(k)} :: 0 < k < |s| && Parent(k) == i && i != 0 && i < |s| ==>
          Above(max, s[Parent(i)].weight, s[k].weight))
  }

  lemma {:induction false} SiftUpOrders<D>(max: bool, s: seq<HeapNode<D>>, i: nat)
    requires i < |s| && OrderedExceptUp(max, s, i)
    ensures Ordered(max, SiftUp(max, s, i))
    decreases i
  {
    if i != 0 && !Above(max, s[Parent(i)].weight, s[i].weight) {
      SiftUpOrders(max, Swapped(s, i, Parent(i)), Parent(i));
    }
  }

  lemma PushOrders<D>(max: bool, s: seq<HeapNode<D>>, x: HeapNode<D>)
    requires Ordered(max, s)
    ensures Ordered(max, Pushed(max, s, x))
  {
    SiftUpOrders(max, s + [x], |s|);
  }

  /** Ordered but for the links from `i` down; `i`'s parent is above whatever sits under `i`. */
  ghost predicate OrderedExceptDown<D>(max: bool, s: seq<HeapNode<D>>, i: nat) {
    && (forall k {:trigger Parent(k)} :: 0 < k < |s| && Parent(k) != i ==> Above(max, s[Parent(k)].weight, s[k].weight))
    && (forall k {:trigger Parent(k)} :: 0 < k < |s| && Parent(k) == i && i != 0 && i < |s| ==>
          Above(max, s[Parent(i)].weight, s[k].weight))
  }

  lemma {:induction false} SiftDownOrders<D>(max: bool, s: seq<HeapNode<D>>, i: nat)
    requires i < |s| && OrderedExceptDown(max, s, i)
    ensures Ordered(max, SiftDown(max, s, i))
    decreases |s| - i
  {
    if 2 * i + 1 < |s| {
      var c := Favoured(max, s, i);
      if !Above(max, s[i].weight, s[c].weight) {
        var t := Swapped(s, c, i);
        assert Parent(c) == i;
        forall k {:trigger Parent(k)} | 0 < k < |t| && Parent(k) != c
          ensures Above(max, t[Parent(k)].weight, t[k].weight)
        {
          assert Parent(i * 2 + 1) == i;
          assert k == i ==> i != 0 && Above(max, s[Parent(i)].weight, s[c].weight);
        }
        SiftDownOrders(max, t, c);
      }
    }
  }

  /** Popping node `i` keeps the order exactly when the node moved into its place may sit there:
      it only ever sinks. */
  lemma PopOrders<D>(max: bool, s: seq<HeapNode<D>>, i: nat)
    requires Ordered(max, s) && i < |s|
    ensures Ordered(max, Popped(max, s, i)) <==>
            i == 0 || i == |s| - 1 || Above(max, s[Parent(i)].weight, s[|s| - 1].weight)
  {
    var rest := Overwritten(s, i);
    if i < |s| - 1 {
      if i == 0 || Above(max, s[Parent(i)].weight, s[|s| - 1].weight) {
        SiftDownOrders(max, rest, i);
      } else {
        if 2 * i + 1 < |rest| {
          assert Parent(Favoured(max, rest, i)) == i;
          assert Above(max, s[Parent(i)].weight, s[i].weight);
        }
        assert Popped(max, s, i) == rest;
        assert !Above(max, rest[Parent(i)].weight, rest[i].weight);
      }
    }
  }

  /** A heap whose order is lost when its fourth node is popped. */
  lemma PopExample() returns (s: seq<HeapNode<int>>)
    ensures s == [HeapNode(1, 0), HeapNode(10, 0), HeapNode(2, 0), HeapNode(11, 0), HeapNode(12, 0), HeapNode(3, 0)]
    ensures Ordered(false, s) && !Ordered(false, Popped(false, s, 3))
  {
    s := [HeapNode(1, 0), HeapNode(10, 0), HeapNode(2, 0), HeapNode(11, 0), HeapNode(12, 0), HeapNode(3, 0)];
    assert Parent(1) == Parent(2) == 0 && Parent(3) == Parent(4) == 1 && Parent(5) == 2;
    PopOrders(false, s, 3);
  }

  /** Among equal weights a node pushed later stays below, and the right child goes up first. */
  lemma TieExample()
    ensures Pushed(true, [HeapNode(7, 'a')], HeapNode(7, 'b')) == [HeapNode(7, 'a'), HeapNode(7, 'b')]
    ensures Pushed(false, [HeapNode(7, 'a')], HeapNode(7, 'b')) == [HeapNode(7, 'a'), HeapNode(7, 'b')]
    ensures Popped(true, [HeapNode(9, 'a'), HeapNode(8, 'b'), HeapNode(8, 'c'), HeapNode(7, 'd')], 0) ==
            [HeapNode(8, 'c'), HeapNode(8, 'b'), HeapNode(7, 'd')]
    ensures Popped(false, [HeapNode(6, 'a'), HeapNode(8, 'b'), HeapNode(8, 'c'), HeapNode(9, 'd')], 0) ==
            [HeapNode(8, 'c'), HeapNode(8, 'b'), HeapNode(9, 'd')]
  {
    var s := [HeapNode(9, 'a'), HeapNode(8, 'b'), HeapNode(8, 'c'), HeapNode(7, 'd')];
    var t := [HeapNode(6, 'a'), HeapNode(8, 'b'), HeapNode(8, 'c'), HeapNode(9, 'd')];
    assert Overwritten(s, 0) == [HeapNode(7, 'd'), HeapNode(8, 'b'), HeapNode(8, 'c')];
    assert Overwritten(t, 0) == [HeapNode(9, 'd'), HeapNode(8, 'b'), HeapNode(8, 'c')];
    assert Swapped(Overwritten(s, 0), 2, 0) == [HeapNode(8, 'c'), HeapNode(8, 'b'), HeapNode(7, 'd')];
    assert Swapped(Overwritten(t, 0), 2, 0) == [HeapNode(8, 'c'), HeapNode(8, 'b'), HeapNode(9, 'd')];
  }

  /** The root of an ordered heap stands above every node. */
  lemma {:induction false} RootIsFirst<D>(max: bool, s: seq<HeapNode<D>>, i: nat)
    requires Ordered(max, s) && i < |s|
    ensures Above(max, s[0].weight, s[i].weight)
    decreases i
  {
    if i != 0 {
      RootIsFirst(max, s, Parent(i));
    }
  }

  lemma RootIsAbove<D>(max: bool, s: seq<HeapNode<D>>, x: HeapNode<D>)
    requires Ordered(max, s) && x in multiset(s)
    ensures Above(max, s[0].weight, x.weight)
  {
    var k :| 0 <= k < |s| && s[k] == x;
    RootIsFirst(max, s, k);
  }

  // ----- draining -----

  /** The nodes in the order in which repeated Pop(0) hands them out. */
  function Drained<D>(max: bool, s: seq<HeapNode<D>>): (t: seq<HeapNode<D>>)
    decreases |s|
  {
    if s == [] then [] else [s[0]] + Drained(max, Popped(max, s, 0))
  }

  lemma {:induction false} DrainKeepsNodes<D>(max: bool, s: seq<HeapNode<D>>)
    ensures multiset(Drained(max, s)) == multiset(s)
    decreases |s|
  {
    if s != [] {
      PopRemovesNode(max, s, 0);
      DrainKeepsNodes(max, Popped(max, s, 0));
    }
  }

  /** Draining a maximum heap gives its nodes from the greatest weight to the least, a minimum heap the other way. */
  lemma DrainSorts<D>(max: bool, s: seq<HeapNode<D>>)
    requires Ordered(max, s)
    ensures multiset(Drained(max, s)) == multiset(s)
    ensures forall i, j :: 0 <= i < j < |Drained(max, s)| ==>
              var a, b := Drained(max, s)[i].weight, Drained(max, s)[j].weight; if max then a >= b else a <= b
  {
    hide Drained, Ordered;
    DrainOrders(max, s);
    forall i, j | 0 <= i < j < |Drained(max, s)|
      ensures var a, b := Drained(max, s)[i].weight, Drained(max, s)[j].weight; if max then a >= b else a <= b
    {
      assert Above(max, Drained(max, s)[i].weight, Drained(max, s)[j].weight);
    }
  }

  lemma {:induction false} DrainOrders<D>(max: bool, s: seq<HeapNode<D>>)
    requires Ordered(max, s)
    ensures multiset(Drained(max, s)) == multiset(s)
    ensures forall i, j :: 0 <= i < j < |Drained(max, s)| ==>
              Above(max, Drained(max, s)[i].weight, Drained(max, s)[j].weight)
    decreases |s|
  {
    hide Popped, Ordered, Above;
    DrainKeepsNodes(max, s);
    if s != [] {
      var rest := Popped(max, s, 0);
      PopOrders(max, s, 0);
      DrainOrders(max, rest);
      var t := Drained(max, rest);
      assert Drained(max, s) == [s[0]] + t;
      forall k | 0 <= k < |t| ensures Above(max, s[0].weight, t[k].weight) {
        assert t[k] == Drained(max, s)[k + 1];
        assert t[k] in multiset(Drained(max, s));
        RootIsAbove(max, s, t[k]);
      }
    }
  }

  // ----- series -----

  /** May the next node of a series go straight to the end: is every possible parent above it? */
  predicate GoesLast<D>(max: bool, s: seq<HeapNode<D>>, weight: int) {
    |s| == 0 || forall i :: Parent(|s|) <= i < |s| ==> Above(max, s[i].weight, weight)
  }

  /** A heap together with the flag that later pushes of the series need no sifting. */
  datatype Series<D> = Series(heap: seq<HeapNode<D>>, optimize: bool)

  function PushedSeries<D>(max: bool, h: Series<D>, x: HeapNode<D>): Series<D> {
    if h.optimize || GoesLast(max, h.heap, x.weight) then Series(h.heap + [x], true)
    else Series(Pushed(max, h.heap, x), false)
  }

  /** What the flag stands for: the last node was of this series and fits under all parents to come. */
  ghost predicate Primed<D>(max: bool, h: Series<D>) {
    h.optimize ==> |h.heap| > 0 && GoesLast(max, h.heap, h.heap[|h.heap| - 1].weight)
  }

  function PushedRun<D>(max: bool, h: Series<D>, xs: seq<HeapNode<D>>): Series<D>
    decreases |xs|
  {
    if xs == [] then h else PushedRun(max, PushedSeries(max, h, xs[0]), xs[1..])
  }

  /** The weights of a series follow the order of the heap. */
  ghost predicate Monotone<D>(max: bool, xs: seq<HeapNode<D>>) {
    forall i, j :: 0 <= i < j < |xs| ==> Above(max, xs[i].weight, xs[j].weight)
  }

  /** One push of a series: order, nodes and the meaning of the flag are kept. */
  lemma SeriesPushOrders<D>(max: bool, h: Series<D>, x: HeapNode<D>)
    requires Ordered(max, h.heap) && Primed(max, h)
    requires h.optimize ==> Above(max, h.heap[|h.heap| - 1].weight, x.weight)
    ensures var r := PushedSeries(max, h, x);
            && Ordered(max, r.heap)
            && Primed(max, r)
            && multiset(r.heap) == multiset(h.heap) + multiset{x}
            && (r.optimize ==> r.heap[|r.heap| - 1] == x)
  {
    if h.optimize || GoesLast(max, h.heap, x.weight) {
      var t := h.heap + [x];
      forall i | Parent(|t|) <= i < |t| ensures Above(max, t[i].weight, x.weight) {
        if |h.heap| > 0 && i < |h.heap| {
          assert Parent(|h.heap|) <= i;
        }
      }
      if |h.heap| > 0 {
        assert Above(max, t[Parent(|h.heap|)].weight, x.weight);
      }
    } else {
      PushOrders(max, h.heap, x);
      PushAddsNode(max, h.heap, x);
    }
  }

  /** A whole series of monotone weights, started with the flag down on any ordered heap, keeps the
      order and loses no node, although most of its nodes are never sifted. */
  lemma {:induction false} SeriesRunOrders<D>(max: bool, h: Series<D>, xs: seq<HeapNode<D>>)
    requires Ordered(max, h.heap) && Primed(max, h) && Monotone(max, xs)
    requires h.optimize && |xs| > 0 ==> Above(max, h.heap[|h.heap| - 1].weight, xs[0].weight)
    ensures Ordered(max, PushedRun(max, h, xs).heap)
    ensures multiset(PushedRun(max, h, xs).heap) == multiset(h.heap) + multiset(xs)
    decreases |xs|
  {
    if xs != [] {
      SeriesPushOrders(max, h, xs[0]);
      SeriesRunOrders(max, PushedSeries(max, h, xs[0]), xs[1..]);
      assert xs == [xs[0]] + xs[1..];
    }
  }

  /** The heap object. */
  class Heap<D> {
    const isMaxHeap: bool
    var heap: seq<HeapNode<D>>
    var optimizeNextSeriesPush: bool

    constructor (max: bool)
      ensures isMaxHeap == max && heap == [] && !optimizeNextSeriesPush
    {
      isMaxHeap := max;
      heap := [];
      optimizeNextSeriesPush := false;
    }

    ghost predicate Valid()
      reads this
    {
      Ordered(isMaxHeap, heap) && Primed(isMaxHeap, Series(heap, optimizeNextSeriesPush))
    }

    method Clear()
      modifies this`heap
      ensures heap == []
    {
      heap := [];
    }

    method StartSeries()
      modifies this`optimizeNextSeriesPush
      ensures !optimizeNextSeriesPush
    {
      optimizeNextSeriesPush := false;
    }

    method Swap(i: nat, j: nat)
      requires i < |heap| && j < |heap|
      modifies this`heap
      ensures heap == Swapped(old(heap), i, j)
    {
      var temp := heap[i];
      heap := heap[i := heap[j]];
      heap := heap[j := temp];
    }

    /** Push outside a series. */
    method Push(weight: int, data: D)
      modifies this`heap
      ensures heap == Pushed(isMaxHeap, old(heap), HeapNode(weight, data))
      ensures old(Ordered(isMaxHeap, heap)) ==> Ordered(isMaxHeap, heap)
    {
      ghost var x := HeapNode(weight, data);
      var currentIndex: nat := |heap|;
      heap := heap + [HeapNode(weight, data)];
      while currentIndex != 0
        invariant currentIndex < |heap|
        invariant heap[currentIndex] == x
        invariant SiftUp(isMaxHeap, heap, currentIndex) == Pushed(isMaxHeap, old(heap), x)
      {
        var parentIndex := Parent(currentIndex);
        if isMaxHeap {
          if heap[parentIndex].weight < weight {
            Swap(currentIndex, parentIndex);
            currentIndex := parentIndex;
          } else {
            break;
          }
        } else {
          if heap[parentIndex].weight > weight {
            Swap(currentIndex, parentIndex);
            currentIndex := parentIndex;
          } else {
            break;
          }
        }
      }
      if old(Ordered(isMaxHeap, heap)) {
        PushOrders(isMaxHeap, old(heap), x);
      }
    }

    /** Push inside a series: the weights since StartSeries follow the order of the heap. */
    method PushSeries(weight: int, data: D)
      requires Valid()
      requires optimizeNextSeriesPush ==> Above(isMaxHeap, heap[|heap| - 1].weight, weight)
      modifies this
      ensures Valid()
      ensures Series(heap, optimizeNextSeriesPush) ==
              PushedSeries(isMaxHeap, old(Series(heap, optimizeNextSeriesPush)), HeapNode(weight, data))
      ensures multiset(heap) == multiset(old(heap)) + multiset{HeapNode(weight, data)}
    {
      ghost var x := HeapNode(weight, data);
      SeriesPushOrders(isMaxHeap, Series(heap, optimizeNextSeriesPush), x);
      if !optimizeNextSeriesPush {
        var currentIndex := |heap|;
        if currentIndex > 0 {
          var parentIndex := Parent(currentIndex);
          while parentIndex < currentIndex
            invariant Parent(currentIndex) <= parentIndex <= currentIndex
            invariant forall i :: Parent(currentIndex) <= i < parentIndex ==>
                                    Above(isMaxHeap, heap[i].weight, weight)
          {
            if isMaxHeap {
              if weight > heap[parentIndex].weight {
                assert !GoesLast(isMaxHeap, heap, weight);
                Push(weight, data);
                return;
              }
            } else {
              if weight < heap[parentIndex].weight {
                assert !GoesLast(isMaxHeap, heap, weight);
                Push(weight, data);
                return;
              }
            }
            parentIndex := parentIndex + 1;
          }
        }
        assert GoesLast(isMaxHeap, heap, weight);
        heap := heap + [HeapNode(weight, data)];
        optimizeNextSeriesPush := true;
      } else {
        heap := heap + [HeapNode(weight, data)];
      }
    }

    /** Remove a node and hand out its data. */
    method Pop(startingIndex: nat) returns (returnValue: D)
      requires startingIndex < |heap|
      modifies this`heap
      ensures returnValue == old(heap[startingIndex].data)
      ensures heap == Popped(isMaxHeap, old(heap), startingIndex)
      ensures startingIndex == 0 && old(Ordered(isMaxHeap, heap)) ==> Ordered(isMaxHeap, heap)
    {
      if startingIndex == 0 && Ordered(isMaxHeap, heap) {
        PopOrders(isMaxHeap, heap, 0);
      }
      returnValue := heap[startingIndex].data;
      heap := heap[startingIndex := heap[|heap| - 1]];
      var currentWeight := heap[startingIndex].weight;
      heap := heap[..|heap| - 1];
      assert heap == Overwritten(old(heap), startingIndex);
      SwapWithChildren(startingIndex, currentWeight);
    }

    /** The loop of Pop: while there are children, swap with the favoured one. */
    method SwapWithChildren(startingIndex: nat, currentWeight: int)
      requires startingIndex <= |heap|
      requires startingIndex < |heap| ==> heap[startingIndex].weight == currentWeight
      modifies this`heap
      ensures SinksTo(isMaxHeap, old(heap), startingIndex, heap)
    {
      var currentIndex: nat := startingIndex;
      ghost var result := if startingIndex < |heap| then SiftDown(isMaxHeap, heap, startingIndex) else heap;
      while true
        invariant currentIndex <= |heap|
        invariant currentIndex < |heap| ==> heap[currentIndex].weight == currentWeight
        invariant SinksTo(isMaxHeap, heap, currentIndex, result)
        decreases |heap| - currentIndex
      {
        var leftChild := currentIndex * 2 + 1;
        var rightChild := currentIndex * 2 + 2;
        SinkStep(isMaxHeap, heap, currentIndex, result);
        hide SinksTo, Swapped;
        if leftChild >= |heap| {
          return;
        }
        ghost var c := Favoured(isMaxHeap, heap, currentIndex);
        if rightChild >= |heap| {
          if (isMaxHeap && currentWeight < heap[leftChild].weight) ||
             (!isMaxHeap && currentWeight > heap[leftChild].weight) {
            Swap(leftChild, currentIndex);
          }
          return;
        }
        ghost var sinks := !Above(isMaxHeap, currentWeight, heap[c].weight);
        ghost var before := heap;
        if isMaxHeap {
          if heap[leftChild].weight <= currentWeight && heap[rightChild].weight <= currentWeight {
            return;
          }
          assert sinks;
          if heap[leftChild].weight > heap[rightChild].weight {
            assert c == leftChild;
            Swap(leftChild, currentIndex);
            currentIndex := leftChild;
          } else {
            assert c == rightChild;
            Swap(rightChild, currentIndex);
            currentIndex := rightChild;
          }
        } else {
          if heap[leftChild].weight >= currentWeight && heap[rightChild].weight >= currentWeight {
            return;
          }
          assert sinks;
          if heap[leftChild].weight < heap[rightChild].weight {
            assert c == leftChild;
            Swap(leftChild, currentIndex);
            currentIndex := leftChild;
          } else {
            assert c == rightChild;
            Swap(rightChild, currentIndex);
            currentIndex := rightChild;
          }
        }
        assert currentIndex == c;
      }
    }

    /** The weight at the root of an ordered heap is the greatest of a maximum heap, the least of a minimum heap. */
    method PeekWeight(startingIndex: nat) returns (weight: int)
      requires startingIndex < |heap|
      ensures weight == heap[startingIndex].weight
      ensures startingIndex == 0 && Ordered(isMaxHeap, heap) ==>
                forall x :: x in heap ==> if isMaxHeap then weight >= x.weight else weight <= x.weight
    {
      weight := heap[startingIndex].weight;
      if startingIndex == 0 && Ordered(isMaxHeap, heap) {
        forall x | x in heap ensures Above(isMaxHeap, weight, x.weight) {
          RootIsAbove(isMaxHeap, heap, x);
        }
      }
    }
  }
}
