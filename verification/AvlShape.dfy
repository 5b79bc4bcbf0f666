/** The mathematics of the AVL tree of `DS_BinarySearchTree.h`: shapes, contexts, balance. */
module AvlShapes {

  import opened Powers

  class Node {
    const item: int
    var left: Node?
    var right: Node?

    constructor (item: int)
      ensures this.item == item && left == null && right == null
    {
      this.item := item;
      left, right := null, null;
    }
  }

  /** A tree as a value, holding the nodes of the heap. */
  datatype Shape = Nil | Bin(left: Shape, node: Node, right: Shape)

  /** A tree with a hole, seen from the hole. */
  datatype Context =
    | Top
    | InLeft(up: Context, node: Node, right: Shape)
    | InRight(up: Context, left: Shape, node: Node)

  ghost function Plug(c: Context, t: Shape): Shape {
    match c
    case Top => t
    case InLeft(up, n, r) => Plug(up, Bin(t, n, r))
    case InRight(up, l, n) => Plug(up, Bin(l, n, t))
  }

  ghost function RootOf(t: Shape): Node? {
    if t.Nil? then null else t.node
  }

  ghost function Elems(t: Shape): set<int> {
    if t.Nil? then {} else Elems(t.left) + {t.node.item} + Elems(t.right)
  }

  /** The elements around the hole. */
  ghost function Around(c: Context): set<int> {
    match c
    case Top => {}
    case InLeft(up, n, r) => Around(up) + {n.item} + Elems(r)
    case InRight(up, l, n) => Around(up) + {n.item} + Elems(l)
  }

  ghost predicate Ordered(t: Shape) {
    t.Bin? ==>
      && Ordered(t.left) && Ordered(t.right)
      && (forall x :: x in Elems(t.left) ==> x < t.node.item)
      && (forall x :: x in Elems(t.right) ==> t.node.item < x)
  }

  ghost function Ht(t: Shape): nat {
    if t.Nil? then 0 else 1 + if Ht(t.left) > Ht(t.right) then Ht(t.left) else Ht(t.right)
  }

  /** No two siblings differ in height by more than one. */
  ghost predicate Balanced(t: Shape) {
    t.Bin? ==> Balanced(t.left) && Balanced(t.right) && -1 <= Ht(t.right) - Ht(t.left) <= 1
  }

  ghost function Count(t: Shape): nat {
    if t.Nil? then 0 else Count(t.left) + 1 + Count(t.right)
  }

  ghost function Fib(n: nat): nat {
    if n < 2 then n else Fib(n - 1) + Fib(n - 2)
  }

  /** A balanced tree of height h has at least Fib(h + 2) - 1 nodes. */
  lemma {:induction false} BalancedIsBig(t: Shape)
    requires Balanced(t)
    ensures Count(t) >= Fib(Ht(t) + 2) - 1
  {
    if t.Nil? {
      assert Fib(2) == 1;
    } else {
      BalancedIsBig(t.left);
      BalancedIsBig(t.right);
      var h, l, r := Ht(t), Ht(t.left), Ht(t.right);
      assert Fib(h + 2) == Fib(h + 1) + Fib(h);
      hide Fib;
      if l > r {
        FibGrows(h, r + 2);
      } else {
        FibGrows(h, l + 2);
      }
    }
  }

  lemma {:induction false} FibGrows(a: nat, b: nat)
    requires a <= b
    ensures Fib(a) <= Fib(b)
    decreases b - a
  {
    if a < b {
      FibGrows(a + 1, b);
      assert a >= 1 ==> Fib(a + 1) == Fib(a) + Fib(a - 1);
    }
  }

  /** Fibonacci numbers double every two steps at least. */
  lemma {:induction false} FibDoubles(n: nat)
    ensures Power(2, n / 2) <= Fib(n + 2)
  {
    if n < 2 {
      assert Fib(2) == 1 && Fib(3) == 2;
    } else {
      FibDoubles(n - 2);
      FibGrows(n, n + 1);
      assert Fib(n + 2) == Fib(n + 1) + Fib(n);
      assert n / 2 == (n - 2) / 2 + 1;
    }
  }

  /** In an ordered tree every element is counted once. */
  lemma {:induction false} CountsElements(t: Shape)
    requires Ordered(t)
    ensures Count(t) == |Elems(t)|
  {
    if t.Bin? {
      CountsElements(t.left);
      CountsElements(t.right);
      var l, r := Elems(t.left), Elems(t.right);
      assert forall x :: x in l ==> x !in r + {t.node.item};
      assert |l + ({t.node.item} + r)| == |l| + |{t.node.item} + r|;
      assert Elems(t) == l + ({t.node.item} + r);
    }
  }

  /** The elements from left to right. */
  ghost function InOrder(t: Shape): seq<int> {
    if t.Nil? then [] else InOrder(t.left) + [t.node.item] + InOrder(t.right)
  }

  /** From left to right an ordered tree has its elements in increasing order, each once. */
  lemma {:induction false} InOrderIncreases(t: Shape)
    requires Ordered(t)
    ensures forall x :: x in InOrder(t) <==> x in Elems(t)
    ensures forall i, j :: 0 <= i < j < |InOrder(t)| ==> InOrder(t)[i] < InOrder(t)[j]
  {
    if t.Bin? {
      InOrderIncreases(t.left);
      InOrderIncreases(t.right);
      var l, r := InOrder(t.left), InOrder(t.right);
      forall i, j | 0 <= i < j < |InOrder(t)| ensures InOrder(t)[i] < InOrder(t)[j] {
        assert i < |l| ==> InOrder(t)[i] == l[i] && l[i] in l;
        assert j > |l| ==> InOrder(t)[j] == r[j - |l| - 1] && r[j - |l| - 1] in r;
      }
    }
  }

  // ----- contexts -----

  /** Plugging joins the elements; an ordered whole has an ordered part, apart from what is around it. */
  lemma {:induction false} PlugElems(c: Context, t: Shape)
    ensures Elems(Plug(c, t)) == Around(c) + Elems(t)
    ensures Ordered(Plug(c, t)) ==> Ordered(t) && forall x :: x in Around(c) ==> x !in Elems(t)
  {
    match c
    case Top =>
    case InLeft(up, n, r) =>
      PlugElems(up, Bin(t, n, r));
      assert Elems(Bin(t, n, r)) == Elems(t) + {n.item} + Elems(r);
    case InRight(up, l, n) =>
      PlugElems(up, Bin(l, n, t));
      assert Elems(Bin(l, n, t)) == Elems(l) + {n.item} + Elems(t);
  }

  /** A part may be exchanged for an ordered one with the same elements. */
  lemma {:induction false} PlugOrdered(c: Context, t: Shape, u: Shape)
    requires Ordered(Plug(c, t)) && Ordered(u) && Elems(u) == Elems(t)
    ensures Ordered(Plug(c, u))
  {
    match c
    case Top =>
    case InLeft(up, n, r) =>
      PlugElems(up, Bin(t, n, r));
      PlugOrdered(up, Bin(t, n, r), Bin(u, n, r));
    case InRight(up, l, n) =>
      PlugElems(up, Bin(l, n, t));
      PlugOrdered(up, Bin(l, n, t), Bin(l, n, u));
  }

  /** A part of a balanced whole may be exchanged for a balanced one of the same height. */
  lemma {:induction false} PlugBalanced(c: Context, t: Shape, u: Shape)
    requires Balanced(Plug(c, t)) && Balanced(u) && Ht(u) == Ht(t)
    ensures Balanced(Plug(c, u))
  {
    match c
    case Top =>
    case InLeft(up, n, r) =>
      PartBalanced(up, Bin(t, n, r));
      PlugBalanced(up, Bin(t, n, r), Bin(u, n, r));
    case InRight(up, l, n) =>
      PartBalanced(up, Bin(l, n, t));
      PlugBalanced(up, Bin(l, n, t), Bin(l, n, u));
  }

  lemma {:induction false} PartBalanced(c: Context, t: Shape)
    requires Balanced(Plug(c, t))
    ensures Balanced(t)
  {
    match c
    case Top =>
    case InLeft(up, n, r) => PartBalanced(up, Bin(t, n, r));
    case InRight(up, l, n) => PartBalanced(up, Bin(l, n, t));
  }

  // ----- searching -----

  /** Where the search for `x` ends, coming from the context `c`: at the node of `x`, or at an empty tree. */
  ghost function Locate(t: Shape, x: int, c: Context): Context {
    if t.Nil? || x == t.node.item then c
    else if x < t.node.item then Locate(t.left, x, InLeft(c, t.node, t.right))
    else Locate(t.right, x, InRight(c, t.left, t.node))
  }

  /** What is there. */
  ghost function Located(t: Shape, x: int): (s: Shape)
    ensures s.Bin? ==> s.node.item == x
  {
    if t.Nil? || x == t.node.item then t
    else if x < t.node.item then Located(t.left, x) else Located(t.right, x)
  }

  /** The search in a whole comes to a part that holds the element. */
  lemma {:induction false} LocateInPart(c: Context, t: Shape, x: int)
    requires Ordered(Plug(c, t)) && x in Elems(t)
    ensures Locate(Plug(c, t), x, Top) == Locate(t, x, c)
  {
    match c
    case Top =>
    case InLeft(up, n, r) =>
      PlugElems(up, Bin(t, n, r));
      LocateInPart(up, Bin(t, n, r), x);
    case InRight(up, l, n) =>
      PlugElems(up, Bin(l, n, t));
      LocateInPart(up, Bin(l, n, t), x);
  }

  /** A node is found where it is. */
  lemma LocateNode(c: Context, t: Shape)
    requires Ordered(Plug(c, t)) && t.Bin?
    ensures Locate(Plug(c, t), t.node.item, Top) == c
  {
    LocateInPart(c, t, t.node.item);
  }

  /** One step of the search. */
  lemma SearchStep(t: Shape, x: int, c: Context)
    ensures t.Nil? || x == t.node.item ==> Locate(t, x, c) == c && Located(t, x) == t
    ensures t.Bin? && x < t.node.item ==>
              && Locate(t, x, c) == Locate(t.left, x, InLeft(c, t.node, t.right))
              && Located(t, x) == Located(t.left, x)
    ensures t.Bin? && x > t.node.item ==>
              && Locate(t, x, c) == Locate(t.right, x, InRight(c, t.left, t.node))
              && Located(t, x) == Located(t.right, x)
  {
  }

  /** The search finds an element exactly if it is there, and its place makes up the tree with what is found. */
  lemma {:induction false} LocatedIsThere(t: Shape, x: int, c: Context)
    requires Ordered(t)
    ensures Plug(Locate(t, x, c), Located(t, x)) == Plug(c, t)
    ensures Located(t, x).Bin? <==> x in Elems(t)
  {
    if t.Bin? && x != t.node.item {
      if x < t.node.item {
        LocatedIsThere(t.left, x, InLeft(c, t.node, t.right));
      } else {
        LocatedIsThere(t.right, x, InRight(c, t.left, t.node));
      }
    }
  }

  /** A new leaf where the search for it ends keeps the order. */
  lemma {:induction false} LeafKeepsOrder(t: Shape, z: Node)
    requires Ordered(t) && z.item !in Elems(t)
    ensures var u := Plug(Locate(t, z.item, Top), Bin(Nil, z, Nil));
            Ordered(u) && Elems(u) == Elems(t) + {z.item}
  {
    LeafBelow(t, z, Top);
  }

  /** The tree with the leaf added, as seen from a context. */
  ghost function WithLeaf(t: Shape, z: Node): Shape {
    if t.Nil? || z.item == t.node.item then Bin(Nil, z, Nil)
    else if z.item < t.node.item then Bin(WithLeaf(t.left, z), t.node, t.right)
    else Bin(t.left, t.node, WithLeaf(t.right, z))
  }

  lemma {:induction false} LeafBelow(t: Shape, z: Node, c: Context)
    requires Ordered(t) && z.item !in Elems(t)
    ensures Plug(Locate(t, z.item, c), Bin(Nil, z, Nil)) == Plug(c, WithLeaf(t, z))
    ensures Ordered(WithLeaf(t, z)) && Elems(WithLeaf(t, z)) == Elems(t) + {z.item}
  {
    if t.Bin? {
      if z.item < t.node.item {
        LeafBelow(t.left, z, InLeft(c, t.node, t.right));
      } else {
        LeafBelow(t.right, z, InRight(c, t.left, t.node));
      }
    }
  }

  // ----- rotations -----

  ghost function RotatedLeft(t: Shape): Shape
    requires t.Bin? && t.right.Bin?
  {
    Bin(Bin(t.left, t.node, t.right.left), t.right.node, t.right.right)
  }

  ghost function RotatedRight(t: Shape): Shape
    requires t.Bin? && t.left.Bin?
  {
    Bin(t.left.left, t.left.node, Bin(t.left.right, t.node, t.right))
  }

  lemma BinParts(l: Shape, n: Node, r: Shape)
    ensures Elems(Bin(l, n, r)) == Elems(l) + {n.item} + Elems(r)
    ensures Ordered(Bin(l, n, r)) <==>
            && Ordered(l) && Ordered(r)
            && (forall x :: x in Elems(l) ==> x < n.item) && (forall x :: x in Elems(r) ==> n.item < x)
  {
  }

  /** Rotations keep the order and the elements. */
  lemma RotationsKeep(t: Shape)
    requires Ordered(t)
    ensures t.Bin? && t.right.Bin? ==> Ordered(RotatedLeft(t)) && Elems(RotatedLeft(t)) == Elems(t)
    ensures t.Bin? && t.left.Bin? ==> Ordered(RotatedRight(t)) && Elems(RotatedRight(t)) == Elems(t)
  {
    hide Elems, Ordered;
    if t.Bin? && t.right.Bin? {
      var l, n, d, m, r := t.left, t.node, t.right.left, t.right.node, t.right.right;
      BinParts(l, n, Bin(d, m, r));
      BinParts(d, m, r);
      BinParts(l, n, d);
      BinParts(Bin(l, n, d), m, r);
    }
    if t.Bin? && t.left.Bin? {
      var l, m, d, n, r := t.left.left, t.left.node, t.left.right, t.node, t.right;
      BinParts(Bin(l, m, d), n, r);
      BinParts(l, m, d);
      BinParts(d, n, r);
      BinParts(l, m, Bin(d, n, r));
    }
  }

  /** Has `now` come of `before` by an insertion that grew one side by one at most?  A side that grew leans,
      unless it is the new leaf. */
  ghost predicate Grew(before: Shape, now: Shape) {
    && Balanced(before) && now.Bin? && Balanced(now.left) && Balanced(now.right)
    && if before.Nil? then now.left.Nil? && now.right.Nil?
       else
         || (Ht(now.right) == Ht(before.right) && GrewTo(Ht(before.left), now.left))
         || (Ht(now.left) == Ht(before.left) && GrewTo(Ht(before.right), now.right))
  }

  ghost predicate GrewTo(h: nat, now: Shape) {
    || Ht(now) == h
    || (Ht(now) == h + 1 && (h == 0 || Ht(now.left) != Ht(now.right)))
  }

  /** Unless the heights now differ by two, the tree has grown by one at most and leans if it has. */
  lemma GrowthPassesUp(before: Shape, now: Shape)
    requires Grew(before, now) && Ht(now.right) - Ht(now.left) != 2 && Ht(now.right) - Ht(now.left) != -2
    ensures Balanced(now) && GrewTo(Ht(before), now)
  {
  }

  /** Right-heavy by two: a rotation to the left if the right child leans right, otherwise one to the right
      below it first, gives a balanced tree no higher than the right child was. */
  lemma RightHeavy(l: Shape, n: Node, r: Shape)
    requires Balanced(l) && Balanced(r) && Ht(r) == Ht(l) + 2
    ensures r.Bin?
    ensures Ht(r.right) > Ht(r.left) ==>
              var u := RotatedLeft(Bin(l, n, r));
              Balanced(u) && Ht(u) == Ht(r)
    ensures Ht(r.right) < Ht(r.left) ==>
              && r.left.Bin?
              && var u := RotatedLeft(Bin(l, n, RotatedRight(r)));
                 Balanced(u) && Ht(u) == Ht(r)
  {
    if Ht(r.right) > Ht(r.left) {
      assert Balanced(Bin(l, n, r.left));
    } else if Ht(r.right) < Ht(r.left) {
      var m := r.left;
      assert Balanced(m) && Balanced(m.left) && Balanced(m.right);
      var b, c := Bin(l, n, m.left), Bin(m.right, r.node, r.right);
      assert Balanced(b) && Balanced(c) && Ht(b) == Ht(c) == Ht(l) + 1;
      assert RotatedLeft(Bin(l, n, RotatedRight(r))) == Bin(b, m.node, c);
    }
  }

  lemma LeftHeavy(l: Shape, n: Node, r: Shape)
    requires Balanced(l) && Balanced(r) && Ht(l) == Ht(r) + 2
    ensures l.Bin?
    ensures Ht(l.left) > Ht(l.right) ==>
              var u := RotatedRight(Bin(l, n, r));
              Balanced(u) && Ht(u) == Ht(l)
    ensures Ht(l.left) < Ht(l.right) ==>
              && l.right.Bin?
              && var u := RotatedRight(Bin(RotatedLeft(l), n, r));
                 Balanced(u) && Ht(u) == Ht(l)
  {
    if Ht(l.left) > Ht(l.right) {
      assert Balanced(Bin(l.right, n, r));
    } else if Ht(l.left) < Ht(l.right) {
      var m := l.right;
      assert Balanced(m) && Balanced(m.left) && Balanced(m.right);
      var b, c := Bin(l.left, l.node, m.left), Bin(m.right, n, r);
      assert Balanced(b) && Balanced(c) && Ht(b) == Ht(c) == Ht(r) + 1;
      assert RotatedRight(Bin(RotatedLeft(l), n, r)) == Bin(b, m.node, c);
    }
  }

  /** When the heights differ by two after an insertion, the higher child is as high as the tree was, and
      leans. */
  lemma GrewTooFar(before: Shape, now: Shape)
    requires Grew(before, now)
    ensures Ht(now.right) - Ht(now.left) == 2 ==>
              now.right.Bin? && Ht(now.right) == Ht(before) && Ht(now.right.left) != Ht(now.right.right)
    ensures Ht(now.right) - Ht(now.left) == -2 ==>
              now.left.Bin? && Ht(now.left) == Ht(before) && Ht(now.left.left) != Ht(now.left.right)
  {
  }

  // ----- nodes -----

  ghost function Nodes(t: Shape): set<Node> {
    if t.Nil? then {} else Nodes(t.left) + {t.node} + Nodes(t.right)
  }

  ghost function NodesAround(c: Context): set<Node> {
    match c
    case Top => {}
    case InLeft(up, n, r) => NodesAround(up) + {n} + Nodes(r)
    case InRight(up, l, n) => NodesAround(up) + {n} + Nodes(l)
  }

  lemma {:induction false} NodeItems(t: Shape)
    ensures forall n :: n in Nodes(t) ==> n.item in Elems(t)
  {
    if t.Bin? {
      NodeItems(t.left);
      NodeItems(t.right);
    }
  }

  lemma {:induction false} NodeItemsAround(c: Context)
    ensures forall n :: n in NodesAround(c) ==> n.item in Around(c)
  {
    match c
    case Top =>
    case InLeft(up, n, r) =>
      NodeItemsAround(up);
      NodeItems(r);
    case InRight(up, l, n) =>
      NodeItemsAround(up);
      NodeItems(l);
  }

  /** In an ordered tree the nodes of a part are apart from those around it, and a root from its subtrees. */
  lemma NodesApart(c: Context, t: Shape)
    requires Ordered(Plug(c, t))
    ensures forall n :: n in Nodes(t) ==> n !in NodesAround(c)
    ensures t.Bin? ==> t.node !in Nodes(t.left) && t.node !in Nodes(t.right)
    ensures t.Bin? ==> forall n :: n in Nodes(t.left) ==> n !in Nodes(t.right)
  {
    PlugElems(c, t);
    NodeItemsAround(c);
    NodeItems(t);
    if t.Bin? {
      NodeItems(t.left);
      NodeItems(t.right);
    }
  }

  // ----- trees in the heap -----

  /** The nodes of `t` are linked as `t` says. */
  ghost predicate Linked(t: Shape)
    reads Nodes(t)`left, Nodes(t)`right
  {
    t.Bin? ==>
      && t.node.left == RootOf(t.left) && t.node.right == RootOf(t.right)
      && Linked(t.left) && Linked(t.right)
  }

  /** The nodes around the hole are linked as `c` says, with `p` in the hole. */
  ghost predicate LinkedAround(c: Context, p: Node?)
    reads NodesAround(c)`left, NodesAround(c)`right
  {
    match c
    case Top => true
    case InLeft(up, n, r) => n.left == p && n.right == RootOf(r) && Linked(r) && LinkedAround(up, n)
    case InRight(up, l, n) => n.left == RootOf(l) && n.right == p && Linked(l) && LinkedAround(up, n)
  }

  lemma {:induction false} PlugLinked(c: Context, t: Shape)
    ensures Linked(Plug(c, t)) <==> Linked(t) && LinkedAround(c, RootOf(t))
    ensures Nodes(Plug(c, t)) == NodesAround(c) + Nodes(t)
  {
    match c
    case Top =>
    case InLeft(up, n, r) =>
      PlugLinked(up, Bin(t, n, r));
    case InRight(up, l, n) =>
      PlugLinked(up, Bin(l, n, t));
  }

  lemma LinkedStep(t: Shape)
    requires Linked(t) && t.Bin?
    ensures t.node.left == RootOf(t.left) && t.node.right == RootOf(t.right) && Linked(t.left) && Linked(t.right)
  {
  }

  ghost function ParentOf(c: Context): Node? {
    if c.Top? then null else c.node
  }

  /** Only the part that is the whole has the root of the whole. */
  lemma {:induction false} RootIsTop(c: Context, t: Shape)
    requires Ordered(Plug(c, t)) && t.Bin?
    ensures RootOf(Plug(c, t)) == t.node <==> c.Top?
    ensures Plug(c, t).Bin?
  {
    PlugElems(c, t);
    if !c.Top? {
      RootAround(c, t);
    }
  }

  lemma {:induction false} RootAround(c: Context, t: Shape)
    requires !c.Top?
    ensures Plug(c, t).Bin? && Plug(c, t).node.item in Around(c)
  {
    match c
    case InLeft(up, n, r) =>
      if !up.Top? {
        RootAround(up, Bin(t, n, r));
      }
    case InRight(up, l, n) =>
      if !up.Top? {
        RootAround(up, Bin(l, n, t));
      }
  }

  /** Below a context the root of the whole does not depend on what is plugged in. */
  lemma {:induction false} RootAbove(c: Context, t: Shape, u: Shape)
    requires !c.Top?
    ensures RootOf(Plug(c, t)) == RootOf(Plug(c, u))
  {
    match c
    case InLeft(up, n, r) =>
      if !up.Top? {
        RootAbove(up, Bin(t, n, r), Bin(u, n, r));
      }
    case InRight(up, l, n) =>
      if !up.Top? {
        RootAbove(up, Bin(l, n, t), Bin(l, n, u));
      }
  }

  /** The node next to the hole is apart from everything else. */
  lemma ContextApart(c: Context, t: Shape)
    requires Ordered(Plug(c, t)) && !c.Top?
    ensures c.node !in Nodes(t) && c.node !in NodesAround(c.up)
    ensures c.InLeft? ==> c.node !in Nodes(c.right) && forall n :: n in Nodes(c.right) ==> n !in NodesAround(c.up)
    ensures c.InRight? ==> c.node !in Nodes(c.left) && forall n :: n in Nodes(c.left) ==> n !in NodesAround(c.up)
  {
    match c
    case InLeft(up, n, r) => NodesApart(up, Bin(t, n, r));
    case InRight(up, l, n) => NodesApart(up, Bin(l, n, t));
  }
}
