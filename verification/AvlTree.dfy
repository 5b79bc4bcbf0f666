/** The AVL tree object of `DS_BinarySearchTree.h`, built by Add alone. */
module AvlTrees {

  import opened Powers
  import opened AvlShapes

  datatype Direction = NOT_FOUND | LEFT | RIGHT | ROOT

  ghost function DirectionOf(c: Context): Direction {
    match c
    case Top => ROOT
    case InLeft(_, _, _) => LEFT
    case InRight(_, _, _) => RIGHT
  }

  class AvlTree {
    var root: Node?
    var size: nat
    var direction: Direction
    ghost var shape: Shape

    constructor ()
      ensures Valid() && shape == Nil && size == 0
    {
      root := null;
      size := 0;
      direction := NOT_FOUND;
      shape := Nil;
    }

    /** The tree is linked and ordered, and counts its elements. */
    ghost predicate Kept()
      reads this`root, this`size, this`shape, Nodes(shape)`left, Nodes(shape)`right
    {
      Linked(shape) && root == RootOf(shape) && Ordered(shape) && size == |Elems(shape)|
    }

    ghost predicate Valid()
      reads this`root, this`size, this`shape, Nodes(shape)`left, Nodes(shape)`right
    {
      Kept() && Balanced(shape)
    }

    function HeightRecursive(current: Node, ghost t: Shape): (h: nat)
      requires t.Bin? && t.node == current && Linked(t)
      reads Nodes(t)`left, Nodes(t)`right
      ensures h == Ht(t)
      decreases t
    {
      if current.left == null && current.right == null then 1
      else
        var leftHeight := if current.left != null then 1 + HeightRecursive(current.left, t.left) else 0;
        var rightHeight := if current.right != null then 1 + HeightRecursive(current.right, t.right) else 0;
        if leftHeight > rightHeight then leftHeight else rightHeight
    }

    function Height(startingNode: Node?, ghost t: Shape): (h: nat)
      requires startingNode == RootOf(t) && Linked(t)
      requires size == 0 ==> t == Nil
      reads this`size, Nodes(t)`left, Nodes(t)`right
      ensures h == Ht(t)
    {
      if size == 0 || startingNode == null then 0 else HeightRecursive(startingNode, t)
    }

    /** Is the right side of a node higher? */
    function RightHigher(A: Node?, ghost t: Shape): (b: bool)
      requires A == RootOf(t) && Linked(t) && size != 0
      reads this`size, Nodes(t)`left, Nodes(t)`right
      ensures b <==> t.Bin? && Ht(t.right) > Ht(t.left)
    {
      A != null && Height(A.right, t.right) > Height(A.left, t.left)
    }

    function LeftHigher(A: Node?, ghost t: Shape): (b: bool)
      requires A == RootOf(t) && Linked(t) && size != 0
      reads this`size, Nodes(t)`left, Nodes(t)`right
      ensures b <==> t.Bin? && Ht(t.left) > Ht(t.right)
    {
      A != null && Height(A.left, t.left) > Height(A.right, t.right)
    }

    /** Look an element up; the parent of its node, and the side it is on, come along. */
    method Find(element: int) returns (current: Node?, parent: Node?)
      requires Kept()
      modifies this`direction
      ensures Kept()
      ensures current == RootOf(Located(shape, element))
      ensures current != null <==> element in Elems(shape)
      ensures parent == ParentOf(Locate(shape, element, Top))
      ensures direction == if current == null then NOT_FOUND else DirectionOf(Locate(shape, element, Top))
    {
      hide Kept, Elems, Nodes, Ordered, Linked, Locate, Located;
      assert allocated(Nodes(shape));
      KeptMeans();
      EmptyIsNil();
      LocatedIsThere(shape, element, Top);
      SearchStep(shape, element, Top);
      current := root;
      parent := null;
      direction := ROOT;
      if size == 0 {
        direction := NOT_FOUND;
        return null, parent;
      }
      if element == current.item {
        direction := ROOT;
        return;
      }
      ghost var t, c := shape, Top;
      while true
        invariant t.Bin? && current == t.node && Linked(t) && element != current.item
        invariant Locate(shape, element, Top) == Locate(t, element, c)
        invariant Located(shape, element) == Located(t, element)
        decreases t
      {
        parent := current;
        SearchStep(t, element, c);
        LinkedStep(t);
        if element < current.item {
          direction := LEFT;
          c, t := InLeft(c, t.node, t.right), t.left;
          current := current.left;
        } else if element > current.item {
          direction := RIGHT;
          c, t := InRight(c, t.left, t.node), t.right;
          current := current.right;
        }
        SearchStep(t, element, c);
        if current == null {
          break;
        }
        if element == current.item {
          return;
        }
      }
      direction := NOT_FOUND;
    }

    method FindParent(element: int) returns (parent: Node?)
      requires Kept()
      modifies this`direction
      ensures Kept()
      ensures parent == ParentOf(Locate(shape, element, Top))
      ensures element in Elems(shape) ==> direction == DirectionOf(Locate(shape, element, Top))
    {
      var current;
      current, parent := Find(element);
    }

    /** Hang a new leaf under a node, on the side where the search for it ends. */
    method HangLeaf(current: Node, input: int, toLeft: bool, ghost c: Context, ghost t: Shape) returns (leaf: Node)
      requires Kept() && shape == Plug(c, t) && t.Bin? && t.node == current && input !in Elems(shape)
      requires if toLeft then input < current.item && t.left.Nil? else current.item < input && t.right.Nil?
      requires Locate(shape, input, Top) == Locate(t, input, c)
      modifies this`size, this`shape, current`left, current`right
      ensures Kept() && fresh(leaf) && leaf.item == input
      ensures shape == Plug(Locate(old(shape), input, Top), Bin(Nil, leaf, Nil))
      ensures Elems(shape) == old(Elems(shape)) + {input} && Nodes(shape) == old(Nodes(shape)) + {leaf}
    {
      hide *;
      KeptMeans();
      PartOf(c, t);
      assert allocated(Nodes(t)) && allocated(NodesAround(c));
      leaf := new Node(input);
      ghost var u := LeafOn(t, leaf, toLeft);
      LeafAdded(c, t, leaf, toLeft);
      LeafNodes(t, leaf, toLeft);
      LinkLeaf(current, leaf, toLeft, c, t);
      PlugLinked(c, u);
      shape := Plug(c, u);
      size := size + 1;
      KeptIf();
    }

    ghost function LeafOn(t: Shape, leaf: Node, toLeft: bool): Shape
      requires t.Bin?
    {
      if toLeft then Bin(Bin(Nil, leaf, Nil), t.node, t.right) else Bin(t.left, t.node, Bin(Nil, leaf, Nil))
    }

    lemma LeafNodes(t: Shape, leaf: Node, toLeft: bool)
      requires t.Bin? && if toLeft then t.left.Nil? else t.right.Nil?
      ensures Nodes(LeafOn(t, leaf, toLeft)) == Nodes(t) + {leaf}
    {
      assert Nodes(Bin(Nil, leaf, Nil)) == {leaf};
    }

    lemma LeafAdded(c: Context, t: Shape, leaf: Node, toLeft: bool)
      requires Ordered(Plug(c, t)) && t.Bin? && leaf.item !in Elems(Plug(c, t))
      requires if toLeft then t.left.Nil? && leaf.item < t.node.item else t.right.Nil? && t.node.item < leaf.item
      requires Locate(Plug(c, t), leaf.item, Top) == Locate(t, leaf.item, c)
      ensures var u, whole := LeafOn(t, leaf, toLeft), Plug(c, t);
              && Plug(c, u) == Plug(Locate(whole, leaf.item, Top), Bin(Nil, leaf, Nil))
              && Ordered(Plug(c, u)) && Elems(Plug(c, u)) == Elems(whole) + {leaf.item}
              && RootOf(Plug(c, u)) == RootOf(whole) && RootOf(u) == t.node
              && |Elems(Plug(c, u))| == |Elems(whole)| + 1
    {
      LeafKeepsOrder(Plug(c, t), leaf);
      SameRoot(c, t, LeafOn(t, leaf, toLeft));
    }

    method LinkLeaf(current: Node, leaf: Node, toLeft: bool, ghost c: Context, ghost t: Shape)
      requires Ordered(Plug(c, t)) && LinkedAround(c, current) && Linked(t)
      requires t.Bin? && t.node == current && if toLeft then t.left.Nil? else t.right.Nil?
      requires leaf.left == null && leaf.right == null && leaf !in Nodes(t) && leaf !in NodesAround(c)
      modifies current`left, current`right
      ensures LinkedAround(c, current)
      ensures Linked(LeafOn(t, leaf, toLeft))
    {
      hide Plug, Elems, Around, Ordered;
      NodesApart(c, t);
      if toLeft {
        current.left := leaf;
      } else {
        current.right := leaf;
      }
    }

    lemma KeptMeans()
      requires Kept()
      ensures Linked(shape) && root == RootOf(shape) && Ordered(shape) && size == |Elems(shape)|
    {
    }

    lemma EmptyIsNil()
      requires Kept()
      ensures size == 0 <==> shape.Nil?
    {
      CountsElements(shape);
    }

    lemma KeptIf()
      requires Linked(shape) && root == RootOf(shape) && Ordered(shape) && size == |Elems(shape)|
      ensures Kept()
    {
    }

    lemma SameRoot(c: Context, t: Shape, u: Shape)
      requires RootOf(t) == RootOf(u) || !c.Top?
      ensures RootOf(Plug(c, t)) == RootOf(Plug(c, u))
    {
      if !c.Top? {
        RootAbove(c, t, u);
      }
    }

    /** The unbalanced insertion: a new leaf where the search for it ends, nothing if it is there. */
    method AddLeaf(input: int) returns (current: Node?)
      requires Kept()
      modifies this`root, this`size, this`shape, Nodes(shape)`left, Nodes(shape)`right
      ensures Kept()
      ensures current == null <==> input in old(Elems(shape))
      ensures current == null ==> shape == old(shape)
      ensures current != null ==>
                && fresh(current) && current.item == input
                && shape == Plug(Locate(old(shape), input, Top), Bin(Nil, current, Nil))
                && Elems(shape) == old(Elems(shape)) + {input}
                && Nodes(shape) == old(Nodes(shape)) + {current}
    {
      LocatedIsThere(shape, input, Top);
      CountsElements(shape);
      if size == 0 {
        current := new Node(input);
        size := 1;
        root := current;
        shape := Bin(Nil, current, Nil);
        assert Elems(shape) == {input};
        return;
      }
      current := root;
      ghost var t, c := shape, Top;
      while true
        invariant t.Bin? && current == t.node && Linked(t) && shape == Plug(c, t) && shape == old(shape)
        invariant Kept()
        invariant Locate(shape, input, Top) == Locate(t, input, c)
        invariant Located(shape, input) == Located(t, input)
        decreases t
      {
        PlugLinked(c, t);
        if input < current.item {
          if current.left == null {
            current := HangLeaf(current, input, true, c, t);
            return;
          } else {
            c, t := InLeft(c, t.node, t.right), t.left;
            current := current.left;
          }
        } else if input > current.item {
          if current.right == null {
            current := HangLeaf(current, input, false, c, t);
            return;
          } else {
            c, t := InRight(c, t.left, t.node), t.right;
            current := current.right;
          }
        } else {
          return null;
        }
      }
    }

    /** Put a node below the parent found last, or make it the root. */
    method PutBelow(A: Node?, C: Node, ghost c: Context, ghost t: Shape)
      requires Ordered(Plug(c, t)) && LinkedAround(c, RootOf(t)) && Linked(t)
      requires A == ParentOf(c) && direction == DirectionOf(c)
      modifies this`root, NodesAround(c)`left, NodesAround(c)`right
      ensures LinkedAround(c, C) && Linked(t)
      ensures root == if c.Top? then C else old(root)
    {
      if A != null {
        ContextApart(c, t);
        if direction == LEFT {
          A.left := C;
        } else {
          A.right := C;
        }
      } else {
        root := C;
      }
    }

    /** What is known of a part of the tree. */
    lemma PartOf(c: Context, t: Shape)
      requires Kept() && shape == Plug(c, t)
      ensures Linked(t) && LinkedAround(c, RootOf(t))
      ensures Nodes(shape) == NodesAround(c) + Nodes(t)
      ensures t.Bin? ==> size != 0 && t.node.left == RootOf(t.left) && t.node.right == RootOf(t.right)
      ensures t.Bin? ==> Linked(t.left) && Linked(t.right)
      ensures t.Bin? ==> t.node in Nodes(t) && ParentOf(InRight(c, t.left, t.node)) == t.node
      ensures t.Bin? ==> ParentOf(InLeft(c, t.node, t.right)) == t.node && RootOf(t) == t.node
      ensures t.Bin? && t.right.Bin? ==> t.right.node in Nodes(t) && RootOf(RotatedLeft(t)) == t.right.node
      ensures t.Bin? && t.left.Bin? ==> t.left.node in Nodes(t) && RootOf(RotatedRight(t)) == t.left.node
      ensures t.Bin? ==> Locate(shape, t.node.item, Top) == c && t.node.item in Elems(shape)
      ensures t.Bin? && t.right.Bin? ==> Locate(shape, t.right.node.item, Top) == InRight(c, t.left, t.node)
      ensures t.Bin? && t.left.Bin? ==> Locate(shape, t.left.node.item, Top) == InLeft(c, t.node, t.right)
    {
      PlugLinked(c, t);
      PlugElems(c, t);
      if t.Bin? {
        LocateNode(c, t);
        if t.right.Bin? {
          LocateNode(InRight(c, t.left, t.node), t.right);
        }
        if t.left.Bin? {
          LocateNode(InLeft(c, t.node, t.right), t.left);
        }
      }
    }

    /** Turn the links between C, which is a right child, and its parent to the left. */
    method RotateLeft(C: Node, ghost c: Context, ghost t: Shape)
      requires Kept() && shape == Plug(c, t) && t.Bin? && t.right.Bin? && t.right.node == C
      modifies this`root, this`direction, this`shape, Nodes(shape)`left, Nodes(shape)`right
      ensures Kept() && shape == Plug(c, RotatedLeft(t)) && Elems(shape) == old(Elems(shape))
      ensures Nodes(shape) == old(Nodes(shape))
    {
      hide *;
      KeptMeans();
      PartOf(c, t);
      Rotated(c, t, RotatedLeft(t));
      var B := FindParent(C.item);
      var A := FindParent(B.item);
      PartOf(c, t);
      TurnLeft(A, B, C, c, t);
      PlugLinked(c, RotatedLeft(t));
      shape := Plug(c, RotatedLeft(t));
      KeptIf();
    }

    method TurnLeft(A: Node?, B: Node, C: Node, ghost c: Context, ghost t: Shape)
      requires Ordered(Plug(c, t)) && LinkedAround(c, B) && Linked(t)
      requires t.Bin? && t.node == B && t.right.Bin? && t.right.node == C
      requires A == ParentOf(c) && direction == DirectionOf(c)
      modifies this`root, NodesAround(c)`left, NodesAround(c)`right, B`right, C`left
      ensures Linked(RotatedLeft(t)) && LinkedAround(c, C)
      ensures root == if c.Top? then C else old(root)
    {
      hide Elems, Around, Ordered;
      NodesApart(c, t);
      NodesApart(InRight(c, t.left, t.node), t.right);
      var D := C.left;
      PutBelow(A, C, c, t);
      B.right := D;
      C.left := B;
    }

    lemma Rotated(c: Context, t: Shape, u: Shape)
      requires Ordered(Plug(c, t)) && t.Bin?
      requires (t.right.Bin? && u == RotatedLeft(t)) || (t.left.Bin? && u == RotatedRight(t))
      ensures Ordered(Plug(c, u)) && Elems(Plug(c, u)) == Elems(Plug(c, t))
      ensures Nodes(Plug(c, u)) == Nodes(Plug(c, t))
      ensures RootOf(Plug(c, u)) == if c.Top? then RootOf(u) else RootOf(Plug(c, t))
    {
      PlugElems(c, t);
      PlugElems(c, u);
      RotationsKeep(t);
      PlugOrdered(c, t, u);
      PlugLinked(c, t);
      PlugLinked(c, u);
      if !c.Top? {
        RootAbove(c, t, u);
      }
    }

    /** Turn the links between C, which is a left child, and its parent to the right. */
    method RotateRight(C: Node, ghost c: Context, ghost t: Shape)
      requires Kept() && shape == Plug(c, t) && t.Bin? && t.left.Bin? && t.left.node == C
      modifies this`root, this`direction, this`shape, Nodes(shape)`left, Nodes(shape)`right
      ensures Kept() && shape == Plug(c, RotatedRight(t)) && Elems(shape) == old(Elems(shape))
      ensures Nodes(shape) == old(Nodes(shape))
    {
      hide *;
      KeptMeans();
      PartOf(c, t);
      Rotated(c, t, RotatedRight(t));
      var B := FindParent(C.item);
      var A := FindParent(B.item);
      PartOf(c, t);
      TurnRight(A, B, C, c, t);
      PlugLinked(c, RotatedRight(t));
      shape := Plug(c, RotatedRight(t));
      KeptIf();
    }

    method TurnRight(A: Node?, B: Node, C: Node, ghost c: Context, ghost t: Shape)
      requires Ordered(Plug(c, t)) && LinkedAround(c, B) && Linked(t)
      requires t.Bin? && t.node == B && t.left.Bin? && t.left.node == C
      requires A == ParentOf(c) && direction == DirectionOf(c)
      modifies this`root, NodesAround(c)`left, NodesAround(c)`right, B`left, C`right
      ensures Linked(RotatedRight(t)) && LinkedAround(c, C)
      ensures root == if c.Top? then C else old(root)
    {
      hide Elems, Around, Ordered;
      NodesApart(c, t);
      NodesApart(InLeft(c, t.node, t.right), t.left);
      var D := C.right;
      PutBelow(A, C, c, t);
      B.left := D;
      C.right := B;
    }

    /** Below A, right-heavy with its right child leaning left: turn that child to the right, then A to the
        left. */
    method DoubleRotateLeft(A: Node, ghost c: Context, ghost t: Shape)
      requires Kept() && shape == Plug(c, t) && t.Bin? && t.node == A && t.right.Bin? && t.right.left.Bin?
      modifies this`root, this`direction, this`shape, Nodes(shape)`left, Nodes(shape)`right
      ensures Kept() && shape == Plug(c, RotatedLeft(Bin(t.left, t.node, RotatedRight(t.right))))
      ensures Elems(shape) == old(Elems(shape)) && Nodes(shape) == old(Nodes(shape))
    {
      hide Elems, Around, Ordered, Locate, Nodes, NodesAround, Balanced, Ht;
      PartOf(c, t);
      RotateRight(A.right.left, InRight(c, t.left, t.node), t.right);
      PartOf(c, Bin(t.left, t.node, RotatedRight(t.right)));
      RotateLeft(A.right, c, Bin(t.left, t.node, RotatedRight(t.right)));
    }

    method DoubleRotateRight(A: Node, ghost c: Context, ghost t: Shape)
      requires Kept() && shape == Plug(c, t) && t.Bin? && t.node == A && t.left.Bin? && t.left.right.Bin?
      modifies this`root, this`direction, this`shape, Nodes(shape)`left, Nodes(shape)`right
      ensures Kept() && shape == Plug(c, RotatedRight(Bin(RotatedLeft(t.left), t.node, t.right)))
      ensures Elems(shape) == old(Elems(shape)) && Nodes(shape) == old(Nodes(shape))
    {
      hide Elems, Around, Ordered, Locate, Nodes, NodesAround, Balanced, Ht;
      PartOf(c, t);
      RotateLeft(A.left.right, InLeft(c, t.node, t.right), t.left);
      PartOf(c, Bin(RotatedLeft(t.left), t.node, t.right));
      RotateRight(A.left, c, Bin(RotatedLeft(t.left), t.node, t.right));
    }

    /** If the heights of the sides of `current` differ by two, rotate; that balances the whole tree. */
    method Rebalance(current: Node, ghost c: Context, ghost t: Shape, ghost grown: Shape) returns (rotated: bool)
      requires Kept() && shape == Plug(c, t) && t.Bin? && t.node == current
      requires Balanced(Plug(c, grown)) && Grew(grown, t)
      modifies this`root, this`direction, this`shape, Nodes(shape)`left, Nodes(shape)`right
      ensures Kept() && Elems(shape) == old(Elems(shape)) && Nodes(shape) == old(Nodes(shape))
      ensures rotated ==> Balanced(shape)
      ensures !rotated ==> shape == old(shape) && Balanced(t) && GrewTo(Ht(grown), t)
    {
      hide Kept, Elems, Around, Ordered, Plug, Locate, Nodes, NodesAround, Linked, LinkedAround, Balanced, Grew,
        GrewTo, Ht;
      PartOf(c, t);
      GrewSides(grown, t);
      var leftHeight := if current.left == null then 0 else Height(current.left, t.left);
      var rightHeight := if current.right == null then 0 else Height(current.right, t.right);
      GrewTooFar(grown, t);
      if rightHeight - leftHeight == 2 {
        RightHeavy(t.left, t.node, t.right);
        ghost var u;
        if RightHigher(current.right, t.right) {
          u := RotatedLeft(t);
          RotateLeft(current.right, c, t);
        } else {
          u := RotatedLeft(Bin(t.left, t.node, RotatedRight(t.right)));
          DoubleRotateLeft(current, c, t);
        }
        PlugBalanced(c, grown, u);
        rotated := true;
      } else if rightHeight - leftHeight == -2 {
        LeftHeavy(t.left, t.node, t.right);
        ghost var u;
        if LeftHigher(current.left, t.left) {
          u := RotatedRight(t);
          RotateRight(current.left, c, t);
        } else {
          u := RotatedRight(Bin(RotatedLeft(t.left), t.node, t.right));
          DoubleRotateRight(current, c, t);
        }
        PlugBalanced(c, grown, u);
        rotated := true;
      } else {
        GrowthPassesUp(grown, t);
        rotated := false;
      }
    }

    lemma GrewSides(before: Shape, now: Shape)
      requires Grew(before, now)
      ensures Balanced(now.left) && Balanced(now.right)
      ensures Ht(Nil) == 0
    {
    }

    /** Climb from a new leaf until a rotation has been made or the root is passed: rotateOnce is true. */
    method BalanceTree(leaf: Node?, ghost before: Shape, ghost c0: Context) returns (ghost rotations: nat)
      requires Kept()
      requires leaf == null ==> Balanced(shape)
      requires leaf != null ==>
                 shape == Plug(c0, Bin(Nil, leaf, Nil)) && before == Plug(c0, Nil) && Balanced(before)
      modifies this`root, this`direction, this`shape, Nodes(shape)`left, Nodes(shape)`right
      ensures Valid() && Elems(shape) == old(Elems(shape)) && Nodes(shape) == old(Nodes(shape))
      ensures rotations <= 1
    {
      hide Kept, Elems, Around, Ordered, Locate, Nodes, NodesAround, Linked, LinkedAround, Balanced, Grew, GrewTo, Ht;
      var current := leaf;
      ghost var c, t, grown := c0, if leaf == null then Nil else Bin(Nil, leaf, Nil), Nil;
      if leaf != null {
        NewLeafGrew(leaf);
      }
      rotations := 0;
      while current != null
        invariant Kept() && Elems(shape) == old(Elems(shape)) && Nodes(shape) == old(Nodes(shape))
        invariant current == null ==> Balanced(shape)
        invariant current != null ==> t.Bin? && t.node == current && shape == Plug(c, t)
        invariant current != null ==> before == Plug(c, grown) && Balanced(before) && Grew(grown, t)
        invariant rotations == 0
        decreases c, current != null
      {
        var rotated := Rebalance(current, c, t, grown);
        if rotated {
          rotations := rotations + 1;
          break;
        }
        ClimbOn(c, t, grown);
        if current == root {
          break;
        }
        PartOf(c, t);
        current := FindParent(current.item);
        c, t, grown := c.up, Above(c, t), Above(c, grown);
      }
    }

    lemma NewLeafGrew(leaf: Node)
      ensures Grew(Nil, Bin(Nil, leaf, Nil))
    {
    }

    /** The next larger part. */
    ghost function Above(c: Context, t: Shape): (u: Shape)
      requires !c.Top?
      ensures u.Bin? && u.node == c.node && ParentOf(c) == u.node && Plug(c, t) == Plug(c.up, u)
    {
      match c
      case InLeft(_, n, r) => Bin(t, n, r)
      case InRight(_, l, n) => Bin(l, n, t)
    }

    /** From a part that is balanced to the next larger one, or to the end. */
    lemma ClimbOn(c: Context, t: Shape, grown: Shape)
      requires Kept() && shape == Plug(c, t) && t.Bin?
      requires Balanced(Plug(c, grown)) && Balanced(t) && GrewTo(Ht(grown), t)
      ensures t.node == root ==> Balanced(shape)
      ensures t.node != root ==> !c.Top? && Grew(Above(c, grown), Above(c, t))
    {
      RootIsTop(c, t);
      if !c.Top? {
        PartBalanced(c.up, Above(c, grown));
      }
    }

    lemma WhereItGoes(input: int)
      requires Kept()
      ensures input !in Elems(shape) ==> Plug(Locate(shape, input, Top), Nil) == shape
    {
      LocatedIsThere(shape, input, Top);
    }

    /** Add an element: the tree stays ordered and balanced, and holds exactly one element more, unless it
        held it before. */
    method Add(input: int) returns (ghost rotations: nat)
      requires Valid()
      modifies this, Nodes(shape)`left, Nodes(shape)`right
      ensures Valid() && Elems(shape) == old(Elems(shape)) + {input}
      ensures fresh(Nodes(shape) - old(Nodes(shape))) && rotations <= 1
    {
      hide Kept, Elems, Around, Ordered, Locate, Located, Nodes, NodesAround, Linked, LinkedAround, Balanced, Plug;
      ghost var before, c := shape, Locate(shape, input, Top);
      WhereItGoes(input);
      var current := AddLeaf(input);
      rotations := BalanceTree(current, before, c);
    }

    /** What Add maintains keeps the tree shallow: a tree of height h holds at least Fib(h + 2) - 1 elements, so
        the height is at most twice the logarithm of the size plus one. */
    lemma Shallow()
      requires Valid()
      ensures size >= Fib(Ht(shape) + 2) - 1
      ensures Power(2, Ht(shape) / 2) <= size + 1
    {
      CountsElements(shape);
      BalancedIsBig(shape);
      FibDoubles(Ht(shape));
    }
  }
}
