/** The failing input of insertion as an object in memory. */
module BPlusSlipRuns {

  import opened BPlusPage
  import opened BPlusListing
  import opened BPlusShape
  import opened BPlusNode
  import opened BPlusStore
  import opened BPlusSlip
  import opened BPlusTree

  /** A leaf with the given keys, each bound to 0. */
  method MakeLeaf(ks: seq<int>) returns (p: Page, ghost t: Tree)
    requires |ks| <= 4
    ensures fresh(p) && t == Leaf(p, seq(|ks|, i requires 0 <= i < |ks| => Entry(ks[i], 0))) && Holds(t, 4)
    ensures p.next == null && p.previous == null
  {
    p := new Page(4);
    p.isLeaf := true;
    p.next := null;
    p.previous := null;
    p.size := |ks|;
    p.keys := ks + seq(4 - |ks|, _ => 0);
    p.data := seq(5, _ => 0);
    t := Leaf(p, seq(|ks|, i requires 0 <= i < |ks| => Entry(ks[i], 0)));
  }

  /** Its leaves, linked. */
  method TwoLeaves() returns (left: Page, right: Page, ghost a: Tree, ghost b: Tree)
    ensures fresh(left) && fresh(right) && left != right
    ensures a == Leaf(left, [Entry(1, 0), Entry(2, 0)]) && Holds(a, 4)
    ensures b == Leaf(right, [Entry(10, 0), Entry(20, 0), Entry(30, 0), Entry(40, 0)]) && Holds(b, 4)
    ensures Linked([left, right])
  {
    hide Linked;
    left, a := MakeLeaf([1, 2]);
    right, b := MakeLeaf([10, 20, 30, 40]);
    EntriesMade(a, b);
    left.next := right;
    right.previous := left;
    TwoLinked(left, right);
  }

  /** The tree of SlipExample: the leaf of key 20 is full, 20 is no separator, and the other leaf has room. */
  method SlippingTree() returns (t: BPlusTree)
    ensures fresh(t) && fresh(t.Footprint()) && t.order == 4
    ensures t.Valid() && 20 in t.Contents() && t.SlipsPast(20)
  {
    hide Good, Flat, Slips, Own, Pages, LeafPages, Linked, AllHold, Members, MapOf;
    t := new BPlusTree(4);
    var left, right;
    ghost var a, b;
    left, right, a, b := TwoLeaves();
    assert allocated(Pages(a)) && allocated(Pages(b)) && allocated(Members([left, right]));
    var root := t.NewRoot(10, left, right, Pair(a, b, 10));
    ghost var s := SlipExample(root, left, right);
    SlipPages(a, b, s);
    AllHoldTwo(a, b, 4);
    t.root := root;
    t.leftmostLeaf := left;
    t.shape := Whole(s, 1);
    t.chain := [left, right];
    BoundByListing(t, s);
  }

  lemma EntriesMade(a: Tree, b: Tree)
    requires a.Leaf? && |a.entries| == 2 && a.entries[0] == Entry(1, 0) && a.entries[1] == Entry(2, 0)
    requires b.Leaf? && |b.entries| == 4 && b.entries[0] == Entry(10, 0) && b.entries[1] == Entry(20, 0)
    requires b.entries[2] == Entry(30, 0) && b.entries[3] == Entry(40, 0)
    ensures a == Leaf(a.page, [Entry(1, 0), Entry(2, 0)])
    ensures b == Leaf(b.page, [Entry(10, 0), Entry(20, 0), Entry(30, 0), Entry(40, 0)])
  {
  }

  lemma SlipPages(a: Tree, b: Tree, s: Tree)
    requires a.Leaf? && b.Leaf? && s.Node? && s.kids == [a, b]
    ensures LeafPages(s) == [a.page, b.page] && Pages(s) == {s.page, a.page, b.page}
    ensures Members(LeafPages(s)) <= Pages(s)
  {
    FlatTwo(a, b);
    PagesTwo(a, b);
  }

  lemma TwoLinked(left: Page, right: Page)
    requires left != right && left.next == right && left.previous == null
    requires right.next == null && right.previous == left
    ensures Linked([left, right])
  {
    var chain := [left, right];
    assert LinkedAt(chain, 0) && LinkedAt(chain, 1);
  }

  lemma BoundByListing(t: BPlusTree, s: Tree)
    requires t.shape == Whole(s, 1) && Good(s, 1, 4) && !Absent(Flat(s), 20)
    ensures 20 in t.Contents()
  {
    hide Shape, Tight, Separate, Flat;
    MapOfSorted(Flat(s));
  }

  /** Inserting 20 there answers that it was new, and leaves a tree that is not in order. */
  method SlipRun() returns (t: BPlusTree, ok: bool)
    ensures fresh(t) && ok && !t.Valid()
  {
    hide *;
    t := SlippingTree();
    ok := t.Insert(20, 7);
  }
}
