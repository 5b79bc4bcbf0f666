/** Snapshots of a B+ tree as values, and what rebalancing does to them.
    A snapshot names the pages it was taken from, so that the imperative code can be related to it. */
module BPlusShape {
  import opened BPlusPage
  import opened BPlusListing
  import opened Powers

  /** A leaf holds bindings; an index node holds separators and one child more than separators. */
  datatype Tree =
    | Leaf(page: Page, entries: seq<Entry>)
    | Node(page: Page, keys: seq<int>, kids: seq<Tree>)

  /** What the page's `size` field says. */
  ghost function Count(t: Tree): nat {
    if t.Leaf? then |t.entries| else |t.keys|
  }

  // ----------------------------------------------------------------------------------------------
  // Contents
  // ----------------------------------------------------------------------------------------------

  /** All bindings from left to right. */
  ghost function Flat(t: Tree): seq<Entry>
    decreases t, 1
  {
    match t
    case Leaf(_, entries) => entries
    case Node(_, _, kids) => FlatSeq(kids)
  }

  ghost function FlatSeq(ts: seq<Tree>): seq<Entry>
    decreases ts, 0
  {
    if ts == [] then [] else Flat(ts[0]) + FlatSeq(ts[1..])
  }

  /** The leaf pages from left to right. */
  ghost function LeafPages(t: Tree): seq<Page>
    decreases t, 1
  {
    match t
    case Leaf(p, _) => [p]
    case Node(_, _, kids) => LeafSeq(kids)
  }

  ghost function LeafSeq(ts: seq<Tree>): seq<Page>
    decreases ts, 0
  {
    if ts == [] then [] else LeafPages(ts[0]) + LeafSeq(ts[1..])
  }

  /** Every page of the tree. */
  ghost function Pages(t: Tree): set<Page>
    decreases t, 1
  {
    match t
    case Leaf(p, _) => {p}
    case Node(p, _, kids) => {p} + PagesOf(kids)
  }

  ghost function PagesOf(ts: seq<Tree>): set<Page>
    decreases ts, 0
  {
    set i, q | 0 <= i < |ts| && q in Pages(ts[i]) :: q
  }

  lemma {:induction false} FlatSeqConcat(a: seq<Tree>, b: seq<Tree>)
    ensures FlatSeq(a + b) == FlatSeq(a) + FlatSeq(b)
    ensures LeafSeq(a + b) == LeafSeq(a) + LeafSeq(b)
    decreases |a|
  {
    if a == [] {
      assert a + b == b;
    } else {
      assert (a + b)[1..] == a[1..] + b;
      FlatSeqConcat(a[1..], b);
    }
  }

  lemma FlatThree(a: seq<Tree>, m: seq<Tree>, c: seq<Tree>)
    ensures FlatSeq(a + m + c) == FlatSeq(a) + FlatSeq(m) + FlatSeq(c)
    ensures LeafSeq(a + m + c) == LeafSeq(a) + LeafSeq(m) + LeafSeq(c)
  {
    hide *;
    FlatSeqConcat(a + m, c);
    FlatSeqConcat(a, m);
  }

  lemma FlatOne(t: Tree)
    ensures FlatSeq([t]) == Flat(t)
    ensures LeafSeq([t]) == LeafPages(t)
  {
    assert [t][1..] == [];
  }

  lemma FlatTwo(l: Tree, r: Tree)
    ensures FlatSeq([l, r]) == Flat(l) + Flat(r)
    ensures LeafSeq([l, r]) == LeafPages(l) + LeafPages(r)
  {
    assert [l, r][1..] == [r];
    FlatOne(r);
  }

  /** The bindings of a list of children around child `b`. */
  lemma FlatAround(kids: seq<Tree>, b: nat)
    requires b < |kids|
    ensures FlatSeq(kids) == FlatSeq(kids[..b]) + Flat(kids[b]) + FlatSeq(kids[b + 1..])
    ensures LeafSeq(kids) == LeafSeq(kids[..b]) + LeafPages(kids[b]) + LeafSeq(kids[b + 1..])
  {
    hide *;
    FlatCut(kids, b, b + 1);
    assert kids[b..b + 1] == [kids[b]];
    FlatOne(kids[b]);
  }

  lemma CutThree<T>(s: seq<T>, i: nat, j: nat)
    requires i <= j <= |s|
    ensures s[..i] + s[i..j] + s[j..] == s
  {
  }

  /** The bindings of a list of children, cut at `i` and `j`. */
  lemma FlatCut(kids: seq<Tree>, i: nat, j: nat)
    requires i <= j <= |kids|
    ensures FlatSeq(kids) == FlatSeq(kids[..i]) + FlatSeq(kids[i..j]) + FlatSeq(kids[j..])
    ensures LeafSeq(kids) == LeafSeq(kids[..i]) + LeafSeq(kids[i..j]) + LeafSeq(kids[j..])
  {
    hide *;
    CutThree(kids, i, j);
    FlatThree(kids[..i], kids[i..j], kids[j..]);
  }

  // ----------------------------------------------------------------------------------------------
  // Invariants
  // ----------------------------------------------------------------------------------------------

  /** Uniform depth `h`, at most `order` entries in every page, at least order/2 in every page
      below the top one. */
  ghost predicate Shape(t: Tree, h: nat, order: nat)
    decreases t
  {
    match t
    case Leaf(_, entries) => h == 0 && |entries| <= order
    case Node(_, keys, kids) =>
      h > 0 && |keys| <= order && |kids| == |keys| + 1
      && forall i :: 0 <= i < |kids| ==> Shape(kids[i], h - 1, order) && order / 2 <= Count(kids[i])
  }

  ghost predicate LeastIs(t: Tree, key: int) {
    Flat(t) != [] && Flat(t)[0].key == key
  }

  /** Every separator equals the least key of the subtree to its right. */
  ghost predicate Tight(t: Tree)
    decreases t
  {
    match t
    case Leaf(_, _) => true
    case Node(_, keys, kids) =>
      |kids| == |keys| + 1
      && (forall i :: 0 <= i < |keys| ==> LeastIs(kids[i + 1], keys[i]))
      && forall i :: 0 <= i < |kids| ==> Tight(kids[i])
  }

  /** No page occurs twice. */
  ghost predicate Separate(t: Tree)
    decreases t, 1
  {
    match t
    case Leaf(_, _) => true
    case Node(p, _, kids) => p !in PagesOf(kids) && AllSeparate(kids)
  }

  ghost predicate AllSeparate(ts: seq<Tree>)
    decreases ts, 0
  {
    && (forall i :: 0 <= i < |ts| ==> Separate(ts[i]))
    && forall i, j :: 0 <= i < j < |ts| ==> Pages(ts[i]) !! Pages(ts[j])
  }

  lemma KidPages(t: Tree)
    requires t.Node?
    ensures forall i :: 0 <= i < |t.kids| ==> Pages(t.kids[i]) <= Pages(t)
  {
  }

  lemma PagesConcat(a: seq<Tree>, b: seq<Tree>)
    ensures PagesOf(a + b) == PagesOf(a) + PagesOf(b)
  {
    var c := a + b;
    forall q | q in PagesOf(a) ensures q in PagesOf(c) {
      var i :| 0 <= i < |a| && q in Pages(a[i]);
      assert c[i] == a[i];
    }
    forall q | q in PagesOf(b) ensures q in PagesOf(c) {
      var i :| 0 <= i < |b| && q in Pages(b[i]);
      assert c[|a| + i] == b[i];
    }
  }

  lemma SeparateConcat(a: seq<Tree>, b: seq<Tree>)
    ensures AllSeparate(a + b) <==> AllSeparate(a) && AllSeparate(b) && PagesOf(a) !! PagesOf(b)
  {
    var c := a + b;
    assert forall i :: 0 <= i < |a| ==> c[i] == a[i];
    assert forall i :: 0 <= i < |b| ==> c[|a| + i] == b[i];
    if AllSeparate(a) && AllSeparate(b) && PagesOf(a) !! PagesOf(b) {
      forall i, j | 0 <= i < j < |c| ensures Pages(c[i]) !! Pages(c[j]) {
        if i < |a| <= j {
          assert Pages(a[i]) <= PagesOf(a) && Pages(b[j - |a|]) <= PagesOf(b);
        }
      }
    }
  }

  lemma PagesOne(t: Tree)
    ensures PagesOf([t]) == Pages(t)
    ensures AllSeparate([t]) <==> Separate(t)
  {
    assert [t][0] == t;
  }

  lemma {:induction false} NonEmpty(t: Tree, h: nat, order: nat)
    requires Shape(t, h, order) && order >= 4
    requires t.Leaf? ==> Count(t) > 0
    ensures Flat(t) != []
    decreases h
  {
    if t.Node? {
      NonEmpty(t.kids[0], h - 1, order);
    }
  }

  /** Leaves are pages of the tree; the page of an index node is no leaf of it. */
  lemma {:induction false} LeafPagesIn(t: Tree)
    ensures forall p :: p in LeafPages(t) ==> p in Pages(t)
    ensures t.Node? && Separate(t) ==> t.page !in LeafPages(t)
    decreases t, 1
  {
    if t.Node? {
      LeafSeqIn(t.kids);
    }
  }

  lemma {:induction false} LeafSeqIn(ts: seq<Tree>)
    ensures forall p :: p in LeafSeq(ts) ==> p in PagesOf(ts)
    decreases ts, 0
  {
    if ts != [] {
      LeafPagesIn(ts[0]);
      LeafSeqIn(ts[1..]);
      assert ts == [ts[0]] + ts[1..];
      PagesConcat([ts[0]], ts[1..]);
      PagesOne(ts[0]);
    }
  }

  // ----------------------------------------------------------------------------------------------
  // Rebalancing two neighbouring children
  // ----------------------------------------------------------------------------------------------

  datatype Pair = Pair(left: Tree, right: Tree, separator: int)

  /** Two neighbours at the same depth with the separator between them. */
  ghost predicate Neighbours(p: Pair, h: nat, order: nat) {
    && Shape(p.left, h, order) && Shape(p.right, h, order)
    && Tight(p.left) && Tight(p.right) && LeastIs(p.right, p.separator)
    && Separate(p.left) && Separate(p.right) && Pages(p.left) !! Pages(p.right)
  }

  /** The last entry of the left page becomes the first of the right page. */
  ghost function BorrowFromLeft(p: Pair): Pair
    requires p.left.Leaf? == p.right.Leaf? && Count(p.left) > 0
    requires p.left.Node? ==> |p.left.kids| == |p.left.keys| + 1
  {
    var n := Count(p.left) - 1;
    match p.left
    case Leaf(lp, es) =>
      Pair(Leaf(lp, es[..n]), Leaf(p.right.page, [es[n]] + p.right.entries), es[n].key)
    case Node(lp, keys, kids) =>
      Pair(Node(lp, keys[..n], kids[..n + 1]),
           Node(p.right.page, [p.separator] + p.right.keys, [kids[n + 1]] + p.right.kids),
           keys[n])
  }

  /** The first entry of the right page becomes the last of the left page. */
  ghost function BorrowFromRight(p: Pair): Pair
    requires p.left.Leaf? == p.right.Leaf? && Count(p.right) > 1
    requires p.right.Node? ==> |p.right.kids| == |p.right.keys| + 1
  {
    match p.right
    case Leaf(rp, es) =>
      Pair(Leaf(p.left.page, p.left.entries + [es[0]]), Leaf(rp, es[1..]), es[1].key)
    case Node(rp, keys, kids) =>
      Pair(Node(p.left.page, p.left.keys + [p.separator], p.left.kids + [kids[0]]),
           Node(rp, keys[1..], kids[1..]),
           keys[0])
  }

  /** The right page is appended to the left one. */
  ghost function Merge(p: Pair): Tree
    requires p.left.Leaf? == p.right.Leaf?
  {
    match p.left
    case Leaf(lp, es) => Leaf(lp, es + p.right.entries)
    case Node(lp, keys, kids) => Node(lp, keys + [p.separator] + p.right.keys, kids + p.right.kids)
  }

  /** What moving an entry between two neighbours keeps. */
  ghost predicate SameListing(p: Pair, q: Pair) {
    && Flat(q.left) + Flat(q.right) == Flat(p.left) + Flat(p.right)
    && LeafPages(q.left) + LeafPages(q.right) == LeafPages(p.left) + LeafPages(p.right)
    && q.left.page == p.left.page && q.right.page == p.right.page
  }

  /** The least binding of a node is the least binding of its first child. */
  lemma FirstKid(t: Tree, h: nat, order: nat)
    requires order >= 4 && t.Node? && h > 0 && |t.kids| > 0
    requires Shape(t.kids[0], h - 1, order) && 0 < Count(t.kids[0])
    ensures Flat(t.kids[0]) != [] && Flat(t) != [] && Flat(t)[0] == Flat(t.kids[0])[0]
  {
    NonEmpty(t.kids[0], h - 1, order);
  }

  lemma BorrowFromLeftListing(p: Pair, h: nat, order: nat)
    requires order >= 4 && Neighbours(p, h, order)
    requires order / 2 < Count(p.left)
    ensures p.left.Leaf? == p.right.Leaf? && SameListing(p, BorrowFromLeft(p))
  {
    hide FlatSeq, LeafSeq, Tight, Separate, Pages;
    var q := BorrowFromLeft(p);
    var n := Count(p.left) - 1;
    if p.left.Leaf? {
      var es := p.left.entries;
      assert es == es[..n] + [es[n]];
    } else {
      var kids := p.left.kids;
      var moved := kids[n + 1];
      assert kids == kids[..n + 1] + [moved];
      FlatSeqConcat(kids[..n + 1], [moved]);
      FlatSeqConcat([moved], p.right.kids);
      FlatOne(moved);
    }
  }

  lemma BorrowFromLeftTight(p: Pair, h: nat, order: nat)
    requires order >= 4 && Neighbours(p, h, order)
    requires order / 2 < Count(p.left)
    ensures p.left.Leaf? == p.right.Leaf?
    ensures var q := BorrowFromLeft(p); Tight(q.left) && Tight(q.right) && LeastIs(q.right, q.separator)
  {
    if p.left.Node? {
      var q := BorrowFromLeft(p);
      FirstKid(p.right, h, order);
      var n := Count(p.left) - 1;
      assert LeastIs(p.left.kids[n + 1], p.left.keys[n]);
      forall i | 0 <= i < |q.right.keys| ensures LeastIs(q.right.kids[i + 1], q.right.keys[i]) {
        if i > 0 {
          assert LeastIs(p.right.kids[i], p.right.keys[i - 1]);
        }
      }
    }
  }

  lemma BorrowFromLeftSeparate(p: Pair, h: nat, order: nat)
    requires order >= 4 && Neighbours(p, h, order)
    requires order / 2 < Count(p.left)
    ensures p.left.Leaf? == p.right.Leaf?
    ensures var q := BorrowFromLeft(p);
      Separate(q.left) && Separate(q.right) && Pages(q.left) !! Pages(q.right)
      && Pages(q.left) + Pages(q.right) == Pages(p.left) + Pages(p.right)
  {
    if p.left.Node? {
      hide FlatSeq, LeafSeq;
      var n := Count(p.left) - 1;
      var kids, moved := p.left.kids[..n + 1], p.left.kids[n + 1];
      assert p.left.kids == kids + [moved];
      PagesConcat(kids, [moved]);
      SeparateConcat(kids, [moved]);
      PagesConcat([moved], p.right.kids);
      SeparateConcat([moved], p.right.kids);
      PagesOne(moved);
    }
  }

  lemma BorrowFromLeftKeeps(p: Pair, h: nat, order: nat) returns (q: Pair)
    requires order >= 4 && Neighbours(p, h, order)
    requires order / 2 < Count(p.left) && Count(p.right) < order / 2
    ensures p.left.Leaf? == p.right.Leaf?
    ensures q == BorrowFromLeft(p)
    ensures Neighbours(q, h, order) && SameListing(p, q)
    ensures Pages(q.left) + Pages(q.right) == Pages(p.left) + Pages(p.right)
    ensures Count(q.left) == Count(p.left) - 1 && Count(q.right) == Count(p.right) + 1
  {
    q := BorrowFromLeft(p);
    BorrowFromLeftListing(p, h, order);
    BorrowFromLeftTight(p, h, order);
    BorrowFromLeftSeparate(p, h, order);
  }

  lemma BorrowFromRightListing(p: Pair, h: nat, order: nat)
    requires order >= 4 && Neighbours(p, h, order)
    requires order / 2 < Count(p.right)
    ensures p.left.Leaf? == p.right.Leaf? && SameListing(p, BorrowFromRight(p))
  {
    hide FlatSeq, LeafSeq, Tight, Separate, Pages;
    var q := BorrowFromRight(p);
    if p.left.Leaf? {
      var es := p.right.entries;
      assert es == [es[0]] + es[1..];
    } else {
      var kids := p.right.kids;
      var moved := kids[0];
      assert kids == [moved] + kids[1..];
      FlatSeqConcat([moved], kids[1..]);
      FlatSeqConcat(p.left.kids, [moved]);
      FlatOne(moved);
    }
  }

  lemma BorrowFromRightTight(p: Pair, h: nat, order: nat)
    requires order >= 4 && Neighbours(p, h, order)
    requires order / 2 < Count(p.right)
    ensures p.left.Leaf? == p.right.Leaf?
    ensures var q := BorrowFromRight(p); Tight(q.left) && Tight(q.right) && LeastIs(q.right, q.separator)
  {
    if p.left.Node? {
      var q := BorrowFromRight(p);
      FirstKid(p.right, h, order);
      assert LeastIs(p.right.kids[1], p.right.keys[0]);
      assert Flat(q.right) == FlatSeq(q.right.kids);
      assert LeastIs(q.right, q.separator);
      forall i | 0 <= i < |q.left.keys| ensures LeastIs(q.left.kids[i + 1], q.left.keys[i]) {
        if i < |p.left.keys| {
          assert LeastIs(p.left.kids[i + 1], p.left.keys[i]);
        }
      }
      forall i | 0 <= i < |q.right.keys| ensures LeastIs(q.right.kids[i + 1], q.right.keys[i]) {
        assert LeastIs(p.right.kids[i + 2], p.right.keys[i + 1]);
      }
    }
  }

  lemma BorrowFromRightSeparate(p: Pair, h: nat, order: nat)
    requires order >= 4 && Neighbours(p, h, order)
    requires order / 2 < Count(p.right)
    ensures p.left.Leaf? == p.right.Leaf?
    ensures var q := BorrowFromRight(p);
      Separate(q.left) && Separate(q.right) && Pages(q.left) !! Pages(q.right)
      && Pages(q.left) + Pages(q.right) == Pages(p.left) + Pages(p.right)
  {
    if p.left.Node? {
      hide FlatSeq, LeafSeq;
      var moved, kids := p.right.kids[0], p.right.kids[1..];
      assert p.right.kids == [moved] + kids;
      PagesConcat([moved], kids);
      SeparateConcat([moved], kids);
      PagesConcat(p.left.kids, [moved]);
      SeparateConcat(p.left.kids, [moved]);
      PagesOne(moved);
    }
  }

  lemma BorrowFromRightKeeps(p: Pair, h: nat, order: nat) returns (q: Pair)
    requires order >= 4 && Neighbours(p, h, order)
    requires order / 2 < Count(p.right) && Count(p.left) < order / 2
    ensures p.left.Leaf? == p.right.Leaf?
    ensures q == BorrowFromRight(p)
    ensures Neighbours(q, h, order) && SameListing(p, q)
    ensures Pages(q.left) + Pages(q.right) == Pages(p.left) + Pages(p.right)
    ensures Count(q.left) == Count(p.left) + 1 && Count(q.right) == Count(p.right) - 1
  {
    q := BorrowFromRight(p);
    BorrowFromRightListing(p, h, order);
    BorrowFromRightTight(p, h, order);
    BorrowFromRightSeparate(p, h, order);
  }

  lemma MergeListing(p: Pair, h: nat, order: nat)
    requires Neighbours(p, h, order)
    ensures p.left.Leaf? == p.right.Leaf?
    ensures Flat(Merge(p)) == Flat(p.left) + Flat(p.right)
    ensures LeafPages(Merge(p)) == if p.left.Leaf? then [p.left.page] else LeafPages(p.left) + LeafPages(p.right)
  {
    if p.left.Node? {
      FlatSeqConcat(p.left.kids, p.right.kids);
    }
  }

  lemma MergeTight(p: Pair, h: nat, order: nat)
    requires order >= 4 && Neighbours(p, h, order)
    ensures p.left.Leaf? == p.right.Leaf? && Tight(Merge(p))
  {
    if p.left.Node? {
      var m := Merge(p);
      FirstKid(p.right, h, order);
      var n := |p.left.keys|;
      forall i | 0 <= i < |m.keys| ensures LeastIs(m.kids[i + 1], m.keys[i]) {
        if i < n {
          assert LeastIs(p.left.kids[i + 1], p.left.keys[i]);
        } else if i > n {
          assert LeastIs(p.right.kids[i - n], p.right.keys[i - n - 1]);
        }
      }
    }
  }

  lemma MergeSeparate(p: Pair, h: nat, order: nat)
    requires Neighbours(p, h, order)
    ensures p.left.Leaf? == p.right.Leaf? && Separate(Merge(p))
    ensures Pages(Merge(p)) == Pages(p.left) + Pages(p.right) - {p.right.page}
  {
    if p.left.Node? {
      hide FlatSeq, LeafSeq;
      PagesConcat(p.left.kids, p.right.kids);
      SeparateConcat(p.left.kids, p.right.kids);
    }
  }

  lemma MergeKeeps(p: Pair, h: nat, order: nat) returns (m: Tree)
    requires order >= 4 && Neighbours(p, h, order)
    requires Count(p.left) + Count(p.right) < order
    ensures p.left.Leaf? == p.right.Leaf?
    ensures m == Merge(p) && Shape(m, h, order) && Tight(m) && Separate(m)
    ensures Flat(m) == Flat(p.left) + Flat(p.right)
    ensures LeafPages(m) == if p.left.Leaf? then [p.left.page] else LeafPages(p.left) + LeafPages(p.right)
    ensures Pages(m) == Pages(p.left) + Pages(p.right) - {p.right.page}
    ensures Count(m) == Count(p.left) + Count(p.right) + if p.left.Leaf? then 0 else 1
  {
    m := Merge(p);
    MergeListing(p, h, order);
    MergeTight(p, h, order);
    MergeSeparate(p, h, order);
  }

  // ----------------------------------------------------------------------------------------------
  // How much a tree holds
  // ----------------------------------------------------------------------------------------------

  lemma {:induction false} ChildrenHold(ts: seq<Tree>, m: nat)
    requires forall i :: 0 <= i < |ts| ==> m <= |Flat(ts[i])|
    ensures |ts| * m <= |FlatSeq(ts)|
  {
    if ts != [] {
      ChildrenHold(ts[1..], m);
      assert |ts| * m == m + |ts[1..]| * m;
    }
  }

  /** A subtree of depth `h` whose pages are half full holds (order/2) (order/2 + 1)^h bindings at least. */
  lemma {:induction false} DepthFills(t: Tree, h: nat, order: nat)
    requires Shape(t, h, order) && order / 2 <= Count(t)
    ensures order / 2 * Power(order / 2 + 1, h) <= |Flat(t)|
    decreases h, 1
  {
    if t.Node? {
      KidsFill(t, h, order);
      Times(order / 2 + 1, |t.kids|, order / 2 * Power(order / 2 + 1, h - 1));
      Regroup(order / 2, order / 2 + 1, Power(order / 2 + 1, h - 1));
    }
  }

  /** What the children hold together: every page below a node is half full, whatever the node itself holds. */
  lemma {:induction false} KidsFill(t: Tree, h: nat, order: nat)
    requires t.Node? && Shape(t, h, order)
    ensures |t.kids| * (order / 2 * Power(order / 2 + 1, h - 1)) <= |Flat(t)|
    decreases h, 0
  {
    hide Power;
    forall i | 0 <= i < |t.kids| ensures order / 2 * Power(order / 2 + 1, h - 1) <= |Flat(t.kids[i])| {
      DepthFills(t.kids[i], h - 1, order);
    }
    ChildrenHold(t.kids, order / 2 * Power(order / 2 + 1, h - 1));
  }

  /** The same for a root that has children, at least two. */
  lemma RootFills(t: Tree, h: nat, order: nat)
    requires Shape(t, h, order) && h > 0 && 0 < Count(t)
    ensures 2 * (order / 2 * Power(order / 2 + 1, h - 1)) <= |Flat(t)|
  {
    hide Power, Flat;
    KidsFill(t, h, order);
    Times(2, |t.kids|, order / 2 * Power(order / 2 + 1, h - 1));
  }

  lemma Times(a: nat, b: nat, m: nat)
    requires a <= b
    ensures a * m <= b * m
  {
  }

  lemma Regroup(a: nat, b: nat, c: nat)
    ensures a * (b * c) == b * (a * c)
  {
  }
}
