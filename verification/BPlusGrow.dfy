/** What insertion does to snapshots: adding an entry, splitting an overfull page, rotating an
    entry into a neighbouring leaf. */
module BPlusGrow {
  import opened BPlusPage
  import opened BPlusListing
  import opened BPlusShape
  import opened BPlusNode

  // ----------------------------------------------------------------------------------------------
  // Adding one entry, and splitting a page that has one entry too many
  // ----------------------------------------------------------------------------------------------

  /** The leaf with a binding at index `i`. */
  ghost function GrowLeaf(t: Tree, i: nat, e: Entry): Tree
    requires t.Leaf? && i <= |t.entries|
  {
    Leaf(t.page, t.entries[..i] + [e] + t.entries[i..])
  }

  /** The node after child `b` was split into `q.left` and `q.right`. */
  ghost function GrowNode(t: Tree, b: nat, q: Pair): Tree
    requires t.Node? && b < |t.kids| == |t.keys| + 1
  {
    Node(t.page, t.keys[..b] + [q.separator] + t.keys[b..], t.kids[..b] + [q.left, q.right] + t.kids[b + 1..])
  }

  /** A page with one entry too many, cut after `n` keys; the right half goes to page `p`. */
  ghost function Split(v: Tree, n: nat, p: Page): Pair
    requires 0 < n < Count(v) && (v.Node? ==> |v.kids| == |v.keys| + 1)
  {
    match v
    case Leaf(q, es) => Pair(Leaf(q, es[..n]), Leaf(p, es[n..]), es[n].key)
    case Node(q, keys, kids) => Pair(Node(q, keys[..n], kids[..n + 1]), Node(p, keys[n + 1..], kids[n + 1..]), keys[n])
  }

  /** How many keys the left half keeps, by the index at which the new key goes. */
  function LeftCount(order: nat, insertionIndex: int): nat {
    if insertionIndex >= (order + 1) / 2 then order / 2 else (order + 1) / 2
  }

  /** A tree whose top page may hold one entry too many. */
  ghost predicate Swollen(v: Tree, h: nat, order: nat) {
    && Tight(v) && Separate(v) && Sorted(Flat(v)) && Count(v) <= order + 1
    && match v
       case Leaf(_, es) => h == 0
       case Node(_, keys, kids) =>
         h > 0 && |kids| == |keys| + 1
         && forall i :: 0 <= i < |kids| ==> Shape(kids[i], h - 1, order) && order / 2 <= Count(kids[i])
  }

  lemma SwollenGood(v: Tree, h: nat, order: nat)
    requires Swollen(v, h, order) && Count(v) <= order
    ensures Good(v, h, order)
  {
  }

  /** The top page is not among the pages below it. */
  lemma SwollenApart(v: Tree, h: nat, order: nat)
    requires Swollen(v, h, order)
    ensures v.page in Pages(v)
    ensures v.Node? ==> |v.kids| == |v.keys| + 1 && v.page !in PagesOf(v.kids) && PagesOf(v.kids) <= Pages(v)
  {
  }

  lemma SplitListing(v: Tree, n: nat, p: Page)
    requires 0 < n < Count(v) && (v.Node? ==> |v.kids| == |v.keys| + 1)
    ensures var q := Split(v, n, p); Flat(q.left) + Flat(q.right) == Flat(v)
    ensures var q := Split(v, n, p);
      LeafPages(q.left) + LeafPages(q.right) == if v.Leaf? then [v.page, p] else LeafPages(v)
  {
    hide FlatSeq, LeafSeq;
    match v
    case Leaf(_, es) =>
      assert es == es[..n] + es[n..];
    case Node(_, _, kids) =>
      assert kids == kids[..n + 1] + kids[n + 1..];
      FlatSeqConcat(kids[..n + 1], kids[n + 1..]);
  }

  lemma SplitTight(v: Tree, h: nat, order: nat, n: nat, p: Page)
    requires order >= 4 && Swollen(v, h, order) && 0 < n < Count(v)
    ensures var q := Split(v, n, p); Tight(q.left) && Tight(q.right) && LeastIs(q.right, q.separator)
  {
    if v.Node? {
      var q := Split(v, n, p);
      assert LeastIs(v.kids[n + 1], v.keys[n]);
      FirstKid(q.right, h, order);
      forall i | 0 <= i < |q.left.keys| ensures LeastIs(q.left.kids[i + 1], q.left.keys[i]) {
        assert LeastIs(v.kids[i + 1], v.keys[i]);
      }
      forall i | 0 <= i < |q.right.keys| ensures LeastIs(q.right.kids[i + 1], q.right.keys[i]) {
        assert LeastIs(v.kids[n + 1 + i + 1], v.keys[n + 1 + i]);
      }
    }
  }

  lemma SplitSeparate(v: Tree, n: nat, p: Page)
    requires 0 < n < Count(v) && (v.Node? ==> |v.kids| == |v.keys| + 1)
    requires Separate(v) && p !in Pages(v)
    ensures var q := Split(v, n, p);
      Separate(q.left) && Separate(q.right) && Pages(q.left) !! Pages(q.right)
      && Pages(q.left) + Pages(q.right) == Pages(v) + {p}
  {
    if v.Node? {
      hide FlatSeq, LeafSeq;
      PagesConcat(v.kids[..n + 1], v.kids[n + 1..]);
      SeparateConcat(v.kids[..n + 1], v.kids[n + 1..]);
      assert v.kids == v.kids[..n + 1] + v.kids[n + 1..];
    }
  }

  /** Both halves of a split page are good and at least half full. */
  lemma SplitKeeps(v: Tree, h: nat, order: nat, insertionIndex: int, p: Page) returns (q: Pair)
    requires order >= 4 && Swollen(v, h, order) && Count(v) == order + 1 && p !in Pages(v)
    ensures var n := LeftCount(order, insertionIndex); 0 < n < Count(v) && q == Split(v, n, p)
    ensures Good(q.left, h, order) && Good(q.right, h, order) && Pages(q.left) !! Pages(q.right)
    ensures order / 2 <= Count(q.left) && order / 2 <= Count(q.right) && LeastIs(q.right, q.separator)
    ensures Flat(q.left) + Flat(q.right) == Flat(v)
    ensures LeafPages(q.left) + LeafPages(q.right) == if v.Leaf? then [v.page, p] else LeafPages(v)
    ensures Pages(q.left) + Pages(q.right) == Pages(v) + {p}
  {
    var n := LeftCount(order, insertionIndex);
    q := Split(v, n, p);
    SplitListing(v, n, p);
    SplitTight(v, h, order, n, p);
    SplitSeparate(v, n, p);
    SortedConcat(Flat(q.left), Flat(q.right));
  }

  /** A leaf with the new binding where the search says it belongs. */
  lemma GrowLeafKeeps(t: Tree, order: nat, i: nat, e: Entry)
    requires Good(t, 0, order) && i <= |t.entries| && t.Leaf?
    requires forall j :: 0 <= j < i ==> t.entries[j].key < e.key
    requires forall j :: i <= j < |t.entries| ==> e.key < t.entries[j].key
    ensures Swollen(GrowLeaf(t, i, e), 0, order)
    ensures Flat(GrowLeaf(t, i, e)) == With(Flat(t), e)
  {
    hide Sorted, With;
    WithAt(t.entries, i, e);
    WithSorted(t.entries, e);
  }

  // ----------------------------------------------------------------------------------------------
  // The node above
  // ----------------------------------------------------------------------------------------------

  /** A binding added below the followed child is added to the node's listing. */
  lemma FollowedWith(t: Tree, h: nat, order: nat, b: nat, e: Entry)
    requires order >= 4 && Children(t, h, order) && Sorted(Flat(t)) && Follows(t, e.key, b)
    ensures With(Flat(t), e) == FlatSeq(t.kids[..b]) + With(Flat(t.kids[b]), e) + FlatSeq(t.kids[b + 1..])
  {
    FollowedChild(t, h, order, e.key, b);
    hide *;
    WithThree(FlatSeq(t.kids[..b]), Flat(t.kids[b]), FlatSeq(t.kids[b + 1..]), e);
  }

  /** The node stays good when the binding went into its child `b` without a split. */
  lemma GrewInside(t: Tree, h: nat, order: nat, b: nat, e: Entry, kid: Tree, extra: set<Page>) returns (u: Tree)
    requires order >= 4 && Good(t, h, order) && t.Node? && Follows(t, e.key, b) && b < |t.kids|
    requires Absent(Flat(t), e.key)
    requires Good(kid, h - 1, order) && order / 2 <= Count(kid)
    requires Flat(kid) == With(Flat(t.kids[b]), e)
    requires Pages(kid) <= Pages(t.kids[b]) + extra && extra !! Pages(t)
    ensures |t.kids| == |t.keys| + 1
    ensures u == PutKid(t, b, kid, if b > 0 then t.keys[b - 1] else 0) && u.keys == t.keys
    ensures Good(u, h, order)
    ensures Flat(u) == With(Flat(t), e) && Pages(u) <= Pages(t) + extra
    ensures LeafPages(u) == LeafSeq(t.kids[..b]) + LeafPages(kid) + LeafSeq(t.kids[b + 1..])
  {
    GoodKid(t, h, order, b);
    FollowedAbsent(t, h, order, e.key, b);
    FollowedWith(t, h, order, b, e);
    var least := if b > 0 then t.keys[b - 1] else 0;
    if b > 0 {
      WithFirst(Flat(t.kids[b]), e);
      assert LeastIs(kid, least);
    }
    WithSorted(Flat(t), e);
    u := PutKid(t, b, kid, least);
    PutKidShape(t, h, order, b, kid, least);
    hide Flat, FlatSeq, LeafSeq, LeafPages, Pages, PagesOf, Separate, Shape, Tight, Children, PutKid, Follows;
    PutKidTight(t, h, order, b, kid, least);
    PutKidListing(t, b, kid, least);
    PutKidSeparate(t, b, kid, least, extra);
    KeysKept(t, b, kid, least);
  }

  lemma KeysKept(t: Tree, b: nat, kid: Tree, least: int)
    requires t.Node? && b < |t.kids| == |t.keys| + 1 && (b > 0 ==> least == t.keys[b - 1])
    ensures PutKid(t, b, kid, least).keys == t.keys
  {
  }

  lemma PutKidShape(t: Tree, h: nat, order: nat, b: nat, kid: Tree, least: int)
    requires Shape(t, h, order) && t.Node? && b < |t.kids|
    requires Shape(kid, h - 1, order) && order / 2 <= Count(kid)
    ensures Shape(PutKid(t, b, kid, least), h, order)
  {
  }

  lemma GrowNodeKids(t: Tree, h: nat, order: nat)
    requires Good(t, h, order) && t.Node?
    ensures |t.kids| == |t.keys| + 1 && Tight(t)
  {
    hide Separate, Sorted, Flat;
  }

  lemma GrowNodeTight(t: Tree, h: nat, order: nat, b: nat, q: Pair)
    requires order >= 4 && Good(t, h, order) && t.Node? && b < |t.kids|
    requires Good(q.left, h - 1, order) && Good(q.right, h - 1, order)
    requires LeastIs(q.right, q.separator) && (b > 0 ==> LeastIs(q.left, t.keys[b - 1]))
    ensures |t.kids| == |t.keys| + 1 && Tight(GrowNode(t, b, q))
  {
    hide Shape, Separate, Sorted, Flat, LeastIs;
    GrowNodeKids(t, h, order);
    var v := GrowNode(t, b, q);
    forall i | 0 <= i < |v.kids| ensures Tight(v.kids[i]) {
      assert i < b ==> v.kids[i] == t.kids[i];
      assert i > b + 1 ==> v.kids[i] == t.kids[i - 1];
    }
    forall i | 0 <= i < |v.keys| ensures LeastIs(v.kids[i + 1], v.keys[i]) {
      if i < b {
        assert LeastIs(t.kids[i + 1], t.keys[i]);
      } else if i > b {
        assert LeastIs(t.kids[i], t.keys[i - 1]);
      }
    }
  }

  lemma GrowNodeListing(t: Tree, b: nat, q: Pair)
    requires t.Node? && b < |t.kids| == |t.keys| + 1
    ensures Flat(GrowNode(t, b, q)) == FlatSeq(t.kids[..b]) + (Flat(q.left) + Flat(q.right)) + FlatSeq(t.kids[b + 1..])
    ensures LeafPages(GrowNode(t, b, q)) ==
      LeafSeq(t.kids[..b]) + (LeafPages(q.left) + LeafPages(q.right)) + LeafSeq(t.kids[b + 1..])
  {
    hide FlatSeq, LeafSeq;
    FlatThree(t.kids[..b], [q.left, q.right], t.kids[b + 1..]);
    FlatTwo(q.left, q.right);
  }

  lemma GrowNodeSeparate(t: Tree, b: nat, q: Pair, extra: set<Page>)
    requires t.Node? && b < |t.kids| == |t.keys| + 1 && Separate(t)
    requires Separate(q.left) && Separate(q.right) && Pages(q.left) !! Pages(q.right)
    requires Pages(q.left) + Pages(q.right) <= Pages(t.kids[b]) + extra && extra !! Pages(t)
    ensures Separate(GrowNode(t, b, q)) && Pages(GrowNode(t, b, q)) <= Pages(t) + extra
  {
    hide FlatSeq, LeafSeq, AllSeparate, PagesOf;
    var a, m, c := t.kids[..b], [t.kids[b]], t.kids[b + 1..];
    assert t.kids == a + m + c;
    PagesOne(t.kids[b]);
    PagesTwo(q.left, q.right);
    ReplaceSeparate(a, m, [q.left, q.right], c, extra);
  }

  lemma GrowNodeShape(t: Tree, h: nat, order: nat, b: nat, q: Pair)
    requires Shape(t, h, order) && t.Node? && b < |t.kids|
    requires Shape(q.left, h - 1, order) && order / 2 <= Count(q.left)
    requires Shape(q.right, h - 1, order) && order / 2 <= Count(q.right)
    requires Tight(GrowNode(t, b, q)) && Separate(GrowNode(t, b, q)) && Sorted(Flat(GrowNode(t, b, q)))
    ensures Swollen(GrowNode(t, b, q), h, order)
  {
  }

  /** The node with one entry more when its child `b` split. */
  lemma GrewApart(t: Tree, h: nat, order: nat, b: nat, e: Entry, q: Pair, extra: set<Page>) returns (v: Tree)
    requires order >= 4 && Good(t, h, order) && t.Node? && Follows(t, e.key, b) && b < |t.kids|
    requires Absent(Flat(t), e.key)
    requires Good(q.left, h - 1, order) && order / 2 <= Count(q.left)
    requires Good(q.right, h - 1, order) && order / 2 <= Count(q.right)
    requires LeastIs(q.right, q.separator) && Pages(q.left) !! Pages(q.right)
    requires Flat(q.left) + Flat(q.right) == With(Flat(t.kids[b]), e)
    requires Pages(q.left) + Pages(q.right) <= Pages(t.kids[b]) + extra && extra !! Pages(t)
    ensures |t.kids| == |t.keys| + 1 && v == GrowNode(t, b, q) && Swollen(v, h, order)
    ensures Flat(v) == With(Flat(t), e) && Pages(v) <= Pages(t) + extra
    ensures LeafPages(v) == LeafSeq(t.kids[..b]) + (LeafPages(q.left) + LeafPages(q.right)) + LeafSeq(t.kids[b + 1..])
  {
    GoodKid(t, h, order, b);
    FollowedAbsent(t, h, order, e.key, b);
    FollowedWith(t, h, order, b, e);
    NonEmpty(q.left, h - 1, order);
    if b > 0 {
      WithFirst(Flat(t.kids[b]), e);
      assert (Flat(q.left) + Flat(q.right))[0] == Flat(q.left)[0];
    }
    WithSorted(Flat(t), e);
    v := GrowNode(t, b, q);
    GrowNodeTight(t, h, order, b, q);
    hide Flat, FlatSeq, LeafSeq, LeafPages, Pages, PagesOf, Separate, Shape, Tight, Children, GrowNode, Follows;
    GrowNodeListing(t, b, q);
    GrowNodeSeparate(t, b, q, extra);
    GrowNodeShape(t, h, order, b, q);
  }

  // ----------------------------------------------------------------------------------------------
  // Leaves that share a binding with a neighbour
  // ----------------------------------------------------------------------------------------------

  /** `q` holds the bindings of the two leaves `p` and `e`. */
  ghost predicate SharedOut(p: Pair, q: Pair, e: Entry, order: nat) {
    && p.left.Leaf? && p.right.Leaf? && q.left.Leaf? && q.right.Leaf?
    && q.left.page == p.left.page && q.right.page == p.right.page
    && q.left.entries + q.right.entries == With(p.left.entries + p.right.entries, e)
    && order / 2 <= Count(q.left) <= order && order / 2 <= Count(q.right) <= order
    && LeastIs(q.right, q.separator)
  }

  /** Sharing a binding out between neighbouring leaves `c` and `c + 1`, one of which the search
      follows, adds it to the node. */
  lemma SharedGood(t: Tree, order: nat, b: nat, c: nat, e: Entry, q: Pair) returns (u: Tree)
    requires order >= 4 && Good(t, 1, order) && t.Node? && Follows(t, e.key, b) && c < |t.keys| && c <= b <= c + 1
    requires Absent(Flat(t), e.key)
    requires |t.kids| == |t.keys| + 1 && SharedOut(PairAt(t, c), q, e, order)
    ensures u == PutPair(t, c, q) && Good(u, 1, order)
    ensures Flat(u) == With(Flat(t), e) && LeafPages(u) == LeafPages(t) && Pages(u) <= Pages(t)
    ensures Count(u) == Count(t)
  {
    u := PutPair(t, c, q);
    GoodKid(t, 1, order, c);
    GoodKid(t, 1, order, c + 1);
    WithSorted(Flat(t), e);
    SharedListing(t, order, b, c, e, q);
    FollowedAbsent(t, 1, order, e.key, b);
    SeparatorsIncreasing(t, 1, order);
    SharedTight(t, order, c, e, q);
    SortedThree(FlatSeq(t.kids[..c]), Flat(q.left) + Flat(q.right), FlatSeq(t.kids[c + 2..]));
    hide Flat, FlatSeq, LeafSeq, LeafPages, Separate, Tight, Children, Follows, PagesOf;
    PutPairSeparate(t, c, q);
    PutPairShape(t, 1, order, c, q);
  }

  lemma SharedListing(t: Tree, order: nat, b: nat, c: nat, e: Entry, q: Pair)
    requires order >= 4 && Children(t, 1, order) && Sorted(Flat(t)) && Follows(t, e.key, b)
    requires c < |t.keys| && c <= b <= c + 1
    requires SharedOut(PairAt(t, c), q, e, order)
    ensures Flat(PutPair(t, c, q)) == With(Flat(t), e)
    ensures Flat(PutPair(t, c, q)) == FlatSeq(t.kids[..c]) + (Flat(q.left) + Flat(q.right)) + FlatSeq(t.kids[c + 2..])
    ensures LeafPages(PutPair(t, c, q)) == LeafPages(t)
  {
    hide FlatSeq, LeafSeq, Tight, Shape, Sorted, Follows, With;
    var l, r := t.kids[c], t.kids[c + 1];
    PairListing(t, c, q);
    BesideThePair(t, order, b, c, e);
    WithThree(FlatSeq(t.kids[..c]), Flat(l) + Flat(r), FlatSeq(t.kids[c + 2..]), e);
  }

  /** What a node lists around two neighbouring leaves, before and after the pair is exchanged. */
  lemma PairListing(t: Tree, c: nat, q: Pair)
    requires t.Node? && c < |t.keys| && |t.kids| == |t.keys| + 1
    requires t.kids[c].Leaf? && t.kids[c + 1].Leaf? && q.left.Leaf? && q.right.Leaf?
    requires q.left.page == t.kids[c].page && q.right.page == t.kids[c + 1].page
    ensures Flat(t) == FlatSeq(t.kids[..c]) + (Flat(t.kids[c]) + Flat(t.kids[c + 1])) + FlatSeq(t.kids[c + 2..])
    ensures Flat(PutPair(t, c, q)) == FlatSeq(t.kids[..c]) + (Flat(q.left) + Flat(q.right)) + FlatSeq(t.kids[c + 2..])
    ensures LeafPages(PutPair(t, c, q)) == LeafPages(t)
  {
    hide FlatSeq, LeafSeq;
    var l, r := t.kids[c], t.kids[c + 1];
    FlatTwo(l, r);
    FlatTwo(q.left, q.right);
    FlatCut(t.kids, c, c + 2);
    assert t.kids[c..c + 2] == [l, r];
    FlatThree(t.kids[..c], [q.left, q.right], t.kids[c + 2..]);
  }

  /** A key that the search follows into one of two neighbours lies between what is beside them. */
  lemma BesideThePair(t: Tree, order: nat, b: nat, c: nat, e: Entry)
    requires order >= 4 && Children(t, 1, order) && Sorted(Flat(t)) && Follows(t, e.key, b)
    requires c < |t.keys| && c <= b <= c + 1
    ensures var x := FlatSeq(t.kids[..c]); forall i :: 0 <= i < |x| ==> x[i].key < e.key
    ensures var x := FlatSeq(t.kids[c + 2..]); forall i :: 0 <= i < |x| ==> e.key < x[i].key
  {
    hide FlatSeq, LeafSeq, Flat, Sorted;
    FollowedChild(t, 1, order, e.key, b);
    var l, r := t.kids[c], t.kids[c + 1];
    if c == b {
      assert t.kids[b + 1..] == [r] + t.kids[c + 2..];
      FlatSeqConcat([r], t.kids[c + 2..]);
      FlatOne(r);
      PartsAbove(Flat(r), FlatSeq(t.kids[c + 2..]), e.key);
    } else {
      assert t.kids[..b] == t.kids[..c] + [l];
      FlatSeqConcat(t.kids[..c], [l]);
      FlatOne(l);
      PartsBelow(FlatSeq(t.kids[..c]), Flat(l), e.key);
    }
  }

  lemma PartsAbove(a: seq<Entry>, b: seq<Entry>, key: int)
    requires forall i :: 0 <= i < |a + b| ==> key < (a + b)[i].key
    ensures forall i :: 0 <= i < |b| ==> key < b[i].key
  {
    assert forall i :: 0 <= i < |b| ==> (a + b)[|a| + i] == b[i];
  }

  lemma PartsBelow(a: seq<Entry>, b: seq<Entry>, key: int)
    requires forall i :: 0 <= i < |a + b| ==> (a + b)[i].key < key
    ensures forall i :: 0 <= i < |a| ==> a[i].key < key
  {
    assert forall i :: 0 <= i < |a| ==> (a + b)[i] == a[i];
  }

  lemma SharedTight(t: Tree, order: nat, c: nat, e: Entry, q: Pair)
    requires order >= 4 && Children(t, 1, order) && c < |t.keys|
    requires SharedOut(PairAt(t, c), q, e, order)
    requires c > 0 ==> t.keys[c - 1] < e.key
    ensures Tight(PutPair(t, c, q))
  {
    var u, p := PutPair(t, c, q), PairAt(t, c);
    if c > 0 {
      assert LeastIs(t.kids[c], t.keys[c - 1]);
      WithFirst(p.left.entries + p.right.entries, e);
      assert (q.left.entries + q.right.entries)[0] == q.left.entries[0];
    }
    forall i | 0 <= i < |u.keys| ensures LeastIs(u.kids[i + 1], u.keys[i]) {
      assert LeastIs(t.kids[i + 1], t.keys[i]);
    }
  }

  // ----------------------------------------------------------------------------------------------
  // What an insertion hands back
  // ----------------------------------------------------------------------------------------------

  /** A subtree after an insertion: still one tree, or two with a separator between them. */
  datatype Grown = One(tree: Tree) | Two(pair: Pair)

  ghost function LeavesOf(g: Grown): seq<Page> {
    match g
    case One(u) => LeafPages(u)
    case Two(q) => LeafPages(q.left) + LeafPages(q.right)
  }

  ghost function AllPages(g: Grown): set<Page> {
    match g
    case One(u) => Pages(u)
    case Two(q) => Pages(q.left) + Pages(q.right)
  }

  ghost function TopPage(g: Grown): Page {
    match g
    case One(u) => u.page
    case Two(q) => q.left.page
  }

  /** `g` consists of good trees that list `s`. */
  ghost predicate Lists(g: Grown, s: seq<Entry>, h: nat, order: nat) {
    match g
    case One(u) => Good(u, h, order) && Flat(u) == s
    case Two(q) =>
      && Good(q.left, h, order) && order / 2 <= Count(q.left)
      && Good(q.right, h, order) && order / 2 <= Count(q.right)
      && LeastIs(q.right, q.separator) && Pages(q.left) !! Pages(q.right)
      && Flat(q.left) + Flat(q.right) == s
  }

  /** `g` is `t` with binding `e` added; a tree that did not split is not smaller than before. */
  ghost predicate Inserted(t: Tree, g: Grown, e: Entry, h: nat, order: nat) {
    && Lists(g, With(Flat(t), e), h, order) && TopPage(g) == t.page
    && (g.One? ==> g.tree.Leaf? == t.Leaf? && Count(t) <= Count(g.tree))
    && (g.Two? ==> g.pair.left.Leaf? == t.Leaf? && g.pair.right.Leaf? == t.Leaf?)
  }

  /** A new root above the two halves of the old one. */
  lemma RootGrows(q: Pair, h: nat, order: nat, s: seq<Entry>, p: Page) returns (u: Tree)
    requires order >= 4 && Lists(Two(q), s, h, order) && Sorted(s) && p !in AllPages(Two(q))
    ensures u == Node(p, [q.separator], [q.left, q.right]) && Good(u, h + 1, order) && Flat(u) == s
    ensures LeafPages(u) == LeavesOf(Two(q)) && Pages(u) == AllPages(Two(q)) + {p}
  {
    u := Node(p, [q.separator], [q.left, q.right]);
    FlatTwo(q.left, q.right);
    PagesTwo(q.left, q.right);
  }
}
