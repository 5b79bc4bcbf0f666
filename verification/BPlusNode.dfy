/** Search, insertion and removal seen from an index node: which child a key belongs to, and how a
    change to one or two children changes the node. */
module BPlusNode {
  import opened BPlusPage
  import opened BPlusListing
  import opened BPlusShape

  // ----------------------------------------------------------------------------------------------
  // Which child a key belongs to
  // ----------------------------------------------------------------------------------------------

  /** Children of an index node whose own sizes are not restricted from below. */
  ghost predicate Children(t: Tree, h: nat, order: nat) {
    && t.Node? && h > 0 && |t.keys| <= order && |t.kids| == |t.keys| + 1
    && (forall i :: 0 <= i < |t.kids| ==> Shape(t.kids[i], h - 1, order) && 0 < Count(t.kids[i]))
    && Tight(t)
  }

  lemma ShapeChildren(t: Tree, h: nat, order: nat)
    requires order >= 4 && t.Node? && Shape(t, h, order) && Tight(t)
    ensures Children(t, h, order)
  {
  }

  lemma {:induction false} ListedFirst(kids: seq<Tree>, i: nat)
    requires i < |kids| && Flat(kids[i]) != []
    ensures FlatSeq(kids[i..]) != [] && FlatSeq(kids[i..])[0] == Flat(kids[i])[0]
  {
    assert kids[i..][0] == kids[i];
  }

  lemma SeparatorsIncreasing(t: Tree, h: nat, order: nat)
    requires order >= 4 && Children(t, h, order) && Sorted(Flat(t))
    ensures Increasing(t.keys)
  {
    forall i, j | 0 <= i < j < |t.keys| ensures t.keys[i] < t.keys[j] {
      assert LeastIs(t.kids[i + 1], t.keys[i]) && LeastIs(t.kids[j + 1], t.keys[j]);
      SeparatorsOrdered(t.kids, i + 1, j + 1);
    }
  }

  lemma SeparatorsOrdered(kids: seq<Tree>, i: nat, j: nat)
    requires i < j < |kids| && Sorted(FlatSeq(kids)) && Flat(kids[i]) != [] && Flat(kids[j]) != []
    ensures Flat(kids[i])[0].key < Flat(kids[j])[0].key
  {
    hide *;
    FlatCut(kids, i, j);
    ListedFirst(kids, j);
    ListedFirst(kids[..j], i);
    assert kids[..j][i..] == kids[i..j];
    SortedThree(FlatSeq(kids[..i]), FlatSeq(kids[i..j]), FlatSeq(kids[j..]));
  }

  /** `b` is the child that the search for `key` follows. */
  ghost predicate Follows(t: Tree, key: int, b: int)
    requires t.Node?
  {
    && 0 <= b <= |t.keys|
    && (b > 0 ==> t.keys[b - 1] <= key)
    && (b < |t.keys| ==> key < t.keys[b])
  }

  /** Bindings to the left of the followed child have smaller keys, those to the right larger ones;
      and the key is the child's least key exactly when it is a separator. */
  lemma FollowedChild(t: Tree, h: nat, order: nat, key: int, b: nat)
    requires order >= 4 && Children(t, h, order) && Sorted(Flat(t)) && Follows(t, key, b)
    ensures var l, m, r := FlatSeq(t.kids[..b]), Flat(t.kids[b]), FlatSeq(t.kids[b + 1..]);
      && Flat(t) == l + m + r
      && (forall i :: 0 <= i < |l| ==> l[i].key < key)
      && (forall i :: 0 <= i < |r| ==> key < r[i].key)
      && Sorted(m)
      && m != []
      && (b > 0 ==> m[0].key == t.keys[b - 1])
  {
    hide FlatSeq, LeafSeq;
    var l, m, r := FlatSeq(t.kids[..b]), Flat(t.kids[b]), FlatSeq(t.kids[b + 1..]);
    FlatAround(t.kids, b);
    NonEmpty(t.kids[b], h - 1, order);
    SortedThree(l, m, r);
    if b > 0 {
      assert LeastIs(t.kids[b], t.keys[b - 1]);
    } else {
      FlatNone(t.kids[..b]);
    }
    if b < |t.keys| {
      assert LeastIs(t.kids[b + 1], t.keys[b]);
      ListedFirst(t.kids, b + 1);
    } else {
      FlatNone(t.kids[b + 1..]);
    }
  }

  lemma FlatNone(kids: seq<Tree>)
    requires kids == []
    ensures FlatSeq(kids) == [] && LeafSeq(kids) == []
  {
  }

  /** A key is bound below the node exactly when it is bound below the followed child. */
  lemma FollowedAbsent(t: Tree, h: nat, order: nat, key: int, b: nat)
    requires order >= 4 && Children(t, h, order) && Sorted(Flat(t)) && Follows(t, key, b)
    ensures Absent(Flat(t), key) <==> Absent(Flat(t.kids[b]), key)
    ensures forall e :: e in Flat(t.kids[b]) ==> e in Flat(t)
    ensures Sorted(Flat(t.kids[b])) && Flat(t.kids[b]) != []
    ensures b > 0 ==> Flat(t.kids[b])[0].key == t.keys[b - 1]
    ensures Flat(t) != [] && (b == 0 ==> Flat(t)[0] == Flat(t.kids[b])[0])
    ensures b > 0 ==> Flat(t)[0].key < key
  {
    hide FlatSeq, Flat, LeafSeq;
    FollowedChild(t, h, order, key, b);
    NonEmpty(t.kids[0], h - 1, order);
    var l, m, r := FlatSeq(t.kids[..b]), Flat(t.kids[b]), FlatSeq(t.kids[b + 1..]);
    assert forall i :: 0 <= i < |m| ==> (l + m + r)[|l| + i] == m[i];
    assert forall i :: 0 <= i < |l| ==> (l + m + r)[i] == l[i];
    assert forall i :: 0 <= i < |r| ==> (l + m + r)[|l| + |m| + i] == r[i];
    if b == 0 {
      FlatNone(t.kids[..b]);
    } else {
      ListedFirst(t.kids[..b], 0);
      assert t.kids[..b][0..] == t.kids[..b];
    }
  }

  /** The bindings of a key below the node are those below the followed child. */
  lemma FollowedEntry(t: Tree, h: nat, order: nat, key: int, b: nat)
    requires order >= 4 && Children(t, h, order) && Sorted(Flat(t)) && Follows(t, key, b)
    ensures forall d :: Entry(key, d) in Flat(t) <==> Entry(key, d) in Flat(t.kids[b])
  {
    hide FlatSeq, Flat, LeafSeq;
    FollowedChild(t, h, order, key, b);
    var l, m, r := FlatSeq(t.kids[..b]), Flat(t.kids[b]), FlatSeq(t.kids[b + 1..]);
    assert forall e :: e in l + m + r <==> e in l || e in m || e in r;
  }

  // ----------------------------------------------------------------------------------------------
  // Replacing children
  // ----------------------------------------------------------------------------------------------

  /** Every child but `b` has at least order/2 entries. */
  ghost predicate Full(t: Tree, order: nat, b: int)
    requires t.Node?
  {
    forall i :: 0 <= i < |t.kids| && i != b ==> order / 2 <= Count(t.kids[i])
  }

  /** The node after its child `b` became `kid`, whose least key is now `least`. */
  ghost function PutKid(t: Tree, b: nat, kid: Tree, least: int): Tree
    requires t.Node? && b < |t.kids| == |t.keys| + 1
  {
    Node(t.page, if b > 0 then t.keys[b - 1 := least] else t.keys, t.kids[..b] + [kid] + t.kids[b + 1..])
  }

  ghost function PairAt(t: Tree, c: nat): Pair
    requires t.Node? && c < |t.keys| && |t.kids| == |t.keys| + 1
  {
    Pair(t.kids[c], t.kids[c + 1], t.keys[c])
  }

  /** Children `c` and `c + 1` can be rebalanced. */
  ghost predicate Adjacent(t: Tree, c: int) {
    && t.Node? && 0 <= c < |t.keys| && |t.kids| == |t.keys| + 1
    && t.kids[c].Leaf? == t.kids[c + 1].Leaf?
    && forall i :: c <= i <= c + 1 && t.kids[i].Node? ==> |t.kids[i].kids| == |t.kids[i].keys| + 1
  }

  ghost function PutPair(t: Tree, c: nat, q: Pair): Tree
    requires t.Node? && c < |t.keys| && |t.kids| == |t.keys| + 1
  {
    Node(t.page, t.keys[c := q.separator], t.kids[..c] + [q.left, q.right] + t.kids[c + 2..])
  }

  ghost function PutMerged(t: Tree, c: nat, m: Tree): Tree
    requires t.Node? && c < |t.keys| && |t.kids| == |t.keys| + 1
  {
    Node(t.page, t.keys[..c] + t.keys[c + 1..], t.kids[..c] + [m] + t.kids[c + 2..])
  }

  /** Replacing a run of children keeps pages apart if the new run uses only the old run's pages
      or pages from outside the tree. */
  lemma ReplaceSeparate(a: seq<Tree>, m: seq<Tree>, n: seq<Tree>, c: seq<Tree>, extra: set<Page>)
    requires AllSeparate(a + m + c) && AllSeparate(n) && PagesOf(n) <= PagesOf(m) + extra
    requires extra !! PagesOf(a + m + c)
    ensures AllSeparate(a + n + c)
    ensures PagesOf(a + n + c) <= PagesOf(a + m + c) + extra
  {
    hide *;
    SeparateConcat(a + m, c);
    SeparateConcat(a, m);
    SeparateConcat(a + n, c);
    SeparateConcat(a, n);
    PagesConcat(a + m, c);
    PagesConcat(a, m);
    PagesConcat(a + n, c);
    PagesConcat(a, n);
  }

  lemma PutKidSeparate(t: Tree, b: nat, kid: Tree, least: int, extra: set<Page>)
    requires t.Node? && b < |t.kids| == |t.keys| + 1
    requires Separate(t) && Separate(kid) && Pages(kid) <= Pages(t.kids[b]) + extra && extra !! Pages(t)
    ensures Separate(PutKid(t, b, kid, least)) && Pages(PutKid(t, b, kid, least)) <= Pages(t) + extra
  {
    hide FlatSeq, LeafSeq, AllSeparate, PagesOf;
    var a, m, c := t.kids[..b], [t.kids[b]], t.kids[b + 1..];
    assert t.kids == a + m + c;
    PagesOne(t.kids[b]);
    PagesOne(kid);
    ReplaceSeparate(a, m, [kid], c, extra);
  }

  /** `least` is the right separator for the new child. */
  lemma PutKidTight(t: Tree, h: nat, order: nat, b: nat, kid: Tree, least: int)
    requires order >= 4 && Children(t, h, order) && b < |t.kids|
    requires Shape(kid, h - 1, order) && Tight(kid) && 0 < Count(kid)
    requires b > 0 ==> LeastIs(kid, least)
    ensures Children(PutKid(t, b, kid, least), h, order)
  {
    var u := PutKid(t, b, kid, least);
    forall i | 0 <= i < |u.keys| ensures LeastIs(u.kids[i + 1], u.keys[i]) {
      assert LeastIs(t.kids[i + 1], t.keys[i]);
    }
  }

  lemma PutKidListing(t: Tree, b: nat, kid: Tree, least: int)
    requires t.Node? && b < |t.kids| == |t.keys| + 1
    ensures Flat(PutKid(t, b, kid, least)) == FlatSeq(t.kids[..b]) + Flat(kid) + FlatSeq(t.kids[b + 1..])
    ensures LeafPages(PutKid(t, b, kid, least)) == LeafSeq(t.kids[..b]) + LeafPages(kid) + LeafSeq(t.kids[b + 1..])
  {
    hide FlatSeq, LeafSeq;
    FlatThree(t.kids[..b], [kid], t.kids[b + 1..]);
    FlatOne(kid);
  }

  /** Removing `key` from the child that the search follows removes it from the node. */
  lemma PutKidWithout(t: Tree, h: nat, order: nat, key: int, b: nat, kid: Tree) returns (u: Tree)
    requires order >= 4 && Children(t, h, order) && Sorted(Flat(t)) && Follows(t, key, b)
    requires Shape(kid, h - 1, order) && Tight(kid) && 0 < Count(kid)
    requires Flat(kid) == Without(Flat(t.kids[b]), key)
    ensures Flat(kid) != [] && u == PutKid(t, b, kid, Flat(kid)[0].key)
    ensures Children(u, h, order)
    ensures Flat(u) == Without(Flat(t), key) && Sorted(Flat(u))
    ensures LeafPages(u) == LeafSeq(t.kids[..b]) + LeafPages(kid) + LeafSeq(t.kids[b + 1..])
  {
    NonEmpty(kid, h - 1, order);
    var least := Flat(kid)[0].key;
    u := PutKid(t, b, kid, least);
    PutKidTight(t, h, order, b, kid, least);
    hide *;
    PutKidListing(t, b, kid, least);
    FollowedChild(t, h, order, key, b);
    var l, m, r := FlatSeq(t.kids[..b]), Flat(t.kids[b]), FlatSeq(t.kids[b + 1..]);
    AbsentOutside(l, r, key);
    WithoutInside(l, m, r, key);
    WithoutSorted(Flat(t), key);
  }

  lemma AbsentOutside(l: seq<Entry>, r: seq<Entry>, key: int)
    requires forall i :: 0 <= i < |l| ==> l[i].key < key
    requires forall i :: 0 <= i < |r| ==> key < r[i].key
    ensures Absent(l, key) && Absent(r, key)
  {
  }

  /** The node's separators stay tight when two neighbours are rebalanced. */
  lemma PutPairTight(t: Tree, h: nat, order: nat, c: nat, q: Pair)
    requires order >= 4 && Children(t, h, order) && c < |t.keys|
    requires Neighbours(q, h - 1, order)
    requires 0 < Count(q.left) && 0 < Count(q.right)
    requires Flat(q.left) + Flat(q.right) == Flat(t.kids[c]) + Flat(t.kids[c + 1])
    ensures Children(PutPair(t, c, q), h, order)
  {
    hide FlatSeq, LeafSeq, Flat;
    var u := PutPair(t, c, q);
    NonEmpty(q.left, h - 1, order);
    NonEmpty(t.kids[c], h - 1, order);
    assert (Flat(q.left) + Flat(q.right))[0] == (Flat(t.kids[c]) + Flat(t.kids[c + 1]))[0];
    forall i | 0 <= i < |u.keys| ensures LeastIs(u.kids[i + 1], u.keys[i]) {
      assert LeastIs(t.kids[i + 1], t.keys[i]);
    }
  }

  lemma PutPairListing(t: Tree, c: nat, q: Pair)
    requires t.Node? && c < |t.keys| && |t.kids| == |t.keys| + 1
    requires SameListing(PairAt(t, c), q)
    ensures Flat(PutPair(t, c, q)) == Flat(t) && LeafPages(PutPair(t, c, q)) == LeafPages(t)
  {
    hide FlatSeq, LeafSeq;
    var l, r := t.kids[c], t.kids[c + 1];
    FlatTwo(l, r);
    FlatTwo(q.left, q.right);
    FlatCut(t.kids, c, c + 2);
    assert t.kids[c..c + 2] == [l, r];
    FlatThree(t.kids[..c], [q.left, q.right], t.kids[c + 2..]);
  }

  lemma PutPairSeparate(t: Tree, c: nat, q: Pair)
    requires t.Node? && c < |t.keys| && |t.kids| == |t.keys| + 1 && Separate(t)
    requires Separate(q.left) && Separate(q.right) && Pages(q.left) !! Pages(q.right)
    requires Pages(q.left) + Pages(q.right) <= Pages(t.kids[c]) + Pages(t.kids[c + 1])
    ensures Separate(PutPair(t, c, q)) && Pages(PutPair(t, c, q)) <= Pages(t)
  {
    hide FlatSeq, LeafSeq, AllSeparate, PagesOf;
    var a, m, d := t.kids[..c], [t.kids[c], t.kids[c + 1]], t.kids[c + 2..];
    assert t.kids == a + m + d;
    PagesTwo(t.kids[c], t.kids[c + 1]);
    PagesTwo(q.left, q.right);
    ReplaceSeparate(a, m, [q.left, q.right], d, {});
  }

  lemma PagesTwo(l: Tree, r: Tree)
    ensures PagesOf([l, r]) == Pages(l) + Pages(r)
    ensures AllSeparate([l, r]) <==> Separate(l) && Separate(r) && Pages(l) !! Pages(r)
  {
    hide *;
    assert [l, r] == [l] + [r];
    PagesConcat([l], [r]);
    SeparateConcat([l], [r]);
    PagesOne(l);
    PagesOne(r);
  }

  lemma PutMergedKeeps(t: Tree, h: nat, order: nat, c: nat, m: Tree)
    requires order >= 4 && Children(t, h, order) && c < |t.keys|
    requires Shape(m, h - 1, order) && Tight(m) && 0 < Count(m)
    requires Flat(m) == Flat(t.kids[c]) + Flat(t.kids[c + 1])
    ensures Children(PutMerged(t, c, m), h, order)
    ensures Flat(PutMerged(t, c, m)) == Flat(t)
    ensures LeafPages(t) ==
      LeafSeq(t.kids[..c]) + (LeafPages(t.kids[c]) + LeafPages(t.kids[c + 1])) + LeafSeq(t.kids[c + 2..])
    ensures LeafPages(PutMerged(t, c, m)) == LeafSeq(t.kids[..c]) + LeafPages(m) + LeafSeq(t.kids[c + 2..])
  {
    hide FlatSeq, LeafSeq;
    var u, p := PutMerged(t, c, m), PairAt(t, c);
    NonEmpty(p.left, h - 1, order);
    FlatTwo(p.left, p.right);
    FlatCut(t.kids, c, c + 2);
    assert t.kids[c..c + 2] == [p.left, p.right];
    FlatThree(t.kids[..c], [m], t.kids[c + 2..]);
    FlatOne(m);
    forall i | 0 <= i < |u.keys| ensures LeastIs(u.kids[i + 1], u.keys[i]) {
      if i < c {
        assert LeastIs(t.kids[i + 1], t.keys[i]);
      } else {
        assert LeastIs(t.kids[i + 2], t.keys[i + 1]);
      }
    }
  }

  lemma PutMergedSeparate(t: Tree, c: nat, m: Tree)
    requires t.Node? && c < |t.keys| && |t.kids| == |t.keys| + 1 && Separate(t)
    requires Separate(m) && Pages(m) <= Pages(t.kids[c]) + Pages(t.kids[c + 1])
    ensures Separate(PutMerged(t, c, m)) && Pages(PutMerged(t, c, m)) <= Pages(t)
  {
    hide FlatSeq, LeafSeq, AllSeparate, PagesOf;
    var a, n, d := t.kids[..c], [t.kids[c], t.kids[c + 1]], t.kids[c + 2..];
    assert t.kids == a + n + d;
    PagesTwo(t.kids[c], t.kids[c + 1]);
    PagesOne(m);
    ReplaceSeparate(a, n, [m], d, {});
  }

  lemma ChildrenAdjacent(t: Tree, h: nat, order: nat, c: nat)
    requires Children(t, h, order) && c < |t.keys|
    ensures Adjacent(t, c)
    ensures Separate(t) ==> Neighbours(PairAt(t, c), h - 1, order)
  {
    if Separate(t) {
      assert LeastIs(t.kids[c + 1], t.keys[c]);
      assert AllSeparate(t.kids);
    }
  }

  lemma PutPairShape(t: Tree, h: nat, order: nat, c: nat, q: Pair)
    requires Children(t, h, order) && c < |t.keys|
    requires forall i :: 0 <= i < |t.kids| && i != c && i != c + 1 ==> order / 2 <= Count(t.kids[i])
    requires Shape(q.left, h - 1, order) && Shape(q.right, h - 1, order)
    requires order / 2 <= Count(q.left) && order / 2 <= Count(q.right)
    ensures Shape(PutPair(t, c, q), h, order)
  {
  }

  lemma PutMergedShape(t: Tree, h: nat, order: nat, c: nat, m: Tree)
    requires Children(t, h, order) && c < |t.keys|
    requires forall i :: 0 <= i < |t.kids| && i != c && i != c + 1 ==> order / 2 <= Count(t.kids[i])
    requires Shape(m, h - 1, order) && order / 2 <= Count(m)
    ensures Shape(PutMerged(t, c, m), h, order)
  {
  }

  // ----------------------------------------------------------------------------------------------
  // Removing a key from a child
  // ----------------------------------------------------------------------------------------------

  /** A whole subtree that is not too small, with everything the operations rely on. */
  ghost predicate Good(t: Tree, h: nat, order: nat) {
    Shape(t, h, order) && Tight(t) && Separate(t) && Sorted(Flat(t))
  }

  lemma GoodKid(t: Tree, h: nat, order: nat, b: nat)
    requires order >= 4 && Good(t, h, order) && t.Node? && b < |t.kids|
    ensures h > 0 && Good(t.kids[b], h - 1, order) && order / 2 <= Count(t.kids[b])
    ensures Children(t, h, order)
  {
    ShapeChildren(t, h, order);
    FlatAround(t.kids, b);
    SortedThree(FlatSeq(t.kids[..b]), Flat(t.kids[b]), FlatSeq(t.kids[b + 1..]));
    assert AllSeparate(t.kids);
  }

  /** An index node without separators is as good as its only child. */
  lemma OnlyKid(t: Tree)
    requires t.Node? && |t.kids| == 1
    ensures Flat(t) == Flat(t.kids[0]) && LeafPages(t) == LeafPages(t.kids[0]) && Pages(t.kids[0]) <= Pages(t)
  {
    assert t.kids == [t.kids[0]];
    FlatOne(t.kids[0]);
    KidPages(t);
  }

  /** `u` is `t` without `key`, which child `b` held; only child `b` may be one entry short. */
  ghost predicate Removed(t: Tree, u: Tree, h: nat, order: nat, key: int, b: int) {
    && t.Node? && Children(u, h, order) && Separate(u) && Sorted(Flat(u))
    && u.page == t.page && Pages(u) <= Pages(t) && |u.keys| == |t.keys|
    && Flat(u) == Without(Flat(t), key)
    && 0 <= b < |u.kids| && order / 2 - 1 <= Count(u.kids[b]) && Full(u, order, b)
  }

  /** `u` is the subtree `t` without `key`. */
  ghost predicate Deleted(t: Tree, u: Tree, h: nat, order: nat, key: int) {
    Good(u, h, order) && u.Node? && u.page == t.page && Pages(u) <= Pages(t) && Flat(u) == Without(Flat(t), key)
  }

  lemma RemovedFirst(t: Tree, h: nat, order: nat, b: nat, kid: Tree)
    requires order >= 4 && Good(t, h, order) && t.Node? && b < |t.kids|
    requires Good(kid, h - 1, order) && 0 < Count(kid)
    ensures Flat(kid) != []
    ensures var u := PutKid(t, b, kid, Flat(kid)[0].key); Flat(u) != [] && (b == 0 ==> Flat(u)[0] == Flat(kid)[0])
  {
    hide FlatSeq, Flat, PagesOf, Pages, Separate, Tight, Children;
    NonEmpty(kid, h - 1, order);
    var u := PutKid(t, b, kid, Flat(kid)[0].key);
    FirstKid(u, h, order);
  }

  lemma RemovedFromKid(t: Tree, h: nat, order: nat, key: int, b: nat, kid: Tree) returns (u: Tree)
    requires order >= 4 && Good(t, h, order) && t.Node? && Follows(t, key, b) && b < |t.kids|
    requires Good(kid, h - 1, order) && order / 2 - 1 <= Count(kid)
    requires Flat(kid) == Without(Flat(t.kids[b]), key) && Pages(kid) <= Pages(t.kids[b])
    ensures Flat(kid) != [] && u == PutKid(t, b, kid, Flat(kid)[0].key)
    ensures Removed(t, u, h, order, key, b) && u.kids[b] == kid
    ensures LeafPages(u) == LeafSeq(t.kids[..b]) + LeafPages(kid) + LeafSeq(t.kids[b + 1..])
    ensures b > 0 && LeastIs(t.kids[b], Flat(kid)[0].key) ==> u.keys == t.keys
  {
    hide Flat, FlatSeq, LeafPages, LeafSeq, Pages, PagesOf, Separate, Tight, Shape, PutKid, Full, Children, Follows;
    GoodKid(t, h, order, b);
    NonEmpty(kid, h - 1, order);
    var least := Flat(kid)[0].key;
    PutKidRest(t, h, order, b, kid, least);
    u := PutKidWithout(t, h, order, key, b, kid);
    PutKidSeparate(t, b, kid, least, {});
  }

  lemma PutKidRest(t: Tree, h: nat, order: nat, b: nat, kid: Tree, least: int)
    requires order >= 4 && Good(t, h, order) && t.Node? && b < |t.kids|
    ensures |t.kids| == |t.keys| + 1
    ensures var u := PutKid(t, b, kid, least);
      Full(u, order, b) && |u.keys| == |t.keys| && u.page == t.page && |u.kids| == |t.kids| && u.kids[b] == kid
    ensures b > 0 && LeastIs(t.kids[b], least) ==> PutKid(t, b, kid, least).keys == t.keys
  {
    if b > 0 {
      assert LeastIs(t.kids[b], t.keys[b - 1]);
    }
  }

  // ----------------------------------------------------------------------------------------------
  // Repairing a node with one child that is one entry short
  // ----------------------------------------------------------------------------------------------

  /** A node in which only child `b` may be short, by one entry. */
  ghost predicate ShortAt(t: Tree, h: nat, order: nat, b: int) {
    && Children(t, h, order) && Separate(t)
    && 0 <= b < |t.kids| && Count(t.kids[b]) == order / 2 - 1 && Full(t, order, b)
  }

  /** `u` lists the same bindings with the same pages or fewer, and no child is short any more. */
  ghost predicate Repaired(t: Tree, u: Tree, h: nat, order: nat) {
    && u.Node? && u.page == t.page
    && Shape(u, h, order) && Tight(u) && Separate(u)
    && Pages(u) <= Pages(t) && Flat(u) == Flat(t)
  }

  lemma PairRepairs(t: Tree, h: nat, order: nat, b: nat, c: nat, q: Pair)
    requires order >= 4 && ShortAt(t, h, order, b) && c < |t.keys| && c <= b <= c + 1
    requires Neighbours(q, h - 1, order) && SameListing(PairAt(t, c), q)
    requires Pages(q.left) + Pages(q.right) == Pages(t.kids[c]) + Pages(t.kids[c + 1])
    requires order / 2 <= Count(q.left) && order / 2 <= Count(q.right)
    ensures var u := PutPair(t, c, q);
      Repaired(t, u, h, order) && |u.keys| == |t.keys| && LeafPages(u) == LeafPages(t)
  {
    PutPairTight(t, h, order, c, q);
    PutPairListing(t, c, q);
    PutPairSeparate(t, c, q);
    PutPairShape(t, h, order, c, q);
  }

  /** Borrowing from the left neighbour repairs the node. */
  lemma BorrowLeftRepairs(t: Tree, h: nat, order: nat, b: nat)
    requires order >= 4 && ShortAt(t, h, order, b) && b > 0 && order / 2 < Count(t.kids[b - 1])
    ensures Adjacent(t, b - 1)
    ensures var u := PutPair(t, b - 1, BorrowFromLeft(PairAt(t, b - 1)));
      Repaired(t, u, h, order) && |u.keys| == |t.keys| && LeafPages(u) == LeafPages(t)
  {
    ChildrenAdjacent(t, h, order, b - 1);
    var q := BorrowFromLeftKeeps(PairAt(t, b - 1), h - 1, order);
    PairRepairs(t, h, order, b, b - 1, q);
  }

  /** Borrowing from the right neighbour repairs the node. */
  lemma BorrowRightRepairs(t: Tree, h: nat, order: nat, b: nat)
    requires order >= 4 && ShortAt(t, h, order, b) && b < |t.keys| && order / 2 < Count(t.kids[b + 1])
    ensures Adjacent(t, b)
    ensures var u := PutPair(t, b, BorrowFromRight(PairAt(t, b)));
      Repaired(t, u, h, order) && |u.keys| == |t.keys| && LeafPages(u) == LeafPages(t)
  {
    ChildrenAdjacent(t, h, order, b);
    var q := BorrowFromRightKeeps(PairAt(t, b), h - 1, order);
    PairRepairs(t, h, order, b, b, q);
  }

  /** Merging the short child with a neighbour that has nothing to spare repairs the node; a merged
      leaf page leaves the leaf chain. */
  lemma MergeRepairs(t: Tree, h: nat, order: nat, b: nat, c: nat)
    requires order >= 4 && ShortAt(t, h, order, b) && c < |t.keys| && c <= b <= c + 1
    requires Count(t.kids[c]) <= order / 2 && Count(t.kids[c + 1]) <= order / 2
    ensures Adjacent(t, c)
    ensures var u := PutMerged(t, c, Merge(PairAt(t, c)));
      Repaired(t, u, h, order) && |u.keys| == |t.keys| - 1
    ensures var u, l := PutMerged(t, c, Merge(PairAt(t, c))), t.kids[c];
      if l.Node? then LeafPages(u) == LeafPages(t)
      else (LeafPages(t) == LeafSeq(t.kids[..c]) + [l.page, t.kids[c + 1].page] + LeafSeq(t.kids[c + 2..])
        && LeafPages(u) == LeafSeq(t.kids[..c]) + [l.page] + LeafSeq(t.kids[c + 2..]))
  {
    ChildrenAdjacent(t, h, order, c);
    var p := PairAt(t, c);
    var m := MergeKeeps(p, h - 1, order);
    PutMergedKeeps(t, h, order, c, m);
    PutMergedSeparate(t, c, m);
    PutMergedShape(t, h, order, c, m);
  }
}
