/** Keys that an insertion does not notice although they are bound (DS_BPlusTree.h:733-791): trees as values. */
module BPlusSlip {
  import opened BPlusPage
  import opened BPlusListing
  import opened BPlusShape
  import opened BPlusNode
  import opened BPlusGrow

  /** The pair of leaves after the left one took over the right one's first binding. */
  ghost function LeanLeft(l: Tree, r: Tree, e: Entry): (Tree, Tree)
    requires l.Leaf? && r.Leaf? && 0 < Count(r)
  {
    (Leaf(l.page, l.entries + [r.entries[0]]),
     Leaf(r.page, if r.entries[0].key < e.key then With(r.entries[1..], e) else [e] + r.entries[1..]))
  }

  /** The pair of leaves after the right one took over the left one's last binding or the new one. */
  ghost function LeanRight(l: Tree, r: Tree, e: Entry): (Tree, Tree)
    requires l.Leaf? && r.Leaf? && 0 < Count(l)
  {
    var n := Count(l) - 1;
    if e.key < l.entries[n].key
    then (Leaf(l.page, With(l.entries[..n], e)), Leaf(r.page, [l.entries[n]] + r.entries))
    else (l, Leaf(r.page, [e] + r.entries))
  }

  lemma LeavesBelow(t: Tree, order: nat, c: nat)
    requires order >= 4 && Good(t, 1, order) && t.Node? && c < |t.keys|
    ensures Adjacent(t, c) && t.kids[c].Leaf? && t.kids[c + 1].Leaf?
    ensures Sorted(t.kids[c].entries + t.kids[c + 1].entries)
    ensures Count(t.kids[c + 1]) > 0 && t.keys[c] == t.kids[c + 1].entries[0].key
    ensures Flat(t) != [] && Flat(t)[0].key < t.keys[c]
    ensures forall key :: Absent(Flat(t), key) ==> Absent(t.kids[c].entries + t.kids[c + 1].entries, key)
  {
    hide FlatSeq, LeafSeq;
    GoodKid(t, 1, order, c);
    GoodKid(t, 1, order, c + 1);
    GoodKid(t, 1, order, 0);
    ChildrenAdjacent(t, 1, order, c);
    assert LeastIs(t.kids[c + 1], t.keys[c]);
    FirstKid(t, 1, order);
    SeparatorsOrdered(t.kids, 0, c + 1);
    var l, m, r := FlatSeq(t.kids[..c]), t.kids[c].entries + t.kids[c + 1].entries, FlatSeq(t.kids[c + 2..]);
    FlatTwo(t.kids[c], t.kids[c + 1]);
    FlatCut(t.kids, c, c + 2);
    assert t.kids[c..c + 2] == [t.kids[c], t.kids[c + 1]];
    SortedThree(l, m, r);
    assert forall i :: 0 <= i < |m| ==> (l + m + r)[|l| + i] == m[i];
  }

  /** The leaf that the search ends in holds the key, but the key is no separator above it, the leaf
      is full and a neighbour has room: insertion then rotates without looking into the leaf. */
  ghost predicate LeafSlips(t: Tree, b: int, key: int, order: nat)
    requires t.Node? && 0 <= b <= |t.keys| && |t.kids| == |t.keys| + 1 && t.kids[b].Leaf?
  {
    && Count(t.kids[b]) == order && !Absent(t.kids[b].entries, key) && !(b > 0 && t.keys[b - 1] == key)
    && ((b > 0 && Count(t.kids[b - 1]) < order) || (b < |t.keys| && Count(t.kids[b + 1]) < order))
  }

  ghost predicate Slips(t: Tree, key: int, order: nat)
    decreases t
  {
    t.Node? && |t.kids| == |t.keys| + 1
    && exists b :: 0 <= b < |t.kids| && Follows(t, key, b)
                   && if t.kids[b].Leaf? then LeafSlips(t, b, key, order) else Slips(t.kids[b], key, order)
  }

  /** A list that already binds the key is no longer sorted with the key added. */
  lemma {:induction false} WithPresent(s: seq<Entry>, e: Entry)
    requires Sorted(s)
    ensures Sorted(With(s, e)) <==> Absent(s, e.key)
  {
    if Absent(s, e.key) {
      WithSorted(s, e);
    } else {
      var i :| 0 <= i < |s| && s[i].key == e.key;
      WithAt(s, i, e);
      var w := s[..i] + [e] + s[i..];
      assert w[i].key == w[i + 1].key;
    }
  }

  /** What a rotation to the left leaves behind is sorted exactly when the key was not bound in the
      leaf that gave a binding away. */
  lemma LeanLeftSorted(l: Tree, r: Tree, e: Entry)
    requires l.Leaf? && r.Leaf? && 0 < Count(r) && Sorted(l.entries + r.entries) && r.entries[0].key < e.key
    ensures var q := LeanLeft(l, r, e); Sorted(q.0.entries + q.1.entries) <==> Absent(r.entries, e.key)
  {
    var a, b := l.entries + [r.entries[0]], r.entries[1..];
    assert l.entries + r.entries == a + b;
    SortedConcat(l.entries, r.entries);
    assert forall i :: 0 <= i < |l.entries| ==> l.entries[i].key < e.key;
    WithInside(a, b, e);
    WithPresent(l.entries + r.entries, e);
    AbsentConcat(l.entries, r.entries, e.key);
  }

  lemma AbsentConcat(a: seq<Entry>, b: seq<Entry>, key: int)
    ensures Absent(a + b, key) <==> Absent(a, key) && Absent(b, key)
  {
    assert forall i :: 0 <= i < |a| ==> (a + b)[i] == a[i];
    assert forall i :: 0 <= i < |b| ==> (a + b)[|a| + i] == b[i];
  }

  /** The same for a rotation to the right. */
  lemma LeanRightSorted(l: Tree, r: Tree, e: Entry)
    requires l.Leaf? && r.Leaf? && 0 < Count(l) && Sorted(l.entries + r.entries)
    requires forall i :: 0 <= i < Count(r) ==> e.key < r.entries[i].key
    ensures var q := LeanRight(l, r, e); Sorted(q.0.entries + q.1.entries) <==> Absent(l.entries, e.key)
  {
    var n := |l.entries| - 1;
    var q := LeanRight(l, r, e);
    SortedConcat(l.entries, r.entries);
    AbsentConcat(l.entries, r.entries, e.key);
    if e.key < l.entries[n].key {
      assert l.entries + r.entries == l.entries[..n] + ([l.entries[n]] + r.entries);
      WithBefore(l.entries[..n], [l.entries[n]] + r.entries, e);
      WithPresent(l.entries + r.entries, e);
    } else {
      assert q.0.entries + q.1.entries == l.entries + ([e] + r.entries);
      SortedConcat(l.entries, [e] + r.entries);
      SortedConcat([e], r.entries);
      assert ([e] + r.entries)[0] == e;
      assert Absent(l.entries, e.key) <==> l.entries[n].key < e.key;
      assert Below(l.entries, [e]) <==> l.entries[n].key < e.key;
      BelowConcat(l.entries, [e], r.entries);
    }
  }

  lemma {:induction false} WithAddsOne(s: seq<Entry>, e: Entry)
    ensures multiset(With(s, e)) == multiset(s) + multiset{e} && With(s, e) != []
  {
    if s != [] && s[0].key < e.key {
      WithAddsOne(s[1..], e);
      assert s == [s[0]] + s[1..];
    }
  }

  /** Either way the pair of leaves holds the new binding and all it held before. */
  lemma LeanLeftAdds(l: Tree, r: Tree, e: Entry)
    requires l.Leaf? && r.Leaf? && 0 < Count(r)
    ensures var (a, b) := LeanLeft(l, r, e);
      a.Leaf? && b.Leaf? && b.entries != [] &&
      multiset(a.entries + b.entries) == multiset(l.entries + r.entries) + multiset{e}
  {
    hide With;
    WithAddsOne(r.entries[1..], e);
    assert r.entries == [r.entries[0]] + r.entries[1..];
  }

  lemma LeanRightAdds(l: Tree, r: Tree, e: Entry)
    requires l.Leaf? && r.Leaf? && 0 < Count(l)
    ensures var (a, b) := LeanRight(l, r, e);
      a.Leaf? && b.Leaf? && b.entries != [] &&
      multiset(a.entries + b.entries) == multiset(l.entries + r.entries) + multiset{e}
  {
    hide With;
    var n := Count(l) - 1;
    WithAddsOne(l.entries[..n], e);
    assert l.entries == l.entries[..n] + [l.entries[n]];
  }

  /** What an insertion leaves of a tree that binds the key already, without noticing: the same leaves in the
      same chain, but a listing out of order that binds the key twice. */
  ghost predicate Slipped(t: Tree, u: Tree, e: Entry) {
    && t.Node? && u.Node? && u.page == t.page && LeafPages(u) == LeafPages(t) && Pages(u) <= Pages(t)
    && !Sorted(Flat(u)) && multiset(Flat(u)) == multiset(Flat(t)) + multiset{e}
  }

  lemma UnsortedInside(a: seq<Entry>, m: seq<Entry>, c: seq<Entry>)
    requires !Sorted(m)
    ensures !Sorted(a + m + c)
  {
    if Sorted(a + m + c) {
      SortedThree(a, m, c);
    }
  }

  /** Two leaves out of order leave the node out of order. */
  lemma SlipUnsorts(t: Tree, order: nat, c: nat, q: Pair, e: Entry)
    requires order >= 4 && Good(t, 1, order) && t.Node? && c < |t.keys| == |t.kids| - 1
    requires t.kids[c].Leaf? && t.kids[c + 1].Leaf? && q.left.Leaf? && q.right.Leaf?
    requires q.left.page == t.kids[c].page && q.right.page == t.kids[c + 1].page
    requires var s := q.left.entries + q.right.entries;
             !Sorted(s) && multiset(s) == multiset(t.kids[c].entries + t.kids[c + 1].entries) + multiset{e}
    ensures Slipped(t, PutPair(t, c, q), e)
  {
    hide FlatSeq, LeafSeq, PagesOf, AllSeparate, Tight, Sorted;
    var a, l, r, d := t.kids[..c], t.kids[c], t.kids[c + 1], t.kids[c + 2..];
    CutThree(t.kids, c, c + 2);
    assert t.kids[c..c + 2] == [l, r];
    FlatThree(a, [l, r], d);
    FlatTwo(l, r);
    FlatThree(a, [q.left, q.right], d);
    FlatTwo(q.left, q.right);
    UnsortedInside(FlatSeq(a), q.left.entries + q.right.entries, FlatSeq(d));
    SamePages(a, [l, r], [q.left, q.right], d);
  }

  lemma SamePages(a: seq<Tree>, m: seq<Tree>, n: seq<Tree>, d: seq<Tree>)
    requires |m| == |n| == 2 && Pages(n[0]) == Pages(m[0]) && Pages(n[1]) == Pages(m[1])
    ensures PagesOf(a + n + d) == PagesOf(a + m + d)
  {
    hide *;
    PagesConcat(a + m, d);
    PagesConcat(a, m);
    PagesConcat(a + n, d);
    PagesConcat(a, n);
    assert m == [m[0], m[1]] && n == [n[0], n[1]];
    PagesTwo(m[0], m[1]);
    PagesTwo(n[0], n[1]);
  }

  /** A child out of order leaves the node out of order. */
  lemma SlipBelow(t: Tree, b: nat, kid: Tree, e: Entry)
    requires t.Node? && b < |t.kids| == |t.keys| + 1 && Slipped(t.kids[b], kid, e)
    ensures Slipped(t, Node(t.page, t.keys, t.kids[..b] + [kid] + t.kids[b + 1..]), e)
  {
    hide FlatSeq, LeafSeq, PagesOf, Sorted;
    var a, old_, d := t.kids[..b], t.kids[b], t.kids[b + 1..];
    CutThree(t.kids, b, b + 1);
    assert t.kids[b..b + 1] == [old_];
    FlatThree(a, [old_], d);
    FlatOne(old_);
    FlatThree(a, [kid], d);
    FlatOne(kid);
    UnsortedInside(FlatSeq(a), Flat(kid), FlatSeq(d));
    FewerPages(a, old_, kid, d);
  }

  lemma FewerPages(a: seq<Tree>, old_: Tree, kid: Tree, d: seq<Tree>)
    requires Pages(kid) <= Pages(old_)
    ensures PagesOf(a + [kid] + d) <= PagesOf(a + [old_] + d)
  {
    hide *;
    PagesConcat(a + [old_], d);
    PagesConcat(a, [old_]);
    PagesConcat(a + [kid], d);
    PagesConcat(a, [kid]);
    PagesOne(old_);
    PagesOne(kid);
  }

  /** Whether a key slips past is decided below the child that the search follows. */
  lemma SlipsThrough(t: Tree, h: nat, order: nat, key: int, b: nat)
    requires order >= 4 && Good(t, h, order) && t.Node? && Follows(t, key, b)
    ensures b < |t.kids| == |t.keys| + 1
    ensures Slips(t, key, order) <==>
            if t.kids[b].Leaf? then LeafSlips(t, b, key, order) else Slips(t.kids[b], key, order)
    ensures t.kids[b].Leaf? ==> !Slips(t.kids[b], key, order)
  {
    GoodKid(t, h, order, 0);
    SeparatorsIncreasing(t, h, order);
    forall c: int | 0 <= c < |t.kids| && Follows(t, key, c) ensures c == b {
      OneFollowed(t, key, b, c);
    }
  }

  lemma OneFollowed(t: Tree, key: int, b: int, c: int)
    requires t.Node? && Increasing(t.keys) && Follows(t, key, b) && Follows(t, key, c)
    ensures b == c
  {
  }

  /** A key is bound below the node exactly when it is bound below the followed child. */
  lemma BoundBelow(t: Tree, h: nat, order: nat, key: int, b: int)
    requires order >= 4 && Good(t, h, order) && t.Node? && Follows(t, key, b)
    ensures b < |t.kids| == |t.keys| + 1
    ensures Absent(Flat(t), key) <==> Absent(Flat(t.kids[b]), key)
  {
    GoodKid(t, h, order, 0);
    FollowedAbsent(t, h, order, key, b);
  }

  /** A key that is not bound never slips past. */
  lemma {:induction false} FreshNeverSlips(t: Tree, h: nat, order: nat, key: int)
    requires order >= 4 && Good(t, h, order) && Absent(Flat(t), key)
    ensures !Slips(t, key, order)
    decreases t
  {
    if Slips(t, key, order) {
      var b :| 0 <= b < |t.kids| && Follows(t, key, b) &&
               if t.kids[b].Leaf? then LeafSlips(t, b, key, order) else Slips(t.kids[b], key, order);
      GoodKid(t, h, order, b);
      FollowedAbsent(t, h, order, key, b);
      if t.kids[b].Node? {
        FreshNeverSlips(t.kids[b], h - 1, order, key);
      }
    }
  }

  /** What an insertion below a page achieves. */
  ghost predicate Outcome(success: bool, t: Tree, g: Grown, e: Entry, h: nat, order: nat) {
    if Slips(t, e.key, order) then success && g.One? && Slipped(t, g.tree, e)
    else (success <==> Absent(Flat(t), e.key)) && if success then Inserted(t, g, e, h, order) else g == One(t)
  }

  /** A tree of order 4 in which the key 20, although it is bound, slips past the insertion. */
  lemma SlipExample(root: Page, left: Page, right: Page) returns (t: Tree)
    requires root != left && root != right && left != right
    ensures t == Node(root, [10], [Leaf(left, [Entry(1, 0), Entry(2, 0)]),
                                   Leaf(right, [Entry(10, 0), Entry(20, 0), Entry(30, 0), Entry(40, 0)])])
    ensures Good(t, 1, 4) && !Absent(Flat(t), 20) && Slips(t, 20, 4)
  {
    var a := Leaf(left, [Entry(1, 0), Entry(2, 0)]);
    var b := Leaf(right, [Entry(10, 0), Entry(20, 0), Entry(30, 0), Entry(40, 0)]);
    t := Node(root, [10], [a, b]);
    FlatTwo(a, b);
    PagesTwo(a, b);
    assert Flat(t)[3].key == 20;
    assert b.entries[1].key == 20;
    assert Follows(t, 20, 1) && LeafSlips(t, 1, 20, 4);
  }

  lemma BelowConcat(a: seq<Entry>, b: seq<Entry>, c: seq<Entry>)
    ensures Below(a, b + c) <==> Below(a, b) && Below(a, c)
  {
    assert forall i :: 0 <= i < |b| ==> (b + c)[i] == b[i];
    assert forall i :: 0 <= i < |c| ==> (b + c)[|b| + i] == c[i];
  }
}
