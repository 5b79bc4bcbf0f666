/** Making room for a binding in a full leaf by moving one into a neighbouring leaf
    (DS_BPlusTree.h:656-705, 741-791). */
module BPlusRotate {
  import opened BPlusPage
  import opened BPlusListing
  import opened BPlusShape
  import opened BPlusNode
  import opened BPlusStore
  import opened BPlusGrow
  import opened BPlusSplit
  import opened BPlusSlip

  /** Two leaf pages next to each other below `cur`. */
  ghost predicate LeafPair(cur: Page, c: int, l: Tree, r: Tree, order: nat)
    reads cur`size, cur`keys, cur`data, cur`children
    reads l.page`isLeaf, l.page`size, l.page`keys, l.page`data, l.page`children
    reads r.page`isLeaf, r.page`size, r.page`keys, r.page`data, r.page`children
  {
    && l.Leaf? && r.Leaf? && Own(l, order) && Own(r, order)
    && cur != l.page && cur != r.page && l.page != r.page
    && cur.Buffers(order) && 0 <= c < cur.size && cur.children[c] == l.page && cur.children[c + 1] == r.page
    && Sorted(l.entries) && Sorted(r.entries)
  }

  method RotateLeft(cur: Page, childIndex: int, order: nat, ghost l: Tree, ghost r: Tree) returns (key1: int, key2: int)
    requires LeafPair(cur, childIndex - 1, l, r, order) && Count(l) < order && 1 < Count(r)
    modifies cur`keys
    modifies l.page`keys, l.page`data, l.page`size, r.page`keys, r.page`data, r.page`size
    ensures Own(Leaf(l.page, l.entries + [r.entries[0]]), order) && Own(Leaf(r.page, r.entries[1..]), order)
    ensures key1 == r.entries[0].key && key2 == r.entries[1].key
    ensures cur.keys == old(cur.keys)[childIndex - 1 := key2]
  {
    var dest, source := cur.children[childIndex - 1], cur.children[childIndex];
    key1 := source.keys[0];
    dest.keys := dest.keys[dest.size := source.keys[0]];
    dest.data := dest.data[dest.size := source.data[0]];
    dest.size := dest.size + 1;
    source.keys := ShiftDown(source.keys, 0, source.size - 1);
    source.data := ShiftDown(source.data, 0, source.size - 1);
    source.size := source.size - 1;
    cur.keys := cur.keys[childIndex - 1 := source.keys[0]];
    key2 := source.keys[0];
  }

  method RotateRight(cur: Page, childIndex: int, order: nat, ghost l: Tree, ghost r: Tree)
    returns (key1: int, key2: int)
    requires LeafPair(cur, childIndex, l, r, order) && Count(r) < order && 0 < Count(l) && 0 < Count(r)
    modifies cur`keys
    modifies l.page`keys, l.page`data, l.page`size, r.page`keys, r.page`data, r.page`size
    ensures var n := Count(l) - 1;
      Own(Leaf(l.page, l.entries[..n]), order) && Own(Leaf(r.page, [l.entries[n]] + r.entries), order)
      && key1 == r.entries[0].key && key2 == l.entries[n].key
    ensures cur.keys == old(cur.keys)[childIndex := key2]
  {
    hide Own, Sorted;
    PairRead(cur, childIndex, l, r, order);
    EntriesStored(l, order);
    var dest, source := cur.children[childIndex + 1], cur.children[childIndex];
    key1 := dest.keys[0];
    TakeAtHead(source.keys[source.size - 1], source.data[source.size - 1], dest, order, r);
    source.size := source.size - 1;
    LastGone(l, order);
    cur.keys := cur.keys[childIndex := dest.keys[0]];
    key2 := dest.keys[0];
  }

  /** A binding moves in before all others (DS_BPlusTree.h:693-700). */
  method TakeAtHead(key: int, data: int, dest: Page, order: nat, ghost t: Tree)
    requires t.Leaf? && dest == t.page && Own(t, order) && Count(t) < order
    modifies dest`keys, dest`data, dest`size
    ensures Own(Leaf(t.page, [Entry(key, data)] + t.entries), order)
    ensures dest.Buffers(order) && dest.keys[0] == key
  {
    dest.keys := ShiftUp(dest.keys, 0, dest.size);
    dest.data := ShiftUp(dest.data, 0, dest.size);
    dest.keys := dest.keys[0 := key];
    dest.data := dest.data[0 := data];
    dest.size := dest.size + 1;
  }

  lemma EntriesStored(t: Tree, order: nat)
    requires t.Leaf? && Own(t, order)
    ensures t.page.Buffers(order) && t.page.isLeaf && t.page.size == |t.entries|
    ensures forall i :: 0 <= i < |t.entries| ==> t.entries[i] == Entry(t.page.keys[i], t.page.data[i])
  {
  }

  lemma LastGone(t: Tree, order: nat)
    requires t.Leaf? && 0 < |t.entries| <= order
    requires t.page.Buffers(order) && t.page.isLeaf && t.page.size == |t.entries| - 1
    requires forall i :: 0 <= i < |t.entries| ==> t.entries[i] == Entry(t.page.keys[i], t.page.data[i])
    ensures Own(Leaf(t.page, t.entries[..|t.entries| - 1]), order)
  {
  }

  /** Puts a binding into a leaf that has room, where the search says it belongs. */
  method InsertSorted(key: int, data: int, leaf: Page, order: nat, ghost t: Tree)
    requires t.Leaf? && leaf == t.page && Own(t, order) && 0 < Count(t) < order
    requires Sorted(t.entries)
    modifies leaf`keys, leaf`data, leaf`children, leaf`size
    ensures Own(Leaf(t.page, With(t.entries, Entry(key, data))), order)
    ensures leaf.size == Count(t) + 1
  {
    ghost var es := t.entries;
    assert leaf.keys[..leaf.size] == seq(|es|, i requires 0 <= i < |es| => es[i].key);
    var _, insertionIndex := GetIndexOf(key, leaf);
    assert forall i :: 0 <= i < insertionIndex ==> es[i].key == leaf.keys[i] < key;
    assert forall i :: insertionIndex <= i < |es| ==> key <= es[i].key == leaf.keys[i];
    WithAt(es, insertionIndex, Entry(key, data));
    LeafMissing(t, order, insertionIndex, Entry(key, data));
    InsertWithRoom(key, data, insertionIndex, null, leaf, order, GrowLeaf(t, insertionIndex, Entry(key, data)));
  }

  /** DS_BPlusTree.h:743-764 */
  method MakeRoomLeft(key: int, data: int, cur: Page, branchIndex: int, order: nat, ghost l: Tree, ghost r: Tree)
    returns (key1: int, key2: int)
    requires LeafPair(cur, branchIndex - 1, l, r, order) && Count(l) < order && 1 < Count(r)
    modifies cur`keys
    modifies l.page`keys, l.page`data, l.page`size, r.page`keys, r.page`data, r.page`children, r.page`size
    ensures var q := LeanLeft(l, r, Entry(key, data));
      Own(q.0, order) && Own(q.1, order) && 0 < Count(q.1)
      && cur.keys == old(cur.keys)[branchIndex - 1 := q.1.entries[0].key]
    ensures key1 == r.entries[0].key
    ensures key2 == if r.entries[0].key < key then r.entries[1].key else key
  {
    hide Own, Sorted, With;
    PairRead(cur, branchIndex - 1, l, r, order);
    var child := cur.children[branchIndex];
    if key > child.keys[0] {
      key1, key2 := RotateLeft(cur, branchIndex, order, l, r);
      SortedTail(r.entries);
      InsertSorted(key, data, child, order, Leaf(r.page, r.entries[1..]));
    } else {
      key1, key2 := child.keys[0], key;
      HandOver(key, data, cur.children[branchIndex - 1], child, order, l, r);
    }
    FirstStored(LeanLeft(l, r, Entry(key, data)).1, order);
    cur.keys := cur.keys[branchIndex - 1 := child.keys[0]];
  }

  /** The least binding of the right leaf moves to the left one and leaves its place to the new binding
      (DS_BPlusTree.h:754-763). */
  method HandOver(key: int, data: int, dest: Page, child: Page, order: nat, ghost l: Tree, ghost r: Tree)
    requires l.Leaf? && r.Leaf? && Own(l, order) && Own(r, order) && dest == l.page && child == r.page && dest != child
    requires Count(l) < order && 0 < Count(r)
    modifies dest`keys, dest`data, dest`size, child`keys, child`data
    ensures Own(Leaf(l.page, l.entries + [r.entries[0]]), order)
    ensures Own(Leaf(r.page, [Entry(key, data)] + r.entries[1..]), order) && 0 < child.size
  {
    dest.keys := dest.keys[dest.size := child.keys[0]];
    dest.data := dest.data[dest.size := child.data[0]];
    dest.size := dest.size + 1;
    child.keys := child.keys[0 := key];
    child.data := child.data[0 := data];
  }

  /** What can be read off two neighbouring leaves. */
  lemma PairRead(cur: Page, c: int, l: Tree, r: Tree, order: nat)
    requires LeafPair(cur, c, l, r, order) && 0 < Count(r)
    ensures 0 <= c < |cur.keys| && c + 1 < |cur.children|
    ensures r.page.Buffers(order) && Count(r) <= order && r.page.keys[0] == r.entries[0].key
  {
  }

  lemma FirstStored(t: Tree, order: nat)
    requires t.Leaf? && Own(t, order) && 0 < t.page.size
    ensures 0 < Count(t) && t.page.Buffers(order) && t.page.keys[0] == t.entries[0].key
  {
  }

  method InsertAtHead(key: int, data: int, leaf: Page, order: nat, ghost t: Tree)
    requires t.Leaf? && leaf == t.page && Own(t, order) && Count(t) < order
    modifies leaf`keys, leaf`data, leaf`children, leaf`size
    ensures Own(Leaf(t.page, [Entry(key, data)] + t.entries), order)
  {
    hide Own, Missing;
    ghost var v := GrowLeaf(t, 0, Entry(key, data));
    assert v.entries == [Entry(key, data)] + t.entries;
    LeafMissing(t, order, 0, Entry(key, data));
    InsertWithRoom(key, data, 0, null, leaf, order, v);
  }

  /** DS_BPlusTree.h:771-788 */
  method MakeRoomRight(key: int, data: int, cur: Page, branchIndex: int, order: nat, ghost l: Tree, ghost r: Tree)
    returns (key1: int, key2: int)
    requires LeafPair(cur, branchIndex, l, r, order) && 1 < Count(l) && 0 < Count(r) < order
    modifies cur`keys
    modifies l.page`keys, l.page`data, l.page`children, l.page`size
    modifies r.page`keys, r.page`data, r.page`children, r.page`size
    ensures var q := LeanRight(l, r, Entry(key, data));
      Own(q.0, order) && Own(q.1, order)
      && cur.keys == old(cur.keys)[branchIndex := q.1.entries[0].key]
    ensures key1 == r.entries[0].key
    ensures var last := l.entries[Count(l) - 1].key; key2 == if key < last then last else key
  {
    var child, right := cur.children[branchIndex], cur.children[branchIndex + 1];
    if key < child.keys[child.size - 1] {
      key1, key2 := RotateRight(cur, branchIndex, order, l, r);
      InsertSorted(key, data, child, order, Leaf(l.page, l.entries[..Count(l) - 1]));
    } else {
      key1 := right.keys[0];
      InsertAtHead(key, data, right, order, r);
      key2 := key;
    }
    cur.keys := cur.keys[branchIndex := right.keys[0]];
  }

  /** Leaning left keeps the order because the new key is above the right leaf's least key. */
  lemma LeanLeftShares(p: Pair, e: Entry, order: nat)
    requires order >= 4 && p.left.Leaf? && p.right.Leaf?
    requires order / 2 <= Count(p.left) < order && Count(p.right) == order
    requires Sorted(p.left.entries + p.right.entries) && Absent(p.right.entries, e.key)
    requires p.right.entries[0].key < e.key
    ensures var q := LeanLeft(p.left, p.right, e);
      0 < Count(q.1) && SharedOut(p, Pair(q.0, q.1, q.1.entries[0].key), e, order)
  {
    var l, r := p.left.entries, p.right.entries;
    assert l + r == (l + [r[0]]) + r[1..];
    SortedConcat(l, r);
    WithInside(l + [r[0]], r[1..], e);
    SortedTail(r);
    assert forall i :: 0 <= i < |r| - 1 ==> r[1..][i] == r[i + 1];
    WithSorted(r[1..], e);
  }

  lemma LeanRightShares(p: Pair, e: Entry, order: nat)
    requires order >= 4 && p.left.Leaf? && p.right.Leaf?
    requires Count(p.left) == order && order / 2 <= Count(p.right) < order
    requires Sorted(p.left.entries + p.right.entries) && Absent(p.left.entries, e.key)
    requires e.key < p.right.entries[0].key
    ensures var q := LeanRight(p.left, p.right, e);
      0 < Count(q.1) && SharedOut(p, Pair(q.0, q.1, q.1.entries[0].key), e, order)
  {
    var l, r := p.left.entries, p.right.entries;
    var n := |l| - 1;
    SortedConcat(l, r);
    if e.key < l[n].key {
      assert l + r == l[..n] + ([l[n]] + r);
      WithBefore(l[..n], [l[n]] + r, e);
      WithSorted(l[..n], e);
    } else {
      assert forall i :: 0 <= i < |l| ==> l[i].key < e.key;
      WithInside(l, r, e);
    }
  }

  // ----------------------------------------------------------------------------------------------
  // The same, seen from the index node above
  // ----------------------------------------------------------------------------------------------

  /** What a rotation leaves behind: the node with the binding added, no page split. */
  ghost predicate Rotated(t: Tree, u: Tree, e: Entry, order: nat) {
    && Good(u, 1, order) && u.Node? && u.page == t.page && Count(u) == Count(t) && Pages(u) <= Pages(t)
    && Flat(u) == With(Flat(t), e) && LeafPages(u) == LeafPages(t)
  }

  /** What a rotation of child `b` makes of the node: the binding is added, unless the leaf had it already. */
  ghost predicate Turned(t: Tree, u: Tree, b: int, e: Entry, order: nat) {
    && t.Node? && |t.kids| == |t.keys| + 1 && 0 <= b <= |t.keys| && t.kids[b].Leaf?
    && if LeafSlips(t, b, e.key, order) then Slipped(t, u, e)
       else Absent(Flat(t), e.key) && Rotated(t, u, e, order)
  }

  lemma LeanLeftTurns(t: Tree, order: nat, b: int, e: Entry) returns (q: Pair)
    requires order >= 4 && Good(t, 1, order) && t.Node? && Follows(t, e.key, b) && b > 0 && t.keys[b - 1] != e.key
    requires |t.kids| == |t.keys| + 1 && Count(t.kids[b]) == order && Count(t.kids[b - 1]) < order
    ensures Adjacent(t, b - 1) && t.kids[b - 1].Leaf? && t.kids[b].Leaf?
    ensures var (l, r) := LeanLeft(t.kids[b - 1], t.kids[b], e);
      0 < Count(r) && r.Leaf? && q == Pair(l, r, r.entries[0].key)
    ensures q.left.page == t.kids[b - 1].page && q.right.page == t.kids[b].page
    ensures Turned(t, PutPair(t, b - 1, q), b, e, order)
  {
    hide FlatSeq, LeafSeq, PagesOf, AllSeparate, Tight, Sorted, Slipped, Rotated, With, SharedOut, Good;
    LeavesBelow(t, order, b - 1);
    var p := PairAt(t, b - 1);
    var (l, r) := LeanLeft(p.left, p.right, e);
    LeanLeftAdds(p.left, p.right, e);
    q := Pair(l, r, r.entries[0].key);
    LeanLeftSorted(p.left, p.right, e);
    BoundBelow(t, 1, order, e.key, b);
    if LeafSlips(t, b, e.key, order) {
      SlipUnsorts(t, order, b - 1, q, e);
    } else {
      GoodKid(t, 1, order, b - 1);
      LeanLeftShares(p, e, order);
      var u := SharedGood(t, order, b, b - 1, e, q);
      assert Rotated(t, u, e, order) by {
        RotatedIf(t, u, e, order);
      }
    }
  }

  lemma LeanRightTurns(t: Tree, order: nat, b: int, e: Entry) returns (q: Pair)
    requires order >= 4 && Good(t, 1, order) && t.Node? && Follows(t, e.key, b) && !(b > 0 && t.keys[b - 1] == e.key)
    requires |t.kids| == |t.keys| + 1 && b < |t.keys| && Count(t.kids[b]) == order && Count(t.kids[b + 1]) < order
    ensures Adjacent(t, b) && t.kids[b].Leaf? && t.kids[b + 1].Leaf?
    ensures var (l, r) := LeanRight(t.kids[b], t.kids[b + 1], e);
      0 < Count(r) && r.Leaf? && q == Pair(l, r, r.entries[0].key)
    ensures q.left.page == t.kids[b].page && q.right.page == t.kids[b + 1].page
    ensures Turned(t, PutPair(t, b, q), b, e, order)
  {
    hide FlatSeq, LeafSeq, PagesOf, AllSeparate, Tight, Slipped, Rotated, With, SharedOut, Good;
    LeavesBelow(t, order, b);
    var p := PairAt(t, b);
    var (l, r) := LeanRight(p.left, p.right, e);
    SortedConcat(p.left.entries, p.right.entries);
    LeanRightAdds(p.left, p.right, e);
    q := Pair(l, r, r.entries[0].key);
    LeanRightSorted(p.left, p.right, e);
    BoundBelow(t, 1, order, e.key, b);
    if LeafSlips(t, b, e.key, order) {
      SlipUnsorts(t, order, b, q, e);
    } else {
      GoodKid(t, 1, order, b + 1);
      LeanRightShares(p, e, order);
      var u := SharedGood(t, order, b, b, e, q);
      assert Rotated(t, u, e, order) by {
        RotatedIf(t, u, e, order);
      }
    }
  }

  lemma RotatedIf(t: Tree, u: Tree, e: Entry, order: nat)
    requires Good(u, 1, order) && u.Node? && u.page == t.page && Count(u) == Count(t) && Pages(u) <= Pages(t)
    requires Flat(u) == With(Flat(t), e) && LeafPages(u) == LeafPages(t)
    ensures Rotated(t, u, e, order)
  {
  }

  /** DS_BPlusTree.h:741-768 */
  method RotateIntoLeft(key: int, data: int, cur: Page, branchIndex: int, order: nat, ghost t: Tree)
    returns (key1: int, key2: int, ghost u: Tree)
    requires order >= 4 && Good(t, 1, order) && t.Node? && Holds(t, order) && cur == t.page && |t.kids| == |t.keys| + 1
    requires Follows(t, key, branchIndex) && branchIndex > 0 && t.keys[branchIndex - 1] != key
    requires Count(t.kids[branchIndex]) == order && Count(t.kids[branchIndex - 1]) < order
    modifies Pages(t)`keys, Pages(t)`data, Pages(t)`children, Pages(t)`size
    ensures Turned(t, u, branchIndex, Entry(key, data), order) && Holds(u, order)
    ensures Flat(t) != [] && Flat(t)[0].key < key1
  {
    hide Flat, FlatSeq, LeafSeq, LeafPages, Pages, PagesOf, Good, Shape, Tight, Separate, AllSeparate, Surroundings,
      SurroundingsHold, Turned, Sorted, LeanLeft, AllHold;
    ghost var c := branchIndex - 1;
    ghost var q := LeanLeftTurns(t, order, branchIndex, Entry(key, data));
    ReadyToTurn(t, order, c);
    assert allocated(Surroundings(t, c));
    u := PutPair(t, c, q);
    key1, key2 := MakeRoomLeft(key, data, cur, branchIndex, order, t.kids[c], t.kids[c + 1]);
    assert SurroundingsHold(t, c, order);
    PutPairOwn(t, c, q, order);
    PairStored(t, c, q, order);
  }

  /** The two leaves are in memory, apart from each other and from everything else. */
  lemma ReadyToTurn(t: Tree, order: nat, c: int)
    requires order >= 4 && Good(t, 1, order) && t.Node? && Holds(t, order) && 0 <= c < |t.keys|
    ensures Adjacent(t, c) && LeafPair(t.page, c, t.kids[c], t.kids[c + 1], order) && SurroundingsHold(t, c, order)
    ensures {t.page, t.kids[c].page, t.kids[c + 1].page} !! Surroundings(t, c)
    ensures t.page in Pages(t) && t.kids[c].page in Pages(t) && t.kids[c + 1].page in Pages(t)
    ensures t.page != t.kids[c].page && t.page != t.kids[c + 1].page && t.kids[c].page != t.kids[c + 1].page
    ensures Flat(t) != [] && Flat(t)[0].key < t.keys[c] == t.kids[c + 1].entries[0].key
    ensures order / 2 <= Count(t.kids[c]) && order / 2 <= Count(t.kids[c + 1]) && Own(t, order)
  {
    LeavesBelow(t, order, c);
    PairLoaded(t, c, order);
    PairApart(t, c);
    KidPagesIn(t, c);
    SortedConcat(t.kids[c].entries, t.kids[c + 1].entries);
    GoodKid(t, 1, order, c);
    GoodKid(t, 1, order, c + 1);
  }

  /** DS_BPlusTree.h:769-791 */
  method RotateIntoRight(key: int, data: int, cur: Page, branchIndex: int, order: nat, ghost t: Tree)
    returns (key1: int, key2: int, ghost u: Tree)
    requires order >= 4 && Good(t, 1, order) && t.Node? && Holds(t, order) && cur == t.page && |t.kids| == |t.keys| + 1
    requires Follows(t, key, branchIndex) && !(branchIndex > 0 && t.keys[branchIndex - 1] == key)
    requires branchIndex < |t.keys| && Count(t.kids[branchIndex]) == order && Count(t.kids[branchIndex + 1]) < order
    modifies Pages(t)`keys, Pages(t)`data, Pages(t)`children, Pages(t)`size
    ensures Turned(t, u, branchIndex, Entry(key, data), order) && Holds(u, order)
    ensures Flat(t) != [] && Flat(t)[0].key < key1
  {
    hide Flat, FlatSeq, LeafSeq, LeafPages, Pages, PagesOf, Good, Shape, Tight, Separate, AllSeparate, Surroundings,
      SurroundingsHold, Turned, Sorted, LeanRight, AllHold;
    ghost var c := branchIndex;
    ghost var q := LeanRightTurns(t, order, branchIndex, Entry(key, data));
    ReadyToTurn(t, order, c);
    assert allocated(Surroundings(t, c));
    u := PutPair(t, c, q);
    key1, key2 := MakeRoomRight(key, data, cur, branchIndex, order, t.kids[c], t.kids[c + 1]);
    assert SurroundingsHold(t, c, order);
    PutPairOwn(t, c, q, order);
    PairStored(t, c, q, order);
  }

  lemma KidPagesIn(t: Tree, c: int)
    requires Adjacent(t, c)
    ensures t.page in Pages(t) && t.kids[c].page in Pages(t) && t.kids[c + 1].page in Pages(t)
  {
    KidPages(t);
    assert t.kids[c].page in Pages(t.kids[c]) && t.kids[c + 1].page in Pages(t.kids[c + 1]);
  }
}
