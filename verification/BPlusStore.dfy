/** The pages in memory hold a snapshot; moving entries between the pages of neighbouring children. */
module BPlusStore {
  import opened BPlusPage
  import opened BPlusListing
  import opened BPlusShape
  import opened BPlusNode

  /** The page at the top of `t` holds exactly what the snapshot says. */
  ghost predicate Own(t: Tree, order: nat)
    reads t.page`isLeaf, t.page`size, t.page`keys, t.page`data, t.page`children
  {
    var p := t.page;
    && p.Buffers(order) && p.size == Count(t) && p.isLeaf == t.Leaf?
    && match t
       case Leaf(_, es) =>
         forall i :: 0 <= i < |es| ==> p.keys[i] == es[i].key && p.data[i] == es[i].data
       case Node(_, keys, kids) =>
         && |kids| == |keys| + 1
         && (forall i :: 0 <= i < |keys| ==> p.keys[i] == keys[i])
         && (forall i :: 0 <= i < |kids| ==> p.children[i] == kids[i].page)
  }

  /** All pages of `t` hold what the snapshot says. */
  ghost predicate Holds(t: Tree, order: nat)
    reads Pages(t)`isLeaf, Pages(t)`size, Pages(t)`keys, Pages(t)`data, Pages(t)`children
    decreases t, 1
  {
    Own(t, order) && (t.Node? ==> AllHold(t.kids, order))
  }

  ghost predicate AllHold(ts: seq<Tree>, order: nat)
    reads PagesOf(ts)`isLeaf, PagesOf(ts)`size, PagesOf(ts)`keys, PagesOf(ts)`data, PagesOf(ts)`children
    decreases ts, 0
  {
    forall i :: 0 <= i < |ts| ==> Holds(ts[i], order)
  }

  lemma AllHoldConcat(a: seq<Tree>, b: seq<Tree>, order: nat)
    ensures AllHold(a + b, order) <==> AllHold(a, order) && AllHold(b, order)
  {
    assert forall i :: 0 <= i < |a| ==> (a + b)[i] == a[i];
    assert forall i :: 0 <= i < |b| ==> (a + b)[|a| + i] == b[i];
  }

  lemma AllHoldOne(t: Tree, order: nat)
    ensures AllHold([t], order) <==> Holds(t, order)
  {
    assert [t][0] == t;
  }

  lemma AllHoldTwo(l: Tree, r: Tree, order: nat)
    ensures AllHold([l, r], order) <==> Holds(l, order) && Holds(r, order)
  {
    assert [l, r][0] == l && [l, r][1] == r;
  }

  // ----------------------------------------------------------------------------------------------
  // Moving everything in a page by one
  // ----------------------------------------------------------------------------------------------

  method ShiftNodeRight(cur: Page, order: nat)
    requires cur.Buffers(order) && cur.size < order
    modifies cur`keys, cur`data, cur`children, cur`size
    ensures cur.Buffers(order) && cur.size == old(cur.size) + 1
    ensures forall i :: 1 <= i < cur.size ==> cur.keys[i] == old(cur.keys)[i - 1]
    ensures forall i :: 1 <= i < cur.size && cur.isLeaf ==> cur.data[i] == old(cur.data)[i - 1]
    ensures forall i :: 1 <= i <= cur.size && !cur.isLeaf ==> cur.children[i] == old(cur.children)[i - 1]
  {
    cur.keys := ShiftUp(cur.keys, 0, cur.size);
    if cur.isLeaf {
      cur.data := ShiftUp(cur.data, 0, cur.size);
    } else {
      cur.children := ShiftUp(cur.children, 0, cur.size + 1);
    }
    cur.size := cur.size + 1;
  }

  method ShiftNodeLeft(cur: Page, order: nat)
    requires cur.Buffers(order) && 0 < cur.size
    modifies cur`keys, cur`data, cur`children, cur`size
    ensures cur.Buffers(order) && cur.size == old(cur.size) - 1
    ensures forall i :: 0 <= i < cur.size ==> cur.keys[i] == old(cur.keys)[i + 1]
    ensures forall i :: 0 <= i < cur.size && cur.isLeaf ==> cur.data[i] == old(cur.data)[i + 1]
    ensures forall i :: 0 <= i <= cur.size && !cur.isLeaf ==> cur.children[i] == old(cur.children)[i + 1]
  {
    cur.keys := ShiftDown(cur.keys, 0, cur.size - 1);
    if cur.isLeaf {
      cur.data := ShiftDown(cur.data, 0, cur.size);
    } else {
      cur.children := ShiftDown(cur.children, 0, cur.size);
    }
    cur.size := cur.size - 1;
  }

  /** Removes key `index` with its binding, or key `index` with the child to its right. */
  method DeleteFromPageAtIndex(index: int, cur: Page, order: nat)
    requires cur.Buffers(order) && 0 <= index < cur.size
    modifies cur`keys, cur`data, cur`children, cur`size
    ensures cur.Buffers(order) && cur.size == old(cur.size) - 1
    ensures forall i :: 0 <= i < cur.size ==> cur.keys[i] == old(cur.keys)[if i < index then i else i + 1]
    ensures forall i :: 0 <= i < cur.size && cur.isLeaf ==>
      cur.data[i] == old(cur.data)[if i < index then i else i + 1]
    ensures forall i :: 0 <= i <= cur.size && !cur.isLeaf ==>
      cur.children[i] == old(cur.children)[if i <= index then i else i + 1]
  {
    cur.keys := ShiftDown(cur.keys, index, cur.size - 1);
    if cur.isLeaf {
      cur.data := ShiftDown(cur.data, index, cur.size - 1);
    } else {
      cur.children := ShiftDown(cur.children, index + 1, cur.size);
    }
    cur.size := cur.size - 1;
  }

  method DeleteFromLeaf(index: int, leaf: Page, order: nat, ghost t: Tree) returns (ghost u: Tree)
    requires t.Leaf? && leaf == t.page && Own(t, order) && 0 <= index < Count(t)
    modifies leaf`keys, leaf`data, leaf`children, leaf`size
    ensures u == Leaf(t.page, t.entries[..index] + t.entries[index + 1..]) && Holds(u, order)
  {
    DeleteFromPageAtIndex(index, leaf, order);
    u := Leaf(t.page, t.entries[..index] + t.entries[index + 1..]);
  }

  // ----------------------------------------------------------------------------------------------
  // Borrowing from a neighbour
  // ----------------------------------------------------------------------------------------------

  /** The pages below child `c` and child `c + 1`, and those left and right of them. */
  ghost function Surroundings(t: Tree, c: int): set<Page>
    requires Adjacent(t, c)
  {
    PagesOf(t.kids[..c]) + PagesOf(t.kids[c + 2..])
    + (if t.kids[c].Node? then PagesOf(t.kids[c].kids) + PagesOf(t.kids[c + 1].kids) else {})
  }

  lemma PairApart(t: Tree, c: int)
    requires Adjacent(t, c) && Separate(t)
    ensures var l, r := t.kids[c], t.kids[c + 1];
      t.page != l.page && t.page != r.page && l.page != r.page
      && {t.page, l.page, r.page} !! Surroundings(t, c)
  {
    hide PagesOf, AllSeparate, AllHold, Holds, FlatSeq, LeafSeq;
    var l, r := t.kids[c], t.kids[c + 1];
    var a, d := t.kids[..c], t.kids[c + 2..];
    assert t.kids == a + [l, r] + d;
    ThreeApart(a, l, r, d);
    assert Separate(l) && Separate(r);
  }

  lemma ThreeApart(a: seq<Tree>, l: Tree, r: Tree, d: seq<Tree>)
    requires AllSeparate(a + [l, r] + d)
    ensures PagesOf(a + [l, r] + d) == PagesOf(a) + Pages(l) + Pages(r) + PagesOf(d)
    ensures Pages(l) !! Pages(r) && Pages(l) !! PagesOf(a) && Pages(l) !! PagesOf(d)
    ensures Pages(r) !! PagesOf(a) && Pages(r) !! PagesOf(d)
    ensures Separate(l) && Separate(r)
  {
    hide *;
    PagesConcat(a + [l, r], d);
    PagesConcat(a, [l, r]);
    SeparateConcat(a + [l, r], d);
    SeparateConcat(a, [l, r]);
    PagesTwo(l, r);
  }

  /** Everything outside the two children and the node's own page, as it is in memory. */
  ghost predicate SurroundingsHold(t: Tree, c: int, order: nat)
    requires Adjacent(t, c)
    reads Surroundings(t, c)`isLeaf, Surroundings(t, c)`size, Surroundings(t, c)`keys,
          Surroundings(t, c)`data, Surroundings(t, c)`children
  {
    && AllHold(t.kids[..c], order) && AllHold(t.kids[c + 2..], order)
    && (t.kids[c].Node? ==> AllHold(t.kids[c].kids, order) && AllHold(t.kids[c + 1].kids, order))
  }

  lemma PairLoaded(t: Tree, c: int, order: nat)
    requires Adjacent(t, c) && Holds(t, order)
    ensures Own(t, order) && Own(t.kids[c], order) && Own(t.kids[c + 1], order)
    ensures SurroundingsHold(t, c, order)
  {
    assert t.kids == t.kids[..c] + [t.kids[c], t.kids[c + 1]] + t.kids[c + 2..];
    AllHoldConcat(t.kids[..c] + [t.kids[c], t.kids[c + 1]], t.kids[c + 2..], order);
    AllHoldConcat(t.kids[..c], [t.kids[c], t.kids[c + 1]], order);
    AllHoldTwo(t.kids[c], t.kids[c + 1], order);
  }

  lemma PutPairOwn(t: Tree, c: int, q: Pair, order: nat)
    requires Adjacent(t, c) && q.left.page == t.kids[c].page && q.right.page == t.kids[c + 1].page
    requires t.page.Buffers(order) && t.page.size == |t.keys| && !t.page.isLeaf
    requires forall i :: 0 <= i < |t.keys| ==> t.page.keys[i] == if i == c then q.separator else t.keys[i]
    requires forall i :: 0 <= i <= |t.keys| ==> t.page.children[i] == t.kids[i].page
    ensures Own(PutPair(t, c, q), order)
  {
  }

  lemma PairStored(t: Tree, c: int, q: Pair, order: nat)
    requires Adjacent(t, c) && SurroundingsHold(t, c, order)
    requires Own(PutPair(t, c, q), order) && Holds(q.left, order) && Holds(q.right, order)
    ensures Holds(PutPair(t, c, q), order)
  {
    AllHoldConcat(t.kids[..c] + [q.left, q.right], t.kids[c + 2..], order);
    AllHoldConcat(t.kids[..c], [q.left, q.right], order);
    AllHoldTwo(q.left, q.right, order);
  }

  /** Moves the last entry of `source` to the front of `dest`; the separator between the two pages
      travels along when they are index nodes. */
  method MoveLastRight(source: Page, dest: Page, separator: int, order: nat, ghost p: Pair) returns (moved: int)
    requires source == p.left.page && dest == p.right.page && source != dest && separator == p.separator
    requires p.left.Leaf? == p.right.Leaf? && 0 < Count(p.left) && Count(p.right) < order
    requires Own(p.left, order) && Own(p.right, order)
    modifies dest`keys, dest`data, dest`children, dest`size, source`size
    ensures var q := BorrowFromLeft(p); Own(q.left, order) && Own(q.right, order) && moved == q.separator
  {
    ShiftNodeRight(dest, order);
    if dest.isLeaf {
      dest.keys := dest.keys[0 := source.keys[source.size - 1]];
      dest.data := dest.data[0 := source.data[source.size - 1]];
    } else {
      dest.children := dest.children[0 := source.children[source.size]];
      dest.keys := dest.keys[0 := separator];
    }
    moved := source.keys[source.size - 1];
    source.size := source.size - 1;
  }

  method BorrowLeft(cur: Page, b: int, order: nat, ghost t: Tree)
    requires Adjacent(t, b - 1) && Holds(t, order) && Separate(t) && cur == t.page
    requires 0 < Count(t.kids[b - 1]) && Count(t.kids[b]) < order
    modifies t.page`keys
    modifies t.kids[b].page`keys, t.kids[b].page`data, t.kids[b].page`children, t.kids[b].page`size
    modifies t.kids[b - 1].page`size
    ensures Holds(PutPair(t, b - 1, BorrowFromLeft(PairAt(t, b - 1))), order)
  {
    hide SurroundingsHold, Surroundings;
    PairLoaded(t, b - 1, order);
    PairApart(t, b - 1);
    ghost var p := PairAt(t, b - 1);
    ghost var q := BorrowFromLeft(p);
    assert allocated(Surroundings(t, b - 1));
    var moved := MoveLastRight(cur.children[b - 1], cur.children[b], cur.keys[b - 1], order, p);
    cur.keys := cur.keys[b - 1 := moved];
    assert SurroundingsHold(t, b - 1, order);
    PutPairOwn(t, b - 1, q, order);
    BorrowedLeft(t, b - 1, order);
  }

  lemma BorrowedLeft(t: Tree, c: int, order: nat)
    requires Adjacent(t, c) && 0 < Count(t.kids[c]) && SurroundingsHold(t, c, order)
    requires var q := BorrowFromLeft(PairAt(t, c));
      Own(PutPair(t, c, q), order) && Own(q.left, order) && Own(q.right, order)
    ensures Holds(PutPair(t, c, BorrowFromLeft(PairAt(t, c))), order)
  {
    var p := PairAt(t, c);
    var q := BorrowFromLeft(p);
    if p.left.Node? {
      var last := p.left.kids[|p.left.keys|];
      AllHoldConcat(q.left.kids, [last], order);
      AllHoldConcat([last], p.right.kids, order);
      assert p.left.kids == q.left.kids + [last];
    }
    PairStored(t, c, q, order);
  }

  /** Moves the first entry of `source` to the end of `dest`; the separator between the two pages
      travels along when they are index nodes. */
  method MoveFirstLeft(dest: Page, source: Page, separator: int, order: nat, ghost p: Pair) returns (moved: int)
    requires dest ==
      p.left.page && source == p.right.page && source != dest && (p.left.Node? ==> separator == p.separator)
    requires p.left.Leaf? == p.right.Leaf? && 1 < Count(p.right) && Count(p.left) < order
    requires p.right.Node? ==> |p.right.kids| == |p.right.keys| + 1
    requires Own(p.left, order) && Own(p.right, order)
    modifies dest`keys, dest`data, dest`children, dest`size
    modifies source`keys, source`data, source`children, source`size
    ensures var q := BorrowFromRight(p); Own(q.left, order) && Own(q.right, order) && moved == q.separator
  {
    if dest.isLeaf {
      dest.keys := dest.keys[dest.size := source.keys[0]];
      dest.data := dest.data[dest.size := source.data[0]];
      moved := source.keys[1];
    } else {
      dest.keys := dest.keys[dest.size := separator];
      dest.children := dest.children[dest.size + 1 := source.children[0]];
      moved := source.keys[0];
    }
    dest.size := dest.size + 1;
    ShiftNodeLeft(source, order);
  }

  method BorrowRight(cur: Page, b: int, rightRootKey: int, order: nat, ghost t: Tree)
    requires Adjacent(t, b) && Holds(t, order) && Separate(t) && cur == t.page
    requires t.kids[b].Node? ==> rightRootKey == t.keys[b]
    requires 1 < Count(t.kids[b + 1]) && Count(t.kids[b]) < order
    modifies t.page`keys
    modifies t.kids[b].page`keys, t.kids[b].page`data, t.kids[b].page`children, t.kids[b].page`size
    modifies t.kids[b + 1].page`keys, t.kids[b + 1].page`data, t.kids[b + 1].page`children, t.kids[b + 1].page`size
    ensures Holds(PutPair(t, b, BorrowFromRight(PairAt(t, b))), order)
  {
    hide SurroundingsHold, Surroundings;
    PairLoaded(t, b, order);
    PairApart(t, b);
    ghost var p := PairAt(t, b);
    ghost var q := BorrowFromRight(p);
    assert allocated(Surroundings(t, b));
    var moved := MoveFirstLeft(cur.children[b], cur.children[b + 1], rightRootKey, order, p);
    cur.keys := cur.keys[b := moved];
    assert SurroundingsHold(t, b, order);
    PutPairOwn(t, b, q, order);
    BorrowedRight(t, b, order);
  }

  lemma BorrowedRight(t: Tree, c: int, order: nat)
    requires Adjacent(t, c) && 1 < Count(t.kids[c + 1]) && SurroundingsHold(t, c, order)
    requires var q := BorrowFromRight(PairAt(t, c));
      Own(PutPair(t, c, q), order) && Own(q.left, order) && Own(q.right, order)
    ensures Holds(PutPair(t, c, BorrowFromRight(PairAt(t, c))), order)
  {
    var p := PairAt(t, c);
    var q := BorrowFromRight(p);
    if p.left.Node? {
      var first := p.right.kids[0];
      AllHoldConcat([first], q.right.kids, order);
      AllHoldConcat(p.left.kids, [first], order);
      assert p.right.kids == [first] + q.right.kids;
    }
    PairStored(t, c, q, order);
  }

  // ----------------------------------------------------------------------------------------------
  // Merging two neighbours
  // ----------------------------------------------------------------------------------------------

  /** Appends the contents of `source` to `dest`; the separator becomes a key when they are index nodes. */
  method AppendPage(dest: Page, source: Page, separator: int, order: nat, ghost p: Pair)
    requires dest ==
      p.left.page && source == p.right.page && source != dest && (p.left.Node? ==> separator == p.separator)
    requires p.left.Leaf? == p.right.Leaf?
    requires Count(p.left) + Count(p.right) + (if p.left.Leaf? then 0 else 1) <= order
    requires p.right.Node? ==> |p.right.kids| == |p.right.keys| + 1
    requires Own(p.left, order) && Own(p.right, order)
    modifies dest`keys, dest`data, dest`children, dest`size
    ensures Own(Merge(p), order)
  {
    if dest.isLeaf {
      AppendLeaf(dest, source, order);
    } else {
      AppendNode(dest, source, separator, order);
    }
  }

  method AppendLeaf(dest: Page, source: Page, order: nat)
    requires dest != source && dest.Buffers(order) && source.Buffers(order) && dest.size + source.size <= order
    modifies dest`keys, dest`data, dest`size
    ensures dest.Buffers(order) && dest.size == old(dest.size) + source.size
    ensures forall i :: 0 <= i < old(dest.size) ==>
      dest.keys[i] == old(dest.keys)[i] && dest.data[i] == old(dest.data)[i]
    ensures forall i :: old(dest.size) <= i < dest.size ==>
      dest.keys[i] == source.keys[i - old(dest.size)] && dest.data[i] == source.data[i - old(dest.size)]
  {
    ghost var n := dest.size;
    var sourceIndex := 0;
    while sourceIndex < source.size
      invariant 0 <= sourceIndex <= source.size && dest.size == n + sourceIndex && dest.Buffers(order)
      invariant forall i :: 0 <= i < n ==> dest.keys[i] == old(dest.keys)[i] && dest.data[i] == old(dest.data)[i]
      invariant forall i :: n <= i < dest.size ==>
        dest.keys[i] == source.keys[i - n] && dest.data[i] == source.data[i - n]
    {
      dest.keys := dest.keys[dest.size := source.keys[sourceIndex]];
      dest.data := dest.data[dest.size := source.data[sourceIndex]];
      dest.size := dest.size + 1;
      sourceIndex := sourceIndex + 1;
    }
  }

  method AppendNode(dest: Page, source: Page, separator: int, order: nat)
    requires dest != source && dest.Buffers(order) && source.Buffers(order) && dest.size + 1 + source.size <= order
    modifies dest`keys, dest`children, dest`size
    ensures dest.Buffers(order) && dest.size == old(dest.size) + 1 + source.size
    ensures forall i :: 0 <= i < old(dest.size) ==> dest.keys[i] == old(dest.keys)[i]
    ensures forall i :: 0 <= i <= old(dest.size) ==> dest.children[i] == old(dest.children)[i]
    ensures dest.keys[old(dest.size)] == separator
    ensures forall i :: old(dest.size) < i < dest.size ==> dest.keys[i] == source.keys[i - old(dest.size) - 1]
    ensures forall i :: old(dest.size) < i <= dest.size ==> dest.children[i] == source.children[i - old(dest.size) - 1]
  {
    ghost var n := dest.size;
    dest.keys := dest.keys[dest.size := separator];
    dest.children := dest.children[dest.size + 1 := source.children[0]];
    dest.size := dest.size + 1;
    var sourceIndex := 0;
    while sourceIndex < source.size
      invariant 0 <= sourceIndex <= source.size && dest.size == n + 1 + sourceIndex && dest.Buffers(order)
      invariant forall i :: 0 <= i < n ==> dest.keys[i] == old(dest.keys)[i]
      invariant forall i :: 0 <= i <= n ==> dest.children[i] == old(dest.children)[i]
      invariant dest.keys[n] == separator
      invariant forall i :: n < i < dest.size ==> dest.keys[i] == source.keys[i - n - 1]
      invariant forall i :: n < i <= dest.size ==> dest.children[i] == source.children[i - n - 1]
    {
      dest.keys := dest.keys[dest.size := source.keys[sourceIndex]];
      dest.children := dest.children[dest.size + 1 := source.children[sourceIndex + 1]];
      dest.size := dest.size + 1;
      sourceIndex := sourceIndex + 1;
    }
  }

  method MergeInto(cur: Page, c: int, rightRootKey: int, order: nat, ghost t: Tree)
    requires Adjacent(t, c) && Holds(t, order) && Separate(t) && cur == t.page
    requires t.kids[c].Node? ==> rightRootKey == t.keys[c]
    requires Count(t.kids[c]) + Count(t.kids[c + 1]) < order
    modifies t.page`keys, t.page`data, t.page`children, t.page`size
    modifies t.kids[c].page`keys, t.kids[c].page`data, t.kids[c].page`children, t.kids[c].page`size
    ensures Holds(PutMerged(t, c, Merge(PairAt(t, c))), order)
  {
    hide SurroundingsHold, Surroundings;
    PairLoaded(t, c, order);
    PairApart(t, c);
    ghost var p := PairAt(t, c);
    assert allocated(Surroundings(t, c));
    AppendPage(cur.children[c], cur.children[c + 1], rightRootKey, order, p);
    DeleteFromPageAtIndex(c, cur, order);
    assert SurroundingsHold(t, c, order);
    PutMergedOwn(t, c, order);
    Merged(t, c, order);
  }

  lemma PutMergedOwn(t: Tree, c: int, order: nat)
    requires Adjacent(t, c)
    requires t.page.Buffers(order) && t.page.size == |t.keys| - 1 && !t.page.isLeaf
    requires forall i :: 0 <= i < |t.keys| - 1 ==> t.page.keys[i] == t.keys[if i < c then i else i + 1]
    requires forall i :: 0 <= i < |t.keys| ==> t.page.children[i] == t.kids[if i <= c then i else i + 1].page
    ensures Own(PutMerged(t, c, Merge(PairAt(t, c))), order)
  {
  }

  lemma Merged(t: Tree, c: int, order: nat)
    requires Adjacent(t, c) && SurroundingsHold(t, c, order)
    requires var m := Merge(PairAt(t, c)); Own(PutMerged(t, c, m), order) && Own(m, order)
    ensures Holds(PutMerged(t, c, Merge(PairAt(t, c))), order)
  {
    var m := Merge(PairAt(t, c));
    if m.Node? {
      AllHoldConcat(t.kids[c].kids, t.kids[c + 1].kids, order);
    }
    AllHoldConcat(t.kids[..c] + [m], t.kids[c + 2..], order);
    AllHoldConcat(t.kids[..c], [m], order);
    AllHoldOne(m, order);
  }

  /** What can be read off the pages of a node's children. */
  lemma KidsInMemory(t: Tree, order: nat, b: int)
    requires t.Node? && Holds(t, order) && 0 <= b < |t.kids|
    ensures Own(t, order)
    ensures forall i :: 0 <= i < |t.kids| ==>
      t.page.children[i] == t.kids[i].page && t.kids[i].page in Pages(t) && Own(t.kids[i], order)
  {
    KidPages(t);
    forall i | 0 <= i < |t.kids| ensures t.kids[i].page in Pages(t) && Own(t.kids[i], order) {
      assert t.kids[i].page in Pages(t.kids[i]);
      assert Holds(t.kids[i], order);
    }
  }

  /** The least key of a node stands first in its leftmost leaf. */
  lemma LeastInLeaf(t: Tree, h: nat, order: nat)
    requires order >= 4 && t.Node? && h > 0 && |t.kids| > 0 && Holds(t, order)
    requires Shape(t.kids[0], h - 1, order) && 0 < Count(t.kids[0]) && t.kids[0].Leaf?
    ensures t.kids[0].page.Buffers(order) && order > 0
    ensures Flat(t) != [] && t.kids[0].page.keys[0] == Flat(t)[0].key
  {
    FirstKid(t, h, order);
    KidsInMemory(t, order, 0);
  }

  // ----------------------------------------------------------------------------------------------
  // One child and what is beside it
  // ----------------------------------------------------------------------------------------------

  ghost function Beside(t: Tree, b: int): set<Page>
    requires t.Node? && 0 <= b < |t.kids|
  {
    PagesOf(t.kids[..b]) + PagesOf(t.kids[b + 1..])
  }

  ghost predicate BesideHold(t: Tree, b: int, order: nat)
    requires t.Node? && 0 <= b < |t.kids|
    reads Beside(t, b)`isLeaf, Beside(t, b)`size, Beside(t, b)`keys, Beside(t, b)`data, Beside(t, b)`children
  {
    AllHold(t.kids[..b], order) && AllHold(t.kids[b + 1..], order)
  }

  lemma KidApart(t: Tree, b: int)
    requires t.Node? && 0 <= b < |t.kids| && Separate(t)
    ensures t.page !in Beside(t, b) && t.page !in Pages(t.kids[b]) && Pages(t.kids[b]) !! Beside(t, b)
    ensures Pages(t.kids[b]) <= Pages(t) && Beside(t, b) <= Pages(t) && Separate(t.kids[b])
  {
    var a, c := t.kids[..b], t.kids[b + 1..];
    assert t.kids == a + [t.kids[b]] + c;
    OneApart(a, t.kids[b], c);
  }

  lemma OneApart(a: seq<Tree>, k: Tree, c: seq<Tree>)
    requires AllSeparate(a + [k] + c)
    ensures PagesOf(a + [k] + c) == PagesOf(a) + Pages(k) + PagesOf(c)
    ensures Pages(k) !! PagesOf(a) && Pages(k) !! PagesOf(c) && Separate(k)
  {
    hide *;
    PagesConcat(a + [k], c);
    PagesConcat(a, [k]);
    SeparateConcat(a + [k], c);
    SeparateConcat(a, [k]);
    PagesOne(k);
  }

  lemma KidLoaded(t: Tree, b: int, order: nat)
    requires t.Node? && 0 <= b < |t.kids| && Holds(t, order)
    ensures Own(t, order) && Holds(t.kids[b], order) && BesideHold(t, b, order)
    ensures t.page.children[b] == t.kids[b].page
  {
    assert t.kids == t.kids[..b] + [t.kids[b]] + t.kids[b + 1..];
    AllHoldConcat(t.kids[..b] + [t.kids[b]], t.kids[b + 1..], order);
    AllHoldConcat(t.kids[..b], [t.kids[b]], order);
    AllHoldOne(t.kids[b], order);
  }

  lemma KidUntouched(t: Tree, b: int, order: nat)
    requires t.Node? && 0 <= b < |t.kids| && Own(t, order)
    requires Holds(t.kids[b], order) && BesideHold(t, b, order)
    ensures Holds(t, order)
  {
    assert t.kids == t.kids[..b] + [t.kids[b]] + t.kids[b + 1..];
    AllHoldConcat(t.kids[..b] + [t.kids[b]], t.kids[b + 1..], order);
    AllHoldConcat(t.kids[..b], [t.kids[b]], order);
    AllHoldOne(t.kids[b], order);
  }

  lemma KidStored(t: Tree, b: int, kid: Tree, least: int, order: nat)
    requires t.Node? && 0 <= b < |t.kids| == |t.keys| + 1 && kid.page == t.kids[b].page
    requires t.page.Buffers(order) && t.page.size == |t.keys| && !t.page.isLeaf
    requires forall i :: 0 <= i < |t.keys| ==> t.page.keys[i] == if i == b - 1 then least else t.keys[i]
    requires forall i :: 0 <= i <= |t.keys| ==> t.page.children[i] == t.kids[i].page
    requires Holds(kid, order) && BesideHold(t, b, order)
    ensures Holds(PutKid(t, b, kid, least), order)
  {
    hide AllHold;
    AllHoldConcat(t.kids[..b] + [kid], t.kids[b + 1..], order);
    AllHoldConcat(t.kids[..b], [kid], order);
    AllHoldOne(kid, order);
  }

  // ----------------------------------------------------------------------------------------------
  // Reading the leaves in order
  // ----------------------------------------------------------------------------------------------

  ghost function Members(chain: seq<Page>): set<Page> {
    set p | p in chain
  }

  /** The bindings stored in one leaf page. */
  ghost function PageEntries(p: Page): seq<Entry>
    reads p`size, p`keys, p`data
  {
    Zip(p.keys, p.data, p.size)
  }

  ghost function Zip(keys: seq<int>, data: seq<int>, n: int): seq<Entry> {
    if 0 <= n <= |keys| && n <= |data| then seq(n, i requires 0 <= i < n => Entry(keys[i], data[i])) else []
  }

  /** The bindings stored in a run of leaf pages. */
  ghost function ChainListing(ps: seq<Page>): seq<Entry>
    reads Members(ps)`size, Members(ps)`keys, Members(ps)`data
  {
    if ps == [] then [] else PageEntries(ps[0]) + ChainListing(ps[1..])
  }

  lemma {:induction false} ChainListingConcat(a: seq<Page>, b: seq<Page>)
    ensures ChainListing(a + b) == ChainListing(a) + ChainListing(b)
  {
    if a == [] {
      assert a + b == b;
    } else {
      assert (a + b)[1..] == a[1..] + b;
      ChainListingConcat(a[1..], b);
    }
  }

  /** The leaf pages of a tree store its bindings. */
  lemma {:induction false} LeavesStoreListing(t: Tree, order: nat)
    requires Holds(t, order)
    ensures ChainListing(LeafPages(t)) == Flat(t)
    ensures forall p :: p in LeafPages(t) ==> p.Buffers(order)
    decreases t, 1
  {
    match t
    case Leaf(p, es) =>
      assert PageEntries(p) == es;
      assert [p][1..] == [];
    case Node(_, _, kids) =>
      LeafSeqStoresListing(kids, order);
  }

  lemma {:induction false} LeafSeqStoresListing(ts: seq<Tree>, order: nat)
    requires AllHold(ts, order)
    ensures ChainListing(LeafSeq(ts)) == FlatSeq(ts)
    ensures forall p :: p in LeafSeq(ts) ==> p.Buffers(order)
    decreases ts, 0
  {
    if ts != [] {
      LeavesStoreListing(ts[0], order);
      LeafSeqStoresListing(ts[1..], order);
      ChainListingConcat(LeafPages(ts[0]), LeafSeq(ts[1..]));
    }
  }
}
