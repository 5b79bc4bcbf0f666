/** InsertIntoNode (DS_BPlusTree.h:516-654) inside one page and its new right neighbour. */
module BPlusSplit {
  import opened BPlusPage
  import opened BPlusListing
  import opened BPlusShape
  import opened BPlusNode
  import opened BPlusStore
  import opened BPlusGrow

  /** The page holds `v` except for the entry at `index` (and the child to the right of that key). */
  ghost predicate Missing(v: Tree, index: int, order: nat)
    reads v.page`isLeaf, v.page`size, v.page`keys, v.page`data, v.page`children
  {
    var p := v.page;
    && p.Buffers(order) && 0 <= index < Count(v) && p.size == Count(v) - 1 && p.isLeaf == v.Leaf?
    && if v.Leaf? then LeafLacks(v.entries, index, p.keys, p.data)
       else NodeLacks(v.keys, v.kids, index, p.keys, p.children)
  }

  ghost predicate LeafLacks(es: seq<Entry>, index: int, keys: seq<int>, data: seq<int>) {
    && 0 <= index < |es| <= |keys| + 1 && |es| <= |data| + 1
    && forall i :: 0 <= i < |es| - 1 ==>
         var e := es[if i < index then i else i + 1]; keys[i] == e.key && data[i] == e.data
  }

  ghost predicate NodeLacks(ks: seq<int>, kids: seq<Tree>, index: int, keys: seq<int>, children: seq<Page?>) {
    && 0 <= index < |ks| <= |keys| + 1 && |kids| == |ks| + 1 <= |children| + 1
    && (forall i :: 0 <= i < |ks| - 1 ==> keys[i] == ks[if i < index then i else i + 1])
    && (forall i :: 0 <= i < |ks| ==> children[i] == kids[if i <= index then i else i + 1].page)
  }

  /** The page holds `t` but its `size` says `n`. */
  ghost predicate OwnSized(t: Tree, n: int, order: nat)
    requires t.Node?
    reads t.page`isLeaf, t.page`size, t.page`keys, t.page`data, t.page`children
  {
    var p := t.page;
    && p.Buffers(order) && p.size == n && !p.isLeaf
    && |t.keys| <= order && |t.kids| == |t.keys| + 1
    && (forall i :: 0 <= i < |t.keys| ==> p.keys[i] == t.keys[i])
    && (forall i :: 0 <= i < |t.kids| ==> p.children[i] == t.kids[i].page)
  }

  /** The entry of `v` at `index` is what the caller wants to insert. */
  ghost predicate Wanted(v: Tree, index: int, key: int, leafData: int, nodeData: Page?) {
    && 0 <= index < Count(v)
    && match v
       case Leaf(_, es) => es[index] == Entry(key, leafData)
       case Node(_, keys, kids) => |kids| == |keys| + 1 && keys[index] == key && nodeData == kids[index + 1].page
  }

  /** `s` with `x` put in at `at`, what was there up to `end` moved up by one. */
  ghost predicate Widened<T>(r: seq<T>, s: seq<T>, at: int, end: int, x: T) {
    && 0 <= at <= end < |s| == |r| && r[at] == x
    && (forall j :: at < j <= end ==> r[j] == s[j - 1])
    && (forall j :: 0 <= j < at ==> r[j] == s[j])
  }

  lemma MissingRoom(v: Tree, index: int, order: nat)
    requires Missing(v, index, order)
    ensures v.page.Buffers(order) && 0 <= index <= v.page.size == Count(v) - 1 && v.page.isLeaf == v.Leaf?
    ensures if v.Leaf? then LeafLacks(v.entries, index, v.page.keys, v.page.data)
            else NodeLacks(v.keys, v.kids, index, v.page.keys, v.page.children)
  {
  }

  lemma LeafWidened(v: Tree, index: int, order: nat, key: int, leafData: int, keys: seq<int>, data: seq<int>)
    requires v.Leaf? && LeafLacks(v.entries, index, keys, data) && Count(v) <= order
    requires Wanted(v, index, key, leafData, null)
    requires v.page.Buffers(order) && v.page.isLeaf && v.page.size == Count(v)
    requires Widened(v.page.keys, keys, index, Count(v) - 1, key)
    requires Widened(v.page.data, data, index, Count(v) - 1, leafData)
    ensures Own(v, order)
  {
  }

  lemma NodeWidened(v: Tree, index: int, order: nat, key: int, nodeData: Page?, keys: seq<int>, children: seq<Page?>)
    requires v.Node? && NodeLacks(v.keys, v.kids, index, keys, children) && Count(v) <= order
    requires Wanted(v, index, key, 0, nodeData)
    requires v.page.Buffers(order) && !v.page.isLeaf && v.page.size == Count(v)
    requires Widened(v.page.keys, keys, index, Count(v) - 1, key)
    requires Widened(v.page.children, children, index + 1, Count(v), nodeData)
    ensures Own(v, order)
  {
  }

  lemma AnyData(v: Tree, index: int, key: int, leafData: int, nodeData: Page?)
    requires Wanted(v, index, key, leafData, nodeData)
    ensures if v.Leaf? then Wanted(v, index, key, leafData, null) else Wanted(v, index, key, 0, nodeData)
  {
  }

  /** DS_BPlusTree.h:520-541 */
  method InsertWithRoom(key: int, leafData: int, insertionIndex: int, nodeData: Page?, cur: Page, order: nat,
                        ghost v: Tree)
    requires cur == v.page && Missing(v, insertionIndex, order) && Count(v) <= order
    requires Wanted(v, insertionIndex, key, leafData, nodeData)
    modifies cur`keys, cur`data, cur`children, cur`size
    ensures Own(v, order)
  {
    hide Missing, Wanted, Own, LeafLacks, NodeLacks;
    MissingRoom(v, insertionIndex, order);
    ghost var keys, data, children := cur.keys, cur.data, cur.children;
    AnyData(v, insertionIndex, key, leafData, nodeData);
    cur.keys := ShiftUp(cur.keys, insertionIndex, cur.size);
    if cur.isLeaf {
      cur.data := ShiftUp(cur.data, insertionIndex, cur.size);
    } else {
      cur.children := ShiftUp(cur.children, insertionIndex + 1, cur.size + 1);
    }
    cur.keys := cur.keys[insertionIndex := key];
    assert Widened(cur.keys, keys, insertionIndex, cur.size, key);
    if cur.isLeaf {
      cur.data := cur.data[insertionIndex := leafData];
    } else {
      cur.children := cur.children[insertionIndex + 1 := nodeData];
    }
    cur.size := cur.size + 1;
    if cur.isLeaf {
      LeafWidened(v, insertionIndex, order, key, leafData, keys, data);
    } else {
      NodeWidened(v, insertionIndex, order, key, nodeData, keys, children);
    }
  }

  /** Keys of a page that are in increasing order with the new one at `index`. */
  ghost predicate InOrder(v: Tree) {
    match v
    case Leaf(_, es) => Sorted(es)
    case Node(_, keys, _) => Increasing(keys)
  }

  /** There is one index at which a key can be put into a list. */
  lemma OneIndex(ks: seq<int>, key: int, i: nat, j: nat)
    requires i <= |ks| && j <= |ks|
    requires forall k :: 0 <= k < |ks| ==> if k < i then ks[k] < key else key < ks[k]
    requires forall k :: 0 <= k < |ks| ==> if k < j then ks[k] < key else key < ks[k]
    ensures i == j
  {
    assert i < |ks| ==> key < ks[i];
    assert j < |ks| ==> key < ks[j];
  }

  /** The rest of a split whose new entry goes to the left half (DS_BPlusTree.h:637-645). The search
      never finds the key there, and finds the same index as before the split. */
  method InsertIntoLeftHalf(key: int, leafData: int, insertionIndex: int, nodeData: Page?, cur: Page, order: nat,
                            ghost l: Tree)
    requires cur == l.page && Missing(l, insertionIndex, order) && Count(l) <= order
    requires Wanted(l, insertionIndex, key, leafData, nodeData) && InOrder(l)
    modifies cur`keys, cur`data, cur`children, cur`size
    ensures Own(l, order)
  {
    var index := 0;
    if cur.size != 0 {
      ghost var rest := cur.keys[..cur.size];
      assert Increasing(rest);
      var b;
      b, index := GetIndexOf(key, cur);
      assert !b;
      OneIndex(rest, key, index, insertionIndex);
    }
    InsertWithRoom(key, leafData, index, nodeData, cur, order, l);
  }

  /** Moves the upper entries of a full leaf, with the new one among them, to `newPage`
      (DS_BPlusTree.h:557-585, 609). */
  method SplitLeafHigh(key: int, leafData: int, insertionIndex: int, cur: Page, newPage: Page, order: nat,
                       ghost v: Tree)
    requires order >= 4 && v.Leaf? && cur == v.page && Missing(v, insertionIndex, order) && Count(v) == order + 1
    requires Wanted(v, insertionIndex, key, leafData, null) && (order + 1) / 2 <= insertionIndex
    requires newPage != cur && newPage.Buffers(order) && newPage.isLeaf
    modifies cur`size, newPage`keys, newPage`data, newPage`size
    ensures var q := Split(v, order / 2, newPage); Own(q.left, order) && Own(q.right, order)
  {
    var destIndex;
    ghost var keys := seq(order + 1, i requires 0 <= i <= order => v.entries[i].key);
    ghost var data := seq(order + 1, i requires 0 <= i <= order => v.entries[i].data);
    newPage.keys, destIndex := SpreadRun(newPage.keys, cur.keys, order / 2, insertionIndex, key, order, keys);
    newPage.data, destIndex := SpreadRun(newPage.data, cur.data, order / 2, insertionIndex, leafData, order, data);
    cur.size := order / 2;
    newPage.size := destIndex;
  }

  /** Moves the upper entries of a full leaf to `newPage` when the new one stays behind
      (DS_BPlusTree.h:613-623, 636). */
  method SplitLeafLow(insertionIndex: int, cur: Page, newPage: Page, order: nat, ghost v: Tree)
    requires order >= 4 && v.Leaf? && cur == v.page && Missing(v, insertionIndex, order) && Count(v) == order + 1
    requires insertionIndex < (order + 1) / 2
    requires newPage != cur && newPage.Buffers(order) && newPage.isLeaf
    modifies cur`size, newPage`keys, newPage`data, newPage`size
    ensures var q := Split(v, (order + 1) / 2, newPage); Missing(q.left, insertionIndex, order) && Own(q.right, order)
  {
    var destIndex;
    newPage.keys, destIndex := CopyRun(newPage.keys, 0, cur.keys, (order + 1) / 2 - 1, order);
    newPage.data, destIndex := CopyRun(newPage.data, 0, cur.data, (order + 1) / 2 - 1, order);
    cur.size := (order + 1) / 2 - 1;
    newPage.size := destIndex;
  }

  /** The key loops of a splitting index node: the moved keys without the first of them. */
  method MoveKeys(dest: seq<int>, source: seq<int>, from: int, at: int, x: int, to: int, ghost whole: seq<int>)
    returns (r: seq<int>, first: int)
    requires 0 <= from <= at <= to <= |source| && to - from < |dest| && |whole| == to + 1
    requires forall i :: 0 <= i <= to ==> whole[i] == if i == at then x else source[if i < at then i else i - 1]
    ensures |r| == |dest| && first == whole[from]
    ensures forall j :: 0 <= j < to - from ==> r[j] == whole[from + 1 + j]
  {
    var end;
    r, end := SpreadRun(dest, source, from, at, x, to, whole);
    first := r[0];
    r := ShiftDown(r, 0, end - 1);
  }

  lemma RightOwned(v: Tree, n: nat, p: Page, order: nat)
    requires v.Node? && |v.kids| == |v.keys| + 1 && 0 < n < |v.keys| <= n + 1 + order
    requires p.Buffers(order) && p.size == |v.keys| - n && !p.isLeaf
    requires forall j :: 0 <= j < |v.keys| - n - 1 ==> p.keys[j] == v.keys[n + 1 + j]
    requires forall j :: 0 <= j < |v.keys| - n ==> p.children[j] == v.kids[n + 1 + j].page
    ensures OwnSized(Split(v, n, p).right, |v.keys| - n, order)
  {
  }

  lemma LeftOwned(v: Tree, n: nat, p: Page, order: nat)
    requires v.Node? && |v.kids| == |v.keys| + 1 && 0 < n < |v.keys|
    requires v.page.Buffers(order) && v.page.size == n && !v.page.isLeaf
    requires forall j :: 0 <= j < n ==> v.page.keys[j] == v.keys[j]
    requires forall j :: 0 <= j <= n ==> v.page.children[j] == v.kids[j].page
    ensures Own(Split(v, n, p).left, order)
  {
  }

  lemma SplitNode(v: Tree, n: nat, p: Page)
    requires v.Node? && |v.kids| == |v.keys| + 1 && 0 < n < |v.keys|
    ensures var q := Split(v, n, p);
            q.right.Node? && q.separator == v.keys[n] && Count(q.right) == |v.keys| - n - 1 && q.left.page == v.page
  {
  }

  lemma MissingKeys(v: Tree, index: int, order: nat)
    requires v.Node? && Missing(v, index, order)
    ensures |v.kids| == |v.keys| + 1
    ensures forall i :: 0 <= i <= v.page.size && i != index ==>
              v.keys[i] == v.page.keys[if i < index then i else i - 1]
  {
    forall i | 0 <= i <= v.page.size && i != index
      ensures v.keys[i] == v.page.keys[if i < index then i else i - 1]
    {
      var j := if i < index then i else i - 1;
      assert v.page.keys[j] == v.keys[if j < index then j else j + 1];
    }
  }

  /** What stays behind in the page still lacks the new entry. */
  lemma StaysBehind(v: Tree, index: int, order: nat, n: nat, p: Page)
    requires v.Node? && NodeLacks(v.keys, v.kids, index, v.page.keys, v.page.children) && index < n < Count(v)
    requires v.page.Buffers(order) && v.page.size == n - 1 && !v.page.isLeaf
    ensures Missing(Split(v, n, p).left, index, order)
  {
  }

  /** The same for an index node; the first key that was moved is handed back and removed from
      `newPage`, whose `size` still counts it (DS_BPlusTree.h:557-570, 589-609, 648). */
  method SplitNodeHigh(key: int, insertionIndex: int, nodeData: Page, cur: Page, newPage: Page, order: nat,
                       ghost v: Tree)
    returns (pushed: int)
    requires order >= 4 && v.Node? && cur == v.page && Missing(v, insertionIndex, order) && Count(v) == order + 1
    requires Wanted(v, insertionIndex, key, 0, nodeData) && (order + 1) / 2 <= insertionIndex
    requires newPage != cur && newPage.Buffers(order) && !newPage.isLeaf
    modifies cur`size, newPage`keys, newPage`children, newPage`size
    ensures var q := Split(v, order / 2, newPage);
      Own(q.left, order) && OwnSized(q.right, Count(q.right) + 1, order) && pushed == q.separator
  {
    hide Own, OwnSized, Missing, Wanted, Split, NodeLacks;
    MissingRoom(v, insertionIndex, order);
    MissingKeys(v, insertionIndex, order);
    WantedKey(v, insertionIndex, key, nodeData);
    var destIndex;
    var half := order / 2;
    SplitNode(v, half, newPage);
    newPage.keys, pushed := MoveKeys(newPage.keys, cur.keys, half, insertionIndex, key, order, v.keys);
    newPage.children, destIndex := MoveChildren(newPage.children, half, insertionIndex, nodeData, cur, order, v);
    cur.size := half;
    newPage.size := destIndex;
    StoredBefore(v, insertionIndex, order, half);
    LeftOwned(v, half, newPage, order);
    RightOwned(v, half, newPage, order);
  }

  lemma WantedKey(v: Tree, index: int, key: int, nodeData: Page?)
    requires v.Node? && Wanted(v, index, key, 0, nodeData)
    ensures 0 <= index < |v.keys| && v.keys[index] == key
    ensures |v.kids| == |v.keys| + 1 && nodeData == v.kids[index + 1].page
  {
  }

  /** What stands before the new entry is in its place. */
  lemma StoredBefore(v: Tree, index: int, order: nat, n: nat)
    requires v.Node? && NodeLacks(v.keys, v.kids, index, v.page.keys, v.page.children) && n <= index
    ensures n < |v.keys| && n < |v.kids| && n <= |v.page.keys| && n < |v.page.children|
    ensures forall j :: 0 <= j < n ==> v.page.keys[j] == v.keys[j]
    ensures forall j :: 0 <= j <= n ==> v.page.children[j] == v.kids[j].page
  {
  }

  /** The child loops of a splitting index node (DS_BPlusTree.h:589-600). */
  method MoveChildren(dest: seq<Page?>, half: int, insertionIndex: int, nodeData: Page, cur: Page, order: nat,
                      ghost v: Tree)
    returns (r: seq<Page?>, end: int)
    requires v.Node? && cur == v.page && Missing(v, insertionIndex, order) && Count(v) == order + 1
    requires |v.kids| == order + 2 && nodeData == v.kids[insertionIndex + 1].page
    requires 0 <= half <= insertionIndex && order + 1 - half <= |dest|
    ensures |r| == |dest| && end == order + 1 - half
    ensures forall j :: 0 <= j < end ==> r[j] == v.kids[half + 1 + j].page
  {
    ghost var pages: seq<Page?> := seq(|v.kids|, i requires 0 <= i < |v.kids| => v.kids[i].page);
    r, end := SpreadRun(dest, cur.children, half + 1, insertionIndex + 1, nodeData, cur.size + 1, pages);
  }

  /** The key loops when the new entry stays behind (DS_BPlusTree.h:613-616, 632-634). */
  method MoveUpperKeys(dest: seq<int>, source: seq<int>, from: int, to: int) returns (r: seq<int>, first: int)
    requires 0 <= from < to <= |source| && to - from < |dest|
    ensures |r| == |dest| && first == source[from]
    ensures forall j :: 0 <= j < to - from - 1 ==> r[j] == source[from + 1 + j]
  {
    var end;
    r, end := CopyRun(dest, 0, source, from, to);
    first := r[0];
    r := ShiftDown(r, 0, end - 1);
  }

  method SplitNodeLow(insertionIndex: int, cur: Page, newPage: Page, order: nat, ghost v: Tree)
    returns (pushed: int)
    requires order >= 4 && v.Node? && cur == v.page && Missing(v, insertionIndex, order) && Count(v) == order + 1
    requires insertionIndex < (order + 1) / 2
    requires newPage != cur && newPage.Buffers(order) && !newPage.isLeaf
    modifies cur`size, newPage`keys, newPage`children, newPage`size
    ensures var q := Split(v, (order + 1) / 2, newPage);
      Missing(q.left, insertionIndex, order) && OwnSized(q.right, Count(q.right) + 1, order) && pushed == q.separator
  {
    hide OwnSized, Missing, Split, NodeLacks;
    MissingRoom(v, insertionIndex, order);
    StoredBehind(v, insertionIndex, order);
    SplitNode(v, (order + 1) / 2, newPage);
    var destIndex;
    newPage.keys, pushed := MoveUpperKeys(newPage.keys, cur.keys, (order + 1) / 2 - 1, order);
    newPage.children, destIndex := CopyRun(newPage.children, 0, cur.children, (order + 1) / 2, order + 1);
    cur.size := (order + 1) / 2 - 1;
    newPage.size := destIndex;
    StaysBehind(v, insertionIndex, order, (order + 1) / 2, newPage);
    RightOwned(v, (order + 1) / 2, newPage, order);
  }

  /** What stands behind the new entry is one place too low. */
  lemma StoredBehind(v: Tree, index: int, order: nat)
    requires v.Node? && Missing(v, index, order)
    ensures |v.kids| == |v.keys| + 1
    ensures forall i :: index <= i < v.page.size ==> v.page.keys[i] == v.keys[i + 1]
    ensures forall i :: index < i <= v.page.size ==> v.page.children[i] == v.kids[i + 1].page
  {
  }

  /** Splits a full page (DS_BPlusTree.h:544-650). The key that the left half no longer has and the
      right half does not need is handed back when an index node splits. */
  method SplitPage(key: int, leafData: int, insertionIndex: int, nodeData: Page?, cur: Page, order: nat, ghost v: Tree)
    returns (newPage: Page, pushed: int)
    requires order >= 4 && cur == v.page && Missing(v, insertionIndex, order) && Count(v) == order + 1
    requires Wanted(v, insertionIndex, key, leafData, nodeData) && InOrder(v)
    modifies cur`keys, cur`data, cur`children, cur`size
    ensures fresh(newPage)
    ensures var q := Split(v, LeftCount(order, insertionIndex), newPage);
      && Own(q.left, order)
      && if v.Leaf? then Own(q.right, order) else OwnSized(q.right, Count(q.right) + 1, order) && pushed == q.separator
    ensures cur.size == if insertionIndex >= (order + 1) / 2 then order / 2 else (order + 1) / 2
  {
    newPage := new Page(order);
    newPage.isLeaf := cur.isLeaf;
    pushed := 0;
    if insertionIndex >= (order + 1) / 2 {
      if cur.isLeaf {
        SplitLeafHigh(key, leafData, insertionIndex, cur, newPage, order, v);
      } else {
        pushed := SplitNodeHigh(key, insertionIndex, nodeData, cur, newPage, order, v);
      }
    } else {
      if cur.isLeaf {
        SplitLeafLow(insertionIndex, cur, newPage, order, v);
      } else {
        pushed := SplitNodeLow(insertionIndex, cur, newPage, order, v);
      }
      InsertIntoLeftHalf(key, leafData, insertionIndex, nodeData, cur, order, Split(v, (order + 1) / 2, newPage).left);
    }
  }

  /** The pages of `g` are in memory; the page of a new index node still counts the key that was
      handed back. */
  ghost predicate Stored(g: Grown, order: nat)
    reads AllPages(g)`isLeaf, AllPages(g)`size, AllPages(g)`keys, AllPages(g)`data, AllPages(g)`children
  {
    match g
    case One(u) => Holds(u, order)
    case Two(q) =>
      && Holds(q.left, order)
      && if q.right.Leaf? then Holds(q.right, order)
         else OwnSized(q.right, Count(q.right) + 1, order) && AllHold(q.right.kids, order)
  }

  /** What child `b` of `t` became shares no page with the rest of `t`; its new pages are `extra`. */
  ghost predicate GrewApartFrom(t: Tree, b: int, k: Grown, extra: set<Page>)
    requires t.Node? && 0 <= b < |t.kids|
  {
    && AllPages(k) <= Pages(t.kids[b]) + extra && extra !! Pages(t)
    && t.page !in AllPages(k) && AllPages(k) !! Beside(t, b) && t.page !in Beside(t, b)
  }

  /** A leaf page lacks the new binding; a node's page lacks the new separator and child. */
  lemma LeafMissing(t: Tree, order: nat, i: nat, e: Entry)
    requires t.Leaf? && Own(t, order) && i <= |t.entries|
    ensures Missing(GrowLeaf(t, i, e), i, order) && Wanted(GrowLeaf(t, i, e), i, e.key, e.data, null)
  {
  }

  lemma NodeMissing(t: Tree, order: nat, b: nat, q: Pair)
    requires t.Node? && Own(t, order) && b < |t.kids| && q.left.page == t.kids[b].page
    ensures |t.kids| == |t.keys| + 1
    ensures Missing(GrowNode(t, b, q), b, order) && Wanted(GrowNode(t, b, q), b, q.separator, 0, q.right.page)
  {
  }

  lemma SplitKidsHeld(v: Tree, n: nat, p: Page, order: nat)
    requires v.Node? && |v.kids| == |v.keys| + 1 && 0 < n < |v.keys| && AllHold(v.kids, order)
    ensures var q := Split(v, n, p); AllHold(q.left.kids, order) && AllHold(q.right.kids, order)
  {
    assert v.kids == v.kids[..n + 1] + v.kids[n + 1..];
    AllHoldConcat(v.kids[..n + 1], v.kids[n + 1..], order);
  }

  lemma SwollenInOrder(v: Tree, h: nat, order: nat)
    requires order >= 4 && Swollen(v, h, order)
    ensures InOrder(v)
  {
    if v.Node? {
      forall i, j | 0 <= i < j < |v.keys| ensures v.keys[i] < v.keys[j] {
        assert LeastIs(v.kids[i + 1], v.keys[i]) && LeastIs(v.kids[j + 1], v.keys[j]);
        SeparatorsOrdered(v.kids, i + 1, j + 1);
      }
    }
  }
}
