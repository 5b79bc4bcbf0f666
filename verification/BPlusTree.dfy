/** The B+ tree of DS_BPlusTree.h. */
module BPlusTree {
  import opened Collections
  import opened Powers
  import opened BPlusPage
  import opened BPlusListing
  import opened BPlusShape
  import opened BPlusNode
  import opened BPlusStore
  import opened BPlusGrow
  import opened BPlusSplit
  import opened BPlusSlip
  import opened BPlusRotate

  /** What a recursive call asks its caller to do (DS_BPlusTree.h:75-86). */
  datatype Action = NO_ACTION | REPLACE_KEY1_WITH_KEY2 | PUSH_KEY_TO_PARENT | SET_BRANCH_KEY
  datatype ReturnAction = ReturnAction(action: Action, key1: int, key2: int)

  /** `chain` is a doubly linked list without repetitions. */
  ghost predicate Linked(chain: seq<Page>)
    reads Members(chain)`next, Members(chain)`previous
  {
    Distinct(chain) && forall k :: 0 <= k < |chain| ==> LinkedAt(chain, k)
  }

  /** What is below the root: nothing, or a tree of some depth. */
  datatype Snapshot = Nothing | Whole(tree: Tree, height: nat)

  class BPlusTree {
    const order: nat
    var root: Page?
    var leftmostLeaf: Page?
    /** The tree below `root`. */
    ghost var shape: Snapshot
    /** The leaves in key order. */
    ghost var chain: seq<Page>

    constructor (order: nat)
      requires order > 1
      ensures this.order == order && Contents() == map[] && Footprint() == {}
      ensures Valid() <==> order >= 4
    {
      this.order := order;
      root := null;
      leftmostLeaf := null;
      shape := Nothing;
      chain := [];
    }

    /** The leaf chain is linked and starts at `leftmostLeaf`. */
    ghost predicate ChainValid()
      reads this`chain, this`leftmostLeaf, Members(chain)`next, Members(chain)`previous
    {
      Linked(chain) && leftmostLeaf == if chain == [] then null else chain[0]
    }

    /** Takes a leaf out of the chain (DS_BPlusTree.h:460-469). */
    method UnlinkLeaf(source: Page, ghost i: nat)
      requires ChainValid() && i < |chain| && chain[i] == source
      modifies this`chain, this`leftmostLeaf, Members(chain)`next, Members(chain)`previous
      ensures Members(chain) <= old(Members(chain))
      ensures ChainValid() && chain == old(chain[..i] + chain[i + 1..])
    {
      ghost var was := chain;
      assert LinkedAt(was, i) && (i > 0 ==> LinkedAt(was, i - 1)) && (i + 1 < |was| ==> LinkedAt(was, i + 1));
      if source == leftmostLeaf {
        leftmostLeaf := source.next;
      }
      if source.previous != null {
        source.previous.next := source.next;
      }
      if source.next != null {
        source.next.previous := source.previous;
      }
      chain := was[..i] + was[i + 1..];
      forall k | 0 <= k < |was| && k != i && k != i - 1 && k != i + 1 ensures LinkedAt(was, k) {
        assert old(LinkedAt(was, k));
      }
      LinkedWithout(was, i);
    }

    /** Puts a new leaf behind `cur` (DS_BPlusTree.h:546-553). */
    method LinkAfter(cur: Page, newPage: Page, ghost i: nat)
      requires ChainValid() && i < |chain| && chain[i] == cur && newPage !in chain
      modifies this`chain, newPage`next, newPage`previous, Members(chain)`next, Members(chain)`previous
      ensures ChainValid() && chain == old(chain[..i + 1] + [newPage] + chain[i + 1..])
    {
      ghost var was := chain;
      assert LinkedAt(was, i) && (i + 1 < |was| ==> LinkedAt(was, i + 1));
      newPage.next := cur.next;
      if cur.next != null {
        cur.next.previous := newPage;
      }
      newPage.previous := cur;
      cur.next := newPage;
      chain := was[..i + 1] + [newPage] + was[i + 1..];
      forall k | 0 <= k < |was| && k != i && k != i + 1 ensures LinkedAt(was, k) {
        assert old(LinkedAt(was, k));
      }
      LinkedWith(was, i, newPage);
    }

    /** Merges children `c` and `c + 1` and drops the key between them (DS_BPlusTree.h:413-452). */
    method JoinPages(branchIndex: int, c: int, cur: Page, rightRootKey: int, ghost t: Tree, ghost h: nat)
      returns (ghost u: Tree)
      requires order >= 4 && ShortAt(t, h, order, branchIndex) && Holds(t, order) && cur == t.page
      requires 0 <= c < |t.keys| && c <= branchIndex <= c + 1
      requires Count(t.kids[c]) <= order / 2 && Count(t.kids[c + 1]) <= order / 2
      requires t.kids[c].Node? ==> rightRootKey == t.keys[c]
      modifies Pages(t)`keys, Pages(t)`data, Pages(t)`children, Pages(t)`size
      ensures Repaired(t, u, h, order) && Holds(u, order) && |u.keys| == |t.keys| - 1
      ensures u.kids[c].page == t.kids[c].page && u.kids[c].Leaf? == t.kids[c].Leaf?
      ensures LeafPages(u) == if t.kids[c].Node? then LeafPages(t)
                              else LeafSeq(t.kids[..c]) + [t.kids[c].page] + LeafSeq(t.kids[c + 2..])
      ensures t.kids[c].Leaf? ==>
        LeafPages(t) == LeafSeq(t.kids[..c]) + [t.kids[c].page, t.kids[c + 1].page] + LeafSeq(t.kids[c + 2..])
    {
      KidsInMemory(t, order, c);
      MergeRepairs(t, h, order, branchIndex, c);
      MergeInto(cur, c, rightRootKey, order, t);
      u := PutMerged(t, c, Merge(PairAt(t, c)));
    }

    /** The last case of FixUnderflow: no neighbour has an entry to spare (DS_BPlusTree.h:391-477). */
    method MergeBranches(branchIndex: int, cur: Page, rightRootKey: int, asked: ReturnAction,
                         ghost t: Tree, ghost h: nat, ghost pre: seq<Page>, ghost post: seq<Page>)
      returns (underflow: bool, returnAction: ReturnAction, ghost u: Tree)
      requires order >= 4 && ShortAt(t, h, order, branchIndex) && |t.keys| > 0
      requires branchIndex > 0 ==> Count(t.kids[branchIndex - 1]) <= order / 2
      requires branchIndex < |t.keys| ==> Count(t.kids[branchIndex + 1]) <= order / 2
      requires Holds(t, order) && cur == t.page
      requires t.kids[branchIndex].Node? ==>
        rightRootKey == t.keys[if branchIndex < |t.keys| then branchIndex else branchIndex - 1]
      requires ChainValid() && chain == pre + LeafPages(t) + post
      modifies Pages(t)`keys, Pages(t)`data, Pages(t)`children, Pages(t)`size
      modifies this`chain, this`leftmostLeaf, Members(chain)`next, Members(chain)`previous
      ensures Members(chain) <= old(Members(chain))
      ensures Repaired(t, u, h, order) && Holds(u, order)
      ensures ChainValid() && chain == pre + LeafPages(u) + post
      ensures |u.keys| == |t.keys| - 1 && (underflow <==> |u.keys| < order / 2)
      ensures Flat(t) != []
      ensures asked.action == SET_BRANCH_KEY ==>
        returnAction.action == SET_BRANCH_KEY && returnAction.key1 in {asked.key1, Flat(t)[0].key}
    {
      hide *;
      assert allocated(Members(chain));
      NodeRead(t, h, branchIndex);
      var c := if branchIndex < cur.size then branchIndex else branchIndex - 1;
      TwinsRead(t, h, branchIndex, c);
      var dest, source := cur.children[c], cur.children[c + 1];
      u := JoinPages(branchIndex, c, cur, rightRootKey, t, h);
      MergedRead(t, u, h);
      underflow := cur.size < order / 2;
      returnAction := asked;
      if branchIndex == 0 && dest.isLeaf {
        MergedLeast(t, u, h);
        returnAction := ReturnAction(SET_BRANCH_KEY, dest.keys[0], asked.key2);
      }
      if source.isLeaf {
        ghost var left, right := LeafSeq(t.kids[..c]), LeafSeq(t.kids[c + 2..]);
        ChainAround(pre, left, [dest, source], right, post);
        ChainAround(pre, left, [dest], right, post);
        UnlinkMerged(dest, source, pre + left, right + post, u);
      }
    }

    /** A merged leaf in the chain, which is known by what stands before and behind the two. */
    method UnlinkMerged(dest: Page, source: Page, ghost pre: seq<Page>, ghost post: seq<Page>, ghost u: Tree)
      requires ChainValid() && chain == pre + [dest, source] + post && Holds(u, order)
      modifies this`chain, this`leftmostLeaf, Members(chain)`next, Members(chain)`previous
      ensures Members(chain) <= old(Members(chain)) && Holds(u, order)
      ensures ChainValid() && chain == pre + [dest] + post
    {
      hide ChainValid, Holds, Members;
      assert allocated(Pages(u));
      UnlinkLeaf(source, |pre| + 1);
    }

    /** What can be read off a node one of whose children is short. */
    lemma NodeRead(t: Tree, h: nat, b: int)
      requires order >= 4 && ShortAt(t, h, order, b) && |t.keys| > 0 && Holds(t, order)
      ensures t.Node? && 0 <= b < |t.kids| == |t.keys| + 1 && |t.keys| < |t.page.children| && t.page.size == |t.keys|
      ensures Flat(t) != []
    {
      hide Flat, FlatSeq, Tight, Separate, Full;
      FirstKid(t, h, order);
    }

    /** What can be read off two neighbouring children neither of which has an entry to spare. */
    lemma TwinsRead(t: Tree, h: nat, b: int, c: int)
      requires order >= 4 && ShortAt(t, h, order, b) && Holds(t, order) && 0 <= c < |t.keys| && c <= b <= c + 1
      requires b > 0 ==> Count(t.kids[b - 1]) <= order / 2
      requires b < |t.keys| ==> Count(t.kids[b + 1]) <= order / 2
      ensures Count(t.kids[c]) <= order / 2 && Count(t.kids[c + 1]) <= order / 2
      ensures c + 1 < |t.page.children|
      ensures t.page.children[c] == t.kids[c].page && t.page.children[c + 1] == t.kids[c + 1].page
      ensures t.kids[c].page.isLeaf == t.kids[c].Leaf? == t.kids[c + 1].Leaf? == t.kids[c + 1].page.isLeaf
      ensures {t.kids[c].page, t.kids[c + 1].page} <= Pages(t)
    {
      hide Flat, FlatSeq, Tight, Separate, Full, Pages, AllHold, Own;
      ShortIsOneLess(t, h, b);
      KidLevel(t, h, c);
      KidLevel(t, h, c + 1);
    }

    lemma ShortIsOneLess(t: Tree, h: nat, b: int)
      requires ShortAt(t, h, order, b)
      ensures 0 <= b < |t.kids| && Count(t.kids[b]) == order / 2 - 1
    {
    }

    /** A child's page, and whether it is a leaf, which all children of a node are or none. */
    lemma KidLevel(t: Tree, h: nat, c: int)
      requires t.Node? && Children(t, h, order) && Holds(t, order) && 0 <= c < |t.kids|
      ensures c < |t.page.children| && t.page.children[c] == t.kids[c].page && t.kids[c].page in Pages(t)
      ensures t.kids[c].page.isLeaf == t.kids[c].Leaf? == (h == 1)
    {
      hide Flat, FlatSeq, Tight, Pages, AllHold;
      KidsInMemory(t, order, c);
    }

    /** What can be read off the node that two children were merged below. */
    lemma MergedRead(t: Tree, u: Tree, h: nat)
      requires Repaired(t, u, h, order) && Holds(u, order)
      ensures u.Node? && u.page == t.page && u.page.size == |u.keys| && Flat(u) == Flat(t)
      ensures |u.kids| == |u.keys| + 1 && (forall i :: 0 <= i < |u.kids| ==> u.kids[i].page.isLeaf == u.kids[i].Leaf?)
    {
      hide Flat, FlatSeq, Tight, Separate, Pages;
      KidsInMemory(u, order, 0);
    }

    lemma MergedLeast(t: Tree, u: Tree, h: nat)
      requires order >= 4 && Repaired(t, u, h, order) && Holds(u, order)
      requires u.Node? && |u.kids| > 0 && u.kids[0].Leaf?
      ensures |u.kids[0].page.keys| > 0 && Flat(t) != [] && u.kids[0].page.keys[0] == Flat(t)[0].key
    {
      hide Flat, FlatSeq, Tight, Separate, Pages, AllHold;
      LeastInLeaf(u, h, order);
    }

    /** The first case of FixUnderflow: the left neighbour has excess (DS_BPlusTree.h:306-335). */
    method TakeFromLeft(branchIndex: int, cur: Page, ghost t: Tree, ghost h: nat) returns (ghost u: Tree)
      requires order >= 4 && ShortAt(t, h, order, branchIndex) && Holds(t, order) && cur == t.page
      requires branchIndex > 0 && order / 2 < Count(t.kids[branchIndex - 1])
      modifies Pages(t)`keys, Pages(t)`data, Pages(t)`children, Pages(t)`size
      ensures Repaired(t, u, h, order) && Holds(u, order)
      ensures LeafPages(u) == LeafPages(t) && |u.keys| == |t.keys|
    {
      KidsInMemory(t, order, branchIndex);
      BorrowLeftRepairs(t, h, order, branchIndex);
      BorrowLeft(cur, branchIndex, order, t);
      u := PutPair(t, branchIndex - 1, BorrowFromLeft(PairAt(t, branchIndex - 1)));
    }

    /** The second case of FixUnderflow: the right neighbour has excess (DS_BPlusTree.h:336-390). */
    method TakeFromRight(branchIndex: int, cur: Page, rightRootKey: int, asked: ReturnAction, ghost t: Tree,
                         ghost h: nat)
      returns (returnAction: ReturnAction, ghost u: Tree)
      requires order >= 4 && ShortAt(t, h, order, branchIndex) && Holds(t, order) && cur == t.page
      requires branchIndex < |t.keys| && order / 2 < Count(t.kids[branchIndex + 1])
      requires t.kids[branchIndex].Node? ==> rightRootKey == t.keys[branchIndex]
      modifies Pages(t)`keys, Pages(t)`data, Pages(t)`children, Pages(t)`size
      ensures Repaired(t, u, h, order) && Holds(u, order)
      ensures LeafPages(u) == LeafPages(t) && |u.keys| == |t.keys|
      ensures asked.action != NO_ACTION ==> returnAction == asked
    {
      KidsInMemory(t, order, branchIndex);
      returnAction := asked;
      var dest := cur.children[branchIndex];
      if !dest.isLeaf && asked.action == NO_ACTION {
        returnAction := ReturnAction(SET_BRANCH_KEY, dest.keys[0], asked.key2);
      }
      KidsInMemory(t, order, branchIndex + 1);
      BorrowRightRepairs(t, h, order, branchIndex);
      BorrowRight(cur, branchIndex, rightRootKey, order, t);
      u := PutPair(t, branchIndex, BorrowFromRight(PairAt(t, branchIndex)));
    }

    /** Repairs a node whose child `branchIndex` is one entry short (DS_BPlusTree.h:300-478). */
    method FixUnderflow(branchIndex: int, cur: Page, rightRootKey: int, asked: ReturnAction,
                        ghost t: Tree, ghost h: nat, ghost pre: seq<Page>, ghost post: seq<Page>)
      returns (underflow: bool, returnAction: ReturnAction, ghost u: Tree)
      requires order >= 4 && ShortAt(t, h, order, branchIndex) && |t.keys| > 0
      requires Holds(t, order) && cur == t.page
      requires t.kids[branchIndex].Node? ==>
        rightRootKey == t.keys[if branchIndex < |t.keys| then branchIndex else branchIndex - 1]
      requires ChainValid() && chain == pre + LeafPages(t) + post
      modifies Pages(t)`keys, Pages(t)`data, Pages(t)`children, Pages(t)`size
      modifies this`chain, this`leftmostLeaf, Members(chain)`next, Members(chain)`previous
      ensures Members(chain) <= old(Members(chain))
      ensures Repaired(t, u, h, order) && Holds(u, order)
      ensures ChainValid() && chain == pre + LeafPages(u) + post
      ensures if underflow then |u.keys| == |t.keys| - 1 && |u.keys| < order / 2
              else |u.keys| == |t.keys| || (|u.keys| == |t.keys| - 1 && order / 2 <= |u.keys|)
      ensures Flat(t) != []
      ensures asked.action == SET_BRANCH_KEY ==>
        returnAction.action == SET_BRANCH_KEY && returnAction.key1 in {asked.key1, Flat(t)[0].key}
    {
      hide FlatSeq, LeafSeq, PagesOf, AllSeparate, Tight, LinkedAt, Repaired;
      FirstKid(t, h, order);
      KidsInMemory(t, order, branchIndex);
      if branchIndex > 0 && cur.children[branchIndex - 1].size > order / 2 {
        u := TakeFromLeft(branchIndex, cur, t, h);
        underflow, returnAction := false, asked;
      } else if branchIndex < cur.size && cur.children[branchIndex + 1].size > order / 2 {
        returnAction, u := TakeFromRight(branchIndex, cur, rightRootKey, asked, t, h);
        underflow := false;
      } else {
        underflow, returnAction, u := MergeBranches(branchIndex, cur, rightRootKey, asked, t, h, pre, post);
      }
    }

    /** The child that the search for `key` follows, and whether the key is a separator. */
    method ChooseBranch(key: int, cur: Page, ghost t: Tree, ghost h: nat)
      returns (found: bool, childIndex: int, branchIndex: int)
      requires order >= 4 && Children(t, h, order) && Sorted(Flat(t)) && |t.keys| > 0
      requires Own(t, order) && cur == t.page
      ensures Follows(t, key, branchIndex) && branchIndex == childIndex + if found then 1 else 0
      ensures found <==> branchIndex > 0 && t.keys[branchIndex - 1] == key
    {
      SeparatorsIncreasing(t, h, order);
      assert cur.keys[..cur.size] == t.keys;
      found, childIndex := GetIndexOf(key, cur);
      branchIndex := if found then childIndex + 1 else childIndex;
    }

    /** Deletes binding `childIndex` of the leaf below `cur` (DS_BPlusTree.h:268-288). */
    method DeleteBinding(key: int, cur: Page, branchIndex: int, childIndex: int, asked: ReturnAction, ghost t: Tree)
      returns (underflow: bool, returnAction: ReturnAction, out: int, ghost u: Tree)
      requires order >= 4 && Good(t, 1, order) && t.Node? && Holds(t, order) && cur == t.page
      requires Follows(t, key, branchIndex) && t.kids[branchIndex].Leaf?
      requires 0 <= childIndex < Count(t.kids[branchIndex]) && t.kids[branchIndex].entries[childIndex].key == key
      requires Sorted(t.kids[branchIndex].entries)
      modifies t.page`keys, t.kids[branchIndex].page`keys, t.kids[branchIndex].page`data
      modifies t.kids[branchIndex].page`children, t.kids[branchIndex].page`size
      ensures Entry(key, out) == t.kids[branchIndex].entries[childIndex]
      ensures Removed(t, u, 1, order, key, branchIndex) && Holds(u, order)
      ensures LeafPages(u) ==
        LeafSeq(t.kids[..branchIndex]) + [t.kids[branchIndex].page] + LeafSeq(t.kids[branchIndex + 1..])
      ensures u.kids[branchIndex].Leaf? && (underflow <==> Count(u.kids[branchIndex]) < order / 2)
      ensures Flat(u) != []
      ensures branchIndex == 0 && childIndex == 0 ==>
        returnAction.action == SET_BRANCH_KEY && returnAction.key1 == Flat(u)[0].key
    {
      hide FlatSeq, LeafSeq, PagesOf, AllSeparate, Beside, BesideHold, Removed;
      KidLoaded(t, branchIndex, order);
      KidApart(t, branchIndex);
      assert allocated(Beside(t, branchIndex));
      var child := cur.children[branchIndex];
      ghost var es := t.kids[branchIndex].entries;
      out := child.data[childIndex];
      WithoutAt(es, childIndex);
      WithoutSorted(es, key);
      ghost var kid := DeleteFromLeaf(childIndex, child, order, t.kids[branchIndex]);
      u := RemovedFromKid(t, 1, order, key, branchIndex, kid);
      RemovedFirst(t, 1, order, branchIndex, kid);
      returnAction := asked;
      if childIndex == 0 {
        if branchIndex > 0 {
          cur.keys := cur.keys[branchIndex - 1 := child.keys[0]];
        }
        if branchIndex == 0 {
          returnAction := ReturnAction(SET_BRANCH_KEY, child.keys[0], asked.key2);
        }
      }
      underflow := child.size < order / 2;
      assert BesideHold(t, branchIndex, order);
      KidStored(t, branchIndex, kid, Flat(kid)[0].key, order);
    }

    /** Deletes the key from the leaf below `cur` that can hold it (DS_BPlusTree.h:262-289). */
    method DeleteFromLeafChild(key: int, cur: Page, branchIndex: int, asked: ReturnAction, ghost t: Tree)
      returns (found: bool, underflow: bool, returnAction: ReturnAction, out: int, ghost u: Tree)
      requires order >= 4 && Good(t, 1, order) && t.Node? && Holds(t, order) && cur == t.page
      requires Follows(t, key, branchIndex)
      modifies t.page`keys, t.kids[branchIndex].page`keys, t.kids[branchIndex].page`data
      modifies t.kids[branchIndex].page`children, t.kids[branchIndex].page`size
      ensures found <==> !Absent(Flat(t), key)
      ensures !found ==> u == t && returnAction == asked && !underflow
      ensures Holds(u, order) && LeafPages(u) == LeafPages(t)
      ensures found ==> Removed(t, u, 1, order, key, branchIndex) && Entry(key, out) in Flat(t)
      ensures found ==> u.kids[branchIndex].Leaf? && (underflow <==> Count(u.kids[branchIndex]) < order / 2)
      ensures found ==> Flat(t) != [] && Flat(u) != []
      ensures found && Flat(t)[0].key == key ==>
        returnAction.action == SET_BRANCH_KEY && returnAction.key1 == Flat(u)[0].key
    {
      hide FlatSeq, LeafSeq, PagesOf, AllSeparate, Removed;
      ShapeChildren(t, 1, order);
      FollowedAbsent(t, 1, order, key, branchIndex);
      KidLoaded(t, branchIndex, order);
      FlatAround(t.kids, branchIndex);
      assert allocated(Pages(t));
      var child := cur.children[branchIndex];
      ghost var es := t.kids[branchIndex].entries;
      assert child.keys[..child.size] == seq(|es|, i requires 0 <= i < |es| => es[i].key);
      var childIndex;
      found, childIndex := GetIndexOf(key, child);
      returnAction, underflow, out, u := asked, false, 0, t;
      if found {
        underflow, returnAction, out, u := DeleteBinding(key, cur, branchIndex, childIndex, asked, t);
      }
    }

    /** Deletes the key below an index node and repairs the node (DS_BPlusTree.h:224-298). */
    method FindDeleteRebalance(key: int, cur: Page, rootKey: int, asked: ReturnAction,
                               ghost t: Tree, ghost h: nat, ghost pre: seq<Page>, ghost post: seq<Page>)
      returns (found: bool, underflow: bool, returnAction: ReturnAction, out: int, ghost u: Tree)
      requires order >= 4 && Good(t, h, order) && t.Node? && |t.keys| > 0 && Holds(t, order) && cur == t.page
      requires ChainValid() && chain == pre + LeafPages(t) + post
      modifies Pages(t)`keys, Pages(t)`data, Pages(t)`children, Pages(t)`size
      modifies this`chain, this`leftmostLeaf, Members(chain)`next, Members(chain)`previous
      ensures Members(chain) <= old(Members(chain))
      ensures found <==> !Absent(Flat(t), key)
      ensures !found ==> u == t
      ensures Holds(u, order) && ChainValid() && chain == pre + LeafPages(u) + post
      ensures found ==> Deleted(t, u, h, order, key) && Entry(key, out) in Flat(t)
      ensures found ==> if underflow then |u.keys| == |t.keys| - 1 && |u.keys| < order / 2
                        else |u.keys| == |t.keys| || (|u.keys| == |t.keys| - 1 && order / 2 <= |u.keys|)
      ensures found ==> Flat(t) != [] && Flat(u) != []
      ensures found && Flat(t)[0].key == key ==>
        returnAction.action == SET_BRANCH_KEY && returnAction.key1 == Flat(u)[0].key
      decreases h, 3
    {
      var rightRootKey;
      var branchIndex;
      found, underflow, returnAction, out, rightRootKey, branchIndex, u :=
        DeleteFromBranch(key, cur, rootKey, asked, t, h, pre, post);
      if found && underflow {
        hide FlatSeq, LeafSeq, PagesOf, AllSeparate, Holds;
        underflow, returnAction, u := FixUnderflow(branchIndex, cur, rightRootKey, returnAction, u, h, pre, post);
      }
    }

    /** Deletes the key from the child it belongs to (DS_BPlusTree.h:227-289). */
    method DeleteFromBranch(key: int, cur: Page, rootKey: int, asked: ReturnAction,
                            ghost t: Tree, ghost h: nat, ghost pre: seq<Page>, ghost post: seq<Page>)
      returns (found: bool, underflow: bool, returnAction: ReturnAction, out: int, rightRootKey: int,
               branchIndex: int, ghost u: Tree)
      requires order >= 4 && Good(t, h, order) && t.Node? && |t.keys| > 0 && Holds(t, order) && cur == t.page
      requires ChainValid() && chain == pre + LeafPages(t) + post
      modifies Pages(t)`keys, Pages(t)`data, Pages(t)`children, Pages(t)`size
      modifies this`chain, this`leftmostLeaf, Members(chain)`next, Members(chain)`previous
      ensures Members(chain) <= old(Members(chain))
      ensures found <==> !Absent(Flat(t), key)
      ensures !found ==> u == t
      ensures Holds(u, order) && ChainValid() && chain == pre + LeafPages(u) + post
      ensures found ==> Removed(t, u, h, order, key, branchIndex) && Entry(key, out) in Flat(t)
      ensures found ==> (underflow <==> Count(u.kids[branchIndex]) < order / 2)
      ensures found && u.kids[branchIndex].Node? ==>
        rightRootKey == u.keys[if branchIndex < |u.keys| then branchIndex else branchIndex - 1]
      ensures found ==> Flat(t) != [] && Flat(u) != []
      ensures found && Flat(t)[0].key == key ==>
        returnAction.action == SET_BRANCH_KEY && returnAction.key1 == Flat(u)[0].key
      decreases h, 2
    {
      hide FlatSeq, LeafSeq, PagesOf, AllSeparate, Holds, Removed;
      GoodKid(t, h, order, 0);
      KidsInMemory(t, order, 0);
      assert allocated(Pages(t));
      var hit, childIndex;
      hit, childIndex, branchIndex := ChooseBranch(key, cur, t, h);
      rightRootKey := rootKey;
      if !cur.children[branchIndex].isLeaf {
        found, underflow, returnAction, out, rightRootKey, u :=
          DeleteBelow(key, cur, hit, childIndex, branchIndex, asked, t, h, pre, post);
      } else {
        found, underflow, returnAction, out, u := DeleteFromLeafChild(key, cur, branchIndex, asked, t);
      }
    }

    /** The recursive step: an index node below an index node (DS_BPlusTree.h:235-261). */
    method DeleteBelow(key: int, cur: Page, hit: bool, childIndex: int, branchIndex: int, asked: ReturnAction,
                       ghost t: Tree, ghost h: nat, ghost pre: seq<Page>, ghost post: seq<Page>)
      returns (found: bool, underflow: bool, returnAction: ReturnAction, out: int, rightRootKey: int, ghost u: Tree)
      requires order >= 4 && Good(t, h, order) && t.Node? && |t.keys| > 0 && Holds(t, order) && cur == t.page
      requires Follows(t, key, branchIndex) && t.kids[branchIndex].Node?
      requires branchIndex == childIndex + (if hit then 1 else 0)
      requires hit <==> branchIndex > 0 && t.keys[branchIndex - 1] == key
      requires ChainValid() && chain == pre + LeafPages(t) + post
      modifies Pages(t)`keys, Pages(t)`data, Pages(t)`children, Pages(t)`size
      modifies this`chain, this`leftmostLeaf, Members(chain)`next, Members(chain)`previous
      ensures Members(chain) <= old(Members(chain))
      ensures found <==> !Absent(Flat(t), key)
      ensures !found ==> u == t
      ensures Holds(u, order) && ChainValid() && chain == pre + LeafPages(u) + post
      ensures found ==> Removed(t, u, h, order, key, branchIndex) && Entry(key, out) in Flat(t)
      ensures found ==> u.kids[branchIndex].Node? && (underflow <==> Count(u.kids[branchIndex]) < order / 2)
      ensures found ==> rightRootKey == u.keys[if branchIndex < |u.keys| then branchIndex else branchIndex - 1]
      ensures found ==> Flat(t) != [] && Flat(u) != []
      ensures found && Flat(t)[0].key == key ==>
        returnAction.action == SET_BRANCH_KEY && returnAction.key1 == Flat(u)[0].key
      decreases h, 1
    {
      rightRootKey := if branchIndex < cur.size then cur.keys[branchIndex] else cur.keys[branchIndex - 1];
      ghost var kid;
      found, underflow, returnAction, out, kid := Recurse(key, cur, branchIndex, rightRootKey, asked, t, h, pre, post);
      u := t;
      if found {
        hide Flat, FlatSeq, LeafSeq, LeafPages, Pages, PagesOf, Good, Shape, Tight, Separate, AllSeparate;
        hide Holds, AllHold, Beside, BesideHold, Removed, Linked;
        returnAction, rightRootKey, u := TakeBackKid(key, cur, hit, childIndex, branchIndex, returnAction, t, h, kid);
      }
    }

    /** The recursive call itself, seen from the node above (DS_BPlusTree.h:242). */
    method Recurse(key: int, cur: Page, branchIndex: int, rightRootKey: int, asked: ReturnAction,
                   ghost t: Tree, ghost h: nat, ghost pre: seq<Page>, ghost post: seq<Page>)
      returns (found: bool, underflow: bool, returnAction: ReturnAction, out: int, ghost kid: Tree)
      requires order >= 4 && Good(t, h, order) && t.Node? && |t.keys| > 0 && Holds(t, order) && cur == t.page
      requires Follows(t, key, branchIndex) && t.kids[branchIndex].Node?
      requires ChainValid() && chain == pre + LeafPages(t) + post
      modifies Pages(t.kids[branchIndex])`keys, Pages(t.kids[branchIndex])`data
      modifies Pages(t.kids[branchIndex])`children, Pages(t.kids[branchIndex])`size
      modifies this`chain, this`leftmostLeaf, Members(chain)`next, Members(chain)`previous
      ensures Members(chain) <= old(Members(chain))
      ensures found <==> !Absent(Flat(t), key)
      ensures ChainValid()
      ensures !found ==> Holds(t, order) && chain == pre + LeafPages(t) + post
      ensures found ==>
        chain == pre + (LeafSeq(t.kids[..branchIndex]) + LeafPages(kid) + LeafSeq(t.kids[branchIndex + 1..])) + post
      ensures cur !in Pages(t.kids[branchIndex]) && cur !in Beside(t, branchIndex)
      ensures found ==> Own(t, order) && BesideHold(t, branchIndex, order) && Holds(kid, order)
      ensures found ==> Deleted(t.kids[branchIndex], kid, h - 1, order, key) && Entry(key, out) in Flat(t)
      ensures found ==> order / 2 - 1 <= Count(kid) && (underflow <==> Count(kid) < order / 2)
      ensures found ==> Flat(t.kids[branchIndex]) != [] && Flat(kid) != []
      ensures found && Flat(t.kids[branchIndex])[0].key == key ==>
        returnAction.action == SET_BRANCH_KEY && returnAction.key1 == Flat(kid)[0].key
      decreases h, 0
    {
      hide Flat, FlatSeq, LeafSeq, LeafPages, Pages, PagesOf, Good, Shape, Tight, Separate, AllSeparate;
      hide Holds, AllHold, Own, Beside, BesideHold, Linked, ChainValid, Follows, Absent, Deleted, Members;
      RecurseReady(key, branchIndex, t, h);
      ghost var left, right := LeafSeq(t.kids[..branchIndex]), LeafSeq(t.kids[branchIndex + 1..]);
      assert allocated(Beside(t, branchIndex)) && allocated(Pages(t));
      ChainAround(pre, left, LeafPages(t.kids[branchIndex]), right, post);
      found, underflow, returnAction, out, kid := FindDeleteRebalance(
        key, cur.children[branchIndex], rightRootKey, asked, t.kids[branchIndex], h - 1, pre + left, right + post);
      assert Own(t, order) && BesideHold(t, branchIndex, order);
      ChainAround(pre, left, LeafPages(kid), right, post);
      if found {
        StaysNode(t.kids[branchIndex], kid, h - 1, key);
      } else {
        KidUntouched(t, branchIndex, order);
      }
    }

    /** What the recursive call needs to know of the followed child, and what is beside it. */
    lemma RecurseReady(key: int, branchIndex: int, t: Tree, h: nat)
      requires order >= 4 && Good(t, h, order) && t.Node? && |t.keys| > 0 && Holds(t, order)
      requires Follows(t, key, branchIndex) && t.kids[branchIndex].Node?
      ensures 0 <= branchIndex < |t.kids| && h > 0
      ensures var kid := t.kids[branchIndex];
              && Good(kid, h - 1, order) && order / 2 <= |kid.keys| && Holds(kid, order)
              && branchIndex < |t.page.children| && t.page.children[branchIndex] == kid.page
              && Flat(kid) != [] && (forall e :: e in Flat(kid) ==> e in Flat(t))
              && (Absent(Flat(t), key) <==> Absent(Flat(kid), key))
              && t.page !in Pages(kid) && t.page !in Beside(t, branchIndex) && Pages(kid) !! Beside(t, branchIndex)
              && LeafPages(t) == LeafSeq(t.kids[..branchIndex]) + LeafPages(kid) + LeafSeq(t.kids[branchIndex + 1..])
      ensures Own(t, order) && BesideHold(t, branchIndex, order)
    {
      hide Flat, FlatSeq, LeafSeq, Pages, PagesOf, Shape, Tight, AllSeparate, Holds, AllHold, Beside, BesideHold;
      hide Absent, Children;
      ShapeChildren(t, h, order);
      GoodKid(t, h, order, branchIndex);
      FollowedAbsent(t, h, order, key, branchIndex);
      KidLoaded(t, branchIndex, order);
      KidApart(t, branchIndex);
      FlatAround(t.kids, branchIndex);
    }

    lemma StaysNode(t: Tree, u: Tree, h: nat, key: int)
      requires Deleted(t, u, h, order, key) && t.Node?
      ensures u.Node?
    {
    }

    /** What DeleteBelow does when the recursive call returns (DS_BPlusTree.h:245-260). */
    method TakeBackKid(key: int, cur: Page, hit: bool, childIndex: int, branchIndex: int, asked: ReturnAction,
                       ghost t: Tree, ghost h: nat, ghost kid: Tree)
      returns (returnAction: ReturnAction, rightRootKey: int, ghost u: Tree)
      requires order >= 4 && Good(t, h, order) && t.Node? && |t.keys| > 0 && Own(t, order) && cur == t.page
      requires Follows(t, key, branchIndex) && BesideHold(t, branchIndex, order)
      requires cur !in Pages(kid) && cur !in Beside(t, branchIndex)
      requires branchIndex == childIndex + (if hit then 1 else 0)
      requires hit <==> branchIndex > 0 && t.keys[branchIndex - 1] == key
      requires Deleted(t.kids[branchIndex], kid, h - 1, order, key) && Holds(kid, order) && order / 2 - 1 <= Count(kid)
      requires Flat(t.kids[branchIndex]) != [] && Flat(kid) != []
      requires Flat(t.kids[branchIndex])[0].key == key ==>
        asked.action == SET_BRANCH_KEY && asked.key1 == Flat(kid)[0].key
      modifies cur`keys
      ensures Holds(u, order) && Removed(t, u, h, order, key, branchIndex) && u.kids[branchIndex] == kid
      ensures LeafPages(u) == LeafSeq(t.kids[..branchIndex]) + LeafPages(kid) + LeafSeq(t.kids[branchIndex + 1..])
      ensures rightRootKey == u.keys[if branchIndex < |u.keys| then branchIndex else branchIndex - 1]
      ensures Flat(t) != [] && Flat(u) != []
      ensures Flat(t)[0].key == key ==>
        returnAction.action == SET_BRANCH_KEY && returnAction.key1 == Flat(u)[0].key
    {
      hide Flat, FlatSeq, LeafSeq, LeafPages, Pages, PagesOf, Good, Shape, Tight, Separate, AllSeparate, Holds,
        AllHold, Beside, BesideHold, Removed, Deleted, Children, PutKid;
      ghost var least := Flat(kid)[0].key;
      u := SeparatorAfter(key, branchIndex, hit, asked, t, h, kid);
      assert allocated(Pages(kid)) && allocated(Beside(t, branchIndex));
      returnAction := asked;
      rightRootKey := if branchIndex < cur.size then cur.keys[branchIndex] else cur.keys[branchIndex - 1];
      if returnAction.action == SET_BRANCH_KEY && branchIndex != childIndex {
        returnAction := returnAction.(action := NO_ACTION);
        cur.keys := cur.keys[childIndex := returnAction.key1];
        rightRootKey := if branchIndex < cur.size then cur.keys[branchIndex] else cur.keys[branchIndex - 1];
      }
      assert Holds(kid, order) && BesideHold(t, branchIndex, order);
      KidStored(t, branchIndex, kid, least, order);
    }

    /** The separator left of the followed child must become the key handed up if the search hit a
        separator, and must stay as it is otherwise. */
    lemma SeparatorAfter(key: int, b: int, hit: bool, asked: ReturnAction, t: Tree, h: nat, kid: Tree) returns (u: Tree)
      requires order >= 4 && Good(t, h, order) && t.Node? && |t.keys| > 0 && Follows(t, key, b)
      requires hit <==> b > 0 && t.keys[b - 1] == key
      requires Deleted(t.kids[b], kid, h - 1, order, key) && order / 2 - 1 <= Count(kid)
      requires Flat(t.kids[b]) != [] && Flat(kid) != []
      requires Flat(t.kids[b])[0].key == key ==> asked.action == SET_BRANCH_KEY && asked.key1 == Flat(kid)[0].key
      ensures Removed(t, u, h, order, key, b) && u.kids[b] == kid && kid.page == t.kids[b].page
      ensures |t.kids| == |t.keys| + 1 && u == PutKid(t, b, kid, Flat(kid)[0].key) && |u.keys| == |t.keys|
      ensures forall i :: 0 <= i < |t.keys| ==> u.keys[i] == if i == b - 1 then Flat(kid)[0].key else t.keys[i]
      ensures b > 0 ==> Flat(kid)[0].key == if hit then asked.key1 else t.keys[b - 1]
      ensures hit ==> asked.action == SET_BRANCH_KEY
      ensures LeafPages(u) == LeafSeq(t.kids[..b]) + LeafPages(kid) + LeafSeq(t.kids[b + 1..])
      ensures Flat(t) != [] && Flat(u) != []
      ensures Flat(t)[0].key == key ==> !hit && asked.action == SET_BRANCH_KEY && asked.key1 == Flat(u)[0].key
    {
      GoodKid(t, h, order, b);
      FollowedAbsent(t, h, order, key, b);
      if Flat(t.kids[b])[0].key != key {
        WithoutFirst(Flat(t.kids[b]), key);
      }
      hide Flat, FlatSeq, LeafSeq, LeafPages, Pages, PagesOf, Good, Shape, Tight, Separate, AllSeparate, Removed;
      u := RemovedFromKid(t, h, order, key, b, kid);
      RemovedFirst(t, h, order, b, kid);
    }

    ghost function Footprint(): set<Page>
      reads this
    {
      if shape.Whole? then Pages(shape.tree) else {}
    }

    /** The pages in memory form a tree with uniform depth, sorted bindings, tight separators and
        pages at least half full below the root; the leaf chain runs through its leaves. */
    ghost predicate Valid()
      reads this, Footprint()
    {
      && order >= 4
      && match shape
         case Nothing => root == null && leftmostLeaf == null && chain == []
         case Whole(t, h) =>
           && root == t.page && Good(t, h, order) && 0 < Count(t) && Holds(t, order)
           && chain == LeafPages(t) && Members(chain) <= Pages(t) && ChainValid()
    }

    /** The bindings in key order. */
    ghost function Listing(): seq<Entry>
      reads this
    {
      if shape.Whole? then Flat(shape.tree) else []
    }

    /** The finite map that the tree represents. */
    ghost function Contents(): map<int, int>
      reads this
    {
      MapOf(Listing())
    }

    /** DS_BPlusTree.h:185-223 */
    method Delete(key: int) returns (ok: bool, out: int)
      requires Valid()
      modifies this, Footprint()
      ensures Valid() && Footprint() <= old(Footprint())
      ensures ok <==> key in old(Contents())
      ensures ok ==> out == old(Contents())[key]
      ensures Contents() == old(Contents()) - {key}
    {
      ghost var s := Listing();
      ok, out := DeleteListed(key);
      ListedRemoval(s, key);
      if ok {
        MapOfSorted(s);
      }
    }

    lemma ListedRemoval(s: seq<Entry>, key: int)
      requires Sorted(s)
      ensures key in MapOf(s) <==> !Absent(s, key)
      ensures MapOf(Without(s, key)) == MapOf(s) - {key}
      ensures Absent(s, key) ==> Without(s, key) == s
    {
      MapOfAbsent(s, key);
      MapOfWithout(s, key);
      if Absent(s, key) {
        WithoutAbsent(s, key);
      }
    }

    method DeleteListed(key: int) returns (ok: bool, out: int)
      requires Valid()
      modifies this, Footprint()
      ensures Valid() && Footprint() <= old(Footprint())
      ensures Sorted(old(Listing())) && Listing() == Without(old(Listing()), key)
      ensures ok <==> !Absent(old(Listing()), key)
      ensures ok ==> Entry(key, out) in old(Listing())
    {
      if root == null {
        return false, 0;
      }
      LeafPagesIn(shape.tree);
      if root == leftmostLeaf {
        ok, out := DeleteFromRootLeaf(key);
      } else {
        ok, out := DeleteFromRootNode(key);
      }
    }

    /** What can be read off a leaf that is the root. */
    lemma LeafRead(t: Tree, h: nat)
      requires t.Leaf? && Good(t, h, order) && Holds(t, order)
      ensures h == 0 && Own(t, order) && Sorted(t.entries)
      ensures var p, es := t.page, t.entries;
              && p.Buffers(order) && p.size == |es| && Increasing(p.keys[..p.size])
              && forall i :: 0 <= i < |es| ==> es[i] == Entry(p.keys[i], p.data[i])
    {
      SortedLeafRead(t);
    }

    lemma SortedLeafRead(t: Tree)
      requires t.Leaf? && Holds(t, order) && Sorted(t.entries)
      ensures var p, es := t.page, t.entries;
              && p.Buffers(order) && p.size == |es| && Increasing(p.keys[..p.size])
              && forall i :: 0 <= i < |es| ==> es[i] == Entry(p.keys[i], p.data[i])
    {
    }

    /** What the search in a leaf has found out. */
    lemma LeafFound(es: seq<Entry>, key: int, index: int, found: bool)
      requires Sorted(es) && 0 <= index <= |es|
      requires found ==> index < |es| && es[index].key == key
      requires forall i :: 0 <= i < index ==> es[i].key < key
      requires forall i :: index <= i < |es| && !(found && i == index) ==> key < es[i].key
      ensures found <==> !Absent(es, key)
      ensures Without(es, key) == if found then es[..index] + es[index + 1..] else es
    {
      hide Sorted, Without;
      if found {
        WithoutAt(es, index);
      } else {
        WithoutAbsent(es, key);
      }
    }

    lemma LeafStaysGood(t: Tree, u: Tree, key: int)
      requires t.Leaf? && Good(t, 0, order) && u.Leaf? && u.entries == Without(t.entries, key) && Count(u) <= order
      ensures Good(u, 0, order) && Sorted(u.entries)
    {
      hide Sorted, Without;
      WithoutSorted(t.entries, key);
    }

    method DeleteFromRootLeaf(key: int) returns (ok: bool, out: int)
      requires Valid() && shape.Whole? && shape.tree.Leaf?
      modifies this, Footprint()
      ensures Valid() && Footprint() <= old(Footprint())
      ensures Listing() == Without(old(Listing()), key)
      ensures ok <==> !Absent(old(Listing()), key)
      ensures ok ==> Entry(key, out) in old(Listing())
    {
      hide Good, Sorted, Absent, Without, Linked;
      ghost var t := shape.tree;
      LeafRead(t, shape.height);
      var childIndex;
      ok, childIndex := GetIndexOf(key, root);
      LeafFound(t.entries, key, childIndex, ok);
      if !ok {
        return false, 0;
      }
      out := root.data[childIndex];
      ghost var u := DeleteFromLeaf(childIndex, root, order, t);
      LeafStaysGood(t, u, key);
      shape := Whole(u, 0);
      if root.size == 0 {
        root := null;
        leftmostLeaf := null;
        shape := Nothing;
        chain := [];
      }
    }

    method DeleteFromRootNode(key: int) returns (ok: bool, out: int)
      requires Valid() && shape.Whole? && shape.tree.Node?
      modifies this, Footprint()
      ensures Valid() && Footprint() <= old(Footprint())
      ensures Listing() == Without(old(Listing()), key)
      ensures ok <==> !Absent(old(Listing()), key)
      ensures ok ==> Entry(key, out) in old(Listing())
    {
      ghost var t, h := shape.tree, shape.height;
      var underflow, returnAction;
      ghost var u;
      ok, underflow, returnAction, out, u :=
        FindDeleteRebalance(key, root, root.keys[0], ReturnAction(NO_ACTION, 0, 0), t, h, [], []);
      if !ok {
        WithoutAbsent(Flat(t), key);
        return;
      }
      SettleRoot(underflow, u, h);
    }

    /** A root left without separators makes way for its only child (DS_BPlusTree.h:211-218). */
    method SettleRoot(underflow: bool, ghost u: Tree, ghost h: nat)
      requires order >= 4 && root == u.page && Good(u, h, order) && u.Node? && Holds(u, order)
      requires ChainValid() && chain == LeafPages(u) && (|u.keys| == 0 ==> underflow)
      modifies this`root, this`shape
      ensures Valid() && Footprint() <= Pages(u) && Listing() == Flat(u)
    {
      hide FlatSeq, LeafSeq, PagesOf, AllSeparate, AllHold, Tight, Shape, Sorted;
      shape := Whole(u, h);
      LeafPagesIn(u);
      if underflow && root.size == 0 {
        GoodKid(u, h, order, 0);
        KidLoaded(u, 0, order);
        OnlyKid(u);
        LeafPagesIn(u.kids[0]);
        root := root.children[0];
        shape := Whole(u.kids[0], h - 1);
      }
    }

    /** DS_BPlusTree.h:707-719 */
    method GetLeafFromKey(key: int) returns (leaf: Page, ghost s: Tree)
      requires Valid() && shape.Whole?
      ensures s.Leaf? && leaf == s.page && Holds(s, order) && Sorted(s.entries) && 0 < Count(s)
      ensures forall d :: Entry(key, d) in s.entries <==> Entry(key, d) in Listing()
    {
      var cur := root;
      s := shape.tree;
      ghost var h := shape.height;
      while !cur.isLeaf
        invariant Good(s, h, order) && Holds(s, order) && cur == s.page && 0 < Count(s)
        invariant forall d :: Entry(key, d) in Flat(s) <==> Entry(key, d) in Listing()
        decreases h
      {
        GoodKid(s, h, order, 0);
        assert allocated(Pages(s));
        var _, childIndex, branchIndex := ChooseBranch(key, cur, s, h);
        GoodKid(s, h, order, branchIndex);
        KidLoaded(s, branchIndex, order);
        FollowedEntry(s, h, order, key, branchIndex);
        cur := cur.children[branchIndex];
        s, h := s.kids[branchIndex], h - 1;
      }
      leaf := cur;
    }

    /** DS_BPlusTree.h:145-159 */
    method Get(key: int) returns (ok: bool, out: int)
      requires Valid()
      ensures ok <==> key in Contents()
      ensures ok ==> out == Contents()[key]
    {
      hide Good, Flat, Pages, LeafPages, Linked, Sorted, MapOf, Holds, Own;
      if root == null {
        NothingBound();
        return false, 0;
      }
      ListingIsMap();
      var leaf;
      ghost var s;
      leaf, s := GetLeafFromKey(key);
      SortedLeafRead(s);
      var childIndex;
      ok, childIndex := GetIndexOf(key, leaf);
      out := 0;
      if ok {
        out := leaf.data[childIndex];
        assert Entry(key, out) == s.entries[childIndex];
      } else {
        assert forall d :: Entry(key, d) !in s.entries;
      }
    }

    lemma NothingBound()
      requires shape.Nothing?
      ensures Contents() == map[]
    {
    }

    /** The listing is the graph of the map. */
    lemma ListingIsMap()
      requires Valid()
      ensures forall k :: k in Contents() ==> Entry(k, Contents()[k]) in Listing()
      ensures forall k, d :: Entry(k, d) in Listing() ==> k in Contents() && Contents()[k] == d
    {
      hide Flat, Pages, LeafPages, Linked, MapOf, Holds, Shape, Tight, Separate;
      MapOfSorted(Listing());
      forall k, d | Entry(k, d) in Listing() ensures k in Contents() && Contents()[k] == d {
        var i :| 0 <= i < |Listing()| && Listing()[i] == Entry(k, d);
      }
    }

    /** The leaf chain starts at `leftmostLeaf`, is linked in both directions and stores the bindings
        in strictly increasing key order. */
    lemma ChainListsBindings()
      requires Valid()
      ensures Linked(chain) && leftmostLeaf == if chain == [] then null else chain[0]
      ensures ChainListing(chain) == Listing() && Sorted(Listing())
      ensures |Listing()| == |Contents()|
      ensures forall p :: p in chain ==> p.Buffers(order)
    {
      MapOfSorted(Listing());
      if shape.Whole? {
        LeavesStoreListing(shape.tree, order);
      }
    }

    /** The depth is logarithmic: a tree of depth h > 0 holds 2 (order/2) (order/2 + 1)^(h - 1) bindings at least. */
    lemma DepthIsLogarithmic()
      requires Valid() && shape.Whole? && shape.height > 0
      ensures 2 * (order / 2 * Power(order / 2 + 1, shape.height - 1)) <= |Contents()|
    {
      hide Shape, Tight, Separate, Sorted, Flat, MapOf, Power, Holds, Pages, LeafPages;
      MapOfSorted(Listing());
      RootFills(shape.tree, shape.height, order);
    }

    /** DS_BPlusTree.h:896-906 */
    method Size() returns (count: nat)
      requires Valid()
      ensures count == |Contents()|
    {
      ChainListsBindings();
      count := 0;
      var cur := leftmostLeaf;
      ghost var i := 0;
      while cur != null
        invariant 0 <= i <= |chain| && cur == (if i < |chain| then chain[i] else null)
        invariant count + |ChainListing(chain[i..])| == |Listing()|
        decreases |chain| - i
      {
        assert chain[i] in chain && LinkedAt(chain, i);
        assert chain[i..][1..] == chain[i + 1..];
        count := count + cur.size;
        cur := cur.next;
        i := i + 1;
      }
    }

    /** Puts an entry into a page, splitting it when it is full (DS_BPlusTree.h:516-654). `v` is the
        page with the entry in it. */
    method InsertIntoNode(key: int, leafData: int, insertionIndex: int, nodeData: Page?, cur: Page, asked: ReturnAction,
                          ghost v: Tree, ghost h: nat, ghost pre: seq<Page>, ghost post: seq<Page>)
      returns (newPage: Page?, returnAction: ReturnAction, ghost g: Grown, ghost more: set<Page>)
      requires order >= 4 && Swollen(v, h, order) && cur == v.page && Missing(v, insertionIndex, order)
      requires Wanted(v, insertionIndex, key, leafData, nodeData)
      requires v.Node? ==> AllHold(v.kids, order)
      requires ChainValid() && chain == pre + LeafPages(v) + post
      modifies cur`keys, cur`data, cur`children, cur`size
      modifies this`chain, Members(chain)`next, Members(chain)`previous
      ensures Lists(g, Flat(v), h, order) && Stored(g, order) && TopPage(g) == cur
      ensures fresh(more) && AllPages(g) <= Pages(v) + more && Members(chain) <= old(Members(chain)) + more
      ensures ChainValid() && chain == pre + LeavesOf(g) + post
      ensures newPage == if g.One? then null else g.pair.right.page
      ensures g.One? ==> g.tree == v && returnAction == asked
      ensures g.Two? && v.Leaf? ==> returnAction == asked && g.pair.right.Leaf?
      ensures g.Two? && v.Node? ==> g.pair.right.Node? && returnAction.action == PUSH_KEY_TO_PARENT
      ensures g.Two? && v.Node? ==> returnAction.key1 == g.pair.separator
    {
      hide FlatSeq, LeafSeq, AllSeparate, Tight, Shape, Linked;
      returnAction := asked;
      assert allocated(Pages(v));
      assert v.Node? ==> cur !in PagesOf(v.kids) && PagesOf(v.kids) <= Pages(v);
      if cur.size < order {
        SwollenGood(v, h, order);
        InsertWithRoom(key, leafData, insertionIndex, nodeData, cur, order, v);
        newPage := null;
        g, more := One(v), {};
      } else {
        newPage, returnAction, g, more := SplitAndLink(
          key, leafData, insertionIndex, nodeData, cur, asked, v, h, pre, post);
      }
    }

    /** The split with its change to the leaf chain (DS_BPlusTree.h:544-650). */
    method SplitAndLink(key: int, leafData: int, insertionIndex: int, nodeData: Page?, cur: Page, asked: ReturnAction,
                        ghost v: Tree, ghost h: nat, ghost pre: seq<Page>, ghost post: seq<Page>)
      returns (newPage: Page, returnAction: ReturnAction, ghost g: Grown, ghost more: set<Page>)
      requires order >= 4 && Swollen(v, h, order) && cur == v.page && Missing(v, insertionIndex, order)
      requires Count(v) == order + 1 && Wanted(v, insertionIndex, key, leafData, nodeData)
      requires v.Node? ==> AllHold(v.kids, order)
      requires ChainValid() && chain == pre + LeafPages(v) + post
      modifies cur`keys, cur`data, cur`children, cur`size
      modifies this`chain, Members(chain)`next, Members(chain)`previous
      ensures g.Two? && Lists(g, Flat(v), h, order) && Stored(g, order) && TopPage(g) == cur
      ensures fresh(more) && AllPages(g) <= Pages(v) + more && Members(chain) <= old(Members(chain)) + more
      ensures ChainValid() && chain == pre + LeavesOf(g) + post
      ensures newPage == g.pair.right.page && g.pair.right.Leaf? == v.Leaf?
      ensures if v.Leaf? then returnAction == asked
              else returnAction.action == PUSH_KEY_TO_PARENT && returnAction.key1 == g.pair.separator
    {
      hide *;
      assert allocated(Members(chain));
      newPage, returnAction, g := SplitStored(key, leafData, insertionIndex, nodeData, cur, asked, v, h);
      more := {newPage};
      assert allocated(AllPages(g));
      if cur.isLeaf {
        OneLeafPage(v);
        LinkBehind(cur, newPage, pre, post);
      }
    }

    /** The new leaf in the chain, which is known by what stands before and behind `cur`. */
    method LinkBehind(cur: Page, newPage: Page, ghost pre: seq<Page>, ghost post: seq<Page>)
      requires ChainValid() && chain == pre + [cur] + post && newPage !in chain
      modifies this`chain, newPage`next, newPage`previous, Members(chain)`next, Members(chain)`previous
      ensures ChainValid() && chain == pre + [cur, newPage] + post
      ensures Members(chain) <= old(Members(chain)) + {newPage}
    {
      hide ChainValid;
      LinkAfter(cur, newPage, |pre|);
    }

    lemma OneLeafPage(t: Tree)
      requires t.Leaf?
      ensures LeafPages(t) == [t.page]
    {
    }

    /** The split itself (DS_BPlusTree.h:544-545, 555-650). */
    method SplitStored(key: int, leafData: int, insertionIndex: int, nodeData: Page?, cur: Page, asked: ReturnAction,
                       ghost v: Tree, ghost h: nat)
      returns (newPage: Page, returnAction: ReturnAction, ghost g: Grown)
      requires order >= 4 && Swollen(v, h, order) && cur == v.page && Missing(v, insertionIndex, order)
      requires Count(v) == order + 1 && Wanted(v, insertionIndex, key, leafData, nodeData)
      requires v.Node? ==> AllHold(v.kids, order)
      modifies cur`keys, cur`data, cur`children, cur`size
      ensures g.Two? && Lists(g, Flat(v), h, order) && Stored(g, order) && TopPage(g) == cur
      ensures AllPages(g) == Pages(v) + {newPage} && fresh(newPage)
      ensures LeavesOf(g) == if v.Leaf? then [cur, newPage] else LeafPages(v)
      ensures newPage == g.pair.right.page && g.pair.right.Leaf? == v.Leaf?
      ensures cur.isLeaf == v.Leaf?
      ensures if v.Leaf? then returnAction == asked
              else returnAction.action == PUSH_KEY_TO_PARENT && returnAction.key1 == g.pair.separator
    {
      hide FlatSeq, LeafSeq, AllSeparate, Tight, Shape, Good, Swollen, PagesOf, Sorted, LeastIs, AllHold, Missing,
        Wanted, LeftCount, InOrder;
      SwollenInOrder(v, h, order);
      SwollenApart(v, h, order);
      assert allocated(Pages(v));
      var pushed;
      newPage, pushed := SplitPage(key, leafData, insertionIndex, nodeData, cur, order, v);
      ghost var q := SplitKeeps(v, h, order, insertionIndex, newPage);
      g := Two(q);
      returnAction := asked;
      if !cur.isLeaf {
        returnAction := ReturnAction(PUSH_KEY_TO_PARENT, pushed, asked.key2);
        SplitKidsHeld(v, LeftCount(order, insertionIndex), newPage, order);
      }
    }

    /** Insertion into the leaf that the search ends in (DS_BPlusTree.h:814-825). */
    method InsertIntoLeaf(key: int, data: int, cur: Page, asked: ReturnAction,
                          ghost t: Tree, ghost pre: seq<Page>, ghost post: seq<Page>)
      returns (success: bool, newPage: Page?, returnAction: ReturnAction, ghost g: Grown, ghost more: set<Page>)
      requires order >= 4 && Good(t, 0, order) && t.Leaf? && 0 < Count(t) && Holds(t, order) && cur == t.page
      requires ChainValid() && chain == pre + LeafPages(t) + post
      modifies cur`keys, cur`data, cur`children, cur`size
      modifies this`chain, Members(chain)`next, Members(chain)`previous
      ensures success <==> Absent(Flat(t), key)
      ensures if success then Inserted(t, g, Entry(key, data), 0, order) else g == One(t)
      ensures Stored(g, order) && ChainValid() && chain == pre + LeavesOf(g) + post
      ensures fresh(more) && AllPages(g) <= Pages(t) + more && Members(chain) <= old(Members(chain)) + more
      ensures newPage == (if g.One? then null else g.pair.right.page) && returnAction == asked
    {
      hide Lists, Linked, Inserted;
      assert allocated(Pages(t));
      ghost var es := t.entries;
      assert cur.keys[..cur.size] == seq(|es|, i requires 0 <= i < |es| => es[i].key);
      var hit, index := GetIndexOf(key, cur);
      if hit {
        assert es[index].key == key;
        success, newPage, returnAction, g, more := false, null, asked, One(t), {};
      } else {
        assert forall i :: 0 <= i < index ==> es[i].key == cur.keys[i] < key;
        assert forall i :: index <= i < |es| ==> key < cur.keys[i] == es[i].key;
        newPage, returnAction, g, more := AddToLeaf(key, data, index, cur, asked, t, pre, post);
        success := true;
      }
    }

    method AddToLeaf(key: int, data: int, index: int, cur: Page, asked: ReturnAction,
                     ghost t: Tree, ghost pre: seq<Page>, ghost post: seq<Page>)
      returns (newPage: Page?, returnAction: ReturnAction, ghost g: Grown, ghost more: set<Page>)
      requires order >= 4 && Good(t, 0, order) && t.Leaf? && 0 < Count(t) && Holds(t, order) && cur == t.page
      requires 0 <= index <= |t.entries|
      requires forall i :: 0 <= i < index ==> t.entries[i].key < key
      requires forall i :: index <= i < |t.entries| ==> key < t.entries[i].key
      requires ChainValid() && chain == pre + LeafPages(t) + post
      modifies cur`keys, cur`data, cur`children, cur`size
      modifies this`chain, Members(chain)`next, Members(chain)`previous
      ensures Inserted(t, g, Entry(key, data), 0, order) && Stored(g, order)
      ensures ChainValid() && chain == pre + LeavesOf(g) + post
      ensures fresh(more) && AllPages(g) <= Pages(t) + more && Members(chain) <= old(Members(chain)) + more
      ensures newPage == (if g.One? then null else g.pair.right.page) && returnAction == asked
    {
      GrowLeafKeeps(t, order, index, Entry(key, data));
      LeafMissing(t, order, index, Entry(key, data));
      ghost var v := GrowLeaf(t, index, Entry(key, data));
      newPage, returnAction, g, more := InsertIntoNode(key, data, index, null, cur, asked, v, 0, pre, post);
    }

    /** The child was split (DS_BPlusTree.h:800-812). */
    method TakeInSplit(data: int, cur: Page, branchIndex: int, kidPage: Page, asked: ReturnAction,
                       ghost e: Entry, ghost t: Tree, ghost h: nat, ghost k: Grown, ghost extra: set<Page>,
                       ghost pre: seq<Page>, ghost post: seq<Page>)
      returns (newPage: Page?, returnAction: ReturnAction, ghost g: Grown, ghost more: set<Page>)
      requires order >= 4 && Good(t, h, order) && t.Node? && Own(t, order) && cur == t.page && k.Two?
      requires Follows(t, e.key, branchIndex) && branchIndex < |t.kids| && Absent(Flat(t), e.key)
      requires Inserted(t.kids[branchIndex], k, e, h - 1, order) && Stored(k, order)
      requires BesideHold(t, branchIndex, order)
      requires GrewApartFrom(t, branchIndex, k, extra)
      requires kidPage == k.pair.right.page
      requires k.pair.right.Node? ==> asked.action == PUSH_KEY_TO_PARENT && asked.key1 == k.pair.separator
      requires ChainValid()
      requires chain == pre + (LeafSeq(t.kids[..branchIndex]) + LeavesOf(k) + LeafSeq(t.kids[branchIndex + 1..])) + post
      modifies cur`keys, cur`data, cur`children, cur`size, AllPages(k)`size
      modifies this`chain, Members(chain)`next, Members(chain)`previous
      ensures Inserted(t, g, e, h, order) && Stored(g, order)
      ensures ChainValid() && chain == pre + LeavesOf(g) + post
      ensures fresh(more) && AllPages(g) <= Pages(t) + extra + more && Members(chain) <= old(Members(chain)) + more
      ensures newPage == if g.One? then null else g.pair.right.page
      ensures g.Two? ==> returnAction.action == PUSH_KEY_TO_PARENT && returnAction.key1 == g.pair.separator
      ensures g.One? ==> returnAction == asked
    {
      hide FlatSeq, LeafSeq, AllSeparate, Tight, Shape, Linked, Good, Swollen, Beside, BesideHold, Inserted, Stored;
      ghost var v;
      var separator;
      separator, v := FinishBoth(kidPage, asked, branchIndex, e, t, h, k, extra);
      hide Flat, LeafPages, Pages, Lists;
      newPage, returnAction, g, more :=
        InsertIntoNode(separator, data, branchIndex, kidPage, cur, asked, v, h, pre, post);
      assert Inserted(t, g, e, h, order) by {
        InsertedIntro(t, g, e, h, v);
      }
    }

    lemma InsertedIntro(t: Tree, g: Grown, e: Entry, h: nat, v: Tree)
      requires Lists(g, Flat(v), h, order) && TopPage(g) == v.page == t.page && v.Node? && t.Node?
      requires Count(t) <= Count(v)
      requires Flat(v) == With(Flat(t), e) && (g.One? ==> g.tree == v)
      requires h > 0
      ensures Inserted(t, g, e, h, order)
    {
    }

    /** The new sibling is complete and the node above lacks only it. */
    method FinishBoth(kidPage: Page, asked: ReturnAction, ghost b: nat,
                      ghost e: Entry, ghost t: Tree, ghost h: nat, ghost k: Grown, ghost extra: set<Page>)
      returns (separator: int, ghost v: Tree)
      requires order >= 4 && Good(t, h, order) && t.Node? && Own(t, order) && k.Two?
      requires Follows(t, e.key, b) && b < |t.kids| && Absent(Flat(t), e.key)
      requires Inserted(t.kids[b], k, e, h - 1, order) && Stored(k, order) && BesideHold(t, b, order)
      requires GrewApartFrom(t, b, k, extra)
      requires kidPage == k.pair.right.page
      requires k.pair.right.Node? ==> asked.action == PUSH_KEY_TO_PARENT && asked.key1 == k.pair.separator
      modifies kidPage`size
      ensures separator == k.pair.separator && v.page == t.page && v.Node? && Count(v) == Count(t) + 1 && h > 0
      ensures Swollen(v, h, order) && AllHold(v.kids, order)
      ensures Missing(v, b, order) && Wanted(v, b, separator, 0, kidPage)
      ensures Flat(v) == With(Flat(t), e) && Pages(v) <= Pages(t) + extra
      ensures LeafPages(v) == LeafSeq(t.kids[..b]) + LeavesOf(k) + LeafSeq(t.kids[b + 1..])
    {
      assert allocated(AllPages(k)) && allocated(Beside(t, b));
      assert kidPage in AllPages(k);
      hide FlatSeq, LeafSeq, AllSeparate, Tight, Shape, Linked, Good, Swollen, Beside, BesideHold;
      separator := FinishKid(kidPage, asked, h, k, e, t.kids[b]);
      assert BesideHold(t, b, order);
      v := KidsSplit(b, e, t, h, k, extra);
    }

    /** Removes the key that was handed back from a new index node (DS_BPlusTree.h:802-807). */
    method FinishKid(kidPage: Page, asked: ReturnAction, ghost h: nat, ghost k: Grown, ghost e: Entry, ghost t: Tree)
      returns (separator: int)
      requires order >= 4 && h > 0 && k.Two? && Inserted(t, k, e, h - 1, order) && Stored(k, order)
      requires kidPage == k.pair.right.page
      requires k.pair.right.Node? ==> asked.action == PUSH_KEY_TO_PARENT && asked.key1 == k.pair.separator
      modifies kidPage`size
      ensures Holds(k.pair.left, order) && Holds(k.pair.right, order) && separator == k.pair.separator
    {
      hide FlatSeq, LeafSeq, AllSeparate, Tight, Shape;
      assert allocated(AllPages(k));
      assert kidPage in Pages(k.pair.right);
      assert k.pair.right.Node? ==> kidPage !in PagesOf(k.pair.right.kids);
      if !kidPage.isLeaf {
        kidPage.size := kidPage.size - 1;
        separator := asked.key1;
      } else {
        separator := kidPage.keys[0];
      }
    }

    lemma KidsSplit(b: nat, e: Entry, t: Tree, h: nat, k: Grown, extra: set<Page>) returns (v: Tree)
      requires order >= 4 && Good(t, h, order) && t.Node? && Own(t, order)
      requires b < |t.kids| && Follows(t, e.key, b) && Absent(Flat(t), e.key) && k.Two?
      requires Inserted(t.kids[b], k, e, h - 1, order) && BesideHold(t, b, order)
      requires Holds(k.pair.left, order) && Holds(k.pair.right, order)
      requires GrewApartFrom(t, b, k, extra)
      ensures Swollen(v, h, order) && v.page == t.page && v.Node? && AllHold(v.kids, order)
      ensures Missing(v, b, order) && Wanted(v, b, k.pair.separator, 0, k.pair.right.page)
      ensures Flat(v) == With(Flat(t), e) && Pages(v) <= Pages(t) + extra && Count(v) == Count(t) + 1
      ensures LeafPages(v) == LeafSeq(t.kids[..b]) + LeavesOf(k) + LeafSeq(t.kids[b + 1..])
    {
      v := GrewApart(t, h, order, b, e, k.pair, extra);
      NodeMissing(t, order, b, k.pair);
      hide *;
      hide Own, Missing;
      AllHoldConcat(t.kids[..b] + [k.pair.left, k.pair.right], t.kids[b + 1..], order);
      AllHoldConcat(t.kids[..b], [k.pair.left, k.pair.right], order);
      AllHoldTwo(k.pair.left, k.pair.right, order);
    }

    /** The child was not split, whether or not the binding went in. */
    lemma KeepKid(b: nat, success: bool, e: Entry, t: Tree, h: nat, k: Grown, extra: set<Page>) returns (g: Grown)
      requires order >= 4 && Good(t, h, order) && t.Node? && Own(t, order) && h > 0
      requires b < |t.kids| == |t.keys| + 1 && Follows(t, e.key, b) && k.One?
      requires Outcome(success, t.kids[b], k, e, h - 1, order) && Stored(k, order) && BesideHold(t, b, order)
      requires t.kids[b].Leaf? ==> !LeafSlips(t, b, e.key, order)
      requires GrewApartFrom(t, b, k, extra)
      ensures g.One? && Outcome(success, t, g, e, h, order) && Stored(g, order) && AllPages(g) <= Pages(t) + extra
      ensures LeavesOf(g) == LeafSeq(t.kids[..b]) + LeavesOf(k) + LeafSeq(t.kids[b + 1..])
    {
      hide FlatSeq, LeafSeq, PagesOf, AllSeparate, Tight, Good, Slips, Slipped, Inserted, Beside, BesideHold;
      GoodKid(t, h, order, b);
      BoundBelow(t, h, order, e.key, b);
      SlipsThrough(t, h, order, e.key, b);
      if Slips(t, e.key, order) {
        g := KeepSlipped(b, e, t, h, k);
      } else if success {
        g := KeepGrown(b, e, t, h, k, extra);
      } else {
        g := One(t);
        KidUntouched(t, b, order);
        FlatAround(t.kids, b);
      }
    }

    lemma KeepSlipped(b: nat, e: Entry, t: Tree, h: nat, k: Grown) returns (g: Grown)
      requires t.Node? && Own(t, order) && b < |t.kids| == |t.keys| + 1 && k.One?
      requires Slipped(t.kids[b], k.tree, e) && Stored(k, order) && BesideHold(t, b, order)
      ensures g.One? && Slipped(t, g.tree, e) && Stored(g, order)
      ensures LeavesOf(g) == LeafSeq(t.kids[..b]) + LeavesOf(k) + LeafSeq(t.kids[b + 1..])
    {
      var least := if b > 0 then t.keys[b - 1] else 0;
      SlipBelow(t, b, k.tree, e);
      KidStored(t, b, k.tree, least, order);
      PutKidListing(t, b, k.tree, least);
      var u := PutKid(t, b, k.tree, least);
      assert u == Node(t.page, t.keys, t.kids[..b] + [k.tree] + t.kids[b + 1..]);
      g := One(u);
    }

    lemma KeepGrown(b: nat, e: Entry, t: Tree, h: nat, k: Grown, extra: set<Page>) returns (g: Grown)
      requires order >= 4 && Good(t, h, order) && t.Node? && Own(t, order)
      requires b < |t.kids| && Follows(t, e.key, b) && Absent(Flat(t), e.key) && k.One?
      requires Inserted(t.kids[b], k, e, h - 1, order) && Stored(k, order) && BesideHold(t, b, order)
      requires GrewApartFrom(t, b, k, extra)
      ensures g.One? && Inserted(t, g, e, h, order) && Stored(g, order) && AllPages(g) <= Pages(t) + extra
      ensures LeavesOf(g) == LeafSeq(t.kids[..b]) + LeavesOf(k) + LeafSeq(t.kids[b + 1..])
    {
      GoodKid(t, h, order, b);
      var u := GrewInside(t, h, order, b, e, k.tree, extra);
      g := One(u);
      KidStored(t, b, k.tree, if b > 0 then t.keys[b - 1] else 0, order);
    }

    /** Insertion below a page (DS_BPlusTree.h:721-828). */
    method InsertBranchDown(key: int, data: int, cur: Page, asked: ReturnAction,
                            ghost t: Tree, ghost h: nat, ghost pre: seq<Page>, ghost post: seq<Page>)
      returns (success: bool, newPage: Page?, returnAction: ReturnAction, ghost g: Grown, ghost more: set<Page>)
      requires order >= 4 && Good(t, h, order) && 0 < Count(t) && Holds(t, order) && cur == t.page
      requires asked.action == NO_ACTION
      requires ChainValid() && chain == pre + LeafPages(t) + post
      modifies Pages(t)`keys, Pages(t)`data, Pages(t)`children, Pages(t)`size
      modifies this`chain, Members(chain)`next, Members(chain)`previous
      ensures Outcome(success, t, g, Entry(key, data), h, order)
      ensures Stored(g, order) && ChainValid() && chain == pre + LeavesOf(g) + post
      ensures fresh(more) && AllPages(g) <= Pages(t) + more && Members(chain) <= old(Members(chain)) + more
      ensures newPage == if g.One? then null else g.pair.right.page
      ensures g.Two? && t.Node? ==> returnAction.action == PUSH_KEY_TO_PARENT && returnAction.key1 == g.pair.separator
      ensures g.Two? ==> returnAction.action != REPLACE_KEY1_WITH_KEY2
      ensures returnAction.action == REPLACE_KEY1_WITH_KEY2 ==> Flat(t) != [] && Flat(t)[0].key < returnAction.key1
      decreases h, 3
    {
      if cur.isLeaf {
        success, newPage, returnAction, g, more := InsertIntoLeaf(key, data, cur, asked, t, pre, post);
      } else {
        success, newPage, returnAction, g, more := InsertBelowNode(key, data, cur, asked, t, h, pre, post);
      }
    }

    /** The case of an index node (DS_BPlusTree.h:726-813). */
    method InsertBelowNode(key: int, data: int, cur: Page, asked: ReturnAction,
                           ghost t: Tree, ghost h: nat, ghost pre: seq<Page>, ghost post: seq<Page>)
      returns (success: bool, newPage: Page?, returnAction: ReturnAction, ghost g: Grown, ghost more: set<Page>)
      requires order >= 4 && Good(t, h, order) && 0 < Count(t) && Holds(t, order) && cur == t.page && t.Node?
      requires asked.action == NO_ACTION
      requires ChainValid() && chain == pre + LeafPages(t) + post
      modifies Pages(t)`keys, Pages(t)`data, Pages(t)`children, Pages(t)`size
      modifies this`chain, Members(chain)`next, Members(chain)`previous
      ensures Outcome(success, t, g, Entry(key, data), h, order)
      ensures Stored(g, order) && ChainValid() && chain == pre + LeavesOf(g) + post
      ensures fresh(more) && AllPages(g) <= Pages(t) + more && Members(chain) <= old(Members(chain)) + more
      ensures newPage == if g.One? then null else g.pair.right.page
      ensures g.Two? ==> returnAction.action == PUSH_KEY_TO_PARENT && returnAction.key1 == g.pair.separator
      ensures returnAction.action == REPLACE_KEY1_WITH_KEY2 ==> Flat(t) != [] && Flat(t)[0].key < returnAction.key1
      decreases h, 2
    {
      hide FlatSeq, LeafSeq, Pages, PagesOf, AllSeparate, Tight, Linked, Slips, Good, Holds, Outcome, Turned, LeafSlips;
      hide Follows, Children, Sorted;
      GoodNode(t, h);
      KidsInMemory(t, order, 0);
      assert allocated(Pages(t));
      var hit, childIndex, branchIndex := ChooseBranch(key, cur, t, h);
      ghost var e := Entry(key, data);
      FollowedKid(t, h, key, branchIndex);
      var child := cur.children[branchIndex];
      var full := child.isLeaf && child.size == order;
      var rotated := false;
      ghost var u := t;
      if full && !hit {
        rotated, returnAction, u := RotateLeaf(key, data, cur, branchIndex, asked, t);
      }
      if full && hit {
        success, newPage, returnAction, g, more := false, null, asked, One(t), {};
        HitIs(t, h, branchIndex, e);
      } else if rotated {
        success, newPage, g, more := true, null, One(u), {};
        TurnedIs(t, u, branchIndex, e);
      } else {
        success, newPage, returnAction, g, more := InsertBelow(key, data, cur, branchIndex, asked, t, h, pre, post);
      }
    }

    lemma GoodNode(t: Tree, h: nat)
      requires order >= 4 && Good(t, h, order) && t.Node? && 0 < Count(t)
      ensures Children(t, h, order) && Sorted(Flat(t)) && |t.keys| > 0 && 0 < |t.kids|
    {
      GoodKid(t, h, order, 0);
    }

    lemma FollowedKid(t: Tree, h: nat, key: int, b: int)
      requires order >= 4 && Good(t, h, order) && t.Node? && Follows(t, key, b)
      ensures h > 0 && 0 <= b < |t.kids| == |t.keys| + 1 && (t.kids[b].Leaf? ==> h == 1)
      ensures t.kids[b].Leaf? && Count(t.kids[b]) != order ==> !LeafSlips(t, b, key, order)
    {
      GoodKid(t, h, order, 0);
      GoodKid(t, h, order, b);
    }

    /** The search has come upon the key as a separator. */
    lemma HitIs(t: Tree, h: nat, b: int, e: Entry)
      requires order >= 4 && Good(t, h, order) && t.Node? && Follows(t, e.key, b)
      requires b > 0 && t.keys[b - 1] == e.key && b < |t.kids| && t.kids[b].Leaf?
      ensures Outcome(false, t, One(t), e, h, order)
    {
      SlipsThrough(t, h, order, e.key, b);
      GoodKid(t, h, order, b);
      FollowedAbsent(t, h, order, e.key, b);
      assert !Absent(Flat(t.kids[b]), e.key);
    }

    lemma TurnedIs(t: Tree, u: Tree, b: int, e: Entry)
      requires order >= 4 && Good(t, 1, order) && Turned(t, u, b, e, order) && Follows(t, e.key, b)
      ensures Outcome(true, t, One(u), e, 1, order)
      ensures LeafPages(u) == LeafPages(t) && Pages(u) <= Pages(t)
    {
      SlipsThrough(t, 1, order, e.key, b);
    }

    /** Rotates a binding out of a full leaf if a neighbour has room (DS_BPlusTree.h:741-791). */
    method RotateLeaf(key: int, data: int, cur: Page, branchIndex: int, asked: ReturnAction, ghost t: Tree)
      returns (rotated: bool, returnAction: ReturnAction, ghost u: Tree)
      requires order >= 4 && Good(t, 1, order) && t.Node? && Holds(t, order) && cur == t.page
      requires |t.kids| == |t.keys| + 1
      requires Follows(t, key, branchIndex) && !(branchIndex > 0 && t.keys[branchIndex - 1] == key)
      requires t.kids[branchIndex].Leaf? && Count(t.kids[branchIndex]) == order
      modifies Pages(t)`keys, Pages(t)`data, Pages(t)`children, Pages(t)`size
      ensures !rotated ==> u == t && returnAction == asked && !LeafSlips(t, branchIndex, key, order)
      ensures Holds(u, order)
      ensures rotated ==> Turned(t, u, branchIndex, Entry(key, data), order)
      ensures rotated ==>
        returnAction.action == REPLACE_KEY1_WITH_KEY2 && Flat(t) != [] && Flat(t)[0].key < returnAction.key1
    {
      hide FlatSeq, LeafSeq, PagesOf, AllSeparate, Tight, Slips;
      GoodKid(t, 1, order, branchIndex);
      KidsInMemory(t, order, branchIndex);
      rotated, returnAction, u := false, asked, t;
      if CanRotateLeft(cur, branchIndex) {
        var key1, key2;
        key1, key2, u := RotateIntoLeft(key, data, cur, branchIndex, order, t);
        rotated, returnAction := true, ReturnAction(REPLACE_KEY1_WITH_KEY2, key1, key2);
      } else if CanRotateRight(cur, branchIndex) {
        var key1, key2;
        key1, key2, u := RotateIntoRight(key, data, cur, branchIndex, order, t);
        rotated, returnAction := true, ReturnAction(REPLACE_KEY1_WITH_KEY2, key1, key2);
      }
    }

    /** DS_BPlusTree.h:656-660 */
    predicate CanRotateLeft(cur: Page, childIndex: int)
      reads cur`children, cur.children`size
    {
      childIndex > 0 && childIndex - 1 < |cur.children| && cur.children[childIndex - 1] != null
      && cur.children[childIndex - 1].size < order
    }

    /** DS_BPlusTree.h:681-685 */
    predicate CanRotateRight(cur: Page, childIndex: int)
      reads cur`size, cur`children, cur.children`size
    {
      0 <= childIndex < cur.size && childIndex + 1 < |cur.children| && cur.children[childIndex + 1] != null
      && cur.children[childIndex + 1].size < order
    }

    /** The recursive step of insertion (DS_BPlusTree.h:794-812). */
    method InsertBelow(key: int, data: int, cur: Page, branchIndex: int, asked: ReturnAction,
                       ghost t: Tree, ghost h: nat, ghost pre: seq<Page>, ghost post: seq<Page>)
      returns (success: bool, newPage: Page?, returnAction: ReturnAction, ghost g: Grown, ghost more: set<Page>)
      requires order >= 4 && Good(t, h, order) && 0 < Count(t) && Holds(t, order) && cur == t.page && t.Node?
      requires asked.action == NO_ACTION && Follows(t, key, branchIndex) && |t.kids| == |t.keys| + 1
      requires t.kids[branchIndex].Leaf? ==> !LeafSlips(t, branchIndex, key, order)
      requires ChainValid() && chain == pre + LeafPages(t) + post
      modifies Pages(t)`keys, Pages(t)`data, Pages(t)`children, Pages(t)`size
      modifies this`chain, Members(chain)`next, Members(chain)`previous
      ensures Outcome(success, t, g, Entry(key, data), h, order)
      ensures Stored(g, order) && ChainValid() && chain == pre + LeavesOf(g) + post
      ensures fresh(more) && AllPages(g) <= Pages(t) + more && Members(chain) <= old(Members(chain)) + more
      ensures newPage == if g.One? then null else g.pair.right.page
      ensures g.Two? ==> returnAction.action == PUSH_KEY_TO_PARENT && returnAction.key1 == g.pair.separator
      ensures returnAction.action == REPLACE_KEY1_WITH_KEY2 ==> Flat(t) != [] && Flat(t)[0].key < returnAction.key1
      decreases h, 1
    {
      hide Flat, FlatSeq, LeafSeq, LeafPages, Pages, PagesOf, Good, Shape, Tight, Separate, AllSeparate, LeafSlips;
      hide Holds, AllHold, Beside, BesideHold, Linked, Slips, Outcome, Inserted, Stored, GrewApartFrom, LeavesOf,
        AllPages;
      ghost var k, extra;
      var kidPage;
      KidPages(t);
      success, kidPage, returnAction, k, extra := InsertIntoChild(key, data, cur, branchIndex, asked, t, h, pre, post);
      ghost var e := Entry(key, data);
      InMemoryBelow(t, branchIndex, k, extra);
      // The key replacement of DS_BPlusTree.h:795-799 never happens: a rotation below hands up a key
      // that is a separator further down, and no key is a separator twice.
      assert !(returnAction.action == REPLACE_KEY1_WITH_KEY2 && branchIndex > 0
               && cur.keys[branchIndex - 1] == returnAction.key1);
      if kidPage == null {
        newPage, more := null, extra;
        g := KeepKid(branchIndex, success, e, t, h, k, extra);
      } else {
        SplitMeans(branchIndex, success, e, t, h, k);
        newPage, returnAction, g, more := TakeInSplit(
          data, cur, branchIndex, kidPage, returnAction, e, t, h, k, extra, pre, post);
        GrownOutcome(t, g, e, h);
        more := more + extra;
      }
    }

    lemma InMemoryBelow(t: Tree, b: int, k: Grown, extra: set<Page>)
      requires t.Node? && 0 <= b < |t.kids| == |t.keys| + 1 && Own(t, order) && GrewApartFrom(t, b, k, extra)
      ensures t.page in Pages(t) && AllPages(k) <= Pages(t) + extra
      ensures |t.page.keys| == order && |t.keys| <= order
    {
      KidPages(t);
    }

    lemma GrownOutcome(t: Tree, g: Grown, e: Entry, h: nat)
      requires Inserted(t, g, e, h, order) && Absent(Flat(t), e.key) && !Slips(t, e.key, order)
      ensures Outcome(true, t, g, e, h, order)
    {
    }

    /** A child that was split has taken the binding in. */
    lemma SplitMeans(b: nat, success: bool, e: Entry, t: Tree, h: nat, k: Grown)
      requires order >= 4 && Good(t, h, order) && t.Node? && h > 0
      requires b < |t.kids| == |t.keys| + 1 && Follows(t, e.key, b) && k.Two?
      requires Outcome(success, t.kids[b], k, e, h - 1, order)
      requires t.kids[b].Leaf? ==> !LeafSlips(t, b, e.key, order)
      ensures success && Absent(Flat(t), e.key) && Inserted(t.kids[b], k, e, h - 1, order)
      ensures !Slips(t, e.key, order)
    {
      hide Good, Slips, Slipped, Inserted, Flat, LeafSlips;
      BoundBelow(t, h, order, e.key, b);
      SlipsThrough(t, h, order, e.key, b);
    }

    /** The recursive call itself, seen from the node above (DS_BPlusTree.h:794). A rotation below
        never concerns a separator of this node. */
    method InsertIntoChild(key: int, data: int, cur: Page, branchIndex: int, asked: ReturnAction,
                           ghost t: Tree, ghost h: nat, ghost pre: seq<Page>, ghost post: seq<Page>)
      returns (success: bool, kidPage: Page?, returnAction: ReturnAction, ghost k: Grown, ghost extra: set<Page>)
      requires order >= 4 && Good(t, h, order) && 0 < Count(t) && Holds(t, order) && cur == t.page && t.Node?
      requires asked.action == NO_ACTION && Follows(t, key, branchIndex) && |t.kids| == |t.keys| + 1
      requires t.kids[branchIndex].Leaf? ==> !LeafSlips(t, branchIndex, key, order)
      requires ChainValid() && chain == pre + LeafPages(t) + post
      modifies Pages(t.kids[branchIndex])`keys, Pages(t.kids[branchIndex])`data
      modifies Pages(t.kids[branchIndex])`children, Pages(t.kids[branchIndex])`size
      modifies this`chain, Members(chain)`next, Members(chain)`previous
      ensures h > 0 && Own(t, order) && BesideHold(t, branchIndex, order) && ChainValid()
      ensures Outcome(success, t.kids[branchIndex], k, Entry(key, data), h - 1, order) && Stored(k, order)
      ensures chain == pre + (LeafSeq(t.kids[..branchIndex]) + LeavesOf(k) + LeafSeq(t.kids[branchIndex + 1..])) + post
      ensures fresh(extra) && GrewApartFrom(t, branchIndex, k, extra) && Members(chain) <= old(Members(chain)) + extra
      ensures kidPage == if k.One? then null else k.pair.right.page
      ensures k.Two? && k.pair.right.Node? ==>
        returnAction.action == PUSH_KEY_TO_PARENT && returnAction.key1 == k.pair.separator
      ensures k.Two? ==> returnAction.action != REPLACE_KEY1_WITH_KEY2
      ensures returnAction.action == REPLACE_KEY1_WITH_KEY2 ==>
        && Flat(t) != [] && Flat(t)[0].key < returnAction.key1
        && (branchIndex > 0 ==> cur.keys[branchIndex - 1] != returnAction.key1)
      decreases h, 0
    {
      hide Flat, FlatSeq, LeafSeq, LeafPages, Pages, PagesOf, Good, Shape, Tight, Separate, AllSeparate;
      hide Holds, AllHold, Beside, BesideHold, Linked, Slips;
      ReadyBelow(t, h, branchIndex, key, pre, post);
      ghost var kid := t.kids[branchIndex];
      ghost var left, right := LeafSeq(t.kids[..branchIndex]), LeafSeq(t.kids[branchIndex + 1..]);
      assert allocated(Beside(t, branchIndex)) && allocated(Pages(t));
      success, kidPage, returnAction, k, extra :=
        InsertBranchDown(key, data, cur.children[branchIndex], asked, kid, h - 1, pre + left, right + post);
      assert BesideHold(t, branchIndex, order);
      ChainAround(pre, left, LeavesOf(k), right, post);
    }

    /** Everything the recursive call of an insertion needs to know about the followed child. */
    lemma ReadyBelow(t: Tree, h: nat, b: nat, key: int, pre: seq<Page>, post: seq<Page>)
      requires order >= 4 && Good(t, h, order) && 0 < Count(t) && Holds(t, order) && t.Node?
      requires Follows(t, key, b)
      ensures h > 0 && b < |t.kids| == |t.keys| + 1 && Own(t, order) && t.page.children[b] == t.kids[b].page
      ensures Good(t.kids[b], h - 1, order) && 0 < Count(t.kids[b])
      ensures Holds(t.kids[b], order) && BesideHold(t, b, order)
      ensures t.page !in Beside(t, b) && t.page !in Pages(t.kids[b]) && Pages(t.kids[b]) !! Beside(t, b)
      ensures Pages(t.kids[b]) <= Pages(t) && Beside(t, b) <= Pages(t)
      ensures Absent(Flat(t), key) <==> Absent(Flat(t.kids[b]), key)
      ensures Flat(t) != [] && Flat(t.kids[b]) != [] && Flat(t)[0].key <= Flat(t.kids[b])[0].key
      ensures b > 0 ==> Flat(t.kids[b])[0].key == t.keys[b - 1]
      ensures pre + LeafPages(t) + post ==
        (pre + LeafSeq(t.kids[..b])) + LeafPages(t.kids[b]) + (LeafSeq(t.kids[b + 1..]) + post)
    {
      GoodKid(t, h, order, b);
      FollowedAbsent(t, h, order, key, b);
      KidLoaded(t, b, order);
      KidApart(t, b);
      FlatAround(t.kids, b);
      FirstAtMost(t, h, b);
      ChainAround(pre, LeafSeq(t.kids[..b]), LeafPages(t.kids[b]), LeafSeq(t.kids[b + 1..]), post);
    }

    lemma FirstAtMost(t: Tree, h: nat, b: nat)
      requires order >= 4 && Good(t, h, order) && t.Node? && b < |t.kids|
      ensures Flat(t) != [] && Flat(t.kids[b]) != [] && Flat(t)[0].key <= Flat(t.kids[b])[0].key
    {
      GoodKid(t, h, order, b);
      GoodKid(t, h, order, 0);
      FirstKid(t, h, order);
      NonEmpty(t.kids[b], h - 1, order);
      if b > 0 {
        SeparatorsOrdered(t.kids, 0, b);
      }
    }

    /** A key that is bound, but that insertion does not notice (see Slips). */
    ghost predicate SlipsPast(key: int)
      reads this
    {
      shape.Whole? && Slips(shape.tree, key, order)
    }

    /** A key that is not bound never slips past. */
    lemma FreshKey(key: int)
      requires Valid() && key !in Contents()
      ensures !SlipsPast(key)
    {
      MapOfAbsent(Listing(), key);
      if shape.Whole? {
        FreshNeverSlips(shape.tree, shape.height, order, key);
      }
    }

    /** DS_BPlusTree.h:829-876.  The invariant is kept exactly when the key does not slip past; when it does,
        the leaves bind it twice and out of order. */
    method Insert(key: int, data: int) returns (ok: bool)
      requires Valid()
      modifies this, Footprint()
      ensures fresh(Footprint() - old(Footprint()))
      ensures key !in old(Contents()) ==> ok && Valid() && Contents() == old(Contents())[key := data]
      ensures key in old(Contents()) && !old(SlipsPast(key)) ==> !ok && Valid() && Contents() == old(Contents())
      ensures old(SlipsPast(key)) ==> ok && key in old(Contents()) && OutOfOrder(old(Listing()), Entry(key, data))
      ensures Valid() <==> !old(SlipsPast(key))
    {
      ghost var s := Listing();
      MapOfAbsent(s, key);
      ghost var slips := SlipsPast(key);
      if key !in Contents() {
        FreshKey(key);
      }
      ok := InsertListed(key, data);
      if ok && !slips {
        MapOfWith(s, Entry(key, data));
      }
    }

    /** The leaf chain holds the bindings `s` and one more, and is out of order. */
    ghost predicate OutOfOrder(s: seq<Entry>, e: Entry)
      reads this, Members(chain)
    {
      && ChainValid() && (forall p :: p in chain ==> p.Buffers(order))
      && multiset(ChainListing(chain)) == multiset(s) + multiset{e}
      && !Sorted(ChainListing(chain)) && !Sorted(Listing())
    }

    method InsertListed(key: int, data: int) returns (ok: bool)
      requires Valid()
      modifies this, Footprint()
      ensures fresh(Footprint() - old(Footprint()))
      ensures old(SlipsPast(key)) ==> ok && OutOfOrder(old(Listing()), Entry(key, data))
      ensures !old(SlipsPast(key)) ==>
        && Valid() && (ok <==> Absent(old(Listing()), key))
        && Listing() == if ok then With(old(Listing()), Entry(key, data)) else old(Listing())
    {
      if root == null {
        FirstLeaf(key, data);
        return true;
      }
      ok := InsertAtRoot(key, data);
    }

    method InsertAtRoot(key: int, data: int) returns (ok: bool)
      requires Valid() && shape.Whole?
      modifies this, Footprint()
      ensures fresh(Footprint() - old(Footprint()))
      ensures old(SlipsPast(key)) ==> ok && OutOfOrder(old(Listing()), Entry(key, data))
      ensures !old(SlipsPast(key)) ==>
        && Valid() && (ok <==> Absent(old(Listing()), key))
        && Listing() == if ok then With(old(Listing()), Entry(key, data)) else old(Listing())
    {
      hide Flat, LeafPages, Pages, AllPages, LeavesOf, Good, Holds, Stored, Outcome, Inserted, Slips, OutOfOrder;
      hide ChainValid, Sorted, Absent, With, Members;
      ghost var t, h := shape.tree, shape.height;
      var newPage, returnAction;
      ghost var g, more;
      ok, newPage, returnAction, g, more :=
        InsertBranchDown(key, data, root, ReturnAction(NO_ACTION, 0, 0), t, h, [], []);
      assert chain == LeavesOf(g);
      OnlyNewSplits(ok, t, g, Entry(key, data), h);
      if newPage == null {
        KeepRoot(ok, t, h, g, Entry(key, data));
      } else {
        ghost var top := GrowRoot(key, data, newPage, returnAction, t, h, g);
        more := more + top;
      }
      assert Footprint() <= old(Footprint()) + more;
    }

    /** Only a binding that is new and has not slipped past splits a page. */
    lemma OnlyNewSplits(ok: bool, t: Tree, g: Grown, e: Entry, h: nat)
      requires Outcome(ok, t, g, e, h, order)
      ensures g.Two? ==> ok && Absent(Flat(t), e.key) && !Slips(t, e.key, order) && Inserted(t, g, e, h, order)
      ensures g.Two? ==> g.pair.right.page in AllPages(g) && g.pair.right.Leaf? == t.Leaf?
    {
      hide Flat, Slips, Absent, Lists;
    }

    /** The root was not split. */
    ghost method KeepRoot(ok: bool, t: Tree, h: nat, g: Grown, e: Entry)
      requires order >= 4 && Good(t, h, order) && 0 < Count(t) && root == t.page && g.One?
      requires Outcome(ok, t, g, e, h, order) && Stored(g, order) && ChainValid() && chain == LeavesOf(g)
      modifies this`shape
      ensures shape == Whole(g.tree, h) && Footprint() == AllPages(g)
      ensures Slips(t, e.key, order) ==> ok && OutOfOrder(Flat(t), e)
      ensures !Slips(t, e.key, order) ==>
        Valid() && (ok <==> Absent(Flat(t), e.key)) && Listing() == if ok then With(Flat(t), e) else Flat(t)
    {
      hide FlatSeq, LeafSeq, PagesOf, AllSeparate, Separate, Tight, Shape, Linked, Holds, Slips;
      LeafPagesIn(g.tree);
      LeavesStoreListing(g.tree, order);
      shape := Whole(g.tree, h);
    }

    /** The first binding (DS_BPlusTree.h:832-843). */
    method FirstLeaf(key: int, data: int)
      requires Valid() && shape == Nothing
      modifies this
      ensures Valid() && fresh(Footprint())
      ensures Listing() == [Entry(key, data)]
    {
      var page := new Page(order);
      page.isLeaf := true;
      root := page;
      leftmostLeaf := page;
      page.size := 1;
      page.keys := page.keys[0 := key];
      page.data := page.data[0 := data];
      page.next := null;
      page.previous := null;
      shape := Whole(Leaf(page, [Entry(key, data)]), 0);
      chain := [page];
    }

    /** The root was split: a new root above both halves (DS_BPlusTree.h:852-872). */
    method GrowRoot(key: int, data: int, newPage: Page, returnAction: ReturnAction,
                    ghost t: Tree, ghost h: nat, ghost g: Grown) returns (ghost top: set<Page>)
      requires order >= 4 && g.Two? && Good(t, h, order) && Absent(Flat(t), key)
      requires Inserted(t, g, Entry(key, data), h, order) && Stored(g, order) && newPage == g.pair.right.page
      requires g.pair.right.Node? ==>
        returnAction.action == PUSH_KEY_TO_PARENT && returnAction.key1 == g.pair.separator
      requires ChainValid() && chain == LeavesOf(g) && root == t.page
      modifies this`root, this`shape, newPage`size
      ensures Valid() && Listing() == With(Flat(t), Entry(key, data))
      ensures fresh(top) && Footprint() <= AllPages(g) + top
    {
      hide *;
      HalvesGrown(t, h, g, Entry(key, data));
      assert allocated(AllPages(g)) && allocated(Members(chain));
      var newKey := FinishKid(newPage, returnAction, h + 1, g, Entry(key, data), t);
      top := PlaceRoot(newKey, newPage, h, g, With(Flat(t), Entry(key, data)));
    }

    /** What the split of the root has to say about its halves. */
    lemma HalvesGrown(t: Tree, h: nat, g: Grown, e: Entry)
      requires g.Two? && Good(t, h, order) && Absent(Flat(t), e.key) && Inserted(t, g, e, h, order)
      ensures g.pair.left.page == t.page && {t.page, g.pair.right.page} <= AllPages(g)
      ensures Lists(g, With(Flat(t), e), h, order) && Sorted(With(Flat(t), e))
    {
      hide Flat, FlatSeq, LeafSeq, LeafPages, PagesOf, AllSeparate, Separate, Tight, Shape, Lists, With, Absent;
      WithSorted(Flat(t), e);
    }

    method PlaceRoot(newKey: int, newPage: Page, ghost h: nat, ghost g: Grown, ghost s: seq<Entry>)
      returns (ghost top: set<Page>)
      requires order >= 4 && g.Two? && Lists(g, s, h, order) && Sorted(s)
      requires Holds(g.pair.left, order) && Holds(g.pair.right, order)
      requires newPage == g.pair.right.page && newKey == g.pair.separator && root == g.pair.left.page
      requires ChainValid() && chain == LeavesOf(g)
      modifies this`root, this`shape
      ensures Valid() && Listing() == s
      ensures fresh(top) && Footprint() <= AllPages(g) + top
    {
      hide Flat, FlatSeq, LeafSeq, LeafPages, Pages, PagesOf, AllSeparate, Separate, Tight, Shape, Good, Linked, Own,
        Lists;
      assert allocated(Pages(g.pair.left)) && allocated(Pages(g.pair.right));
      var newRoot := NewRoot(newKey, root, newPage, g.pair);
      top := {newRoot};
      ghost var u := RootGrows(g.pair, h, order, s, newRoot);
      AllHoldTwo(g.pair.left, g.pair.right, order);
      LeafPagesIn(u);
      root := newRoot;
      shape := Whole(u, h + 1);
    }

    method NewRoot(newKey: int, left: Page, right: Page, ghost q: Pair) returns (newRoot: Page)
      requires order >= 4 && left == q.left.page && right == q.right.page && newKey == q.separator
      ensures fresh(newRoot) && Own(Node(newRoot, [q.separator], [q.left, q.right]), order)
    {
      newRoot := new Page(order);
      newRoot.isLeaf := false;
      newRoot.size := 1;
      newRoot.keys := newRoot.keys[0 := newKey];
      newRoot.children := newRoot.children[0 := left][1 := right];
    }
  }

  /** The leaves of a child among all leaves. */
  lemma ChainAround(pre: seq<Page>, left: seq<Page>, mid: seq<Page>, right: seq<Page>, post: seq<Page>)
    ensures pre + (left + mid + right) + post == (pre + left) + mid + (right + post)
  {
  }

  /** The links of page `k` of a chain. */
  ghost predicate LinkedAt(chain: seq<Page>, k: int)
    requires 0 <= k < |chain|
    reads Members(chain)`next, Members(chain)`previous
  {
    && chain[k].next == (if k + 1 < |chain| then chain[k + 1] else null)
    && chain[k].previous == if k > 0 then chain[k - 1] else null
  }

  lemma LinkedWithout(was: seq<Page>, i: nat)
    requires Distinct(was) && i < |was|
    requires forall k :: 0 <= k < |was| && k != i && k != i - 1 && k != i + 1 ==> LinkedAt(was, k)
    requires i > 0 ==> was[i - 1].next == (if i + 1 < |was| then was[i + 1] else null)
    requires i > 0 ==> was[i - 1].previous == (if i > 1 then was[i - 2] else null)
    requires i + 1 < |was| ==> was[i + 1].previous == (if i > 0 then was[i - 1] else null)
    requires i + 1 < |was| ==> was[i + 1].next == (if i + 2 < |was| then was[i + 2] else null)
    ensures Linked(was[..i] + was[i + 1..])
  {
    var c := was[..i] + was[i + 1..];
    assert forall k :: 0 <= k < |c| ==> c[k] == was[if k < i then k else k + 1];
    forall k | 0 <= k < |c| ensures LinkedAt(c, k) {
      if k < i - 1 {
        assert LinkedAt(was, k);
      } else if k > i {
        assert LinkedAt(was, k + 1);
      }
    }
  }

  lemma LinkedWith(was: seq<Page>, i: nat, p: Page)
    requires Distinct(was) && i < |was| && p !in was
    requires forall k :: 0 <= k < |was| && k != i && k != i + 1 ==> LinkedAt(was, k)
    requires was[i].next == p && was[i].previous == (if i > 0 then was[i - 1] else null)
    requires p.previous == was[i] && p.next == (if i + 1 < |was| then was[i + 1] else null)
    requires i + 1 < |was| ==> was[i + 1].previous == p
    requires i + 1 < |was| ==> was[i + 1].next == (if i + 2 < |was| then was[i + 2] else null)
    ensures Linked(was[..i + 1] + [p] + was[i + 1..])
  {
    var c := was[..i + 1] + [p] + was[i + 1..];
    assert forall k :: 0 <= k < |c| ==> c[k] == if k <= i then was[k] else if k == i + 1 then p else was[k - 1];
    forall k | 0 <= k < |c| ensures LinkedAt(c, k) {
      if k < i {
        assert LinkedAt(was, k);
      } else if k > i + 2 {
        assert LinkedAt(was, k - 1);
      }
    }
  }
}
