/** Runs of operations on freshly made containers: whatever is done, the containers stay what they stand for. */
module Runs {

  import opened Collections
  import opened Powers
  import B = BPlusTree
  import opened AvlShapes
  import opened AvlTrees
  import opened MemoryPools
  import M = Multilists
  import opened Queues
  import O = ObjectPools
  import R = RangeLists

  // ----- the B+ tree -----

  datatype TreeStep = Insert(key: int, data: int) | Delete(key: int)

  /** The map after a run on an empty one. */
  function MapAfter(steps: seq<TreeStep>): map<int, int> {
    if steps == [] then map[]
    else
      var m := MapAfter(steps[..|steps| - 1]);
      match steps[|steps| - 1]
      case Insert(key, data) => if key in m then m else m[key := data]
      case Delete(key) => m - {key}
  }

  /** No key is inserted while it is bound. */
  ghost predicate InsertsFresh(steps: seq<TreeStep>) {
    forall i :: 0 <= i < |steps| && steps[i].Insert? ==> steps[i].key !in MapAfter(steps[..i])
  }

  /** After any run of fresh insertions and of deletions the tree stands for the map. */
  method RunTree(order: nat, steps: seq<TreeStep>) returns (t: B.BPlusTree)
    requires order >= 4 && InsertsFresh(steps)
    ensures fresh(t) && t.Valid() && t.Contents() == MapAfter(steps)
  {
    hide *;
    t := new B.BPlusTree(order);
    MapGrows(steps, 0);
    var i := 0;
    while i < |steps|
      invariant 0 <= i <= |steps| && fresh(t) && fresh(t.Footprint()) && t.Valid()
      invariant t.Contents() == MapAfter(steps[..i])
    {
      MapGrows(steps, i);
      ghost var before := t.Footprint();
      label Before:
      match steps[i] {
        case Insert(key, data) =>
          FreshThere(steps, i);
          var _ := t.Insert(key, data);
        case Delete(key) =>
          var _, _ := t.Delete(key);
      }
      ghost var more := t.Footprint() - before;
      assert fresh@Before(more) && t.Footprint() <= before + more;
      i := i + 1;
    }
    assert steps[..i] == steps;
  }

  lemma MapGrows(steps: seq<TreeStep>, i: nat)
    ensures MapAfter(steps[..0]) == map[]
    ensures i < |steps| ==>
              var m := MapAfter(steps[..i]);
              MapAfter(steps[..i + 1]) ==
                match steps[i]
                case Insert(key, data) => (if key in m then m else m[key := data])
                case Delete(key) => m - {key}
  {
    if i < |steps| {
      assert steps[..i + 1][..i] == steps[..i];
    }
  }

  lemma FreshThere(steps: seq<TreeStep>, i: nat)
    requires InsertsFresh(steps) && i < |steps| && steps[i].Insert?
    ensures steps[i].key !in MapAfter(steps[..i])
  {
  }

  // ----- the AVL tree -----

  /** After adding any list of elements the tree holds each of them once, ordered, balanced and shallow. */
  method RunAvl(items: seq<int>) returns (t: AvlTree)
    ensures fresh(t) && t.Valid() && Elems(t.shape) == set x | x in items
    ensures t.size == |set x | x in items| && Power(2, Ht(t.shape) / 2) <= t.size + 1
  {
    hide *;
    t := new AvlTree();
    var i := 0;
    NoElems();
    while i < |items|
      invariant 0 <= i <= |items| && fresh(t) && fresh(Nodes(t.shape)) && t.Valid()
      invariant Elems(t.shape) == set x | x in items[..i]
    {
      ghost var before := Nodes(t.shape);
      label Before:
      var _ := t.Add(items[i]);
      ghost var more := Nodes(t.shape) - before;
      assert fresh@Before(more) && Nodes(t.shape) <= before + more;
      assert items[..i + 1] == items[..i] + [items[i]];
      i := i + 1;
    }
    assert items[..i] == items;
    t.Shallow();
    SizeIs(t);
  }

  lemma NoElems()
    ensures Elems(Nil) == {} && Nodes(Nil) == {}
  {
  }

  lemma SizeIs(t: AvlTree)
    requires t.Valid()
    ensures t.size == |Elems(t.shape)|
  {
  }

  // ----- the memory pool -----

  datatype PoolStep = Allocate(enough: bool) | Release(index: nat)

  /** The user's blocks after any run of allocations, some of which may find no memory for a new page, and of
      releases of blocks in hand: distinct, and exactly those that the pool takes for held.  No more than three pages
      are kept of which the user has no block. */
  method RunPool(blockSize: nat, pageSize: nat, steps: seq<PoolStep>)
    returns (pool: MemoryPool, blocks: seq<MemoryWithPage>)
    requires 1 <= blockSize && 2 <= pageSize / blockSize
    ensures fresh(pool) && pool.Valid() && Distinct(blocks) && pool.held == (set b | b in blocks)
    ensures var idle := set p | p in pool.Pages() && forall b :: b in p.block ==> b !in blocks; |idle| <= 3
  {
    hide *;
    pool := new MemoryPool(blockSize, pageSize);
    blocks := [];
    NothingHeld();
    var i := 0;
    while i < |steps|
      invariant 0 <= i <= |steps| && fresh(pool) && fresh(pool.Footprint()) && pool.Valid()
      invariant Distinct(blocks) && pool.held == (set b | b in blocks)
    {
      ghost var before := pool.Footprint();
      label Before:
      match steps[i] {
        case Allocate(enough) =>
          var b := pool.Allocate(if enough then Plenty else NoPage);
          if b != null {
            OneMore(blocks, b);
            blocks := blocks + [b];
          }
        case Release(index) =>
          if index < |blocks| {
            var b := blocks[index];
            OneLess(blocks, index);
            var _ := pool.Release(b);
            blocks := blocks[..index] + blocks[index + 1..];
          }
      }
      ghost var more := pool.Footprint() - before;
      assert fresh@Before(more) && pool.Footprint() <= before + more;
      i := i + 1;
    }
    FewFree(pool, blocks);
  }

  /** A new pool that gets memory for its first page and not for the blocks is out of order. */
  method PageWithoutBlocks() returns (pool: MemoryPool, block: MemoryWithPage?)
    ensures fresh(pool) && block == null && !pool.Valid()
  {
    pool := new MemoryPool(8, 16384);
    block := pool.Allocate(NoBlocks);
  }

  lemma NothingHeld()
    ensures Distinct<MemoryWithPage>([])
  {
  }

  lemma OneMore(blocks: seq<MemoryWithPage>, b: MemoryWithPage)
    requires Distinct(blocks) && b !in blocks
    ensures Distinct(blocks + [b])
    ensures (set c | c in blocks + [b]) == (set c | c in blocks) + {b}
  {
  }

  lemma OneLess(blocks: seq<MemoryWithPage>, i: nat)
    requires Distinct(blocks) && i < |blocks|
    ensures blocks[i] in blocks
    ensures Distinct(blocks[..i] + blocks[i + 1..])
    ensures var rest := blocks[..i] + blocks[i + 1..]; (set c | c in rest) == (set c | c in blocks) - {blocks[i]}
  {
    var rest := blocks[..i] + blocks[i + 1..];
    forall c | c in blocks && c != blocks[i] ensures c in rest {
      var k :| 0 <= k < |blocks| && blocks[k] == c;
      assert rest[if k < i then k else k - 1] == c;
    }
  }

  lemma FewFree(pool: MemoryPool, blocks: seq<MemoryWithPage>)
    requires pool.Valid() && pool.held == (set b | b in blocks)
    ensures var idle := set p | p in pool.Pages() && forall b :: b in p.block ==> b !in blocks; |idle| <= 3
  {
    hide MemoryPool.BlocksPerPage, Ring, Apart, Strangers, Page.Ok, Page.Stacked;
    var idle := set p | p in pool.Pages() && forall b :: b in p.block ==> b !in blocks;
    forall p | p in idle ensures p in pool.FreePages() {
      IdleIsFree(p, pool.Pages(), pool.BlocksPerPage(), pool.held);
    }
    SubsetCardinality(idle, pool.FreePages());
  }

  // ----- the queue -----

  datatype QueueStep =
    | Push(x: int)
    | PushAtHead(x: int, index: nat)
    | Pop
    | PopTail
    | RemoveAtIndex(index: nat)
    | Compress

  /** What a step does to the plain sequence; a step that has nothing to work on does nothing. */
  function QueueStepped(s: seq<int>, step: QueueStep): seq<int> {
    match step
    case Push(x) => s + [x]
    case PushAtHead(x, index) => if index <= |s| then s[..index] + [x] + s[index..] else s
    case Pop => if s == [] then s else s[1..]
    case PopTail => if s == [] then s else s[..|s| - 1]
    case RemoveAtIndex(index) => if index < |s| then s[..index] + s[index + 1..] else s
    case Compress => s
  }

  function QueueAfter(steps: seq<QueueStep>): seq<int> {
    if steps == [] then [] else QueueStepped(QueueAfter(steps[..|steps| - 1]), steps[|steps| - 1])
  }

  /** After any run the queue holds what the plain sequence holds. */
  method RunQueue(steps: seq<QueueStep>) returns (q: Queue<int>)
    ensures fresh(q) && q.Valid() && q.Contents() == QueueAfter(steps)
  {
    hide *;
    q := new Queue();
    QueueGrows(steps, 0);
    var i := 0;
    while i < |steps|
      invariant 0 <= i <= |steps| && fresh(q) && fresh(q.array_) && q.Valid()
      invariant q.Contents() == QueueAfter(steps[..i])
    {
      QueueGrows(steps, i);
      StepQueue(q, steps[i]);
      i := i + 1;
    }
    assert steps[..i] == steps;
  }

  method StepQueue(q: Queue<int>, step: QueueStep)
    requires q.Valid()
    modifies q, q.array_
    ensures q.Valid() && q.Contents() == QueueStepped(old(q.Contents()), step)
    ensures fresh(q.array_) || q.array_ == old(q.array_)
  {
    hide Queue.Valid, Queue.Contents, Queue.Size, Queue.IsEmpty;
    match step {
      case Push(x) =>
        q.Push(x);
      case PushAtHead(x, index) =>
        if index <= q.Size() {
          q.PushAtHead(x, index);
        }
      case Pop =>
        if !q.IsEmpty() {
          var _ := q.Pop();
        }
      case PopTail =>
        if !q.IsEmpty() {
          ghost var s := q.Contents();
          var x := q.PopTail();
          assert s[..|s| - 1] == q.Contents();
        }
      case RemoveAtIndex(index) =>
        q.RemoveAtIndex(index);
      case Compress =>
        q.Compress();
    }
  }

  lemma QueueGrows(steps: seq<QueueStep>, i: nat)
    ensures QueueAfter(steps[..0]) == []
    ensures i < |steps| ==> QueueAfter(steps[..i + 1]) == QueueStepped(QueueAfter(steps[..i]), steps[i])
  {
    if i < |steps| {
      assert steps[..i + 1][..i] == steps[..i];
    }
  }

  // ----- the sorted list -----

  datatype ListStep = Append(x: int) | SetSortOrder(ascending: bool) | Clear | Sort(force: bool)

  /** What was appended since the list was cleared last. */
  function AppendedBy(steps: seq<ListStep>): multiset<int> {
    if steps == [] then multiset{}
    else
      var m := AppendedBy(steps[..|steps| - 1]);
      match steps[|steps| - 1]
      case Append(x) => m + multiset{x}
      case Clear => multiset{}
      case _ => m
  }

  /** The order set last; a new list sorts ascending. */
  predicate AscendingAfter(steps: seq<ListStep>) {
    if steps == [] then true
    else
      match steps[|steps| - 1]
      case SetSortOrder(ascending) => ascending
      case _ => AscendingAfter(steps[..|steps| - 1])
  }

  /** After any run that ends by sorting, the list holds what was appended, in the order set last. */
  method RunMultilist(steps: seq<ListStep>, force: bool) returns (list: M.Multilist)
    ensures fresh(list) && list.Valid() && multiset(list.Items()) == AppendedBy(steps)
    ensures forall i, j :: 0 <= i < j < |list.Items()| ==>
              if AscendingAfter(steps) then list.Items()[i] <= list.Items()[j] else list.Items()[i] >= list.Items()[j]
  {
    hide *;
    list := new M.Multilist();
    ListGrows(steps, 0);
    var i := 0;
    while i < |steps|
      invariant 0 <= i <= |steps| && fresh(list) && fresh(list.data) && list.Valid()
      invariant multiset(list.Items()) == AppendedBy(steps[..i])
      invariant list.ascendingSort == AscendingAfter(steps[..i])
    {
      ListGrows(steps, i);
      StepList(list, steps[i]);
      i := i + 1;
    }
    assert steps[..i] == steps;
    list.Sort(force);
  }

  method StepList(list: M.Multilist, step: ListStep)
    requires list.Valid()
    modifies list, list.data
    ensures list.Valid() && (fresh(list.data) || list.data == old(list.data))
    ensures multiset(list.Items()) ==
              match step
              case Append(x) => multiset(old(list.Items())) + multiset{x}
              case Clear => multiset{}
              case _ => multiset(old(list.Items()))
    ensures list.ascendingSort == if step.SetSortOrder? then step.ascending else old(list.ascendingSort)
  {
    hide *;
    match step {
      case Append(x) => list.Push(x);
      case SetSortOrder(ascending) => list.SetSortOrder(ascending);
      case Clear => list.Clear();
      case Sort(force) => list.Sort(force);
    }
  }

  lemma ListGrows(steps: seq<ListStep>, i: nat)
    ensures AppendedBy(steps[..0]) == multiset{} && AscendingAfter(steps[..0])
    ensures i < |steps| ==>
              && AppendedBy(steps[..i + 1]) ==
                   (match steps[i]
                    case Append(x) => AppendedBy(steps[..i]) + multiset{x}
                    case Clear => multiset{}
                    case _ => AppendedBy(steps[..i]))
              && AscendingAfter(steps[..i + 1]) ==
                   (if steps[i].SetSortOrder? then steps[i].ascending else AscendingAfter(steps[..i]))
  {
    if i < |steps| {
      assert steps[..i + 1][..i] == steps[..i];
    }
  }

  // ----- the object pool -----

  datatype HandleStep = Take | Give(handle: nat)

  /** Each handle is that of a slot as it was after `when` frees. */
  ghost predicate GivenOut(frees: seq<nat>, handles: seq<nat>, when: seq<nat>) {
    && |handles| == |when| && |frees| <= 0xffff
    && forall k :: 0 <= k < |handles| ==> IsHandle(frees, handles[k], when[k])
  }

  ghost predicate IsHandle(frees: seq<nat>, handle: nat, then_: nat)
    requires |frees| <= 0xffff
  {
    var slot := handle % 0x1_0000;
    slot < |frees| && then_ <= frees[slot] && handle == O.Uid(slot, then_)
  }

  /** Take objects and give handles back, stale ones and made-up ones included, in any order: in the end each handle
      ever handed out resolves to its own slot, exactly when that has been freed a multiple of 65536 times since. */
  method RunHandles(size: nat, steps: seq<HandleStep>)
    returns (pool: O.ObjectPool, handles: seq<nat>, found: seq<int>, ghost when: seq<nat>)
    requires 0 < size <= 0xffff
    ensures fresh(pool) && pool.Valid() && pool.size == size == |pool.frees| && |found| == |handles| == |when|
    ensures GivenOut(pool.frees, handles, when)
    ensures forall k :: 0 <= k < |handles| ==>
              var slot := handles[k] % 0x1_0000;
              found[k] == if (pool.frees[slot] - when[k]) % 0x1_0000 == 0 then slot else O.NULL
  {
    hide O.Uid, O.ObjectPool.Valid, IsHandle;
    pool := new O.ObjectPool();
    var ok := pool.Initialize(size);
    handles, when := [], [];
    SlotsAre(pool);
    var i := 0;
    while i < |steps|
      invariant 0 <= i <= |steps| && fresh(pool) && fresh(pool.uid) && fresh(pool.linkArray) && fresh(pool.dataAllocate)
      invariant pool.Valid() && pool.size == size == |pool.frees| && GivenOut(pool.frees, handles, when)
    {
      match steps[i] {
        case Take =>
          var slot := pool.Allocate();
          if slot != O.NULL {
            SlotsAre(pool);
            HandleNow(pool, slot);
            handles, when := handles + [pool.uid[slot]], when + [pool.frees[slot]];
          }
        case Give(handle) =>
          if handle < 0x1_0000_0000 {
            ghost var before := pool.frees;
            pool.Free(handle);
            StillHandles(before, pool.frees, handles, when);
          }
      }
      i := i + 1;
    }
    found := ResolveAll(pool, handles, when);
  }

  datatype SlotStep = TakeFirst | GiveSlot(slot: nat)

  /** The free slots after a run on a new pool, a plain stack: all in order at first; a slot given back, if it was
      taken, goes on top. */
  function FreeAfter(size: nat, steps: seq<SlotStep>): seq<nat> {
    if steps == [] then seq(size, k => k)
    else SlotStepped(size, FreeAfter(size, steps[..|steps| - 1]), steps[|steps| - 1])
  }

  function SlotStepped(size: nat, free: seq<nat>, step: SlotStep): seq<nat> {
    match step
    case TakeFirst => if free == [] then [] else free[1..]
    case GiveSlot(slot) => if slot < size && slot !in free then [slot] + free else free
  }

  /** In any run on a new pool each slot taken is the one on top of the stack. */
  method RunSlots(size: nat, steps: seq<SlotStep>) returns (pool: O.ObjectPool, taken: seq<int>)
    requires 0 < size <= 0xffff
    ensures fresh(pool) && pool.Valid() && pool.size == size && pool.chain == FreeAfter(size, steps)
    ensures |taken| == |steps|
    ensures forall i :: 0 <= i < |steps| && steps[i].TakeFirst? ==>
              var free := FreeAfter(size, steps[..i]);
              taken[i] == if free == [] then O.NULL else free[0]
  {
    hide *;
    pool := new O.ObjectPool();
    var _ := pool.Initialize(size);
    taken := [];
    SlotsGrow(size, steps, 0);
    var i := 0;
    while i < |steps|
      invariant 0 <= i == |taken| <= |steps|
      invariant fresh(pool) && fresh(pool.uid) && fresh(pool.linkArray) && fresh(pool.dataAllocate)
      invariant pool.Valid() && pool.size == size && pool.chain == FreeAfter(size, steps[..i])
      invariant forall j :: 0 <= j < i && steps[j].TakeFirst? ==>
                  var free := FreeAfter(size, steps[..j]);
                  taken[j] == if free == [] then O.NULL else free[0]
    {
      SlotsGrow(size, steps, i);
      var slot := StepSlots(pool, steps[i]);
      taken := taken + [slot];
      i := i + 1;
    }
    assert steps[..i] == steps;
  }

  method StepSlots(pool: O.ObjectPool, step: SlotStep) returns (slot: int)
    requires pool.Valid()
    modifies pool`count, pool`freeObj, pool`chain, pool`frees, pool.linkArray, pool.dataAllocate, pool.uid
    ensures pool.Valid() && pool.chain == SlotStepped(pool.size, old(pool.chain), step)
    ensures step.TakeFirst? ==> slot == if old(pool.chain) == [] then O.NULL else old(pool.chain)[0]
  {
    slot := O.NULL;
    match step {
      case TakeFirst =>
        slot := pool.Allocate();
      case GiveSlot(given) =>
        if given < pool.size {
          pool.Free(pool.uid[given]);
        }
    }
  }

  lemma SlotsGrow(size: nat, steps: seq<SlotStep>, i: nat)
    ensures FreeAfter(size, steps[..0]) == seq(size, k => k)
    ensures i < |steps| ==> FreeAfter(size, steps[..i + 1]) == SlotStepped(size, FreeAfter(size, steps[..i]), steps[i])
  {
    if i < |steps| {
      assert steps[..i + 1][..i] == steps[..i];
    }
  }

  /** A new pool hands out its slots in order. */
  lemma {:induction false} TakenInOrder(size: nat, count: nat)
    requires count <= size
    ensures FreeAfter(size, seq(count, _ => TakeFirst)) == seq(size - count, i => count + i)
  {
    if count > 0 {
      TakenInOrder(size, count - 1);
      assert seq(count, _ => TakeFirst)[..count - 1] == seq(count - 1, _ => TakeFirst);
    }
  }

  function GiveAll(given: seq<nat>): (steps: seq<SlotStep>)
    ensures |steps| == |given| && forall i :: 0 <= i < |given| ==> steps[i] == GiveSlot(given[i])
  {
    seq(|given|, i requires 0 <= i < |given| => GiveSlot(given[i]))
  }

  function Backwards(s: seq<nat>): (r: seq<nat>)
    ensures |r| == |s| && forall i :: 0 <= i < |s| ==> r[i] == s[|s| - 1 - i]
  {
    seq(|s|, i requires 0 <= i < |s| => s[|s| - 1 - i])
  }

  /** Slots given back lie on top of the stack, the last of them first. */
  lemma {:induction false} GivenOnTop(size: nat, steps: seq<SlotStep>, given: seq<nat>)
    requires forall i :: 0 <= i < |given| ==> given[i] < size && given[i] !in FreeAfter(size, steps)
    requires Distinct(given)
    ensures FreeAfter(size, steps + GiveAll(given)) == Backwards(given) + FreeAfter(size, steps)
  {
    hide FreeAfter;
    var free, all := FreeAfter(size, steps), steps + GiveAll(given);
    if given == [] {
      assert all == steps && Backwards(given) + free == free;
    } else {
      var last := |given| - 1;
      GivenOnTop(size, steps, given[..last]);
      assert all[..|all| - 1] == steps + GiveAll(given[..last]) && all[..|all|] == all;
      SlotsGrow(size, all, |all| - 1);
      OneMoreOnTop(size, free, given);
    }
  }

  lemma OneMoreOnTop(size: nat, free: seq<nat>, given: seq<nat>)
    requires Distinct(given) && given != [] && given[|given| - 1] !in free && given[|given| - 1] < size
    ensures var last := |given| - 1;
            SlotStepped(size, Backwards(given[..last]) + free, GiveSlot(given[last])) == Backwards(given) + free
  {
    var last := |given| - 1;
    assert given[last] !in Backwards(given[..last]);
    assert [given[last]] + Backwards(given[..last]) == Backwards(given);
    assert [given[last]] + (Backwards(given[..last]) + free) == Backwards(given) + free;
  }

  lemma SlotsAre(pool: O.ObjectPool)
    requires pool.Valid()
    ensures pool.uid.Length == pool.size == |pool.frees| <= 0xffff
  {
  }

  lemma HandleNow(pool: O.ObjectPool, slot: nat)
    requires pool.Valid() && slot < pool.size && pool.uid.Length == pool.size == |pool.frees| <= 0xffff
    ensures IsHandle(pool.frees, pool.uid[slot], pool.frees[slot])
  {
  }

  /** What was a handle stays one while the slots are freed further. */
  lemma StillHandles(before: seq<nat>, frees: seq<nat>, handles: seq<nat>, when: seq<nat>)
    requires GivenOut(before, handles, when) && |frees| == |before|
    requires forall i :: 0 <= i < |frees| ==> before[i] <= frees[i]
    ensures GivenOut(frees, handles, when)
  {
    hide O.Uid;
    forall k | 0 <= k < |handles| ensures IsHandle(frees, handles[k], when[k]) {
      assert IsHandle(before, handles[k], when[k]);
    }
  }

  method ResolveAll(pool: O.ObjectPool, handles: seq<nat>, ghost when: seq<nat>) returns (found: seq<int>)
    requires pool.Valid() && pool.size == |pool.frees| && GivenOut(pool.frees, handles, when)
    ensures |found| == |handles|
    ensures forall k :: 0 <= k < |handles| ==>
              var slot := handles[k] % 0x1_0000;
              found[k] == if (pool.frees[slot] - when[k]) % 0x1_0000 == 0 then slot else O.NULL
  {
    hide O.Uid, O.ObjectPool.Valid;
    found := [];
    var k := 0;
    while k < |handles|
      invariant 0 <= k == |found| <= |handles|
      invariant forall j :: 0 <= j < k ==>
                  var slot := handles[j] % 0x1_0000;
                  found[j] == if (pool.frees[slot] - when[j]) % 0x1_0000 == 0 then slot else O.NULL
    {
      assert IsHandle(pool.frees, handles[k], when[k]);
      var one := pool.Get(handles[k]);
      found := found + [one];
      k := k + 1;
    }
  }

  // ----- the range list -----

  /** Send a list in rounds: one list writes what maxBits has room for and forgets it, another reads it.  Every stream
      is read well, what is received and what is left make up the list at any time, and after as many rounds as there
      are ranges nothing is left if and only if there was room for one range. */
  method RunRounds(source: R.RangeList, dest: R.RangeList, n: nat, maxBits: nat, rounds: nat)
    returns (received: seq<R.RangeNode>, ok: bool)
    requires source != dest && 1 <= n && Sendable(source.ranges, n)
    modifies source, dest
    ensures ok && received + source.ranges == old(source.ranges)
    ensures received == Sent(old(source.ranges), n, maxBits, rounds)
    ensures old(source.ranges) != [] && |old(source.ranges)| <= rounds ==>
              (source.ranges == [] <==> 16 + n * 8 * 2 + 1 <= maxBits)
  {
    hide *;
    ghost var s := source.ranges;
    Proper(s, n);
    received, ok := [], true;
    var i := 0;
    while ok && i < rounds
      invariant ok && 0 <= i <= rounds && received + source.ranges == s && Sendable(source.ranges, n)
      invariant Sent(s, n, maxBits, rounds) == received + Sent(source.ranges, n, maxBits, rounds - i)
    {
      RoundGoes(source.ranges, n, maxBits, rounds - i);
      var part;
      part, ok := OneRound(source, dest, n, maxBits);
      received := received + part;
      i := i + 1;
    }
    NothingSent(source.ranges, n, maxBits);
    SentIs(s, n, maxBits, rounds);
    if s != [] && |s| <= rounds {
      R.RoundsDrain(s, n, maxBits, rounds);
    }
  }

  /** One round. */
  method OneRound(source: R.RangeList, dest: R.RangeList, n: nat, maxBits: nat)
    returns (part: seq<R.RangeNode>, ok: bool)
    requires source != dest && 1 <= n && Sendable(source.ranges, n)
    modifies source, dest
    ensures ok && Sendable(source.ranges, n) && Share(old(source.ranges), n, maxBits) <= |old(source.ranges)|
    ensures part == old(source.ranges)[..Share(old(source.ranges), n, maxBits)]
    ensures source.ranges == old(source.ranges)[Share(old(source.ranges), n, maxBits)..]
    ensures part + source.ranges == old(source.ranges)
  {
    hide *;
    ghost var left := source.ranges;
    Proper(left, n);
    var stream, _, k := source.Serialize(n, maxBits, true);
    ShareIs(left, n, maxBits);
    ReadBack(left, n, k, stream);
    ok := dest.Deserialize(n, stream, 0);
    part := dest.ranges;
    RestSendable(left, n, k);
    assert left[..k] + left[k..] == left;
  }

  ghost predicate Sendable(s: seq<R.RangeNode>, n: nat) {
    |s| < 0xffff && R.Fits(s, n) && forall i :: 0 <= i < |s| ==> s[i].minIndex <= s[i].maxIndex
  }

  /** How many ranges one round sends. */
  ghost function Share(s: seq<R.RangeNode>, n: nat, maxBits: nat): nat
    requires Sendable(s, n)
  {
    R.Fitting(s, n, maxBits, 0)
  }

  /** What so many rounds send. */
  ghost function Sent(s: seq<R.RangeNode>, n: nat, maxBits: nat, rounds: nat): seq<R.RangeNode>
    requires Sendable(s, n)
  {
    R.Joined(R.Rounds(s, n, maxBits, rounds))
  }

  lemma Proper(s: seq<R.RangeNode>, n: nat)
    requires Sendable(s, n)
    ensures |s| < 0xffff && R.Fits(s, n)
    ensures forall i :: 0 <= i < |s| ==> 0 <= s[i].minIndex && 0 <= s[i].maxIndex
  {
  }

  lemma ShareIs(s: seq<R.RangeNode>, n: nat, maxBits: nat)
    requires Sendable(s, n)
    requires forall i :: 0 <= i < |s| ==> 0 <= s[i].minIndex && 0 <= s[i].maxIndex
    ensures Share(s, n, maxBits) == R.Fitting(s, n, maxBits, 0) <= |s|
  {
  }

  lemma SentIs(s: seq<R.RangeNode>, n: nat, maxBits: nat, rounds: nat)
    requires Sendable(s, n)
    requires forall i :: 0 <= i < |s| ==> 0 <= s[i].minIndex && 0 <= s[i].maxIndex
    ensures Sent(s, n, maxBits, rounds) == R.Joined(R.Rounds(s, n, maxBits, rounds))
  {
  }

  lemma RestSendable(s: seq<R.RangeNode>, n: nat, k: nat)
    requires Sendable(s, n) && k <= |s|
    ensures Sendable(s[k..], n)
  {
  }

  lemma RoundGoes(s: seq<R.RangeNode>, n: nat, maxBits: nat, rounds: nat)
    requires Sendable(s, n) && rounds > 0
    ensures var k := Share(s, n, maxBits);
            && k <= |s| && Sendable(s[k..], n)
            && Sent(s, n, maxBits, rounds) == s[..k] + Sent(s[k..], n, maxBits, rounds - 1)
  {
    hide R.Fitting;
    var k := Share(s, n, maxBits);
    RestSendable(s, n, k);
    var parts := R.Rounds(s[k..], n, maxBits, rounds - 1);
    assert ([s[..k]] + parts)[1..] == parts;
  }

  lemma NothingSent(s: seq<R.RangeNode>, n: nat, maxBits: nat)
    requires Sendable(s, n)
    ensures Sent(s, n, maxBits, 0) == []
  {
  }

  lemma ReadBack(s: seq<R.RangeNode>, n: nat, count: nat, stream: seq<R.byte>)
    requires 1 <= n && Sendable(s, n) && count <= |s|
    requires forall i :: 0 <= i < count ==> 0 <= s[..count][i].minIndex && 0 <= s[..count][i].maxIndex
    requires stream == R.Bytes(count, 2) + R.EncodedAll(s[..count], n)
    ensures |stream| >= 2 && R.DecodedRun(stream[2..], n, R.Value(stream[..2])) == R.Run(true, s[..count])
  {
    hide R.DecodedRun, R.EncodedAll, R.Value;
    R.RangeList.ReadsWhatWasWritten(s, n, count);
  }
}
