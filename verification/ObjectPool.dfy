/** The object pool of `src/common/objectpool.h`: slots on a free chain, and handles tagged with a 16-bit
    generation. */
module ObjectPools {

  const NULL := -1

  // ----- handles -----

  /** The generation that follows: a 16-bit count that skips nothing, 0 included. */
  function NextMagic(magic: nat): (r: nat)
    requires magic < 0x1_0000
    ensures r == (magic + 1) % 0x1_0000
  {
    if magic == 0 then 1 else if magic == 0xffff then 0 else magic + 1
  }

  /** The handle of a slot that has been freed `frees` times. */
  function Uid(slot: nat, frees: nat): (uid: nat)
    requires slot < 0x1_0000
    ensures uid % 0x1_0000 == slot && uid / 0x1_0000 == (1 + frees) % 0x1_0000
  {
    (1 + frees) % 0x1_0000 * 0x1_0000 + slot
  }

  /** The handles of a slot, one after the other. */
  lemma HandleAdvances(slot: nat, frees: nat)
    requires slot < 0x1_0000
    ensures Uid(slot, 0) == 0x1_0000 + slot
    ensures var uid := Uid(slot, frees);
            uid / 0x1_0000 < 0x1_0000 &&
            NextMagic(uid / 0x1_0000) * 0x1_0000 + uid % 0x1_0000 == Uid(slot, frees + 1)
  {
  }

  /** A slot has the same handle again after every 65536 frees, and at no time in between. */
  lemma HandleRecurs(slot: nat, then_: nat, now: nat)
    requires slot < 0x1_0000 && then_ <= now
    ensures Uid(slot, then_) == Uid(slot, now) <==> (now - then_) % 0x1_0000 == 0
  {
    var a, b := (1 + then_) % 0x1_0000, (1 + now) % 0x1_0000;
    SameRemainder(1 + then_, 1 + now, 0x1_0000);
  }

  /** The handle of an object freed 65536 frees ago is the handle of its slot again. */
  lemma HandleExample()
    ensures Uid(0, 0) == Uid(0, 0x1_0000) && Uid(0, 0) != Uid(0, 1)
  {
    HandleRecurs(0, 0, 0x1_0000);
    HandleRecurs(0, 0, 1);
  }

  lemma SameRemainder(x: nat, y: nat, m: nat)
    requires m > 0 && x <= y
    ensures x % m == y % m <==> (y - x) % m == 0
  {
    var qx, qy := x / m, y / m;
    assert y - x == (qy - qx) * m + (y % m - x % m);
    if x % m == y % m {
      Multiple(qy - qx, m);
    } else if (y - x) % m == 0 {
      var q := (y - x) / m;
      assert y == (q + qx) * m + x % m;
      Quotient(q + qx, x % m, m);
    }
  }

  lemma Multiple(q: int, m: nat)
    requires m > 0
    ensures q * m % m == 0
  {
    Quotient(q, 0, m);
  }

  lemma {:induction false} Quotient(q: int, r: nat, m: nat)
    requires m > 0 && r < m
    ensures (q * m + r) % m == r
    decreases if q < 0 then -q else q
  {
    var y := q * m + r;
    var d := y / m - q;
    assert y == y / m * m + y % m;
    assert d * m == r - y % m;
  }

  // ----- the pool -----

  /** `chain` runs through the links from `head`. */
  ghost predicate Chained(chain: seq<nat>, head: int, link: seq<int>) {
    && (forall k :: 0 <= k < |chain| ==> chain[k] < |link|)
    && (forall j, k :: 0 <= j < k < |chain| ==> chain[j] != chain[k])
    && head == (if chain == [] then NULL else chain[0])
    && (forall j, k :: 0 <= j < |chain| && k == j + 1 < |chain| ==> link[chain[j]] == chain[k])
    && (chain != [] ==> link[chain[|chain| - 1]] == NULL)
  }

  lemma UnchainFirst(chain: seq<nat>, head: int, link: seq<int>)
    requires Chained(chain, head, link) && chain != []
    ensures Chained(chain[1..], link[head], link[head := NULL])
    ensures head !in chain[1..]
  {
    var rest := chain[1..];
    assert |chain| > 1 ==> link[chain[0]] == chain[1];
    forall j, k | 0 <= j < |rest| && k == j + 1 < |rest| ensures link[head := NULL][rest[j]] == rest[k] {
      assert rest[j] == chain[k] && rest[k] == chain[k + 1];
    }
  }

  lemma ChainFirst(chain: seq<nat>, head: int, link: seq<int>, i: nat)
    requires Chained(chain, head, link) && i < |link| && i !in chain
    ensures Chained([i] + chain, i, link[i := head])
  {
    var all := [i] + chain;
    forall j, k | 0 <= j < |all| && k == j + 1 < |all| ensures link[i := head][all[j]] == all[k] {
      if j > 0 {
        assert all[j] == chain[j - 1] && all[k] == chain[j];
      }
    }
  }

  /** All slots, in order. */
  lemma ChainAll(n: nat, link: seq<int>)
    requires |link| == n > 0 && link[n - 1] == NULL && forall k :: 0 <= k < n - 1 ==> link[k] == k + 1
    ensures Chained(seq(n, k => k), 0, link)
  {
  }

  /** The slots that are allocated. */
  ghost function Live(allocated_: seq<bool>): set<nat> {
    set i: nat | i < |allocated_| && allocated_[i]
  }

  class ObjectPool {
    var count: nat
    var size: nat
    /** Of the objects only their handles matter here. */
    var uid: array<nat>
    var linkArray: array<int>
    var dataAllocate: array<bool>
    var freeObj: int

    /** The free chain, and how often each slot has been freed. */
    ghost var chain: seq<nat>
    ghost var frees: seq<nat>

    ghost predicate Valid()
      reads this, uid, linkArray, dataAllocate
    {
      && uid.Length == linkArray.Length == dataAllocate.Length == |frees| == size <= 0xffff
      && Chained(chain, freeObj, linkArray[..])
      && (forall i: nat :: i < size ==> (dataAllocate[i] <==> i !in chain))
      && count == |Live(dataAllocate[..])| && count + |chain| == size
      && (forall i: nat :: i < size ==> uid[i] == Uid(i, frees[i]))
    }

    constructor ()
      ensures Valid() && size == 0 && count == 0
      ensures fresh(uid) && fresh(linkArray) && fresh(dataAllocate)
    {
      count, size, freeObj := 0, 0, NULL;
      uid, linkArray, dataAllocate := new nat[0], new int[0], new bool[0];
      chain, frees := [], [];
      new;
      assert Live(dataAllocate[..]) == {};
    }

    /** Make the slots, all free, chained in order. */
    method Initialize(newSize: nat) returns (ok: bool)
      requires Valid() && size == 0
      modifies this
      ensures Valid()
      ensures ok <==> 0 < newSize <= 0xffff
      ensures ok ==> size == newSize && count == 0 && frees == seq(newSize, _ => 0)
      ensures ok ==> chain == seq(newSize, k => k)
      ensures !ok ==> size == 0
      ensures fresh(uid) || uid == old(uid)
      ensures fresh(linkArray) || linkArray == old(linkArray)
      ensures fresh(dataAllocate) || dataAllocate == old(dataAllocate)
    {
      hide Uid, Chained, Live;
      if newSize == 0 || newSize > 0xffff {
        return false;
      }
      uid, linkArray, dataAllocate := InitializeLinks(newSize);
      size := newSize;
      freeObj := 0;
      count := 0;
      frees := seq(newSize, _ => 0);
      chain := seq(newSize, k => k);
      ChainAll(newSize, linkArray[..]);
      forall k: nat | k < newSize ensures k in chain {
        assert chain[k] == k;
      }
      NoneLive(dataAllocate[..]);
      ok := true;
    }

    static method InitializeLinks(n: nat) returns (uid: array<nat>, link: array<int>, allocated_: array<bool>)
      requires 0 < n <= 0xffff
      ensures fresh(uid) && fresh(link) && fresh(allocated_) && uid.Length == link.Length == allocated_.Length == n
      ensures forall k: nat :: k < n ==> !allocated_[k] && uid[k] == Uid(k, 0)
      ensures link[n - 1] == NULL && forall k: nat :: k < n - 1 ==> link[k] == k + 1
    {
      hide Uid;
      uid := new nat[n];
      allocated_ := new bool[n];
      link := new int[n];
      var i := 0;
      while i < n
        invariant 0 <= i <= n
        invariant forall k: nat :: k < i ==> !allocated_[k] && uid[k] == Uid(k, 0) && link[k] == k + 1
      {
        HandleAdvances(i, 0);
        allocated_[i] := false;
        uid[i] := 0x1_0000 + i;
        link[i] := i + 1;
        i := i + 1;
      }
      link[n - 1] := NULL;
    }

    /** Take the first slot of the free chain. */
    method Allocate() returns (ret: int)
      requires Valid()
      modifies this`count, this`freeObj, this`chain, linkArray, dataAllocate
      ensures Valid()
      ensures ret == NULL <==> old(count) == size
      ensures ret == NULL ==> dataAllocate[..] == old(dataAllocate[..]) && chain == old(chain) && count == old(count)
      ensures ret != NULL ==>
                && 0 <= ret < size && !old(dataAllocate[..])[ret]
                && dataAllocate[..] == old(dataAllocate[..])[ret := true]
                && count == old(count) + 1 && old(chain) == [ret] + chain
    {
      ret := NULL;
      if freeObj != NULL {
        ret := freeObj;
        UnchainFirst(chain, freeObj, linkArray[..]);
        LiveWith(dataAllocate[..], ret);
        freeObj := linkArray[ret];
        linkArray[ret] := NULL;
        dataAllocate[ret] := true;
        count := count + 1;
        chain := chain[1..];
        assert dataAllocate[..] == old(dataAllocate[..])[ret := true];
        assert linkArray[..] == old(linkArray[..])[ret := NULL];
        assert old(chain) == [ret as nat] + chain;
      }
    }

    lemma NoneLive(a: seq<bool>)
      requires forall i :: 0 <= i < |a| ==> !a[i]
      ensures Live(a) == {}
    {
    }

    lemma LiveWith(a: seq<bool>, i: nat)
      requires i < |a|
      ensures !a[i] ==> Live(a[i := true]) == Live(a) + {i} && i !in Live(a)
      ensures a[i] ==> Live(a[i := false]) == Live(a) - {i} && i in Live(a)
    {
    }

    /** The slot of a handle, if the handle is of the slot's present generation. */
    method Get(handle: nat) returns (ret: int)
      requires Valid()
      ensures ret != NULL ==> 0 <= ret < size && uid[ret] == handle
      ensures ret == NULL ==> forall i: nat :: i < size ==> uid[i] != handle
      // a handle given out when its slot had been freed `then_` times
      ensures forall i: nat, then_: nat :: i < size && then_ <= frees[i] && handle == Uid(i, then_) ==>
                ret == if (frees[i] - then_) % 0x1_0000 == 0 then i else NULL
    {
      forall i: nat, then_: nat | i < size && then_ <= frees[i] && handle == Uid(i, then_)
        ensures handle % 0x1_0000 == i && (uid[i] == handle <==> (frees[i] - then_) % 0x1_0000 == 0)
      {
        HandleRecurs(i, then_, frees[i]);
      }
      var index := handle % 0x1_0000;
      if index < size {
        if uid[index] == handle {
          return index;
        }
      }
      ret := NULL;
    }

    /** Free the slot of a handle, if the handle is of its present generation and the slot is allocated: the
        slot goes to the head of the free chain, into its next generation. */
    method Free(handle: nat)
      requires Valid() && handle < 0x1_0000_0000
      modifies this`count, this`freeObj, this`chain, this`frees, linkArray, dataAllocate, uid
      ensures Valid()
      ensures var i := handle % 0x1_0000;
              if i < size && old(uid[..])[i] == handle && old(dataAllocate[..])[i] then
                && count == old(count) - 1 && chain == [i] + old(chain)
                && dataAllocate[..] == old(dataAllocate[..])[i := false]
                && frees == old(frees)[i := old(frees)[i] + 1]
              else
                && count == old(count) && chain == old(chain) && frees == old(frees)
                && dataAllocate[..] == old(dataAllocate[..]) && uid[..] == old(uid[..])
    {
      hide Uid, Chained, Live, NextMagic;
      var obj := Get(handle);
      if obj != NULL {
        HandleSlot(obj, frees[obj]);
        if !dataAllocate[obj] {
          return;
        }
        TakeBack(handle, obj);
      }
    }

    lemma HandleSlot(slot: nat, frees: nat)
      requires slot < 0x1_0000
      ensures Uid(slot, frees) % 0x1_0000 == slot
    {
    }

    /** What Free does with a slot that is allocated. */
    method TakeBack(handle: nat, obj: nat)
      requires Valid() && obj < size && uid[obj] == handle && dataAllocate[obj]
      modifies this`count, this`freeObj, this`chain, this`frees, linkArray, dataAllocate, uid
      ensures Valid()
      ensures count == old(count) - 1 && chain == [obj] + old(chain)
      ensures dataAllocate[..] == old(dataAllocate[..])[obj := false]
      ensures frees == old(frees)[obj := old(frees)[obj] + 1]
    {
      hide Uid, Chained, Live, NextMagic;
      LiveWith(dataAllocate[..], obj);
      ChainFirst(chain, freeObj, linkArray[..], obj);
      HandleAdvances(obj, frees[obj]);
      linkArray[obj] := freeObj;
      freeObj := obj;
      count := count - 1;
      var magic := NextMagic(handle / 0x1_0000);
      uid[obj] := magic * 0x1_0000 + handle % 0x1_0000;
      dataAllocate[obj] := false;
      chain := [obj] + chain;
      frees := frees[obj := frees[obj] + 1];
      assert dataAllocate[..] == old(dataAllocate[..])[obj := false];
      assert linkArray[..] == old(linkArray[..])[obj := old(freeObj)];
    }
  }
}
