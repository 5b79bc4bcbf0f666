/** The paged memory pool of `DS_MemoryPool.h`: two circular lists of pages, each page with a stack of its
    blocks that are not held by the user. */
module MemoryPools {

  import opened Collections

  const DS_MEMORY_POOL_MAX_FREE_PAGES := 4

  /** What a request for a new page meets with: memory enough, none, or enough for the page and not for its blocks
      and their stack. */
  datatype Memory = Plenty | NoPage | NoBlocks

  /** A block: the user's memory, of which nothing is said here, followed by the page it lies in. */
  class MemoryWithPage {
    const parentPage: Page

    constructor (parentPage: Page)
      ensures this.parentPage == parentPage
    {
      this.parentPage := parentPage;
    }
  }

  class Page {
    var availableStack: array<MemoryWithPage?>
    var availableStackSize: int
    var block: seq<MemoryWithPage>
    var next: Page
    var prev: Page

    /** A page is allocated raw; InitPage makes it usable. */
    constructor (stack: array<MemoryWithPage?>)
      ensures next == this && prev == this && availableStack == stack && availableStackSize == 0 && block == []
    {
      availableStack := stack;
      availableStackSize := 0;
      block := [];
      next := this;
      prev := this;
    }

    /** The blocks on the stack. */
    ghost function Stacked(): set<MemoryWithPage?>
      requires 0 <= availableStackSize <= availableStack.Length
      reads this`availableStackSize, this`availableStack, availableStack
    {
      set k | 0 <= k < availableStackSize :: availableStack[k]
    }

    /** The stack from bottom to top. */
    ghost function Stack(): seq<MemoryWithPage?>
      reads this`availableStackSize, this`availableStack, availableStack
    {
      if 0 <= availableStackSize <= availableStack.Length then availableStack[..availableStackSize] else []
    }

    /** The page has `bpp` blocks of its own, and the stack holds some of them, each once. */
    ghost predicate Ok(bpp: int)
      reads this`availableStackSize, this`availableStack, this`block, availableStack
    {
      && |block| == bpp == availableStack.Length && 0 <= availableStackSize <= bpp
      && (forall k :: 0 <= k < bpp ==> block[k].parentPage == this)
      && (forall j, k :: 0 <= j < k < bpp ==> block[j] != block[k])
      && (forall k :: 0 <= k < availableStackSize ==> availableStack[k] != null && availableStack[k] in block)
      && (forall j, k :: 0 <= j < k < availableStackSize ==> availableStack[j] != availableStack[k])
    }
  }

  // ----- circular lists -----

  /** The pages of `ring` are linked in a circle, forwards and backwards. */
  ghost predicate Ring(ring: seq<Page>)
    reads ring`next, ring`prev
  {
    && (forall i {:trigger ring[i].next} :: 0 <= i < |ring| ==>
          ring[i].next == ring[if i + 1 < |ring| then i + 1 else 0])
    && (forall i {:trigger ring[i].prev} :: 0 <= i < |ring| ==>
          ring[i].prev == ring[if i > 0 then i - 1 else |ring| - 1])
  }

  ghost predicate Apart(ring: seq<Page>) {
    forall i, j :: 0 <= i < j < |ring| ==> ring[i] != ring[j]
  }

  ghost predicate Strangers(a: seq<Page>, b: seq<Page>) {
    forall i :: 0 <= i < |b| ==> b[i] !in a
  }

  ghost function Dropped(ring: seq<Page>, i: nat): (r: seq<Page>)
    requires i < |ring|
    ensures |r| == |ring| - 1
    ensures forall k :: 0 <= k < |r| ==> r[k] == ring[if k < i then k else k + 1]
  {
    ring[..i] + ring[i + 1..]
  }

  /** Take a page out of its ring. */
  method Unlink(curPage: Page, ghost ring: seq<Page>, ghost i: nat)
    requires Ring(ring) && Apart(ring) && i < |ring| && ring[i] == curPage
    modifies ring`next, ring`prev
    ensures Ring(Dropped(ring, i))
    ensures |ring| > 1 ==> curPage.next == old(curPage.next) && curPage.prev == old(curPage.prev)
  {
    hide Dropped;
    RingAt(ring, i);
    curPage.next.prev := curPage.prev;
    curPage.prev.next := curPage.next;
    ghost var r := Dropped(ring, i);
    forall k | 0 <= k < |r| ensures r[k].next == r[if k + 1 < |r| then k + 1 else 0] {
      assert r[k] == ring[if k < i then k else k + 1];
    }
    forall k | 0 <= k < |r| ensures r[k].prev == r[if k > 0 then k - 1 else |r| - 1] {
      assert r[k] == ring[if k < i then k else k + 1];
    }
  }

  lemma RingAt(ring: seq<Page>, j: nat)
    requires Ring(ring) && j < |ring|
    ensures ring[j].next == ring[if j + 1 < |ring| then j + 1 else 0]
    ensures ring[j].prev == ring[if j > 0 then j - 1 else |ring| - 1]
  {
  }

  /** Put a page behind the last of a ring, which is the one before its head. */
  method LinkAtTail(curPage: Page, head: Page, ghost ring: seq<Page>)
    requires Ring(ring) && Apart(ring) && |ring| > 0 && ring[0] == head && curPage !in ring
    modifies ring`next, ring`prev, curPage`next, curPage`prev
    ensures Ring(ring + [curPage])
  {
    assert head.prev == ring[|ring| - 1];
    curPage.next := head;
    curPage.prev := head.prev;
    head.prev.next := curPage;
    head.prev := curPage;
  }

  /** Walk once around a ring, freeing its pages: every page comes up once. */
  method FreeRing(head: Page, ghost ring: seq<Page>) returns (ghost freed: seq<Page>)
    requires Ring(ring) && Apart(ring) && ring != [] && ring[0] == head
    ensures freed == ring
  {
    var cur := head;
    freed := [];
    while true
      invariant |freed| < |ring| && freed == ring[..|freed|] && cur == ring[|freed|]
      decreases |ring| - |freed|
    {
      RingAt(ring, |freed|);
      freed := freed + [cur];
      cur := cur.next;
      if cur == head {
        break;
      }
    }
    assert freed == ring;
  }

  // ----- blocks -----

  ghost function Stacks(pages: set<Page>): set<object>
    reads pages`availableStack
  {
    set p | p in pages :: p.availableStack
  }

  /** Every block of the pages is either held by the user or on the stack of its page, never both, and the
      user holds no other blocks. */
  ghost predicate Stocked(pages: set<Page>, bpp: int, held: set<MemoryWithPage>)
    reads pages`availableStackSize, pages`availableStack, pages`block, Stacks(pages)
  {
    && (forall p :: p in pages ==> p.Ok(bpp))
    && (forall p, q :: p in pages && q in pages && p != q ==> p.availableStack != q.availableStack)
    && (forall p, k :: p in pages && 0 <= k < bpp ==> (p.block[k] in held <==> p.block[k] !in p.Stacked()))
    && (forall b :: b in held ==> b.parentPage in pages && b in b.parentPage.block)
  }

  /** Distinct things out of a list are no more than the list is long; if one is left out, they are fewer. */
  lemma PickedFromBlocks(picked: set<MemoryWithPage>, blocks: seq<MemoryWithPage>, out: set<MemoryWithPage>)
    requires forall b :: b in picked ==> b in blocks && b !in out
    requires forall b :: b in out ==> b in blocks
    ensures |picked| + |out| <= |blocks|
  {
    if blocks == [] {
      assert picked == {} && out == {};
    } else {
      var last := blocks[|blocks| - 1];
      assert blocks == blocks[..|blocks| - 1] + [last];
      PickedFromBlocks(picked - {last}, blocks[..|blocks| - 1], out - {last});
    }
  }

  lemma StackedIsDistinct(stack: seq<MemoryWithPage?>, n: nat, picked: set<MemoryWithPage>)
    requires n <= |stack| && (forall k :: 0 <= k < n ==> stack[k] != null)
    requires forall j, k :: 0 <= j < k < n ==> stack[j] != stack[k]
    requires forall b: MemoryWithPage :: b in picked <==> exists k :: 0 <= k < n && stack[k] == b
    ensures |picked| == n
  {
    if n > 0 {
      StackedIsDistinct(stack, n - 1, picked - {stack[n - 1]});
    } else {
      assert picked == {};
    }
  }

  /** While a block of the page is held the stack has room; when the stack is full none is held. */
  lemma StackRoom(p: Page, bpp: int, b: MemoryWithPage)
    requires p.Ok(bpp) && b in p.block
    ensures b !in p.Stacked() ==> p.availableStackSize < bpp
  {
    var picked := set k | 0 <= k < p.availableStackSize :: p.availableStack[k] as MemoryWithPage;
    StackedIsDistinct(p.availableStack[..], p.availableStackSize, picked);
    if b !in p.Stacked() {
      PickedFromBlocks(picked, p.block, {b});
    }
  }

  /** A page of which no block is held has all of them on its stack. */
  lemma IdleIsFree(p: Page, pages: set<Page>, bpp: int, held: set<MemoryWithPage>)
    requires Stocked(pages, bpp, held) && p in pages && forall b :: b in p.block ==> b !in held
    ensures p.availableStackSize == bpp
  {
    assert p.Ok(bpp);
    var all := set b | b in p.block;
    var picked := set k | 0 <= k < p.availableStackSize :: p.availableStack[k] as MemoryWithPage;
    StackedIsDistinct(p.block, bpp, all);
    StackedIsDistinct(p.availableStack[..], p.availableStackSize, picked);
    forall b | b in all ensures b in picked {
      var k :| 0 <= k < bpp && p.block[k] == b;
      assert b in p.Stacked();
    }
    SubsetCardinality(all, picked);
  }

  ghost function FreeOf(pages: set<Page>, bpp: int): set<Page>
    reads pages`availableStackSize
  {
    set p | p in pages && p.availableStackSize == bpp
  }

  ghost predicate SomeLeft(pages: set<Page>)
    reads pages`availableStackSize
  {
    forall p :: p in pages ==> p.availableStackSize > 0
  }

  ghost predicate NoneLeft(pages: set<Page>)
    reads pages`availableStackSize
  {
    forall p :: p in pages ==> p.availableStackSize == 0
  }

  lemma PageLeft(page: Page, bpp: int)
    requires 0 < page.availableStackSize < bpp
    ensures SomeLeft({page}) && FreeOf({page}, bpp) == {}
  {
  }

  /** Take the top block off a stack. */
  method PopBlock(p: Page, ghost pages: set<Page>, ghost bpp: int, ghost held: set<MemoryWithPage>,
                  ghost some: set<Page>, ghost none: set<Page>)
    returns (retVal: MemoryWithPage)
    requires Stocked(pages, bpp, held) && p in pages && p.availableStackSize > 0 && p !in some && p !in none
    modifies p`availableStackSize
    ensures p.availableStackSize == old(p.availableStackSize) - 1 < bpp
    ensures retVal !in held && Stocked(pages, bpp, held + {retVal})
    ensures retVal.parentPage == p && p.Stack() + [retVal] == old(p.Stack())
    // pages other than this one
    ensures old(SomeLeft(some)) ==> SomeLeft(some)
    ensures FreeOf(some, bpp) == old(FreeOf(some, bpp))
    ensures old(NoneLeft(none)) ==> NoneLeft(none)
  {
    assert p.Ok(bpp);
    p.availableStackSize := p.availableStackSize - 1;
    retVal := p.availableStack[p.availableStackSize];
    assert p.Stacked() == old(p.Stacked()) - {retVal};
  }

  /** Put a held block back on the stack of its page. */
  method PushBlock(p: Page, m: MemoryWithPage, ghost pages: set<Page>, ghost bpp: int,
                   ghost held: set<MemoryWithPage>, ghost some: set<Page>, ghost none: set<Page>)
    requires Stocked(pages, bpp, held) && m in held && m.parentPage == p && p !in some && p !in none
    modifies p`availableStackSize, p.availableStack
    ensures p.availableStackSize == old(p.availableStackSize) + 1 <= bpp
    ensures Stocked(pages, bpp, held - {m}) && p.Stack() == old(p.Stack()) + [m]
    // pages other than this one
    ensures old(SomeLeft(some)) ==> SomeLeft(some)
    ensures FreeOf(some, bpp) == old(FreeOf(some, bpp))
    ensures old(NoneLeft(none)) ==> NoneLeft(none)
  {
    hide SomeLeft, NoneLeft, FreeOf;
    assert p in pages && p.Ok(bpp) && m in p.block;
    StackRoom(p, bpp, m);
    p.availableStack[p.availableStackSize] := m;
    p.availableStackSize := p.availableStackSize + 1;
    assert p.availableStack[p.availableStackSize - 1] == m;
    forall b | b in old(p.Stacked()) ensures b in p.Stacked() {
      var k :| 0 <= k < old(p.availableStackSize) && old(p.availableStack[k]) == b;
      assert p.availableStack[k] == b;
    }
    assert p.Stacked() == old(p.Stacked()) + {m};
  }

  /** Giving back a page whose stack is full takes no held block with it. */
  lemma DropPage(p: Page, pages: set<Page>, bpp: int, held: set<MemoryWithPage>)
    requires Stocked(pages, bpp, held) && p in pages && p.availableStackSize == bpp
    ensures forall b :: b in p.block ==> b !in held
    ensures Stocked(pages - {p}, bpp, held)
  {
    forall b | b in p.block ensures b !in held {
      StackRoom(p, bpp, b);
    }
  }

  /** A new page, all of its blocks on its stack. */
  method InitPage(bpp: nat, ghost pages: set<Page>, ghost held: set<MemoryWithPage>) returns (page: Page)
    requires Stocked(pages, bpp, held)
    ensures fresh(page) && page !in pages && fresh(page.availableStack)
    ensures page.next == page && page.prev == page && page.availableStackSize == bpp && page.Stack() == page.block
    ensures Stocked(pages + {page}, bpp, held)
  {
    var stack := new MemoryWithPage?[bpp](_ => null);
    page := new Page(stack);
    var i := 0;
    while i < bpp
      invariant 0 <= i <= bpp && |page.block| == i
      invariant page.availableStack == stack && page.next == page && page.prev == page
      invariant forall k :: 0 <= k < i ==> stack[k] == page.block[k] && page.block[k].parentPage == page
      invariant fresh(page.block)
      invariant forall j, k :: 0 <= j < k < i ==> page.block[j] != page.block[k]
      invariant forall b :: b in page.block ==> b !in held
    {
      var curBlock := new MemoryWithPage(page);
      page.block := page.block + [curBlock];
      stack[i] := curBlock;
      i := i + 1;
    }
    page.availableStackSize := bpp;
  }

  /** Neither pages nor pools are stacks, so writing to them leaves the stacks alone. */
  lemma StacksAreOther(pages: set<Page>, pool: MemoryPool)
    ensures pool !in Stacks(pages)
    ensures forall p: Page :: p !in Stacks(pages)
  {
  }

  lemma StacksOf(a: set<Page>, b: set<Page>, p: Page)
    ensures a <= b ==> Stacks(a) <= Stacks(b)
    ensures Stacks(a + {p}) == Stacks(a) + {p.availableStack}
  {
  }

  // ----- the pool -----

  ghost function RingPages(ring: seq<Page>): set<Page> {
    set i | 0 <= i < |ring| :: ring[i]
  }

  /** A page leaves a list. */
  lemma PagesWithout(ring: seq<Page>, i: nat)
    requires Apart(ring) && i < |ring|
    ensures Apart(Dropped(ring, i)) && ring[i] !in Dropped(ring, i)
    ensures RingPages(Dropped(ring, i)) == RingPages(ring) - {ring[i]}
    ensures forall p :: p in Dropped(ring, i) ==> p in ring
  {
    var r := Dropped(ring, i);
    forall p | p in RingPages(ring) && p != ring[i] ensures p in RingPages(r) {
      var k :| 0 <= k < |ring| && ring[k] == p;
      assert r[if k < i then k else k - 1] == p;
    }
  }

  /** A page enters a list. */
  lemma PagesWith(ring: seq<Page>, p: Page)
    requires Apart(ring) && p !in ring
    ensures Apart(ring + [p]) && RingPages(ring + [p]) == RingPages(ring) + {p}
  {
    var r := ring + [p];
    assert r[|ring|] == p;
    forall q | q in RingPages(ring) ensures q in RingPages(r) {
      var k :| 0 <= k < |ring| && ring[k] == q;
      assert r[k] == q;
    }
  }

  /** The properties of a list's pages without one of them. */
  lemma Part(pages: set<Page>, p: Page, bpp: int)
    ensures |FreeOf(pages - {p}, bpp)| <= |FreeOf(pages, bpp)|
    ensures SomeLeft(pages) ==> SomeLeft(pages - {p})
    ensures NoneLeft(pages) ==> NoneLeft(pages - {p})
  {
    SubsetCardinality(FreeOf(pages - {p}, bpp), FreeOf(pages, bpp));
  }

  /** The properties of a list's pages with one more. */
  lemma Join(pages: set<Page>, p: Page, bpp: int)
    ensures p.availableStackSize != bpp ==> FreeOf(pages + {p}, bpp) == FreeOf(pages, bpp)
    ensures SomeLeft(pages) && p.availableStackSize > 0 ==> SomeLeft(pages + {p})
    ensures NoneLeft(pages) && p.availableStackSize == 0 ==> NoneLeft(pages + {p})
  {
  }

  lemma {:induction false} PageCount(ring: seq<Page>)
    ensures |RingPages(ring)| <= |ring|
  {
    if ring == [] {
      assert RingPages(ring) == {};
    } else {
      var r := ring[..|ring| - 1];
      PageCount(r);
      assert RingPages(ring) == RingPages(r) + {ring[|ring| - 1]};
    }
  }

  class MemoryPool {
    var availablePages: Page?
    var unavailablePages: Page?
    var availablePagesSize: int
    var unavailablePagesSize: int
    const memoryPoolPageSize: nat
    const blockSize: nat

    /** The two circular lists, and the blocks the user holds. */
    ghost var available: seq<Page>
    ghost var unavailable: seq<Page>
    ghost var held: set<MemoryWithPage>

    /** An empty pool.  The size of a page is 16384 unless SetPageSize is called before the first allocation. */
    constructor (blockSize: nat, pageSize: nat)
      requires 1 <= blockSize && 2 <= pageSize / blockSize
      ensures Valid() && held == {} && available == [] && unavailable == []
      ensures BlocksPerPage() == pageSize / blockSize && Footprint() == {this}
    {
      availablePages, unavailablePages := null, null;
      availablePagesSize, unavailablePagesSize := 0, 0;
      memoryPoolPageSize := pageSize;
      this.blockSize := blockSize;
      available, unavailable, held := [], [], {};
    }

    function BlocksPerPage(): int
      requires blockSize != 0
    {
      memoryPoolPageSize / blockSize
    }

    ghost function Pages(): set<Page>
      reads this`available, this`unavailable
    {
      RingPages(available) + RingPages(unavailable)
    }

    /** The pool, its pages and their stacks. */
    ghost function Footprint(): set<object>
      reads this`available, this`unavailable, Pages()`availableStack
    {
      {this} + Pages() + Stacks(Pages())
    }

    /** The pages kept although none of their blocks is held. */
    ghost function FreePages(): set<Page>
      requires blockSize != 0
      reads this`available, available`availableStackSize
    {
      FreeOf(RingPages(available), BlocksPerPage())
    }

    ghost predicate WellLinked()
      reads this`available, this`unavailable, this`availablePages, this`unavailablePages
      reads this`availablePagesSize, this`unavailablePagesSize
      reads available`next, available`prev, unavailable`next, unavailable`prev
    {
      && availablePagesSize == |available| && unavailablePagesSize == |unavailable|
      && (available != [] ==> availablePages == available[0])
      && (unavailable != [] ==> unavailablePages == unavailable[0])
      && Ring(available) && Ring(unavailable)
      && Apart(available) && Apart(unavailable) && Strangers(available, unavailable)
    }

    /** Pages are available while they have a block for the user. */
    ghost predicate Sized()
      reads this`available, this`unavailable, available`availableStackSize, unavailable`availableStackSize
    {
      SomeLeft(RingPages(available)) && NoneLeft(RingPages(unavailable))
    }

    /** The pool is in order, the user holding the blocks in `h`. */
    ghost predicate InOrder(h: set<MemoryWithPage>)
      reads this`available, this`unavailable, this`availablePages, this`unavailablePages
      reads this`availablePagesSize, this`unavailablePagesSize
      reads available, unavailable, Stacks(Pages())
    {
      && blockSize != 0 && 2 <= BlocksPerPage()
      && WellLinked()
      && Stocked(Pages(), BlocksPerPage(), h)
      && Sized()
      && |FreePages()| <= DS_MEMORY_POOL_MAX_FREE_PAGES - 1
    }

    ghost predicate Valid()
      reads this, available, unavailable, Stacks(Pages())
    {
      InOrder(held)
    }

    /** Take a page out of the available ones. */
    method TakeFromAvailable(curPage: Page, ghost i: nat)
      requires WellLinked() && i < |available| && curPage == available[i]
      modifies this`availablePages, this`availablePagesSize, this`available, available`next, available`prev
      ensures WellLinked() && curPage !in available && curPage !in unavailable
      ensures available == Dropped(old(available), i) && RingPages(available) == old(RingPages(available)) - {curPage}
    {
      hide RingPages, Dropped;
      PagesWithout(available, i);
      assert curPage.next == available[if i + 1 < |available| then i + 1 else 0];
      if curPage == availablePages {
        availablePages := curPage.next;
      }
      Unlink(curPage, available, i);
      available := Dropped(available, i);
      availablePagesSize := availablePagesSize - 1;
    }

    /** Take a page out of the unavailable ones. */
    method TakeFromUnavailable(curPage: Page, ghost i: nat)
      requires WellLinked() && i < |unavailable| && curPage == unavailable[i]
      modifies this`unavailablePages, this`unavailablePagesSize, this`unavailable, unavailable`next, unavailable`prev
      ensures WellLinked() && curPage !in available && curPage !in unavailable
      ensures unavailable == Dropped(old(unavailable), i)
      ensures RingPages(unavailable) == old(RingPages(unavailable)) - {curPage}
    {
      hide RingPages, Dropped;
      PagesWithout(unavailable, i);
      assert curPage.next == unavailable[if i + 1 < |unavailable| then i + 1 else 0];
      unavailablePagesSize := unavailablePagesSize - 1;
      Unlink(curPage, unavailable, i);
      if unavailablePagesSize > 0 && curPage == unavailablePages {
        unavailablePages := unavailablePages.next;
      }
      unavailable := Dropped(unavailable, i);
    }

    /** Put a page at the end of the unavailable ones. */
    method PutLastUnavailable(curPage: Page)
      requires WellLinked() && curPage !in available && curPage !in unavailable
      modifies this`unavailablePages, this`unavailablePagesSize, this`unavailable
      modifies unavailable`next, unavailable`prev, curPage`next, curPage`prev
      ensures WellLinked() && unavailable == old(unavailable) + [curPage]
      ensures RingPages(unavailable) == old(RingPages(unavailable)) + {curPage}
    {
      hide RingPages;
      PagesWith(unavailable, curPage);
      unavailablePagesSize := unavailablePagesSize + 1;
      if unavailablePagesSize - 1 == 0 {
        unavailablePages := curPage;
        curPage.next := curPage;
        curPage.prev := curPage;
      } else {
        LinkAtTail(curPage, unavailablePages, unavailable);
      }
      unavailable := unavailable + [curPage];
    }

    /** Put a page at the end of the available ones. */
    method PutLastAvailable(curPage: Page)
      requires WellLinked() && curPage !in available && curPage !in unavailable
      modifies this`availablePages, this`availablePagesSize, this`available
      modifies available`next, available`prev, curPage`next, curPage`prev
      ensures WellLinked() && available == old(available) + [curPage]
      ensures RingPages(available) == old(RingPages(available)) + {curPage}
    {
      hide RingPages;
      PagesWith(available, curPage);
      availablePagesSize := availablePagesSize + 1;
      if availablePagesSize - 1 == 0 {
        availablePages := curPage;
        curPage.next := curPage;
        curPage.prev := curPage;
      } else {
        LinkAtTail(curPage, availablePages, available);
      }
      available := available + [curPage];
    }

    /** What it takes for the pool to be in order. */
    lemma InOrderIf(h: set<MemoryWithPage>)
      requires blockSize != 0 && 2 <= BlocksPerPage()
      requires WellLinked() && Stocked(RingPages(available) + RingPages(unavailable), BlocksPerPage(), h)
      requires SomeLeft(RingPages(available)) && NoneLeft(RingPages(unavailable))
      requires |FreeOf(RingPages(available), BlocksPerPage())| <= DS_MEMORY_POOL_MAX_FREE_PAGES - 1
      ensures InOrder(h)
    {
    }

    lemma InOrderMeans(h: set<MemoryWithPage>)
      requires InOrder(h)
      ensures blockSize != 0 && 2 <= BlocksPerPage()
      ensures WellLinked() && Stocked(RingPages(available) + RingPages(unavailable), BlocksPerPage(), h)
      ensures SomeLeft(RingPages(available)) && NoneLeft(RingPages(unavailable))
      ensures |FreeOf(RingPages(available), BlocksPerPage())| <= DS_MEMORY_POOL_MAX_FREE_PAGES - 1
      ensures availablePagesSize == |available|
    {
    }

    lemma IsAvailable(i: nat)
      requires WellLinked() && i < |available|
      ensures availablePages == available[0] && availablePagesSize == |available|
      ensures available[i] in RingPages(available) && available[i] !in RingPages(unavailable)
    {
      assert forall p :: p in RingPages(unavailable) ==> p !in available;
    }

    lemma IsUnavailable(i: nat)
      requires WellLinked() && i < |unavailable|
      ensures unavailable[i] in RingPages(unavailable) && unavailable[i] !in RingPages(available)
    {
      assert forall p :: p in RingPages(available) ==> p in available;
    }

    /** A page moves from one list to the end of the other. */
    method RelinkToUnavailable(curPage: Page)
      requires WellLinked() && available != [] && curPage == available[0]
      modifies this`availablePages, this`availablePagesSize, this`unavailablePages, this`unavailablePagesSize
      modifies this`available, this`unavailable
      modifies available`next, available`prev, unavailable`next, unavailable`prev
      ensures WellLinked()
      ensures RingPages(available) == old(RingPages(available)) - {curPage}
      ensures RingPages(unavailable) == old(RingPages(unavailable)) + {curPage}
      ensures available == Dropped(old(available), 0) && unavailable == old(unavailable) + [curPage]
    {
      hide WellLinked, RingPages, Dropped;
      TakeFromAvailable(curPage, 0);
      PutLastUnavailable(curPage);
    }

    method RelinkToAvailable(curPage: Page, ghost i: nat)
      requires WellLinked() && i < |unavailable| && curPage == unavailable[i]
      modifies this`availablePages, this`availablePagesSize, this`unavailablePages, this`unavailablePagesSize
      modifies this`available, this`unavailable
      modifies available`next, available`prev, unavailable`next, unavailable`prev
      ensures WellLinked()
      ensures RingPages(available) == old(RingPages(available)) + {curPage}
      ensures RingPages(unavailable) == old(RingPages(unavailable)) - {curPage}
      ensures available == old(available) + [curPage] && unavailable == Dropped(old(unavailable), i)
    {
      hide WellLinked, RingPages, Dropped;
      TakeFromUnavailable(curPage, i);
      PutLastAvailable(curPage);
    }

    /** The head of the available pages has no block left: it goes to the end of the unavailable ones. */
    method MoveToUnavailable(curPage: Page, ghost h: set<MemoryWithPage>)
      requires blockSize != 0 && 2 <= BlocksPerPage()
      requires WellLinked() && available != [] && curPage == available[0]
      requires Stocked(Pages(), BlocksPerPage(), h)
      requires |FreeOf(RingPages(available) - {curPage}, BlocksPerPage())| <= DS_MEMORY_POOL_MAX_FREE_PAGES - 1
      requires SomeLeft(RingPages(available) - {curPage}) && NoneLeft(RingPages(unavailable) + {curPage})
      modifies this`availablePages, this`availablePagesSize, this`unavailablePages, this`unavailablePagesSize
      modifies this`available, this`unavailable
      modifies available`next, available`prev, unavailable`next, unavailable`prev
      ensures InOrder(h) && Pages() == old(Pages())
      ensures available == Dropped(old(available), 0) && unavailable == old(unavailable) + [curPage]
    {
      hide InOrder, WellLinked, Stocked, BlocksPerPage, RingPages, Stacks, FreeOf, SomeLeft, NoneLeft;
      IsAvailable(0);
      ghost var a, u := RingPages(available), RingPages(unavailable);
      StacksAreOther(a + u, this);
      assert allocated(a) && allocated(u) && allocated(Stacks(a + u));
      RelinkToUnavailable(curPage);
      assert (a - {curPage}) + (u + {curPage}) == a + u;
      InOrderIf(h);
    }

    /** A page has got its first block back: it goes to the end of the available ones. */
    method MoveToAvailable(curPage: Page, ghost i: nat, ghost h: set<MemoryWithPage>)
      requires blockSize != 0 && 2 <= BlocksPerPage()
      requires WellLinked() && i < |unavailable| && curPage == unavailable[i]
      requires Stocked(Pages(), BlocksPerPage(), h)
      requires |FreeOf(RingPages(available) + {curPage}, BlocksPerPage())| <= DS_MEMORY_POOL_MAX_FREE_PAGES - 1
      requires SomeLeft(RingPages(available) + {curPage}) && NoneLeft(RingPages(unavailable) - {curPage})
      modifies this`availablePages, this`availablePagesSize, this`unavailablePages, this`unavailablePagesSize
      modifies this`available, this`unavailable
      modifies available`next, available`prev, unavailable`next, unavailable`prev
      ensures InOrder(h) && Pages() == old(Pages())
      ensures available == old(available) + [curPage] && unavailable == Dropped(old(unavailable), i)
    {
      hide InOrder, WellLinked, Stocked, BlocksPerPage, RingPages, Stacks, FreeOf, SomeLeft, NoneLeft;
      IsUnavailable(i);
      ghost var a, u := RingPages(available), RingPages(unavailable);
      StacksAreOther(a + u, this);
      assert allocated(a) && allocated(u) && allocated(Stacks(a + u));
      RelinkToAvailable(curPage, i);
      assert (a + {curPage}) + (u - {curPage}) == a + u;
      InOrderIf(h);
    }

    /** A page of which no block is held is given back. */
    method GiveBack(curPage: Page, ghost i: nat, ghost h: set<MemoryWithPage>)
      requires blockSize != 0 && 2 <= BlocksPerPage()
      requires WellLinked() && i < |available| && curPage == available[i]
      requires Stocked(Pages() - {curPage}, BlocksPerPage(), h)
      requires |FreeOf(RingPages(available) - {curPage}, BlocksPerPage())| <= DS_MEMORY_POOL_MAX_FREE_PAGES - 1
      requires SomeLeft(RingPages(available) - {curPage}) && NoneLeft(RingPages(unavailable))
      modifies this`availablePages, this`availablePagesSize, this`available, available`next, available`prev
      ensures InOrder(h) && Pages() == old(Pages()) - {curPage} && available == Dropped(old(available), i)
    {
      hide InOrder, WellLinked, Stocked, BlocksPerPage, RingPages, Stacks, FreeOf, SomeLeft, NoneLeft;
      IsAvailable(i);
      ghost var a, u := RingPages(available), RingPages(unavailable);
      StacksAreOther(a + u - {curPage}, this);
      assert allocated(a) && allocated(u) && allocated(Stacks(a + u - {curPage}));
      TakeFromAvailable(curPage, i);
      assert (a - {curPage}) + u == a + u - {curPage};
      InOrderIf(h);
    }

    /** Take a block from the head of the available pages. */
    method AllocateFromHead() returns (retVal: MemoryWithPage)
      requires Valid() && available != []
      modifies this`availablePages, this`availablePagesSize, this`unavailablePages, this`unavailablePagesSize
      modifies this`available, this`unavailable
      modifies available`next, available`prev, {available[0]}`availableStackSize, unavailable`next, unavailable`prev
      ensures retVal !in held && InOrder(held + {retVal})
      ensures retVal.parentPage in Pages() && Pages() == old(Pages())
      ensures retVal.parentPage == old(available[0])
      ensures retVal.parentPage.Stack() + [retVal] == old(available[0].Stack())
      ensures HeadGave(old(available[0].availableStackSize), old(available), old(unavailable))
      ensures forall p :: (p in old(available) || p in old(unavailable)) && p != retVal.parentPage ==>
                p.Stack() == old(p.Stack())
    {
      hide InOrder, WellLinked, Stocked, BlocksPerPage, RingPages, Stacks, FreeOf, SomeLeft, NoneLeft, Page.Stack;
      InOrderMeans(held);
      IsAvailable(0);
      var curPage := availablePages;
      ghost var a, u := RingPages(available), RingPages(unavailable);
      Part(a, curPage, BlocksPerPage());
      assert curPage.availableStackSize > 0 by {
        SomeLeftOf(a, curPage);
      }
      retVal := PopBlock(curPage, a + u, BlocksPerPage(), held, a - {curPage}, u);
      RetireOrKeep(curPage, held + {retVal});
    }

    /** What becomes of the lists when the head of the available pages, with `blocks` blocks, gives one. */
    ghost predicate HeadGave(blocks: int, a: seq<Page>, u: seq<Page>)
      reads this`available, this`unavailable
    {
      a != [] && if blocks == 1 then available == Dropped(a, 0) && unavailable == u + [a[0]]
                 else available == a && unavailable == u
    }

    /** The head of the available pages has given a block: if it was the last, the page moves over. */
    method RetireOrKeep(curPage: Page, ghost h: set<MemoryWithPage>)
      requires blockSize != 0 && 2 <= BlocksPerPage()
      requires WellLinked() && available != [] && curPage == available[0]
      requires 0 <= curPage.availableStackSize < BlocksPerPage()
      requires Stocked(Pages(), BlocksPerPage(), h)
      requires |FreeOf(RingPages(available) - {curPage}, BlocksPerPage())| <= DS_MEMORY_POOL_MAX_FREE_PAGES - 1
      requires SomeLeft(RingPages(available) - {curPage}) && NoneLeft(RingPages(unavailable))
      modifies this`availablePages, this`availablePagesSize, this`unavailablePages, this`unavailablePagesSize
      modifies this`available, this`unavailable
      modifies available`next, available`prev, unavailable`next, unavailable`prev
      ensures InOrder(h) && Pages() == old(Pages())
      ensures HeadGave(curPage.availableStackSize + 1, old(available), old(unavailable))
    {
      hide InOrder, WellLinked, Stocked, BlocksPerPage, RingPages, Stacks, FreeOf, SomeLeft, NoneLeft;
      IsAvailable(0);
      if curPage.availableStackSize == 0 {
        Join(RingPages(unavailable), curPage, BlocksPerPage());
        MoveToUnavailable(curPage, h);
      } else {
        StaysAvailable(curPage, h);
      }
    }

    lemma SomeLeftOf(pages: set<Page>, p: Page)
      requires SomeLeft(pages) && p in pages
      ensures p.availableStackSize > 0
    {
    }

    /** Make a page and take its first block, if there is memory for it. */
    method AllocateFromNew(memory: Memory) returns (retVal: MemoryWithPage?)
      requires Valid() && available == []
      modifies this`availablePages, this`availablePagesSize, this`available
      ensures retVal != null <==> memory.Plenty?
      ensures retVal != null ==>
                && retVal !in held && InOrder(held + {retVal})
                && fresh(retVal.parentPage) && fresh(retVal.parentPage.availableStack)
                && Pages() == old(Pages()) + {retVal.parentPage} && available == [retVal.parentPage]
                && retVal.parentPage.Stack() + [retVal] == retVal.parentPage.block
      ensures retVal == null ==> available == [] && (InOrder(held) <==> memory.NoPage?)
      ensures memory.NoBlocks? ==> availablePages != null && fresh(availablePages) && availablePages.block == []
      ensures forall p :: p in old(unavailable) ==> p.Stack() == old(p.Stack())
    {
      hide *;
      if !memory.Plenty? {
        NewPageFails(memory);
        return null;
      }
      retVal := FirstOfNewPage();
    }

    /** What is left behind when there is no memory: nothing, or a page without blocks that counts as available. */
    method NewPageFails(memory: Memory)
      requires Valid() && available == [] && !memory.Plenty?
      modifies this`availablePages, this`availablePagesSize
      ensures InOrder(held) <==> memory.NoPage?
      ensures memory.NoBlocks? ==> availablePages != null && fresh(availablePages) && availablePages.block == []
    {
      hide InOrder, WellLinked, Ring, Apart, Strangers, Stocked, BlocksPerPage, Stacks, FreeOf, SomeLeft, NoneLeft;
      InOrderMeans(held);
      NoneAvailable();
      if memory.NoPage? {
        availablePages := null;
        NoneAvailableStill();
        InOrderIf(held);
      } else {
        var stack := new MemoryWithPage?[0];
        availablePages := new Page(stack);
        availablePagesSize := 1;
        if InOrder(held) {
          InOrderMeans(held);
        }
      }
    }

    lemma NoneAvailableStill()
      requires available == [] && availablePagesSize == 0
      requires unavailablePagesSize == |unavailable| && (unavailable != [] ==> unavailablePages == unavailable[0])
      requires Ring(unavailable) && Apart(unavailable)
      ensures WellLinked()
    {
    }

    method FirstOfNewPage() returns (retVal: MemoryWithPage)
      requires Valid() && available == []
      modifies this`availablePages, this`availablePagesSize, this`available
      ensures retVal !in held && InOrder(held + {retVal})
      ensures fresh(retVal.parentPage) && fresh(retVal.parentPage.availableStack)
      ensures Pages() == old(Pages()) + {retVal.parentPage}
      ensures available == [retVal.parentPage] && retVal.parentPage.Stack() + [retVal] == retVal.parentPage.block
    {
      hide InOrder, WellLinked, Ring, Apart, Strangers, Stocked, BlocksPerPage, RingPages, Stacks, FreeOf, SomeLeft;
      hide NoneLeft, Page.Stack, Page.Ok, Page.Stacked;
      InOrderMeans(held);
      NoneAvailable();
      ghost var u := RingPages(unavailable);
      assert allocated(u) && allocated(Stacks(u));
      var page := InitPage(BlocksPerPage(), u, held);
      availablePages := page;
      availablePagesSize := 1;
      available := [page];
      OneAvailable(page);
      assert {page} + u == u + {page};
      retVal := PopBlock(page, u + {page}, BlocksPerPage(), held, {}, u);
      PageLeft(page, BlocksPerPage());
      InOrderIf(held + {retVal});
    }

    /** What is known when no page is available. */
    lemma NoneAvailable()
      requires WellLinked() && available == []
      ensures Pages() == RingPages(available) + RingPages(unavailable) == RingPages(unavailable)
      ensures unavailablePagesSize == |unavailable| && (unavailable != [] ==> unavailablePages == unavailable[0])
      ensures Ring(unavailable) && Apart(unavailable)
      ensures forall p :: p in unavailable ==> p in RingPages(unavailable)
    {
    }

    /** One page alone in the available list. */
    lemma OneAvailable(page: Page)
      requires available == [page] && availablePages == page && availablePagesSize == 1
      requires page.next == page && page.prev == page && page !in RingPages(unavailable)
      requires unavailablePagesSize == |unavailable| && (unavailable != [] ==> unavailablePages == unavailable[0])
      requires Ring(unavailable) && Apart(unavailable)
      ensures WellLinked() && RingPages(available) == {page} && Pages() == RingPages(unavailable) + {page}
    {
    }

    lemma InFootprint()
      ensures forall p :: p in available || p in unavailable ==> p in Pages() && p in Footprint()
      ensures forall p :: p in Pages() ==> p in Footprint() && p.availableStack in Footprint()
    {
    }

    lemma FootprintIs(pages: set<Page>, more: set<Page>, stacks: set<object>)
      requires Pages() == pages || Pages() == more
      requires Stacks(more) == stacks && Stacks(pages) <= stacks && pages <= more
      ensures Footprint() <= {this as object} + more + stacks
      ensures pages == more ==> Footprint() == {this as object} + more + stacks
      ensures this !in stacks && forall p: Page :: p !in stacks
    {
      StacksAreOther(more, this);
    }

    /** Hand out a block that nobody holds; null if a page is needed and there is no memory for it.  When the page
        itself can be had but not its blocks, the pool is left out of order. */
    method Allocate(memory: Memory) returns (retVal: MemoryWithPage?)
      requires Valid()
      modifies Footprint()
      ensures Valid() <==> old(available) != [] || !memory.NoBlocks?
      ensures fresh(Footprint() - old(Footprint()))
      ensures retVal == null <==> old(available) == [] && !memory.Plenty?
      ensures retVal == null ==>
                held == old(held) && available == old(available) && unavailable == old(unavailable)
      ensures retVal != null ==>
                && retVal !in old(held) && held == old(held) + {retVal} && retVal.parentPage in Pages()
                && Pages() == if old(available) != [] then old(Pages()) else old(Pages()) + {retVal.parentPage}
      ensures old(available) != [] ==>
                && retVal.parentPage == old(available[0])
                && retVal.parentPage.Stack() + [retVal] == old(available[0].Stack())
                && HeadGave(old(available[0].availableStackSize), old(available), old(unavailable))
      ensures old(available) == [] && retVal != null ==>
                && fresh(retVal.parentPage) && fresh(retVal.parentPage.availableStack)
                && available == [retVal.parentPage] && unavailable == old(unavailable)
                && retVal.parentPage.Stack() + [retVal] == retVal.parentPage.block
      ensures forall p :: p in old(available) || p in old(unavailable) ==>
                (retVal != null && p == retVal.parentPage) || p.Stack() == old(p.Stack())
    {
      hide InOrder, BlocksPerPage, RingPages, Stacks, HeadGave, WellLinked, Stocked, SomeLeft, NoneLeft, FreeOf;
      hide Page.Stack, Page.Ok, Page.Stacked, Dropped, Footprint;
      InOrderMeans(held);
      InFootprint();
      ghost var pages, stacks := Pages(), Stacks(Pages());
      assert allocated(pages) && allocated(stacks);
      FootprintIs(pages, pages, stacks);
      if availablePagesSize > 0 {
        retVal := AllocateFromHead();
      } else {
        retVal := AllocateFromNew(memory);
        if retVal == null {
          return;
        }
      }
      assert Stacks(pages) == stacks;
      StacksOf(pages, pages, retVal.parentPage);
      FootprintIs(pages, pages + {retVal.parentPage}, stacks + {retVal.parentPage.availableStack});
      held := held + {retVal};
    }

    /** The page of a held block is in the list its stack says. */
    lemma PageOfHeld(m: MemoryWithPage) returns (i: nat)
      requires Valid() && m in held
      ensures m.parentPage in Pages() && m in m.parentPage.block
      ensures 0 <= m.parentPage.availableStackSize
      ensures if m.parentPage.availableStackSize == 0 then i < |unavailable| && unavailable[i] == m.parentPage
              else i < |available| && available[i] == m.parentPage
    {
      assert m.parentPage.Ok(BlocksPerPage());
      if m.parentPage.availableStackSize == 0 {
        assert m.parentPage !in RingPages(available);
        i :| 0 <= i < |unavailable| && unavailable[i] == m.parentPage;
      } else {
        assert m.parentPage !in RingPages(unavailable);
        i :| 0 <= i < |available| && available[i] == m.parentPage;
      }
    }

    /** The page of a held block shares its stack with no other page. */
    lemma OwnStacks(m: MemoryWithPage)
      requires Valid() && m in held
      ensures forall p :: p in Pages() && p != m.parentPage ==> p.availableStack != m.parentPage.availableStack
    {
    }

    /** Take back the first block of a page that had none left. */
    method ReleaseToUnavailable(m: MemoryWithPage) returns (ghost i: nat)
      requires Valid() && m in held && m.parentPage.availableStackSize == 0
      modifies this`availablePages, this`availablePagesSize, this`unavailablePages, this`unavailablePagesSize
      modifies this`available, this`unavailable, m.parentPage`availableStackSize, m.parentPage.availableStack
      modifies available`next, available`prev, unavailable`next, unavailable`prev
      ensures InOrder(held - {m}) && Pages() == old(Pages())
      ensures i < |old(unavailable)| && old(unavailable)[i] == m.parentPage
      ensures available == old(available) + [m.parentPage] && unavailable == Dropped(old(unavailable), i)
      ensures m.parentPage.Stack() == old(m.parentPage.Stack()) + [m]
    {
      hide InOrder, WellLinked, Stocked, BlocksPerPage, RingPages, Stacks, FreeOf, SomeLeft, NoneLeft, Page.Stack;
      var curPage := m.parentPage;
      i := PageOfHeld(m);
      InOrderMeans(held);
      IsUnavailable(i);
      ghost var a, u := RingPages(available), RingPages(unavailable);
      StacksAreOther(a + u, this);
      assert allocated(a) && allocated(u) && allocated(Stacks(a + u));
      Part(u, curPage, BlocksPerPage());
      PushBlock(curPage, m, a + u, BlocksPerPage(), held, a, u - {curPage});
      Join(a, curPage, BlocksPerPage());
      MoveToAvailable(curPage, i, held - {m});
    }

    /** A page that had blocks left has got one more: if none of its blocks is held now and there are pages
        enough, it is given back. */
    method GiveBackOrKeep(curPage: Page, ghost i: nat, ghost h: set<MemoryWithPage>)
      requires blockSize != 0 && 2 <= BlocksPerPage()
      requires WellLinked() && i < |available| && curPage == available[i] && curPage.availableStackSize > 0
      requires Stocked(Pages(), BlocksPerPage(), h)
      requires |FreeOf(RingPages(available) - {curPage}, BlocksPerPage())| <= DS_MEMORY_POOL_MAX_FREE_PAGES - 1
      requires SomeLeft(RingPages(available) - {curPage}) && NoneLeft(RingPages(unavailable))
      modifies this`availablePages, this`availablePagesSize, this`available, available`next, available`prev
      ensures InOrder(h)
      ensures if curPage.availableStackSize == BlocksPerPage() && |old(available)| >= 4
              then Pages() == old(Pages()) - {curPage} && available == Dropped(old(available), i) &&
                   forall b :: b in curPage.block ==> b !in h
              else Pages() == old(Pages()) && available == old(available)
    {
      hide InOrder, WellLinked, Stocked, BlocksPerPage, RingPages, Stacks, FreeOf, SomeLeft, NoneLeft;
      IsAvailable(i);
      PageCount(available);
      if curPage.availableStackSize == BlocksPerPage() && availablePagesSize >= DS_MEMORY_POOL_MAX_FREE_PAGES {
        DropPage(curPage, Pages(), BlocksPerPage(), h);
        GiveBack(curPage, i, h);
      } else {
        StaysAvailable(curPage, h);
      }
    }

    /** Take back a block of a page that has others. */
    method ReleaseToAvailable(m: MemoryWithPage) returns (ghost i: nat)
      requires Valid() && m in held && m.parentPage.availableStackSize != 0
      modifies this`availablePages, this`availablePagesSize, this`available
      modifies available`next, available`prev, m.parentPage`availableStackSize, m.parentPage.availableStack
      ensures InOrder(held - {m}) && i < |old(available)| && old(available)[i] == m.parentPage
      ensures if old(m.parentPage.availableStackSize) + 1 == BlocksPerPage() && |old(available)| >= 4
              then Pages() == old(Pages()) - {m.parentPage} && available == Dropped(old(available), i) &&
                   forall b :: b in m.parentPage.block ==> b !in held - {m}
              else Pages() == old(Pages()) && available == old(available)
      ensures m.parentPage.Stack() == old(m.parentPage.Stack()) + [m]
    {
      hide InOrder, WellLinked, Stocked, BlocksPerPage, RingPages, Stacks, FreeOf, SomeLeft, NoneLeft, Page.Stack;
      var curPage := m.parentPage;
      i := PageOfHeld(m);
      InOrderMeans(held);
      IsAvailable(i);
      ghost var a, u := RingPages(available), RingPages(unavailable);
      StacksAreOther(a + u, this);
      assert allocated(a) && allocated(u) && allocated(Stacks(a + u));
      Part(a, curPage, BlocksPerPage());
      PushBlock(curPage, m, a + u, BlocksPerPage(), held, a - {curPage}, u);
      GiveBackOrKeep(curPage, i, held - {m});
    }

    /** A page keeps its place; if it has become wholly free, it is one of few pages. */
    lemma StaysAvailable(curPage: Page, h: set<MemoryWithPage>)
      requires blockSize != 0 && 2 <= BlocksPerPage()
      requires WellLinked() && Stocked(Pages(), BlocksPerPage(), h)
      requires curPage in RingPages(available) && curPage.availableStackSize > 0
      requires SomeLeft(RingPages(available) - {curPage}) && NoneLeft(RingPages(unavailable))
      requires |FreeOf(RingPages(available) - {curPage}, BlocksPerPage())| <= DS_MEMORY_POOL_MAX_FREE_PAGES - 1
      requires curPage.availableStackSize == BlocksPerPage() ==>
                 |RingPages(available)| <= DS_MEMORY_POOL_MAX_FREE_PAGES - 1
      ensures InOrder(h)
    {
      hide InOrder, WellLinked, Stocked, BlocksPerPage, RingPages, SomeLeft, NoneLeft;
      var a := RingPages(available);
      Join(a - {curPage}, curPage, BlocksPerPage());
      assert a - {curPage} + {curPage} == a;
      SubsetCardinality(FreeOf(a, BlocksPerPage()), a);
      InOrderIf(h);
    }

    /** Take a held block back; `i` is the place of its page in its list. */
    method Release(m: MemoryWithPage) returns (ghost i: nat)
      requires Valid() && m in held
      modifies Footprint()
      ensures Valid() && Footprint() <= old(Footprint()) && held == old(held) - {m}
      ensures old(m.parentPage.availableStackSize) == 0 ==>
                && i < |old(unavailable)| && old(unavailable)[i] == m.parentPage && Pages() == old(Pages())
                && available == old(available) + [m.parentPage] && unavailable == Dropped(old(unavailable), i)
      ensures old(m.parentPage.availableStackSize) != 0 ==>
                && i < |old(available)| && old(available)[i] == m.parentPage && unavailable == old(unavailable)
                && if old(m.parentPage.availableStackSize) + 1 == BlocksPerPage() && |old(available)| >= 4
                   then Pages() == old(Pages()) - {m.parentPage} && available == Dropped(old(available), i) &&
                        forall b :: b in m.parentPage.block ==> b !in held
                   else Pages() == old(Pages()) && available == old(available)
      ensures m.parentPage.Stack() == old(m.parentPage.Stack()) + [m]
      ensures forall p :: p in old(Pages()) && p != m.parentPage ==> p.Stack() == old(p.Stack())
    {
      hide InOrder, BlocksPerPage, Dropped, RingPages, Stacks, Page.Stack;
      ghost var _ := PageOfHeld(m);
      OwnStacks(m);
      InFootprint();
      ghost var pages, stacks := Pages(), Stacks(Pages());
      assert allocated(pages) && allocated(stacks);
      if m.parentPage.availableStackSize == 0 {
        i := ReleaseToUnavailable(m);
      } else {
        i := ReleaseToAvailable(m);
      }
      assert Stacks(pages) == stacks;
      StacksOf(Pages(), pages, m.parentPage);
      StacksAreOther(Pages(), this);
      held := held - {m};
    }

    /** Free all pages, whatever is held. */
    method Clear() returns (ghost freed: seq<Page>)
      requires Valid()
      modifies this
      ensures Valid() && Pages() == {} && held == {}
      ensures freed == old(available) + old(unavailable)
    {
      hide InOrder, Stocked, SomeLeft, NoneLeft, FreeOf, BlocksPerPage, RingPages, Stacks;
      InOrderMeans(held);
      freed := [];
      if availablePagesSize > 0 {
        freed := FreeRing(availablePages, available);
      }
      if unavailablePagesSize > 0 {
        ghost var more := FreeRing(unavailablePages, unavailable);
        freed := freed + more;
      }
      availablePagesSize := 0;
      unavailablePagesSize := 0;
      available, unavailable, held := [], [], {};
      EmptyIsInOrder();
    }

    lemma EmptyIsInOrder()
      requires blockSize != 0 && 2 <= BlocksPerPage()
      requires available == [] && unavailable == [] && availablePagesSize == 0 && unavailablePagesSize == 0
      ensures InOrder({}) && Pages() == {}
    {
      assert FreePages() == {};
    }
  }
}
