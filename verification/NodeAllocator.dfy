/**
  The paged node allocator in memory: a stack of pages linked by `prev`, and a free
  list threaded through the freed slots themselves.
 */
module NodeAllocator {
  import opened NodePool

  /** The address of one node-sized slot. */
  datatype Pointer = Null | To(page: NodePage, index: nat)

  class NodePage {
    const max: nat
    const prev: NodePage?
    /** Slots of this page handed out so far. */
    var cursor: nat
    /** What a freed slot stores: the address of the next free one. */
    const next: array<Pointer>

    constructor (prev: NodePage?, nmemb: nat)
      ensures this.prev == prev && max == nmemb && cursor == 0
      ensures fresh(next) && next.Length == nmemb
    {
      this.prev, max, cursor := prev, nmemb, 0;
      next := new Pointer[nmemb](_ => Null);
    }
  }

  function Previous(pages: seq<NodePage>, i: nat): NodePage?
    requires i < |pages|
  {
    if i == 0 then null else pages[i - 1]
  }

  /** The pages in memory have the given sizes, cursors and slots and are linked in order. */
  ghost predicate PagesMatch(pages: seq<NodePage>, nexts: seq<array<Pointer>>, maxes: seq<nat>, cursors: seq<nat>)
    reads pages
  {
    && |pages| == |nexts| == |maxes| == |cursors| > 0
    && (forall i :: 0 <= i < |pages| ==>
          && pages[i].cursor == cursors[i] && pages[i].max == maxes[i]
          && pages[i].next == nexts[i] && nexts[i].Length == maxes[i])
    && (forall i {:trigger pages[i].prev} :: 0 <= i < |pages| ==> pages[i].prev == Previous(pages, i))
    && (forall i, j :: 0 <= i < j < |pages| ==> pages[i] != pages[j] && nexts[i] != nexts[j])
  }

  lemma LastPage(pages: seq<NodePage>, nexts: seq<array<Pointer>>, maxes: seq<nat>, cursors: seq<nat>)
    requires PagesMatch(pages, nexts, maxes, cursors)
    ensures var n := |pages| - 1;
      && |pages| == |nexts| == |maxes| == |cursors| > 0 && pages[n].prev == Previous(pages, n)
      && pages[n].cursor == cursors[n] && pages[n].max == maxes[n]
  {
    assert pages[|pages| - 1].prev == Previous(pages, |pages| - 1);
  }

  lemma PageAt(pages: seq<NodePage>, nexts: seq<array<Pointer>>, maxes: seq<nat>, cursors: seq<nat>, i: nat)
    requires PagesMatch(pages, nexts, maxes, cursors) && i < |pages|
    ensures |pages| == |nexts| == |maxes| && pages[i].next == nexts[i] && nexts[i].Length == maxes[i]
    ensures forall j :: 0 <= j < |nexts| && j != i ==> nexts[j] != nexts[i]
  {
  }

  lemma DropLastPage(pages: seq<NodePage>, nexts: seq<array<Pointer>>, maxes: seq<nat>, cursors: seq<nat>)
    requires PagesMatch(pages, nexts, maxes, cursors) && |pages| > 1
    ensures var n := |pages| - 1;
      PagesMatch(pages[..n], nexts[..n], maxes[..n], cursors[..n])
  {
    var n := |pages| - 1;
    forall i {:trigger pages[..n][i].prev} | 0 <= i < n
      ensures pages[..n][i].prev == Previous(pages[..n], i)
    {
      assert pages[i].prev == Previous(pages, i);
    }
  }

  /** `memory` holds what the slots of the pages store. */
  ghost predicate MemoryMatch(nexts: seq<array<Pointer>>, memory: seq<seq<Pointer>>)
    reads nexts
  {
    |memory| == |nexts| && forall i :: 0 <= i < |nexts| ==> memory[i] == nexts[i][..]
  }

  lemma DropLastMemory(nexts: seq<array<Pointer>>, memory: seq<seq<Pointer>>)
    requires MemoryMatch(nexts, memory)
    ensures |memory| == |nexts|
    ensures |nexts| > 0 ==> MemoryMatch(nexts[..|nexts| - 1], memory[..|nexts| - 1])
  {
  }

  lemma MemoryIs(nexts: seq<array<Pointer>>, memory: seq<seq<Pointer>>)
    requires MemoryMatch(nexts, memory)
    ensures |memory| == |nexts| && forall i :: 0 <= i < |nexts| ==> memory[i] == nexts[i][..]
  {
  }

  /** One slot of one page has changed. */
  lemma MemoryWritten(nexts: seq<array<Pointer>>, memory: seq<seq<Pointer>>, s: Slot, link: Pointer)
    requires |memory| == |nexts| && s.page < |nexts| && s.index < |memory[s.page]|
    requires forall i :: 0 <= i < |nexts| && i != s.page ==> memory[i] == nexts[i][..]
    requires nexts[s.page][..] == memory[s.page][s.index := link]
    ensures MemoryMatch(nexts, memory[s.page := memory[s.page][s.index := link]])
  {
  }

  predicate InMemory(memory: seq<seq<Pointer>>, s: Slot) {
    s.page < |memory| && s.index < |memory[s.page]|
  }

  /** The stored links, from `head` on, spell out the free list. */
  predicate Chain(pages: seq<NodePage>, memory: seq<seq<Pointer>>, free: seq<Slot>, head: Pointer)
    requires |memory| == |pages|
  {
    if free == [] then head == Null
    else
      && InMemory(memory, free[0]) && head == To(pages[free[0].page], free[0].index)
      && Chain(pages, memory, free[1..], memory[free[0].page][free[0].index])
  }

  lemma ChainNil(pages: seq<NodePage>, memory: seq<seq<Pointer>>, head: Pointer)
    requires |memory| == |pages|
    ensures Chain(pages, memory, [], head) <==> head == Null
  {
  }

  /** A slot that stores the head of the chain is a new head. */
  lemma ChainMore(pages: seq<NodePage>, memory: seq<seq<Pointer>>, free: seq<Slot>, head: Pointer, s: Slot)
    requires |memory| == |pages| && Chain(pages, memory, free, head) && InMemory(memory, s)
    requires memory[s.page][s.index] == head
    ensures Chain(pages, memory, [s] + free, To(pages[s.page], s.index))
  {
    assert ([s] + free)[1..] == free;
  }

  /** Writing a slot that is not free leaves the free list alone. */
  lemma {:induction false} ChainKept(pages: seq<NodePage>, memory: seq<seq<Pointer>>, free: seq<Slot>,
                                     head: Pointer, s: Slot, link: Pointer)
    requires |memory| == |pages| && Chain(pages, memory, free, head) && s !in free && InMemory(memory, s)
    ensures Chain(pages, memory[s.page := memory[s.page][s.index := link]], free, head)
  {
    if free != [] {
      assert free[0] in free;
      ChainKept(pages, memory, free[1..], memory[free[0].page][free[0].index], s, link);
    }
  }

  /** A free list that stays below page `n` needs only the first `n` pages. */
  lemma {:induction false} ChainBelow(pages: seq<NodePage>, memory: seq<seq<Pointer>>, free: seq<Slot>,
                                      head: Pointer, n: nat)
    requires |memory| == |pages| && n <= |pages| && Chain(pages, memory, free, head)
    requires forall s :: s in free ==> s.page < n
    ensures Chain(pages[..n], memory[..n], free, head)
  {
    if free != [] {
      assert free[0] in free;
      ChainBelow(pages, memory, free[1..], memory[free[0].page][free[0].index], n);
    }
  }

  class NodeAlloc {
    var blocks: Pointer
    var page: NodePage
    /** The pages from the oldest to the newest, their slots, and what those store. */
    ghost var pages: seq<NodePage>
    ghost var nexts: seq<array<Pointer>>
    ghost var memory: seq<seq<Pointer>>
    ghost var pool: Pool

    ghost predicate Valid()
      reads this, pages, nexts
    {
      && PoolOk(pool) && PagesMatch(pages, nexts, pool.maxes, pool.cursors) && page == pages[|pages| - 1]
      && MemoryMatch(nexts, memory) && Chain(pages, memory, pool.free, blocks)
    }

    ghost function Footprint(): set<object>
      reads this
    {
      {this} + (set p: NodePage | p in pages) + (set a: array<Pointer> | a in nexts)
    }

    /** The slot a pointer denotes. */
    ghost predicate Denotes(ptr: Pointer, s: Slot)
      reads this
    {
      s.page < |pages| && ptr == To(pages[s.page], s.index)
    }

    constructor (nmemb: nat)
      requires nmemb > 0
      ensures Valid() && pool == NewPool(nmemb) && fresh(Footprint())
    {
      var first := new NodePage(null, nmemb);
      blocks, page := Null, first;
      pages, nexts, memory, pool := [first], [first.next], [first.next[..]], NewPool(nmemb);
      new;
      RunKeepsPool(nmemb, []);
    }

    method SearchFreeBlocks() returns (ptr: Pointer)
      requires Valid() && blocks != Null
      modifies this
      ensures Valid() && pages == old(pages) && nexts == old(nexts) && pool == AllocPool(old(pool)).0
      ensures Denotes(ptr, AllocPool(old(pool)).1)
      ensures ptr == old(blocks) && blocks == old(blocks.page.next[blocks.index]) && page == old(page)
    {
      hide PoolOk;
      AllocKeepsPool(pool);
      ptr := blocks;
      blocks := ptr.page.next[ptr.index];
      pool := AllocPool(pool).0;
    }

    /** Put a new page twice as large on the page stack. */
    method CreatePage()
      requires |pages| > 0 && PagesMatch(pages, nexts, pool.maxes, pool.cursors) && MemoryMatch(nexts, memory)
      requires page == pages[|pages| - 1]
      modifies `page, `pages, `nexts, `memory
      ensures pages == old(pages) + [page] && fresh(page) && page.prev == old(page) && page.max == 2 * old(page.max)
      ensures page.cursor == 0
      ensures nexts == old(nexts) + [page.next] && fresh(page.next)
      ensures PagesMatch(pages, nexts, pool.maxes + [GrowthPolicy(old(page.max))], pool.cursors + [0])
      ensures MemoryMatch(nexts, memory)
    {
      page := new NodePage(page, GrowthPolicy(page.max));
      pages, nexts, memory := pages + [page], nexts + [page.next], memory + [page.next[..]];
    }

    /** Move the cursor of the newest page. */
    method SetCursor(c: nat, ghost maxes: seq<nat>, ghost cursors: seq<nat>)
      requires |pages| > 0 && page == pages[|pages| - 1] && PagesMatch(pages, nexts, maxes, cursors)
      requires MemoryMatch(nexts, memory)
      modifies page`cursor
      ensures page.cursor == c && PagesMatch(pages, nexts, maxes, cursors[|pages| - 1 := c])
      ensures MemoryMatch(nexts, memory)
    {
      page.cursor := c;
    }

    /** Hand out the slot at the cursor of the newest page. */
    method TakeSlot(ghost maxes: seq<nat>, ghost cursors: seq<nat>, ghost q: Pool) returns (ptr: Pointer)
      requires |pages| > 0 && page == pages[|pages| - 1] && PagesMatch(pages, nexts, maxes, cursors)
      requires MemoryMatch(nexts, memory) && blocks == Null && PoolOk(q)
      requires q.maxes == maxes && q.cursors == cursors[|pages| - 1 := page.cursor + 1] && q.free == []
      modifies `pool, page`cursor
      ensures Valid() && pool == q && Denotes(ptr, Slot(|pages| - 1, old(page.cursor)))
      ensures ptr == To(page, old(page.cursor)) && page.cursor == old(page.cursor) + 1
    {
      hide PoolOk, Chain, PagesMatch, MemoryMatch;
      ptr := To(page, page.cursor);
      LastPage(pages, nexts, maxes, cursors);
      SetCursor(page.cursor + 1, maxes, cursors);
      pool := q;
      DropLastMemory(nexts, memory);
      ChainNil(pages, memory, blocks);
    }

    method PageAllocate() returns (ptr: Pointer)
      requires Valid() && pool.free == []
      modifies this, page
      ensures Valid() && pool == AllocPool(old(pool)).0
      ensures (pages == old(pages) && nexts == old(nexts)) ||
        (pages == old(pages) + [page] && nexts == old(nexts) + [page.next] && fresh(page) && fresh(page.next))
      ensures Denotes(ptr, AllocPool(old(pool)).1)
      ensures blocks == old(blocks) && ptr == To(page, page.cursor - 1)
      ensures if old(page.cursor < page.max) then page == old(page) && page.cursor == old(page.cursor) + 1
        else fresh(page) && page.prev == old(page) && page.max == 2 * old(page.max) && page.cursor == 1
    {
      hide PoolOk, Chain, PagesOk, PagesMatch, MemoryMatch, AllocPool;
      PoolPages(pool);
      LastPage(pages, nexts, pool.maxes, pool.cursors);
      DropLastMemory(nexts, memory);
      ChainNil(pages, memory, blocks);
      AllocKeepsPool(pool);
      ghost var maxes, cursors, q := pool.maxes, pool.cursors, AllocPool(pool).0;
      if page.cursor >= page.max {
        AllocThere(pool);
        maxes, cursors := maxes + [GrowthPolicy(page.max)], cursors + [0];
        CreatePage();
        LastPage(pages, nexts, maxes, cursors);
      } else {
        AllocHere(pool);
      }
      ptr := TakeSlot(maxes, cursors, q);
    }

    /** Hand out a slot that is not live. */
    method AllocNode() returns (ptr: Pointer)
      requires Valid()
      modifies Footprint()
      ensures Valid() && fresh(Footprint() - old(Footprint()))
      ensures pool == AllocPool(old(pool)).0 && Denotes(ptr, AllocPool(old(pool)).1)
      ensures if old(blocks != Null) then
          && ptr == old(blocks) && blocks == old(if blocks.To? then blocks.page.next[blocks.index] else Null)
          && page == old(page) && page.cursor == old(page.cursor)
        else if old(page.cursor < page.max) then
          && ptr == To(old(page), old(page.cursor)) && blocks == Null
          && page == old(page) && page.cursor == old(page.cursor) + 1
        else
          && ptr == To(page, 0) && blocks == Null && fresh(page) && page.prev == old(page)
          && page.max == 2 * old(page.max) && page.cursor == 1
    {
      hide PoolOk;
      if blocks != Null {
        ptr := SearchFreeBlocks();
      } else {
        assert page in pages;
        ptr := PageAllocate();
      }
    }

    /** Take a live slot back; an emptied newest page is given up. */
    method FreeNode(ptr: Pointer, ghost s: Slot)
      requires Valid() && s in pool.live && Denotes(ptr, s)
      modifies Footprint()
      ensures Valid() && Footprint() <= old(Footprint()) && pool == FreePool(old(pool), s)
      ensures if old(page.cursor > 0 && ptr == To(page, page.cursor - 1)) then
          && blocks == old(blocks) && old(page).cursor == old(page.cursor) - 1
          && page == if old(page.cursor == 1 && page.prev != null) then old(page.prev) else old(page)
        else
          && blocks == ptr && ptr.page.next[ptr.index] == old(blocks)
          && page == old(page) && page.cursor == old(page.cursor)
    {
      var curr := page;
      assert Below(pool, s);
      if curr.cursor > 0 && ptr == To(curr, curr.cursor - 1) {
        FreeTop(s);
      } else {
        FreeElsewhere(ptr, s);
      }
    }

    method FreeTop(ghost s: Slot)
      requires Valid() && page.cursor > 0 && s in pool.live && s == Slot(|pages| - 1, page.cursor - 1)
      modifies this, page
      ensures Valid() && pool == FreePool(old(pool), s)
      ensures (pages == old(pages) && nexts == old(nexts)) ||
        (pages == old(pages)[..|old(pages)| - 1] && nexts == old(nexts)[..|old(pages)| - 1])
      ensures blocks == old(blocks) && old(page).cursor == old(page.cursor) - 1
      ensures page == if old(page.cursor == 1 && page.prev != null) then old(page.prev) else old(page)
    {
      hide PoolOk, PagesOk, Chain, PagesMatch, MemoryMatch, FreePool;
      PoolPages(pool);
      LastPage(pages, nexts, pool.maxes, pool.cursors);
      ghost var n := |pages| - 1;
      DropLastMemory(nexts, memory);
      FreeKeepsPool(pool, s);
      ghost var cursors := pool.cursors[n := page.cursor - 1];
      if page.cursor == 1 && page.prev != null {
        FreeLastPage(pool, s);
        GivenUpPageIsDead(pool, s);
        ChainBelow(pages, memory, pool.free, blocks, n);
      } else {
        FreeLastSlot(pool, s);
      }
      ghost var q := FreePool(pool, s);
      SetCursor(page.cursor - 1, pool.maxes, pool.cursors);
      if page.cursor == 0 && page.prev != null {
        DropLastPage(pages, nexts, pool.maxes, cursors);
        assert cursors[..n] == pool.cursors[..n];
        DropLastMemory(nexts, memory);
        page := page.prev;
        pages, nexts, memory := pages[..n], nexts[..n], memory[..n];
      }
      pool := q;
    }

    method FreeElsewhere(ptr: Pointer, ghost s: Slot)
      requires Valid() && s in pool.live && Denotes(ptr, s)
      requires page.cursor == 0 || s != Slot(|pages| - 1, page.cursor - 1)
      modifies this, nexts[s.page]
      ensures Valid() && pages == old(pages) && nexts == old(nexts) && pool == FreePool(old(pool), s)
      ensures blocks == ptr && ptr.page.next[ptr.index] == old(blocks) && page == old(page) && page.cursor == old(page.cursor)
    {
      hide PoolOk, PagesOk, Chain, MemoryMatch, PagesMatch, FreePool;
      PoolPages(pool);
      LastPage(pages, nexts, pool.maxes, pool.cursors);
      PageAt(pages, nexts, pool.maxes, pool.cursors, s.page);
      FreeAside(pool, s);
      FreeKeepsPool(pool, s);
      LiveSlot(pool, s);
      MemoryIs(nexts, memory);
      assert InMemory(memory, s);
      ChainKept(pages, memory, pool.free, blocks, s, blocks);
      ghost var link := blocks;
      ptr.page.next[ptr.index] := blocks;
      MemoryWritten(nexts, memory, s, blocks);
      memory := memory[s.page := memory[s.page][s.index := blocks]];
      blocks := ptr;
      ChainMore(pages, memory, pool.free, link, s);
      pool := FreePool(pool, s);
    }

    /** Destroy all pages but the oldest. */
    method DestroyPages()
      requires |pages| > 0 && PagesMatch(pages, nexts, pool.maxes, pool.cursors) && page == pages[|pages| - 1]
      modifies `page, `pages, `nexts
      ensures pages == [page] && nexts == [page.next] && page == old(pages)[0] && page.next == old(nexts)[0] && page.prev == null
    {
      ghost var all := pages;
      while page.prev != null
        invariant 0 < |pages| <= |all| && pages == all[..|pages|] && page == pages[|pages| - 1]
        invariant nexts == old(nexts)[..|pages|]
        decreases |pages|
      {
        assert page.prev == Previous(all, |pages| - 1);
        page := page.prev;
        pages, nexts := pages[..|pages| - 1], nexts[..|pages| - 1];
      }
      assert page.prev == Previous(all, |pages| - 1);
    }

    /** Give everything back, keeping only the oldest page. */
    method ClearNodes()
      requires Valid()
      modifies Footprint()
      ensures Valid() && Footprint() <= old(Footprint()) && pool == ClearPool(old(pool))
      ensures blocks == Null && pages == [page] && old(|pages|) > 0 && page == old(pages)[0]
      ensures page.cursor == 0 && page.prev == null && pool.live == {} && pool.free == []
    {
      hide PoolOk, PagesOk, Chain;
      ClearKeepsPool(pool);
      assert pages[0] in pages;
      DestroyPages();
      blocks := Null;
      memory := [page.next[..]];
      page.cursor := 0;
      pool := ClearPool(pool);
      ChainNil(pages, memory, blocks);
    }
  }
}
