/**
 The kernel's bump allocator, whose growth path allocates through itself: each page added to the
 kernel data region makes bookkeeping calls to kalloc, which may themselves need to grow.

 What a page's bookkeeping asks for is not decided here: a call carries the tree of calls made
 while it grows the heap, and the results hold for every such tree.
 */
module KernelHeap {
  import opened Machine
  import opened Paging

  const RESERVE: nat := 40960       // KERNEL_MEMORY_PAGE_RESERVE: ten pages

  // ---------------------------------------------------------------- calls and their nested calls

  /** One kalloc, with the physical pages it gets if it has to grow. */
  datatype Call = Call(size: nat, pages: Pages)

  /** Physical pages handed out one after the other, each with the calls its bookkeeping makes. */
  datatype Pages = OutOfPages | Page(work: Calls, rest: Pages)

  datatype Calls = Done | Then(first: Call, rest: Calls)

  datatype Block = Block(addr: nat, size: nat)

  /**
   The kernel data region starts at `start` and has `mapped` bytes allocated; `ptr` is
   current_mem_ptr, and `log` lists the completed calls in order of completion.
   */
  datatype Heap = Heap(start: nat, ptr: nat, mapped: nat, log: seq<Block>)

  predicate Valid(h: Heap) {
    h.start <= h.ptr && h.mapped % PAGE == 0
  }

  /** minimum_required_size of ensure_free_memory */
  function Needed(h: Heap, size: nat): nat
    requires Valid(h)
  {
    h.ptr - h.start + size + RESERVE
  }

  /** How many pages ensure_free_memory asks vmem_region_resize for. */
  function PagesNeeded(h: Heap, size: nat): nat
    requires Valid(h)
  {
    if Needed(h, size) > h.mapped then (AlignNext(Needed(h, size) + RESERVE) - h.mapped) / PAGE else 0
  }

  /** The region grows before its bookkeeping allocates. */
  function AddPage(h: Heap): Heap {
    h.(mapped := h.mapped + PAGE)
  }

  /** kalloc: the new heap, and the address or nothing when physical memory ran out. */
  function Kalloc(h: Heap, c: Call): (r: (Heap, Option<nat>))
    requires Valid(h)
    ensures Valid(r.0) && r.0.start == h.start && h.mapped <= r.0.mapped && h.ptr <= r.0.ptr
    decreases c
  {
    var g := Grow(h, c.pages, PagesNeeded(h, c.size));
    if !g.1 then (g.0, None)
    else (g.0.(ptr := g.0.ptr + c.size, log := g.0.log + [Block(g.0.ptr, c.size)]), Some(g.0.ptr))
  }

  /** The growth loop with n pages to go. */
  function Grow(h: Heap, pages: Pages, n: nat): (r: (Heap, bool))
    requires Valid(h)
    ensures Valid(r.0) && r.0.start == h.start && h.mapped <= r.0.mapped && h.ptr <= r.0.ptr
    ensures r.1 ==> h.mapped + n * PAGE <= r.0.mapped
    decreases pages
  {
    if n == 0 then (h, true)
    else if pages.OutOfPages? then (h, false)
    else Grow(Bookkeep(AddPage(h), pages.work), pages.rest, n - 1)
  }

  function Bookkeep(h: Heap, work: Calls): (r: Heap)
    requires Valid(h)
    ensures Valid(r) && r.start == h.start && h.mapped <= r.mapped && h.ptr <= r.ptr
    decreases work
  {
    if work.Done? then h else Bookkeep(Kalloc(h, work.first).0, work.rest)
  }

  // ---------------------------------------------------------------- the code's own form

  class Allocator {
    const start: nat
    var ptr: nat
    var mapped: nat
    var log: seq<Block>

    function View(): Heap
      reads this
    {
      Heap(start, ptr, mapped, log)
    }

    constructor (start: nat, mapped: nat)
      ensures View() == Heap(start, start, mapped, [])
    {
      this.start := start;
      ptr := start;
      this.mapped := mapped;
      log := [];
    }

    method EnsureFreeMemory(size: nat, pages: Pages) returns (ok: bool)
      requires Valid(View())
      modifies this
      ensures (View(), ok) == Grow(old(View()), pages, PagesNeeded(old(View()), size))
      decreases pages
    {
      ok := true;
      var required := ptr + size + RESERVE - start;
      if required > mapped {
        var newSize := AlignNext(required + RESERVE);
        ok := Resize(newSize - mapped, pages);
      }
    }

    method Resize(space: nat, pages: Pages) returns (ok: bool)
      requires Valid(View()) && space % PAGE == 0
      modifies this
      ensures (View(), ok) == Grow(old(View()), pages, space / PAGE)
      decreases pages, 0
    {
      hide Grow, Bookkeep, Kalloc;
      var remain: nat, left := space, pages;
      ghost var n: nat := space / PAGE;
      while remain > 0
        invariant Valid(View()) && remain == n * PAGE
        invariant Grow(View(), left, n) == Grow(old(View()), pages, space / PAGE)
        invariant left == pages || left < pages
        decreases remain
      {
        GrowStep(View(), left, n);
        if left.OutOfPages? {
          return false;
        }
        mapped := mapped + PAGE;
        var work := left.work;
        RunBookkeeping(work);
        left := left.rest;
        remain := remain - PAGE;
        n := n - 1;
      }
      GrowStep(View(), left, n);
      return true;
    }

    method RunBookkeeping(work: Calls)
      requires Valid(View())
      modifies this
      ensures View() == Bookkeep(old(View()), work)
      decreases work
    {
      if work.Then? {
        var _ := KallocCall(work.first);
        RunBookkeeping(work.rest);
      }
    }

    /** kalloc */
    method KallocCall(c: Call) returns (r: Option<nat>)
      requires Valid(View())
      modifies this
      ensures (View(), r) == Kalloc(old(View()), c)
      ensures r.Some? <==> PagesNeeded(old(View()), c.size) <= Count(c.pages)
      ensures r.Some? ==> log != [] && log[|log| - 1] == Block(r.value, c.size) && ptr == r.value + c.size
      decreases c
    {
      KallocExactly(View(), c);
      var ok := EnsureFreeMemory(c.size, c.pages);
      if !ok {
        return None;
      }
      r := Some(ptr);
      log := log + [Block(ptr, c.size)];
      ptr := ptr + c.size;
    }
  }

  lemma GrowStep(h: Heap, pages: Pages, n: nat)
    requires Valid(h)
    ensures n == 0 ==> Grow(h, pages, n) == (h, true)
    ensures n > 0 && pages.OutOfPages? ==> Grow(h, pages, n) == (h, false)
    ensures n > 0 && pages.Page? ==>
              Grow(h, pages, n) == Grow(Bookkeep(AddPage(h), pages.work), pages.rest, n - 1)
  {
  }

  // ---------------------------------------------------------------- blocks follow each other

  /** The completed calls fill the heap from `base` to the pointer without gap or overlap. */
  predicate Chained(log: seq<Block>, base: nat, ptr: nat) {
    if log == [] then ptr == base
    else
      var b := log[|log| - 1];
      b.addr + b.size == ptr && Chained(log[..|log| - 1], base, b.addr)
  }

  function TotalSize(log: seq<Block>): nat {
    if log == [] then 0 else TotalSize(log[..|log| - 1]) + log[|log| - 1].size
  }

  /** Every call, nested or not, extends the chain of blocks. */
  lemma {:induction false} KallocChains(h: Heap, c: Call, base: nat)
    requires Valid(h) && Chained(h.log, base, h.ptr)
    ensures Chained(Kalloc(h, c).0.log, base, Kalloc(h, c).0.ptr) && h.log <= Kalloc(h, c).0.log
    decreases c
  {
    GrowChains(h, c.pages, PagesNeeded(h, c.size), base);
    var g := Grow(h, c.pages, PagesNeeded(h, c.size)).0;
    assert (g.log + [Block(g.ptr, c.size)])[..|g.log|] == g.log;
  }

  lemma {:induction false} GrowChains(h: Heap, pages: Pages, n: nat, base: nat)
    requires Valid(h) && Chained(h.log, base, h.ptr)
    ensures Chained(Grow(h, pages, n).0.log, base, Grow(h, pages, n).0.ptr) && h.log <= Grow(h, pages, n).0.log
    decreases pages
  {
    if n > 0 && pages.Page? {
      BookkeepChains(AddPage(h), pages.work, base);
      GrowChains(Bookkeep(AddPage(h), pages.work), pages.rest, n - 1, base);
    }
  }

  lemma {:induction false} BookkeepChains(h: Heap, work: Calls, base: nat)
    requires Valid(h) && Chained(h.log, base, h.ptr)
    ensures Chained(Bookkeep(h, work).log, base, Bookkeep(h, work).ptr) && h.log <= Bookkeep(h, work).log
    decreases work
  {
    if work.Then? {
      KallocChains(h, work.first, base);
      BookkeepChains(Kalloc(h, work.first).0, work.rest, base);
    }
  }

  /** In a chain, each block starts at the base plus the sizes of all calls completed before it. */
  lemma {:induction false} ChainedAddress(log: seq<Block>, base: nat, ptr: nat, i: nat)
    requires Chained(log, base, ptr) && i < |log|
    ensures log[i].addr == base + TotalSize(log[..i]) && log[i].addr + log[i].size <= ptr
    ensures ptr == base + TotalSize(log)
    decreases |log|
  {
    var n := |log| - 1;
    if i < n {
      ChainedAddress(log[..n], base, log[n].addr, i);
      assert log[..n][..i] == log[..i];
    } else if n > 0 {
      ChainedAddress(log[..n], base, log[n].addr, 0);
    }
  }

  lemma {:induction false} ChainedDisjoint(log: seq<Block>, base: nat, ptr: nat, i: nat, j: nat)
    requires Chained(log, base, ptr) && i < j < |log|
    ensures log[i].addr + log[i].size <= log[j].addr
    decreases |log|
  {
    var n := |log| - 1;
    if j < n {
      ChainedDisjoint(log[..n], base, log[n].addr, i, j);
    } else {
      ChainedAddress(log[..n], base, log[n].addr, i);
    }
  }

  /**
   Whatever its nesting, a call succeeds exactly when it is offered the pages it asks for. The block it
   returns is the one completed last, and the pointer is right behind it.
   */
  lemma KallocExactly(h: Heap, c: Call)
    requires Valid(h)
    ensures Kalloc(h, c).1.Some? <==> PagesNeeded(h, c.size) <= Count(c.pages)
    ensures Kalloc(h, c).1.Some? ==>
              var (g, addr) := (Kalloc(h, c).0, Kalloc(h, c).1.value);
              g.log != [] && g.log[|g.log| - 1] == Block(addr, c.size) && g.ptr == addr + c.size
  {
    GrowExactly(h, c.pages, PagesNeeded(h, c.size));
  }

  lemma {:induction false} GrowExactly(h: Heap, pages: Pages, n: nat)
    requires Valid(h)
    ensures Grow(h, pages, n).1 <==> n <= Count(pages)
    decreases pages
  {
    if n > 0 && pages.Page? {
      GrowExactly(Bookkeep(AddPage(h), pages.work), pages.rest, n - 1);
    }
  }

  // ---------------------------------------------------------------- the reserve

  /** At least the reserve is mapped beyond the pointer. */
  predicate Reserved(h: Heap)
    requires Valid(h)
  {
    Needed(h, 0) <= h.mapped
  }

  /**
   The bookkeeping of every growth inside the call, at any depth, used at most one reserve beyond
   the pages that nested growth added on its own.
   */
  predicate Modest(h: Heap, c: Call)
    requires Valid(h)
    decreases c
  {
    var n := PagesNeeded(h, c.size);
    && ModestPages(h, c.pages, n)
    && (n > 0 && Grow(h, c.pages, n).1 ==>
          Grow(h, c.pages, n).0.ptr - h.ptr <= RESERVE + (Grow(h, c.pages, n).0.mapped - (h.mapped + n * PAGE)))
  }

  predicate ModestPages(h: Heap, pages: Pages, n: nat)
    requires Valid(h)
    decreases pages
  {
    n > 0 && pages.Page? ==>
      ModestWork(AddPage(h), pages.work) && ModestPages(Bookkeep(AddPage(h), pages.work), pages.rest, n - 1)
  }

  predicate ModestWork(h: Heap, work: Calls)
    requires Valid(h)
    decreases work
  {
    work.Then? ==> Modest(h, work.first) && ModestWork(Kalloc(h, work.first).0, work.rest)
  }

  /**
   A call grows the heap exactly when less than forty kilobytes would stay mapped behind its block.
   It then asks for twice as much behind the block, in whole pages, and not for a page more.
   */
  lemma TargetReached(h: Heap, size: nat)
    requires Valid(h)
    ensures PagesNeeded(h, size) > 0 <==> h.ptr - h.start + size + 40 * 1024 > h.mapped
    ensures PagesNeeded(h, size) > 0 ==>
              var wanted, given := h.ptr - h.start + size + 80 * 1024, h.mapped + PagesNeeded(h, size) * PAGE;
              wanted <= given < wanted + PAGE
  {
    if Needed(h, size) > h.mapped {
      assert AlignNext(Needed(h, size) + RESERVE) >= h.mapped + PAGE;
    }
  }

  /**
   The reserve survives every call, successful or not: a call that does not grow keeps it by its
   own check, a call that grows keeps it when its bookkeeping was modest.
   */
  lemma {:induction false} KallocKeepsReserve(h: Heap, c: Call)
    requires Valid(h) && Reserved(h) && Modest(h, c)
    ensures Reserved(Kalloc(h, c).0)
    decreases c
  {
    var n := PagesNeeded(h, c.size);
    GrowKeepsReserve(h, c.pages, n);
    if n > 0 { TargetReached(h, c.size); }
  }

  lemma {:induction false} GrowKeepsReserve(h: Heap, pages: Pages, n: nat)
    requires Valid(h) && Reserved(h) && ModestPages(h, pages, n)
    ensures Reserved(Grow(h, pages, n).0)
    decreases pages
  {
    if n > 0 && pages.Page? {
      BookkeepKeepsReserve(AddPage(h), pages.work);
      GrowKeepsReserve(Bookkeep(AddPage(h), pages.work), pages.rest, n - 1);
    }
  }

  lemma {:induction false} BookkeepKeepsReserve(h: Heap, work: Calls)
    requires Valid(h) && Reserved(h) && ModestWork(h, work)
    ensures Reserved(Bookkeep(h, work))
    decreases work
  {
    if work.Then? {
      KallocKeepsReserve(h, work.first);
      BookkeepKeepsReserve(Kalloc(h, work.first).0, work.rest);
    }
  }

  /** Bookkeeping of up to two reserves still leaves the new block mapped, though the reserve is used up. */
  lemma TwoReservesStillMapped(h: Heap, c: Call)
    requires Valid(h) && Kalloc(h, c).1.Some?
    requires var n := PagesNeeded(h, c.size);
             var grown := Grow(h, c.pages, n).0;
             n > 0 && grown.ptr - h.ptr <= 2 * RESERVE + (grown.mapped - (h.mapped + n * PAGE))
    ensures Kalloc(h, c).1.value + c.size <= h.start + Kalloc(h, c).0.mapped
  {
    TargetReached(h, c.size);
  }

  // ---------------------------------------------------------------- growth does not re-enter growth

  function WorkSize(work: Calls): nat {
    if work.Done? then 0 else work.first.size + WorkSize(work.rest)
  }

  /** No call of the bookkeeping needs the heap to grow. */
  predicate NoneGrow(h: Heap, work: Calls)
    requires Valid(h)
    decreases work
  {
    work.Then? ==> PagesNeeded(h, work.first.size) == 0 && NoneGrow(Kalloc(h, work.first).0, work.rest)
  }

  lemma NotGrowing(h: Heap, c: Call)
    requires Valid(h)
    ensures PagesNeeded(h, c.size) == 0 <==> Needed(h, c.size) <= h.mapped
    ensures PagesNeeded(h, c.size) == 0 ==>
              Kalloc(h, c).0 == h.(ptr := h.ptr + c.size, log := h.log + [Block(h.ptr, c.size)])
  {
    if Needed(h, c.size) > h.mapped {
      assert AlignNext(Needed(h, c.size) + RESERVE) >= h.mapped + PAGE;
    }
  }

  /** The bookkeeping of a page re-enters growth exactly when it asks for more than lies beyond the reserve. */
  lemma {:induction false} NoneGrowExactly(h: Heap, work: Calls)
    requires Valid(h) && work.Then?
    ensures NoneGrow(h, work) <==> Needed(h, WorkSize(work)) <= h.mapped
    decreases work
  {
    NotGrowing(h, work.first);
    if PagesNeeded(h, work.first.size) == 0 && work.rest.Then? {
      NoneGrowExactly(Kalloc(h, work.first).0, work.rest);
    }
  }

  /** No bookkeeping call of any of the n pages needs growth. */
  predicate NeverReenters(h: Heap, pages: Pages, n: nat)
    requires Valid(h)
    decreases pages
  {
    n > 0 && pages.Page? ==>
      NoneGrow(AddPage(h), pages.work) && NeverReenters(Bookkeep(AddPage(h), pages.work), pages.rest, n - 1)
  }

  predicate OnePageEach(pages: Pages) {
    pages.Page? ==> WorkSize(pages.work) <= PAGE && OnePageEach(pages.rest)
  }

  lemma {:induction false} QuietBookkeep(h: Heap, work: Calls)
    requires Valid(h) && NoneGrow(h, work)
    ensures Bookkeep(h, work).mapped == h.mapped && Bookkeep(h, work).ptr == h.ptr + WorkSize(work)
    decreases work
  {
    if work.Then? {
      NotGrowing(h, work.first);
      QuietBookkeep(Kalloc(h, work.first).0, work.rest);
    }
  }

  /**
   With the reserve in place and at most one page of bookkeeping per page, growing the heap never
   re-enters growth: the page just added pays for its own bookkeeping.
   */
  lemma {:induction false} GrowthNeverReenters(h: Heap, pages: Pages, n: nat)
    requires Valid(h) && Reserved(h) && OnePageEach(pages)
    ensures NeverReenters(h, pages, n)
    ensures Reserved(Grow(h, pages, n).0)
    decreases pages
  {
    if n > 0 && pages.Page? {
      var h1 := AddPage(h);
      if pages.work.Then? { NoneGrowExactly(h1, pages.work); }
      QuietBookkeep(h1, pages.work);
      GrowthNeverReenters(Bookkeep(h1, pages.work), pages.rest, n - 1);
    }
  }

  // ---------------------------------------------------------------- what the bookkeeping may cost

  function Count(pages: Pages): nat {
    if pages.OutOfPages? then 0 else 1 + Count(pages.rest)
  }

  /** The bookkeeping of the first n pages. */
  function Total(pages: Pages, n: nat): nat {
    if n == 0 || pages.OutOfPages? then 0 else WorkSize(pages.work) + Total(pages.rest, n - 1)
  }

  /** Page after page, the pages added so far pay for the bookkeeping so far, beyond the reserve. */
  predicate Affords(h: Heap, pages: Pages, n: nat)
    requires Valid(h)
    decreases pages
  {
    n > 0 && pages.Page? ==>
      && (pages.work.Then? ==> Needed(h, WorkSize(pages.work)) <= h.mapped + PAGE)
      && Affords(h.(ptr := h.ptr + WorkSize(pages.work), mapped := h.mapped + PAGE), pages.rest, n - 1)
  }

  lemma {:induction false} AffordsIgnoresLog(h: Heap, g: Heap, pages: Pages, n: nat)
    requires Valid(h) && Valid(g) && g == h.(log := g.log)
    ensures Affords(h, pages, n) <==> Affords(g, pages, n)
    decreases pages
  {
    if n > 0 && pages.Page? {
      var h1 := h.(ptr := h.ptr + WorkSize(pages.work), mapped := h.mapped + PAGE);
      AffordsIgnoresLog(h1, h1.(log := g.log), pages.rest, n - 1);
    }
  }

  /** Growth never re-enters growth exactly when the pages pay for their bookkeeping as they come. */
  lemma {:induction false} NeverReentersExactly(h: Heap, pages: Pages, n: nat)
    requires Valid(h)
    ensures NeverReenters(h, pages, n) <==> Affords(h, pages, n)
    decreases pages
  {
    if n > 0 && pages.Page? {
      var h1 := AddPage(h);
      if pages.work.Then? { NoneGrowExactly(h1, pages.work); }
      if NoneGrow(h1, pages.work) {
        QuietBookkeep(h1, pages.work);
        var g := Bookkeep(h1, pages.work);
        NeverReentersExactly(g, pages.rest, n - 1);
        AffordsIgnoresLog(h1.(ptr := h.ptr + WorkSize(pages.work)), g, pages.rest, n - 1);
      }
    }
  }

  /** What such a growth does: every page asked for, or every page there is, and their bookkeeping. */
  lemma {:induction false} QuietGrowth(h: Heap, pages: Pages, n: nat)
    requires Valid(h) && NeverReenters(h, pages, n)
    ensures var (g, ok) := Grow(h, pages, n);
            && (ok <==> n <= Count(pages)) && g.ptr == h.ptr + Total(pages, n)
            && g.mapped == h.mapped + PAGE * if ok then n else Count(pages)
    decreases pages
  {
    if n > 0 && pages.Page? {
      QuietBookkeep(AddPage(h), pages.work);
      QuietGrowth(Bookkeep(AddPage(h), pages.work), pages.rest, n - 1);
    }
  }

  /** The pages a call asks for pay for the call, their own bookkeeping and the reserve. */
  predicate Pays(h: Heap, c: Call)
    requires Valid(h)
  {
    var n := PagesNeeded(h, c.size);
    n <= Count(c.pages) ==> Needed(h, c.size) + Total(c.pages, n) <= h.mapped + n * PAGE
  }

  /**
   A call whose growth does not re-enter growth succeeds exactly when there are enough pages. It then
   leaves the reserve in place exactly when its pages pay for the bookkeeping and the reserve, and its
   block is mapped exactly when they pay for the bookkeeping without the reserve.
   */
  lemma ReserveKeptExactly(h: Heap, c: Call)
    requires Valid(h) && Affords(h, c.pages, PagesNeeded(h, c.size))
    ensures var n, (g, r) := PagesNeeded(h, c.size), Kalloc(h, c);
            && (r.Some? <==> n <= Count(c.pages))
            && (r.Some? ==> (Reserved(g) <==> Pays(h, c)))
            && (r.Some? ==> (r.value + c.size <= h.start + g.mapped
                             <==> Needed(h, c.size) + Total(c.pages, n) <= h.mapped + n * PAGE + RESERVE))
  {
    var n := PagesNeeded(h, c.size);
    NeverReentersExactly(h, c.pages, n);
    QuietGrowth(h, c.pages, n);
  }

  /** With the reserve in place, at most a page of bookkeeping per page is always afforded. */
  lemma OnePageEachAffords(h: Heap, pages: Pages, n: nat)
    requires Valid(h) && Reserved(h) && OnePageEach(pages)
    ensures Affords(h, pages, n)
  {
    GrowthNeverReenters(h, pages, n);
    NeverReentersExactly(h, pages, n);
  }

  /** A page whose bookkeeping takes a block of page tables re-enters growth when only the reserve is left. */
  lemma BlockReenters(h: Heap, rest: Pages)
    requires Valid(h) && Needed(h, 0) == h.mapped
    ensures !NeverReenters(h, Page(Then(Call(BLOCK, OutOfPages), Done), rest), 1)
  {
    NeverReentersExactly(h, Page(Then(Call(BLOCK, OutOfPages), Done), rest), 1);
  }

  /** n pages that cost the same. */
  function Uniform(n: nat, bytes: nat): Pages
    decreases n, bytes
  {
    if n == 0 then OutOfPages else Page(Then(Call(bytes, OutOfPages), Done), Uniform(n - 1, bytes))
  }

  lemma {:induction false} UniformCosts(n: nat, bytes: nat)
    ensures Count(Uniform(n, bytes)) == n && Total(Uniform(n, bytes), n) == n * bytes
    ensures bytes <= PAGE ==> OnePageEach(Uniform(n, bytes))
    decreases n, bytes
  {
    if n > 0 { UniformCosts(n - 1, bytes); }
  }

  /**
   The reserve in place and a page of bookkeeping per page are not enough: a call of a hundred pages
   succeeds, the reserve is gone, and the block lies outside the mapped part.
   */
  lemma OnePageEachLosesReserve(h: Heap, c: Call)
    requires h == Heap(0, 0, RESERVE, []) && c == Call(100 * PAGE, Uniform(110, PAGE))
    ensures Valid(h) && Reserved(h) && OnePageEach(c.pages)
    ensures var (g, r) := Kalloc(h, c); r.Some? && !Reserved(g) && r.value + c.size > h.start + g.mapped
  {
    hide Kalloc, Uniform, Affords;
    UniformCosts(110, PAGE);
    assert PagesNeeded(h, c.size) == 110;
    OnePageEachAffords(h, c.pages, 110);
    ReserveKeptExactly(h, c);
  }

  // ---------------------------------------------------------------- whole runs

  function RunCalls(h: Heap, calls: seq<Call>): (r: Heap)
    requires Valid(h)
    ensures Valid(r) && r.start == h.start && h.mapped <= r.mapped
  {
    if calls == [] then h else Kalloc(RunCalls(h, calls[..|calls| - 1]), calls[|calls| - 1]).0
  }

  /**
   Over any run of calls with any nesting and any bookkeeping: the blocks handed out are pairwise
   disjoint, and each lies at the heap's base plus the sizes of the calls completed before it.
   */
  lemma BlocksAreDisjoint(h: Heap, calls: seq<Call>, i: nat, j: nat)
    requires Valid(h) && h.log == [] && i < |RunCalls(h, calls).log| && j < |RunCalls(h, calls).log|
    ensures var r := RunCalls(h, calls);
            && r.log[i].addr == h.ptr + TotalSize(r.log[..i])
            && (i < j ==> r.log[i].addr + r.log[i].size <= r.log[j].addr)
  {
    RunChains(h, calls);
    var r := RunCalls(h, calls);
    ChainedAddress(r.log, h.ptr, r.ptr, i);
    if i < j { ChainedDisjoint(r.log, h.ptr, r.ptr, i, j); }
  }

  lemma {:induction false} RunChains(h: Heap, calls: seq<Call>)
    requires Valid(h) && h.log == []
    ensures Chained(RunCalls(h, calls).log, h.ptr, RunCalls(h, calls).ptr)
    decreases |calls|
  {
    if calls != [] {
      var n := |calls| - 1;
      RunChains(h, calls[..n]);
      KallocChains(RunCalls(h, calls[..n]), calls[n], h.ptr);
    }
  }

  /** Every call of the run costs at most a page per page. */
  predicate AllOnePageEach(calls: seq<Call>) {
    forall i :: 0 <= i < |calls| ==> OnePageEach(calls[i].pages)
  }

  /** Before every call of the run, its pages pay for it. */
  predicate AllPay(h: Heap, calls: seq<Call>)
    requires Valid(h)
  {
    forall i :: 0 <= i < |calls| ==> Pays(RunCalls(h, calls[..i]), calls[i])
  }

  lemma KallocReserveExactly(h: Heap, c: Call)
    requires Valid(h) && Reserved(h) && OnePageEach(c.pages)
    ensures Reserved(Kalloc(h, c).0) <==> Pays(h, c)
  {
    var n := PagesNeeded(h, c.size);
    GrowthNeverReenters(h, c.pages, n);
    OnePageEachAffords(h, c.pages, n);
    ReserveKeptExactly(h, c);
  }

  /**
   Over any run of calls with at most a page of bookkeeping per page, from a heap with the reserve in
   place: the reserve stays in place all the time exactly when before every call its pages pay for it.
   */
  lemma {:induction false} RunReserveExactly(h: Heap, calls: seq<Call>)
    requires Valid(h) && Reserved(h) && AllOnePageEach(calls)
    ensures (forall i :: 0 <= i <= |calls| ==> Reserved(RunCalls(h, calls[..i]))) <==> AllPay(h, calls)
    decreases |calls|
  {
    hide Pays, OnePageEach, RunCalls, Reserved;
    if calls == [] {
      RunNone(h);
      assert calls[..0] == [];
    } else {
      var n, before := |calls| - 1, calls[..|calls| - 1];
      RunReserveExactly(h, before);
      Prefixes(calls);
      RunLast(h, calls);
      var h1 := RunCalls(h, before);
      if Reserved(h1) {
        KallocReserveExactly(h1, calls[n]);
      }
    }
  }

  lemma RunNone(h: Heap)
    requires Valid(h)
    ensures RunCalls(h, []) == h
  {
  }

  lemma RunLast(h: Heap, calls: seq<Call>)
    requires Valid(h) && calls != []
    ensures RunCalls(h, calls) == Kalloc(RunCalls(h, calls[..|calls| - 1]), calls[|calls| - 1]).0
  {
  }

  lemma Prefixes(calls: seq<Call>)
    requires calls != []
    ensures var n, before := |calls| - 1, calls[..|calls| - 1];
            && calls[..|calls|] == calls && before[..n] == before
            && (forall i :: 0 <= i <= n ==> before[..i] == calls[..i])
            && (forall i :: 0 <= i < n ==> before[i] == calls[i])
  {
  }

  /** And then every block is mapped. */
  lemma PaidBlocksAreMapped(h: Heap, calls: seq<Call>, i: nat)
    requires Valid(h) && Reserved(h) && h.log == [] && AllOnePageEach(calls) && AllPay(h, calls)
    requires i < |RunCalls(h, calls).log|
    ensures var r := RunCalls(h, calls);
            Reserved(r) && r.log[i].addr + r.log[i].size <= h.start + r.mapped
  {
    RunReserveExactly(h, calls);
    assert calls[..|calls|] == calls;
    RunChains(h, calls);
    ChainedAddress(RunCalls(h, calls).log, h.ptr, RunCalls(h, calls).ptr, i);
  }

  /** Every call of a run that grows does modest bookkeeping. */
  predicate AllModest(h: Heap, calls: seq<Call>)
    requires Valid(h)
  {
    forall i :: 0 <= i < |calls| ==> Modest(RunCalls(h, calls[..i]), calls[i])
  }

  /** With the reserve in place and modest bookkeeping, every block is mapped after any run, and the reserve too. */
  lemma BlocksAreMapped(h: Heap, calls: seq<Call>, i: nat)
    requires Valid(h) && Reserved(h) && h.log == [] && AllModest(h, calls) && i < |RunCalls(h, calls).log|
    ensures var r := RunCalls(h, calls);
            Reserved(r) && r.log[i].addr + r.log[i].size <= h.start + r.mapped
  {
    RunKeepsReserve(h, calls);
    RunChains(h, calls);
    ChainedAddress(RunCalls(h, calls).log, h.ptr, RunCalls(h, calls).ptr, i);
  }

  lemma {:induction false} RunKeepsReserve(h: Heap, calls: seq<Call>)
    requires Valid(h) && Reserved(h) && AllModest(h, calls)
    ensures Reserved(RunCalls(h, calls))
    decreases |calls|
  {
    if calls != [] {
      var n := |calls| - 1;
      assert forall i :: 0 <= i < n ==> calls[..n][..i] == calls[..i];
      RunKeepsReserve(h, calls[..n]);
      KallocKeepsReserve(RunCalls(h, calls[..n]), calls[n]);
    }
  }

  /** All that the bookkeeping of a growth asks for, at any depth. */
  function PagesWork(pages: Pages): nat {
    if pages.OutOfPages? then 0 else CallsWork(pages.work) + PagesWork(pages.rest)
  }

  function CallsWork(work: Calls): nat {
    if work.Done? then 0 else work.first.size + PagesWork(work.first.pages) + CallsWork(work.rest)
  }

  lemma {:induction false} GrowMoves(h: Heap, pages: Pages, n: nat)
    requires Valid(h) && PagesWork(pages) <= RESERVE
    ensures Grow(h, pages, n).0.ptr <= h.ptr + PagesWork(pages) && ModestPages(h, pages, n)
    decreases pages
  {
    hide Grow, Bookkeep, ModestWork;
    GrowStep(h, pages, n);
    if n > 0 && pages.Page? {
      BookkeepMoves(AddPage(h), pages.work);
      GrowMoves(Bookkeep(AddPage(h), pages.work), pages.rest, n - 1);
    }
  }

  lemma {:induction false} BookkeepMoves(h: Heap, work: Calls)
    requires Valid(h) && CallsWork(work) <= RESERVE
    ensures Bookkeep(h, work).ptr <= h.ptr + CallsWork(work) && ModestWork(h, work)
    decreases work
  {
    if work.Then? {
      GrowMoves(h, work.first.pages, PagesNeeded(h, work.first.size));
      SmallWorkIsModest(h, work.first);
      BookkeepMoves(Kalloc(h, work.first).0, work.rest);
    }
  }

  /** Whatever the heap and however deep the nesting, bookkeeping of at most one reserve in all is modest. */
  lemma {:induction false} SmallWorkIsModest(h: Heap, c: Call)
    requires Valid(h) && PagesWork(c.pages) <= RESERVE
    ensures Modest(h, c)
    decreases c
  {
    GrowMoves(h, c.pages, PagesNeeded(h, c.size));
  }

  /**
   Over any run of calls with any nesting, each with bookkeeping of at most one reserve in all: the
   reserve stays in place and every block is mapped.
   */
  lemma SmallWorkIsMapped(h: Heap, calls: seq<Call>, i: nat)
    requires Valid(h) && Reserved(h) && h.log == [] && i < |RunCalls(h, calls).log|
    requires forall k :: 0 <= k < |calls| ==> PagesWork(calls[k].pages) <= RESERVE
    ensures var r := RunCalls(h, calls);
            Reserved(r) && r.log[i].addr + r.log[i].size <= h.start + r.mapped
  {
    hide Modest, Kalloc;
    forall k | 0 <= k < |calls| ensures Modest(RunCalls(h, calls[..k]), calls[k]) {
      SmallWorkIsModest(RunCalls(h, calls[..k]), calls[k]);
    }
    BlocksAreMapped(h, calls, i);
  }

  // ---------------------------------------------------------------- before the allocator is initialised

  /**
   The heap during boot: calls only move the pointer and raise the recorded size, while the kernel
   data region, once created, is mapped page by page.
   */
  datatype Boot = Boot(start: nat, ptr: nat, size: nat, region: Option<nat>, called: bool)

  datatype BootOp = BootKalloc(bytes: nat) | CreateRegion | MapPage

  function BootNeeded(b: Boot, bytes: nat): int {
    b.ptr + bytes + RESERVE - b.start
  }

  function BootStep(b: Boot, op: BootOp): Boot {
    match op
    case BootKalloc(bytes) =>
      var current := if b.region.Some? then b.region.value else b.size;
      var needed := BootNeeded(b, bytes);
      var size := if needed > current then AlignNext(needed + RESERVE) else b.size;
      b.(ptr := b.ptr + bytes, size := size, called := true)
    case CreateRegion => if b.region.None? then b.(region := Some(0)) else b
    case MapPage => if b.region.Some? then b.(region := Some(b.region.value + PAGE)) else b
  }

  function BootRun(start: nat, ops: seq<BootOp>): Boot {
    if ops == [] then Boot(start, start, 0, None, false) else BootStep(BootRun(start, ops[..|ops| - 1]), ops[|ops| - 1])
  }

  /** The heap memory_allocator_initialize goes live with, if its check passes. */
  function GoLive(b: Boot): Option<Heap> {
    if b.region.Some? && b.size <= b.region.value then Some(Heap(b.start, b.ptr, b.region.value, [])) else None
  }

  /** When initialisation succeeds after at least one boot allocation, the reserve is in place. */
  lemma {:induction false} BootEstablishesReserve(start: nat, ops: seq<BootOp>)
    ensures var b := BootRun(start, ops);
            && b.start <= b.ptr && b.start == start
            && (b.region.Some? ==> b.region.value % PAGE == 0)
            && (b.called ==> BootNeeded(b, 0) <= b.size || (b.region.Some? && BootNeeded(b, 0) <= b.region.value))
    ensures var b := BootRun(start, ops);
            b.called && GoLive(b).Some? ==> Valid(GoLive(b).value) && Reserved(GoLive(b).value)
  {
    if ops != [] {
      BootEstablishesReserve(start, ops[..|ops| - 1]);
    }
  }

  function BootBytes(ops: seq<BootOp>): nat {
    if ops == [] then 0
    else
      var n := |ops| - 1;
      BootBytes(ops[..n]) + if ops[n].BootKalloc? then ops[n].bytes else 0
  }

  /** The pages mapped into the kernel data region, or nothing while there is none. */
  function BootMapped(ops: seq<BootOp>): Option<nat> {
    if ops == [] then None
    else
      var n := |ops| - 1;
      var before := BootMapped(ops[..n]);
      if before.None? then (if ops[n].CreateRegion? then Some(0) else None)
      else Some(before.value + if ops[n].MapPage? then PAGE else 0)
  }

  /** Allocation i of the boot run finds less than a reserve behind its block in what is recorded or mapped. */
  predicate Raises(start: nat, ops: seq<BootOp>, i: int) {
    && 0 <= i < |ops| && ops[i].BootKalloc?
    && BootBytes(ops[..i + 1]) + RESERVE
       > (if BootMapped(ops[..i]).Some? then BootMapped(ops[..i]).value else BootRun(start, ops[..i]).size)
  }

  /** What a boot run amounts to. */
  lemma {:induction false} BootAccounts(start: nat, ops: seq<BootOp>)
    ensures var b := BootRun(start, ops);
            b.start == start && b.ptr == start + BootBytes(ops) && b.region == BootMapped(ops)
    ensures BootMapped(ops).Some? ==> BootMapped(ops).value % PAGE == 0
  {
    if ops != [] {
      BootAccounts(start, ops[..|ops| - 1]);
    }
  }

  lemma BytesGrow(ops: seq<BootOp>, i: nat)
    requires i <= |ops|
    ensures BootBytes(ops[..i]) <= BootBytes(ops)
    decreases |ops|
  {
    if i < |ops| {
      assert ops[..|ops| - 1][..i] == ops[..i];
      BytesGrow(ops[..|ops| - 1], i);
    } else {
      assert ops[..i] == ops;
    }
  }

  /** The recorded size is two reserves behind the last allocation that raised it, rounded up. */
  lemma {:induction false} RecordedSize(start: nat, ops: seq<BootOp>, room: nat)
    requires room % PAGE == 0
    ensures BootRun(start, ops).size <= room
       <==> forall i :: Raises(start, ops, i) ==> BootBytes(ops[..i + 1]) + 2 * RESERVE <= room
    decreases |ops|
  {
    if ops != [] {
      var n := |ops| - 1;
      var before := ops[..n];
      RecordedSize(start, before, room);
      BootAccounts(start, before);
      forall i | 0 <= i < n
        ensures Raises(start, ops, i) <==> Raises(start, before, i)
        ensures Raises(start, ops, i) ==> before[..i + 1] == ops[..i + 1] && BootBytes(ops[..i + 1]) <= BootBytes(ops)
      {
        assert before[..i] == ops[..i] && before[..i + 1] == ops[..i + 1];
        BytesGrow(ops, i + 1);
      }
      assert ops[..n + 1] == ops;
      if Raises(start, ops, n) {
        RoundedUp(BootBytes(ops) + 2 * RESERVE, room);
      }
    }
  }

  lemma RoundedUp(x: nat, room: nat)
    requires room % PAGE == 0
    ensures AlignNext(x) <= room <==> x <= room
  {
  }

  /**
   memory_allocator_initialize succeeds exactly when the kernel data region is there and, for every boot
   allocation that had found too little, has by now two reserves mapped behind its block. The
   allocator then starts behind the boot allocations, with what is mapped.
   */
  lemma GoLiveExactly(start: nat, ops: seq<BootOp>)
    ensures GoLive(BootRun(start, ops)).Some?
       <==> && BootMapped(ops).Some?
            && forall i :: Raises(start, ops, i) ==> BootBytes(ops[..i + 1]) + 2 * RESERVE <= BootMapped(ops).value
    ensures GoLive(BootRun(start, ops)).Some? ==>
              GoLive(BootRun(start, ops)).value == Heap(start, start + BootBytes(ops), BootMapped(ops).value, [])
  {
    BootAccounts(start, ops);
    if BootMapped(ops).Some? {
      RecordedSize(start, ops, BootMapped(ops).value);
    }
  }
}
