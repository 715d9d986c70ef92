/**
 The physical page allocator: one type per page, a first-fit search above 64 MB, and pages that
 become SYSTEM for good.
 */
module Pmem {
  import opened Machine

  datatype PageType = Free | System | User

  const FIRST: nat := 16384        // ADDR_TO_PAGE(64 MB): the search starts here

  // ---------------------------------------------------------------- meaning of the operations

  /** pmem_set_page: out-of-range numbers are an error, SYSTEM pages do not change. */
  function SetPage(pages: seq<PageType>, n: nat, t: PageType): (r: seq<PageType>)
    ensures |r| == |pages|
  {
    if n < |pages| && pages[n] != System then pages[n := t] else pages
  }

  /** The first free page number at or after `from`, or 0. */
  function NextFree(pages: seq<PageType>, from: nat): (r: nat)
    ensures r != 0 ==> from <= r < |pages| && pages[r] == Free
    ensures r != 0 ==> forall p :: from <= p < r ==> pages[p] != Free
    ensures from > 0 && r == 0 ==> forall p :: from <= p < |pages| ==> pages[p] != Free
    decreases |pages| - from
  {
    if from >= |pages| then 0
    else if pages[from] == Free then from
    else NextFree(pages, from + 1)
  }

  /** pmem_allocate: the new page types and the address handed out (0 is failure). */
  function Allocate(pages: seq<PageType>): (r: (seq<PageType>, nat))
    ensures |r.0| == |pages|
  {
    var n := NextFree(pages, FIRST);
    if n == 0 then (pages, 0) else (SetPage(pages, n, User), n * PAGE)
  }

  /** The marking loop of pmem_set_as_system. */
  function Mark(pages: seq<PageType>, page: nat, last: nat): (r: seq<PageType>)
    ensures |r| == |pages|
    decreases last + 1 - page
  {
    if page > last then pages else Mark(SetPage(pages, page, System), page + 1, last)
  }

  /** The page of the address behind a range, in the 64-bit arithmetic of the code. */
  function LastPage(addr: nat, bytes: nat): nat {
    (addr + bytes) % WORD64 / PAGE
  }

  function SetAsSystem(pages: seq<PageType>, addr: nat, bytes: nat): (r: seq<PageType>)
    ensures |r| == |pages|
  {
    Mark(pages, addr / PAGE, LastPage(addr, bytes))
  }

  function Release(pages: seq<PageType>, addr: nat): (r: seq<PageType>)
    ensures |r| == |pages|
  {
    if addr % PAGE != 0 then pages else SetPage(pages, addr / PAGE, Free)
  }

  // ---------------------------------------------------------------- the code's own form

  class PhysicalMemory {
    var pages: array<PageType>

    /** pmem_initialize */
    constructor (totalMemory: nat)
      ensures fresh(pages) && pages.Length == totalMemory / PAGE
      ensures forall p :: 0 <= p < pages.Length ==> pages[p] == Free
    {
      var n := totalMemory / PAGE;
      var a := new PageType[n];
      for p := 0 to n
        invariant forall q :: 0 <= q < p ==> a[q] == Free
      {
        a[p] := Free;
      }
      pages := a;
    }

    method SetPageType(n: nat, t: PageType) returns (ok: bool)
      modifies pages
      ensures ok <==> n < pages.Length
      ensures pages[..] == SetPage(old(pages[..]), n, t)
    {
      if n >= pages.Length {
        return false;
      }
      if pages[n] != System {
        pages[n] := t;
      }
      return true;
    }

    method NextPageAvailable() returns (n: nat)
      ensures n == NextFree(pages[..], FIRST)
    {
      var p := FIRST;
      while p < pages.Length
        invariant NextFree(pages[..], FIRST) == NextFree(pages[..], p)
        decreases pages.Length - p
      {
        if pages[p] == Free {
          return p;
        }
        p := p + 1;
      }
      return 0;
    }

    method PmemAllocate() returns (addr: nat)
      modifies pages
      ensures (pages[..], addr) == Allocate(old(pages[..]))
    {
      addr := 0;
      var n := NextPageAvailable();
      if n != 0 {
        var ok := SetPageType(n, User);
        if ok {
          addr := n * PAGE;
        }
      }
    }

    method PmemSetAsSystem(addr: nat, bytes: nat) returns (ok: bool)
      modifies pages
      ensures ok && pages[..] == SetAsSystem(old(pages[..]), addr, bytes)
      ensures forall p :: 0 <= p < pages.Length ==>
                pages[p] == if Marks(p, addr, bytes) then System else old(pages[..])[p]
    {
      var page := addr / PAGE;
      var last := (addr + bytes) % WORD64 / PAGE;
      while page <= last
        invariant Mark(pages[..], page, last) == SetAsSystem(old(pages[..]), addr, bytes)
        decreases last + 1 - page
      {
        var _ := SetPageType(page, System);
        page := page + 1;
      }
      SetAsSystemExactly(old(pages[..]), addr, bytes);
      return true;
    }

    method PmemRelease(addr: nat) returns (ok: bool)
      modifies pages
      ensures ok <==> addr % PAGE == 0 && addr / PAGE < pages.Length
      ensures pages[..] == Release(old(pages[..]), addr)
      ensures forall p :: 0 <= p < pages.Length ==>
                pages[p] == if p * PAGE == addr && old(pages[..])[p] != System then Free else old(pages[..])[p]
    {
      if addr % PAGE != 0 {
        return false;
      }
      ok := SetPageType(addr / PAGE, Free);
    }
  }

  // ---------------------------------------------------------------- single calls

  /** Allocation fails exactly when no page at or above 64 MB is free; otherwise the lowest one is taken. */
  lemma AllocateExact(pages: seq<PageType>)
    ensures Allocate(pages).1 == 0 <==> forall p :: FIRST <= p < |pages| ==> pages[p] != Free
    ensures Allocate(pages).1 != 0 ==>
              var n := Allocate(pages).1 / PAGE;
              && FIRST <= n < |pages| && Allocate(pages).1 == n * PAGE
              && pages[n] == Free && Allocate(pages).0 == pages[n := User]
              && forall p :: FIRST <= p < n ==> pages[p] != Free
    ensures FIRST * PAGE == 64 * 1024 * 1024
  {
  }

  /** Releasing an address frees the page that starts there, unless it is SYSTEM, and no other. */
  lemma ReleaseExact(pages: seq<PageType>, addr: nat, p: nat)
    requires p < |pages|
    ensures Release(pages, addr)[p] == if p * PAGE == addr && pages[p] != System then Free else pages[p]
  {
    if addr % PAGE == 0 {
      assert addr == addr / PAGE * PAGE;
    }
  }

  /** The pages an allocation can take. */
  function FreePages(pages: seq<PageType>): set<nat> {
    set p: nat | FIRST <= p < |pages| && pages[p] == Free
  }

  /** An allocation succeeds exactly when there is such a page, and takes exactly one of them. */
  lemma AllocateTakesOne(pages: seq<PageType>)
    ensures Allocate(pages).1 == 0 <==> FreePages(pages) == {}
    ensures Allocate(pages).1 == 0 ==> Allocate(pages).0 == pages
    ensures Allocate(pages).1 != 0 ==> |FreePages(Allocate(pages).0)| == |FreePages(pages)| - 1
  {
    AllocateExact(pages);
    var (after, addr) := Allocate(pages);
    if addr == 0 {
      assert forall p :: p !in FreePages(pages);
    } else {
      var n := addr / PAGE;
      assert n in FreePages(pages);
      assert FreePages(after) == FreePages(pages) - {n};
    }
  }

  /** Marking makes exactly the pages first..last SYSTEM, both ends included, as far as they exist. */
  lemma {:induction false} MarkExact(pages: seq<PageType>, page: nat, last: nat, p: nat)
    requires p < |pages|
    ensures Mark(pages, page, last)[p] == if page <= p <= last then System else pages[p]
    decreases last + 1 - page
  {
    if page <= last {
      MarkExact(SetPage(pages, page, System), page + 1, last, p);
    }
  }

  /** A page with at least one byte in [addr, addr + bytes). */
  predicate Touches(p: nat, addr: nat, bytes: nat) {
    p * PAGE < addr + bytes && addr < (p + 1) * PAGE
  }

  /** A page that ends behind addr and starts no later than addr + bytes, which wraps at 64 bits. */
  predicate Marks(p: int, addr: nat, bytes: nat) {
    addr < (p + 1) * PAGE && p * PAGE <= (addr + bytes) % WORD64
  }

  /**
   pmem_set_as_system makes SYSTEM the pages with a byte in the range and the page its end address lies
   in, and leaves all other pages as they are.
   */
  lemma SetAsSystemExactly(pages: seq<PageType>, addr: nat, bytes: nat)
    ensures forall p :: 0 <= p < |pages| ==>
              SetAsSystem(pages, addr, bytes)[p] == if Marks(p, addr, bytes) then System else pages[p]
  {
    forall p | 0 <= p < |pages|
      ensures SetAsSystem(pages, addr, bytes)[p] == if Marks(p, addr, bytes) then System else pages[p]
    {
      MarkExact(pages, addr / PAGE, LastPage(addr, bytes), p);
      PageBounds(p, addr, (addr + bytes) % WORD64);
    }
  }

  lemma PageBounds(p: nat, addr: nat, end: nat)
    ensures addr / PAGE <= p <==> addr < (p + 1) * PAGE
    ensures p <= end / PAGE <==> p * PAGE <= end
  {
  }

  /** A range that does not wrap is marked whole: every page with a byte in it. */
  lemma SetAsSystemCovers(pages: seq<PageType>, addr: nat, bytes: nat, p: nat)
    requires p < |pages| && addr + bytes < WORD64
    ensures Touches(p, addr, bytes) || pages[p] == System ==> SetAsSystem(pages, addr, bytes)[p] == System
  {
    SetAsSystemExactly(pages, addr, bytes);
  }

  /**
   Every page of a range is marked exactly when the range ends inside the 64-bit address space, or
   what is left unmarked of the memory behind its start begins no later than where its end wraps to.
   */
  lemma RangeMarkedExactly(pages: seq<PageType>, addr: nat, bytes: nat)
    requires addr < WORD64 && bytes < WORD64 && |pages| * PAGE <= WORD64
    ensures (forall p :: 0 <= p < |pages| && Touches(p, addr, bytes) ==> SetAsSystem(pages, addr, bytes)[p] == System)
       <==> || addr + bytes < WORD64
            || forall p :: 0 <= p < |pages| && pages[p] != System && addr < (p + 1) * PAGE ==>
                 p * PAGE <= (addr + bytes) % WORD64
  {
    hide SetAsSystem;
    SetAsSystemExactly(pages, addr, bytes);
    if addr + bytes >= WORD64 {
      forall p | 0 <= p < |pages| ensures Touches(p, addr, bytes) <==> addr < (p + 1) * PAGE {
        assert p * PAGE < |pages| * PAGE;
      }
    }
  }

  /** A range from the second page to the end of the address space: its end wraps to 0 and nothing is marked. */
  lemma WrappingRangeIsNotMarked()
    ensures SetAsSystem([Free, Free], PAGE, WORD64 - PAGE) == [Free, Free]
    ensures Touches(1, PAGE, WORD64 - PAGE)
  {
    SetAsSystemExactly([Free, Free], PAGE, WORD64 - PAGE);
  }

  // ---------------------------------------------------------------- whole runs

  datatype Op = DoAllocate | DoRelease(addr: nat) | DoSetAsSystem(start: nat, bytes: nat)

  function Step(pages: seq<PageType>, op: Op): (r: seq<PageType>)
    ensures |r| == |pages|
  {
    match op
    case DoAllocate => Allocate(pages).0
    case DoRelease(addr) => Release(pages, addr)
    case DoSetAsSystem(addr, bytes) => SetAsSystem(pages, addr, bytes)
  }

  function Run(pages: seq<PageType>, ops: seq<Op>): (r: seq<PageType>)
    ensures |r| == |pages|
  {
    if ops == [] then pages else Step(Run(pages, ops[..|ops| - 1]), ops[|ops| - 1])
  }

  /** What the k-th operation of a run hands out: an address if it is a successful allocation, else 0. */
  function HandedOut(pages: seq<PageType>, ops: seq<Op>, k: nat): nat
    requires k < |ops|
  {
    if ops[k] == DoAllocate then Allocate(Run(pages, ops[..k])).1 else 0
  }

  lemma SystemStep(pages: seq<PageType>, op: Op, p: nat)
    requires p < |pages| && pages[p] == System
    ensures Step(pages, op)[p] == System
  {
    match op
    case DoAllocate =>
    case DoRelease(addr) =>
    case DoSetAsSystem(addr, bytes) => MarkExact(pages, addr / PAGE, LastPage(addr, bytes), p);
  }

  /** A SYSTEM page stays SYSTEM through every run. */
  lemma {:induction false} SystemForever(pages: seq<PageType>, ops: seq<Op>, p: nat)
    requires p < |pages| && pages[p] == System
    ensures Run(pages, ops)[p] == System
  {
    if ops != [] {
      SystemForever(pages, ops[..|ops| - 1], p);
      SystemStep(Run(pages, ops[..|ops| - 1]), ops[|ops| - 1], p);
    }
  }

  /** So it is never handed out. */
  lemma SystemNeverHandedOut(pages: seq<PageType>, ops: seq<Op>, k: nat, p: nat)
    requires p < |pages| && pages[p] == System && k < |ops|
    ensures HandedOut(pages, ops, k) != 0 ==> HandedOut(pages, ops, k) != p * PAGE
  {
    SystemForever(pages, ops[..k], p);
    AllocateExact(Run(pages, ops[..k]));
  }

  /** A page in use stays in use while nothing releases it. */
  lemma {:induction false} BusyUntilReleased(pages: seq<PageType>, ops: seq<Op>, i: nat, j: nat, p: nat)
    requires i <= j <= |ops| && p < |pages| && Run(pages, ops[..i])[p] != Free
    requires forall k :: i <= k < j ==> ops[k] != DoRelease(p * PAGE)
    ensures Run(pages, ops[..j])[p] != Free
    decreases j - i
  {
    if i < j {
      BusyUntilReleased(pages, ops, i, j - 1, p);
      assert ops[..j][..j - 1] == ops[..j - 1];
      StepKeepsBusy(Run(pages, ops[..j - 1]), ops[j - 1], p);
    }
  }

  lemma StepKeepsBusy(pages: seq<PageType>, op: Op, p: nat)
    requires p < |pages| && pages[p] != Free && op != DoRelease(p * PAGE)
    ensures Step(pages, op)[p] != Free
  {
    match op
    case DoAllocate =>
    case DoRelease(addr) =>
    case DoSetAsSystem(addr, bytes) => MarkExact(pages, addr / PAGE, LastPage(addr, bytes), p);
  }

  /** The same page is handed out twice only with a release of it in between. */
  lemma HandedOutTwice(pages: seq<PageType>, ops: seq<Op>, i: nat, j: nat)
    requires i < j < |ops|
    requires HandedOut(pages, ops, i) == HandedOut(pages, ops, j) != 0
    ensures exists k :: i < k < j && ops[k] == DoRelease(HandedOut(pages, ops, i))
  {
    var addr := HandedOut(pages, ops, i);
    var p := addr / PAGE;
    AllocateExact(Run(pages, ops[..i]));
    AllocateExact(Run(pages, ops[..j]));
    assert ops[..i + 1][..i] == ops[..i];
    assert Run(pages, ops[..i + 1])[p] == User;
    if forall k :: i < k < j ==> ops[k] != DoRelease(addr) {
      BusyUntilReleased(pages, ops, i + 1, j, p);
      assert false;
    }
  }

  // ---------------------------------------------------------------- what can ever be handed out

  ghost predicate EverHandedOut(pages: seq<PageType>, p: nat) {
    exists ops: seq<Op>, k: nat :: k < |ops| && HandedOut(pages, ops, k) == p * PAGE != 0
  }

  lemma {:induction false} RunFront(pages: seq<PageType>, op: Op, ops: seq<Op>)
    ensures Run(pages, [op] + ops) == Run(Step(pages, op), ops)
  {
    var all, n := [op] + ops, |ops|;
    if ops == [] {
      assert all[..0] == [];
    } else {
      assert all[..n] == [op] + ops[..n - 1] && all[n] == ops[n - 1];
      RunFront(pages, op, ops[..n - 1]);
    }
  }

  /** Enough allocations in a row hand out any given free page from 64 MB on. */
  lemma {:induction false} AllocatingReaches(pages: seq<PageType>, p: nat) returns (ops: seq<Op>)
    requires FIRST <= p < |pages| && pages[p] == Free
    ensures |ops| > 0 && HandedOut(pages, ops, |ops| - 1) == p * PAGE
    ensures forall i :: 0 <= i < |ops| ==> ops[i] == DoAllocate
    decreases p - NextFree(pages, FIRST)
  {
    AllocateExact(pages);
    var q := NextFree(pages, FIRST);
    if q == p {
      ops := [DoAllocate];
      assert ops[..0] == [];
    } else {
      var next := pages[q := User];
      assert next[p] == Free && forall i :: FIRST <= i <= q ==> next[i] != Free;
      var rest := AllocatingReaches(next, p);
      ops := [DoAllocate] + rest;
      assert ops[..|rest|] == [DoAllocate] + rest[..|rest| - 1];
      RunFront(pages, DoAllocate, rest[..|rest| - 1]);
    }
  }

  /** A page is handed out by some run exactly when it lies at or above 64 MB and is not SYSTEM. */
  lemma EverHandedOutExactly(pages: seq<PageType>, p: nat)
    requires p < |pages|
    ensures EverHandedOut(pages, p) <==> FIRST <= p && pages[p] != System
  {
    if EverHandedOut(pages, p) {
      var ops, k: nat :| k < |ops| && HandedOut(pages, ops, k) == p * PAGE != 0;
      AllocateExact(Run(pages, ops[..k]));
      if pages[p] == System {
        SystemNeverHandedOut(pages, ops, k, p);
      }
    }
    if FIRST <= p && pages[p] != System {
      var free := Release(pages, p * PAGE);
      var ops := AllocatingReaches(free, p);
      var all, n := [DoRelease(p * PAGE)] + ops, |ops|;
      assert all[..n] == [DoRelease(p * PAGE)] + ops[..n - 1];
      RunFront(pages, DoRelease(p * PAGE), ops[..n - 1]);
      assert HandedOut(pages, all, n) == p * PAGE;
    }
  }
}
