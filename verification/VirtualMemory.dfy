/**
 The virtual-memory services in their own form: the lists of regions and address spaces, the page
 tables and the physical pages are fields that the operations update in place, and every list
 iteration is a loop. Each operation is tied to its meaning in Vmem.
 */
module VirtualMemory {
  import opened Machine
  import opened Vmem
  import opened VmemGrowth
  import P = Paging
  import Pmem

  class Services {
    var regions: seq<Region>
    var spaces: seq<Space>
    var paging: P.State
    var pmem: seq<Pmem.PageType>

    function View(): State
      reads this
    {
      State(regions, spaces, paging, pmem)
    }

    constructor (heap: nat, pmem: seq<Pmem.PageType>)
      ensures View() == State([], [], P.State(map[], heap, []), pmem)
    {
      regions, spaces, paging, this.pmem := [], [], P.State(map[], heap, []), pmem;
    }

    /** vmem_notify_change */
    method NotifyChange(v: nat, r: nat, p: nat, x: nat)
      requires Handles(View()) && v < |spaces|
      modifies this
      ensures View() == Notify(old(View()), v, r, p, x)
    {
      paging := P.Bump(paging, 24);
      paging := P.Bump(paging, 16);
      spaces := spaces[v := spaces[v].(mapped := spaces[v].mapped + [MapEntry(x, p, r)])];
      paging := P.NativeSet(paging, v, x, p, PAGE);
    }

    /** vmem_get_physical_address */
    method GetPhysicalAddress(v: nat, x: nat) returns (addr: nat)
      requires v < |spaces|
      ensures addr == GetPhysical(spaces[v].mapped, x)
    {
      var aligned := P.MemAlign(x);
      var shifting := x - aligned;
      var mapped := spaces[v].mapped;
      var i := 0;
      while i < |mapped|
        invariant 0 <= i <= |mapped|
        invariant GetPhysical(mapped, x) == GetPhysical(mapped[i..], x)
      {
        if mapped[i].v == aligned {
          return mapped[i].p + shifting;
        }
        i := i + 1;
      }
      return 0;
    }

    /** vmem_attach */
    method AttachRegion(v: nat, r: nat)
      requires Handles(View()) && v < |spaces| && r < |regions|
      modifies this
      ensures View() == Attach(old(View()), v, r)
    {
      hide Notify;
      if r in spaces[v].regions {
        return;
      }
      paging := P.Bump(paging, 16);
      spaces := spaces[v := spaces[v].(regions := spaces[v].regions + [r])];
      paging := P.Bump(paging, 16);
      regions := regions[r := regions[r].(attached := regions[r].attached + [v])];
      ghost var linked := View();
      assert linked == Link(old(View()), v, r);

      NotifyPages(v, r, regions[r].start, regions[r].pages);
    }

    /** The loop of vmem_attach over the pages of the region */
    method NotifyPages(v: nat, r: nat, start: nat, pages: seq<nat>)
      requires Handles(View()) && v < |spaces|
      modifies this
      ensures View() == AttachPages(old(View()), v, r, start, pages[..BeforeZero(pages)])
    {
      hide Notify, Handles, Grows;
      var vaddr := start;
      var i := 0;
      while i < |pages| && pages[i] != 0
        invariant 0 <= i <= BeforeZero(pages) && vaddr == start + i * PAGE
        invariant Handles(View()) && |spaces| == old(|spaces|)
        invariant View() == AttachPages(old(View()), v, r, start, pages[..i])
      {
        assert pages[..i + 1][..i] == pages[..i];
        NotifyChange(v, r, pages[i], vaddr);
        vaddr := vaddr + PAGE;
        i := i + 1;
      }
    }

    /** vmem_create */
    method CreateVmem() returns (v: nat)
      requires Handles(View())
      modifies this
      ensures v == old(|spaces|) && View() == VmemCreate(old(View()))
    {
      hide Attach;
      v := |spaces|;
      paging := P.Bump(paging, 40);
      paging := P.Bump(paging, 32);
      spaces := spaces + [Space([], [], INCREMENT)];
      paging := P.NativeCreate(paging);
      assert View() == NewSpace(old(View()));
      ghost var created := View();

      if v > 0 {
        var kernelRegions := spaces[0].regions;
        var i := 0;
        while i < |kernelRegions|
          invariant 0 <= i <= |kernelRegions|
          invariant Handles(View()) && |spaces| == v + 1 && |regions| == old(|regions|)
          invariant View() == AttachAll(created, v, kernelRegions[..i])
        {
          assert kernelRegions[..i + 1][..i] == kernelRegions[..i];
          AttachRegion(v, kernelRegions[i]);
          i := i + 1;
        }
        assert kernelRegions[..i] == kernelRegions;
      }
    }

    /** vmem_region_assoc_physical_address */
    method AssocPhysicalAddress(r: nat, p: nat) returns (vaddr: nat)
      requires Handles(View()) && r < |regions|
      modifies this
      ensures vaddr == old(regions)[r].start + old(regions)[r].mappedSize
      ensures View() == AssocPage(old(View()), r, p)
    {
      hide Notify;
      vaddr := regions[r].start + regions[r].mappedSize;
      regions := regions[r := regions[r].(mappedSize := regions[r].mappedSize + PAGE)];
      paging := P.Bump(paging, 16);
      regions := regions[r := regions[r].(pages := regions[r].pages + [p])];
      assert regions == old(regions)[r := regions[r]];
      ghost var added := View();
      assert added == AddPage(old(View()), r, p);

      NotifyAttached(regions[r].attached, r, p, vaddr);
    }

    /** The loop over the address spaces a region is attached to. */
    method NotifyAttached(attached: seq<nat>, r: nat, p: nat, vaddr: nat)
      requires Handles(View()) && r < |regions| && forall i :: 0 <= i < |attached| ==> attached[i] < |spaces|
      modifies this
      ensures View() == Broadcast(old(View()), attached, r, p, vaddr)
    {
      hide Notify;
      var i := 0;
      while i < |attached|
        invariant 0 <= i <= |attached|
        invariant Handles(View()) && |spaces| == old(|spaces|) && |regions| == old(|regions|)
        invariant View() == Broadcast(old(View()), attached[..i], r, p, vaddr)
      {
        assert attached[..i + 1][..i] == attached[..i];
        NotifyChange(attached[i], r, p, vaddr);
        i := i + 1;
      }
      assert attached[..i] == attached;
    }

    /** vmem_region_map_physical_address */
    method MapPhysicalAddress(r: nat, start: nat, size: nat) returns (returning: nat)
      requires Handles(View()) && r < |regions|
      modifies this
      ensures (View(), returning) == MapPhysical(old(View()), r, start, size)
    {
      hide AssocPage, Handles, Grows;
      returning := 0;
      if start != P.MemAlign(start) || size != P.MemAlign(size) {
        return;
      }
      var paddr: nat, remaining: nat := start, size;
      ghost var n := size / PAGE;
      while remaining > 0
        invariant remaining == n * PAGE <= size && paddr == start + (size - remaining)
        invariant Handles(View()) && |regions| == old(|regions|) && |spaces| == old(|spaces|)
        invariant MapPages(View(), r, paddr, n) == MapPages(old(View()), r, start, size / PAGE)
        invariant remaining == size ==> View() == old(View())
        invariant returning == if remaining == size then 0 else old(regions)[r].start + old(regions)[r].mappedSize
        decreases remaining
      {
        ghost var before := View();
        var vaddr := AssocPhysicalAddress(r, paddr);
        if paddr == start {
          returning := vaddr;
        }
        regions := regions[r := regions[r].(size := regions[r].mappedSize)];
        assert View() == MapOne(before, r, paddr);
        paddr := paddr + PAGE;
        remaining := remaining - PAGE;
        n := n - 1;
      }
    }

    /** vmem_region_resize */
    method ResizeRegion(r: nat, newSize: nat) returns (ok: bool)
      requires Handles(View()) && r < |regions|
      modifies this
      ensures (View(), ok) == Resize(old(View()), r, newSize)
    {
      hide AssocPage, Pmem.Allocate;
      var failure := false;
      var target := P.AlignNext(newSize);
      ghost var have := regions[r].mappedSize;
      if target < regions[r].mappedSize {
        regions := regions[r := regions[r].(size := newSize)];
      } else {
        failure := Grow(r, target - regions[r].mappedSize);
      }
      ghost var grown := View();
      if newSize <= regions[r].mappedSize {
        regions := regions[r := regions[r].(size := newSize)];
        assert regions == grown.regions[r := regions[r]];
        assert target < have ==> regions == old(regions)[r := regions[r]];
      }
      return !failure;
    }

    /** The allocation loop of vmem_region_resize */
    method Grow(r: nat, space: nat) returns (failure: bool)
      requires Handles(View()) && r < |regions| && space % PAGE == 0
      modifies this
      ensures Handles(View()) && (View(), !failure) == GrowBy(old(View()), r, space / PAGE)
    {
      hide AssocPage, Pmem.Allocate;
      var remain: nat := space;
      ghost var n: nat := space / PAGE;
      while remain > 0
        invariant remain == n * PAGE
        invariant Handles(View()) && |regions| == old(|regions|)
        invariant GrowBy(View(), r, n) == GrowBy(old(View()), r, space / PAGE)
        decreases remain
      {
        var (types, paddr) := Pmem.Allocate(pmem);
        pmem := types;
        if paddr == 0 {
          return true;
        }
        var _ := AssocPhysicalAddress(r, paddr);
        remain := remain - PAGE;
        n := n - 1;
      }
      return false;
    }

    /**
     vmem_region_create: succeeds exactly for an aligned address and enough free pages. A region at an
     aligned address is attached in any case, with the size asked for or, after a failure, with size 0.
     */
    method CreateRegion(v: nat, start: nat, size: nat, user: bool, writable: bool, executable: bool)
      returns (r: Option<nat>)
      requires Handles(View()) && v < |spaces|
      modifies this
      ensures (View(), r) == RegionCreate(old(View()), v, start, size, user, writable, executable)
      ensures r.Some?
         <==> StartOf(old(View()), v, start) % PAGE == 0 && P.AlignNext(size) <= PAGE * |Pmem.FreePages(old(pmem))|
      ensures StartOf(old(View()), v, start) % PAGE == 0 ==>
                && |regions| == old(|regions|) + 1 && v < |spaces|
                && spaces[v].regions == old(spaces)[v].regions + [old(|regions|)]
                && regions[old(|regions|)].start == StartOf(old(View()), v, start)
                && regions[old(|regions|)].size == (if r.Some? then size else 0)
                && regions[old(|regions|)].writable == writable && regions[old(|regions|)].executable == executable
                && regions[old(|regions|)].user == user
      ensures |spaces| == old(|spaces|)
      ensures spaces[v].next == old(spaces)[v].next + if start == 0 then INCREMENT else 0
      ensures forall u :: 0 <= u < |spaces| && u != v ==> spaces[u].next == old(spaces)[u].next
    {
      hide Attach, Resize;
      CreateExactly(View(), v, start, size, user, writable, executable);
      var addr := start;
      if addr == 0 {
        addr := spaces[v].next;
        spaces := spaces[v := spaces[v].(next := spaces[v].next + INCREMENT)];
      }
      if P.MemAlign(addr) != addr {
        return None;
      }
      var id := |regions|;
      paging := P.Bump(paging, 64 + 32);
      regions := regions + [Region(addr, 0, 0, user, writable, executable, [], [])];
      assert View() == NewRegion(PickStart(old(View()), v, start).0, addr, user, writable, executable);
      AttachRegion(v, id);
      var ok := ResizeRegion(id, size);
      paging := P.Bump(paging, 32);
      r := if ok then Some(id) else None;
    }
  }
}
