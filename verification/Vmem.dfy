/**
 Address spaces and the regions they share: creating, attaching, mapping and resizing regions,
 with each new page broadcast to every attached address space, both into its list of mapped
 pages and into its page tables.

 Regions and address spaces are named by their position in the lists of all regions and all
 address spaces; address space 0 is the kernel's.
 */
module Vmem {
  import opened Machine
  import P = Paging
  import Pmem

  const INCREMENT: nat := 0x10_0000       // REGION_ADDRESS_INCREMENT

  // ---------------------------------------------------------------- data

  /** vmem_region_t */
  datatype Region = Region(start: nat, size: nat, mappedSize: nat, user: bool, writable: bool, executable: bool,
                           pages: seq<nat>, attached: seq<nat>)

  /** vmem_map_t */
  datatype MapEntry = MapEntry(v: nat, p: nat, region: nat)

  /** vmem_t; its page table is the address space of the same number in `paging`. */
  datatype Space = Space(regions: seq<nat>, mapped: seq<MapEntry>, next: nat)

  datatype State = State(regions: seq<Region>, spaces: seq<Space>, paging: P.State, pmem: seq<Pmem.PageType>)

  /** Every pointer kept in a list is a live object, no region starts at address 0, and regions map whole pages. */
  predicate Handles(s: State) {
    && |s.spaces| == |s.paging.spaces|
    && (forall r, k :: 0 <= r < |s.regions| && 0 <= k < |s.regions[r].attached| ==>
          s.regions[r].attached[k] < |s.spaces|)
    && (forall v, k :: 0 <= v < |s.spaces| && 0 <= k < |s.spaces[v].regions| ==> s.spaces[v].regions[k] < |s.regions|)
    && (forall r :: 0 <= r < |s.regions| ==> s.regions[r].start > 0 && s.regions[r].mappedSize % PAGE == 0)
    && (forall v :: 0 <= v < |s.spaces| ==> s.spaces[v].next > 0)
  }

  /** What an operation may do to the rest: objects are never removed, the heap only grows. */
  predicate Grows(s: State, s': State) {
    |s.regions| <= |s'.regions| && |s.spaces| <= |s'.spaces| && s.paging.heap <= s'.paging.heap
  }

  // ---------------------------------------------------------------- vmem/services.c

  /** vmem_notify_change: append to the list, then enter the page into the page tables. */
  function Notify(s: State, v: nat, r: nat, p: nat, x: nat): (s': State)
    requires Handles(s) && v < |s.spaces|
    ensures Handles(s') && Grows(s, s') && s'.regions == s.regions && |s'.spaces| == |s.spaces| && s'.pmem == s.pmem
  {
    s.(spaces := s.spaces[v := s.spaces[v].(mapped := s.spaces[v].mapped + [MapEntry(x, p, r)])],
       paging := P.NativeSet(P.Bump(s.paging, 24 + 16), v, x, p, PAGE))
  }

  /** vmem_get_physical_address: the first list entry for the page of x, or 0. */
  function GetPhysical(mapped: seq<MapEntry>, x: nat): nat {
    if mapped == [] then 0
    else if mapped[0].v == P.MemAlign(x) then mapped[0].p + (x - P.MemAlign(x))
    else GetPhysical(mapped[1..], x)
  }

  /** How far the list iteration over a region's pages gets: it stops at a page with address 0. */
  function BeforeZero(pages: seq<nat>): (n: nat)
    ensures n <= |pages| && (forall i :: 0 <= i < n ==> pages[i] != 0) && (n < |pages| ==> pages[n] == 0)
  {
    if pages == [] || pages[0] == 0 then 0 else 1 + BeforeZero(pages[1..])
  }

  /** The loop of vmem_attach, after k pages. */
  function AttachPages(s: State, v: nat, r: nat, start: nat, pages: seq<nat>): (s': State)
    requires Handles(s) && v < |s.spaces|
    ensures Handles(s') && Grows(s, s') && s'.regions == s.regions && |s'.spaces| == |s.spaces| && s'.pmem == s.pmem
  {
    if pages == [] then s
    else
      var n := |pages| - 1;
      Notify(AttachPages(s, v, r, start, pages[..n]), v, r, pages[n], start + n * PAGE)
  }

  /** The two list appends of vmem_attach. */
  function Link(s: State, v: nat, r: nat): (s': State)
    requires Handles(s) && v < |s.spaces| && r < |s.regions|
    ensures Handles(s') && Grows(s, s') && |s'.regions| == |s.regions| && |s'.spaces| == |s.spaces|
  {
    s.(spaces := s.spaces[v := s.spaces[v].(regions := s.spaces[v].regions + [r])],
       regions := s.regions[r := s.regions[r].(attached := s.regions[r].attached + [v])],
       paging := P.Bump(s.paging, 32))
  }

  /** vmem_attach */
  function Attach(s: State, v: nat, r: nat): (s': State)
    requires Handles(s) && v < |s.spaces| && r < |s.regions|
    ensures Handles(s') && Grows(s, s') && |s'.regions| == |s.regions| && |s'.spaces| == |s.spaces|
  {
    if r in s.spaces[v].regions then s
    else
      var reg := s.regions[r];
      AttachPages(Link(s, v, r), v, r, reg.start, reg.pages[..BeforeZero(reg.pages)])
  }

  /** The loop of vmem_create over the kernel's regions. */
  function AttachAll(s: State, v: nat, rs: seq<nat>): (s': State)
    requires Handles(s) && v < |s.spaces| && forall k :: 0 <= k < |rs| ==> rs[k] < |s.regions|
    ensures Handles(s') && Grows(s, s') && |s'.regions| == |s.regions| && |s'.spaces| == |s.spaces|
  {
    if rs == [] then s else Attach(AttachAll(s, v, rs[..|rs| - 1]), v, rs[|rs| - 1])
  }

  /** A new address space without regions and with empty page tables. */
  function NewSpace(s: State): (s': State)
    requires Handles(s)
    ensures Handles(s') && Grows(s, s') && s'.regions == s.regions && |s'.spaces| == |s.spaces| + 1
  {
    s.(spaces := s.spaces + [Space([], [], INCREMENT)], paging := P.NativeCreate(P.Bump(s.paging, 40 + 32)))
  }

  /** vmem_create */
  function VmemCreate(s: State): (s': State)
    requires Handles(s)
    ensures Handles(s') && Grows(s, s') && |s'.regions| == |s.regions| && |s'.spaces| == |s.spaces| + 1
  {
    var s1 := NewSpace(s);
    if |s.spaces| == 0 then s1 else AttachAll(s1, |s.spaces|, s.spaces[0].regions)
  }

  // ---------------------------------------------------------------- vmem/region_services.c

  /** Notification of every attached address space, in list order. */
  function Broadcast(s: State, attached: seq<nat>, r: nat, p: nat, x: nat): (s': State)
    requires Handles(s) && forall k :: 0 <= k < |attached| ==> attached[k] < |s.spaces|
    ensures Handles(s') && Grows(s, s') && s'.regions == s.regions && |s'.spaces| == |s.spaces| && s'.pmem == s.pmem
  {
    if attached == [] then s
    else Notify(Broadcast(s, attached[..|attached| - 1], r, p, x), attached[|attached| - 1], r, p, x)
  }

  /** The first half of vmem_region_assoc_physical_address: the region itself grows. */
  function AddPage(s: State, r: nat, p: nat): (s': State)
    requires Handles(s) && r < |s.regions|
    ensures Handles(s') && Grows(s, s') && |s'.regions| == |s.regions| && s'.spaces == s.spaces
  {
    var reg := s.regions[r];
    s.(regions := s.regions[r := reg.(mappedSize := reg.mappedSize + PAGE, pages := reg.pages + [p])],
       paging := P.Bump(s.paging, 16))
  }

  /** vmem_region_assoc_physical_address; the address it returns is start + mappedSize before the call. */
  function AssocPage(s: State, r: nat, p: nat): (s': State)
    requires Handles(s) && r < |s.regions|
    ensures Handles(s') && Grows(s, s') && |s'.regions| == |s.regions| && |s'.spaces| == |s.spaces| && s'.pmem == s.pmem
    ensures s'.regions[r].mappedSize == s.regions[r].mappedSize + PAGE && s'.regions[r].start == s.regions[r].start
  {
    Broadcast(AddPage(s, r, p), s.regions[r].attached, r, p, s.regions[r].start + s.regions[r].mappedSize)
  }

  function SetSize(s: State, r: nat, size: nat): (s': State)
    requires Handles(s) && r < |s.regions|
    ensures Handles(s') && Grows(s, s') && |s'.regions| == |s.regions| && s'.spaces == s.spaces && s'.pmem == s.pmem
  {
    s.(regions := s.regions[r := s.regions[r].(size := size)])
  }

  /** One turn of the loop of vmem_region_map_physical_address. */
  function MapOne(s: State, r: nat, p: nat): (s': State)
    requires Handles(s) && r < |s.regions|
    ensures Handles(s') && Grows(s, s') && |s'.regions| == |s.regions| && |s'.spaces| == |s.spaces| && s'.pmem == s.pmem
    ensures s'.regions[r].start == s.regions[r].start && s'.regions[r].mappedSize == s.regions[r].mappedSize + PAGE
  {
    var s1 := AssocPage(s, r, p);
    SetSize(s1, r, s1.regions[r].mappedSize)
  }

  /** The loop of vmem_region_map_physical_address with n pages to go. */
  function MapPages(s: State, r: nat, p: nat, n: nat): (s': State)
    requires Handles(s) && r < |s.regions|
    ensures Handles(s') && Grows(s, s') && |s'.regions| == |s.regions| && |s'.spaces| == |s.spaces| && s'.pmem == s.pmem
    ensures s'.regions[r].start == s.regions[r].start && s'.regions[r].mappedSize == s.regions[r].mappedSize + n * PAGE
    decreases n, p
  {
    if n == 0 then s else MapPages(MapOne(s, r, p), r, p + PAGE, n - 1)
  }

  /** vmem_region_map_physical_address: the state and the address of the first new page, or 0. */
  function MapPhysical(s: State, r: nat, p: nat, size: nat): (res: (State, nat))
    requires Handles(s) && r < |s.regions|
    ensures Handles(res.0) && Grows(s, res.0) && |res.0.regions| == |s.regions| && |res.0.spaces| == |s.spaces|
  {
    if p % PAGE != 0 || size % PAGE != 0 then (s, 0)
    else (MapPages(s, r, p, size / PAGE), if size == 0 then 0 else s.regions[r].start + s.regions[r].mappedSize)
  }

  /** The allocation loop of vmem_region_resize. */
  function GrowBy(s: State, r: nat, n: nat): (res: (State, bool))
    requires Handles(s) && r < |s.regions|
    ensures Handles(res.0) && Grows(s, res.0) && |res.0.regions| == |s.regions| && |res.0.spaces| == |s.spaces|
    ensures res.0.regions[r].start == s.regions[r].start
    ensures res.0.regions[r].mappedSize <= s.regions[r].mappedSize + n * PAGE
    ensures res.1 <==> res.0.regions[r].mappedSize == s.regions[r].mappedSize + n * PAGE
    decreases n
  {
    if n == 0 then (s, true)
    else
      var a := Pmem.Allocate(s.pmem);
      if a.1 == 0 then (s.(pmem := a.0), false)
      else GrowBy(AssocPage(s.(pmem := a.0), r, a.1), r, n - 1)
  }

  /** vmem_region_resize: shrinking changes the size only and releases nothing. */
  function Resize(s: State, r: nat, newSize: nat): (res: (State, bool))
    requires Handles(s) && r < |s.regions|
    ensures Handles(res.0) && Grows(s, res.0) && |res.0.regions| == |s.regions| && |res.0.spaces| == |s.spaces|
  {
    var target := P.AlignNext(newSize);
    var have := s.regions[r].mappedSize;
    var g := if target < have then (s, true) else GrowBy(s, r, (target - have) / PAGE);
    (if newSize <= g.0.regions[r].mappedSize then SetSize(g.0, r, newSize) else g.0, g.1)
  }

  /** find_next_memory_address, when the caller has no preference. */
  function PickStart(s: State, v: nat, start: nat): (res: (State, nat))
    requires Handles(s) && v < |s.spaces|
    ensures Handles(res.0) && Grows(s, res.0) && res.0.regions == s.regions && |res.0.spaces| == |s.spaces|
  {
    if start != 0 then (s, start)
    else (s.(spaces := s.spaces[v := s.spaces[v].(next := s.spaces[v].next + INCREMENT)]), s.spaces[v].next)
  }

  function NewRegion(s: State, start: nat, user: bool, writable: bool, executable: bool): (s': State)
    requires Handles(s) && start > 0
    ensures Handles(s') && Grows(s, s') && |s'.regions| == |s.regions| + 1 && s'.spaces == s.spaces
  {
    s.(regions := s.regions + [Region(start, 0, 0, user, writable, executable, [], [])],
       paging := P.Bump(s.paging, 64 + 32))
  }

  /**
   vmem_region_create. When the resize runs out of physical pages the call reports failure, but
   the region stays attached with the pages it got: the clean-up frees memory, which does nothing.
   */
  function RegionCreate(s: State, v: nat, start: nat, size: nat, user: bool, writable: bool, executable: bool)
    : (res: (State, Option<nat>))
    requires Handles(s) && v < |s.spaces|
    ensures Handles(res.0) && Grows(s, res.0) && |res.0.spaces| == |s.spaces|
    ensures res.1.Some? ==> res.1.value < |res.0.regions|
  {
    var picked := PickStart(s, v, start);
    if picked.1 % PAGE != 0 then (picked.0, None)
    else
      var r := |s.regions|;
      var s2 := Attach(NewRegion(picked.0, picked.1, user, writable, executable), v, r);
      var done := Resize(s2, r, size);
      (done.0.(paging := P.Bump(done.0.paging, 32)), if done.1 then Some(r) else None)
  }
}
