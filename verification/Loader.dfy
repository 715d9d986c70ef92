/**
 Loading a module: the module's bytes are looked up in the loader's address space and the same
 physical pages are mapped, header by header, into the address space of the new task.
 */
module Loader {
  import opened Machine
  import opened Vmem
  import opened VmemInvariant
  import opened VmemAgreement
  import opened VmemGrowth
  import P = Paging
  import Pmem
  import VM = VirtualMemory

  /** elf_program_header_t, as far as the loader reads it. */
  datatype Header = Header(load: bool, vaddr: nat, offset: nat, fileSize: nat, memSize: nat,
                           writable: bool, executable: bool)

  /** The file-mapping half of allocate_program_header. */
  function MapFile(s: State, handler: nat, base: nat, r: nat, ph: Header): (res: (State, bool))
    requires Handles(s) && handler < |s.spaces| && r < |s.regions|
    ensures Handles(res.0) && Grows(s, res.0) && |res.0.regions| == |s.regions| && |res.0.spaces| == |s.spaces|
  {
    if ph.fileSize == 0 then (s, true)
    else
      var paddr := GetPhysical(s.spaces[handler].mapped, base + ph.offset);
      var done := MapPhysical(s, r, paddr, P.AlignNext(ph.fileSize));
      (done.0, done.1 != 0)
  }

  /** allocate_program_header */
  function LoadHeader(s: State, handler: nat, m: nat, base: nat, ph: Header): (res: (State, bool))
    requires Handles(s) && handler < |s.spaces| && m < |s.spaces|
    ensures Handles(res.0) && Grows(s, res.0) && |res.0.spaces| == |s.spaces|
  {
    var created := RegionCreate(s, m, ph.vaddr, 0, true, ph.writable, ph.executable);
    if created.1.None? then (created.0, false)
    else
      var r := created.1.value;
      var file := MapFile(created.0, handler, base, r, ph);
      if !file.1 then (file.0, false) else Resize(file.0, r, ph.memSize)
  }

  /** The loop of module_task_initialize over the program headers; it stops at the first failure. */
  function LoadAll(s: State, handler: nat, m: nat, base: nat, phs: seq<Header>): (res: (State, bool))
    requires Handles(s) && handler < |s.spaces| && m < |s.spaces|
    ensures Handles(res.0) && Grows(s, res.0) && |res.0.spaces| == |s.spaces|
  {
    if phs == [] then (s, true)
    else
      var n := |phs| - 1;
      var before := LoadAll(s, handler, m, base, phs[..n]);
      if !before.1 || !phs[n].load then before
      else LoadHeader(before.0, handler, m, base, phs[n])
  }

  // ---------------------------------------------------------------- the code's own form

  method AllocateProgramHeader(vm: VM.Services, handler: nat, m: nat, base: nat, ph: Header) returns (ok: bool)
    requires Handles(vm.View()) && handler < |vm.spaces| && m < |vm.spaces|
    modifies vm
    ensures (vm.View(), ok) == LoadHeader(old(vm.View()), handler, m, base, ph)
    ensures ok
       <==> && StartOf(old(vm.View()), m, ph.vaddr) % PAGE == 0
            && (ph.fileSize > 0 ==> GetPhysical(old(vm.spaces)[handler].mapped, base + ph.offset) % PAGE == 0)
            && P.AlignNext(ph.memSize) <= P.AlignNext(ph.fileSize) + PAGE * |Pmem.FreePages(old(vm.pmem))|
  {
    hide RegionCreate, MapPhysical, Resize;
    LoadHeaderExactly(vm.View(), handler, m, base, ph);
    var region := vm.CreateRegion(m, ph.vaddr, 0, true, ph.writable, ph.executable);
    if region.None? {
      return false;
    }
    if ph.fileSize != 0 {
      var paddr := vm.GetPhysicalAddress(handler, base + ph.offset);
      var vaddr := vm.MapPhysicalAddress(region.value, paddr, P.AlignNext(ph.fileSize));
      if vaddr == 0 {
        return false;
      }
    }
    ok := vm.ResizeRegion(region.value, ph.memSize);
  }

  method LoadProgramHeaders(vm: VM.Services, handler: nat, m: nat, base: nat, phs: seq<Header>) returns (ok: bool)
    requires Handles(vm.View()) && handler < |vm.spaces| && m < |vm.spaces|
    modifies vm
    ensures (vm.View(), ok) == LoadAll(old(vm.View()), handler, m, base, phs)
  {
    hide LoadHeader;
    ok := true;
    var i := 0;
    while i < |phs|
      invariant 0 <= i <= |phs| && ok
      invariant Handles(vm.View()) && |vm.spaces| == old(|vm.spaces|)
      invariant (vm.View(), ok) == LoadAll(old(vm.View()), handler, m, base, phs[..i])
    {
      assert phs[..i + 1][..i] == phs[..i];
      if phs[i].load {
        ok := AllocateProgramHeader(vm, handler, m, base, phs[i]);
        if !ok {
          StoppedLoad(old(vm.View()), handler, m, base, phs, i + 1);
          return;
        }
      }
      i := i + 1;
    }
    assert phs[..i] == phs;
  }

  /** Once a header failed, the headers after it change nothing. */
  lemma {:induction false} StoppedLoad(s: State, handler: nat, m: nat, base: nat, phs: seq<Header>, i: nat)
    requires Handles(s) && handler < |s.spaces| && m < |s.spaces| && i <= |phs|
    requires !LoadAll(s, handler, m, base, phs[..i]).1
    ensures LoadAll(s, handler, m, base, phs) == LoadAll(s, handler, m, base, phs[..i])
    decreases |phs|
  {
    hide LoadHeader;
    if i < |phs| {
      var n := |phs| - 1;
      assert phs[..n][..i] == phs[..i];
      StoppedLoad(s, handler, m, base, phs[..n], i);
    } else {
      assert phs[..i] == phs;
    }
  }

  // ---------------------------------------------------------------- conditions

  /** The module lies in physical memory from `phys` on, and region q of the handler maps it at `base`. */
  predicate ModuleAt(s: State, handler: nat, q: nat, base: nat, phys: nat, pages: nat)
    requires Handles(s) && handler < |s.spaces|
  {
    && q < |s.regions| && q in s.spaces[handler].regions
    && s.regions[q].start == base && s.regions[q].pages == Consecutive(phys, pages)
    && Clear(s, handler, q) && Low(s.spaces[handler].mapped)
  }

  /** The bytes of a header's file part lie inside the module. */
  predicate FileInside(ph: Header, pages: nat) {
    ph.offset + ph.fileSize <= pages * PAGE
  }

  function Max(a: nat, b: nat): nat {
    if a < b then b else a
  }

  /**
   Region r holds the header: at its address, for the user, with its permissions and memory size, and
   backed by the module's own pages. The memory behind the file part is mapped too.
   */
  predicate Holds(s: State, m: nat, r: nat, phys: nat, ph: Header)
    requires Handles(s) && m < |s.spaces|
  {
    && r < |s.regions| && r in s.spaces[m].regions
    && s.regions[r].start == ph.vaddr && s.regions[r].size == ph.memSize
    && s.regions[r].mappedSize == Max(P.AlignNext(ph.fileSize), P.AlignNext(ph.memSize))
    && s.regions[r].user && s.regions[r].writable == ph.writable && s.regions[r].executable == ph.executable
    && (ph.fileSize > 0 ==> Consecutive(phys + ph.offset, P.AlignNext(ph.fileSize) / PAGE) <= s.regions[r].pages)
  }

  /** What loading one header leaves alone: older regions, and every other address space. */
  predicate Untouched(s: State, s': State, m: nat) {
    && |s.regions| <= |s'.regions| && |s'.spaces| == |s.spaces| && m < |s.spaces|
    && (forall q :: 0 <= q < |s.regions| ==> s'.regions[q] == s.regions[q])
    && (forall u :: 0 <= u < |s.spaces| && u != m ==> s'.spaces[u] == s.spaces[u])
    && s.spaces[m].regions <= s'.spaces[m].regions
  }

  // ---------------------------------------------------------------- the module itself

  /**
   The module-loading region: mapping the physical range of a module into a fresh region makes it
   readable at the returned address, page after page.
   */
  lemma ModuleIsMapped(s: State, handler: nat, addr: nat, size: nat)
    requires Inv(s) && handler < |s.spaces| && addr > 0
    requires RegionCreate(s, handler, 0, 0, true, true, true).1.Some?
    requires var s1 := RegionCreate(s, handler, 0, 0, true, true, true).0;
             && MapPhysical(s1, |s.regions|, addr, P.AlignNext(size)).1 != 0
             && MapPhysical(s1, |s.regions|, addr, P.AlignNext(size)).0.paging.heap <= P.LIMIT
    ensures var s1 := RegionCreate(s, handler, 0, 0, true, true, true).0;
            var (s2, base) := MapPhysical(s1, |s.regions|, addr, P.AlignNext(size));
            && Inv(s2) && |s.regions| in s2.spaces[handler].regions
            && s2.regions[|s.regions|].start == base
            && s2.regions[|s.regions|].pages == Consecutive(addr, P.AlignNext(size) / PAGE)
  {
    hide ListInv, TreeInv, RegionCreate, MapPages;
    var r := |s.regions|;
    var s1 := RegionCreate(s, handler, 0, 0, true, true, true).0;
    RegionCreateKeeps(s, handler, 0, 0, true, true, true);
    CreateExactly(s, handler, 0, 0, true, true, true);
    assert P.AlignNext(0) == 0 && s1.regions[r].pages == [];
    MapPagesKeeps(s1, r, addr, P.AlignNext(size) / PAGE);
    MapPagesGrows(s1, r, addr, P.AlignNext(size) / PAGE);
  }

  // ---------------------------------------------------------------- one header

  /** A region created with size 0 changes no list of mapped pages. */
  lemma CreatedEmpty(s: State, m: nat, start: nat, user: bool, writable: bool, executable: bool)
    requires Handles(s) && m < |s.spaces| && start > 0
    requires RegionCreate(s, m, start, 0, user, writable, executable).1.Some?
    ensures var (s', created) := RegionCreate(s, m, start, 0, user, writable, executable);
            && created.value == |s.regions| && |s'.regions| == |s.regions| + 1
            && s'.regions[|s.regions|] == Region(start, 0, 0, user, writable, executable, [], [m])
            && Untouched(s, s', m) && s'.spaces[m].mapped == s.spaces[m].mapped
            && |s.regions| in s'.spaces[m].regions
  {
    hide Attach;
    var r := |s.regions|;
    var s1 := NewRegion(s, start, user, writable, executable);
    EmptyAttach(s1, m, r);
    var s2 := Attach(s1, m, r);
    assert P.AlignNext(0) == 0;
    assert GrowBy(s2, r, 0) == (s2, true);
  }

  /** The loader finds the module's bytes through its own address space. */
  lemma ModuleByte(s: State, handler: nat, q: nat, base: nat, phys: nat, pages: nat, offset: nat)
    requires Inv(s) && handler < |s.spaces| && ModuleAt(s, handler, q, base, phys, pages) && offset < pages * PAGE
    ensures GetPhysical(s.spaces[handler].mapped, base + offset) == phys + offset
    ensures phys % PAGE == 0 && phys > 0
  {
    hide TreeInv, ListInv;
    var k := offset / PAGE;
    SeenByte(s, handler, q, k, base + offset, offset % PAGE);
    var _ := RegionPageAligned(s, q, 0);
  }

  /** Pages added to a region attached to nobody but m leave the lists of all others as they are. */
  lemma PrivateRegionFrame(s: State, s': State, m: nat, r: nat, p: nat)
    requires Handles(s) && m < |s.spaces| && r < |s.regions| && s.regions[r].attached == [m]
    requires s' == AssocPage(s, r, p)
    ensures s'.regions[r].attached == [m]
    ensures forall u :: 0 <= u < |s.spaces| && u != m ==> s'.spaces[u] == s.spaces[u]
  {
    AssocPageEffect(s, r, p);
  }

  lemma {:induction false} MapPagesFrame(s: State, m: nat, r: nat, p: nat, n: nat)
    requires Handles(s) && m < |s.spaces| && r < |s.regions| && s.regions[r].attached == [m]
    ensures forall u :: 0 <= u < |s.spaces| && u != m ==> MapPages(s, r, p, n).spaces[u] == s.spaces[u]
    decreases n
  {
    hide AssocPage;
    if n > 0 {
      PrivateRegionFrame(s, AssocPage(s, r, p), m, r, p);
      MapPagesFrame(MapOne(s, r, p), m, r, p + PAGE, n - 1);
    }
  }

  lemma {:induction false} GrowByFrame(s: State, m: nat, r: nat, n: nat)
    requires Handles(s) && m < |s.spaces| && r < |s.regions| && s.regions[r].attached == [m]
    ensures forall u :: 0 <= u < |s.spaces| && u != m ==> GrowBy(s, r, n).0.spaces[u] == s.spaces[u]
    decreases n
  {
    hide AssocPage;
    if n > 0 {
      var a := Pmem.Allocate(s.pmem);
      if a.1 != 0 {
        var s0 := s.(pmem := a.0);
        PrivateRegionFrame(s0, AssocPage(s0, r, a.1), m, r, a.1);
        GrowByFrame(AssocPage(s0, r, a.1), m, r, n - 1);
      }
    }
  }

  lemma ResizeFrame(s: State, m: nat, r: nat, size: nat)
    requires Handles(s) && m < |s.spaces| && r < |s.regions| && s.regions[r].attached == [m]
    ensures forall u :: 0 <= u < |s.spaces| && u != m ==> Resize(s, r, size).0.spaces[u] == s.spaces[u]
  {
    hide GrowBy;
    var target, have := P.AlignNext(size), s.regions[r].mappedSize;
    if target >= have { GrowByFrame(s, m, r, (target - have) / PAGE); }
  }

  /** The file part: when it succeeds, the region starts with exactly the module's pages of the header. */
  lemma MapFileHolds(s: State, handler: nat, m: nat, q: nat, base: nat, phys: nat, pages: nat, r: nat, ph: Header)
    requires Inv(s) && handler < |s.spaces| && m < |s.spaces| && m != handler
    requires ModuleAt(s, handler, q, base, phys, pages) && FileInside(ph, pages)
    requires r < |s.regions| && s.regions[r].pages == [] && s.regions[r].attached == [m]
    requires MapFile(s, handler, base, r, ph).1 && MapFile(s, handler, base, r, ph).0.paging.heap <= P.LIMIT
    ensures var s' := MapFile(s, handler, base, r, ph).0;
            && Inv(s') && OnlyGrew(s, s', r)
            && (forall u :: 0 <= u < |s.spaces| && u != m ==> s'.spaces[u] == s.spaces[u])
            && |s'.regions[r].pages| * PAGE == P.AlignNext(ph.fileSize)
            && (ph.fileSize > 0 ==>
                  s'.regions[r].pages == Consecutive(phys + ph.offset, P.AlignNext(ph.fileSize) / PAGE))
  {
    hide ListInv, TreeInv, MapPages;
    if ph.fileSize > 0 {
      var p := GetPhysical(s.spaces[handler].mapped, base + ph.offset);
      var n := P.AlignNext(ph.fileSize) / PAGE;
      ModuleByte(s, handler, q, base, phys, pages, ph.offset);
      assert p == phys + ph.offset && PageOk(p);
      MapPagesKeeps(s, r, p, n);
      MapPagesGrows(s, r, p, n);
      MapPagesFrame(s, m, r, p, n);
    }
  }

  /**
   Loading one header successfully: its region holds the module's own pages at the header's
   address with the header's memory size, and nothing else changed.
   */
  lemma LoadHeaderHolds(s: State, handler: nat, m: nat, q: nat, base: nat, phys: nat, pages: nat, ph: Header)
    requires Inv(s) && handler < |s.spaces| && m < |s.spaces| && m != handler
    requires ModuleAt(s, handler, q, base, phys, pages) && FileInside(ph, pages) && ph.vaddr > 0
    requires LoadHeader(s, handler, m, base, ph).1 && LoadHeader(s, handler, m, base, ph).0.paging.heap <= P.LIMIT
    ensures var s' := LoadHeader(s, handler, m, base, ph).0;
            && Inv(s') && Untouched(s, s', m) && |s'.regions| == |s.regions| + 1
            && Holds(s', m, |s.regions|, phys, ph)
  {
    hide ListInv, TreeInv, RegionCreate, Resize, MapFile, ModuleAt, Consecutive, Holds, OnlyGrew;
    var r := |s.regions|;
    var s1 := RegionCreate(s, m, ph.vaddr, 0, true, ph.writable, ph.executable).0;
    RegionCreateKeeps(s, m, ph.vaddr, 0, true, ph.writable, ph.executable);
    CreatedEmpty(s, m, ph.vaddr, true, ph.writable, ph.executable);
    ModuleStays(s, s1, handler, m, q, base, phys, pages);
    MapFileHolds(s1, handler, m, q, base, phys, pages, r, ph);
    var s2 := MapFile(s1, handler, base, r, ph).0;
    StillPrivate(s1, s2, m, r);
    ResizeKeeps(s2, r, ph.memSize);
    ResizedHolds(s, s1, s2, m, phys, ph);
  }

  lemma StillPrivate(s: State, s': State, m: nat, r: nat)
    requires r < |s.regions| && s.regions[r].attached == [m] && OnlyGrew(s, s', r)
    ensures |s'.regions| == |s.regions| && s'.regions[r].attached == [m] && |s'.spaces| == |s.spaces|
  {
  }

  /** The last step for a header: what the resize adds to the region with the file part. */
  lemma ResizedHolds(s: State, s1: State, s2: State, m: nat, phys: nat, ph: Header)
    requires Handles(s) && Handles(s1) && Handles(s2) && m < |s.spaces| && Untouched(s, s1, m)
    requires var r := |s.regions|;
             && |s1.regions| == r + 1 && r in s1.spaces[m].regions && OnlyGrew(s1, s2, r)
             && s1.regions[r] == Region(ph.vaddr, 0, 0, true, ph.writable, ph.executable, [], [m])
             && (forall u :: 0 <= u < |s.spaces| && u != m ==> s2.spaces[u] == s1.spaces[u])
             && |s2.regions[r].pages| * PAGE == P.AlignNext(ph.fileSize)
             && (ph.fileSize > 0 ==>
                   s2.regions[r].pages == Consecutive(phys + ph.offset, P.AlignNext(ph.fileSize) / PAGE))
             && Resize(s2, r, ph.memSize).1
    ensures var s' := Resize(s2, |s.regions|, ph.memSize).0;
            Untouched(s, s', m) && |s'.regions| == |s.regions| + 1 && Holds(s', m, |s.regions|, phys, ph)
  {
    hide Resize, Consecutive, Pmem.FreePages, Handles, Grows;
    ResizeExactly(s2, |s.regions|, ph.memSize);
    ResizeFrame(s2, m, |s.regions|, ph.memSize);
  }

  /** Creating a region of size 0 changes no list and takes no physical page, whatever comes of it. */
  lemma EmptyCreate(s: State, m: nat, start: nat, user: bool, writable: bool, executable: bool)
    requires Handles(s) && m < |s.spaces|
    ensures var s' := RegionCreate(s, m, start, 0, user, writable, executable).0;
            && s'.pmem == s.pmem && |s'.spaces| == |s.spaces|
            && forall u :: 0 <= u < |s.spaces| ==> s'.spaces[u].mapped == s.spaces[u].mapped
  {
    hide Attach, Resize, Handles, Grows;
    var picked := PickStart(s, m, start);
    StartPositive(s, m, start);
    if picked.1 % PAGE == 0 {
      EmptyRegion(picked.0, m, picked.1, user, writable, executable);
    }
  }

  lemma StartPositive(s: State, v: nat, start: nat)
    requires Handles(s) && v < |s.spaces|
    ensures StartOf(s, v, start) > 0
  {
  }

  lemma EmptyRegion(s: State, m: nat, start: nat, user: bool, writable: bool, executable: bool)
    requires Handles(s) && m < |s.spaces| && start > 0
    ensures var s1 := NewRegion(s, start, user, writable, executable);
            var s' := Resize(Attach(s1, m, |s.regions|), |s.regions|, 0).0;
            && s'.pmem == s.pmem && |s'.spaces| == |s.spaces|
            && forall u :: 0 <= u < |s.spaces| ==> s'.spaces[u].mapped == s.spaces[u].mapped
  {
    hide Attach;
    var r, s1 := |s.regions|, NewRegion(s, start, user, writable, executable);
    EmptyAttach(s1, m, r);
    assert P.AlignNext(0) == 0 && GrowBy(Attach(s1, m, r), r, 0) == (Attach(s1, m, r), true);
  }

  /**
   Loading a header succeeds exactly when its address is page aligned, its file part starts on a
   physical page, and there are physical pages for the memory its file part does not back.
   */
  lemma LoadHeaderExactly(s: State, handler: nat, m: nat, base: nat, ph: Header)
    requires Handles(s) && handler < |s.spaces| && m < |s.spaces|
    ensures LoadHeader(s, handler, m, base, ph).1
       <==> && StartOf(s, m, ph.vaddr) % PAGE == 0
            && (ph.fileSize > 0 ==> GetPhysical(s.spaces[handler].mapped, base + ph.offset) % PAGE == 0)
            && P.AlignNext(ph.memSize) <= P.AlignNext(ph.fileSize) + PAGE * |Pmem.FreePages(s.pmem)|
  {
    hide RegionCreate, MapPages, Resize, Pmem.FreePages, GetPhysical, Handles, Grows;
    var r := |s.regions|;
    var s1 := RegionCreate(s, m, ph.vaddr, 0, true, ph.writable, ph.executable).0;
    assert P.AlignNext(0) == 0;
    CreateExactly(s, m, ph.vaddr, 0, true, ph.writable, ph.executable);
    EmptyCreate(s, m, ph.vaddr, true, ph.writable, ph.executable);
    StartPositive(s, m, ph.vaddr);
    if StartOf(s, m, ph.vaddr) % PAGE == 0 {
      var p, bytes := GetPhysical(s1.spaces[handler].mapped, base + ph.offset), P.AlignNext(ph.fileSize);
      MapPagesGrows(s1, r, p, bytes / PAGE);
      var s2 := MapFile(s1, handler, base, r, ph).0;
      ResizeExactly(s2, r, ph.memSize);
    }
  }

  lemma ModuleStays(s: State, s': State, handler: nat, m: nat, q: nat, base: nat, phys: nat, pages: nat)
    requires Handles(s) && Handles(s') && handler < |s.spaces| && m != handler && Untouched(s, s', m)
    requires ModuleAt(s, handler, q, base, phys, pages)
    ensures ModuleAt(s', handler, q, base, phys, pages)
  {
  }

  // ---------------------------------------------------------------- all headers

  lemma HoldsStays(s: State, s': State, m: nat, r: nat, phys: nat, ph: Header)
    requires Handles(s) && Handles(s') && m < |s.spaces| && Untouched(s, s', m) && Holds(s, m, r, phys, ph)
    ensures Holds(s', m, r, phys, ph)
  {
  }

  /** How many headers are to be loaded; each takes one region. */
  function Loads(phs: seq<Header>): nat {
    if phs == [] then 0 else Loads(phs[..|phs| - 1]) + if phs[|phs| - 1].load then 1 else 0
  }

  /** The region of header k, when `first` is the number of the first one. */
  function RegionOf(first: nat, phs: seq<Header>, k: nat): nat
    requires k <= |phs|
  {
    first + Loads(phs[..k])
  }

  predicate AllHeld(s: State, m: nat, first: nat, phys: nat, phs: seq<Header>)
    requires Handles(s) && m < |s.spaces|
  {
    forall k :: 0 <= k < |phs| && phs[k].load ==> Holds(s, m, RegionOf(first, phs, k), phys, phs[k])
  }

  lemma {:induction false} LoadAllHolds(s: State, handler: nat, m: nat, q: nat, base: nat, phys: nat, pages: nat,
                                        phs: seq<Header>)
    requires Inv(s) && handler < |s.spaces| && m < |s.spaces| && m != handler
    requires ModuleAt(s, handler, q, base, phys, pages)
    requires forall k :: 0 <= k < |phs| && phs[k].load ==> FileInside(phs[k], pages) && phs[k].vaddr > 0
    requires LoadAll(s, handler, m, base, phs).1 && LoadAll(s, handler, m, base, phs).0.paging.heap <= P.LIMIT
    ensures var s' := LoadAll(s, handler, m, base, phs).0;
            && Inv(s') && Untouched(s, s', m) && |s'.regions| == |s.regions| + Loads(phs)
            && AllHeld(s', m, |s.regions|, phys, phs)
    decreases |phs|
  {
    hide ListInv, TreeInv, LoadHeader, ModuleAt, AllHeld, FileInside;
    if phs == [] {
      NoneHeld(s, m, |s.regions|, phys);
    } else {
      var n := |phs| - 1;
      var s1 := LoadAll(s, handler, m, base, phs[..n]).0;
      LoadAllHolds(s, handler, m, q, base, phys, pages, phs[..n]);
      if phs[n].load {
        ModuleStays(s, s1, handler, m, q, base, phys, pages);
        LoadHeaderHolds(s1, handler, m, q, base, phys, pages, phs[n]);
        var s' := LoadHeader(s1, handler, m, base, phs[n]).0;
        MoreHeld(s1, s', m, |s.regions|, phys, phs);
        TouchedTwice(s, s1, s', m);
      } else {
        MoreHeld(s1, s1, m, |s.regions|, phys, phs);
      }
    }
  }

  /** Header k, if it is to be loaded at all, loads in the state the headers before it left. */
  predicate LoadsAt(s: State, handler: nat, m: nat, base: nat, phs: seq<Header>, k: nat)
    requires Handles(s) && handler < |s.spaces| && m < |s.spaces| && k < |phs|
  {
    phs[k].load ==> LoadHeader(LoadAll(s, handler, m, base, phs[..k]).0, handler, m, base, phs[k]).1
  }

  /** Loading the headers succeeds exactly when each of them, one after the other, loads. */
  lemma {:induction false} LoadAllExactly(s: State, handler: nat, m: nat, base: nat, phs: seq<Header>)
    requires Handles(s) && handler < |s.spaces| && m < |s.spaces|
    ensures LoadAll(s, handler, m, base, phs).1
       <==> forall k :: 0 <= k < |phs| ==> LoadsAt(s, handler, m, base, phs, k)
    decreases |phs|
  {
    hide Handles, LoadsAt, LoadAll;
    if phs == [] {
      LoadLast(s, handler, m, base, phs);
    } else {
      var n := |phs| - 1;
      LoadAllExactly(s, handler, m, base, phs[..n]);
      LoadLast(s, handler, m, base, phs);
      forall k | 0 <= k < n
        ensures LoadsAt(s, handler, m, base, phs, k) <==> LoadsAt(s, handler, m, base, phs[..n], k)
      {
        LoadsSame(s, handler, m, base, phs, k);
      }
    }
  }

  lemma LoadLast(s: State, handler: nat, m: nat, base: nat, phs: seq<Header>)
    requires Handles(s) && handler < |s.spaces| && m < |s.spaces|
    ensures LoadAll(s, handler, m, base, phs).1
       <==> || phs == []
            || (LoadAll(s, handler, m, base, phs[..|phs| - 1]).1 && LoadsAt(s, handler, m, base, phs, |phs| - 1))
  {
    hide LoadHeader;
  }

  lemma LoadsSame(s: State, handler: nat, m: nat, base: nat, phs: seq<Header>, k: nat)
    requires Handles(s) && handler < |s.spaces| && m < |s.spaces| && k < |phs| - 1
    ensures LoadsAt(s, handler, m, base, phs, k) <==> LoadsAt(s, handler, m, base, phs[..|phs| - 1], k)
  {
    hide LoadHeader, LoadAll;
    assert phs[..|phs| - 1][..k] == phs[..k];
  }

  lemma NoneHeld(s: State, m: nat, first: nat, phys: nat)
    requires Handles(s) && m < |s.spaces|
    ensures AllHeld(s, m, first, phys, [])
  {
  }

  lemma TouchedTwice(s: State, s1: State, s2: State, m: nat)
    requires Untouched(s, s1, m) && Untouched(s1, s2, m)
    ensures Untouched(s, s2, m)
  {
  }

  lemma MoreHeld(s: State, s': State, m: nat, first: nat, phys: nat, phs: seq<Header>)
    requires phs != [] && Handles(s) && Handles(s') && m < |s.spaces| && Untouched(s, s', m)
    requires AllHeld(s, m, first, phys, phs[..|phs| - 1])
    requires phs[|phs| - 1].load ==> Holds(s', m, RegionOf(first, phs, |phs| - 1), phys, phs[|phs| - 1])
    ensures AllHeld(s', m, first, phys, phs)
  {
    hide Holds;
    var n := |phs| - 1;
    forall k | 0 <= k < |phs| && phs[k].load ensures Holds(s', m, RegionOf(first, phs, k), phys, phs[k]) {
      if k < n {
        assert phs[..n][k] == phs[k] && phs[..n][..k] == phs[..k];
        HoldsStays(s, s', m, RegionOf(first, phs, k), phys, phs[k]);
      }
    }
  }

  /**
   After all headers are loaded, every file byte of a loaded header is found at its virtual address in
   the module's address space, by the list search and by the processor alike, if no other region
   attached there lies on the header's.
   */
  lemma LoadedBytesAreTheModule(s: State, handler: nat, m: nat, q: nat, base: nat, phys: nat, pages: nat,
                                phs: seq<Header>, k: nat, i: nat)
    requires Inv(s) && handler < |s.spaces| && m < |s.spaces| && m != handler
    requires ModuleAt(s, handler, q, base, phys, pages)
    requires forall k :: 0 <= k < |phs| && phs[k].load ==> FileInside(phs[k], pages) && phs[k].vaddr > 0
    requires LoadAll(s, handler, m, base, phs).1 && LoadAll(s, handler, m, base, phs).0.paging.heap <= P.LIMIT
    requires k < |phs| && phs[k].load && i < phs[k].fileSize
    requires var s', r := LoadAll(s, handler, m, base, phs).0, RegionOf(|s.regions|, phs, k);
             r < |s'.regions| ==> Clear(s', m, r) && Low(s'.spaces[m].mapped)
    ensures var s' := LoadAll(s, handler, m, base, phs).0;
            && GetPhysical(s'.spaces[m].mapped, phs[k].vaddr + i) == phys + phs[k].offset + i
            && Agrees(s', m, phs[k].vaddr + i)
  {
    hide ListInv, TreeInv, LoadAll, Agrees, Clear;
    var s', r := LoadAll(s, handler, m, base, phs).0, RegionOf(|s.regions|, phs, k);
    LoadAllHolds(s, handler, m, q, base, phys, pages, phs);
    assert Holds(s', m, r, phys, phs[k]);
    HeldByte(s', m, r, phys, phs[k], i);
  }

  lemma HeldByte(s: State, m: nat, r: nat, phys: nat, ph: Header, i: nat)
    requires Inv(s) && m < |s.spaces| && Holds(s, m, r, phys, ph) && i < ph.fileSize
    requires Clear(s, m, r) && Low(s.spaces[m].mapped)
    ensures GetPhysical(s.spaces[m].mapped, ph.vaddr + i) == phys + ph.offset + i && Agrees(s, m, ph.vaddr + i)
  {
    hide ListInv, TreeInv, Clear, Agrees;
    var k := i / PAGE;
    var held := Consecutive(phys + ph.offset, P.AlignNext(ph.fileSize) / PAGE);
    assert k < |held| && held[k] == phys + ph.offset + k * PAGE && s.regions[r].pages[k] == held[k];
    SeenByte(s, m, r, k, ph.vaddr + i, i % PAGE);
  }
}
