/**
 What growing a region does: pages are only ever appended, other regions are untouched, and each
 page shows up in every address space the region is attached to.
 */
module VmemGrowth {
  import opened Machine
  import opened Vmem
  import opened VmemInvariant
  import opened VmemAgreement
  import P = Paging
  import Pmem

  /** n pages that follow each other physically. */
  function Consecutive(p: nat, n: nat): (r: seq<nat>)
    ensures |r| == n && forall i :: 0 <= i < n ==> r[i] == p + i * PAGE
    decreases n, p
  {
    if n == 0 then [] else [p] + Consecutive(p + PAGE, n - 1)
  }

  /** The same region with more pages, and perhaps another size. */
  predicate Longer(reg: Region, reg': Region) {
    && reg.pages <= reg'.pages && reg'.mappedSize == reg.mappedSize + PAGE * (|reg'.pages| - |reg.pages|)
    && reg' == reg.(pages := reg'.pages, mappedSize := reg'.mappedSize, size := reg'.size)
  }

  /** Only region r changed, and only by appended pages and a new size. */
  predicate OnlyGrew(s: State, s': State, r: nat)
    requires r < |s.regions|
  {
    && |s'.regions| == |s.regions| && |s'.spaces| == |s.spaces|
    && (forall q :: 0 <= q < |s.regions| && q != r ==> s'.regions[q] == s.regions[q])
    && Longer(s.regions[r], s'.regions[r])
    && (forall v :: 0 <= v < |s.spaces| ==>
          s'.spaces[v].regions == s.spaces[v].regions && s'.spaces[v].next == s.spaces[v].next)
  }

  lemma AssocPageGrows(s: State, r: nat, p: nat)
    requires Handles(s) && r < |s.regions| && Distinct(s.regions[r].attached)
    ensures OnlyGrew(s, AssocPage(s, r, p), r)
    ensures AssocPage(s, r, p).regions[r].pages == s.regions[r].pages + [p]
    ensures AssocPage(s, r, p).regions[r].size == s.regions[r].size
  {
    AssocPageEffect(s, r, p);
  }

  lemma MapOneGrows(s: State, r: nat, p: nat)
    requires Handles(s) && r < |s.regions| && Distinct(s.regions[r].attached)
    ensures OnlyGrew(s, MapOne(s, r, p), r)
    ensures MapOne(s, r, p).regions[r].pages == s.regions[r].pages + [p]
    ensures MapOne(s, r, p).regions[r].size == MapOne(s, r, p).regions[r].mappedSize
  {
    hide AssocPage;
    AssocPageGrows(s, r, p);
  }

  lemma GrewTwice(s: State, s1: State, s2: State, r: nat)
    requires r < |s.regions| && OnlyGrew(s, s1, r) && OnlyGrew(s1, s2, r)
    ensures OnlyGrew(s, s2, r)
  {
  }

  /** Mapping appends the physical pages of the given range, one after the other. */
  lemma {:induction false} MapPagesGrows(s: State, r: nat, p: nat, n: nat)
    requires Handles(s) && r < |s.regions| && Distinct(s.regions[r].attached)
    ensures OnlyGrew(s, MapPages(s, r, p, n), r)
    ensures MapPages(s, r, p, n).regions[r].pages == s.regions[r].pages + Consecutive(p, n)
    ensures n > 0 ==> MapPages(s, r, p, n).regions[r].size == MapPages(s, r, p, n).regions[r].mappedSize
    decreases n
  {
    hide MapOne;
    if n == 0 {
      assert s.regions[r].pages + [] == s.regions[r].pages;
    } else {
      MapOneGrows(s, r, p);
      var q, s1 := p + PAGE, MapOne(s, r, p);
      MapPagesGrows(s1, r, q, n - 1);
      GrewTwice(s, s1, MapPages(s, r, p, n), r);
      assert s.regions[r].pages + ([p] + Consecutive(q, n - 1)) == (s.regions[r].pages + [p]) + Consecutive(q, n - 1);
    }
  }

  /** Growing keeps the size and everything but the pages of the region. */
  lemma {:induction false} GrowByGrows(s: State, r: nat, n: nat)
    requires Handles(s) && r < |s.regions| && Distinct(s.regions[r].attached)
    ensures OnlyGrew(s, GrowBy(s, r, n).0, r)
    ensures GrowBy(s, r, n).0.regions[r].size == s.regions[r].size
    decreases n
  {
    hide AssocPage;
    if n > 0 {
      var a := Pmem.Allocate(s.pmem);
      if a.1 != 0 {
        var s0 := s.(pmem := a.0);
        AssocPageGrows(s0, r, a.1);
        GrowByGrows(AssocPage(s0, r, a.1), r, n - 1);
        GrewTwice(s, AssocPage(s0, r, a.1), GrowBy(s, r, n).0, r);
      }
    }
  }

  /** Growing gets every page asked for, or every page there is. */
  lemma {:induction false} GrowByExactly(s: State, r: nat, n: nat)
    requires Handles(s) && r < |s.regions|
    ensures GrowBy(s, r, n).1 <==> n <= |Pmem.FreePages(s.pmem)|
    ensures var free := |Pmem.FreePages(s.pmem)|;
            var got := if n < free then n else free;
            && GrowBy(s, r, n).0.regions[r].mappedSize == s.regions[r].mappedSize + PAGE * got
            && |Pmem.FreePages(GrowBy(s, r, n).0.pmem)| == free - got
    decreases n
  {
    hide AssocPage;
    if n > 0 {
      Pmem.AllocateTakesOne(s.pmem);
      var a := Pmem.Allocate(s.pmem);
      if a.1 != 0 {
        GrowByExactly(AssocPage(s.(pmem := a.0), r, a.1), r, n - 1);
      }
    }
  }

  /**
   A resize succeeds exactly when the new size, in whole pages, is at most what the region has plus
   the free physical pages from 64 MB on. Then the region has the size; otherwise it keeps its size
   and takes all the free pages. Either way no page already mapped is lost.
   */
  lemma ResizeExactly(s: State, r: nat, newSize: nat)
    requires Handles(s) && r < |s.regions| && Distinct(s.regions[r].attached)
    ensures OnlyGrew(s, Resize(s, r, newSize).0, r)
    ensures var have, free, target := s.regions[r].mappedSize, |Pmem.FreePages(s.pmem)|, P.AlignNext(newSize);
            var (s', ok) := Resize(s, r, newSize);
            && (ok <==> target <= have + PAGE * free)
            && s'.regions[r].size == (if ok then newSize else s.regions[r].size)
            && s'.regions[r].mappedSize
               == if !ok then have + PAGE * free else if target < have then have else target
  {
    hide GrowBy, OnlyGrew, Pmem.FreePages;
    var have, free, target := s.regions[r].mappedSize, |Pmem.FreePages(s.pmem)|, P.AlignNext(newSize);
    GrewAndSized(s, s, r, newSize);
    if target >= have {
      var n := (target - have) / PAGE;
      WholePages(have, target, n);
      GrowByGrows(s, r, n);
      GrowByExactly(s, r, n);
      GrewAndSized(s, GrowBy(s, r, n).0, r, newSize);
      if n > free {
        MissesTarget(have, free, newSize);
      }
    }
  }

  lemma GrewAndSized(s: State, s1: State, r: nat, size: nat)
    requires Handles(s) && Handles(s1) && r < |s.regions|
    requires s1 == s || OnlyGrew(s, s1, r)
    ensures r < |s1.regions| && OnlyGrew(s, s1, r) && OnlyGrew(s, SetSize(s1, r, size), r)
  {
  }

  lemma WholePages(have: nat, target: nat, n: nat)
    requires have % PAGE == 0 && target % PAGE == 0 && have <= target && n == (target - have) / PAGE
    ensures have + PAGE * n == target
  {
  }

  /** Sizes are whole pages, so a region that missed its target is too small for the new size. */
  lemma MissesTarget(have: nat, free: nat, newSize: nat)
    requires have % PAGE == 0 && have + PAGE * free < P.AlignNext(newSize)
    ensures have + PAGE * free < newSize
  {
    AlignedSum(have, free);
  }

  // ---------------------------------------------------------------- what address spaces see

  /**
   Page k of a region is what an address space attached to it finds at start + 4096 k, in both ways of
   looking, if no other region attached there lies on this one.
   */
  lemma PageIsSeen(s: State, v: nat, r: nat, k: nat)
    requires Inv(s) && v < |s.spaces| && r < |s.regions| && r in s.spaces[v].regions && k < |s.regions[r].pages|
    requires Clear(s, v, r) && Low(s.spaces[v].mapped)
    ensures GetPhysical(s.spaces[v].mapped, s.regions[r].start + k * PAGE) == s.regions[r].pages[k]
    ensures P.Walk(s.paging, v, s.regions[r].start + k * PAGE) == Some(s.regions[r].pages[k])
  {
    hide ListInv, TreeInv, P.Walk, P.WalkDigits, Clear;
    var x := RegionPageAligned(s, r, k);
    SeenByte(s, v, r, k, x, 0);
  }

  lemma RegionPageAligned(s: State, r: nat, k: nat) returns (x: nat)
    requires Inv(s) && r < |s.regions| && k < |s.regions[r].pages|
    ensures x == s.regions[r].start + k * PAGE && x % PAGE == 0 && PageOk(s.regions[r].pages[k])
  {
    assert RegionOk(s.regions[r]);
    AlignedSum(s.regions[r].start, k);
    x := s.regions[r].start + k * PAGE;
  }

  /** Search and walk find every byte of every page of an attached region that is clear of the others. */
  lemma SeenByte(s: State, v: nat, r: nat, k: nat, x: nat, off: nat)
    requires Inv(s) && v < |s.spaces| && r < |s.regions| && r in s.spaces[v].regions && k < |s.regions[r].pages|
    requires Clear(s, v, r) && Low(s.spaces[v].mapped) && off < PAGE && x == s.regions[r].start + k * PAGE + off
    ensures x < P.CANONICAL && GetPhysical(s.spaces[v].mapped, x) == s.regions[r].pages[k] + off
    ensures Agrees(s, v, x)
  {
    hide TreeInv, ListInv, Clear, Agrees;
    var i := RegionEntry(s, v, r, k);
    var base := RegionPageAligned(s, r, k);
    assert EntryLow(s.spaces[v].mapped[i]);
    AlignedDown(base, off, x);
    ListedOnce(s, v, i);
    SearchFindsFirst(s.spaces[v].mapped, x, i);
    AgreesAtListed(s, v, x, i, i);
  }

  lemma ListedOnce(s: State, v: nat, i: nat)
    requires Handles(s) && ListInv(s) && v < |s.spaces| && i < |s.spaces[v].mapped|
    requires s.spaces[v].mapped[i].region < |s.regions| && Clear(s, v, s.spaces[v].mapped[i].region)
    ensures IsFirst(s.spaces[v].mapped, i) && IsLast(s.spaces[v].mapped, i)
  {
    hide ListInv, Clear;
    var mapped := s.spaces[v].mapped;
    forall j | 0 <= j < |mapped| && j != i ensures mapped[j].v != mapped[i].v {
      ClearListsOnce(s, v, i, j);
    }
  }

  lemma AlignedDown(base: nat, off: nat, x: nat)
    requires base % PAGE == 0 && off < PAGE && x == base + off && base < P.CANONICAL
    ensures P.MemAlign(x) == base && x < P.CANONICAL && x % PAGE == off
  {
  }

  /**
   Growing a region shows up in every address space that has it and in which no other region lies on
   it: old pages unchanged, new pages mapped.
   */
  lemma ResizeReachesEverySpace(s: State, r: nat, newSize: nat, v: nat, k: nat)
    requires Inv(s) && r < |s.regions| && Resize(s, r, newSize).0.paging.heap <= P.LIMIT
    requires v < |s.spaces| && v in s.regions[r].attached
    requires var s' := Resize(s, r, newSize).0;
             k < |s'.regions[r].pages| && Clear(s', v, r) && Low(s'.spaces[v].mapped)
    ensures var s' := Resize(s, r, newSize).0;
            && P.Walk(s'.paging, v, s.regions[r].start + k * PAGE) == Some(s'.regions[r].pages[k])
            && GetPhysical(s'.spaces[v].mapped, s.regions[r].start + k * PAGE) == s'.regions[r].pages[k]
            && (k < |s.regions[r].pages| ==> s'.regions[r].pages[k] == s.regions[r].pages[k])
  {
    hide TreeInv, Resize, P.Walk;
    ResizeKeeps(s, r, newSize);
    assert Symmetric(s, v, r) && RegionOk(s.regions[r]);
    ResizeExactly(s, r, newSize);
    PageIsSeen(Resize(s, r, newSize).0, v, r, k);
  }

  // ---------------------------------------------------------------- physical page 0

  /**
   Attaching lists all pages of a region exactly when none of them is physical page 0: the list
   iteration takes an address of 0 for the end of the list.
   */
  lemma AttachIsCompleteWithoutPageZero(s: State, v: nat, r: nat)
    requires Handles(s) && v < |s.spaces| && r < |s.regions| && r !in s.spaces[v].regions
    ensures Attach(s, v, r).spaces[v].mapped == s.spaces[v].mapped + Entries(s.regions[r].start, s.regions[r].pages, r)
       <==> forall k :: 0 <= k < |s.regions[r].pages| ==> s.regions[r].pages[k] != 0
  {
    var reg := s.regions[r];
    var n := BeforeZero(reg.pages);
    AttachPagesEffect(Link(s, v, r), v, r, reg.start, reg.pages[..n]);
    if n == |reg.pages| {
      assert reg.pages[..n] == reg.pages;
    } else {
      assert |Attach(s, v, r).spaces[v].mapped| == |s.spaces[v].mapped| + n;
    }
  }

  // ---------------------------------------------------------------- automatic placement

  lemma AttachFrame(s: State, v: nat, r: nat)
    requires Handles(s) && v < |s.spaces| && r < |s.regions|
    ensures r in Attach(s, v, r).spaces[v].regions
    ensures s.spaces[v].regions <= Attach(s, v, r).spaces[v].regions
    ensures Attach(s, v, r).spaces[v].next == s.spaces[v].next
    ensures forall q :: 0 <= q < |s.regions| ==>
              Attach(s, v, r).regions[q] == s.regions[q].(attached := Attach(s, v, r).regions[q].attached)
  {
    if r !in s.spaces[v].regions {
      AttachEffect(s, v, r);
    }
  }

  lemma {:induction false} AttachAllFrame(s: State, v: nat, rs: seq<nat>)
    requires Handles(s) && v < |s.spaces| && forall k :: 0 <= k < |rs| ==> rs[k] < |s.regions|
    ensures forall r :: r in rs ==> r in AttachAll(s, v, rs).spaces[v].regions
    ensures AttachAll(s, v, rs).spaces[v].next == s.spaces[v].next
    ensures forall q :: 0 <= q < |s.regions| ==>
              AttachAll(s, v, rs).regions[q] == s.regions[q].(attached := AttachAll(s, v, rs).regions[q].attached)
    decreases |rs|
  {
    hide Attach;
    if rs != [] {
      var n := |rs| - 1;
      AttachAllFrame(s, v, rs[..n]);
      AttachFrame(AttachAll(s, v, rs[..n]), v, rs[n]);
      assert forall r :: r in rs <==> r in rs[..n] || r == rs[n];
    }
  }

  /** Where vmem_region_create puts a region. */
  function StartOf(s: State, v: nat, start: nat): nat
    requires v < |s.spaces|
  {
    if start == 0 then s.spaces[v].next else start
  }

  /**
   vmem_region_create succeeds exactly when the address is aligned and enough physical pages are
   free. Then the new region is there with the size asked for, attached beside the others. When only
   memory is lacking, the region is there as well, attached, with size 0 and all the pages there
   were: reporting a failure does not take it back. The address the next automatic placement will use
   moves on by 1 MB if this one was automatic, and in no other address space.
   */
  lemma CreateExactly(s: State, v: nat, start: nat, size: nat, user: bool, writable: bool, executable: bool)
    requires Handles(s) && v < |s.spaces|
    ensures var (s', created) := RegionCreate(s, v, start, size, user, writable, executable);
            var r, free := |s.regions|, |Pmem.FreePages(s.pmem)|;
            && (created.Some? <==> StartOf(s, v, start) % PAGE == 0 && P.AlignNext(size) <= PAGE * free)
            && (StartOf(s, v, start) % PAGE != 0 ==>
                  s'.regions == s.regions && s'.spaces[v].regions == s.spaces[v].regions && s'.pmem == s.pmem)
            && (StartOf(s, v, start) % PAGE == 0 ==>
                  && |s'.regions| == r + 1 && (forall q :: 0 <= q < r ==> s'.regions[q] == s.regions[q])
                  && s'.spaces[v].regions == s.spaces[v].regions + [r]
                  && s'.regions[r].start == StartOf(s, v, start) && s'.regions[r].attached == [v]
                  && s'.regions[r].size == (if created.Some? then size else 0)
                  && s'.regions[r].mappedSize == PAGE * |s'.regions[r].pages|
                  && s'.regions[r].mappedSize == if created.Some? then P.AlignNext(size) else PAGE * free)
            && (created.Some? ==> created.value == r)
            && (StartOf(s, v, start) % PAGE == 0 ==> var reg := s'.regions[r];
                  reg.user == user && reg.writable == writable && reg.executable == executable)
            && s'.spaces[v].next == s.spaces[v].next + (if start == 0 then INCREMENT else 0)
            && (forall u :: 0 <= u < |s.spaces| && u != v ==>
                  s'.spaces[u].next == s.spaces[u].next && s'.spaces[u].regions == s.spaces[u].regions)
  {
    hide Attach, Resize;
    var r := |s.regions|;
    var (s0, st) := PickStart(s, v, start);
    if st % PAGE == 0 {
      var s1 := NewRegion(s0, st, user, writable, executable);
      EmptyAttach(s1, v, r);
      var s2 := Attach(s1, v, r);
      ResizeExactly(s2, r, size);
    }
  }

  /** Attaching a region without pages only links it. */
  lemma EmptyAttach(s: State, v: nat, r: nat)
    requires Handles(s) && v < |s.spaces| && r < |s.regions| && r !in s.spaces[v].regions && s.regions[r].pages == []
    ensures Attach(s, v, r).regions == s.regions[r := s.regions[r].(attached := s.regions[r].attached + [v])]
    ensures Attach(s, v, r).spaces[v] == s.spaces[v].(regions := s.spaces[v].regions + [r])
    ensures forall u :: 0 <= u < |s.spaces| && u != v ==> Attach(s, v, r).spaces[u] == s.spaces[u]
    ensures Attach(s, v, r).pmem == s.pmem
  {
    AttachEffect(s, v, r);
    assert s.spaces[v].mapped + [] == s.spaces[v].mapped;
  }

  lemma FirstSpace(heap: nat, pmem: seq<Pmem.PageType>) returns (s: State)
    ensures s == Run(heap, pmem, [DoVmemCreate]) && s.pmem == pmem
    ensures s.regions == [] && s.spaces == [Space([], [], INCREMENT)]
  {
    s := Run(heap, pmem, [DoVmemCreate]);
    assert [DoVmemCreate] == [] + [DoVmemCreate] && Run(heap, pmem, []) == Initial(heap, pmem);
    RunSnoc(heap, pmem, [], DoVmemCreate);
  }

  /** A machine without free pages: the call fails, and the region it made stays attached. */
  lemma FailedCreateStays(heap: nat)
    ensures var s := Run(heap, [], [DoVmemCreate]);
            && |s.spaces| == 1 && s.regions == []
            && var (s', created) := RegionCreate(s, 0, PAGE, PAGE, true, true, true);
               created.None? && |s'.regions| == 1 && s'.spaces[0].regions == [0] && s'.regions[0].attached == [0]
  {
    hide RegionCreate;
    var s := FirstSpace(heap, []);
    assert Pmem.FreePages(s.pmem) == {};
    CreateExactly(s, 0, PAGE, PAGE, true, true, true);
    assert s.spaces[0].regions + [0] == [0];
  }

  /**
   A run in which the kernel maps physical page 0: the next address space is attached to the region
   and does not get the page.
   */
  lemma PageZeroIsNotAttached(heap: nat, pmem: seq<Pmem.PageType>)
    ensures var s := Run(heap, pmem, [DoVmemCreate, DoRegionCreate(0, PAGE, 0, true, true, true),
                                      DoMap(0, 0, PAGE), DoVmemCreate]);
            && |s.spaces| == 2 && |s.regions| == 1 && s.regions[0].pages == [0]
            && s.spaces[1].regions == [0] && s.spaces[1].mapped == [] && !Complete(s, 1, 0)
  {
    hide RegionCreate, MapPages, Attach, Run;
    var create, map0 := DoRegionCreate(0, PAGE, 0, true, true, true), DoMap(0, 0, PAGE);
    var s1 := FirstSpace(heap, pmem);
    RunSnoc(heap, pmem, [DoVmemCreate], create);
    RunSnoc(heap, pmem, [DoVmemCreate, create], map0);
    RunSnoc(heap, pmem, [DoVmemCreate, create, map0], DoVmemCreate);
    assert [DoVmemCreate, create] == [DoVmemCreate] + [create];
    assert [DoVmemCreate, create, map0] == [DoVmemCreate, create] + [map0];
    assert [DoVmemCreate, create, map0, DoVmemCreate] == [DoVmemCreate, create, map0] + [DoVmemCreate];
    assert P.AlignNext(0) == 0;
    CreateExactly(s1, 0, PAGE, 0, true, true, true);
    var s2 := RegionCreate(s1, 0, PAGE, 0, true, true, true).0;
    assert s2.regions[0].pages == [] && s2.spaces[0].regions == [0];
    MapPagesGrows(s2, 0, 0, 1);
    var s3 := MapPages(s2, 0, 0, 1);
    assert s3.regions[0].pages == [0];
    SecondSpace(s3);
  }

  lemma SecondSpace(s: State)
    requires Handles(s) && |s.spaces| == 1 && |s.regions| == 1
    requires s.spaces[0].regions == [0] && s.regions[0].pages == [0]
    ensures var s' := VmemCreate(s);
            && |s'.spaces| == 2 && |s'.regions| == 1 && s'.regions[0].pages == [0]
            && s'.spaces[1].regions == [0] && s'.spaces[1].mapped == [] && !Complete(s', 1, 0)
  {
    hide Attach;
    var s1 := NewSpace(s);
    assert [0][..0] == [] && AttachAll(s1, 1, []) == s1;
    assert AttachAll(s1, 1, [0]) == Attach(s1, 1, 0);
    AttachEffect(s1, 1, 0);
    assert BeforeZero([0]) == 0;
    assert s1.spaces[1].regions + [0] == [0];
  }

  /** The pages asked for at a start address meet those of a region. */
  predicate Meets(reg: Region, start: nat, bytes: nat) {
    reg.mappedSize > 0 && bytes > 0 && reg.start < start + bytes && start < reg.start + reg.mappedSize
  }

  /**
   A successful creation, at an address given or picked automatically, keeps an address space free
   of overlap exactly when no attached region meets the range asked for: nothing else is checked.
   */
  lemma CreateOverlapsExactly(s: State, v: nat, start: nat, size: nat, user: bool, writable: bool, executable: bool)
    requires Handles(s) && v < |s.spaces| && NoOverlap(s, v)
    requires RegionCreate(s, v, start, size, user, writable, executable).1.Some?
    ensures NoOverlap(RegionCreate(s, v, start, size, user, writable, executable).0, v)
       <==> forall q :: q in s.spaces[v].regions ==> !Meets(s.regions[q], StartOf(s, v, start), P.AlignNext(size))
  {
    hide RegionCreate;
    CreateExactly(s, v, start, size, user, writable, executable);
    var s' := RegionCreate(s, v, start, size, user, writable, executable).0;
    var r, rs, rs' := |s.regions|, s.spaces[v].regions, s'.spaces[v].regions;
    var n := |rs|;
    assert rs'[n] == r && forall i :: 0 <= i < n ==> rs'[i] == rs[i];
    forall i | 0 <= i < n
      ensures Overlap(s'.regions[rs'[i]], s'.regions[rs'[n]])
         <==> Meets(s.regions[rs[i]], StartOf(s, v, start), P.AlignNext(size))
    {
    }
    if NoOverlap(s', v) {
      forall q | q in rs ensures !Meets(s.regions[q], StartOf(s, v, start), P.AlignNext(size)) {
        var i :| 0 <= i < n && rs[i] == q;
        assert !Overlap(s'.regions[rs'[i]], s'.regions[rs'[n]]);
      }
    }
    if forall q :: q in rs ==> !Meets(s.regions[q], StartOf(s, v, start), P.AlignNext(size)) {
      forall i, j | 0 <= i < j < |rs'| ensures !Overlap(s'.regions[rs'[i]], s'.regions[rs'[j]]) {
        assert j < n ==> !Overlap(s.regions[rs[i]], s.regions[rs[j]]);
        assert j == n ==> rs[i] in rs;
      }
    }
  }

  /**
   Growing a region keeps an address space free of overlap exactly when no other region attached there
   meets the range it then has. Neither mapping nor resizing checks it.
   */
  lemma GrowthOverlapsExactly(s: State, s': State, r: nat, v: nat)
    requires Handles(s) && Handles(s') && v < |s.spaces| && r in s.spaces[v].regions && r < |s.regions|
    requires OnlyGrew(s, s', r) && NoOverlap(s, v) && Distinct(s.spaces[v].regions)
    ensures NoOverlap(s', v) <==> forall q :: q in s.spaces[v].regions && q != r ==>
              !Meets(s.regions[q], s.regions[r].start, s'.regions[r].mappedSize)
  {
    var rs := s.spaces[v].regions;
    if NoOverlap(s', v) {
      NoOverlapIsClear(s', v, r);
    }
    if forall q :: q in rs && q != r ==> !Meets(s.regions[q], s.regions[r].start, s'.regions[r].mappedSize) {
      forall i, j | 0 <= i < j < |rs| ensures !Overlap(s'.regions[rs[i]], s'.regions[rs[j]]) {
        assert rs[i] in rs && rs[j] in rs && rs[i] != rs[j] && !Overlap(s.regions[rs[i]], s.regions[rs[j]]);
      }
    }
  }

  /** The bytes a region has after a resize: what it has, what is asked for, or all there is. */
  function ResizedTo(s: State, r: nat, newSize: nat): nat
    requires r < |s.regions|
  {
    var have, free, target := s.regions[r].mappedSize, |Pmem.FreePages(s.pmem)|, P.AlignNext(newSize);
    if target < have then have else if target <= have + PAGE * free then target else have + PAGE * free
  }

  /** For a resize the range is known before the call: the new size in whole pages, as far as memory goes. */
  lemma ResizeOverlapsExactly(s: State, r: nat, newSize: nat, v: nat)
    requires Inv(s, true) && v < |s.spaces| && r < |s.regions| && r in s.spaces[v].regions && NoOverlap(s, v)
    ensures NoOverlap(Resize(s, r, newSize).0, v) <==> forall q :: q in s.spaces[v].regions && q != r ==>
              !Meets(s.regions[q], s.regions[r].start, ResizedTo(s, r, newSize))
  {
    hide Resize, TreeInv;
    assert RegionOk(s.regions[r], true) && SpaceOk(s.spaces[v], |s.regions|);
    ResizeExactly(s, r, newSize);
    GrowthOverlapsExactly(s, Resize(s, r, newSize).0, r, v);
  }

  /** For a mapping it is what the region has and the range that is mapped. */
  lemma MappingOverlapsExactly(s: State, r: nat, p: nat, size: nat, v: nat)
    requires Inv(s, true) && v < |s.spaces| && r < |s.regions| && r in s.spaces[v].regions && NoOverlap(s, v)
    requires p % PAGE == 0 && size % PAGE == 0
    ensures NoOverlap(MapPhysical(s, r, p, size).0, v) <==> forall q :: q in s.spaces[v].regions && q != r ==>
              !Meets(s.regions[q], s.regions[r].start, s.regions[r].mappedSize + size)
  {
    hide MapPages, TreeInv;
    assert RegionOk(s.regions[r], true) && SpaceOk(s.spaces[v], |s.regions|);
    MapPagesGrows(s, r, p, size / PAGE);
    GrowthOverlapsExactly(s, MapPages(s, r, p, size / PAGE), r, v);
  }

  /**
   Automatic placement does overlap: each address space counts from the same first address, and gets
   the kernel's regions too. Once the kernel has a non-empty region at that address, the first
   automatically placed region of every new address space lies on top of it.
   */
  lemma AutomaticPlacementOverlaps(s: State, r: nat, size: nat, user: bool, writable: bool, executable: bool)
    requires Handles(s) && |s.spaces| > 0 && r < |s.regions| && r in s.spaces[0].regions
    requires s.regions[r].start == INCREMENT && s.regions[r].mappedSize > 0 && size > 0
    requires RegionCreate(VmemCreate(s), |s.spaces|, 0, size, user, writable, executable).1.Some?
    ensures !NoOverlap(RegionCreate(VmemCreate(s), |s.spaces|, 0, size, user, writable, executable).0, |s.spaces|)
  {
    hide Attach, AttachAll, RegionCreate;
    var v, s1 := |s.spaces|, VmemCreate(s);
    AttachAllFrame(NewSpace(s), v, s.spaces[0].regions);
    CreateExactly(s1, v, 0, size, user, writable, executable);
    var s2 := RegionCreate(s1, v, 0, size, user, writable, executable).0;
    var rs, q := s2.spaces[v].regions, |s1.regions|;
    var i :| 0 <= i < |s1.spaces[v].regions| && s1.spaces[v].regions[i] == r;
    assert rs[i] == r && rs[|rs| - 1] == q;
    assert Overlap(s2.regions[r], s2.regions[q]);
  }
}
