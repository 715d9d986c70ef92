/**
 Whose physical pages are whose: over every run that maps by hand only pages the allocator does not
 own, a page of the allocator is in at most one region, and two address spaces that see it see it
 through that region.
 */
module VmemIsolation {
  import opened Machine
  import opened Vmem
  import opened VmemInvariant
  import opened VmemAgreement
  import opened VmemGrowth
  import P = Paging
  import Pmem

  /** A page of physical memory that the allocator may hand out or has handed out: none below 64 MB. */
  predicate Managed(pmem: seq<Pmem.PageType>, p: nat) {
    p % PAGE == 0 && Pmem.FIRST <= p / PAGE < |pmem| && pmem[p / PAGE] != Pmem.System
  }

  /** These are exactly the pages that some run of the allocator hands out. */
  lemma ManagedExactly(pmem: seq<Pmem.PageType>, p: nat)
    requires p < |pmem|
    ensures Managed(pmem, p * PAGE) <==> Pmem.EverHandedOut(pmem, p)
  {
    Pmem.EverHandedOutExactly(pmem, p);
  }

  predicate Holds(regions: seq<Region>, r: int, k: int) {
    0 <= r < |regions| && 0 <= k < |regions[r].pages|
  }

  /** Every managed page in a region is in use. */
  ghost predicate InUse(regions: seq<Region>, pmem: seq<Pmem.PageType>) {
    forall r, k :: Holds(regions, r, k) && Managed(pmem, regions[r].pages[k]) ==>
      pmem[regions[r].pages[k] / PAGE] != Pmem.Free
  }

  /** No managed page is in two regions, or twice in one. */
  ghost predicate Once(regions: seq<Region>, pmem: seq<Pmem.PageType>) {
    forall r, k, q, l :: Holds(regions, r, k) && Holds(regions, q, l) && Managed(pmem, regions[r].pages[k]) ==>
      regions[r].pages[k] == regions[q].pages[l] ==> r == q && k == l
  }

  ghost predicate Isolated(s: State) {
    InUse(s.regions, s.pmem) && Once(s.regions, s.pmem)
  }

  /** The regions have the same pages; there may be new, empty regions. */
  ghost predicate SamePages(s: State, s': State) {
    && s'.pmem == s.pmem && |s.regions| <= |s'.regions|
    && (forall r :: 0 <= r < |s.regions| ==> s'.regions[r].pages == s.regions[r].pages)
    && (forall r :: |s.regions| <= r < |s'.regions| ==> s'.regions[r].pages == [])
  }

  lemma SamePagesIsolated(s: State, s': State)
    requires Isolated(s) && SamePages(s, s')
    ensures Isolated(s')
  {
    forall r, k | Holds(s'.regions, r, k)
      ensures Holds(s.regions, r, k) && s'.regions[r].pages[k] == s.regions[r].pages[k]
    {
    }
  }

  // ---------------------------------------------------------------- growing

  /** Region r got page p at its end. */
  ghost predicate Appended(regions: seq<Region>, regions': seq<Region>, r: nat, p: nat) {
    && r < |regions| == |regions'| && regions'[r].pages == regions[r].pages + [p]
    && forall q :: 0 <= q < |regions| && q != r ==> regions'[q].pages == regions[q].pages
  }

  /** A page just allocated is in no region, so it can join one. */
  lemma AllocatedJoins(s: State, regions': seq<Region>, r: nat)
    requires Isolated(s) && Pmem.Allocate(s.pmem).1 != 0
    requires Appended(s.regions, regions', r, Pmem.Allocate(s.pmem).1)
    ensures InUse(regions', Pmem.Allocate(s.pmem).0) && Once(regions', Pmem.Allocate(s.pmem).0)
  {
    Pmem.AllocateExact(s.pmem);
    var (pmem', p) := Pmem.Allocate(s.pmem);
    var n := |s.regions[r].pages|;
    forall q, k | Holds(s.regions, q, k) ensures s.regions[q].pages[k] != p {
      assert Managed(s.pmem, p);
    }
    forall q, k | Holds(regions', q, k) && !(q == r && k == n)
      ensures Holds(s.regions, q, k) && regions'[q].pages[k] == s.regions[q].pages[k]
    {
    }
    assert forall x :: Managed(pmem', x) ==> Managed(s.pmem, x);
  }

  lemma {:induction false} GrowByIsolates(s: State, r: nat, n: nat)
    requires Handles(s) && r < |s.regions| && Distinct(s.regions[r].attached) && Isolated(s)
    ensures Isolated(GrowBy(s, r, n).0)
    decreases n
  {
    hide AssocPage, Isolated;
    if n > 0 {
      var a := Pmem.Allocate(s.pmem);
      Pmem.AllocateTakesOne(s.pmem);
      if a.1 != 0 {
        var s1 := AssocPage(s.(pmem := a.0), r, a.1);
        AssocPageEffect(s.(pmem := a.0), r, a.1);
        OneMorePage(s, s1, r);
        GrowByIsolates(s1, r, n - 1);
      }
    }
  }

  lemma OneMorePage(s: State, s1: State, r: nat)
    requires Isolated(s) && r < |s.regions| && Pmem.Allocate(s.pmem).1 != 0
    requires Appended(s.regions, s1.regions, r, Pmem.Allocate(s.pmem).1) && s1.pmem == Pmem.Allocate(s.pmem).0
    ensures Isolated(s1)
  {
    AllocatedJoins(s, s1.regions, r);
  }

  lemma ResizeIsolates(s: State, r: nat, size: nat)
    requires Handles(s) && r < |s.regions| && Distinct(s.regions[r].attached) && Isolated(s)
    ensures Isolated(Resize(s, r, size).0)
  {
    hide GrowBy, Isolated;
    var target, have := P.AlignNext(size), s.regions[r].mappedSize;
    var g := if target < have then s else GrowBy(s, r, (target - have) / PAGE).0;
    if target >= have {
      GrowByIsolates(s, r, (target - have) / PAGE);
    }
    SamePagesIsolated(g, Resize(s, r, size).0);
  }

  // ---------------------------------------------------------------- creating and attaching

  lemma AttachSamePages(s: State, v: nat, r: nat)
    requires Handles(s) && v < |s.spaces| && r < |s.regions|
    ensures SamePages(s, Attach(s, v, r))
  {
    if r !in s.spaces[v].regions {
      AttachEffect(s, v, r);
    }
  }

  lemma {:induction false} AttachAllSamePages(s: State, v: nat, rs: seq<nat>)
    requires Handles(s) && v < |s.spaces| && forall k :: 0 <= k < |rs| ==> rs[k] < |s.regions|
    ensures SamePages(s, AttachAll(s, v, rs))
    decreases |rs|
  {
    hide Attach;
    if rs != [] {
      var n := |rs| - 1;
      AttachAllSamePages(s, v, rs[..n]);
      AttachSamePages(AttachAll(s, v, rs[..n]), v, rs[n]);
    }
  }

  lemma CreateIsolates(s: State, v: nat, start: nat, size: nat, user: bool, writable: bool, executable: bool)
    requires Handles(s) && v < |s.spaces| && Isolated(s)
    ensures Isolated(RegionCreate(s, v, start, size, user, writable, executable).0)
  {
    hide Attach, Resize, Isolated;
    var r := |s.regions|;
    var (s0, st) := PickStart(s, v, start);
    SamePagesIsolated(s, s0);
    if st % PAGE == 0 {
      var s1 := NewRegion(s0, st, user, writable, executable);
      SamePagesIsolated(s0, s1);
      EmptyAttach(s1, v, r);
      var s2 := Attach(s1, v, r);
      SamePagesIsolated(s1, s2);
      ResizeIsolates(s2, r, size);
      var s3 := Resize(s2, r, size).0;
      SamePagesIsolated(s3, s3.(paging := P.Bump(s3.paging, 32)));
    }
  }

  // ---------------------------------------------------------------- mapping by hand

  /** The range holds no page the allocator owns. */
  ghost predicate NotManaged(pmem: seq<Pmem.PageType>, p: nat, n: nat) {
    forall i :: 0 <= i < n ==> !Managed(pmem, p + i * PAGE)
  }

  lemma MapPagesIsolates(s: State, r: nat, p: nat, n: nat)
    requires Handles(s) && r < |s.regions| && Distinct(s.regions[r].attached) && Isolated(s) && NotManaged(s.pmem, p, n)
    ensures Isolated(MapPages(s, r, p, n))
  {
    hide MapPages;
    MapPagesGrows(s, r, p, n);
    var s' := MapPages(s, r, p, n);
    var m := |s.regions[r].pages|;
    forall q, k | Holds(s'.regions, q, k)
      ensures if q == r && k >= m then !Managed(s.pmem, s'.regions[q].pages[k])
              else Holds(s.regions, q, k) && s'.regions[q].pages[k] == s.regions[q].pages[k]
    {
    }
  }

  // ---------------------------------------------------------------- whole runs

  predicate HeldPage(regions: seq<Region>, p: nat) {
    exists r :: 0 <= r < |regions| && p in regions[r].pages
  }

  /** Maps only what the allocator does not own, and releases only what no region holds. */
  ghost predicate Careful(s: State, op: Op) {
    match op
    case DoMap(_, p, size) => NotManaged(s.pmem, p, size / PAGE)
    case DoRelease(p) => Managed(s.pmem, p) ==> !HeldPage(s.regions, p)
    case _ => true
  }

  ghost predicate AllCareful(heap: nat, pmem: seq<Pmem.PageType>, ops: seq<Op>) {
    forall i :: 0 <= i < |ops| ==> Careful(Run(heap, pmem, ops[..i]), ops[i])
  }

  lemma ReleaseIsolates(s: State, p: nat)
    requires Isolated(s) && (Managed(s.pmem, p) ==> !HeldPage(s.regions, p))
    ensures Isolated(s.(pmem := Pmem.Release(s.pmem, p)))
  {
    var pmem' := Pmem.Release(s.pmem, p);
    assert forall x :: Managed(pmem', x) <==> Managed(s.pmem, x);
    forall r, k | Holds(s.regions, r, k) && Managed(pmem', s.regions[r].pages[k])
      ensures pmem'[s.regions[r].pages[k] / PAGE] != Pmem.Free
    {
      assert s.regions[r].pages[k] in s.regions[r].pages;
      assert Managed(s.pmem, p) ==> s.regions[r].pages[k] != p;
    }
  }

  lemma StepIsolates(s: State, op: Op)
    requires Inv(s, true) && Isolated(s) && Careful(s, op)
    ensures Isolated(Step(s, op))
  {
    hide Isolated, ListInv, TreeInv, Attach, AttachAll, MapPages, Resize, RegionCreate;
    match op
    case DoVmemCreate =>
      SamePagesIsolated(s, NewSpace(s));
      if |s.spaces| > 0 {
        AttachAllSamePages(NewSpace(s), |s.spaces|, s.spaces[0].regions);
        SamePagesIsolated(NewSpace(s), VmemCreate(s));
      }
    case DoRegionCreate(v, start, size, user, writable, executable) =>
      if v < |s.spaces| { CreateIsolates(s, v, start, size, user, writable, executable); }
    case DoAttach(v, r) =>
      if v < |s.spaces| && r < |s.regions| {
        AttachSamePages(s, v, r);
        SamePagesIsolated(s, Attach(s, v, r));
      }
    case DoMap(r, p, size) =>
      if r < |s.regions| && p % PAGE == 0 && size % PAGE == 0 {
        AttachedOnce(s, r);
        MapPagesIsolates(s, r, p, size / PAGE);
      }
    case DoResize(r, size) =>
      if r < |s.regions| {
        AttachedOnce(s, r);
        ResizeIsolates(s, r, size);
      }
    case DoRelease(p) => ReleaseIsolates(s, p);
    case DoKalloc(bytes) => SamePagesIsolated(s, Step(s, op));
  }

  lemma AttachedOnce(s: State, r: nat)
    requires Inv(s, true) && r < |s.regions|
    ensures Distinct(s.regions[r].attached)
  {
    assert RegionOk(s.regions[r], true);
  }

  /** After every careful run, no page of the allocator is in two regions, and none in a region is free. */
  lemma {:induction false} RunIsolates(heap: nat, pmem: seq<Pmem.PageType>, ops: seq<Op>)
    requires AllCareful(heap, pmem, ops) && Run(heap, pmem, ops).paging.heap <= P.LIMIT
    ensures Isolated(Run(heap, pmem, ops))
    decreases |ops|
  {
    hide Isolated, Inv, AllCareful;
    if ops == [] {
      NothingHeld(Initial(heap, pmem));
    } else {
      var n := |ops| - 1;
      CarefulPrefix(heap, pmem, ops);
      RunIsolates(heap, pmem, ops[..n]);
      RunKeepsInv(heap, pmem, ops[..n], true);
      StepIsolates(Run(heap, pmem, ops[..n]), ops[n]);
    }
  }

  lemma CarefulPrefix(heap: nat, pmem: seq<Pmem.PageType>, ops: seq<Op>)
    requires ops != [] && AllCareful(heap, pmem, ops)
    ensures var n := |ops| - 1; AllCareful(heap, pmem, ops[..n]) && Careful(Run(heap, pmem, ops[..n]), ops[n])
  {
    hide Run, Careful;
    var n := |ops| - 1;
    forall i | 0 <= i < n ensures Careful(Run(heap, pmem, ops[..n][..i]), ops[..n][i]) {
      assert ops[..n][..i] == ops[..i];
    }
  }

  lemma NothingHeld(s: State)
    requires s.regions == []
    ensures Isolated(s)
  {
  }

  /**
   Care is needed: when a region holds the page the allocator will hand out next, mapped there by
   hand, growing another region by a page puts it into both.
   */
  lemma MappedPageIsSharedNext(s: State, q: nat, k: nat, r: nat)
    requires Handles(s) && r < |s.regions| && q != r && Holds(s.regions, q, k) && Distinct(s.regions[r].attached)
    requires Pmem.Allocate(s.pmem).1 == s.regions[q].pages[k] != 0
    ensures !Isolated(GrowBy(s, r, 1).0)
  {
    hide AssocPage;
    var (pmem', p) := Pmem.Allocate(s.pmem);
    Pmem.AllocateExact(s.pmem);
    var s0 := s.(pmem := pmem');
    AssocPageEffect(s0, r, p);
    var s' := AssocPage(s0, r, p);
    assert GrowBy(s, r, 1).0 == s' by {
      assert GrowBy(s', r, 0) == (s', true);
    }
    assert Holds(s'.regions, q, k) && Holds(s'.regions, r, |s.regions[r].pages|) && Managed(s'.pmem, p);
  }

  // ---------------------------------------------------------------- a condition on the calls alone

  /** Which pages the allocator owns does not change while regions grow. */
  ghost predicate SameOwner(pmem: seq<Pmem.PageType>, pmem': seq<Pmem.PageType>) {
    forall p :: Managed(pmem, p) <==> Managed(pmem', p)
  }

  lemma AllocateSameOwner(pmem: seq<Pmem.PageType>)
    ensures SameOwner(pmem, Pmem.Allocate(pmem).0)
  {
    Pmem.AllocateExact(pmem);
  }

  lemma {:induction false} GrowBySameOwner(s: State, r: nat, n: nat)
    requires Handles(s) && r < |s.regions|
    ensures SameOwner(s.pmem, GrowBy(s, r, n).0.pmem)
    decreases n
  {
    hide AssocPage;
    if n > 0 {
      var a := Pmem.Allocate(s.pmem);
      AllocateSameOwner(s.pmem);
      if a.1 != 0 {
        GrowBySameOwner(AssocPage(s.(pmem := a.0), r, a.1), r, n - 1);
      }
    }
  }

  lemma ResizeSameOwner(s: State, r: nat, size: nat)
    requires Handles(s) && r < |s.regions|
    ensures SameOwner(s.pmem, Resize(s, r, size).0.pmem)
  {
    hide GrowBy;
    var target, have := P.AlignNext(size), s.regions[r].mappedSize;
    if target >= have { GrowBySameOwner(s, r, (target - have) / PAGE); }
  }

  lemma CreateSameOwner(s: State, v: nat, start: nat, size: nat, user: bool, writable: bool, executable: bool)
    requires Handles(s) && v < |s.spaces|
    ensures SameOwner(s.pmem, RegionCreate(s, v, start, size, user, writable, executable).0.pmem)
  {
    hide Attach, Resize;
    var (s0, st) := PickStart(s, v, start);
    if st % PAGE == 0 {
      var s1 := NewRegion(s0, st, user, writable, executable);
      EmptyAttach(s1, v, |s.regions|);
      ResizeSameOwner(Attach(s1, v, |s.regions|), |s.regions|, size);
    }
  }

  lemma StepSameOwner(s: State, op: Op)
    requires Handles(s)
    ensures SameOwner(s.pmem, Step(s, op).pmem)
  {
    hide Attach, AttachAll, MapPages, Resize, RegionCreate;
    match op
    case DoVmemCreate =>
      if |s.spaces| > 0 { AttachAllSamePages(NewSpace(s), |s.spaces|, s.spaces[0].regions); }
    case DoRegionCreate(v, start, size, user, writable, executable) =>
      if v < |s.spaces| { CreateSameOwner(s, v, start, size, user, writable, executable); }
    case DoAttach(v, r) => if v < |s.spaces| && r < |s.regions| { AttachSamePages(s, v, r); }
    case DoMap(_, _, _) =>
    case DoResize(r, size) => if r < |s.regions| { ResizeSameOwner(s, r, size); }
    case DoRelease(_) =>
    case DoKalloc(_) =>
  }

  lemma {:induction false} RunSameOwner(heap: nat, pmem: seq<Pmem.PageType>, ops: seq<Op>)
    ensures SameOwner(pmem, Run(heap, pmem, ops).pmem)
    decreases |ops|
  {
    hide Step;
    if ops != [] {
      RunSameOwner(heap, pmem, ops[..|ops| - 1]);
      StepSameOwner(Run(heap, pmem, ops[..|ops| - 1]), ops[|ops| - 1]);
    }
  }

  /**
   What a caller can check on the calls and the page types at boot: nothing is released, as in the
   kernel, and what is mapped by hand lies below 64 MB, behind the end of memory or is SYSTEM.
   */
  ghost predicate Plain(pmem: seq<Pmem.PageType>, ops: seq<Op>) {
    forall i :: 0 <= i < |ops| ==>
      !ops[i].DoRelease? && (ops[i].DoMap? ==> NotManaged(pmem, ops[i].p, ops[i].size / PAGE))
  }

  /** Such a run is careful. */
  lemma PlainIsCareful(heap: nat, pmem: seq<Pmem.PageType>, ops: seq<Op>)
    requires Plain(pmem, ops)
    ensures AllCareful(heap, pmem, ops)
  {
    hide Run, Managed;
    forall i | 0 <= i < |ops| ensures Careful(Run(heap, pmem, ops[..i]), ops[i]) {
      RunSameOwner(heap, pmem, ops[..i]);
    }
  }

  /** What memory_allocator_initialize does: the kernel image and the kernel data, mapped where they lie. */
  function BootOps(kernel: nat, kernelSize: nat, data: nat, dataSize: nat): seq<Op> {
    [DoVmemCreate,
     DoRegionCreate(0, kernel, 0, false, true, true), DoMap(0, kernel, kernelSize),
     DoRegionCreate(0, data, 0, false, true, true), DoMap(1, data, dataSize)]
  }

  /** Every run that starts with the boot mapping is careful, if kernel and data lie below 64 MB and it goes on so. */
  lemma BootIsCareful(heap: nat, pmem: seq<Pmem.PageType>, kernel: nat, kernelSize: nat, data: nat, dataSize: nat,
                      more: seq<Op>)
    requires kernel + kernelSize <= Pmem.FIRST * PAGE && data + dataSize <= Pmem.FIRST * PAGE && Plain(pmem, more)
    ensures AllCareful(heap, pmem, BootOps(kernel, kernelSize, data, dataSize) + more)
  {
    var boot := BootOps(kernel, kernelSize, data, dataSize);
    LowIsNotManaged(pmem, kernel, kernelSize);
    LowIsNotManaged(pmem, data, dataSize);
    forall i | 0 <= i < |boot + more|
      ensures var op := (boot + more)[i];
              !op.DoRelease? && (op.DoMap? ==> NotManaged(pmem, op.p, op.size / PAGE))
    {
      assert i >= |boot| ==> (boot + more)[i] == more[i - |boot|];
    }
    PlainIsCareful(heap, pmem, boot + more);
  }

  lemma LowIsNotManaged(pmem: seq<Pmem.PageType>, p: nat, size: nat)
    requires p + size <= Pmem.FIRST * PAGE
    ensures NotManaged(pmem, p, size / PAGE)
  {
  }

  // ---------------------------------------------------------------- what two address spaces can share

  /** What the walk finds is the page of an attached region, at its place in that region. */
  lemma WalkIsRegionPage(s: State, v: nat, x: nat, f: nat) returns (r: nat, k: nat)
    requires Inv(s) && v < |s.spaces| && Low(s.spaces[v].mapped) && x < P.CANONICAL
    requires P.Walk(s.paging, v, x) == Some(f)
    ensures r in s.spaces[v].regions && Holds(s.regions, r, k) && s.regions[r].pages[k] == f
    ensures P.MemAlign(x) == s.regions[r].start + k * PAGE
  {
    hide ListInv, P.DigitsOf, P.WalkDigits;
    var mapped, a := s.spaces[v].mapped, P.MemAlign(x);
    assert TreeAgrees(s, v);
    if forall i :: 0 <= i < |mapped| ==> mapped[i].v != a {
      AgreesAtUnlisted(s, v, x);
    }
    var i :| 0 <= i < |mapped| && mapped[i].v == a;
    var l := LastEntry(mapped, a, i);
    forall j | 0 <= j < |mapped| ensures P.DigitsOf(mapped[j].v) == P.DigitsOf(x) <==> mapped[j].v == a {
      MatchEither(s, v, x, j);
    }
    TreeFindsLast(mapped, P.DigitsOf(x), l);
    MatchEither(s, v, x, l);
    k := EntryOfRegion(s, v, l);
    r := mapped[l].region;
  }

  /**
   Isolation of address spaces, over every careful run: when two address spaces, or two addresses of
   one, translate to the same page of the allocator, they do so through one region attached to both,
   and at the same virtual page.
   */
  lemma SpacesShareOnlyRegions(heap: nat, pmem: seq<Pmem.PageType>, ops: seq<Op>,
                               v: nat, x: nat, u: nat, y: nat, f: nat)
    requires AllCareful(heap, pmem, ops) && NoPageZero(ops) && Run(heap, pmem, ops).paging.heap <= P.LIMIT
    requires var s := Run(heap, pmem, ops);
             && v < |s.spaces| && u < |s.spaces| && x < P.CANONICAL && y < P.CANONICAL
             && Low(s.spaces[v].mapped) && Low(s.spaces[u].mapped) && Managed(s.pmem, f)
             && P.Walk(s.paging, v, x) == Some(f) && P.Walk(s.paging, u, y) == Some(f)
    ensures var s := Run(heap, pmem, ops);
            && P.MemAlign(x) == P.MemAlign(y)
            && exists r, k ::
                 && Holds(s.regions, r, k) && s.regions[r].pages[k] == f
                 && r in s.spaces[v].regions && r in s.spaces[u].regions
  {
    hide Run, ListInv, TreeInv, AllCareful, P.Walk;
    var s := Run(heap, pmem, ops);
    RunKeepsInv(heap, pmem, ops, false);
    RunIsolates(heap, pmem, ops);
    var r, k := WalkIsRegionPage(s, v, x, f);
    var q, l := WalkIsRegionPage(s, u, y, f);
    assert r == q && k == l;
  }
}
