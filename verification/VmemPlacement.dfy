/**
 Where regions end up over whole runs: a region never moves and is never detached, automatic
 placement walks up each address space in steps of 1 MB, and a new address space shows the kernel.
 */
module VmemPlacement {
  import opened Machine
  import opened Vmem
  import opened VmemInvariant
  import opened VmemAgreement
  import opened VmemGrowth
  import P = Paging
  import Pmem

  // ---------------------------------------------------------------- one call

  /** A call that leaves the choice of the address in address space v to the kernel. */
  predicate Automatic(s: State, op: Op, v: nat) {
    op.DoRegionCreate? && op.v == v && op.start == 0 && v < |s.spaces|
  }

  /** Regions stay where they are, and attached where they were attached. */
  predicate Steady(s: State, s': State) {
    && |s.regions| <= |s'.regions| && |s.spaces| <= |s'.spaces|
    && (forall r :: 0 <= r < |s.regions| ==> s'.regions[r].start == s.regions[r].start)
    && (forall v :: 0 <= v < |s.spaces| ==> s.spaces[v].regions <= s'.spaces[v].regions)
  }

  lemma SteadyTwice(s: State, s1: State, s2: State)
    requires Steady(s, s1) && Steady(s1, s2)
    ensures Steady(s, s2)
  {
    forall v | 0 <= v < |s.spaces| ensures s.spaces[v].regions <= s2.spaces[v].regions {
      assert s.spaces[v].regions <= s1.spaces[v].regions <= s2.spaces[v].regions;
    }
  }

  lemma AttachSteady(s: State, v: nat, r: nat)
    requires Handles(s) && v < |s.spaces| && r < |s.regions|
    ensures Steady(s, Attach(s, v, r))
    ensures forall u :: 0 <= u < |s.spaces| ==> Attach(s, v, r).spaces[u].next == s.spaces[u].next
    ensures forall u :: 0 <= u < |s.spaces| && u != v ==> Attach(s, v, r).spaces[u] == s.spaces[u]
    ensures Attach(s, v, r).spaces[v].regions
         == if r in s.spaces[v].regions then s.spaces[v].regions else s.spaces[v].regions + [r]
  {
    if r !in s.spaces[v].regions {
      AttachEffect(s, v, r);
    }
  }

  /** Attaching several regions to an address space that has none of them lists them in order. */
  lemma {:induction false} AttachAllSteady(s: State, v: nat, rs: seq<nat>)
    requires Handles(s) && v < |s.spaces| && forall k :: 0 <= k < |rs| ==> rs[k] < |s.regions|
    requires Distinct(rs) && s.spaces[v].regions == []
    ensures Steady(s, AttachAll(s, v, rs))
    ensures forall u :: 0 <= u < |s.spaces| ==> AttachAll(s, v, rs).spaces[u].next == s.spaces[u].next
    ensures forall u :: 0 <= u < |s.spaces| && u != v ==> AttachAll(s, v, rs).spaces[u] == s.spaces[u]
    ensures AttachAll(s, v, rs).spaces[v].regions == rs
    decreases |rs|
  {
    hide Attach;
    if rs != [] {
      var n := |rs| - 1;
      AttachAllSteady(s, v, rs[..n]);
      var s1 := AttachAll(s, v, rs[..n]);
      AttachSteady(s1, v, rs[n]);
      SteadyTwice(s, s1, AttachAll(s, v, rs));
      assert rs[..n] + [rs[n]] == rs;
    }
  }

  /** vmem_create leaves every other address space as it is. */
  lemma VmemCreateSteady(s: State)
    requires Inv(s, true)
    ensures Steady(s, VmemCreate(s)) && VmemCreate(s).spaces[|s.spaces|].next == INCREMENT
    ensures forall u :: 0 <= u < |s.spaces| ==> VmemCreate(s).spaces[u] == s.spaces[u]
    ensures VmemCreate(s).spaces[|s.spaces|].regions == if s.spaces == [] then [] else s.spaces[0].regions
  {
    hide AttachAll;
    if s.spaces != [] {
      assert SpaceOk(s.spaces[0], |s.regions|);
      AttachAllSteady(NewSpace(s), |s.spaces|, s.spaces[0].regions);
    }
  }

  lemma GrewSteady(s: State, s': State, r: nat)
    requires r < |s.regions| && OnlyGrew(s, s', r)
    ensures Steady(s, s')
    ensures forall u :: 0 <= u < |s.spaces| ==> s'.spaces[u].next == s.spaces[u].next
  {
  }

  lemma RegionCreateSteady(s: State, op: Op)
    requires Inv(s, true) && op.DoRegionCreate? && op.v < |s.spaces|
    ensures Steady(s, Step(s, op)) && |Step(s, op).spaces| == |s.spaces|
    ensures forall u :: 0 <= u < |s.spaces| ==>
              Step(s, op).spaces[u].next == s.spaces[u].next + if Automatic(s, op, u) then INCREMENT else 0
    ensures Automatic(s, op, op.v) ==>
              && |Step(s, op).regions| == |s.regions| + 1
              && Step(s, op).regions[|s.regions|].start == s.spaces[op.v].next
              && |s.regions| in Step(s, op).spaces[op.v].regions
  {
    hide RegionCreate, TreeInv;
    assert SpaceOk(s.spaces[op.v], |s.regions|);
    CreateExactly(s, op.v, op.start, op.size, op.user, op.writable, op.executable);
  }

  /**
   Every call leaves all regions where they are. The address for the next automatic placement moves
   on by 1 MB in the address space of an automatic placement and nowhere else; in a new address
   space it is 1 MB.
   */
  lemma StepPlaces(s: State, op: Op)
    requires Inv(s, true)
    ensures Steady(s, Step(s, op))
    ensures forall v :: 0 <= v < |s.spaces| ==>
              Step(s, op).spaces[v].next == s.spaces[v].next + if Automatic(s, op, v) then INCREMENT else 0
    ensures forall v :: |s.spaces| <= v < |Step(s, op).spaces| ==> Step(s, op).spaces[v].next == INCREMENT
  {
    hide VmemCreate, RegionCreate, Attach, MapPages, Resize, TreeInv;
    match op
    case DoVmemCreate => VmemCreateSteady(s);
    case DoRegionCreate(v, start, size, user, writable, executable) =>
      if v < |s.spaces| { RegionCreateSteady(s, op); }
    case DoAttach(v, r) => if v < |s.spaces| && r < |s.regions| { AttachSteady(s, v, r); }
    case DoMap(r, p, size) =>
      if r < |s.regions| && p % PAGE == 0 && size % PAGE == 0 {
        assert RegionOk(s.regions[r], true);
        MapPagesGrows(s, r, p, size / PAGE);
        GrewSteady(s, MapPages(s, r, p, size / PAGE), r);
      }
    case DoResize(r, size) =>
      if r < |s.regions| {
        assert RegionOk(s.regions[r], true);
        ResizeExactly(s, r, size);
        GrewSteady(s, Resize(s, r, size).0, r);
      }
    case DoRelease(p) =>
    case DoKalloc(bytes) =>
  }

  // ---------------------------------------------------------------- whole runs

  /** How many calls of a run placed a region automatically in an address space. */
  function Automatics(heap: nat, pmem: seq<Pmem.PageType>, ops: seq<Op>, v: nat): nat {
    if ops == [] then 0
    else
      var n := |ops| - 1;
      Automatics(heap, pmem, ops[..n], v) + if Automatic(Run(heap, pmem, ops[..n]), ops[n], v) then 1 else 0
  }

  lemma RunPrefix(heap: nat, pmem: seq<Pmem.PageType>, ops: seq<Op>)
    requires ops != [] && Run(heap, pmem, ops).paging.heap <= P.LIMIT
    ensures Run(heap, pmem, ops) == Step(Run(heap, pmem, ops[..|ops| - 1]), ops[|ops| - 1])
    ensures Run(heap, pmem, ops[..|ops| - 1]).paging.heap <= P.LIMIT
    ensures Inv(Run(heap, pmem, ops[..|ops| - 1]), true)
  {
    hide Inv, Step;
    RunKeepsInv(heap, pmem, ops[..|ops| - 1], true);
  }

  /** After every run the next automatic address of an address space tells how many it has placed. */
  lemma {:induction false} NextExactly(heap: nat, pmem: seq<Pmem.PageType>, ops: seq<Op>, v: nat)
    requires Run(heap, pmem, ops).paging.heap <= P.LIMIT
    ensures v < |Run(heap, pmem, ops).spaces| ==>
              Run(heap, pmem, ops).spaces[v].next == INCREMENT * (1 + Automatics(heap, pmem, ops, v))
    ensures v >= |Run(heap, pmem, ops).spaces| ==> Automatics(heap, pmem, ops, v) == 0
    decreases |ops|
  {
    hide Step, Inv;
    if ops != [] {
      var n := |ops| - 1;
      RunPrefix(heap, pmem, ops);
      NextExactly(heap, pmem, ops[..n], v);
      StepPlaces(Run(heap, pmem, ops[..n]), ops[n]);
    }
  }

  /** Over every run regions stay where they are, and the count of automatic placements only grows. */
  lemma {:induction false} RunSteady(heap: nat, pmem: seq<Pmem.PageType>, ops: seq<Op>, i: nat, v: nat)
    requires i <= |ops| && Run(heap, pmem, ops).paging.heap <= P.LIMIT
    ensures Run(heap, pmem, ops[..i]).paging.heap <= P.LIMIT
    ensures Steady(Run(heap, pmem, ops[..i]), Run(heap, pmem, ops))
    ensures Automatics(heap, pmem, ops[..i], v) <= Automatics(heap, pmem, ops, v)
    decreases |ops|
  {
    hide Step, Inv;
    if i == |ops| {
      assert ops[..i] == ops;
    } else {
      var n := |ops| - 1;
      RunPrefix(heap, pmem, ops);
      assert ops[..n][..i] == ops[..i];
      RunSteady(heap, pmem, ops[..n], i, v);
      StepPlaces(Run(heap, pmem, ops[..n]), ops[n]);
      SteadyTwice(Run(heap, pmem, ops[..i]), Run(heap, pmem, ops[..n]), Run(heap, pmem, ops));
    }
  }

  /** Call i of a run leaves the choice of the address in address space v to the kernel. */
  predicate AutomaticAt(heap: nat, pmem: seq<Pmem.PageType>, ops: seq<Op>, i: int, v: nat) {
    0 <= i < |ops| && Automatic(Run(heap, pmem, ops[..i]), ops[i], v)
  }

  /** The region a call creates is the next one. */
  function RegionOfCall(heap: nat, pmem: seq<Pmem.PageType>, ops: seq<Op>, i: nat): nat
    requires i < |ops|
  {
    |Run(heap, pmem, ops[..i]).regions|
  }

  /**
   Every automatic placement creates a region, which stays attached for the rest of the run, at 1 MB
   times one more than the number of automatic placements before it in the address space.
   */
  lemma PlacedAt(heap: nat, pmem: seq<Pmem.PageType>, ops: seq<Op>, i: nat, v: nat)
    requires AutomaticAt(heap, pmem, ops, i, v) && Run(heap, pmem, ops).paging.heap <= P.LIMIT
    ensures var s, r := Run(heap, pmem, ops), RegionOfCall(heap, pmem, ops, i);
            && v < |s.spaces| && r < |s.regions| && r in s.spaces[v].regions
            && s.regions[r].start == INCREMENT * (1 + Automatics(heap, pmem, ops[..i], v))
    ensures RegionOfCall(heap, pmem, ops, i) < |Run(heap, pmem, ops[..i + 1]).regions|
    ensures Automatics(heap, pmem, ops[..i + 1], v) == Automatics(heap, pmem, ops[..i], v) + 1
  {
    hide Step, Inv;
    var s := Run(heap, pmem, ops[..i]);
    RunSteady(heap, pmem, ops, i, v);
    RunSteady(heap, pmem, ops, i + 1, v);
    NextExactly(heap, pmem, ops[..i], v);
    assert ops[..i + 1][..i] == ops[..i];
    RunPrefix(heap, pmem, ops[..i + 1]);
    RegionCreateSteady(s, ops[i]);
    StillAttached(Run(heap, pmem, ops[..i + 1]), Run(heap, pmem, ops), v, |s.regions|);
  }

  lemma StillAttached(s: State, s': State, v: nat, r: nat)
    requires Steady(s, s') && v < |s.spaces| && r in s.spaces[v].regions
    ensures r in s'.spaces[v].regions
  {
    var i :| 0 <= i < |s.spaces[v].regions| && s.spaces[v].regions[i] == r;
    assert s'.spaces[v].regions[i] == r;
  }

  /**
   Over every run, two automatic placements in one address space give two regions with different
   starts, the later one at least 1 MB further up. They overlap exactly when neither is empty and the
   earlier one maps more than the distance: nothing else keeps them apart.
   */
  lemma AutomaticStartsDistinct(heap: nat, pmem: seq<Pmem.PageType>, ops: seq<Op>, i: nat, j: nat, v: nat)
    requires AutomaticAt(heap, pmem, ops, i, v) && AutomaticAt(heap, pmem, ops, j, v) && i < j
    requires Run(heap, pmem, ops).paging.heap <= P.LIMIT
    ensures var s := Run(heap, pmem, ops);
            var q, r := RegionOfCall(heap, pmem, ops, i), RegionOfCall(heap, pmem, ops, j);
            && q < r < |s.regions| && v < |s.spaces| && q in s.spaces[v].regions && r in s.spaces[v].regions
            && s.regions[r].start >= s.regions[q].start + INCREMENT
            && (Overlap(s.regions[q], s.regions[r]) <==>
                  && s.regions[q].mappedSize > s.regions[r].start - s.regions[q].start
                  && s.regions[r].mappedSize > 0)
  {
    hide Run, Automatics;
    PlacedAt(heap, pmem, ops, i, v);
    PlacedAt(heap, pmem, ops, j, v);
    RunSteady(heap, pmem, ops, j, v);
    assert ops[..j][..i + 1] == ops[..i + 1];
    RunSteady(heap, pmem, ops[..j], i + 1, v);
  }

  // ---------------------------------------------------------------- the address a mapping returns

  /**
   vmem_region_map_physical_address returns 0 exactly for an unaligned range or an empty one. Otherwise
   the mapped range is found, byte by byte, from the returned address on, in every address space that
   has the region and in which no other region lies on it.
   */
  lemma MappedWhereReturned(s: State, r: nat, p: nat, size: nat, v: nat, i: nat)
    requires Inv(s) && r < |s.regions| && p > 0 && MapPhysical(s, r, p, size).0.paging.heap <= P.LIMIT
    ensures MapPhysical(s, r, p, size).1 == 0 <==> p % PAGE != 0 || size % PAGE != 0 || size == 0
    ensures var (s', x) := MapPhysical(s, r, p, size);
            && x != 0 && i < size && v < |s'.spaces| && v in s'.regions[r].attached
            && Clear(s', v, r) && Low(s'.spaces[v].mapped)
            ==> GetPhysical(s'.spaces[v].mapped, x + i) == p + i && Agrees(s', v, x + i)
  {
    hide TreeInv, MapPages, Clear, Low, Agrees;
    var (s', x) := MapPhysical(s, r, p, size);
    if x != 0 && i < size && v < |s'.spaces| && v in s'.regions[r].attached
       && Clear(s', v, r) && Low(s'.spaces[v].mapped) {
      var n, k := size / PAGE, i / PAGE;
      var had := |s.regions[r].pages|;
      MapPagesKeeps(s, r, p, n);
      MapPagesGrows(s, r, p, n);
      assert Symmetric(s', v, r) && RegionOk(s.regions[r]);
      assert Consecutive(p, n)[k] == p + k * PAGE && s'.regions[r].pages[had + k] == p + k * PAGE;
      SeenByte(s', v, r, had + k, x + i, i % PAGE);
    }
  }

  // ---------------------------------------------------------------- a new address space

  /**
   A new address space has exactly the regions of the kernel's address space, in the same order, and
   finds every page of a region that no other kernel region lies on where the kernel finds it.
   */
  lemma NewSpaceSeesKernel(s: State, r: nat, k: nat)
    requires Inv(s) && |s.spaces| > 0 && VmemCreate(s).paging.heap <= P.LIMIT
    requires r in s.spaces[0].regions && r < |s.regions| && k < |s.regions[r].pages| && Clear(s, 0, r)
    requires Low(s.spaces[0].mapped) && Low(VmemCreate(s).spaces[|s.spaces|].mapped)
    ensures var s', x := VmemCreate(s), s.regions[r].start + k * PAGE;
            && s'.spaces[|s.spaces|].regions == s.spaces[0].regions && s'.spaces[0] == s.spaces[0]
            && P.Walk(s'.paging, |s.spaces|, x) == P.Walk(s'.paging, 0, x) == Some(s.regions[r].pages[k])
            && GetPhysical(s'.spaces[|s.spaces|].mapped, x) == s.regions[r].pages[k]
  {
    hide VmemCreate, TreeInv, P.Walk;
    var s', v := VmemCreate(s), |s.spaces|;
    InvWeakens(s);
    VmemCreateSteady(s);
    VmemCreateKeeps(s);
    VmemCreateRegions(s);
    StillClear(s, s', 0, r);
    StillClear(s, s', v, r);
    PageIsSeen(s', 0, r, k);
    PageIsSeen(s', v, r, k);
  }

  lemma InvWeakens(s: State)
    requires Inv(s)
    ensures Inv(s, true)
  {
    forall r | 0 <= r < |s.regions| ensures RegionOk(s.regions[r], true) {
      assert RegionOk(s.regions[r]);
    }
  }

  lemma VmemCreateRegions(s: State)
    requires Handles(s)
    ensures |VmemCreate(s).regions| == |s.regions|
    ensures forall q :: 0 <= q < |s.regions| ==>
              VmemCreate(s).regions[q] == s.regions[q].(attached := VmemCreate(s).regions[q].attached)
  {
    if s.spaces != [] {
      AttachAllFrame(NewSpace(s), |s.spaces|, s.spaces[0].regions);
    }
  }

  lemma StillClear(s: State, s': State, v: nat, r: nat)
    requires Handles(s) && Handles(s') && |s.spaces| > 0 && v < |s'.spaces| && r < |s.regions| == |s'.regions|
    requires s'.spaces[v].regions == s.spaces[0].regions && Clear(s, 0, r)
    requires forall q :: 0 <= q < |s.regions| ==> s'.regions[q] == s.regions[q].(attached := s'.regions[q].attached)
    ensures Clear(s', v, r)
  {
  }
}
