/**
 Whether the list of an address space has all pages of a region is decided when the region is
 attached, and never changes again: later pages reach every attached address space, pages skipped
 at physical page 0 never do.
 */
module VmemGaps {
  import opened Machine
  import opened Vmem
  import opened VmemInvariant
  import opened VmemGrowth
  import P = Paging
  import Pmem

  ghost predicate Attached(s: State, v: int, r: int) {
    0 <= v < |s.spaces| && 0 <= r < |s.regions| && r in s.spaces[v].regions
  }

  /** How many pages of region r the list of v does not have. */
  function Missing(s: State, v: nat, r: nat): int
    requires v < |s.spaces| && r < |s.regions|
  {
    |s.regions[r].pages| - |Select(s.spaces[v].mapped, r)|
  }

  /** In every state of the invariant, a list is complete exactly when nothing is missing. */
  lemma CompleteExactly(s: State, v: nat, r: nat)
    requires ListInv(s, true) && Attached(s, v, r)
    ensures Complete(s, v, r) <==> Missing(s, v, r) == 0
  {
    assert Listed(s, v, r);
    var i: nat, j: nat :| GapAt(s, v, r, i, j);
    var all := Entries(s.regions[r].start, s.regions[r].pages, r);
    assert i == j ==> all[..i] + all[j..] == all;
  }

  /** What was attached stays attached, and misses as many pages as before. */
  ghost predicate SameGaps(s: State, s': State) {
    forall v, r :: Attached(s, v, r) ==> Attached(s', v, r) && Missing(s', v, r) == Missing(s, v, r)
  }

  /** Nothing listed and no page has changed for what was there. */
  ghost predicate SameLists(s: State, s': State) {
    && |s.spaces| <= |s'.spaces| && |s.regions| <= |s'.regions|
    && (forall v :: 0 <= v < |s.spaces| ==>
          s'.spaces[v].mapped == s.spaces[v].mapped && s'.spaces[v].regions == s.spaces[v].regions)
    && (forall r :: 0 <= r < |s.regions| ==> s'.regions[r].pages == s.regions[r].pages)
  }

  lemma SameListsSameGaps(s: State, s': State)
    requires SameLists(s, s')
    ensures SameGaps(s, s')
  {
  }

  // ---------------------------------------------------------------- one page, one attachment

  lemma AssocSameGaps(s: State, r: nat, p: nat)
    requires Handles(s) && ListInv(s, true) && r < |s.regions|
    ensures SameGaps(s, AssocPage(s, r, p))
  {
    hide AssocPage, Select;
    assert RegionOk(s.regions[r], true);
    AssocPageEffect(s, r, p);
    var e := MapEntry(s.regions[r].start + s.regions[r].mappedSize, p, r);
    forall v, q | Attached(s, v, q)
      ensures Attached(AssocPage(s, r, p), v, q) && Missing(AssocPage(s, r, p), v, q) == Missing(s, v, q)
    {
      assert Symmetric(s, v, r);
      SelectAppend(s.spaces[v].mapped, e, q);
    }
  }

  lemma AttachSameGaps(s: State, v: nat, r: nat)
    requires Handles(s) && v < |s.spaces| && r < |s.regions|
    ensures SameGaps(s, Attach(s, v, r))
  {
    hide Select, Entries, AttachPages;
    if r !in s.spaces[v].regions {
      hide Attach;
      AttachEffect(s, v, r);
      var s', reg := Attach(s, v, r), s.regions[r];
      var pages := reg.pages[..BeforeZero(reg.pages)];
      forall u, q | Attached(s, u, q) ensures Attached(s', u, q) && Missing(s', u, q) == Missing(s, u, q) {
        if u == v {
          SelectConcat(s.spaces[v].mapped, Entries(reg.start, pages, r), q);
          SelectEntries(reg.start, pages, r, q);
        }
      }
    }
  }

  // ---------------------------------------------------------------- every call

  lemma {:induction false} AttachAllSameGaps(s: State, v: nat, rs: seq<nat>)
    requires Handles(s) && v < |s.spaces| && forall k :: 0 <= k < |rs| ==> rs[k] < |s.regions|
    ensures SameGaps(s, AttachAll(s, v, rs))
    decreases |rs|
  {
    hide Attach, Missing;
    if rs != [] {
      AttachAllSameGaps(s, v, rs[..|rs| - 1]);
      AttachSameGaps(AttachAll(s, v, rs[..|rs| - 1]), v, rs[|rs| - 1]);
    }
  }

  lemma {:induction false} MapPagesSameGaps(s: State, r: nat, p: nat, n: nat)
    requires Inv(s, true) && r < |s.regions| && PageOk(p, true) && MapPages(s, r, p, n).paging.heap <= P.LIMIT
    ensures SameGaps(s, MapPages(s, r, p, n))
    decreases n
  {
    hide AssocPage, Missing, ListInv, TreeInv;
    if n > 0 {
      MapOneKeeps(s, r, p, true);
      AssocSameGaps(s, r, p);
      SameListsSameGaps(AssocPage(s, r, p), MapOne(s, r, p));
      var q := NextPage(p, true);
      MapPagesSameGaps(MapOne(s, r, p), r, q, n - 1);
    }
  }

  lemma {:induction false} GrowBySameGaps(s: State, r: nat, n: nat)
    requires Inv(s, true) && r < |s.regions| && GrowBy(s, r, n).0.paging.heap <= P.LIMIT
    ensures SameGaps(s, GrowBy(s, r, n).0)
    decreases n
  {
    hide AssocPage, Missing, ListInv, TreeInv;
    if n > 0 {
      var a := Pmem.Allocate(s.pmem);
      var s0 := s.(pmem := a.0);
      PmemKeeps(s, a.0, true);
      SameListsSameGaps(s, s0);
      if a.1 != 0 {
        AllocatedPageOk(s.pmem);
        AssocPageKeeps(s0, r, a.1, true);
        AssocSameGaps(s0, r, a.1);
        GrowBySameGaps(AssocPage(s0, r, a.1), r, n - 1);
      }
    }
  }

  lemma ResizeSameGaps(s: State, r: nat, size: nat)
    requires Inv(s, true) && r < |s.regions| && Resize(s, r, size).0.paging.heap <= P.LIMIT
    ensures SameGaps(s, Resize(s, r, size).0)
  {
    hide GrowBy, Missing, ListInv, TreeInv;
    var target, have := P.AlignNext(size), s.regions[r].mappedSize;
    var g := if target < have then s else GrowBy(s, r, (target - have) / PAGE).0;
    if target >= have {
      GrowBySameGaps(s, r, (target - have) / PAGE);
    }
    SameListsSameGaps(g, Resize(s, r, size).0);
  }

  lemma CreateSameGaps(s: State, v: nat, start: nat, size: nat, user: bool, writable: bool, executable: bool)
    requires Inv(s, true) && v < |s.spaces|
    requires RegionCreate(s, v, start, size, user, writable, executable).0.paging.heap <= P.LIMIT
    ensures SameGaps(s, RegionCreate(s, v, start, size, user, writable, executable).0)
  {
    hide Attach, Resize, Missing, ListInv, TreeInv;
    var r := |s.regions|;
    var (s0, st) := PickStart(s, v, start);
    PickStartKeeps(s, v, start, true);
    SameListsSameGaps(s, s0);
    if st % PAGE == 0 {
      var s1 := NewRegion(s0, st, user, writable, executable);
      NewRegionKeeps(s0, st, user, writable, executable, true);
      SameListsSameGaps(s0, s1);
      AttachSameGaps(s1, v, r);
      var s2 := Attach(s1, v, r);
      AttachKeeps(s1, v, r, true);
      ResizeSameGaps(s2, r, size);
      var s3 := Resize(s2, r, size).0;
      SameListsSameGaps(s3, s3.(paging := P.Bump(s3.paging, 32)));
    }
  }

  lemma StepSameGaps(s: State, op: Op)
    requires Inv(s, true) && Step(s, op).paging.heap <= P.LIMIT
    ensures SameGaps(s, Step(s, op))
  {
    hide Missing, ListInv, TreeInv, Attach, AttachAll, MapPages, Resize, RegionCreate;
    match op
    case DoVmemCreate =>
      SameListsSameGaps(s, NewSpace(s));
      if |s.spaces| > 0 { AttachAllSameGaps(NewSpace(s), |s.spaces|, s.spaces[0].regions); }
    case DoRegionCreate(v, start, size, user, writable, executable) =>
      if v < |s.spaces| { CreateSameGaps(s, v, start, size, user, writable, executable); }
    case DoAttach(v, r) => if v < |s.spaces| && r < |s.regions| { AttachSameGaps(s, v, r); }
    case DoMap(r, p, size) =>
      if r < |s.regions| && p % PAGE == 0 && size % PAGE == 0 { MapPagesSameGaps(s, r, p, size / PAGE); }
    case DoResize(r, size) => if r < |s.regions| { ResizeSameGaps(s, r, size); }
    case DoRelease(_) => SameListsSameGaps(s, Step(s, op));
    case DoKalloc(_) => SameListsSameGaps(s, Step(s, op));
  }

  // ---------------------------------------------------------------- whole runs

  lemma {:induction false} RunSameGaps(heap: nat, pmem: seq<Pmem.PageType>, ops: seq<Op>, more: seq<Op>)
    requires Run(heap, pmem, ops + more).paging.heap <= P.LIMIT
    ensures SameGaps(Run(heap, pmem, ops), Run(heap, pmem, ops + more))
    decreases |more|
  {
    hide Missing, Inv, Step;
    if more == [] {
      assert ops + more == ops;
    } else {
      var n := |more| - 1;
      assert ops + more == (ops + more[..n]) + [more[n]];
      RunSnoc(heap, pmem, ops + more[..n], more[n]);
      RunSameGaps(heap, pmem, ops, more[..n]);
      RunKeepsInv(heap, pmem, ops + more[..n], true);
      StepSameGaps(Run(heap, pmem, ops + more[..n]), more[n]);
    }
  }

  /**
   Through every run, whatever physical pages it maps: once a region is attached, its list in the
   address space stays complete if it is complete, and stays incomplete if it is not.
   */
  lemma CompleteForever(heap: nat, pmem: seq<Pmem.PageType>, ops: seq<Op>, more: seq<Op>, v: nat, r: nat)
    requires Run(heap, pmem, ops + more).paging.heap <= P.LIMIT && Attached(Run(heap, pmem, ops), v, r)
    ensures Attached(Run(heap, pmem, ops + more), v, r)
    ensures Complete(Run(heap, pmem, ops + more), v, r) <==> Complete(Run(heap, pmem, ops), v, r)
  {
    hide Missing, Run, ListInv, TreeInv, Complete;
    RunSameGaps(heap, pmem, ops, more);
    HeapGrows(heap, pmem, ops, more);
    RunKeepsInv(heap, pmem, ops, true);
    RunKeepsInv(heap, pmem, ops + more, true);
    CompleteExactly(Run(heap, pmem, ops), v, r);
    CompleteExactly(Run(heap, pmem, ops + more), v, r);
  }

  lemma {:induction false} HeapGrows(heap: nat, pmem: seq<Pmem.PageType>, ops: seq<Op>, more: seq<Op>)
    ensures Run(heap, pmem, ops).paging.heap <= Run(heap, pmem, ops + more).paging.heap
    decreases |more|
  {
    hide Step;
    if more == [] {
      assert ops + more == ops;
    } else {
      var n := |more| - 1;
      assert ops + more == (ops + more[..n]) + [more[n]];
      RunSnoc(heap, pmem, ops + more[..n], more[n]);
      HeapGrows(heap, pmem, ops, more[..n]);
    }
  }
}
