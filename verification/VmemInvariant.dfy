/**
 One invariant over all regions and all address spaces, kept by every run of create, attach, map
 and resize: attachment is symmetric, sizes match page counts, and the list of every address
 space holds, region by region and in order, the region's pages. All of them, unless a region holds
 physical page 0, at which the loop that attaches it stops. Beside it, the page tables of every
 address space agree with its list, the last entry for a page counting.
 */
module VmemInvariant {
  import opened Machine
  import opened Vmem
  import P = Paging
  import Pmem

  // ---------------------------------------------------------------- the invariant

  /** The list entries a region contributes to every address space it is attached to. */
  function Entries(start: nat, pages: seq<nat>, r: nat): (es: seq<MapEntry>)
    ensures |es| == |pages|
  {
    if pages == [] then []
    else
      var n := |pages| - 1;
      Entries(start, pages[..n], r) + [MapEntry(start + n * PAGE, pages[n], r)]
  }

  /** The entries of one region in a list, in list order. */
  function Select(mapped: seq<MapEntry>, r: nat): seq<MapEntry> {
    if mapped == [] then []
    else
      var n := |mapped| - 1;
      if mapped[n].region == r then Select(mapped[..n], r) + [mapped[n]] else Select(mapped[..n], r)
  }

  /** A physical page; page 0 is one only where `zero` allows it. */
  predicate PageOk(p: nat, zero: bool := false) {
    p % PAGE == 0 && (p > 0 || zero)
  }

  predicate RegionOk(reg: Region, zero: bool := false) {
    && reg.start > 0 && reg.start % PAGE == 0
    && reg.mappedSize == PAGE * |reg.pages| && reg.size <= reg.mappedSize
    && (forall i :: 0 <= i < |reg.pages| ==> PageOk(reg.pages[i], zero))
    && Distinct(reg.attached)
  }

  predicate SpaceOk(sp: Space, regions: nat) {
    && Distinct(sp.regions)
    && sp.next > 0 && sp.next % PAGE == 0
    && (forall i :: 0 <= i < |sp.mapped| ==> sp.mapped[i].region < regions)
  }

  predicate Symmetric(s: State, v: nat, r: nat)
    requires v < |s.spaces| && r < |s.regions|
  {
    v in s.regions[r].attached <==> r in s.spaces[v].regions
  }

  /** The list of v has the entries of region r, but those from page i up to page j. */
  predicate GapAt(s: State, v: nat, r: nat, i: nat, j: nat)
    requires v < |s.spaces| && r < |s.regions|
  {
    var reg := s.regions[r];
    var all := Entries(reg.start, reg.pages, r);
    && i <= j <= |reg.pages| && (i < j ==> reg.pages[i] == 0)
    && Select(s.spaces[v].mapped, r) == all[..i] + all[j..]
  }

  /** Only attached regions are listed, and if pages are missing, the first of them is physical page 0. */
  ghost predicate Listed(s: State, v: nat, r: nat)
    requires v < |s.spaces| && r < |s.regions|
  {
    if r in s.spaces[v].regions then exists i: nat, j: nat :: GapAt(s, v, r, i, j)
    else Select(s.spaces[v].mapped, r) == []
  }

  /** The list of v has exactly the entries of region r. */
  predicate Complete(s: State, v: nat, r: nat)
    requires v < |s.spaces| && r < |s.regions|
  {
    Select(s.spaces[v].mapped, r)
    == if r in s.spaces[v].regions then Entries(s.regions[r].start, s.regions[r].pages, r) else []
  }

  ghost predicate ListInv(s: State, zero: bool := false) {
    && (forall r :: 0 <= r < |s.regions| ==> RegionOk(s.regions[r], zero))
    && (forall v :: 0 <= v < |s.spaces| ==> SpaceOk(s.spaces[v], |s.regions|))
    && (forall v, r :: 0 <= v < |s.spaces| && 0 <= r < |s.regions| ==> Symmetric(s, v, r))
    && (forall v, r :: 0 <= v < |s.spaces| && 0 <= r < |s.regions| ==> Listed(s, v, r))
  }

  /** Without physical page 0 in any region, the lists are exact. */
  lemma ListsAreComplete(s: State, v: nat, r: nat)
    requires ListInv(s) && v < |s.spaces| && r < |s.regions|
    ensures Complete(s, v, r)
  {
    assert Listed(s, v, r) && RegionOk(s.regions[r]);
    if r in s.spaces[v].regions {
      var i: nat, j: nat :| GapAt(s, v, r, i, j);
      var all := Entries(s.regions[r].start, s.regions[r].pages, r);
      assert i < j ==> PageOk(s.regions[r].pages[i]);
      assert all[..i] + all[i..] == all;
    }
  }

  /** The last entry in a list for the page with these digits, as page tables remember it. */
  function LastWrite(mapped: seq<MapEntry>, d: P.Digits): Option<nat> {
    if mapped == [] then None
    else
      var n := |mapped| - 1;
      if P.DigitsOf(mapped[n].v) == d then Some(mapped[n].p % P.LIMIT) else LastWrite(mapped[..n], d)
  }

  ghost predicate TreeAgrees(s: State, v: nat)
    requires Handles(s) && v < |s.spaces|
  {
    forall d: P.Digits :: P.WalkDigits(s.paging, v, d) == LastWrite(s.spaces[v].mapped, d)
  }

  ghost predicate TreeInv(s: State)
    requires Handles(s)
  {
    P.Reachable(s.paging) && forall v :: 0 <= v < |s.spaces| ==> TreeAgrees(s, v)
  }

  ghost predicate Inv(s: State, zero: bool := false) {
    Handles(s) && ListInv(s, zero) && TreeInv(s)
  }

  // ---------------------------------------------------------------- page tables follow the lists

  lemma NotifyKeepsTree(s: State, v: nat, r: nat, p: nat, x: nat)
    requires Handles(s) && v < |s.spaces| && TreeInv(s) && p % PAGE == 0 && x % PAGE == 0
    requires Notify(s, v, r, p, x).paging.heap <= P.LIMIT
    ensures TreeInv(Notify(s, v, r, p, x))
  {
    var s' := Notify(s, v, r, p, x);
    P.ReachableBump(s.paging, 24 + 16);
    P.ReachableSet(P.Bump(s.paging, 24 + 16), v, x, p, PAGE);
    forall u | 0 <= u < |s'.spaces| ensures TreeAgrees(s', u) {
      assert TreeAgrees(s, u);
      if u == v { NotifiedAgrees(s, v, r, p, x); }
    }
  }

  lemma NotifiedAgrees(s: State, v: nat, r: nat, p: nat, x: nat)
    requires Handles(s) && v < |s.spaces| && TreeAgrees(s, v)
    requires forall d: P.Digits :: P.WalkDigits(Notify(s, v, r, p, x).paging, v, d)
                                == if d == P.DigitsOf(x) then Some(p % P.LIMIT) else P.WalkDigits(s.paging, v, d)
    ensures TreeAgrees(Notify(s, v, r, p, x), v)
  {
    var mapped := s.spaces[v].mapped;
    assert (mapped + [MapEntry(x, p, r)])[..|mapped|] == mapped;
  }

  lemma BumpKeepsTree(s: State, s': State, bytes: nat)
    requires Handles(s) && Handles(s') && TreeInv(s) && s'.paging == P.Bump(s.paging, bytes)
    requires forall v :: 0 <= v < |s.spaces| ==> s'.spaces[v].mapped == s.spaces[v].mapped
    ensures TreeInv(s')
  {
    P.ReachableBump(s.paging, bytes);
    forall v | 0 <= v < |s'.spaces| ensures TreeAgrees(s', v) {
      assert TreeAgrees(s, v);
    }
  }

  lemma {:induction false} BroadcastKeepsTree(s: State, attached: seq<nat>, r: nat, p: nat, x: nat)
    requires Handles(s) && TreeInv(s) && p % PAGE == 0 && x % PAGE == 0
    requires forall k :: 0 <= k < |attached| ==> attached[k] < |s.spaces|
    requires Broadcast(s, attached, r, p, x).paging.heap <= P.LIMIT
    ensures TreeInv(Broadcast(s, attached, r, p, x))
    decreases |attached|
  {
    if attached != [] {
      var n := |attached| - 1;
      BroadcastKeepsTree(s, attached[..n], r, p, x);
      NotifyKeepsTree(Broadcast(s, attached[..n], r, p, x), attached[n], r, p, x);
    }
  }

  lemma {:induction false} AttachPagesKeepsTree(s: State, v: nat, r: nat, start: nat, pages: seq<nat>)
    requires Handles(s) && TreeInv(s) && v < |s.spaces| && start % PAGE == 0
    requires forall i :: 0 <= i < |pages| ==> pages[i] % PAGE == 0
    requires AttachPages(s, v, r, start, pages).paging.heap <= P.LIMIT
    ensures TreeInv(AttachPages(s, v, r, start, pages))
    decreases |pages|
  {
    if pages != [] {
      var n := |pages| - 1;
      AttachPagesKeepsTree(s, v, r, start, pages[..n]);
      AlignedSum(start, n);
      NotifyKeepsTree(AttachPages(s, v, r, start, pages[..n]), v, r, pages[n], start + n * PAGE);
    }
  }

  lemma AlignedSum(start: nat, n: nat)
    requires start % PAGE == 0
    ensures (start + n * PAGE) % PAGE == 0
  {
  }

  // ---------------------------------------------------------------- lists

  lemma SelectAppend(mapped: seq<MapEntry>, e: MapEntry, r: nat)
    ensures Select(mapped + [e], r) == if e.region == r then Select(mapped, r) + [e] else Select(mapped, r)
  {
    assert (mapped + [e])[..|mapped|] == mapped;
  }

  lemma EntriesAppend(start: nat, pages: seq<nat>, p: nat, r: nat)
    ensures Entries(start, pages + [p], r) == Entries(start, pages, r) + [MapEntry(start + |pages| * PAGE, p, r)]
  {
    assert (pages + [p])[..|pages|] == pages;
  }

  /** Broadcasting reaches each attached address space once and no other. */
  lemma {:induction false} BroadcastEffect(s: State, attached: seq<nat>, r: nat, p: nat, x: nat)
    requires Handles(s) && Distinct(attached)
    requires forall k :: 0 <= k < |attached| ==> attached[k] < |s.spaces|
    ensures forall v :: 0 <= v < |s.spaces| ==>
              Broadcast(s, attached, r, p, x).spaces[v]
              == if v in attached then s.spaces[v].(mapped := s.spaces[v].mapped + [MapEntry(x, p, r)]) else s.spaces[v]
    decreases |attached|
  {
    if attached != [] {
      var n := |attached| - 1;
      BroadcastEffect(s, attached[..n], r, p, x);
      assert attached[n] !in attached[..n];
      assert forall v :: v in attached <==> v in attached[..n] || v == attached[n];
    }
  }

  /** The lists after page p is added to region r. */
  lemma AssocPageEffect(s: State, r: nat, p: nat)
    requires Handles(s) && r < |s.regions| && Distinct(s.regions[r].attached)
    ensures var reg := s.regions[r];
            var s' := AssocPage(s, r, p);
            && s'.regions == s.regions[r := reg.(mappedSize := reg.mappedSize + PAGE, pages := reg.pages + [p])]
            && forall v :: 0 <= v < |s.spaces| ==>
                 s'.spaces[v] == if v in reg.attached
                   then s.spaces[v].(mapped := s.spaces[v].mapped + [MapEntry(reg.start + reg.mappedSize, p, r)])
                   else s.spaces[v]
  {
    BroadcastEffect(AddPage(s, r, p), s.regions[r].attached, r, p, s.regions[r].start + s.regions[r].mappedSize);
  }

  /** One more page for a region keeps the lists of all address spaces exact. */
  lemma AssocPageKeepsLists(s: State, r: nat, p: nat, zero: bool := false)
    requires Handles(s) && ListInv(s, zero) && r < |s.regions| && PageOk(p, zero)
    ensures ListInv(AssocPage(s, r, p), zero)
  {
    var s' := AssocPage(s, r, p);
    assert RegionOk(s.regions[r], zero);
    AssocPageEffect(s, r, p);
    forall v, q | 0 <= v < |s'.spaces| && 0 <= q < |s'.regions| ensures Symmetric(s', v, q) && Listed(s', v, q) {
      assert Symmetric(s, v, r) && Symmetric(s, v, q) && Listed(s, v, q);
      AssocPageListed(s, s', r, p, v, q);
    }
    forall v | 0 <= v < |s'.spaces| ensures SpaceOk(s'.spaces[v], |s'.regions|) {
      assert SpaceOk(s.spaces[v], |s.regions|);
    }
  }

  lemma AssocPageListed(s: State, s': State, r: nat, p: nat, v: nat, q: nat)
    requires r < |s.regions| && v < |s.spaces| == |s'.spaces| && q < |s.regions|
    requires Symmetric(s, v, r) && Symmetric(s, v, q) && Listed(s, v, q)
    requires s.regions[r].mappedSize == PAGE * |s.regions[r].pages|
    requires s'.regions == s.regions[r := s.regions[r].(mappedSize := s.regions[r].mappedSize + PAGE,
                                                        pages := s.regions[r].pages + [p])]
    requires var e := MapEntry(s.regions[r].start + s.regions[r].mappedSize, p, r);
             s'.spaces[v] == if v in s.regions[r].attached
               then s.spaces[v].(mapped := s.spaces[v].mapped + [e]) else s.spaces[v]
    ensures Symmetric(s', v, q) && Listed(s', v, q)
  {
    hide Entries, Select;
    var e := MapEntry(s.regions[r].start + s.regions[r].mappedSize, p, r);
    SelectAppend(s.spaces[v].mapped, e, q);
    if q in s.spaces[v].regions {
      var i: nat, j: nat :| GapAt(s, v, q, i, j);
      if q == r {
        GapGrows(s.regions[r], r, p, i, j);
      }
      assert GapAt(s', v, q, i, j);
    }
  }

  /** A page added at the end does not touch a gap before it. */
  lemma GapGrows(reg: Region, r: nat, p: nat, i: nat, j: nat)
    requires i <= j <= |reg.pages| && reg.mappedSize == PAGE * |reg.pages|
    ensures var all := Entries(reg.start, reg.pages, r);
            var more := Entries(reg.start, reg.pages + [p], r);
            more[..i] + more[j..] == all[..i] + all[j..] + [MapEntry(reg.start + reg.mappedSize, p, r)]
  {
    EntriesAppend(reg.start, reg.pages, p, r);
  }

  /** What is listed stays listed when neither the list nor the region's pages change. */
  lemma ListedStays(s: State, s': State, v: nat, r: nat)
    requires v < |s.spaces| && v < |s'.spaces| && r < |s.regions| && r < |s'.regions| && Listed(s, v, r)
    requires s'.spaces[v].mapped == s.spaces[v].mapped && s'.spaces[v].regions == s.spaces[v].regions
    requires s'.regions[r].start == s.regions[r].start && s'.regions[r].pages == s.regions[r].pages
    ensures Listed(s', v, r)
  {
    if r in s.spaces[v].regions {
      var i: nat, j: nat :| GapAt(s, v, r, i, j);
      assert GapAt(s', v, r, i, j);
    }
  }

  lemma AssocPageKeepsTree(s: State, r: nat, p: nat, zero: bool := false)
    requires Handles(s) && TreeInv(s) && r < |s.regions| && RegionOk(s.regions[r], zero) && PageOk(p, zero)
    requires AssocPage(s, r, p).paging.heap <= P.LIMIT
    ensures TreeInv(AssocPage(s, r, p))
  {
    hide Broadcast, TreeInv;
    BumpKeepsTree(s, AddPage(s, r, p), 16);
    BroadcastKeepsTree(AddPage(s, r, p), s.regions[r].attached, r, p, s.regions[r].start + s.regions[r].mappedSize);
  }

  lemma AssocPageKeeps(s: State, r: nat, p: nat, zero: bool := false)
    requires Inv(s, zero) && r < |s.regions| && PageOk(p, zero) && AssocPage(s, r, p).paging.heap <= P.LIMIT
    ensures Inv(AssocPage(s, r, p), zero)
  {
    AssocPageKeepsLists(s, r, p, zero);
    AssocPageKeepsTree(s, r, p, zero);
  }

  lemma SetSizeKeeps(s: State, r: nat, size: nat, zero: bool := false)
    requires Inv(s, zero) && r < |s.regions| && size <= s.regions[r].mappedSize
    ensures Inv(SetSize(s, r, size), zero)
  {
    var s' := SetSize(s, r, size);
    assert RegionOk(s.regions[r], zero);
    forall v, q | 0 <= v < |s'.spaces| && 0 <= q < |s'.regions| ensures Listed(s', v, q) && Symmetric(s', v, q) {
      assert Listed(s, v, q) && Symmetric(s, v, q);
      ListedStays(s, s', v, q);
    }
    forall v | 0 <= v < |s'.spaces| ensures TreeAgrees(s', v) {
      assert TreeAgrees(s, v);
    }
  }

  /** Attaching appends exactly the region's entries to the list of the address space. */
  lemma {:induction false} AttachPagesEffect(s: State, v: nat, r: nat, start: nat, pages: seq<nat>)
    requires Handles(s) && v < |s.spaces|
    ensures var s' := AttachPages(s, v, r, start, pages);
            && s'.spaces[v] == s.spaces[v].(mapped := s.spaces[v].mapped + Entries(start, pages, r))
            && forall u :: 0 <= u < |s.spaces| && u != v ==> s'.spaces[u] == s.spaces[u]
    decreases |pages|
  {
    if pages == [] {
      assert s.spaces[v].mapped + [] == s.spaces[v].mapped;
    } else {
      AttachPagesEffect(s, v, r, start, pages[..|pages| - 1]);
    }
  }

  lemma {:induction false} SelectConcat(xs: seq<MapEntry>, ys: seq<MapEntry>, r: nat)
    ensures Select(xs + ys, r) == Select(xs, r) + Select(ys, r)
    decreases |ys|
  {
    if ys == [] {
      assert xs + ys == xs;
    } else {
      var n := |ys| - 1;
      assert (xs + ys)[..|xs + ys| - 1] == xs + ys[..n];
      SelectConcat(xs, ys[..n], r);
    }
  }

  lemma {:induction false} SelectEntries(start: nat, pages: seq<nat>, r: nat, q: nat)
    ensures Select(Entries(start, pages, r), q) == if q == r then Entries(start, pages, r) else []
    ensures forall i :: 0 <= i < |pages| ==> Entries(start, pages, r)[i].region == r
    decreases |pages|
  {
    if pages != [] {
      var n := |pages| - 1;
      SelectEntries(start, pages[..n], r, q);
      SelectAppend(Entries(start, pages[..n], r), MapEntry(start + n * PAGE, pages[n], r), q);
    }
  }

  lemma {:induction false} EntriesPrefix(start: nat, pages: seq<nat>, r: nat, n: nat)
    requires n <= |pages|
    ensures Entries(start, pages[..n], r) == Entries(start, pages, r)[..n]
    decreases |pages|
  {
    if n < |pages| {
      assert pages[..|pages| - 1][..n] == pages[..n];
      EntriesPrefix(start, pages[..|pages| - 1], r, n);
    } else {
      assert pages[..n] == pages;
    }
  }

  /** The lists after attaching region r to address space v: its entries up to the first page 0. */
  lemma AttachEffect(s: State, v: nat, r: nat)
    requires Handles(s) && v < |s.spaces| && r < |s.regions| && r !in s.spaces[v].regions
    ensures var reg := s.regions[r];
            var s' := Attach(s, v, r);
            var es := Entries(reg.start, reg.pages[..BeforeZero(reg.pages)], r);
            && s'.regions == s.regions[r := reg.(attached := reg.attached + [v])]
            && s'.spaces[v] == s.spaces[v].(regions := s.spaces[v].regions + [r], mapped := s.spaces[v].mapped + es)
            && forall u :: 0 <= u < |s.spaces| && u != v ==> s'.spaces[u] == s.spaces[u]
  {
    var reg := s.regions[r];
    AttachPagesEffect(Link(s, v, r), v, r, reg.start, reg.pages[..BeforeZero(reg.pages)]);
  }

  lemma AttachKeepsLists(s: State, v: nat, r: nat, zero: bool := false)
    requires Handles(s) && ListInv(s, zero) && v < |s.spaces| && r < |s.regions|
    ensures ListInv(Attach(s, v, r), zero)
  {
    hide Attach, AttachPages, Entries, BeforeZero;
    if r in s.spaces[v].regions {
      AttachedAlready(s, v, r);
    } else {
      var s' := Attach(s, v, r);
      AttachEffect(s, v, r);
      assert RegionOk(s.regions[r], zero) && Symmetric(s, v, r) && SpaceOk(s.spaces[v], |s.regions|);
      forall u, q | 0 <= u < |s'.spaces| && 0 <= q < |s'.regions| ensures Symmetric(s', u, q) && Listed(s', u, q) {
        assert Symmetric(s, u, q) && Listed(s, u, q) && Listed(s, v, r);
        AttachListed(s, s', v, r, u, q);
      }
      AttachedSpaceOk(s, s', v, r);
    }
  }

  lemma AttachedAlready(s: State, v: nat, r: nat)
    requires Handles(s) && v < |s.spaces| && r < |s.regions| && r in s.spaces[v].regions
    ensures Attach(s, v, r) == s
  {
  }

  lemma AttachedSpaceOk(s: State, s': State, v: nat, r: nat)
    requires v < |s.spaces| == |s'.spaces| && r < |s.regions| && r !in s.spaces[v].regions
    requires SpaceOk(s.spaces[v], |s.regions|)
    requires var reg := s.regions[r];
             var es := Entries(reg.start, reg.pages[..BeforeZero(reg.pages)], r);
             s'.spaces[v] == s.spaces[v].(regions := s.spaces[v].regions + [r], mapped := s.spaces[v].mapped + es)
    ensures SpaceOk(s'.spaces[v], |s.regions|)
  {
    var reg := s.regions[r];
    SelectEntries(reg.start, reg.pages[..BeforeZero(reg.pages)], r, r);
  }

  lemma AttachListed(s: State, s': State, v: nat, r: nat, u: nat, q: nat)
    requires v < |s.spaces| == |s'.spaces| && r < |s.regions| && u < |s.spaces| && q < |s.regions|
    requires Symmetric(s, u, q) && Listed(s, u, q) && Listed(s, v, r) && r !in s.spaces[v].regions
    requires s'.regions == s.regions[r := s.regions[r].(attached := s.regions[r].attached + [v])]
    requires var reg := s.regions[r];
             var es := Entries(reg.start, reg.pages[..BeforeZero(reg.pages)], r);
             s'.spaces[v] == s.spaces[v].(regions := s.spaces[v].regions + [r], mapped := s.spaces[v].mapped + es)
    requires u != v ==> s'.spaces[u] == s.spaces[u]
    ensures Symmetric(s', u, q) && Listed(s', u, q)
  {
    hide Entries, Select;
    if u != v {
      ListedStays(s, s', u, q);
    } else {
      var reg := s.regions[r];
      var n := BeforeZero(reg.pages);
      var es := Entries(reg.start, reg.pages[..n], r);
      SelectConcat(s.spaces[v].mapped, es, q);
      SelectEntries(reg.start, reg.pages[..n], r, q);
      if q == r {
        EntriesPrefix(reg.start, reg.pages, r, n);
        var all := Entries(reg.start, reg.pages, r);
        assert all[..n] + all[|all|..] == es;
        assert GapAt(s', v, r, n, |reg.pages|);
      } else if q in s.spaces[v].regions {
        var i: nat, j: nat :| GapAt(s, v, q, i, j);
        assert Select(s.spaces[v].mapped, q) + [] == Select(s.spaces[v].mapped, q);
        assert GapAt(s', v, q, i, j);
      }
    }
  }

  lemma AttachKeeps(s: State, v: nat, r: nat, zero: bool := false)
    requires Inv(s, zero) && v < |s.spaces| && r < |s.regions| && Attach(s, v, r).paging.heap <= P.LIMIT
    ensures Inv(Attach(s, v, r), zero)
  {
    hide TreeInv, Listed, AttachPages;
    AttachKeepsLists(s, v, r, zero);
    if r !in s.spaces[v].regions {
      var reg := s.regions[r];
      var pages := reg.pages[..BeforeZero(reg.pages)];
      assert RegionOk(reg, zero);
      assert forall i :: 0 <= i < |pages| ==> PageOk(reg.pages[i], zero) && pages[i] % PAGE == 0;
      BumpKeepsTree(s, Link(s, v, r), 32);
      AttachPagesKeepsTree(Link(s, v, r), v, r, reg.start, pages);
    }
  }

  lemma {:induction false} AttachAllKeeps(s: State, v: nat, rs: seq<nat>, zero: bool := false)
    requires Inv(s, zero) && v < |s.spaces| && forall k :: 0 <= k < |rs| ==> rs[k] < |s.regions|
    requires AttachAll(s, v, rs).paging.heap <= P.LIMIT
    ensures Inv(AttachAll(s, v, rs), zero)
    decreases |rs|
  {
    if rs != [] {
      AttachAllKeeps(s, v, rs[..|rs| - 1], zero);
      AttachKeeps(AttachAll(s, v, rs[..|rs| - 1]), v, rs[|rs| - 1], zero);
    }
  }

  lemma NewSpaceKeeps(s: State, zero: bool := false)
    requires Inv(s, zero) && NewSpace(s).paging.heap <= P.LIMIT
    ensures Inv(NewSpace(s), zero)
  {
    var s' := NewSpace(s);
    P.ReachableBump(s.paging, 40 + 32);
    P.ReachableCreate(P.Bump(s.paging, 40 + 32));
    forall v, r | 0 <= v < |s'.spaces| && 0 <= r < |s'.regions| ensures Symmetric(s', v, r) && Listed(s', v, r) {
      if v < |s.spaces| {
        assert Symmetric(s, v, r) && Listed(s, v, r);
        ListedStays(s, s', v, r);
      } else {
        assert |s.spaces| !in s.regions[r].attached;
      }
    }
    forall v | 0 <= v < |s'.spaces| ensures TreeAgrees(s', v) {
      if v < |s.spaces| { assert TreeAgrees(s, v); }
    }
  }

  lemma VmemCreateKeeps(s: State, zero: bool := false)
    requires Inv(s, zero) && VmemCreate(s).paging.heap <= P.LIMIT
    ensures Inv(VmemCreate(s), zero)
  {
    NewSpaceKeeps(s, zero);
    if |s.spaces| > 0 {
      AttachAllKeeps(NewSpace(s), |s.spaces|, s.spaces[0].regions, zero);
    }
  }

  lemma {:induction false} MapPagesKeeps(s: State, r: nat, p: nat, n: nat, zero: bool := false)
    requires Inv(s, zero) && r < |s.regions| && PageOk(p, zero) && MapPages(s, r, p, n).paging.heap <= P.LIMIT
    ensures Inv(MapPages(s, r, p, n), zero)
    decreases n
  {
    hide MapOne, ListInv, TreeInv;
    if n > 0 {
      MapOneKeeps(s, r, p, zero);
      var q := NextPage(p, zero);
      MapPagesKeeps(MapOne(s, r, p), r, q, n - 1, zero);
    }
  }

  lemma MapOneKeeps(s: State, r: nat, p: nat, zero: bool := false)
    requires Inv(s, zero) && r < |s.regions| && PageOk(p, zero) && MapOne(s, r, p).paging.heap <= P.LIMIT
    ensures Inv(MapOne(s, r, p), zero)
  {
    AssocPageKeeps(s, r, p, zero);
    SetSizeKeeps(AssocPage(s, r, p), r, AssocPage(s, r, p).regions[r].mappedSize, zero);
  }

  lemma NextPage(p: nat, zero: bool := false) returns (q: nat)
    requires PageOk(p, zero)
    ensures q == p + PAGE && PageOk(q, zero)
  {
    q := p + PAGE;
  }

  lemma {:induction false} GrowByKeeps(s: State, r: nat, n: nat, zero: bool := false)
    requires Inv(s, zero) && r < |s.regions| && GrowBy(s, r, n).0.paging.heap <= P.LIMIT
    ensures Inv(GrowBy(s, r, n).0, zero)
    decreases n
  {
    hide AssocPage, ListInv, TreeInv;
    if n > 0 {
      var a := Pmem.Allocate(s.pmem);
      PmemKeeps(s, a.0, zero);
      if a.1 != 0 {
        AllocatedPageOk(s.pmem);
        AssocPageKeeps(s.(pmem := a.0), r, a.1, zero);
        GrowByKeeps(AssocPage(s.(pmem := a.0), r, a.1), r, n - 1, zero);
      }
    }
  }

  lemma AllocatedPageOk(pmem: seq<Pmem.PageType>)
    ensures Pmem.Allocate(pmem).1 != 0 ==> PageOk(Pmem.Allocate(pmem).1)
  {
    Pmem.AllocateExact(pmem);
  }

  lemma PmemKeeps(s: State, pmem: seq<Pmem.PageType>, zero: bool := false)
    requires Inv(s, zero)
    ensures Inv(s.(pmem := pmem), zero)
  {
    var s' := s.(pmem := pmem);
    forall v, r | 0 <= v < |s'.spaces| && 0 <= r < |s'.regions| ensures Symmetric(s', v, r) && Listed(s', v, r) {
      assert Symmetric(s, v, r) && Listed(s, v, r);
      ListedStays(s, s', v, r);
    }
    forall v | 0 <= v < |s'.spaces| ensures TreeAgrees(s', v) {
      assert TreeAgrees(s, v);
    }
  }

  lemma ResizeKeeps(s: State, r: nat, newSize: nat, zero: bool := false)
    requires Inv(s, zero) && r < |s.regions| && Resize(s, r, newSize).0.paging.heap <= P.LIMIT
    ensures Inv(Resize(s, r, newSize).0, zero)
  {
    hide GrowBy, ListInv, TreeInv;
    var target := P.AlignNext(newSize);
    var have := s.regions[r].mappedSize;
    if target < have {
      FinishResizeKeeps(s, r, newSize, zero);
    } else {
      GrowByKeeps(s, r, (target - have) / PAGE, zero);
      FinishResizeKeeps(GrowBy(s, r, (target - have) / PAGE).0, r, newSize, zero);
    }
  }

  lemma FinishResizeKeeps(s: State, r: nat, newSize: nat, zero: bool := false)
    requires Inv(s, zero) && r < |s.regions|
    ensures Inv(if newSize <= s.regions[r].mappedSize then SetSize(s, r, newSize) else s, zero)
  {
    if newSize <= s.regions[r].mappedSize {
      SetSizeKeeps(s, r, newSize, zero);
    }
  }

  lemma PickStartKeeps(s: State, v: nat, start: nat, zero: bool := false)
    requires Inv(s, zero) && v < |s.spaces|
    ensures Inv(PickStart(s, v, start).0, zero) && PickStart(s, v, start).1 > 0
  {
    var s' := PickStart(s, v, start).0;
    assert SpaceOk(s.spaces[v], |s.regions|);
    forall u, r | 0 <= u < |s'.spaces| && 0 <= r < |s'.regions| ensures Symmetric(s', u, r) && Listed(s', u, r) {
      assert Symmetric(s, u, r) && Listed(s, u, r);
      ListedStays(s, s', u, r);
    }
    forall u | 0 <= u < |s'.spaces| ensures TreeAgrees(s', u) {
      assert TreeAgrees(s, u);
    }
  }

  lemma NewRegionKeeps(s: State, start: nat, user: bool, writable: bool, executable: bool, zero: bool := false)
    requires Inv(s, zero) && start > 0 && start % PAGE == 0
    ensures Inv(NewRegion(s, start, user, writable, executable), zero)
  {
    var s' := NewRegion(s, start, user, writable, executable);
    BumpKeepsTree(s, s', 64 + 32);
    var n := |s.regions|;
    forall v, r | 0 <= v < |s'.spaces| && 0 <= r < |s'.regions| ensures Symmetric(s', v, r) && Listed(s', v, r) {
      assert SpaceOk(s.spaces[v], n);
      if r < n {
        assert Symmetric(s, v, r) && Listed(s, v, r);
        ListedStays(s, s', v, r);
      } else {
        SelectNone(s.spaces[v].mapped, n);
      }
    }
    forall v | 0 <= v < |s'.spaces| ensures SpaceOk(s'.spaces[v], |s'.regions|) {
      assert SpaceOk(s.spaces[v], n);
    }
  }

  lemma {:induction false} SelectNone(mapped: seq<MapEntry>, r: nat)
    requires forall i :: 0 <= i < |mapped| ==> mapped[i].region != r
    ensures Select(mapped, r) == []
    decreases |mapped|
  {
    if mapped != [] {
      SelectNone(mapped[..|mapped| - 1], r);
    }
  }

  lemma RegionCreateKeeps(s: State, v: nat, start: nat, size: nat, user: bool, writable: bool, executable: bool,
                          zero: bool := false)
    requires Inv(s, zero) && v < |s.spaces|
    requires RegionCreate(s, v, start, size, user, writable, executable).0.paging.heap <= P.LIMIT
    ensures Inv(RegionCreate(s, v, start, size, user, writable, executable).0, zero)
  {
    var picked := PickStart(s, v, start);
    PickStartKeeps(s, v, start, zero);
    if picked.1 % PAGE == 0 {
      var r := |s.regions|;
      var s1 := NewRegion(picked.0, picked.1, user, writable, executable);
      NewRegionKeeps(picked.0, picked.1, user, writable, executable, zero);
      AttachKeeps(s1, v, r, zero);
      var s2 := Attach(s1, v, r);
      ResizeKeeps(s2, r, size, zero);
      var done := Resize(s2, r, size).0;
      BumpKeeps(done, 32, zero);
    }
  }

  lemma BumpKeeps(s: State, bytes: nat, zero: bool := false)
    requires Inv(s, zero)
    ensures Inv(s.(paging := P.Bump(s.paging, bytes)), zero)
  {
    var s' := s.(paging := P.Bump(s.paging, bytes));
    BumpKeepsTree(s, s', bytes);
    forall v, r | 0 <= v < |s'.spaces| && 0 <= r < |s'.regions| ensures Symmetric(s', v, r) && Listed(s', v, r) {
      assert Symmetric(s, v, r) && Listed(s, v, r);
      ListedStays(s, s', v, r);
    }
  }

  // ---------------------------------------------------------------- whole runs

  datatype Op =
    | DoVmemCreate
    | DoRegionCreate(v: nat, start: nat, size: nat, user: bool, writable: bool, executable: bool)
    | DoAttach(v: nat, r: nat)
    | DoMap(r: nat, p: nat, size: nat)
    | DoResize(r: nat, size: nat)
    | DoRelease(p: nat)
    | DoKalloc(bytes: nat)

  /** One call; a call with a handle that does not exist yet is not made. */
  function Step(s: State, op: Op): (s': State)
    requires Handles(s)
    ensures Handles(s') && Grows(s, s')
  {
    match op
    case DoVmemCreate => VmemCreate(s)
    case DoRegionCreate(v, start, size, user, writable, executable) =>
      if v < |s.spaces| then RegionCreate(s, v, start, size, user, writable, executable).0 else s
    case DoAttach(v, r) => if v < |s.spaces| && r < |s.regions| then Attach(s, v, r) else s
    case DoMap(r, p, size) => if r < |s.regions| then MapPhysical(s, r, p, size).0 else s
    case DoResize(r, size) => if r < |s.regions| then Resize(s, r, size).0 else s
    case DoRelease(p) => s.(pmem := Pmem.Release(s.pmem, p))
    case DoKalloc(bytes) => s.(paging := P.Bump(s.paging, bytes))
  }

  function Initial(heap: nat, pmem: seq<Pmem.PageType>): State {
    State([], [], P.State(map[], heap, []), pmem)
  }

  function Run(heap: nat, pmem: seq<Pmem.PageType>, ops: seq<Op>): (s: State)
    ensures Handles(s)
  {
    if ops == [] then Initial(heap, pmem) else Step(Run(heap, pmem, ops[..|ops| - 1]), ops[|ops| - 1])
  }

  lemma RunSnoc(heap: nat, pmem: seq<Pmem.PageType>, ops: seq<Op>, op: Op)
    ensures Run(heap, pmem, ops + [op]) == Step(Run(heap, pmem, ops), op)
  {
    assert (ops + [op])[..|ops|] == ops;
  }

  /** No call maps physical page 0. */
  predicate NoPageZero(ops: seq<Op>) {
    forall i :: 0 <= i < |ops| && ops[i].DoMap? ==> ops[i].p != 0
  }

  /**
   Every run keeps the invariant, as long as the kernel heap stays below 2^60; with exact lists as
   long as no call maps physical page 0.
   */
  lemma {:induction false} RunKeepsInv(heap: nat, pmem: seq<Pmem.PageType>, ops: seq<Op>, zero: bool)
    requires Run(heap, pmem, ops).paging.heap <= P.LIMIT && (zero || NoPageZero(ops))
    ensures Inv(Run(heap, pmem, ops), zero)
    decreases |ops|
  {
    hide Inv;
    if ops == [] {
      InitialInv(heap, pmem, zero);
    } else {
      var n := |ops| - 1;
      RunKeepsInv(heap, pmem, ops[..n], zero);
      assert !zero && ops[n].DoMap? ==> ops[n].p != 0;
      StepKeepsInv(Run(heap, pmem, ops[..n]), ops[n], zero);
    }
  }

  lemma InitialInv(heap: nat, pmem: seq<Pmem.PageType>, zero: bool)
    ensures Inv(Initial(heap, pmem), zero)
  {
    assert Initial(heap, pmem).paging == P.Run(heap, []);
  }

  lemma StepKeepsInv(s: State, op: Op, zero: bool)
    requires Inv(s, zero) && (op.DoMap? ==> zero || op.p != 0) && Step(s, op).paging.heap <= P.LIMIT
    ensures Inv(Step(s, op), zero)
  {
    hide ListInv, TreeInv;
    match op
    case DoVmemCreate => VmemCreateKeeps(s, zero);
    case DoRegionCreate(v, start, size, user, writable, executable) =>
      if v < |s.spaces| { RegionCreateKeeps(s, v, start, size, user, writable, executable, zero); }
    case DoAttach(v, r) => if v < |s.spaces| && r < |s.regions| { AttachKeeps(s, v, r, zero); }
    case DoMap(r, p, size) =>
      if r < |s.regions| && p % PAGE == 0 && size % PAGE == 0 { MapPagesKeeps(s, r, p, size / PAGE, zero); }
    case DoResize(r, size) => if r < |s.regions| { ResizeKeeps(s, r, size, zero); }
    case DoRelease(p) => PmemKeeps(s, Pmem.Release(s.pmem, p), zero);
    case DoKalloc(bytes) => BumpKeeps(s, bytes, zero);
  }
}
