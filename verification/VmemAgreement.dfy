/**
 When the list search of vmem_get_physical_address and the processor's page-table walk agree:
 the search takes the first entry for a page, page tables remember the last one.
 */
module VmemAgreement {
  import opened Machine
  import opened Vmem
  import opened VmemInvariant
  import P = Paging
  import Pmem

  // ---------------------------------------------------------------- conditions

  predicate Overlap(a: Region, b: Region) {
    && a.mappedSize > 0 && b.mappedSize > 0
    && a.start < b.start + b.mappedSize && b.start < a.start + a.mappedSize
  }

  /** No two regions attached to an address space share a virtual page. */
  predicate NoOverlap(s: State, v: nat)
    requires Handles(s) && v < |s.spaces|
  {
    forall i, j :: 0 <= i < j < |s.spaces[v].regions| ==>
      !Overlap(s.regions[s.spaces[v].regions[i]], s.regions[s.spaces[v].regions[j]])
  }

  predicate EntryLow(e: MapEntry) {
    e.v < P.CANONICAL && e.p < P.LIMIT
  }

  /** Everything listed is a 48-bit virtual and a storable physical address. */
  predicate Low(mapped: seq<MapEntry>) {
    forall i :: 0 <= i < |mapped| ==> EntryLow(mapped[i])
  }

  /** Region r shares no virtual page with another region attached to an address space. */
  predicate Clear(s: State, v: nat, r: nat)
    requires Handles(s) && v < |s.spaces| && r < |s.regions|
  {
    forall q :: q in s.spaces[v].regions && q != r ==> !Overlap(s.regions[r], s.regions[q])
  }

  /** No page is listed twice with the same frame. */
  predicate FramesDiffer(mapped: seq<MapEntry>) {
    forall i, j :: 0 <= i < j < |mapped| && mapped[i].v == mapped[j].v ==> mapped[i].p != mapped[j].p
  }

  /** Search and walk give the same physical address for the byte at x; 0 stands for unmapped. */
  predicate Agrees(s: State, v: nat, x: nat)
    requires Handles(s) && v < |s.spaces|
  {
    match P.Walk(s.paging, v, x)
    case None => GetPhysical(s.spaces[v].mapped, x) == 0
    case Some(page) => GetPhysical(s.spaces[v].mapped, x) == page + x % PAGE && page > 0
  }

  // ---------------------------------------------------------------- list positions

  lemma {:induction false} EntryAt(start: nat, pages: seq<nat>, r: nat, k: nat)
    requires k < |pages|
    ensures Entries(start, pages, r)[k] == MapEntry(start + k * PAGE, pages[k], r)
    decreases |pages|
  {
    var n := |pages| - 1;
    if k < n { EntryAt(start, pages[..n], r, k); }
  }

  /** Where the i-th list entry stands among the entries of its region. */
  function Rank(mapped: seq<MapEntry>, i: nat): nat
    requires i < |mapped|
  {
    |Select(mapped[..i], mapped[i].region)|
  }

  lemma {:induction false} RankSelects(mapped: seq<MapEntry>, i: nat)
    requires i < |mapped|
    ensures Rank(mapped, i) < |Select(mapped, mapped[i].region)|
    ensures Select(mapped, mapped[i].region)[Rank(mapped, i)] == mapped[i]
    decreases |mapped|
  {
    var n := |mapped| - 1;
    if i < n {
      assert mapped[..n][..i] == mapped[..i];
      RankSelects(mapped[..n], i);
    }
  }

  lemma {:induction false} SelectMember(mapped: seq<MapEntry>, r: nat, k: nat) returns (i: nat)
    requires k < |Select(mapped, r)|
    ensures i < |mapped| && mapped[i] == Select(mapped, r)[k] && mapped[i].region == r
    decreases |mapped|
  {
    var n := |mapped| - 1;
    if mapped[n].region == r && k == |Select(mapped[..n], r)| {
      i := n;
    } else {
      i := SelectMember(mapped[..n], r, k);
    }
  }

  lemma RanksGrow(mapped: seq<MapEntry>, i: nat, j: nat)
    requires i < j < |mapped| && mapped[i].region == mapped[j].region
    ensures Rank(mapped, i) < Rank(mapped, j)
  {
    var r := mapped[i].region;
    assert mapped[..j] == mapped[..i + 1] + mapped[i + 1..j];
    SelectConcat(mapped[..i + 1], mapped[i + 1..j], r);
    assert mapped[..i + 1] == mapped[..i] + [mapped[i]];
    SelectAppend(mapped[..i], mapped[i], r);
  }

  /** A list entry is the entry of a page of an attached region. */
  lemma EntryOfRegion(s: State, v: nat, i: nat) returns (k: nat)
    requires Handles(s) && ListInv(s) && v < |s.spaces| && i < |s.spaces[v].mapped|
    ensures var e := s.spaces[v].mapped[i];
            && e.region < |s.regions| && e.region in s.spaces[v].regions
            && k == Rank(s.spaces[v].mapped, i) && k < |s.regions[e.region].pages|
            && e == MapEntry(s.regions[e.region].start + k * PAGE, s.regions[e.region].pages[k], e.region)
            && PageOk(e.p) && e.v % PAGE == 0
  {
    var mapped := s.spaces[v].mapped;
    var r := mapped[i].region;
    assert SpaceOk(s.spaces[v], |s.regions|);
    ListsAreComplete(s, v, r);
    assert RegionOk(s.regions[r]);
    RankSelects(mapped, i);
    k := Rank(mapped, i);
    EntryAt(s.regions[r].start, s.regions[r].pages, r, k);
    AlignedSum(s.regions[r].start, k);
  }

  /** Every page of an attached region has its entry in the list. */
  lemma RegionEntry(s: State, v: nat, r: nat, k: nat) returns (i: nat)
    requires Handles(s) && ListInv(s) && v < |s.spaces| && r < |s.regions| && r in s.spaces[v].regions
    requires k < |s.regions[r].pages|
    ensures i < |s.spaces[v].mapped|
    ensures s.spaces[v].mapped[i] == MapEntry(s.regions[r].start + k * PAGE, s.regions[r].pages[k], r)
  {
    ListsAreComplete(s, v, r);
    EntryAt(s.regions[r].start, s.regions[r].pages, r, k);
    i := SelectMember(s.spaces[v].mapped, r, k);
  }

  ghost predicate UniqueAddresses(mapped: seq<MapEntry>) {
    forall i, j :: 0 <= i < j < |mapped| ==> mapped[i].v != mapped[j].v
  }

  /** A page of a region that is clear of the others is listed once. */
  lemma ClearListsOnce(s: State, v: nat, i: nat, j: nat)
    requires Handles(s) && ListInv(s) && v < |s.spaces|
    requires i < |s.spaces[v].mapped| && j < |s.spaces[v].mapped| && i != j
    requires s.spaces[v].mapped[i].region < |s.regions| && Clear(s, v, s.spaces[v].mapped[i].region)
    ensures s.spaces[v].mapped[i].v != s.spaces[v].mapped[j].v
  {
    var mapped := s.spaces[v].mapped;
    var k := EntryOfRegion(s, v, i);
    var l := EntryOfRegion(s, v, j);
    var q, r := mapped[i].region, mapped[j].region;
    if q == r {
      if i < j { RanksGrow(mapped, i, j); } else { RanksGrow(mapped, j, i); }
    } else {
      ApartPages(s.regions[q], k, s.regions[r], l);
    }
  }

  lemma ApartPages(a: Region, k: nat, b: Region, l: nat)
    requires RegionOk(a) && RegionOk(b) && k < |a.pages| && l < |b.pages| && !Overlap(a, b)
    ensures a.start + k * PAGE != b.start + l * PAGE
  {
  }

  lemma NoOverlapIsClear(s: State, v: nat, r: nat)
    requires Handles(s) && v < |s.spaces| && r < |s.regions| && r in s.spaces[v].regions && NoOverlap(s, v)
    ensures Clear(s, v, r)
  {
    var rs := s.spaces[v].regions;
    var i :| 0 <= i < |rs| && rs[i] == r;
    forall q | q in rs && q != r ensures !Overlap(s.regions[r], s.regions[q]) {
      var j :| 0 <= j < |rs| && rs[j] == q;
      assert !Overlap(s.regions[rs[if i < j then i else j]], s.regions[rs[if i < j then j else i]]);
    }
  }

  /** Without overlap no page is listed twice. */
  lemma NoOverlapUnique(s: State, v: nat)
    requires Handles(s) && ListInv(s) && v < |s.spaces| && NoOverlap(s, v)
    ensures UniqueAddresses(s.spaces[v].mapped)
  {
    var mapped := s.spaces[v].mapped;
    forall i, j | 0 <= i < j < |mapped| ensures mapped[i].v != mapped[j].v {
      var _ := EntryOfRegion(s, v, i);
      NoOverlapIsClear(s, v, mapped[i].region);
      ClearListsOnce(s, v, i, j);
    }
  }

  // ---------------------------------------------------------------- first and last entry

  lemma {:induction false} SearchMisses(mapped: seq<MapEntry>, x: nat)
    requires forall i :: 0 <= i < |mapped| ==> mapped[i].v != P.MemAlign(x)
    ensures GetPhysical(mapped, x) == 0
    decreases |mapped|
  {
    if mapped != [] { SearchMisses(mapped[1..], x); }
  }

  lemma {:induction false} SearchFindsFirst(mapped: seq<MapEntry>, x: nat, i: nat)
    requires i < |mapped| && mapped[i].v == P.MemAlign(x)
    requires forall k :: 0 <= k < i ==> mapped[k].v != P.MemAlign(x)
    ensures GetPhysical(mapped, x) == mapped[i].p + (x - P.MemAlign(x))
    decreases |mapped|
  {
    if i > 0 { SearchFindsFirst(mapped[1..], x, i - 1); }
  }

  lemma {:induction false} TreeMisses(mapped: seq<MapEntry>, d: P.Digits)
    requires forall i :: 0 <= i < |mapped| ==> P.DigitsOf(mapped[i].v) != d
    ensures LastWrite(mapped, d) == None
    decreases |mapped|
  {
    if mapped != [] {
      assert P.DigitsOf(mapped[|mapped| - 1].v) != d;
      TreeMisses(mapped[..|mapped| - 1], d);
    }
  }

  lemma {:induction false} TreeFindsLast(mapped: seq<MapEntry>, d: P.Digits, i: nat)
    requires i < |mapped| && P.DigitsOf(mapped[i].v) == d
    requires forall k :: i < k < |mapped| ==> P.DigitsOf(mapped[k].v) != d
    ensures LastWrite(mapped, d) == Some(mapped[i].p % P.LIMIT)
    decreases |mapped|
  {
    var n := |mapped| - 1;
    if i < n {
      assert P.DigitsOf(mapped[n].v) != d;
      TreeFindsLast(mapped[..n], d, i);
    }
  }

  /** For 48-bit addresses, being on the page that starts at a means aligning down to a. */
  lemma DigitsIffAligned(a: nat, x: nat)
    requires a % PAGE == 0 && a < P.CANONICAL && x < P.CANONICAL
    ensures P.DigitsOf(a) == P.DigitsOf(x) <==> a == P.MemAlign(x)
  {
    P.SamePageIffDigits(a, x);
    SmallPageNumber(a);
    SmallPageNumber(x);
  }

  lemma SmallPageNumber(x: nat)
    requires x < P.CANONICAL
    ensures P.PageNumber(x) * PAGE == P.MemAlign(x)
    ensures x % PAGE == 0 ==> P.MemAlign(x) == x
  {
    assert x % P.CANONICAL == x;
  }

  /** The entries whose page holds x: those whose address is x aligned down. */
  lemma MatchEither(s: State, v: nat, x: nat, i: nat)
    requires Handles(s) && ListInv(s) && v < |s.spaces| && i < |s.spaces[v].mapped|
    requires Low(s.spaces[v].mapped) && x < P.CANONICAL
    ensures P.DigitsOf(s.spaces[v].mapped[i].v) == P.DigitsOf(x) <==> s.spaces[v].mapped[i].v == P.MemAlign(x)
    ensures s.spaces[v].mapped[i].p % P.LIMIT == s.spaces[v].mapped[i].p > 0
  {
    hide ListInv, P.DigitsOf;
    var k := EntryOfRegion(s, v, i);
    assert EntryLow(s.spaces[v].mapped[i]);
    DigitsIffAligned(s.spaces[v].mapped[i].v, x);
  }

  lemma {:induction false} FirstEntry(mapped: seq<MapEntry>, a: nat, i: nat) returns (f: nat)
    requires i < |mapped| && mapped[i].v == a
    ensures f <= i && mapped[f].v == a && forall k :: 0 <= k < f ==> mapped[k].v != a
    decreases i
  {
    if j :| 0 <= j < i && mapped[j].v == a {
      f := FirstEntry(mapped, a, j);
    } else {
      f := i;
    }
  }

  lemma {:induction false} LastEntry(mapped: seq<MapEntry>, a: nat, i: nat) returns (l: nat)
    requires i < |mapped| && mapped[i].v == a
    ensures i <= l < |mapped| && mapped[l].v == a && forall k :: l < k < |mapped| ==> mapped[k].v != a
    decreases |mapped| - i
  {
    if j :| i < j < |mapped| && mapped[j].v == a {
      l := LastEntry(mapped, a, j);
    } else {
      l := i;
    }
  }

  ghost predicate IsFirst(mapped: seq<MapEntry>, i: nat)
    requires i < |mapped|
  {
    forall k :: 0 <= k < i ==> mapped[k].v != mapped[i].v
  }

  ghost predicate IsLast(mapped: seq<MapEntry>, i: nat)
    requires i < |mapped|
  {
    forall k :: i < k < |mapped| ==> mapped[k].v != mapped[i].v
  }

  /** At a listed page, search and walk agree exactly when its first and its last entry hold the same frame. */
  lemma AgreesAtListed(s: State, v: nat, x: nat, f: nat, l: nat)
    requires Inv(s) && v < |s.spaces| && Low(s.spaces[v].mapped) && x < P.CANONICAL
    requires f < |s.spaces[v].mapped| && l < |s.spaces[v].mapped|
    requires s.spaces[v].mapped[f].v == s.spaces[v].mapped[l].v == P.MemAlign(x)
    requires IsFirst(s.spaces[v].mapped, f) && IsLast(s.spaces[v].mapped, l)
    ensures Agrees(s, v, x) <==> s.spaces[v].mapped[f].p == s.spaces[v].mapped[l].p
  {
    hide P.DigitsOf, P.WalkDigits, ListInv;
    var mapped := s.spaces[v].mapped;
    assert TreeAgrees(s, v);
    forall k | 0 <= k < |mapped|
      ensures P.DigitsOf(mapped[k].v) == P.DigitsOf(x) <==> mapped[k].v == P.MemAlign(x)
    {
      MatchEither(s, v, x, k);
    }
    SearchFindsFirst(mapped, x, f);
    TreeFindsLast(mapped, P.DigitsOf(x), l);
    MatchEither(s, v, x, l);
  }

  /** At a page that is not listed, both find nothing. */
  lemma AgreesAtUnlisted(s: State, v: nat, x: nat)
    requires Inv(s) && v < |s.spaces| && Low(s.spaces[v].mapped) && x < P.CANONICAL
    requires forall i :: 0 <= i < |s.spaces[v].mapped| ==> s.spaces[v].mapped[i].v != P.MemAlign(x)
    ensures Agrees(s, v, x) && P.Walk(s.paging, v, x) == None
  {
    hide P.DigitsOf, P.WalkDigits, ListInv;
    var mapped := s.spaces[v].mapped;
    assert TreeAgrees(s, v);
    forall k | 0 <= k < |mapped| ensures P.DigitsOf(mapped[k].v) != P.DigitsOf(x) {
      MatchEither(s, v, x, k);
    }
    SearchMisses(mapped, x);
    TreeMisses(mapped, P.DigitsOf(x));
  }

  /** For every listed page, the first and the last entry hold the same frame. */
  ghost predicate EndsMatch(mapped: seq<MapEntry>) {
    forall f, l :: 0 <= f < |mapped| && 0 <= l < |mapped| && IsFirst(mapped, f) && IsLast(mapped, l) ==>
      mapped[f].v == mapped[l].v ==> mapped[f].p == mapped[l].p
  }

  /**
   In every state of the invariant, the list search and the page-table walk give the same physical
   address for all 48-bit addresses exactly when the first and the last entry of every listed page
   hold the same frame.
   */
  lemma AgreeExactly(s: State, v: nat)
    requires Inv(s) && v < |s.spaces| && Low(s.spaces[v].mapped)
    ensures (forall x: nat :: x < P.CANONICAL ==> Agrees(s, v, x)) <==> EndsMatch(s.spaces[v].mapped)
  {
    hide ListInv, TreeInv, Agrees, IsFirst, IsLast;
    var mapped := s.spaces[v].mapped;
    if EndsMatch(mapped) {
      forall x: nat | x < P.CANONICAL ensures Agrees(s, v, x) {
        AgreesAt(s, v, x);
      }
    }
    if forall x: nat :: x < P.CANONICAL ==> Agrees(s, v, x) {
      forall f, l | 0 <= f < |mapped| && 0 <= l < |mapped| && IsFirst(mapped, f) && IsLast(mapped, l)
        ensures mapped[f].v == mapped[l].v ==> mapped[f].p == mapped[l].p
      {
        if mapped[f].v == mapped[l].v {
          ListedAligned(s, v, f);
          AgreesAtListed(s, v, mapped[f].v, f, l);
        }
      }
    }
  }

  lemma ListedAligned(s: State, v: nat, i: nat)
    requires Inv(s) && v < |s.spaces| && Low(s.spaces[v].mapped) && i < |s.spaces[v].mapped|
    ensures s.spaces[v].mapped[i].v < P.CANONICAL && P.MemAlign(s.spaces[v].mapped[i].v) == s.spaces[v].mapped[i].v
  {
    var _ := EntryOfRegion(s, v, i);
    assert EntryLow(s.spaces[v].mapped[i]);
  }

  lemma AgreesAt(s: State, v: nat, x: nat)
    requires Inv(s) && v < |s.spaces| && Low(s.spaces[v].mapped) && x < P.CANONICAL
    requires EndsMatch(s.spaces[v].mapped)
    ensures Agrees(s, v, x)
  {
    hide ListInv, TreeInv, Agrees;
    var mapped, a := s.spaces[v].mapped, P.MemAlign(x);
    if i :| 0 <= i < |mapped| && mapped[i].v == a {
      var f := FirstEntry(mapped, a, i);
      var l := LastEntry(mapped, a, i);
      assert IsFirst(mapped, f) && IsLast(mapped, l);
      AgreesAtListed(s, v, x, f, l);
    } else {
      AgreesAtUnlisted(s, v, x);
    }
  }

  /**
   In every state of the invariant, where the attached regions do not overlap, the list search and
   the page-table walk give the same physical address for every 48-bit virtual address.
   */
  lemma SearchIsTheWalk(s: State, v: nat, x: nat)
    requires Inv(s) && v < |s.spaces| && NoOverlap(s, v) && Low(s.spaces[v].mapped) && x < P.CANONICAL
    ensures Agrees(s, v, x)
  {
    hide ListInv, TreeInv, Agrees;
    NoOverlapUnique(s, v);
    AgreesAt(s, v, x);
  }

  /** The same over whole runs: whatever is created, attached, mapped, resized and allocated. */
  lemma RunAgrees(heap: nat, pmem: seq<Pmem.PageType>, ops: seq<Op>, v: nat, x: nat)
    requires NoPageZero(ops) && Run(heap, pmem, ops).paging.heap <= P.LIMIT && x < P.CANONICAL
    requires v < |Run(heap, pmem, ops).spaces| && NoOverlap(Run(heap, pmem, ops), v)
    requires Low(Run(heap, pmem, ops).spaces[v].mapped)
    ensures Agrees(Run(heap, pmem, ops), v, x)
  {
    hide Run, Agrees;
    RunKeepsInv(heap, pmem, ops, false);
    SearchIsTheWalk(Run(heap, pmem, ops), v, x);
  }

  // ---------------------------------------------------------------- overlap makes them differ

  /** Overlapping regions list some page twice. */
  lemma OverlapListsTwice(s: State, v: nat, q: nat, r: nat) returns (i: nat, j: nat)
    requires Handles(s) && ListInv(s) && v < |s.spaces|
    requires q in s.spaces[v].regions && r in s.spaces[v].regions && q != r
    requires Overlap(s.regions[q], s.regions[r])
    ensures i < j < |s.spaces[v].mapped| && s.spaces[v].mapped[i].v == s.spaces[v].mapped[j].v
  {
    var a, b := s.regions[q], s.regions[r];
    assert RegionOk(a) && RegionOk(b);
    var k, l := CommonPage(a.start, |a.pages|, b.start, |b.pages|);
    i := RegionEntry(s, v, q, k);
    j := RegionEntry(s, v, r, l);
    if i > j { i, j := j, i; }
  }

  lemma CommonPage(a: nat, m: nat, b: nat, n: nat) returns (k: nat, l: nat)
    requires a % PAGE == 0 && b % PAGE == 0 && m > 0 && n > 0
    requires a < b + PAGE * n && b < a + PAGE * m
    ensures k < m && l < n && a + k * PAGE == b + l * PAGE
  {
    if a <= b {
      k, l := (b - a) / PAGE, 0;
    } else {
      k, l := 0, (a - b) / PAGE;
    }
  }

  /**
   When no page is listed twice with the same frame, search and walk agree on all 48-bit addresses
   exactly when the attached regions do not overlap.
   */
  lemma AgreeExactlyWithoutOverlap(s: State, v: nat)
    requires Inv(s) && v < |s.spaces| && Low(s.spaces[v].mapped) && FramesDiffer(s.spaces[v].mapped)
    ensures (forall x: nat :: x < P.CANONICAL ==> Agrees(s, v, x)) <==> NoOverlap(s, v)
  {
    hide ListInv, TreeInv, Agrees;
    AgreeExactly(s, v);
    if NoOverlap(s, v) {
      NoOverlapUnique(s, v);
    } else {
      var mapped, rs := s.spaces[v].mapped, s.spaces[v].regions;
      var m, n :| 0 <= m < n < |rs| && Overlap(s.regions[rs[m]], s.regions[rs[n]]);
      RegionsDistinct(s, v, m, n);
      var i, j := OverlapListsTwice(s, v, rs[m], rs[n]);
      var f := FirstEntry(mapped, mapped[i].v, i);
      var l := LastEntry(mapped, mapped[i].v, j);
      assert IsFirst(mapped, f) && IsLast(mapped, l);
    }
  }

  lemma RegionsDistinct(s: State, v: nat, m: nat, n: nat)
    requires Inv(s) && v < |s.spaces| && m < n < |s.spaces[v].regions|
    ensures s.spaces[v].regions[m] != s.spaces[v].regions[n]
  {
    assert SpaceOk(s.spaces[v], |s.regions|);
  }
}
