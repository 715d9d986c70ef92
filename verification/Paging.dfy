/**
 The 4-level page tables of an address space: how tables are cut from kernel
 heap blocks, how one page is entered, and what the processor's walk then finds.

 The memory that holds page tables is one map shared by every address space, so
 that nothing here assumes two address spaces use different tables: that is proved.
 */
module Paging {
  import opened Machine

  // ---------------------------------------------------------------- address arithmetic

  const CANONICAL: nat := 0x1_0000_0000_0000       // 2^48, the part of an address the walk looks at
  const FRAMES: nat := 0x1_0000_0000_0000          // addr_12_shifted is a 48-bit field
  const LIMIT: nat := 0x1000_0000_0000_0000        // FRAMES * PAGE: addresses an entry can hold
  const BLOCK: nat := 40960                        // ten tables of 512 entries of 8 bytes
  const LIST_NODE: nat := 16

  /** ALIGN(addr, PAGE), for addresses without wrap-around. */
  function MemAlign(addr: nat): (r: nat)
    ensures r <= addr < r + PAGE && r % PAGE == 0
  {
    addr - addr % PAGE
  }

  function AlignNext(addr: nat): (r: nat)
    ensures addr <= r < addr + PAGE && r % PAGE == 0
  {
    MemAlign(addr + PAGE - 1)
  }

  /** 1 << shifting_bits(level): the bytes one table of that level translates. */
  function Span(level: nat): nat
    requires level <= 4
  {
    if level == 0 then 0x1000
    else if level == 1 then 0x20_0000
    else if level == 2 then 0x4000_0000
    else if level == 3 then 0x80_0000_0000
    else 0x1_0000_0000_0000
  }

  /** index_for_level */
  function Index(level: nat, v: nat): (i: nat)
    requires 1 <= level <= 4
    ensures i < 512
  {
    (v % Span(level)) / Span(level - 1)
  }

  /** The four table indices of an address; the index for level k is at position k - 1. */
  type Digits = d: seq<nat> | |d| == 4 && forall k :: 0 <= k < 4 ==> d[k] < 512 witness [0, 0, 0, 0]

  function DigitsOf(v: nat): Digits {
    [Index(1, v), Index(2, v), Index(3, v), Index(4, v)]
  }

  /** `high` followed by the lowest `level` digits, read as one base-512 number. */
  function Append(high: nat, level: nat, d: Digits): nat
    requires level <= 4
    decreases level, d
  {
    if level == 0 then high else Append(512 * high + d[level - 1], level - 1, d)
  }

  /** The 48-bit page number of an address. */
  function PageNumber(v: nat): nat {
    v % CANONICAL / PAGE
  }

  predicate SamePage(v: nat, x: nat) {
    PageNumber(v) == PageNumber(x)
  }

  lemma Quotient(a: nat, b: nat, q: nat, r: nat)
    requires b > 0 && a == b * q + r && r < b
    ensures a / b == q && a % b == r
  {
    var d := a / b - q;
    assert b * d == r - a % b by {
      assert a == b * (a / b) + a % b && b * d == b * (a / b) - b * q;
    }
    assert d >= 1 ==> b * d >= b;
    assert d <= -1 ==> b * d <= -(b as int);
  }

  // Each level strips nine bits of the 48-bit address.
  lemma StripLevel1(v: nat)
    ensures v % CANONICAL / Span(0) == 512 * (v % CANONICAL / Span(1)) + Index(1, v)
  {
    var x := v % CANONICAL;
    var q, r := x / 0x20_0000, x % 0x20_0000;
    var d, m := r / 0x1000, r % 0x1000;
    Quotient(x, 0x1000, 512 * q + d, m);
    Quotient(v, 0x20_0000, 0x800_0000 * (v / CANONICAL) + q, r);
  }

  lemma StripLevel2(v: nat)
    ensures v % CANONICAL / Span(1) == 512 * (v % CANONICAL / Span(2)) + Index(2, v)
  {
    var x := v % CANONICAL;
    var q, r := x / 0x4000_0000, x % 0x4000_0000;
    var d, m := r / 0x20_0000, r % 0x20_0000;
    Quotient(x, 0x20_0000, 512 * q + d, m);
    Quotient(v, 0x4000_0000, 0x4_0000 * (v / CANONICAL) + q, r);
  }

  lemma StripLevel3(v: nat)
    ensures v % CANONICAL / Span(2) == 512 * (v % CANONICAL / Span(3)) + Index(3, v)
  {
    var x := v % CANONICAL;
    var q, r := x / 0x80_0000_0000, x % 0x80_0000_0000;
    var d, m := r / 0x4000_0000, r % 0x4000_0000;
    Quotient(x, 0x4000_0000, 512 * q + d, m);
    Quotient(v, 0x80_0000_0000, 512 * (v / CANONICAL) + q, r);
  }

  /** The four indices of an address are exactly the digits of its 48-bit page number. */
  lemma DigitsArePageNumber(v: nat)
    ensures Append(0, 4, DigitsOf(v)) == PageNumber(v)
  {
    StripLevel3(v);
    StripLevel2(v);
    StripLevel1(v);
    AppendFour(DigitsOf(v));
  }

  /** Two addresses take the same way through the tables exactly when they are on one page. */
  lemma SamePageIffDigits(v: nat, x: nat)
    ensures SamePage(v, x) <==> DigitsOf(v) == DigitsOf(x)
  {
    DigitsArePageNumber(v);
    DigitsArePageNumber(x);
    AppendInjective(DigitsOf(v), DigitsOf(x));
  }

  lemma AppendInjective(d: Digits, e: Digits)
    ensures Append(0, 4, d) == Append(0, 4, e) <==> d == e
  {
    AppendFour(d);
    AppendFour(e);
    if Append(0, 4, d) == Append(0, 4, e) {
      LastDigit(d[0], d[1] + 512 * (d[2] + 512 * d[3]), e[0], e[1] + 512 * (e[2] + 512 * e[3]));
      LastDigit(d[1], d[2] + 512 * d[3], e[1], e[2] + 512 * e[3]);
      LastDigit(d[2], d[3], e[2], e[3]);
      assert forall k :: 0 <= k < 4 ==> d[k] == e[k];
    }
  }

  lemma LastDigit(a: nat, p: nat, b: nat, q: nat)
    requires a < 512 && b < 512 && a + 512 * p == b + 512 * q
    ensures a == b && p == q
  {
  }

  lemma AppendFour(d: Digits)
    ensures Append(0, 4, d) == d[0] + 512 * (d[1] + 512 * (d[2] + 512 * d[3]))
  {
    var h := 512 * (512 * d[3] + d[2]) + d[1];
    assert Append(h, 1, d) == 512 * h + d[0];
    assert Append(512 * d[3] + d[2], 2, d) == Append(h, 1, d);
  }

  // ---------------------------------------------------------------- tables in memory

  /** page_entry_t; `large` is the bit the source calls entry_or_pat. */
  datatype Entry = Entry(present: bool, frame: nat, writable: bool, user: bool, large: bool, noExec: bool)

  const ABSENT: Entry := Entry(false, 0, false, false, false, false)

  type Table = t: seq<Entry> | |t| == 512 witness seq(512, _ => ABSENT)

  function EmptyTable(): Table {
    seq(512, _ => ABSENT)
  }

  /** fill_entry_value: the permission arguments are overwritten by its last two assignments. */
  function Fill(e: Entry, ptr: nat): Entry {
    e.(present := true, frame := ptr / PAGE % FRAMES, user := true, writable := true, noExec := false)
  }

  function Target(e: Entry): nat {
    e.frame * PAGE
  }

  lemma FillTarget(e: Entry, t: nat)
    requires t % PAGE == 0 && t < LIMIT
    ensures Target(Fill(e, t)) == t
  {
    assert t / PAGE * PAGE == t && t / PAGE < FRAMES;
  }

  /** native_page_table_t */
  datatype Native = Native(entries: nat, availAddr: nat, availSize: nat, blocks: seq<nat>)

  /** All page-table memory, the kernel heap's bump pointer, and the address spaces. */
  datatype State = State(tables: map<nat, Table>, heap: nat, spaces: seq<Native>)

  /** The table stored at an address; memory no table was cut from reads as zero. */
  function At(tables: map<nat, Table>, addr: nat): Table {
    if addr in tables then tables[addr] else EmptyTable()
  }

  /** kalloc outside any page-table operation. */
  function Bump(s: State, bytes: nat): State {
    s.(heap := s.heap + bytes)
  }

  /** The block-taking branch of allocated_aligned_memory. */
  function TakeBlock(s: State, id: nat): State
    requires id < |s.spaces|
  {
    var block := s.heap;
    var low := MemAlign(block);
    var addr := if low != block then low + PAGE else low;
    var pt := s.spaces[id].(blocks := s.spaces[id].blocks + [block],
                            availAddr := addr, availSize := BLOCK - (addr - block));
    s.(heap := s.heap + BLOCK + LIST_NODE, spaces := s.spaces[id := pt])
  }

  /** allocated_aligned_memory for one table (create_entries). */
  function Cut(s: State, id: nat): (r: (State, nat))
    requires id < |s.spaces|
    ensures |r.0.spaces| == |s.spaces| && s.heap <= r.0.heap
  {
    var s1 := if PAGE > s.spaces[id].availSize then TakeBlock(s, id) else s;
    var pt := s1.spaces[id];
    var pt' := pt.(availAddr := pt.availAddr + PAGE, availSize := pt.availSize - PAGE);
    (s1.(spaces := s1.spaces[id := pt'], tables := s1.tables[pt.availAddr := EmptyTable()]), pt.availAddr)
  }

  /** native_vmem_create: a record, its block list and an empty level-4 table. */
  function NativeCreate(s: State): (r: State)
    ensures |r.spaces| == |s.spaces| + 1 && s.heap <= r.heap
  {
    var s0 := s.(heap := s.heap + 32 + 16, spaces := s.spaces + [Native(0, 0, 0, [])]);
    var (s1, root) := Cut(s0, |s.spaces|);
    s1.(spaces := s1.spaces[|s.spaces| := s1.spaces[|s.spaces|].(entries := root)])
  }

  function Store(tables: map<nat, Table>, addr: nat, i: nat, e: Entry): map<nat, Table>
    requires i < 512
  {
    tables[addr := At(tables, addr)[i := e]]
  }

  /** set_entry */
  function SetEntry(s: State, id: nat, level: nat, addr: nat, d: Digits, p: nat): (r: State)
    requires id < |s.spaces| && 1 <= level <= 4
    ensures |r.spaces| == |s.spaces| && s.heap <= r.heap
    decreases level, d
  {
    var i := d[level - 1];
    var e := At(s.tables, addr)[i];
    if level == 1 then
      s.(tables := Store(s.tables, addr, i, Fill(e, p)))
    else if e.present then
      SetEntry(s, id, level - 1, Target(e), d, p)
    else
      var (s1, t) := Cut(s, id);
      var s2 := s1.(tables := Store(s1.tables, addr, i, Fill(e, t)));
      SetEntry(s2, id, level - 1, t, d, p)
  }

  /** The loop of native_vmem_set: every turn enters the same page again. */
  function SetTimes(s: State, id: nat, v: nat, p: nat, n: nat): (r: State)
    requires id < |s.spaces|
    ensures |r.spaces| == |s.spaces| && s.heap <= r.heap
    decreases n, v
  {
    if n == 0 then s
    else
      var s1 := SetTimes(s, id, v, p, n - 1);
      SetEntry(s1, id, 4, s1.spaces[id].entries, DigitsOf(v), p)
  }

  /** native_vmem_set */
  function NativeSet(s: State, id: nat, v: nat, p: nat, size: nat): (r: State)
    requires id < |s.spaces|
    ensures |r.spaces| == |s.spaces| && s.heap <= r.heap
  {
    if v != MemAlign(v) || p != MemAlign(p) then s else SetTimes(s, id, v, p, size / PAGE)
  }

  // ---------------------------------------------------------------- the processor's walk

  /** Translation of a page starting from a table of the given level. */
  function WalkFrom(tables: map<nat, Table>, level: nat, addr: nat, d: Digits): Option<nat>
    requires 1 <= level <= 4
    decreases level, d
  {
    var e := At(tables, addr)[d[level - 1]];
    if !e.present then None
    else if level == 1 || e.large then Some(Target(e) + Append(0, level - 1, d) * PAGE)
    else WalkFrom(tables, level - 1, Target(e), d)
  }

  function WalkDigits(s: State, id: nat, d: Digits): Option<nat>
    requires id < |s.spaces|
  {
    WalkFrom(s.tables, 4, s.spaces[id].entries, d)
  }

  /** The physical page an address translates to in an address space. */
  function Walk(s: State, id: nat, v: nat): Option<nat>
    requires id < |s.spaces|
  {
    WalkDigits(s, id, DigitsOf(v))
  }

  // ---------------------------------------------------------------- well-formed memory

  /** Which address space a table belongs to, at which level, and for which addresses. */
  datatype Label = Label(space: nat, level: nat, path: seq<nat>)

  ghost predicate Linked(tables: map<nat, Table>, w: map<nat, Label>, a: nat, i: nat)
    requires a in tables && a in w && i < 512
  {
    var e := tables[a][i];
    !e.large &&
    (e.present && w[a].level > 1 ==>
       Target(e) in w && w[Target(e)] == Label(w[a].space, w[a].level - 1, [i] + w[a].path))
  }

  ghost predicate Shaped(tables: map<nat, Table>, w: map<nat, Label>) {
    && w.Keys == tables.Keys
    && (forall a :: a in w ==> a % PAGE == 0 && a < LIMIT && 1 <= w[a].level <= 4)
    && (forall a, i: nat :: a in w && i < 512 ==> Linked(tables, w, a, i))
  }

  /** The part of a block not cut yet is aligned, inside its block and below the bump pointer. */
  ghost predicate WindowOk(pt: Native, heap: nat) {
    pt.availSize >= PAGE ==>
      && pt.availAddr % PAGE == 0
      && |pt.blocks| > 0
      && pt.blocks[|pt.blocks| - 1] <= pt.availAddr
      && pt.availAddr + pt.availSize <= pt.blocks[|pt.blocks| - 1] + BLOCK <= heap
  }

  ghost predicate Apart(pt: Native, a: nat, bytes: nat) {
    pt.availSize >= PAGE ==> a + bytes <= pt.availAddr || pt.availAddr + pt.availSize <= a
  }

  ghost predicate Allocated(s: State) {
    && (forall i :: 0 <= i < |s.spaces| ==> WindowOk(s.spaces[i], s.heap))
    && (forall a :: a in s.tables ==> a + PAGE <= s.heap)
    && (forall a, i :: a in s.tables && 0 <= i < |s.spaces| ==> Apart(s.spaces[i], a, PAGE))
    && (forall i, j :: 0 <= i < |s.spaces| && 0 <= j < |s.spaces| && i != j && s.spaces[i].availSize >= PAGE ==>
          Apart(s.spaces[j], s.spaces[i].availAddr, s.spaces[i].availSize))
  }

  ghost predicate Inv(s: State, w: map<nat, Label>) {
    && Shaped(s.tables, w)
    && Allocated(s)
    && (forall i :: 0 <= i < |s.spaces| ==> s.spaces[i].entries in w && w[s.spaces[i].entries] == Label(i, 4, []))
  }

  ghost predicate WellFormed(s: State) {
    exists w :: Inv(s, w)
  }

  ghost predicate Extends(w: map<nat, Label>, w': map<nat, Label>) {
    forall a :: a in w ==> a in w' && w'[a] == w[a]
  }

  // ---------------------------------------------------------------- cutting tables

  /** A cut table is aligned, lies inside the newest block of its address space, and is nobody else's. */
  lemma CutIsFresh(s: State, id: nat)
    requires Allocated(s) && id < |s.spaces|
    ensures var (s1, t) := Cut(s, id);
            && t % PAGE == 0 && t !in s.tables && t + PAGE <= s1.heap
            && (forall a :: a in s.tables && a % PAGE == 0 ==> a + PAGE <= t || t + PAGE <= a)
            && |s1.spaces[id].blocks| > 0
            && var block := s1.spaces[id].blocks[|s1.spaces[id].blocks| - 1];
               block <= t && t + PAGE <= block + BLOCK <= s1.heap
    ensures Allocated(Cut(s, id).0)
  {
    hide Allocated;
    if PAGE > s.spaces[id].availSize {
      TakeBlockKeeps(s, id);
      CutInWindow(TakeBlock(s, id), id);
      assert Cut(s, id) == Cut(TakeBlock(s, id), id) && TakeBlock(s, id).tables == s.tables;
    } else {
      CutInWindow(s, id);
    }
    var t := Cut(s, id).1;
    forall a | a in s.tables && a % PAGE == 0 ensures a + PAGE <= t || t + PAGE <= a {
      AlignedApart(a, t);
    }
  }

  lemma AlignedApart(a: nat, t: nat)
    requires a % PAGE == 0 && t % PAGE == 0 && a != t
    ensures a + PAGE <= t || t + PAGE <= a
  {
  }

  lemma TakeBlockKeeps(s: State, id: nat)
    requires Allocated(s) && id < |s.spaces|
    ensures Allocated(TakeBlock(s, id))
    ensures TakeBlock(s, id).spaces[id].availSize >= PAGE
  {
    var s1 := TakeBlock(s, id);
    assert forall i :: 0 <= i < |s.spaces| && i != id ==> s1.spaces[i] == s.spaces[i];
    assert s.heap <= s1.spaces[id].availAddr;
  }

  lemma CutInWindow(s: State, id: nat)
    requires Allocated(s) && id < |s.spaces| && s.spaces[id].availSize >= PAGE
    ensures var (s1, t) := Cut(s, id);
            && Allocated(s1)
            && t == s.spaces[id].availAddr && t % PAGE == 0 && t !in s.tables && t + PAGE <= s1.heap
            && |s1.spaces[id].blocks| > 0
            && var block := s1.spaces[id].blocks[|s1.spaces[id].blocks| - 1];
               block <= t && t + PAGE <= block + BLOCK <= s1.heap
  {
    var (s1, t) := Cut(s, id);
    assert WindowOk(s.spaces[id], s.heap);
    assert forall i :: 0 <= i < |s.spaces| && i != id ==> s1.spaces[i] == s.spaces[i];
    assert t in s.tables ==> Apart(s.spaces[id], t, PAGE);
    forall a, i | a in s1.tables && 0 <= i < |s1.spaces| ensures Apart(s1.spaces[i], a, PAGE) {
      if a != t {
        assert Apart(s.spaces[i], a, PAGE);
      } else if i != id {
        assert Apart(s.spaces[i], s.spaces[id].availAddr, s.spaces[id].availSize);
      }
    }
    forall i, j | 0 <= i < |s1.spaces| && 0 <= j < |s1.spaces| && i != j && s1.spaces[i].availSize >= PAGE
      ensures Apart(s1.spaces[j], s1.spaces[i].availAddr, s1.spaces[i].availSize)
    {
      assert Apart(s.spaces[j], s.spaces[i].availAddr, s.spaces[i].availSize);
    }
  }

  // ---------------------------------------------------------------- entering one page

  /** Entry e of the table at addr starts pointing to the fresh empty table t. */
  function LinkTable(tables: map<nat, Table>, addr: nat, i: nat, t: nat): map<nat, Table>
    requires i < 512
  {
    Store(tables[t := EmptyTable()], addr, i, Fill(At(tables[t := EmptyTable()], addr)[i], t))
  }

  lemma LinkKeepsShape(tables: map<nat, Table>, w: map<nat, Label>, addr: nat, i: nat, t: nat)
    requires Shaped(tables, w) && addr in w && i < 512 && w[addr].level > 1
    requires t !in w && t % PAGE == 0 && t < LIMIT
    requires !tables[addr][i].present
    ensures Shaped(LinkTable(tables, addr, i, t), w[t := Label(w[addr].space, w[addr].level - 1, [i] + w[addr].path)])
  {
    var w' := w[t := Label(w[addr].space, w[addr].level - 1, [i] + w[addr].path)];
    var tables' := LinkTable(tables, addr, i, t);
    FillTarget(tables[addr][i], t);
    assert Linked(tables, w, addr, i);
    forall a, k: nat | a in w' && k < 512 ensures Linked(tables', w', a, k) {
      if a != t { assert Linked(tables, w, a, k); }
    }
  }

  /** Hanging an empty table into an absent entry changes no translation at all. */
  lemma {:induction false} LinkKeepsWalks(tables: map<nat, Table>, w: map<nat, Label>, addr: nat, i: nat, t: nat,
                                          a: nat, x: Digits)
    requires Shaped(tables, w) && addr in w && i < 512 && w[addr].level > 1
    requires t !in w && t % PAGE == 0 && t < LIMIT && !tables[addr][i].present
    requires a in w
    ensures WalkFrom(LinkTable(tables, addr, i, t), w[a].level, a, x) == WalkFrom(tables, w[a].level, a, x)
    decreases w[a].level
  {
    var tables' := LinkTable(tables, addr, i, t);
    var k := x[w[a].level - 1];
    assert Linked(tables, w, a, k);
    if a == addr && k == i {
      FillTarget(tables[addr][i], t);
      assert Target(tables'[addr][i]) == t && tables'[t] == EmptyTable();
      assert WalkFrom(tables', w[a].level - 1, t, x) == None;
    } else {
      var e := tables[a][k];
      assert tables'[a][k] == e;
      if e.present && w[a].level > 1 {
        LinkKeepsWalks(tables, w, addr, i, t, Target(e), x);
      }
    }
  }

  lemma LeafKeepsShape(tables: map<nat, Table>, w: map<nat, Label>, addr: nat, i: nat, p: nat)
    requires Shaped(tables, w) && addr in w && i < 512 && w[addr].level == 1
    ensures Shaped(Store(tables, addr, i, Fill(tables[addr][i], p)), w)
  {
    var tables' := Store(tables, addr, i, Fill(tables[addr][i], p));
    forall a, k: nat | a in w && k < 512 ensures Linked(tables', w, a, k) {
      assert Linked(tables, w, a, k);
    }
  }

  /** Writing a leaf entry for v changes no walk for another page or another address space. */
  lemma {:induction false} LeafKeepsOtherWalks(tables: map<nat, Table>, w: map<nat, Label>, addr: nat, v: Digits,
                                               p: nat, a: nat, x: Digits)
    requires Shaped(tables, w) && addr in w && w[addr].level == 1 && w[addr].path == v[1..]
    requires a in w && w[a].path == x[w[a].level..]
    requires w[a].space != w[addr].space || v != x
    ensures WalkFrom(Store(tables, addr, v[0], Fill(tables[addr][v[0]], p)), w[a].level, a, x)
         == WalkFrom(tables, w[a].level, a, x)
    decreases w[a].level
  {
    var k := x[w[a].level - 1];
    assert Linked(tables, w, a, k);
    if w[a].level == 1 {
      assert v == [v[0]] + v[1..] && x == [x[0]] + x[1..];
      assert a == addr ==> k != v[0];
    } else if tables[a][k].present {
      assert x[w[a].level - 1..] == [k] + x[w[a].level..];
      LeafKeepsOtherWalks(tables, w, addr, v, p, Target(tables[a][k]), x);
    }
  }

  /** From the table at addr, the page of v now translates to p. */
  ghost predicate Reaches(tables: map<nat, Table>, level: nat, addr: nat, v: Digits, p: nat)
    requires 1 <= level <= 4
  {
    WalkFrom(tables, level, addr, v) == Some(p / PAGE % FRAMES * PAGE)
  }

  /** No walk through a labelled table changed, except in this address space for the page of v. */
  ghost predicate OthersKept(tables: map<nat, Table>, tables': map<nat, Table>, w: map<nat, Label>, id: nat, v: Digits)
    requires forall a :: a in w ==> 1 <= w[a].level <= 4
  {
    forall a, x: Digits :: a in w && w[a].path == x[w[a].level..] && (w[a].space != id || v != x) ==>
      WalkFrom(tables', w[a].level, a, x) == WalkFrom(tables, w[a].level, a, x)
  }

  ghost predicate SameRoots(s: State, s': State) {
    |s.spaces| == |s'.spaces| && forall i :: 0 <= i < |s.spaces| ==> s'.spaces[i].entries == s.spaces[i].entries
  }

  lemma LeafStep(tables: map<nat, Table>, w: map<nat, Label>, addr: nat, v: Digits, p: nat)
    requires Shaped(tables, w) && addr in w && w[addr].level == 1 && w[addr].path == v[1..]
    ensures var tables' := Store(tables, addr, v[0], Fill(tables[addr][v[0]], p));
            Shaped(tables', w) && Reaches(tables', 1, addr, v, p) && OthersKept(tables, tables', w, w[addr].space, v)
  {
    var tables' := Store(tables, addr, v[0], Fill(tables[addr][v[0]], p));
    LeafKeepsShape(tables, w, addr, v[0], p);
    forall a, x: Digits | a in w && w[a].path == x[w[a].level..] && (w[a].space != w[addr].space || v != x)
      ensures WalkFrom(tables', w[a].level, a, x) == WalkFrom(tables, w[a].level, a, x)
    {
      LeafKeepsOtherWalks(tables, w, addr, v, p, a, x);
    }
  }

  /** A present entry for v passes on what its target reaches. */
  lemma StepDown(tables: map<nat, Table>, level: nat, addr: nat, v: Digits, p: nat)
    requires 2 <= level <= 4 && addr in tables
    requires var e := tables[addr][v[level - 1]];
             e.present && !e.large && Reaches(tables, level - 1, Target(e), v, p)
    ensures Reaches(tables, level, addr, v, p)
  {
  }

  /** What set_entry does from any table on the path of v down to the leaf. */
  lemma {:induction false} SetEntryCorrect(s: State, w: map<nat, Label>, id: nat, level: nat, addr: nat, v: Digits,
                                           p: nat)
    returns (w': map<nat, Label>)
    requires Inv(s, w) && id < |s.spaces| && 1 <= level <= 4
    requires addr in w && w[addr] == Label(id, level, v[level..])
    requires SetEntry(s, id, level, addr, v, p).heap <= LIMIT
    ensures Inv(SetEntry(s, id, level, addr, v, p), w') && Extends(w, w')
    ensures SameRoots(s, SetEntry(s, id, level, addr, v, p))
    ensures Reaches(SetEntry(s, id, level, addr, v, p).tables, level, addr, v, p)
    ensures OthersKept(s.tables, SetEntry(s, id, level, addr, v, p).tables, w, id, v)
    decreases level
  {
    var i := v[level - 1];
    assert v[level - 1..] == [i] + v[level..];
    var e := s.tables[addr][i];
    assert Linked(s.tables, w, addr, i);
    if level == 1 {
      w' := w;
      LeafStep(s.tables, w, addr, v, p);
      AllocatedByKeys(s, Store(s.tables, addr, i, Fill(e, p)));
    } else if e.present {
      w' := SetEntryCorrect(s, w, id, level - 1, Target(e), v, p);
      SetEntryKeepsHigher(s, w, id, level - 1, Target(e), v, p, addr);
      StepDown(SetEntry(s, id, level, addr, v, p).tables, level, addr, v, p);
    } else {
      LinkStep(s, w, id, level, addr, i);
      var (s1, t) := Cut(s, id);
      var s2 := s1.(tables := Store(s1.tables, addr, i, Fill(e, t)));
      w' := SetEntryAfterLink(s.tables, w, s2, id, level, addr, t, v, p);
    }
  }

  /** The rest of set_entry once a new table t hangs in the entry of the table at addr. */
  lemma SetEntryAfterLink(tables: map<nat, Table>, w: map<nat, Label>, s2: State,
                          id: nat, level: nat, addr: nat, t: nat, v: Digits, p: nat)
    returns (w': map<nat, Label>)
    requires Shaped(tables, w) && id < |s2.spaces| && 2 <= level <= 4
    requires addr in w && w[addr] == Label(id, level, v[level..]) && !tables[addr][v[level - 1]].present
    requires t !in w && t % PAGE == 0 && t < LIMIT
    requires s2.tables == LinkTable(tables, addr, v[level - 1], t)
    requires s2.tables[addr][v[level - 1]].present && Target(s2.tables[addr][v[level - 1]]) == t
    requires Inv(s2, w[t := Label(id, level - 1, [v[level - 1]] + w[addr].path)])
    requires SetEntry(s2, id, level - 1, t, v, p).heap <= LIMIT
    ensures Inv(SetEntry(s2, id, level - 1, t, v, p), w') && Extends(w, w')
    ensures SameRoots(s2, SetEntry(s2, id, level - 1, t, v, p))
    ensures Reaches(SetEntry(s2, id, level - 1, t, v, p).tables, level, addr, v, p)
    ensures OthersKept(tables, SetEntry(s2, id, level - 1, t, v, p).tables, w, id, v)
    decreases level, 0
  {
    var i := v[level - 1];
    assert v[level - 1..] == [i] + v[level..];
    var w1 := w[t := Label(id, level - 1, [i] + w[addr].path)];
    w' := SetEntryCorrect(s2, w1, id, level - 1, t, v, p);
    var tables3 := SetEntry(s2, id, level - 1, t, v, p).tables;
    ReachesThroughLink(s2, w1, id, level, addr, t, v, p);
    LinkThenKeep(tables, w, addr, i, t, tables3, id, v);
  }

  lemma ReachesThroughLink(s: State, w: map<nat, Label>, id: nat, level: nat, addr: nat, t: nat, v: Digits, p: nat)
    requires Inv(s, w) && id < |s.spaces| && 2 <= level <= 4
    requires addr in w && w[addr].level == level && t in w && w[t] == Label(id, level - 1, v[level - 1..])
    requires s.tables[addr][v[level - 1]].present && Target(s.tables[addr][v[level - 1]]) == t
    requires SetEntry(s, id, level - 1, t, v, p).heap <= LIMIT
    requires Reaches(SetEntry(s, id, level - 1, t, v, p).tables, level - 1, t, v, p)
    ensures Reaches(SetEntry(s, id, level - 1, t, v, p).tables, level, addr, v, p)
  {
    SetEntryKeepsHigher(s, w, id, level - 1, t, v, p, addr);
    assert Linked(s.tables, w, addr, v[level - 1]);
    StepDown(SetEntry(s, id, level - 1, t, v, p).tables, level, addr, v, p);
  }

  lemma LinkThenKeep(tables: map<nat, Table>, w: map<nat, Label>, addr: nat, i: nat, t: nat,
                     tables': map<nat, Table>, id: nat, v: Digits)
    requires Shaped(tables, w) && addr in w && i < 512 && w[addr].level > 1
    requires t !in w && t % PAGE == 0 && t < LIMIT && !tables[addr][i].present
    requires OthersKept(LinkTable(tables, addr, i, t), tables',
                        w[t := Label(id, w[addr].level - 1, [i] + w[addr].path)], id, v)
    ensures OthersKept(tables, tables', w, id, v)
  {
    var w1 := w[t := Label(id, w[addr].level - 1, [i] + w[addr].path)];
    forall a, x: Digits | a in w && w[a].path == x[w[a].level..] && (w[a].space != id || v != x)
      ensures WalkFrom(tables', w[a].level, a, x) == WalkFrom(tables, w[a].level, a, x)
    {
      LinkKeepsWalks(tables, w, addr, i, t, a, x);
      assert a in w1 && w1[a] == w[a];
    }
  }

  /** Only where tables lie matters to the allocator, not what they contain. */
  lemma AllocatedByKeys(s: State, tables: map<nat, Table>)
    requires Allocated(s) && tables.Keys == s.tables.Keys
    ensures Allocated(s.(tables := tables))
  {
    assert forall a :: a in tables <==> a in s.tables;
  }

  /** Cutting a table and linking it into an absent entry keeps the invariant. */
  lemma LinkStep(s: State, w: map<nat, Label>, id: nat, level: nat, addr: nat, i: nat)
    requires Inv(s, w) && id < |s.spaces| && 2 <= level <= 4 && i < 512
    requires addr in w && w[addr].space == id && w[addr].level == level
    requires !s.tables[addr][i].present && Cut(s, id).0.heap <= LIMIT
    ensures var (s1, t) := Cut(s, id);
            var s2 := s1.(tables := Store(s1.tables, addr, i, Fill(s.tables[addr][i], t)));
            && t !in w && t % PAGE == 0 && t < LIMIT
            && s2.tables == LinkTable(s.tables, addr, i, t)
            && Target(s2.tables[addr][i]) == t && s2.tables[addr][i].present
            && Inv(s2, w[t := Label(id, level - 1, [i] + w[addr].path)])
            && SameRoots(s, s2)
  {
    CutIsFresh(s, id);
    var (s1, t) := Cut(s, id);
    LinkKeepsShape(s.tables, w, addr, i, t);
    FillTarget(s.tables[addr][i], t);
    var s2 := s1.(tables := Store(s1.tables, addr, i, Fill(s.tables[addr][i], t)));
    AllocatedByKeys(s1, s2.tables);
  }

  /** set_entry leaves every table above its starting level as it was. */
  lemma {:induction false} SetEntryKeepsHigher(s: State, w: map<nat, Label>, id: nat, level: nat, addr: nat, v: Digits,
                                               p: nat, b: nat)
    requires Inv(s, w) && id < |s.spaces| && 1 <= level <= 4
    requires addr in w && w[addr] == Label(id, level, v[level..])
    requires SetEntry(s, id, level, addr, v, p).heap <= LIMIT
    requires b in w && w[b].level > level
    ensures b in SetEntry(s, id, level, addr, v, p).tables
    ensures SetEntry(s, id, level, addr, v, p).tables[b] == s.tables[b]
    decreases level
  {
    var i := v[level - 1];
    assert v[level - 1..] == [i] + v[level..];
    var e := s.tables[addr][i];
    assert Linked(s.tables, w, addr, i);
    if level > 1 {
      if e.present {
        SetEntryKeepsHigher(s, w, id, level - 1, Target(e), v, p, b);
      } else {
        LinkStep(s, w, id, level, addr, i);
        var (s1, t) := Cut(s, id);
        var s2 := s1.(tables := Store(s1.tables, addr, i, Fill(e, t)));
        SetEntryKeepsHigher(s2, w[t := Label(id, level - 1, [i] + w[addr].path)], id, level - 1, t, v, p, b);
      }
    }
  }

  // ---------------------------------------------------------------- whole operations

  /** One page was entered: the walk changed for these digits in this address space, and nowhere else. */
  ghost predicate PageEntered(s: State, s': State, id: nat, v: Digits, p: nat)
    requires |s'.spaces| == |s.spaces|
  {
    forall j, d: Digits :: 0 <= j < |s.spaces| ==>
      WalkDigits(s', j, d) == if j == id && d == v then Some(p / PAGE % FRAMES * PAGE) else WalkDigits(s, j, d)
  }

  lemma SetPageCorrect(s: State, id: nat, v: Digits, p: nat)
    requires WellFormed(s) && id < |s.spaces|
    requires SetEntry(s, id, 4, s.spaces[id].entries, v, p).heap <= LIMIT
    ensures var s' := SetEntry(s, id, 4, s.spaces[id].entries, v, p);
            WellFormed(s') && PageEntered(s, s', id, v, p)
  {
    var w: map<nat, Label> :| Inv(s, w);
    var root := s.spaces[id].entries;
    var s' := SetEntry(s, id, 4, root, v, p);
    var w' := SetEntryCorrect(s, w, id, 4, root, v, p);
    forall j, d: Digits | 0 <= j < |s.spaces|
      ensures WalkDigits(s', j, d) == if j == id && d == v then Some(p / PAGE % FRAMES * PAGE) else WalkDigits(s, j, d)
    {
      RootWalk(s, w, s', id, v, p, j, d);
    }
  }

  lemma RootWalk(s: State, w: map<nat, Label>, s': State, id: nat, v: Digits, p: nat, j: nat, x: Digits)
    requires Inv(s, w) && SameRoots(s, s') && id < |s.spaces| && j < |s.spaces|
    requires Reaches(s'.tables, 4, s.spaces[id].entries, v, p) && OthersKept(s.tables, s'.tables, w, id, v)
    ensures WalkFrom(s'.tables, 4, s'.spaces[j].entries, x)
         == if j == id && v == x then Some(p / PAGE % FRAMES * PAGE) else WalkFrom(s.tables, 4, s.spaces[j].entries, x)
  {
    var a := s.spaces[j].entries;
    assert a in w && w[a].path == x[w[a].level..];
  }

  lemma {:induction false} SetTimesCorrect(s: State, id: nat, v: nat, p: nat, n: nat)
    requires WellFormed(s) && id < |s.spaces|
    requires SetTimes(s, id, v, p, n).heap <= LIMIT
    ensures WellFormed(SetTimes(s, id, v, p, n))
    ensures if n == 0 then SetTimes(s, id, v, p, n) == s
            else PageEntered(s, SetTimes(s, id, v, p, n), id, DigitsOf(v), p)
  {
    if n > 0 {
      var before := SetTimes(s, id, v, p, n - 1);
      SetTimesCorrect(s, id, v, p, n - 1);
      SetPageCorrect(before, id, DigitsOf(v), p);
      if n > 1 { EnteredTwice(s, before, SetTimes(s, id, v, p, n), id, DigitsOf(v), p); }
    }
  }

  lemma EnteredTwice(s: State, s1: State, s2: State, id: nat, v: Digits, p: nat)
    requires |s.spaces| == |s1.spaces| == |s2.spaces|
    requires PageEntered(s, s1, id, v, p) && PageEntered(s1, s2, id, v, p)
    ensures PageEntered(s, s2, id, v, p)
  {
  }

  /** Where and to what native_vmem_set changes the walk. */
  ghost predicate SetChanges(s: State, s': State, id: nat, v: nat, p: nat, size: nat)
    requires |s'.spaces| == |s.spaces|
  {
    forall j, d: Digits :: 0 <= j < |s.spaces| ==>
      WalkDigits(s', j, d)
      == if j == id && d == DigitsOf(v) && v % PAGE == 0 && p % PAGE == 0 && size >= PAGE
         then Some(p % LIMIT) else WalkDigits(s, j, d)
  }

  lemma NativeSetDigits(s: State, id: nat, v: nat, p: nat, size: nat)
    requires WellFormed(s) && id < |s.spaces| && NativeSet(s, id, v, p, size).heap <= LIMIT
    ensures WellFormed(NativeSet(s, id, v, p, size)) && SetChanges(s, NativeSet(s, id, v, p, size), id, v, p, size)
  {
    if v == MemAlign(v) && p == MemAlign(p) {
      SetTimesCorrect(s, id, v, p, size / PAGE);
      AlignedFrame(p);
    }
  }

  /**
   native_vmem_set enters the page of v when both addresses are aligned and the size is at least
   one page; it never enters a second page, and touches no other page and no other address space.
   */
  lemma NativeSetCorrect(s: State, id: nat, v: nat, p: nat, size: nat, j: nat, x: nat)
    requires WellFormed(s) && id < |s.spaces| && NativeSet(s, id, v, p, size).heap <= LIMIT && j < |s.spaces|
    ensures Walk(NativeSet(s, id, v, p, size), j, x)
         == if j == id && SamePage(v, x) && v % PAGE == 0 && p % PAGE == 0 && size >= PAGE
            then Some(p % LIMIT) else Walk(s, j, x)
  {
    NativeSetDigits(s, id, v, p, size);
    SamePageIffDigits(v, x);
  }

  lemma AlignedFrame(p: nat)
    requires p % PAGE == 0
    ensures p / PAGE % FRAMES * PAGE == p % LIMIT
  {
    var k := p / PAGE;
    assert p == LIMIT * (k / FRAMES) + PAGE * (k % FRAMES);
  }

  lemma BumpCorrect(s: State, bytes: nat)
    requires WellFormed(s)
    ensures WellFormed(Bump(s, bytes))
    ensures forall j, d: Digits :: 0 <= j < |s.spaces| ==> WalkDigits(Bump(s, bytes), j, d) == WalkDigits(s, j, d)
  {
    var w :| Inv(s, w);
    assert Inv(Bump(s, bytes), w);
  }

  /** A new address space translates nothing, and no existing translation changes. */
  lemma NativeCreateCorrect(s: State)
    requires WellFormed(s) && NativeCreate(s).heap <= LIMIT
    ensures WellFormed(NativeCreate(s))
    ensures forall d: Digits :: WalkDigits(NativeCreate(s), |s.spaces|, d) == None
    ensures forall j, d: Digits :: 0 <= j < |s.spaces| ==> WalkDigits(NativeCreate(s), j, d) == WalkDigits(s, j, d)
  {
    var w: map<nat, Label> :| Inv(s, w);
    var root := NewRoot(s, w);
    forall j, d: Digits | 0 <= j < |s.spaces| ensures WalkDigits(NativeCreate(s), j, d) == WalkDigits(s, j, d) {
      AddTableKeepsWalks(s.tables, w, root, s.spaces[j].entries, d);
    }
  }

  lemma NewRoot(s: State, w: map<nat, Label>) returns (root: nat)
    requires Inv(s, w) && NativeCreate(s).heap <= LIMIT
    ensures root !in w && NativeCreate(s).tables == s.tables[root := EmptyTable()]
    ensures NativeCreate(s).spaces[|s.spaces|].entries == root
    ensures forall i :: 0 <= i < |s.spaces| ==> NativeCreate(s).spaces[i].entries == s.spaces[i].entries
    ensures Inv(NativeCreate(s), w[root := Label(|s.spaces|, 4, [])])
  {
    var n := |s.spaces|;
    var s0 := s.(heap := s.heap + 32 + 16, spaces := s.spaces + [Native(0, 0, 0, [])]);
    assert Allocated(s0);
    CutIsFresh(s0, n);
    root := Cut(s0, n).1;
    CutKeepsRoots(s0, n);
    var s1 := Cut(s0, n).0;
    assert NativeCreate(s) == s1.(spaces := s1.spaces[n := s1.spaces[n].(entries := root)]);
    AllocatedByWindows(Cut(s0, n).0, NativeCreate(s));
    NewRootKeepsShape(s.tables, w, root, n);
  }

  lemma CutKeepsRoots(s: State, id: nat)
    requires id < |s.spaces|
    ensures SameRoots(s, Cut(s, id).0)
  {
  }

  lemma NewRootKeepsShape(tables: map<nat, Table>, w: map<nat, Label>, root: nat, id: nat)
    requires Shaped(tables, w) && root !in w && root % PAGE == 0 && root < LIMIT
    ensures Shaped(tables[root := EmptyTable()], w[root := Label(id, 4, [])])
  {
    var w' := w[root := Label(id, 4, [])];
    var tables' := tables[root := EmptyTable()];
    forall a, i: nat | a in w' && i < 512 ensures Linked(tables', w', a, i) {
      if a != root { assert Linked(tables, w, a, i); }
    }
  }

  lemma AllocatedByWindows(s: State, s': State)
    requires Allocated(s) && s'.tables == s.tables && s'.heap == s.heap && |s'.spaces| == |s.spaces|
    requires forall i :: 0 <= i < |s.spaces| ==> s'.spaces[i] == s.spaces[i].(entries := s'.spaces[i].entries)
    ensures Allocated(s')
  {
    forall i | 0 <= i < |s'.spaces| ensures WindowOk(s'.spaces[i], s'.heap) {
      assert WindowOk(s.spaces[i], s.heap);
    }
    forall a, i | a in s'.tables && 0 <= i < |s'.spaces| ensures Apart(s'.spaces[i], a, PAGE) {
      assert Apart(s.spaces[i], a, PAGE);
    }
    forall i, j | 0 <= i < |s'.spaces| && 0 <= j < |s'.spaces| && i != j && s'.spaces[i].availSize >= PAGE
      ensures Apart(s'.spaces[j], s'.spaces[i].availAddr, s'.spaces[i].availSize)
    {
      assert Apart(s.spaces[j], s.spaces[i].availAddr, s.spaces[i].availSize);
    }
  }

  lemma {:induction false} AddTableKeepsWalks(tables: map<nat, Table>, w: map<nat, Label>, t: nat, a: nat, x: Digits)
    requires Shaped(tables, w) && t !in w && a in w
    ensures WalkFrom(tables[t := EmptyTable()], w[a].level, a, x) == WalkFrom(tables, w[a].level, a, x)
    decreases w[a].level
  {
    var e := tables[a][x[w[a].level - 1]];
    assert Linked(tables, w, a, x[w[a].level - 1]);
    if e.present && w[a].level > 1 {
      AddTableKeepsWalks(tables, w, t, Target(e), x);
    }
  }

  // ---------------------------------------------------------------- whole runs

  /** One kernel action on page-table memory; Other is any unrelated kalloc. */
  datatype Op = Create | Set(id: nat, v: nat, p: nat, size: nat) | Other(bytes: nat)

  function Step(s: State, op: Op): (r: State)
    ensures s.heap <= r.heap
  {
    match op
    case Create => NativeCreate(s)
    case Set(id, v, p, size) => if id < |s.spaces| then NativeSet(s, id, v, p, size) else s
    case Other(bytes) => Bump(s, bytes)
  }

  /** The state after a run that starts with an empty heap at `start`. */
  function Run(start: nat, ops: seq<Op>): State {
    if ops == [] then State(map[], start, [])
    else Step(Run(start, ops[..|ops| - 1]), ops[|ops| - 1])
  }

  /** The same run on plain maps from 48-bit page numbers to physical pages. */
  function FlatStep(f: seq<map<nat, nat>>, op: Op): seq<map<nat, nat>> {
    match op
    case Create => f + [map[]]
    case Set(id, v, p, size) =>
      if id < |f| && v % PAGE == 0 && p % PAGE == 0 && size >= PAGE
      then var m: map<nat, nat> := f[id][PageNumber(v) := p % LIMIT]; f[id := m]
      else f
    case Other(_) => f
  }

  function FlatRun(ops: seq<Op>): seq<map<nat, nat>> {
    if ops == [] then [] else FlatStep(FlatRun(ops[..|ops| - 1]), ops[|ops| - 1])
  }

  function FlatGet(m: map<nat, nat>, v: nat): Option<nat> {
    if PageNumber(v) in m then Some(m[PageNumber(v)]) else None
  }

  /** After any run, the 4-level walk of every address space is the flat map updated by the same calls. */
  lemma {:induction false} RunRefinesFlatMap(start: nat, ops: seq<Op>)
    requires Run(start, ops).heap <= LIMIT
    ensures WellFormed(Run(start, ops))
    ensures |FlatRun(ops)| == |Run(start, ops).spaces|
    ensures forall id, v :: 0 <= id < |FlatRun(ops)| ==> Walk(Run(start, ops), id, v) == FlatGet(FlatRun(ops)[id], v)
  {
    if ops == [] {
      assert Inv(Run(start, ops), map[]);
    } else {
      var before := ops[..|ops| - 1];
      var s := Run(start, before);
      RunRefinesFlatMap(start, before);
      match ops[|ops| - 1]
      case Create => NativeCreateCorrect(s);
      case Set(id, v, p, size) =>
        if id < |s.spaces| {
          NativeSetDigits(s, id, v, p, size);
          forall j, x | 0 <= j < |s.spaces| ensures Walk(Run(start, ops), j, x) == FlatGet(FlatRun(ops)[j], x) {
            NativeSetCorrect(s, id, v, p, size, j, x);
          }
        }
      case Other(bytes) => BumpCorrect(s, bytes);
    }
  }

  /** The table reached from `addr` by following the digits down to level `stop`. */
  function Descend(tables: map<nat, Table>, level: nat, addr: nat, d: Digits, stop: nat): Option<nat>
    requires 1 <= stop <= level <= 4
    decreases level, d
  {
    if level == stop then Some(addr)
    else
      var e := At(tables, addr)[d[level - 1]];
      if e.present then Descend(tables, level - 1, Target(e), d, stop) else None
  }

  lemma {:induction false} DescendLabel(tables: map<nat, Table>, w: map<nat, Label>, level: nat, addr: nat, d: Digits,
                                        stop: nat)
    requires 1 <= stop <= level <= 4 && Shaped(tables, w)
    requires addr in w && w[addr].level == level && w[addr].path == d[level..]
    requires Descend(tables, level, addr, d, stop).Some?
    ensures var a := Descend(tables, level, addr, d, stop).value;
            a in w && w[a] == Label(w[addr].space, stop, d[stop..])
    decreases level
  {
    if level > stop {
      assert Linked(tables, w, addr, d[level - 1]);
      assert d[level - 1..] == [d[level - 1]] + d[level..];
      DescendLabel(tables, w, level - 1, Target(tables[addr][d[level - 1]]), d, stop);
    }
  }

  /** No table has two parents: two ways to one table are the same way from the same root. */
  lemma TablesAreNotShared(start: nat, ops: seq<Op>, i: nat, d: Digits, k: nat, j: nat, e: Digits, l: nat)
    requires Run(start, ops).heap <= LIMIT
    requires i < |Run(start, ops).spaces| && j < |Run(start, ops).spaces| && 1 <= k <= 4 && 1 <= l <= 4
    requires Descend(Run(start, ops).tables, 4, Run(start, ops).spaces[i].entries, d, k).Some?
    requires Descend(Run(start, ops).tables, 4, Run(start, ops).spaces[i].entries, d, k)
          == Descend(Run(start, ops).tables, 4, Run(start, ops).spaces[j].entries, e, l)
    ensures i == j && k == l && d[k..] == e[k..]
  {
    RunRefinesFlatMap(start, ops);
    var s := Run(start, ops);
    var w :| Inv(s, w);
    DescendLabel(s.tables, w, 4, s.spaces[i].entries, d, k);
    DescendLabel(s.tables, w, 4, s.spaces[j].entries, e, l);
  }

  // ---------------------------------------------------------------- permissions

  /** A present entry lets user code read, write and execute, and is no large page. */
  predicate OpenEntry(e: Entry) {
    e.present ==> e.user && e.writable && !e.noExec && !e.large
  }

  predicate OpenTable(t: Table) {
    forall i :: 0 <= i < 512 ==> OpenEntry(t[i]) && (!t[i].present ==> t[i] == ABSENT)
  }

  predicate AllOpen(tables: map<nat, Table>) {
    forall a :: a in tables ==> OpenTable(tables[a])
  }

  lemma StoreOpen(tables: map<nat, Table>, addr: nat, i: nat, p: nat)
    requires AllOpen(tables) && i < 512
    ensures AllOpen(Store(tables, addr, i, Fill(At(tables, addr)[i], p)))
  {
    assert OpenTable(At(tables, addr));
  }

  lemma CutOpen(s: State, id: nat)
    requires AllOpen(s.tables) && id < |s.spaces|
    ensures AllOpen(Cut(s, id).0.tables)
  {
  }

  lemma {:induction false} SetEntryOpen(s: State, id: nat, level: nat, addr: nat, d: Digits, p: nat)
    requires AllOpen(s.tables) && id < |s.spaces| && 1 <= level <= 4
    ensures AllOpen(SetEntry(s, id, level, addr, d, p).tables)
    decreases level, d
  {
    hide AllOpen, Fill, Store, Cut;
    var i := d[level - 1];
    var e := At(s.tables, addr)[i];
    if level == 1 {
      StoreOpen(s.tables, addr, i, p);
    } else if e.present {
      SetEntryOpen(s, id, level - 1, Target(e), d, p);
    } else {
      var (s1, t) := Cut(s, id);
      CutOpen(s, id);
      NotLarge(s.tables, addr, i);
      FilledOpen(s1.tables, addr, i, e, t);
      SetEntryOpen(s1.(tables := Store(s1.tables, addr, i, Fill(e, t))), id, level - 1, t, d, p);
    }
  }

  lemma NotLarge(tables: map<nat, Table>, addr: nat, i: nat)
    requires AllOpen(tables) && i < 512
    ensures !At(tables, addr)[i].large
  {
    assert OpenTable(At(tables, addr));
  }

  lemma FilledOpen(tables: map<nat, Table>, addr: nat, i: nat, e: Entry, t: nat)
    requires AllOpen(tables) && i < 512 && !e.large
    ensures AllOpen(Store(tables, addr, i, Fill(e, t)))
  {
    assert OpenTable(At(tables, addr));
  }

  lemma {:induction false} SetTimesOpen(s: State, id: nat, v: nat, p: nat, n: nat)
    requires AllOpen(s.tables) && id < |s.spaces|
    ensures AllOpen(SetTimes(s, id, v, p, n).tables)
    decreases n, v
  {
    hide AllOpen, SetEntry;
    if n > 0 {
      SetTimesOpen(s, id, v, p, n - 1);
      var s1 := SetTimes(s, id, v, p, n - 1);
      SetEntryOpen(s1, id, 4, s1.spaces[id].entries, DigitsOf(v), p);
    }
  }

  /**
   After any run, whatever permissions the callers asked for, every entry of every table is absent and
   zero, or open to user code for reading, writing and execution.
   */
  lemma {:induction false} RunIsOpen(start: nat, ops: seq<Op>)
    ensures AllOpen(Run(start, ops).tables)
    decreases |ops|
  {
    hide AllOpen, Cut, SetTimes;
    if ops == [] {
      NothingIsOpen();
    } else {
      var n := |ops| - 1;
      var s := Run(start, ops[..n]);
      RunIsOpen(start, ops[..n]);
      match ops[n]
      case Create => CutOpen(s.(heap := s.heap + 32 + 16, spaces := s.spaces + [Native(0, 0, 0, [])]), |s.spaces|);
      case Set(id, v, p, size) => if id < |s.spaces| { SetTimesOpen(s, id, v, p, size / PAGE); }
      case Other(_) =>
    }
  }

  lemma NothingIsOpen()
    ensures AllOpen(map[])
  {
  }

  /** Tables are 4096-aligned, pairwise disjoint and inside the heap's used part. */
  lemma TablesAlignedAndDisjoint(start: nat, ops: seq<Op>, a: nat, b: nat)
    requires Run(start, ops).heap <= LIMIT
    requires a in Run(start, ops).tables && b in Run(start, ops).tables && a != b
    ensures a % PAGE == 0 && b % PAGE == 0
    ensures a + PAGE <= b || b + PAGE <= a
    ensures a + PAGE <= Run(start, ops).heap
  {
    RunRefinesFlatMap(start, ops);
    var s := Run(start, ops);
    var w :| Inv(s, w);
    ShapedTablesDisjoint(s, w, a, b);
  }

  lemma ShapedTablesDisjoint(s: State, w: map<nat, Label>, a: nat, b: nat)
    requires Inv(s, w) && a in s.tables && b in s.tables && a != b
    ensures a % PAGE == 0 && b % PAGE == 0 && a + PAGE <= s.heap && (a + PAGE <= b || b + PAGE <= a)
  {
    assert a in w && b in w;
  }

  ghost predicate InStep(s: State, id: nat, v: nat, p: nat, x: nat)
    requires id < |s.spaces| && v <= x
  {
    x % PAGE == 0 ==> Walk(s, id, x) == Some(p + x - v)
  }

  /** Every page that starts in [v, v + bytes) translates in step with p. */
  ghost predicate RangeMapped(s: State, id: nat, v: nat, p: nat, bytes: nat)
    requires id < |s.spaces|
  {
    forall x :: v <= x < v + bytes ==> InStep(s, id, v, p, x)
  }

  /**
   native_vmem_set maps the range it is given exactly when every page of it behind the first
   translated in step already: the loop enters the first page again and again.
   */
  lemma RangeMappedExactly(s: State, id: nat, v: nat, p: nat, size: nat)
    requires WellFormed(s) && id < |s.spaces| && NativeSet(s, id, v, p, size).heap <= LIMIT
    requires v % PAGE == 0 && p % PAGE == 0 && v + size <= CANONICAL && p + size <= LIMIT && size >= PAGE
    ensures RangeMapped(NativeSet(s, id, v, p, size), id, v, p, size)
       <==> forall x :: v + PAGE <= x < v + size ==> InStep(s, id, v, p, x)
  {
    var s' := NativeSet(s, id, v, p, size);
    forall x | v <= x < v + size
      ensures InStep(s', id, v, p, x) <==> x < v + PAGE || InStep(s, id, v, p, x)
    {
      StepAt(s, id, v, p, size, x);
    }
  }

  lemma StepAt(s: State, id: nat, v: nat, p: nat, size: nat, x: nat)
    requires WellFormed(s) && id < |s.spaces| && NativeSet(s, id, v, p, size).heap <= LIMIT
    requires v % PAGE == 0 && p % PAGE == 0 && v + size <= CANONICAL && p + size <= LIMIT && size >= PAGE
    requires v <= x < v + size
    ensures InStep(NativeSet(s, id, v, p, size), id, v, p, x) <==> x < v + PAGE || InStep(s, id, v, p, x)
  {
    hide Walk;
    if x % PAGE == 0 {
      NativeSetAt(s, id, v, p, size, x);
      if x < v + PAGE {
        OnePageStart(v, x);
      } else {
        LaterPage(v, x);
      }
    }
  }

  /** So a range whose second page was not mapped is mapped exactly when it is one page. */
  lemma RangeIsMappedOnlyForOnePage(s: State, id: nat, v: nat, p: nat, size: nat)
    requires WellFormed(s) && id < |s.spaces| && NativeSet(s, id, v, p, size).heap <= LIMIT
    requires v % PAGE == 0 && p % PAGE == 0 && v + size <= CANONICAL && p + size <= LIMIT
    requires size >= PAGE && (size > PAGE ==> Walk(s, id, v + PAGE) == None)
    ensures RangeMapped(NativeSet(s, id, v, p, size), id, v, p, size) <==> size == PAGE
  {
    hide NativeSet, RangeMapped, WellFormed, Walk;
    RangeMappedExactly(s, id, v, p, size);
    if size > PAGE {
      assert !InStep(s, id, v, p, v + PAGE);
    }
  }

  /** Two pages asked for in a new address space, anywhere: the second one is not mapped. */
  lemma TwoPagesAreNotMapped(start: nat, v: nat, p: nat)
    requires start < PAGE && v % PAGE == 0 && p % PAGE == 0 && v + 2 * PAGE <= CANONICAL && p + 2 * PAGE <= LIMIT
    ensures var s := Run(start, [Create]);
            && |s.spaces| == 1 && NativeSet(s, 0, v, p, 2 * PAGE).heap <= LIMIT
            && !RangeMapped(NativeSet(s, 0, v, p, 2 * PAGE), 0, v, p, 2 * PAGE)
  {
    hide NativeSet, WellFormed, Walk, RangeMapped;
    var empty, s := Run(start, []), Run(start, [Create]);
    assert [Create][..0] == [];
    assert s == NativeCreate(empty) && s.heap <= 50000;
    RunRefinesFlatMap(start, []);
    NativeCreateCorrect(empty);
    TwoSetsHeap(s, v, p);
    NothingWalks(s, 0, v + PAGE);
    RangeIsMappedOnlyForOnePage(s, 0, v, p, 2 * PAGE);
  }

  lemma NothingWalks(s: State, id: nat, x: nat)
    requires id < |s.spaces| && forall d: Digits :: WalkDigits(s, id, d) == None
    ensures Walk(s, id, x) == None
  {
  }

  lemma TwoSetsHeap(s: State, v: nat, p: nat)
    requires |s.spaces| > 0 && s.heap <= 50000
    ensures NativeSet(s, 0, v, p, 2 * PAGE).heap <= LIMIT
  {
    hide SetEntry;
    var s1 := SetTimes(s, 0, v, p, 1);
    SetEntryHeap(s, 0, 4, s.spaces[0].entries, DigitsOf(v), p);
    SetEntryHeap(s1, 0, 4, s1.spaces[0].entries, DigitsOf(v), p);
    assert s1 == SetEntry(s, 0, 4, s.spaces[0].entries, DigitsOf(v), p) by {
      assert SetTimes(s, 0, v, p, 0) == s;
    }
    assert SetTimes(s, 0, v, p, 2) == SetEntry(s1, 0, 4, s1.spaces[0].entries, DigitsOf(v), p);
  }

  /** One page costs at most a block of tables per level. */
  lemma {:induction false} SetEntryHeap(s: State, id: nat, level: nat, addr: nat, d: Digits, p: nat)
    requires id < |s.spaces| && 1 <= level <= 4
    ensures SetEntry(s, id, level, addr, d, p).heap <= s.heap + (level - 1) * (BLOCK + LIST_NODE)
    decreases level, d
  {
    if level > 1 {
      var e := At(s.tables, addr)[d[level - 1]];
      if e.present {
        SetEntryHeap(s, id, level - 1, Target(e), d, p);
      } else {
        var (s1, t) := Cut(s, id);
        SetEntryHeap(s1.(tables := Store(s1.tables, addr, d[level - 1], Fill(e, t))), id, level - 1, t, d, p);
      }
    }
  }

  lemma NativeSetAt(s: State, id: nat, v: nat, p: nat, size: nat, x: nat)
    requires WellFormed(s) && id < |s.spaces| && NativeSet(s, id, v, p, size).heap <= LIMIT
    requires v % PAGE == 0 && p % PAGE == 0 && size >= PAGE
    ensures Walk(NativeSet(s, id, v, p, size), id, x) == if SamePage(v, x) then Some(p % LIMIT) else Walk(s, id, x)
  {
    NativeSetCorrect(s, id, v, p, size, id, x);
  }

  lemma OnePageStart(v: nat, x: nat)
    requires v % PAGE == 0 && x % PAGE == 0 && v <= x < v + PAGE
    ensures x == v
  {
  }

  lemma LaterPage(v: nat, x: nat)
    requires v % PAGE == 0 && x % PAGE == 0 && v < x < CANONICAL
    ensures !SamePage(v, x)
  {
    assert v % CANONICAL == v && x % CANONICAL == x;
  }

  // ---------------------------------------------------------------- one step from a reachable state

  /** A state some run from an empty heap ends in. */
  ghost predicate Reachable(s: State) {
    exists start, ops :: s == Run(start, ops)
  }

  lemma ReachableStep(s: State, op: Op)
    requires Reachable(s)
    ensures Reachable(Step(s, op))
    ensures s.heap <= LIMIT ==> WellFormed(s)
  {
    var start, ops :| s == Run(start, ops);
    assert (ops + [op])[..|ops|] == ops;
    assert Step(s, op) == Run(start, ops + [op]);
    if s.heap <= LIMIT { RunRefinesFlatMap(start, ops); }
  }

  lemma ReachableSet(s: State, id: nat, v: nat, p: nat, size: nat)
    requires Reachable(s) && id < |s.spaces| && NativeSet(s, id, v, p, size).heap <= LIMIT
    ensures Reachable(NativeSet(s, id, v, p, size)) && SetChanges(s, NativeSet(s, id, v, p, size), id, v, p, size)
  {
    ReachableStep(s, Set(id, v, p, size));
    NativeSetDigits(s, id, v, p, size);
  }

  lemma ReachableCreate(s: State)
    requires Reachable(s) && NativeCreate(s).heap <= LIMIT
    ensures Reachable(NativeCreate(s))
    ensures forall d: Digits :: WalkDigits(NativeCreate(s), |s.spaces|, d) == None
    ensures forall j, d: Digits :: 0 <= j < |s.spaces| ==> WalkDigits(NativeCreate(s), j, d) == WalkDigits(s, j, d)
  {
    ReachableStep(s, Create);
    NativeCreateCorrect(s);
  }

  lemma ReachableBump(s: State, bytes: nat)
    requires Reachable(s)
    ensures Reachable(Bump(s, bytes))
    ensures forall j, d: Digits :: 0 <= j < |s.spaces| ==> WalkDigits(Bump(s, bytes), j, d) == WalkDigits(s, j, d)
  {
    ReachableStep(s, Other(bytes));
  }
}
