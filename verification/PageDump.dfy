/**
 The page-table dump: a walk over every table that merges neighbouring leaves into ranges.
 Its log is proved to be a lossless and maximal run-length encoding of what the processor's
 walk translates, for any tree of tables at all (large pages included).
 */
module PageDump {
  import opened Machine
  import opened Paging

  // ---------------------------------------------------------------- ranges

  /** page_map_entry_t: `size` bytes at virtual address v, backed from physical address p. */
  datatype Range = Range(v: nat, p: nat, size: nat, user: bool, writable: bool, exec: bool)

  datatype Hit = Hit(addr: nat, user: bool, writable: bool, exec: bool)

  predicate In(r: Range, x: nat) {
    r.v <= x < r.v + r.size
  }

  /** What a list of ranges says about the byte at x; a later range wins. */
  function Get(rs: seq<Range>, x: nat): Option<Hit> {
    if rs == [] then None
    else
      var r := rs[|rs| - 1];
      if In(r, x) then Some(Hit(r.p + (x - r.v), r.user, r.writable, r.exec)) else Get(rs[..|rs| - 1], x)
  }

  ghost predicate Sorted(rs: seq<Range>) {
    && (forall i :: 0 <= i < |rs| ==> rs[i].size > 0)
    && (forall i, j :: 0 <= i < j < |rs| ==> rs[i].v + rs[i].size <= rs[j].v)
  }

  ghost predicate Within(rs: seq<Range>, lo: nat, hi: nat) {
    forall i :: 0 <= i < |rs| ==> lo <= rs[i].v && rs[i].v + rs[i].size <= hi
  }

  /** b continues a, virtually and physically, with the same permissions. */
  predicate Mergeable(a: Range, b: Range) {
    && a.p + a.size == b.p && a.v + a.size == b.v
    && a.exec == b.exec && a.writable == b.writable && a.user == b.user
  }

  ghost predicate Maximal(rs: seq<Range>) {
    forall i :: 0 <= i < |rs| - 1 ==> !Mergeable(rs[i], rs[i + 1])
  }

  // ---------------------------------------------------------------- leaves in address order

  /** 1 << (level * 9): the pages one table of that level translates. */
  function Width(level: nat): nat
    requires level <= 4
  {
    if level == 0 then 1
    else if level == 1 then 512
    else if level == 2 then 0x4_0000
    else if level == 3 then 0x800_0000
    else 0x10_0000_0000
  }

  function Leaf(level: nat, e: Entry, base: nat): Range
    requires 1 <= level <= 4
  {
    Range(base * PAGE, Target(e), Span(level - 1), e.user, e.writable, !e.noExec)
  }

  /** The leaves below one entry that translates from page number `base` on. */
  function EntryLeaves(tables: map<nat, Table>, level: nat, e: Entry, base: nat): seq<Range>
    requires 1 <= level <= 4
    decreases level, 0
  {
    if !e.present then []
    else if level == 1 || e.large then [Leaf(level, e, base)]
    else Leaves(tables, level - 1, At(tables, Target(e)), base)
  }

  /** The leaves below some consecutive entries of a table, the first translating from `base` on. */
  function Leaves(tables: map<nat, Table>, level: nat, es: seq<Entry>, base: nat): seq<Range>
    requires 1 <= level <= 4
    decreases level, 1 + |es|
  {
    if es == [] then []
    else EntryLeaves(tables, level, es[0], base) + Leaves(tables, level, es[1..], base + Width(level - 1))
  }

  // ---------------------------------------------------------------- the accumulator

  /** The accumulated entry (if acc.present) and what was logged so far. */
  datatype Dump = Dump(acc: Option<Range>, log: seq<Range>)

  /** accumulate_entries */
  function Accumulate(d: Dump, r: Range): Dump {
    if d.acc.Some? && Mergeable(d.acc.value, r) then
      d.(acc := Some(d.acc.value.(size := d.acc.value.size + r.size)))
    else
      Dump(Some(r), Flush(d))
  }

  function AccumulateAll(d: Dump, rs: seq<Range>): Dump {
    if rs == [] then d else Accumulate(AccumulateAll(d, rs[..|rs| - 1]), rs[|rs| - 1])
  }

  function Flush(d: Dump): seq<Range> {
    if d.acc.Some? then d.log + [d.acc.value] else d.log
  }

  /** parse_intel_memory */
  function Logged(tables: map<nat, Table>, root: nat): seq<Range> {
    Flush(AccumulateAll(Dump(None, []), Leaves(tables, 4, At(tables, root), 0)))
  }

  // ---------------------------------------------------------------- the code's own form

  class Dumper {
    const tables: map<nat, Table>
    var acc: Option<Range>
    var log: seq<Range>

    function View(): Dump
      reads this
    {
      Dump(acc, log)
    }

    constructor (tables: map<nat, Table>)
      ensures this.tables == tables && View() == Dump(None, [])
    {
      this.tables := tables;
      acc := None;
      log := [];
    }

    method AccumulateEntries(r: Range) returns (merged: bool)
      modifies this
      ensures View() == Accumulate(old(View()), r)
      ensures merged <==> old(acc).Some? && Mergeable(old(acc).value, r)
    {
      if acc.Some? && Mergeable(acc.value, r) {
        acc := Some(acc.value.(size := acc.value.size + r.size));
        return true;
      }
      if acc.Some? {
        log := log + [acc.value];
      }
      acc := Some(r);
      return false;
    }

    method ParseEntries(level: nat, entries: nat, baseVirtualAddr: nat)
      requires 1 <= level <= 4
      modifies this
      ensures View() == AccumulateAll(old(View()), Leaves(tables, level, At(tables, entries), baseVirtualAddr))
      decreases level
    {
      hide Leaves, EntryLeaves, AccumulateAll, Accumulate;
      AccumulateNone(View());
      var base: nat := baseVirtualAddr;
      var table: seq<Entry> := At(tables, entries);
      ghost var all := Leaves(tables, level, table, baseVirtualAddr);
      ghost var done := [];
      for index := 0 to 512
        invariant all == done + Leaves(tables, level, table[index..], base)
        invariant View() == AccumulateAll(old(View()), done)
      {
        var entry := table[index];
        ghost var part := EntryLeaves(tables, level, entry, base);
        LeavesStep(tables, level, table, index, base, done);
        EntryStep(tables, level, entry, base);
        AccumulateSplit(old(View()), done, part);
        AccumulateNone(View());
        if entry.present {
          if level == 1 || entry.large {
            ghost var before := View();
            var _ := AccumulateEntries(Leaf(level, entry, base));
            AccumulateOne(before, Leaf(level, entry, base));
          } else {
            ParseEntries(level - 1, Target(entry), base);
          }
        }
        done := done + part;
        base := base + Width(level - 1);
      }
      LeavesEnd(tables, level, table[512..], base);
      assert done + [] == done;
    }

    method ParseIntelMemory(entries: nat)
      requires View() == Dump(None, [])
      modifies this
      ensures log == Logged(tables, entries)
    {
      ParseEntries(4, entries, 0);
      if acc.Some? {
        log := log + [acc.value];
      }
    }
  }

  lemma LeavesStep(tables: map<nat, Table>, level: nat, table: seq<Entry>, i: nat, base: nat, done: seq<Range>)
    requires 1 <= level <= 4 && i < |table|
    ensures done + Leaves(tables, level, table[i..], base)
         == (done + EntryLeaves(tables, level, table[i], base))
            + Leaves(tables, level, table[i + 1..], base + Width(level - 1))
  {
    assert table[i..][1..] == table[i + 1..];
  }

  lemma LeavesEnd(tables: map<nat, Table>, level: nat, es: seq<Entry>, base: nat)
    requires 1 <= level <= 4 && es == []
    ensures Leaves(tables, level, es, base) == []
  {
  }

  /** The three branches of the loop. */
  lemma EntryStep(tables: map<nat, Table>, level: nat, e: Entry, base: nat)
    requires 1 <= level <= 4
    ensures !e.present ==> EntryLeaves(tables, level, e, base) == []
    ensures e.present && (level == 1 || e.large) ==> EntryLeaves(tables, level, e, base) == [Leaf(level, e, base)]
    ensures e.present && level > 1 && !e.large ==>
              EntryLeaves(tables, level, e, base) == Leaves(tables, level - 1, At(tables, Target(e)), base)
  {
  }

  lemma AccumulateNone(d: Dump)
    ensures AccumulateAll(d, []) == d
  {
  }

  lemma AccumulateOne(d: Dump, r: Range)
    ensures AccumulateAll(d, [r]) == Accumulate(d, r)
  {
    assert [r][..0] == [];
    assert AccumulateAll(d, [r][..0]) == d;
  }

  lemma {:induction false} AccumulateSplit(d: Dump, xs: seq<Range>, ys: seq<Range>)
    ensures AccumulateAll(d, xs + ys) == AccumulateAll(AccumulateAll(d, xs), ys)
    decreases |ys|
  {
    if ys == [] {
      assert xs + ys == xs;
    } else {
      assert (xs + ys)[..|xs + ys| - 1] == xs + ys[..|ys| - 1];
      AccumulateSplit(d, xs, ys[..|ys| - 1]);
    }
  }

  // ---------------------------------------------------------------- merging loses nothing

  /** One accumulation either lengthens the last range or appends the new one. */
  function Push(out: seq<Range>, r: Range): seq<Range> {
    if out != [] && Mergeable(out[|out| - 1], r) then
      out[..|out| - 1] + [out[|out| - 1].(size := out[|out| - 1].size + r.size)]
    else out + [r]
  }

  lemma FlushIsPush(d: Dump, r: Range)
    requires d.acc.None? ==> d.log == []
    ensures Flush(Accumulate(d, r)) == Push(Flush(d), r)
  {
    if d.acc.Some? {
      assert Flush(d)[..|d.log|] == d.log && Flush(d)[|d.log|] == d.acc.value;
    }
  }

  lemma GetSnoc(rs: seq<Range>, r: Range, x: nat)
    ensures Get(rs + [r], x) == if In(r, x) then Get([r], x) else Get(rs, x)
  {
    assert (rs + [r])[..|rs|] == rs && [r][..0] == [];
  }

  lemma GetMerged(a: Range, r: Range, m: Range, x: nat)
    requires Mergeable(a, r) && m == a.(size := a.size + r.size)
    ensures In(m, x) <==> In(a, x) || In(r, x)
    ensures In(m, x) ==> Get([m], x) == if In(r, x) then Get([r], x) else Get([a], x)
  {
  }

  /** Pushing a range that continues the last one adds its bytes and no others. */
  lemma PushKeepsMeaning(out: seq<Range>, r: Range, x: nat)
    ensures Get(Push(out, r), x) == if In(r, x) then Get([r], x) else Get(out, x)
  {
    hide Get, In;
    if out != [] && Mergeable(out[|out| - 1], r) {
      var n := |out| - 1;
      var last := out[n];
      var merged := last.(size := last.size + r.size);
      assert out == out[..n] + [last];
      GetMerged(last, r, merged, x);
      GetSnoc(out[..n], last, x);
      GetSnoc(out[..n], merged, x);
    } else {
      GetSnoc(out, r, x);
    }
  }

  lemma PushKeepsOrder(out: seq<Range>, r: Range)
    requires Sorted(out) && r.size > 0 && (out != [] ==> out[|out| - 1].v + out[|out| - 1].size <= r.v)
    ensures Sorted(Push(out, r))
    ensures Push(out, r)[|Push(out, r)| - 1].v + Push(out, r)[|Push(out, r)| - 1].size == r.v + r.size
  {
    var n := |Push(out, r)| - 1;
    assert forall i :: 0 <= i < n ==> Push(out, r)[i] == out[i];
    if out != [] {
      assert forall i :: 0 <= i < |out| - 1 ==> out[i].v + out[i].size <= out[|out| - 1].v;
    }
  }

  lemma PushKeepsMaximal(out: seq<Range>, r: Range)
    requires Maximal(out)
    ensures Maximal(Push(out, r))
  {
    var n := |Push(out, r)| - 1;
    assert forall i :: 0 <= i < n ==> Push(out, r)[i] == out[i];
  }

  ghost predicate Encodes(out: seq<Range>, rs: seq<Range>) {
    && Sorted(out) && Maximal(out)
    && (rs == [] <==> out == [])
    && (rs != [] ==> out[|out| - 1].v + out[|out| - 1].size == rs[|rs| - 1].v + rs[|rs| - 1].size)
    && (forall x :: Get(out, x) == Get(rs, x))
  }

  /** The accumulator turns any ascending list of leaves into a maximal encoding of it. */
  lemma {:induction false} AccumulateEncodes(rs: seq<Range>)
    requires Sorted(rs)
    ensures Encodes(Flush(AccumulateAll(Dump(None, []), rs)), rs)
    ensures rs != [] ==> AccumulateAll(Dump(None, []), rs).acc.Some?
  {
    if rs != [] {
      var n := |rs| - 1;
      var d := AccumulateAll(Dump(None, []), rs[..n]);
      AccumulateEncodes(rs[..n]);
      FlushIsPush(d, rs[n]);
      EncodesPush(Flush(d), rs);
    }
  }

  lemma EncodesPush(out: seq<Range>, rs: seq<Range>)
    requires rs != [] && Sorted(rs) && Encodes(out, rs[..|rs| - 1])
    ensures Encodes(Push(out, rs[|rs| - 1]), rs)
  {
    var n := |rs| - 1;
    if n > 0 {
      assert rs[..n][n - 1] == rs[n - 1] && rs[n - 1].v + rs[n - 1].size <= rs[n].v;
    }
    PushKeepsOrder(out, rs[n]);
    PushKeepsMaximal(out, rs[n]);
    forall x ensures Get(Push(out, rs[n]), x) == Get(rs, x) {
      PushKeepsMeaning(out, rs[n], x);
      assert [rs[n]][..0] == [];
    }
  }

  // ---------------------------------------------------------------- leaves are ascending

  lemma WidthSpan(level: nat)
    requires level <= 4
    ensures Width(level) * PAGE == Span(level) && Width(level) > 0
    ensures level > 0 ==> Width(level) == 512 * Width(level - 1)
  {
  }

  lemma SortedConcat(xs: seq<Range>, ys: seq<Range>, lo: nat, mid: nat, hi: nat)
    requires Sorted(xs) && Sorted(ys) && lo <= mid <= hi
    requires Within(xs, lo, mid) && Within(ys, mid, hi)
    ensures Sorted(xs + ys) && Within(xs + ys, lo, hi)
  {
  }

  lemma LeafFits(level: nat, e: Entry, base: nat)
    requires 1 <= level <= 4
    ensures Leaf(level, e, base).v == base * PAGE && Leaf(level, e, base).size > 0
    ensures Leaf(level, e, base).v + Leaf(level, e, base).size == (base + Width(level - 1)) * PAGE
  {
    WidthSpan(level - 1);
  }

  lemma {:induction false} EntryLeavesSorted(tables: map<nat, Table>, level: nat, e: Entry, base: nat)
    requires 1 <= level <= 4
    ensures Sorted(EntryLeaves(tables, level, e, base))
    ensures Within(EntryLeaves(tables, level, e, base), base * PAGE, (base + Width(level - 1)) * PAGE)
    decreases level, 0
  {
    if !e.present {
    } else if level == 1 || e.large {
      LeafFits(level, e, base);
    } else {
      LeavesSorted(tables, level - 1, At(tables, Target(e)), base);
      WidthSpan(level - 1);
    }
  }

  /** Leaves come in ascending order, without overlap, and stay in the span of their entries. */
  lemma {:induction false} LeavesSorted(tables: map<nat, Table>, level: nat, es: seq<Entry>, base: nat)
    requires 1 <= level <= 4
    ensures Sorted(Leaves(tables, level, es, base))
    ensures Within(Leaves(tables, level, es, base), base * PAGE, (base + |es| * Width(level - 1)) * PAGE)
    decreases level, 1 + |es|
  {
    if es != [] {
      var next := base + Width(level - 1);
      EntryLeavesSorted(tables, level, es[0], base);
      LeavesSorted(tables, level, es[1..], next);
      OneLess(|es|, Width(level - 1));
      SortedConcat(EntryLeaves(tables, level, es[0], base), Leaves(tables, level, es[1..], next),
                   base * PAGE, next * PAGE, (base + |es| * Width(level - 1)) * PAGE);
    }
  }

  lemma OneLess(n: nat, w: nat)
    requires n > 0
    ensures n * w == w + (n - 1) * w && (n - 1) * w >= 0
  {
  }

  /** The log is ascending, without overlap, and no two neighbours in it could be merged. */
  lemma DumpIsSortedAndMaximal(tables: map<nat, Table>, root: nat)
    ensures Sorted(Logged(tables, root)) && Maximal(Logged(tables, root))
  {
    LeavesSorted(tables, 4, At(tables, root), 0);
    AccumulateEncodes(Leaves(tables, 4, At(tables, root), 0));
  }

  // ---------------------------------------------------------------- leaves are what the walk finds

  lemma {:induction false} GetConcat(xs: seq<Range>, ys: seq<Range>, x: nat)
    ensures Get(xs + ys, x) == if Get(ys, x).Some? then Get(ys, x) else Get(xs, x)
    decreases |ys|
  {
    if ys == [] {
      assert xs + ys == xs;
    } else {
      assert (xs + ys)[..|xs + ys| - 1] == xs + ys[..|ys| - 1];
      GetConcat(xs, ys[..|ys| - 1], x);
    }
  }

  lemma {:induction false} GetOutside(rs: seq<Range>, lo: nat, hi: nat, x: nat)
    requires Within(rs, lo, hi) && (x < lo || hi <= x)
    ensures Get(rs, x) == None
    decreases |rs|
  {
    if rs != [] {
      GetOutside(rs[..|rs| - 1], lo, hi, x);
    }
  }

  /** An address behind the span of the first entry is not translated by it ... */
  lemma GetSkip(tables: map<nat, Table>, level: nat, es: seq<Entry>, base: nat, x: nat)
    requires 1 <= level <= 4 && es != [] && (base + Width(level - 1)) * PAGE <= x
    ensures Get(Leaves(tables, level, es, base), x) == Get(Leaves(tables, level, es[1..], base + Width(level - 1)), x)
  {
    var part := EntryLeaves(tables, level, es[0], base);
    GetConcat(part, Leaves(tables, level, es[1..], base + Width(level - 1)), x);
    EntryLeavesSorted(tables, level, es[0], base);
    GetOutside(part, base * PAGE, (base + Width(level - 1)) * PAGE, x);
  }

  /** ... and one inside it is translated by the first entry alone. */
  lemma GetHere(tables: map<nat, Table>, level: nat, es: seq<Entry>, base: nat, x: nat)
    requires 1 <= level <= 4 && es != [] && x < (base + Width(level - 1)) * PAGE
    ensures Get(Leaves(tables, level, es, base), x) == Get(EntryLeaves(tables, level, es[0], base), x)
  {
    var next := base + Width(level - 1);
    var rest := Leaves(tables, level, es[1..], next);
    GetConcat(EntryLeaves(tables, level, es[0], base), rest, x);
    LeavesSorted(tables, level, es[1..], next);
    GetOutside(rest, next * PAGE, (next + |es[1..]| * Width(level - 1)) * PAGE, x);
  }

  /** Among consecutive entries only the one whose span holds x matters. */
  lemma {:induction false} GetEntry(tables: map<nat, Table>, level: nat, es: seq<Entry>, base: nat, k: nat,
                                    start: nat, x: nat)
    requires 1 <= level <= 4 && k < |es| && start == base + k * Width(level - 1)
    requires start * PAGE <= x < (start + Width(level - 1)) * PAGE
    ensures Get(Leaves(tables, level, es, base), x) == Get(EntryLeaves(tables, level, es[k], start), x)
    decreases k
  {
    if k == 0 {
      GetHere(tables, level, es, base, x);
    } else {
      OneLess(k, Width(level - 1));
      GetSkip(tables, level, es, base, x);
      GetEntry(tables, level, es[1..], base + Width(level - 1), k - 1, start, x);
    }
  }

  /** Appending digits to a number multiplies it by the width and adds the digits' own value. */
  lemma {:induction false} AppendValue(high: nat, level: nat, d: Digits)
    requires level <= 4
    ensures Append(high, level, d) == high * Width(level) + Append(0, level, d)
    ensures Append(0, level, d) < Width(level)
    decreases level
  {
    if level > 0 {
      var w := Width(level - 1);
      WidthSpan(level);
      AppendValue(512 * high + d[level - 1], level - 1, d);
      AppendValue(d[level - 1], level - 1, d);
      Distribute(high, d[level - 1], w);
    }
  }

  lemma Distribute(high: nat, digit: nat, w: nat)
    requires digit < 512 && w > 0
    ensures (512 * high + digit) * w == high * (512 * w) + digit * w
    ensures 0 <= digit * w <= 512 * w - w
  {
    assert (511 - digit) * w >= 0;
  }

  /** The processor's walk to the byte at offset `off` of the page with these digits, with the leaf's permissions. */
  function WalkHit(tables: map<nat, Table>, level: nat, addr: nat, d: Digits, off: nat): Option<Hit>
    requires 1 <= level <= 4
    decreases level
  {
    var e := At(tables, addr)[d[level - 1]];
    if !e.present then None
    else if level == 1 || e.large then
      Some(Hit(Target(e) + Append(0, level - 1, d) * PAGE + off, e.user, e.writable, !e.noExec))
    else WalkHit(tables, level - 1, Target(e), d, off)
  }

  lemma {:induction false} WalkHitIsWalk(tables: map<nat, Table>, level: nat, addr: nat, d: Digits, off: nat)
    requires 1 <= level <= 4
    ensures match WalkFrom(tables, level, addr, d)
            case None => WalkHit(tables, level, addr, d, off) == None
            case Some(page) =>
              && WalkHit(tables, level, addr, d, off).Some?
              && WalkHit(tables, level, addr, d, off).value.addr == page + off
    decreases level
  {
    var e := At(tables, addr)[d[level - 1]];
    if e.present && !(level == 1 || e.large) {
      WalkHitIsWalk(tables, level - 1, Target(e), d, off);
    }
  }

  /** Below any table, the collected leaves say about a byte what the walk along its digits finds. */
  lemma {:induction false} LeavesAreTheWalk(tables: map<nat, Table>, level: nat, addr: nat, base: nat, d: Digits,
                                            off: nat, x: nat)
    requires 1 <= level <= 4 && off < PAGE && x == (base + Append(0, level, d)) * PAGE + off
    ensures Get(Leaves(tables, level, At(tables, addr), base), x) == WalkHit(tables, level, addr, d, off)
    decreases level
  {
    var k := d[level - 1];
    var e := At(tables, addr)[k];
    var start := EntryStart(level, base, d, off, x);
    GetEntry(tables, level, At(tables, addr), base, k, start, x);
    if !e.present {
    } else if level == 1 || e.large {
      GetLeaf(level, e, start, Append(0, level - 1, d), off, x);
    } else {
      LeavesAreTheWalk(tables, level - 1, Target(e), start, d, off, x);
    }
  }

  /** The page where the span of the entry for x begins. */
  lemma EntryStart(level: nat, base: nat, d: Digits, off: nat, x: nat) returns (start: nat)
    requires 1 <= level <= 4 && off < PAGE && x == (base + Append(0, level, d)) * PAGE + off
    ensures start == base + d[level - 1] * Width(level - 1)
    ensures x == (start + Append(0, level - 1, d)) * PAGE + off && Append(0, level - 1, d) < Width(level - 1)
    ensures start * PAGE <= x < (start + Width(level - 1)) * PAGE
  {
    AppendValue(d[level - 1], level - 1, d);
    start := base + d[level - 1] * Width(level - 1);
  }

  lemma GetLeaf(level: nat, e: Entry, start: nat, low: nat, off: nat, x: nat)
    requires 1 <= level <= 4 && low < Width(level - 1) && off < PAGE && x == (start + low) * PAGE + off
    ensures Get([Leaf(level, e, start)], x) == Some(Hit(Target(e) + low * PAGE + off, e.user, e.writable, !e.noExec))
  {
    LeafFits(level, e, start);
    assert [Leaf(level, e, start)][..0] == [];
  }

  lemma AddressFromDigits(x: nat)
    requires x < CANONICAL
    ensures x == (0 + Append(0, 4, DigitsOf(x))) * PAGE + x % PAGE
  {
    hide DigitsOf, Append;
    DigitsArePageNumber(x);
    assert x % CANONICAL == x;
  }

  /**
   The log says about every 48-bit address exactly what the processor's walk finds there: the same
   physical address, the same permissions, or nothing.
   */
  lemma DumpIsLossless(tables: map<nat, Table>, root: nat, x: nat)
    requires x < CANONICAL
    ensures Get(Logged(tables, root), x) == WalkHit(tables, 4, root, DigitsOf(x), x % PAGE)
  {
    AddressFromDigits(x);
    DumpFindsDigits(tables, root, DigitsOf(x), x % PAGE, x);
  }

  lemma DumpFindsDigits(tables: map<nat, Table>, root: nat, d: Digits, off: nat, x: nat)
    requires off < PAGE && x == (0 + Append(0, 4, d)) * PAGE + off
    ensures Get(Logged(tables, root), x) == WalkHit(tables, 4, root, d, off)
  {
    LeavesSorted(tables, 4, At(tables, root), 0);
    AccumulateEncodes(Leaves(tables, 4, At(tables, root), 0));
    LeavesAreTheWalk(tables, 4, root, 0, d, off, x);
  }

  // ---------------------------------------------------------------- the log is the only one

  /** Both lists say the same about every byte. */
  ghost predicate SaySame(rs: seq<Range>, qs: seq<Range>) {
    forall x: nat :: Get(rs, x) == Get(qs, x)
  }

  /** Two ranges in ascending order are merged exactly when a single range can say what both say. */
  lemma MergeableExactly(a: Range, b: Range)
    requires a.size > 0 && b.size > 0 && a.v + a.size <= b.v
    ensures Mergeable(a, b) <==> exists m: Range :: SaySame([m], [a, b])
  {
    forall x: nat ensures Get([a, b], x) == if In(b, x) then Get([b], x) else Get([a], x) {
      assert [a] + [b] == [a, b];
      GetSnoc([a], b, x);
    }
    if Mergeable(a, b) {
      var m := a.(size := a.size + b.size);
      forall x: nat ensures Get([m], x) == Get([a, b], x) {
        GetMerged(a, b, m, x);
      }
      assert SaySame([m], [a, b]);
    }
    if m: Range :| SaySame([m], [a, b]) {
      assert Get([m], a.v) == Get([a, b], a.v) && Get([m], b.v) == Get([a, b], b.v);
      assert Get([m], a.v + a.size) == Get([a, b], a.v + a.size);
      GetOne(m, a.v);
      GetOne(m, b.v);
      GetOne(m, a.v + a.size);
      GetOne(a, a.v);
      GetOne(a, a.v + a.size);
      GetOne(b, b.v);
    }
  }

  lemma GetOne(r: Range, x: nat)
    ensures Get([r], x) == if In(r, x) then Some(Hit(r.p + (x - r.v), r.user, r.writable, r.exec)) else None
  {
    assert [r][..0] == [];
  }

  lemma LastDecides(rs: seq<Range>, x: nat)
    requires rs != []
    ensures var r := rs[|rs| - 1];
            Get(rs, x) == if In(r, x) then Some(Hit(r.p + (x - r.v), r.user, r.writable, r.exec))
                          else Get(rs[..|rs| - 1], x)
  {
  }

  lemma {:induction false} NothingBehind(rs: seq<Range>, x: nat)
    requires Sorted(rs) && (rs != [] ==> rs[|rs| - 1].v + rs[|rs| - 1].size <= x)
    ensures Get(rs, x) == None
    decreases |rs|
  {
    if rs != [] {
      var n := |rs| - 1;
      assert n > 0 ==> rs[n - 1].v + rs[n - 1].size <= rs[n].v;
      NothingBehind(rs[..n], x);
    }
  }

  lemma SortedFront(rs: seq<Range>)
    requires rs != [] && Sorted(rs) && Maximal(rs)
    ensures var n := |rs| - 1;
            && Sorted(rs[..n]) && Maximal(rs[..n]) && rs[n].size > 0
            && (n > 0 ==> rs[..n][n - 1] == rs[n - 1] && rs[n - 1].v + rs[n - 1].size <= rs[n].v)
            && (n > 0 ==> rs[n - 1].size > 0 && !Mergeable(rs[n - 1], rs[n]))
  {
  }

  /** The end of the last range is where the list stops saying anything. */
  lemma SameEnd(rs: seq<Range>, qs: seq<Range>)
    requires rs != [] && qs != [] && Sorted(rs) && Sorted(qs) && SaySame(rs, qs)
    ensures rs[|rs| - 1].v + rs[|rs| - 1].size <= qs[|qs| - 1].v + qs[|qs| - 1].size
  {
    var r, q := rs[|rs| - 1], qs[|qs| - 1];
    var x := r.v + r.size - 1;
    assert In(r, x) && Get(rs, x) == Get(qs, x);
    if q.v + q.size <= x {
      NothingBehind(qs, x);
    }
  }

  /** Nor can the last range of one list begin before that of the other: the other would have been merged. */
  lemma SameStart(rs: seq<Range>, qs: seq<Range>)
    requires rs != [] && qs != [] && Sorted(rs) && Maximal(rs) && Sorted(qs) && Maximal(qs) && SaySame(rs, qs)
    requires rs[|rs| - 1].v + rs[|rs| - 1].size == qs[|qs| - 1].v + qs[|qs| - 1].size
    ensures qs[|qs| - 1].v <= rs[|rs| - 1].v
  {
    hide Sorted, Maximal, Get;
    var n, r, q := |qs| - 1, rs[|rs| - 1], qs[|qs| - 1];
    SortedFront(rs);
    SortedFront(qs);
    if r.v < q.v {
      var x := q.v - 1;
      assert Get(rs, x) == Get(qs, x) && Get(rs, q.v) == Get(qs, q.v);
      LastDecides(rs, x);
      LastDecides(rs, q.v);
      LastDecides(qs, x);
      LastDecides(qs, q.v);
      var front := qs[..n];
      if n == 0 || qs[n - 1].v + qs[n - 1].size <= x {
        NothingBehind(front, x);
        assert false;
      }
      LastDecides(front, x);
    }
  }

  lemma FrontSaysSame(rs: seq<Range>, qs: seq<Range>)
    requires rs != [] && qs != [] && Sorted(rs) && Maximal(rs) && Sorted(qs) && Maximal(qs) && SaySame(rs, qs)
    requires rs[|rs| - 1] == qs[|qs| - 1]
    ensures SaySame(rs[..|rs| - 1], qs[..|qs| - 1])
  {
    hide Sorted, Maximal, Get;
    var r, rs', qs' := rs[|rs| - 1], rs[..|rs| - 1], qs[..|qs| - 1];
    SortedFront(rs);
    SortedFront(qs);
    forall x: nat ensures Get(rs', x) == Get(qs', x) {
      assert Get(rs, x) == Get(qs, x);
      LastDecides(rs, x);
      LastDecides(qs, x);
      if In(r, x) {
        NothingBehind(rs', x);
        NothingBehind(qs', x);
      }
    }
  }

  /**
   Two ascending lists without mergeable neighbours that say the same about every byte are the same
   list. So the log of a dump is the only one that could have been written.
   */
  lemma {:induction false} EncodingIsUnique(rs: seq<Range>, qs: seq<Range>)
    requires Sorted(rs) && Maximal(rs) && Sorted(qs) && Maximal(qs) && SaySame(rs, qs)
    ensures rs == qs
    decreases |rs|
  {
    hide Maximal, Get;
    if rs == [] || qs == [] {
      NoneSaid(if rs == [] then qs else rs);
    } else {
      var r, q := rs[|rs| - 1], qs[|qs| - 1];
      SameEnd(rs, qs);
      SameEnd(qs, rs);
      SameStart(rs, qs);
      SameStart(qs, rs);
      assert Get(rs, r.v) == Get(qs, r.v);
      SortedFront(rs);
      SortedFront(qs);
      LastDecides(rs, r.v);
      LastDecides(qs, r.v);
      assert r == q;
      FrontSaysSame(rs, qs);
      EncodingIsUnique(rs[..|rs| - 1], qs[..|qs| - 1]);
      assert rs == rs[..|rs| - 1] + [r] && qs == qs[..|qs| - 1] + [q];
    }
  }

  lemma NoneSaid(qs: seq<Range>)
    requires Sorted(qs) && (SaySame([], qs) || SaySame(qs, []))
    ensures qs == []
  {
    if qs != [] {
      var q := qs[|qs| - 1];
      assert In(q, q.v) && Get([], q.v) == Get(qs, q.v);
    }
  }
}
