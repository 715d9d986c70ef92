/**
 The Multiboot2 boot information: a list of tags in memory, and the walk over it that fills the
 platform's module list, reserved-memory list and memory size.
 */
module Multiboot {
  import opened Machine
  import opened Bytes

  const MAGIC := 0x36d76289
  const AVAILABLE := 1

  // ---------------------------------------------------------------- what the tags say

  datatype Entry = Entry(addr: nat, len: nat, kind: nat)

  datatype Tag =
    | Module(start: nat, end: nat, cmdline: seq<Byte>)
    | MemInfo(lower: nat, upper: nat)
    | Mmap(entrySize: nat, version: nat, entries: seq<Entry>)
    | Other(kind: nat, body: seq<Byte>)

  datatype Region = Region(start: nat, end: nat, size: nat)

  datatype ModuleInfo = ModuleInfo(param: seq<Byte>, region: Region)

  function ModuleOf(start: nat, end: nat, cmdline: seq<Byte>): ModuleInfo {
    ModuleInfo(cmdline, Region(start, end, (end - start) % WORD32))
  }

  function RegionOf(e: Entry): Region {
    Region(e.addr, (e.addr + e.len) % WORD64, e.len)
  }

  /** The modules a tag list announces, in order. */
  function Modules(tags: seq<Tag>): seq<ModuleInfo> {
    if tags == [] then [] else ModulesIn(tags[0]) + Modules(tags[1..])
  }

  function ModulesIn(t: Tag): seq<ModuleInfo> {
    if t.Module? then [ModuleOf(t.start, t.end, t.cmdline)] else []
  }

  /** The ranges of a memory map that are not available memory, in order. */
  function Unavailable(entries: seq<Entry>): seq<Region> {
    if entries == [] then []
    else (if entries[0].kind != AVAILABLE then [RegionOf(entries[0])] else []) + Unavailable(entries[1..])
  }

  function Reserved(tags: seq<Tag>): seq<Region> {
    if tags == [] then [] else ReservedIn(tags[0]) + Reserved(tags[1..])
  }

  function ReservedIn(t: Tag): seq<Region> {
    if t.Mmap? then Unavailable(t.entries) else []
  }

  /** The size the parser computes, in 32-bit arithmetic, from the kilobytes above the first megabyte. */
  function TotalMemory(upper: nat): nat {
    (upper + 1024) % WORD32 * 1024 % WORD32
  }

  /** What is left as memory size: the last tag that gives one decides. */
  function Total(tags: seq<Tag>, before: nat): nat {
    if tags == [] then before else Total(tags[1..], TotalIn(tags[0], before))
  }

  function TotalIn(t: Tag, before: nat): nat {
    if t.MemInfo? then TotalMemory(t.upper) else before
  }

  /** The computed size is the machine's exactly when the machine has less than 4 GB. */
  lemma TotalMemoryExactly(upper: nat)
    ensures TotalMemory(upper) == (upper + 1024) * 1024 <==> (upper + 1024) * 1024 < WORD32
  {
    if (upper + 1024) * 1024 < WORD32 {
      assert (upper + 1024) % WORD32 == upper + 1024;
    }
  }

  /**
   The parser's size is that of the last tag that gives one: its kilobytes above the first megabyte and
   1024 more, in bytes, in 32 bits. Without such a tag it stays what it was.
   */
  lemma {:induction false} TotalExactly(tags: seq<Tag>, before: nat, i: nat)
    ensures (forall j :: 0 <= j < |tags| ==> !tags[j].MemInfo?) ==> Total(tags, before) == before
    ensures i < |tags| && tags[i].MemInfo? && (forall j :: i < j < |tags| ==> !tags[j].MemInfo?) ==>
              Total(tags, before) == (tags[i].upper + 1024) * 1024 % WORD32
    decreases |tags|
  {
    if tags != [] {
      var rest := tags[1..];
      assert forall j :: 0 <= j < |rest| ==> rest[j] == tags[j + 1];
      TotalExactly(rest, TotalIn(tags[0], before), if i > 0 then i - 1 else 0);
      if i == 0 && tags[0].MemInfo? {
        KilobytesWrap(tags[0].upper + 1024);
        assert (forall j :: 0 < j < |tags| ==> !tags[j].MemInfo?) ==> forall j :: 0 <= j < |rest| ==> !rest[j].MemInfo?;
      }
    }
  }

  lemma KilobytesWrap(k: nat)
    ensures k % WORD32 * 1024 % WORD32 == k * 1024 % WORD32
  {
    assert k * 1024 == k / WORD32 * 1024 * WORD32 + k % WORD32 * 1024;
    WholeWordsVanish(k / WORD32 * 1024, k % WORD32 * 1024);
  }

  lemma WholeWordsVanish(q: nat, r: nat)
    ensures (q * WORD32 + r) % WORD32 == r % WORD32
  {
  }

  // ---------------------------------------------------------------- nothing lost, added or reordered

  /** Positions in a list of n elements, from front to back. */
  predicate Ascending(f: seq<nat>, n: nat) {
    (forall k :: 0 <= k < |f| ==> f[k] < n) && forall k, l :: 0 <= k < l < |f| ==> f[k] < f[l]
  }

  /** The positions f in the tail of a list, counted in the list, with position 0 in front if it is wanted. */
  function Shift(f: seq<nat>, first: bool): (g: seq<nat>)
    ensures |g| == |f| + if first then 1 else 0
    ensures first ==> g[0] == 0 && forall k :: 1 <= k < |g| ==> g[k] == f[k - 1] + 1
    ensures !first ==> forall k :: 0 <= k < |g| ==> g[k] == f[k] + 1
  {
    var up := seq(|f|, k requires 0 <= k < |f| => f[k] + 1);
    if first then [0] + up else up
  }

  lemma Within(f: seq<nat>, n: nat, k: nat)
    requires Ascending(f, n) && k < |f|
    ensures f[k] < n
  {
  }

  lemma ShiftAscends(f: seq<nat>, first: bool, n: nat)
    requires Ascending(f, n)
    ensures Ascending(Shift(f, first), n + 1)
  {
  }

  lemma ShiftHas(f: seq<nat>, first: bool, j: nat)
    ensures j in Shift(f, first) <==> if j == 0 then first else j - 1 in f
  {
    var g := Shift(f, first);
    if j > 0 && j - 1 in f {
      var k :| 0 <= k < |f| && f[k] == j - 1;
      assert g[if first then k + 1 else k] == j;
    }
  }

  /** The region says where the entry's range starts, how long it is and, in 64 bits, where it ends. */
  predicate Describes(r: Region, e: Entry) {
    r.start == e.addr && r.size == e.len && r.end == (e.addr + e.len) % WORD64
  }

  /** The module is the one a module tag announces: its command line, its bounds and, in 32 bits, its length. */
  predicate Announces(t: Tag, info: ModuleInfo) {
    && t.Module? && info.param == t.cmdline
    && info.region.start == t.start && info.region.end == t.end && info.region.size == (t.end - t.start) % WORD32
  }

  /** The k-th region describes the entry at position f[k], and the positions ascend. */
  predicate PicksEntries(entries: seq<Entry>, regions: seq<Region>, f: seq<nat>) {
    && Ascending(f, |entries|) && |f| == |regions|
    && forall k :: 0 <= k < |f| ==> Describes(regions[k], entries[f[k]])
  }

  /** The k-th module is the one the tag at position f[k] announces, and the positions ascend. */
  predicate PicksTags(tags: seq<Tag>, modules: seq<ModuleInfo>, f: seq<nat>) {
    && Ascending(f, |tags|) && |f| == |modules|
    && forall k :: 0 <= k < |f| ==> Announces(tags[f[k]], modules[k])
  }

  /**
   What a memory map reserves is exactly its entries that are not available memory, each once and in
   the order of the map: f lists their positions.
   */
  lemma {:induction false} UnavailableExactly(entries: seq<Entry>) returns (f: seq<nat>)
    ensures PicksEntries(entries, Unavailable(entries), f)
    ensures forall j :: 0 <= j < |entries| ==> (j in f <==> entries[j].kind != AVAILABLE)
  {
    f := [];
    if entries != [] {
      hide PicksEntries;
      var rest, first := entries[1..], entries[0].kind != AVAILABLE;
      var g := UnavailableExactly(rest);
      f := Shift(g, first);
      ShiftedEntries(entries, g);
      forall j | 0 <= j < |entries| ensures j in f <==> entries[j].kind != AVAILABLE {
        ShiftHas(g, first, j);
        assert j > 0 ==> entries[j] == rest[j - 1];
      }
    }
  }

  lemma ShiftedEntries(entries: seq<Entry>, g: seq<nat>)
    requires entries != [] && PicksEntries(entries[1..], Unavailable(entries[1..]), g)
    ensures PicksEntries(entries, Unavailable(entries), Shift(g, entries[0].kind != AVAILABLE))
  {
    hide Describes, Shift, Ascending;
    var first, rest, tail := entries[0].kind != AVAILABLE, entries[1..], Unavailable(entries[1..]);
    var f, all := Shift(g, first), Unavailable(entries);
    HeadDescribed(entries[0]);
    ShiftAscends(g, first, |rest|);
    assert all == (if first then [RegionOf(entries[0])] else []) + tail;
    forall k | 0 <= k < |f| ensures Describes(all[k], entries[f[k]]) {
      var l := if first then k - 1 else k;
      if l >= 0 {
        Within(g, |rest|, l);
        assert f[k] == g[l] + 1 && all[k] == tail[l] && entries[g[l] + 1] == rest[g[l]];
      }
    }
  }

  lemma HeadDescribed(e: Entry)
    ensures Describes(RegionOf(e), e)
  {
  }

  /** The modules are exactly those of the module tags, each once and in the order of the tags. */
  lemma {:induction false} ModulesExactly(tags: seq<Tag>) returns (f: seq<nat>)
    ensures PicksTags(tags, Modules(tags), f)
    ensures forall j :: 0 <= j < |tags| ==> (j in f <==> tags[j].Module?)
  {
    f := [];
    if tags != [] {
      hide PicksTags;
      var rest, first := tags[1..], tags[0].Module?;
      var g := ModulesExactly(rest);
      f := Shift(g, first);
      ShiftedTags(tags, g);
      forall j | 0 <= j < |tags| ensures j in f <==> tags[j].Module? {
        ShiftHas(g, first, j);
        assert j > 0 ==> tags[j] == rest[j - 1];
      }
    }
  }

  lemma ShiftedTags(tags: seq<Tag>, g: seq<nat>)
    requires tags != [] && PicksTags(tags[1..], Modules(tags[1..]), g)
    ensures PicksTags(tags, Modules(tags), Shift(g, tags[0].Module?))
  {
    hide Announces, Shift, Ascending;
    var first, rest, tail := tags[0].Module?, tags[1..], Modules(tags[1..]);
    var f, all := Shift(g, first), Modules(tags);
    HeadAnnounced(tags[0]);
    ShiftAscends(g, first, |rest|);
    forall k | 0 <= k < |f| ensures Announces(tags[f[k]], all[k]) {
      var l := if first then k - 1 else k;
      if l >= 0 {
        Within(g, |rest|, l);
        assert f[k] == g[l] + 1 && all[k] == tail[l] && tags[g[l] + 1] == rest[g[l]];
      }
    }
  }

  lemma HeadAnnounced(t: Tag)
    ensures |ModulesIn(t)| == if t.Module? then 1 else 0
    ensures t.Module? ==> Announces(t, ModulesIn(t)[0])
  {
  }

  /** The entries of all memory-map tags, in the order of the tags. */
  function AllEntries(tags: seq<Tag>): seq<Entry> {
    if tags == [] then [] else (if tags[0].Mmap? then tags[0].entries else []) + AllEntries(tags[1..])
  }

  lemma {:induction false} UnavailableConcat(a: seq<Entry>, b: seq<Entry>)
    ensures Unavailable(a + b) == Unavailable(a) + Unavailable(b)
    decreases |a|
  {
    if a == [] {
      assert a + b == b;
    } else {
      UnavailableConcat(a[1..], b);
      assert (a + b)[1..] == a[1..] + b;
    }
  }

  /** What a tag list reserves is what the memory maps, one after the other, reserve. */
  lemma {:induction false} ReservedFromEntries(tags: seq<Tag>)
    ensures Reserved(tags) == Unavailable(AllEntries(tags))
  {
    if tags != [] {
      ReservedFromEntries(tags[1..]);
      UnavailableConcat(if tags[0].Mmap? then tags[0].entries else [], AllEntries(tags[1..]));
    }
  }

  /** The region describes an entry of the map that is not available memory. */
  ghost predicate FromMap(entries: seq<Entry>, r: Region) {
    exists j :: 0 <= j < |entries| && entries[j].kind != AVAILABLE && Describes(r, entries[j])
  }

  /** The region describes such an entry of some memory-map tag. */
  ghost predicate FromTags(tags: seq<Tag>, r: Region) {
    exists i :: 0 <= i < |tags| && tags[i].Mmap? && FromMap(tags[i].entries, r)
  }

  lemma UnavailableHas(entries: seq<Entry>, r: Region)
    ensures r in Unavailable(entries) <==> FromMap(entries, r)
  {
    hide Unavailable;
    var f := UnavailableExactly(entries);
    var all := Unavailable(entries);
    if r in all {
      var k :| 0 <= k < |all| && all[k] == r;
      assert f[k] in f && entries[f[k]].kind != AVAILABLE;
    }
    if FromMap(entries, r) {
      var j :| 0 <= j < |entries| && entries[j].kind != AVAILABLE && Describes(r, entries[j]);
      var k :| 0 <= k < |f| && f[k] == j;
      assert all[k] == r;
    }
  }

  /** A region is reserved exactly when a memory-map tag has an entry for it that is not available memory. */
  lemma {:induction false} ReservedHas(tags: seq<Tag>, r: Region)
    ensures r in Reserved(tags) <==> FromTags(tags, r)
  {
    if tags != [] {
      var rest := tags[1..];
      ReservedHas(rest, r);
      if tags[0].Mmap? {
        UnavailableHas(tags[0].entries, r);
      }
      if FromTags(rest, r) {
        var i :| 0 <= i < |rest| && rest[i].Mmap? && FromMap(rest[i].entries, r);
        assert tags[i + 1] == rest[i];
      }
      if FromTags(tags, r) {
        var i :| 0 <= i < |tags| && tags[i].Mmap? && FromMap(tags[i].entries, r);
        assert i > 0 ==> rest[i - 1] == tags[i];
      }
    }
  }

  // ---------------------------------------------------------------- how they lie in memory

  function Kind(t: Tag): nat {
    match t
    case Module(_, _, _) => 3
    case MemInfo(_, _) => 4
    case Mmap(_, _, _) => 6
    case Other(kind, _) => kind
  }

  function EntriesSize(entries: seq<Entry>, entrySize: nat): nat {
    if entries == [] then 0 else entrySize + EntriesSize(entries[1..], entrySize)
  }

  /** The size field of a tag: its bytes without the padding behind it. */
  function Size(t: Tag): nat {
    match t
    case Module(_, _, cmdline) => 16 + |cmdline| + 1
    case MemInfo(_, _) => 16
    case Mmap(entrySize, _, entries) => 16 + EntriesSize(entries, entrySize)
    case Other(_, body) => 8 + |body|
  }

  /** Tags start at multiples of eight bytes. */
  function Padded(n: nat): (r: nat)
    ensures r % 8 == 0 && n <= r < n + 8
  {
    (n + 7) / 8 * 8
  }

  /** The entries of a memory map at an address, each one entrySize bytes after the other. */
  predicate EntriesAt(m: seq<Byte>, a: nat, entrySize: nat, entries: seq<Entry>)
    decreases |entries|
  {
    entries == [] ||
    (&& a + 20 <= |m|
     && Read(m, a, 8) == entries[0].addr && Read(m, a + 8, 8) == entries[0].len && Read(m, a + 16, 4) == entries[0].kind
     && EntriesAt(m, a + entrySize, entrySize, entries[1..]))
  }

  /** Memory holds this tag at an address. */
  predicate TagAt(m: seq<Byte>, a: nat, t: Tag) {
    && a + 8 <= |m| && Read(m, a, 4) == Kind(t) && Read(m, a + 4, 4) == Size(t)
    && Size(t) + 7 < WORD32 && Kind(t) != 0
    && match t
       case Module(start, end, cmdline) =>
         && a + 16 <= |m| && Read(m, a + 8, 4) == start && Read(m, a + 12, 4) == end && StringAt(m, a + 16, cmdline)
       case MemInfo(lower, upper) =>
         a + 16 <= |m| && Read(m, a + 8, 4) == lower && Read(m, a + 12, 4) == upper
       case Mmap(entrySize, version, entries) =>
         && entrySize >= 20 && a + 16 <= |m| && Read(m, a + 8, 4) == entrySize && Read(m, a + 12, 4) == version
         && EntriesAt(m, a + 16, entrySize, entries)
       case Other(kind, body) => kind !in {3, 4, 6} && At(m, a + 8, body)
  }

  /** Memory holds a whole tag list at an address, with whatever padding, up to the end tag. */
  predicate TagsAt(m: seq<Byte>, a: nat, tags: seq<Tag>)
    decreases |tags|
  {
    if tags == [] then a + 8 <= |m| && Read(m, a, 4) == 0
    else TagAt(m, a, tags[0]) && TagsAt(m, a + Padded(Size(tags[0])), tags[1..])
  }

  // ---------------------------------------------------------------- writing a tag list

  predicate Representable(t: Tag) {
    && Size(t) + 7 < WORD32
    && match t
       case Module(start, end, cmdline) => start < WORD32 && end < WORD32 && 0 !in cmdline
       case MemInfo(lower, upper) => lower < WORD32 && upper < WORD32
       case Mmap(entrySize, version, entries) =>
         && 20 <= entrySize < WORD32 && version < WORD32
         && forall i :: 0 <= i < |entries| ==>
              entries[i].addr < WORD64 && entries[i].len < WORD64 && entries[i].kind < WORD32
       case Other(kind, _) => 0 < kind < WORD32 && kind !in {3, 4, 6}
  }

  function EncodeEntry(e: Entry, entrySize: nat): seq<Byte>
    requires entrySize >= 20
  {
    Encode(e.addr, 8) + (Encode(e.len, 8) + (Encode(e.kind, 4) + Zeros(entrySize - 20)))
  }

  function EncodeEntries(entries: seq<Entry>, entrySize: nat): seq<Byte>
    requires entrySize >= 20
  {
    if entries == [] then [] else EncodeEntry(entries[0], entrySize) + EncodeEntries(entries[1..], entrySize)
  }

  function EncodeBody(t: Tag): seq<Byte>
    requires Representable(t)
  {
    match t
    case Module(start, end, cmdline) => Encode(start, 4) + (Encode(end, 4) + (cmdline + [0]))
    case MemInfo(lower, upper) => Encode(lower, 4) + (Encode(upper, 4) + [])
    case Mmap(entrySize, version, entries) =>
      Encode(entrySize, 4) + (Encode(version, 4) + EncodeEntries(entries, entrySize))
    case Other(_, body) => body
  }

  function EncodeTag(t: Tag): seq<Byte>
    requires Representable(t)
  {
    Encode(Kind(t), 4) + (Encode(Size(t), 4) + (EncodeBody(t) + Zeros(Padded(Size(t)) - Size(t))))
  }

  /** A whole tag list in bytes, the end tag included. */
  function EncodeTags(tags: seq<Tag>): seq<Byte>
    requires forall i :: 0 <= i < |tags| ==> Representable(tags[i])
  {
    if tags == [] then Encode(0, 4) + Encode(8, 4) else EncodeTag(tags[0]) + EncodeTags(tags[1..])
  }

  lemma Limits()
    ensures Limit(4) == WORD32 && Limit(8) == WORD64
  {
    assert Limit(4) == 256 * 256 * 256 * 256;
  }

  lemma {:induction false} EntriesEncoded(m: seq<Byte>, a: nat, entrySize: nat, entries: seq<Entry>, y: seq<Byte>)
    requires entrySize >= 20 && At(m, a, EncodeEntries(entries, entrySize) + y)
    requires forall i :: 0 <= i < |entries| ==>
               entries[i].addr < WORD64 && entries[i].len < WORD64 && entries[i].kind < WORD32
    ensures EntriesAt(m, a, entrySize, entries)
    ensures |EncodeEntries(entries, entrySize)| == EntriesSize(entries, entrySize)
    decreases |entries|
  {
    if entries != [] {
      var e, rest := entries[0], EncodeEntries(entries[1..], entrySize);
      assert EncodeEntries(entries, entrySize) + y == EncodeEntry(e, entrySize) + (rest + y);
      EntryEncoded(m, a, entrySize, e, rest + y);
      EntriesEncoded(m, a + entrySize, entrySize, entries[1..], y);
    }
  }

  lemma EntryEncoded(m: seq<Byte>, a: nat, entrySize: nat, e: Entry, y: seq<Byte>)
    requires entrySize >= 20 && At(m, a, EncodeEntry(e, entrySize) + y)
    requires e.addr < WORD64 && e.len < WORD64 && e.kind < WORD32
    ensures a + 20 <= |m| && Read(m, a, 8) == e.addr && Read(m, a + 8, 8) == e.len && Read(m, a + 16, 4) == e.kind
    ensures At(m, a + entrySize, y)
  {
    hide Encode, Limit, Read, At;
    Limits();
    var z := Zeros(entrySize - 20);
    AtParts(m, a, EncodeEntry(e, entrySize), y);
    ReadEncoded(m, a, e.addr, 8, Encode(e.len, 8) + (Encode(e.kind, 4) + z));
    ReadEncoded(m, a + 8, e.len, 8, Encode(e.kind, 4) + z);
    ReadEncoded(m, a + 16, e.kind, 4, z);
  }

  lemma TagEncoded(m: seq<Byte>, a: nat, t: Tag, y: seq<Byte>)
    requires Representable(t) && At(m, a, EncodeTag(t) + y)
    ensures TagAt(m, a, t) && At(m, a + Padded(Size(t)), y)
  {
    hide Encode, Limit, Read, At, EncodeBody, StringAt, EntriesAt;
    Limits();
    var pad := Zeros(Padded(Size(t)) - Size(t));
    AtParts(m, a, EncodeTag(t), y);
    ReadEncoded(m, a, Kind(t), 4, Encode(Size(t), 4) + (EncodeBody(t) + pad));
    ReadEncoded(m, a + 4, Size(t), 4, EncodeBody(t) + pad);
    BodyEncoded(m, a, t, pad);
  }

  lemma BodyEncoded(m: seq<Byte>, a: nat, t: Tag, y: seq<Byte>)
    requires Representable(t) && At(m, a + 8, EncodeBody(t) + y)
    requires a + 8 <= |m| && Read(m, a, 4) == Kind(t) && Read(m, a + 4, 4) == Size(t)
    ensures TagAt(m, a, t) && 8 + |EncodeBody(t)| == Size(t)
  {
    hide Encode, Limit, Read, At, EncodeEntries;
    Limits();
    AtParts(m, a + 8, EncodeBody(t), y);
    match t
    case Module(start, end, cmdline) =>
      ReadEncoded(m, a + 8, start, 4, Encode(end, 4) + (cmdline + [0]));
      ReadEncoded(m, a + 12, end, 4, cmdline + [0]);
      StringEncoded(m, a + 16, cmdline);
    case MemInfo(lower, upper) =>
      ReadEncoded(m, a + 8, lower, 4, Encode(upper, 4) + []);
      ReadEncoded(m, a + 12, upper, 4, []);
    case Mmap(entrySize, version, entries) =>
      var b := EncodeEntries(entries, entrySize);
      ReadEncoded(m, a + 8, entrySize, 4, Encode(version, 4) + b);
      ReadEncoded(m, a + 12, version, 4, b);
      assert b + [] == b;
      EntriesEncoded(m, a + 16, entrySize, entries, []);
    case Other(_, body) =>
  }

  lemma StringEncoded(m: seq<Byte>, a: nat, s: seq<Byte>)
    requires At(m, a, s + [0]) && 0 !in s
    ensures StringAt(m, a, s)
  {
    AtParts(m, a, s, [0]);
    assert m[a + |s|] == m[a + |s|..a + |s| + 1][0];
  }

  /** What is written as a tag list is a tag list in memory, whatever comes after it. */
  lemma {:induction false} TagsEncoded(m: seq<Byte>, a: nat, tags: seq<Tag>, y: seq<Byte>)
    requires forall i :: 0 <= i < |tags| ==> Representable(tags[i])
    requires At(m, a, EncodeTags(tags) + y)
    ensures TagsAt(m, a, tags)
    decreases |tags|
  {
    hide Encode, Limit, Read, At, EncodeTag, TagAt;
    if tags == [] {
      Limits();
      AtParts(m, a, EncodeTags(tags), y);
      ReadEncoded(m, a, 0, 4, Encode(8, 4));
      EndFits(m, a);
    } else {
      var rest := EncodeTags(tags[1..]);
      assert EncodeTags(tags) + y == EncodeTag(tags[0]) + (rest + y);
      TagEncoded(m, a, tags[0], rest + y);
      TagsEncoded(m, a + Padded(Size(tags[0])), tags[1..], y);
    }
  }

  lemma EndFits(m: seq<Byte>, a: nat)
    requires At(m, a + 4, Encode(8, 4))
    ensures a + 8 <= |m|
  {
  }

  // ---------------------------------------------------------------- the parser

  class Platform {
    var modules: seq<ModuleInfo>
    var reserved: seq<Region>
    var totalMemory: nat

    constructor ()
      ensures modules == [] && reserved == [] && totalMemory == 0
    {
      modules, reserved, totalMemory := [], [], 0;
    }

    /** The memory-map case: every entry up to the end of the tag that is not available memory. */
    method ParseMmap(m: seq<Byte>, tag: nat, ghost t: Tag)
      requires t.Mmap? && TagAt(m, tag, t)
      modifies this`reserved
      ensures reserved == old(reserved) + Unavailable(t.entries)
      ensures forall r :: r in reserved <==> r in old(reserved) || FromMap(t.entries, r)
    {
      hide Read, FromMap;
      ghost var rest := t.entries;
      var entrySize := Read(m, tag + 8, 4);
      var mmap: nat := tag + 16;
      while mmap < tag + Read(m, tag + 4, 4)
        invariant EntriesAt(m, mmap, entrySize, rest)
        invariant mmap + EntriesSize(rest, entrySize) == tag + Size(t)
        invariant reserved + Unavailable(rest) == old(reserved) + Unavailable(t.entries)
        decreases |rest|
      {
        var e := Entry(Read(m, mmap, 8), Read(m, mmap + 8, 8), Read(m, mmap + 16, 4));
        if e.kind != AVAILABLE {
          reserved := reserved + [RegionOf(e)];
        }
        mmap, rest := mmap + entrySize, rest[1..];
      }
      forall r ensures r in Unavailable(t.entries) <==> FromMap(t.entries, r) {
        UnavailableHas(t.entries, r);
      }
    }

    /** The switch over one tag. */
    method ParseTag(m: seq<Byte>, tag: nat, ghost t: Tag)
      requires TagAt(m, tag, t)
      modifies this
      ensures modules == old(modules) + ModulesIn(t)
      ensures reserved == old(reserved) + ReservedIn(t)
      ensures totalMemory == TotalIn(t, old(totalMemory))
    {
      hide Read, TagAt;
      TagFields(m, tag, t);
      match Read(m, tag, 4) {
        case 3 =>
          var start, end := Read(m, tag + 8, 4), Read(m, tag + 12, 4);
          modules := modules + [ModuleOf(start, end, CString(m, tag + 16))];
        case 4 =>
          totalMemory := TotalMemory(Read(m, tag + 12, 4));
        case 6 =>
          ParseMmap(m, tag, t);
        case _ =>
      }
    }

    /** multiboot2_parser */
    method Multiboot2Parser(m: seq<Byte>, magic: nat, addr: nat, ghost tags: seq<Tag>) returns (ok: bool)
      requires magic % WORD32 == MAGIC && addr % 8 == 0 ==> TagsAt(m, addr + 8, tags)
      modifies this
      ensures ok <==> magic % WORD32 == MAGIC && addr % 8 == 0
      ensures modules == old(modules) + if ok then Modules(tags) else []
      ensures reserved == old(reserved) + if ok then Reserved(tags) else []
      ensures totalMemory == if ok then Total(tags, old(totalMemory)) else old(totalMemory)
    {
      hide Read, TagAt, ModulesIn, ReservedIn, TotalIn;
      if magic % WORD32 != MAGIC {
        return false;
      }
      if addr % 8 != 0 {
        return false;
      }
      ghost var rest := tags;
      var tag: nat := addr + 8;
      TagsStart(m, tag, rest);
      while Read(m, tag, 4) != 0
        invariant TagsAt(m, tag, rest) && tag + 8 <= |m| && (Read(m, tag, 4) == 0 <==> rest == [])
        invariant modules + Modules(rest) == old(modules) + Modules(tags)
        invariant reserved + Reserved(rest) == old(reserved) + Reserved(tags)
        invariant Total(rest, totalMemory) == Total(tags, old(totalMemory))
        decreases |rest|
      {
        ParseTag(m, tag, rest[0]);
        TagFields(m, tag, rest[0]);
        rest := rest[1..];
        tag := tag + Padded(Read(m, tag + 4, 4));
        TagsStart(m, tag, rest);
      }
      return true;
    }
  }

  lemma TagsStart(m: seq<Byte>, a: nat, tags: seq<Tag>)
    requires TagsAt(m, a, tags)
    ensures a + 8 <= |m| && (Read(m, a, 4) == 0 <==> tags == [])
  {
  }

  /** What the parser reads from a tag. */
  lemma TagFields(m: seq<Byte>, a: nat, t: Tag)
    requires TagAt(m, a, t)
    ensures a + 8 <= |m| && Read(m, a, 4) == Kind(t) && Read(m, a + 4, 4) == Size(t)
    ensures t.Other? <==> Kind(t) !in {3, 4, 6}
    ensures t.Module? || t.MemInfo? ==> a + 16 <= |m|
    ensures t.Module? ==>
              Read(m, a + 8, 4) == t.start && Read(m, a + 12, 4) == t.end && CString(m, a + 16) == t.cmdline
    ensures t.MemInfo? ==> Read(m, a + 12, 4) == t.upper
  {
    if t.Module? {
      CStringIs(m, a + 16, t.cmdline);
    }
  }
}
