/**
 From the boot information to the page allocator: what boot marks, and what the allocator can then
 ever hand out.
 */
module Boot {
  import opened Machine
  import opened Bytes
  import opened Multiboot
  import opened Pmem

  function AllFree(n: nat): (pages: seq<PageType>)
    ensures |pages| == n && forall p :: 0 <= p < n ==> pages[p] == Free
  {
    if n == 0 then [] else AllFree(n - 1) + [Free]
  }

  function MarkAll(pages: seq<PageType>, regions: seq<Region>): (r: seq<PageType>)
    ensures |r| == |pages|
    decreases |regions|
  {
    if regions == [] then pages
    else MarkAll(SetAsSystem(pages, regions[0].start, regions[0].size), regions[1..])
  }

  /** The page types when kernel_main has marked the reserved ranges and the kernel image. */
  function BootPages(total: nat, reserved: seq<Region>, kernel: Region): (r: seq<PageType>)
    ensures |r| == total / PAGE
  {
    SetAsSystem(MarkAll(AllFree(total / PAGE), reserved), kernel.start, kernel.size)
  }

  /** The pages of a region, up to the page the address behind its last byte lies in. */
  predicate Covers(r: Region, p: nat) {
    Marks(p, r.start, r.size)
  }

  ghost predicate Covered(regions: seq<Region>, p: nat) {
    exists i :: 0 <= i < |regions| && Covers(regions[i], p)
  }

  // ---------------------------------------------------------------- the code's own form

  /** The first steps of kernel_main. */
  method InitialiseMemory(platform: Platform, kernel: Region) returns (memory: PhysicalMemory)
    ensures fresh(memory) && fresh(memory.pages)
    ensures memory.pages[..] == BootPages(platform.totalMemory, platform.reserved, kernel)
  {
    memory := new PhysicalMemory(platform.totalMemory);
    assert memory.pages[..] == AllFree(platform.totalMemory / PAGE);
    ghost var rest := platform.reserved;
    var i := 0;
    while i < |platform.reserved|
      invariant i <= |platform.reserved| && rest == platform.reserved[i..]
      invariant fresh(memory.pages)
      invariant MarkAll(memory.pages[..], rest) == MarkAll(AllFree(platform.totalMemory / PAGE), platform.reserved)
    {
      var region := platform.reserved[i];
      var _ := memory.PmemSetAsSystem(region.start, region.size);
      i, rest := i + 1, rest[1..];
    }
    var _ := memory.PmemSetAsSystem(kernel.start, kernel.size);
  }

  /** Parsing the boot information and then marking what it says. */
  method BootMachine(m: seq<Byte>, magic: nat, addr: nat, kernel: Region, ghost tags: seq<Tag>)
    returns (ok: bool, memory: PhysicalMemory?)
    requires magic % WORD32 == MAGIC && addr % 8 == 0 ==> TagsAt(m, addr + 8, tags)
    ensures ok <==> magic % WORD32 == MAGIC && addr % 8 == 0
    ensures ok <==> memory != null
    ensures ok ==> memory.pages[..] == BootPages(Total(tags, 0), Reserved(tags), kernel)
  {
    hide TagsAt, BootPages, Reserved, Modules, Total;
    var platform := new Platform();
    ok := platform.Multiboot2Parser(m, magic, addr, tags);
    memory := null;
    if ok {
      assert [] + Reserved(tags) == Reserved(tags);
      memory := InitialiseMemory(platform, kernel);
    }
  }

  // ---------------------------------------------------------------- what is marked

  lemma {:induction false} MarkAllExact(pages: seq<PageType>, regions: seq<Region>, p: nat)
    requires p < |pages|
    ensures MarkAll(pages, regions)[p] == if Covered(regions, p) then System else pages[p]
    decreases |regions|
  {
    if regions != [] {
      var r := regions[0];
      SetAsSystemExactly(pages, r.start, r.size);
      MarkAllExact(SetAsSystem(pages, r.start, r.size), regions[1..], p);
      CoveredSplits(regions, p);
    }
  }

  lemma CoveredSplits(regions: seq<Region>, p: nat)
    requires regions != []
    ensures Covered(regions, p) <==> Covers(regions[0], p) || Covered(regions[1..], p)
  {
    if Covered(regions, p) {
      var i :| 0 <= i < |regions| && Covers(regions[i], p);
      assert i > 0 ==> regions[1..][i - 1] == regions[i];
    }
    if Covered(regions[1..], p) {
      var i :| 0 <= i < |regions[1..]| && Covers(regions[1..][i], p);
      assert regions[i + 1] == regions[1..][i];
    }
  }

  /** After boot a page is SYSTEM exactly when a reserved range or the kernel covers it, and free otherwise. */
  lemma BootExact(total: nat, reserved: seq<Region>, kernel: Region, p: nat)
    requires p < total / PAGE
    ensures BootPages(total, reserved, kernel)[p] == if Covered(reserved, p) || Covers(kernel, p) then System else Free
  {
    var marked := MarkAll(AllFree(total / PAGE), reserved);
    MarkAllExact(AllFree(total / PAGE), reserved, p);
    SetAsSystemExactly(marked, kernel.start, kernel.size);
  }

  lemma TouchedIsCovered(r: Region, p: nat)
    requires Touches(p, r.start, r.size) && r.start + r.size < WORD64
    ensures Covers(r, p)
  {
  }

  // ---------------------------------------------------------------- what can be handed out

  /** The page has a byte in a range that ends inside the 64-bit address space. */
  predicate InRange(p: nat, addr: nat, bytes: nat) {
    Touches(p, addr, bytes) && addr + bytes < WORD64
  }

  /** The page has a byte in a range the boot loader reported as anything but available memory. */
  ghost predicate Unusable(tags: seq<Tag>, p: nat) {
    exists i, j ::
      && 0 <= i < |tags| && tags[i].Mmap? && 0 <= j < |tags[i].entries| && tags[i].entries[j].kind != AVAILABLE
      && InRange(p, tags[i].entries[j].addr, tags[i].entries[j].len)
  }

  lemma UnusableIsCovered(tags: seq<Tag>, p: nat)
    requires Unusable(tags, p)
    ensures Covered(Reserved(tags), p)
  {
    var i, j :|
      && 0 <= i < |tags| && tags[i].Mmap? && 0 <= j < |tags[i].entries| && tags[i].entries[j].kind != AVAILABLE
      && InRange(p, tags[i].entries[j].addr, tags[i].entries[j].len);
    var r, reserved := RegionOf(tags[i].entries[j]), Reserved(tags);
    assert FromMap(tags[i].entries, r);
    ReservedHas(tags, r);
    TouchedIsCovered(r, p);
    var n :| 0 <= n < |reserved| && reserved[n] == r;
    assert Covers(reserved[n], p);
  }

  /**
   Through every run of the allocator after boot, no page with a byte in a range the boot loader
   reported as anything but available, or in the kernel image, is ever handed out.
   */
  lemma UnusableNeverHandedOut(tags: seq<Tag>, kernel: Region, ops: seq<Op>, k: nat, p: nat)
    requires k < |ops| && p < Total(tags, 0) / PAGE
    requires Unusable(tags, p) || InRange(p, kernel.start, kernel.size)
    ensures var pages := BootPages(Total(tags, 0), Reserved(tags), kernel);
            HandedOut(pages, ops, k) != 0 ==> HandedOut(pages, ops, k) != p * PAGE
  {
    if Unusable(tags, p) {
      UnusableIsCovered(tags, p);
    } else {
      TouchedIsCovered(kernel, p);
    }
    BootExact(Total(tags, 0), Reserved(tags), kernel, p);
    SystemNeverHandedOut(BootPages(Total(tags, 0), Reserved(tags), kernel), ops, k, p);
  }

  /** A memory-map tag has an entry for this page that is not available memory. */
  ghost predicate MarkedByTags(tags: seq<Tag>, p: nat) {
    exists i, j ::
      && 0 <= i < |tags| && tags[i].Mmap? && 0 <= j < |tags[i].entries| && tags[i].entries[j].kind != AVAILABLE
      && Marks(p, tags[i].entries[j].addr, tags[i].entries[j].len)
  }

  lemma CoveredByTags(tags: seq<Tag>, p: nat)
    ensures Covered(Reserved(tags), p) <==> MarkedByTags(tags, p)
  {
    var reserved := Reserved(tags);
    if Covered(reserved, p) {
      var n :| 0 <= n < |reserved| && Covers(reserved[n], p);
      ReservedHas(tags, reserved[n]);
      var i :| 0 <= i < |tags| && tags[i].Mmap? && FromMap(tags[i].entries, reserved[n]);
      var j :| 0 <= j < |tags[i].entries| && tags[i].entries[j].kind != AVAILABLE
               && Describes(reserved[n], tags[i].entries[j]);
      assert Marks(p, tags[i].entries[j].addr, tags[i].entries[j].len);
    }
    if MarkedByTags(tags, p) {
      var i, j :|
        && 0 <= i < |tags| && tags[i].Mmap? && 0 <= j < |tags[i].entries| && tags[i].entries[j].kind != AVAILABLE
        && Marks(p, tags[i].entries[j].addr, tags[i].entries[j].len);
      var r := RegionOf(tags[i].entries[j]);
      assert FromMap(tags[i].entries, r);
      ReservedHas(tags, r);
      var n :| 0 <= n < |reserved| && reserved[n] == r;
      assert Covers(reserved[n], p);
    }
  }

  /**
   What boot leaves to the allocator, told from the boot information alone: some run hands out a page
   exactly when it lies at or above 64 MB and neither an entry that is not available memory nor the
   kernel image marks it. The pages of the boot modules are among them.
   */
  lemma HandedOutAfterBoot(tags: seq<Tag>, kernel: Region, p: nat)
    requires p < Total(tags, 0) / PAGE
    ensures EverHandedOut(BootPages(Total(tags, 0), Reserved(tags), kernel), p)
       <==> FIRST <= p && !MarkedByTags(tags, p) && !Marks(p, kernel.start, kernel.size)
  {
    BootExact(Total(tags, 0), Reserved(tags), kernel, p);
    CoveredByTags(tags, p);
    EverHandedOutExactly(BootPages(Total(tags, 0), Reserved(tags), kernel), p);
  }
}
