# A verified model of the bubackos kernel core

This project models the memory management, task switching, boot and library code of the bubackos
kernel (C, x86_64) in Dafny and proves what that code keeps over whole runs.
`dafny verify dfyconfig.toml` checks all of it.

Every part has the same shape. Value-state functions say what each operation does. A class, or
methods on arrays, hold the code in its own imperative form and are proved equal to those functions.
The properties are lemmas about the functions, most of them for every run of all operations.

| part | files |
|---|---|
| page tables, their dump | `Paging.dfy`, `PageTables.dfy`, `PageDump.dfy` |
| physical pages | `Pmem.dfy` |
| address spaces and regions | `Vmem.dfy`, `VmemInvariant.dfy`, `VmemAgreement.dfy`, `VmemGrowth.dfy`, `VmemPlacement.dfy`, `VmemGaps.dfy`, `VmemIsolation.dfy`, `VmemCosts.dfy`, `VirtualMemory.dfy` |
| program loading | `Loader.dfy` |
| kernel heap | `KernelHeap.dfy` |
| tasks, ready queue, context switches | `Tasks.dfy`, `TasksInvariant.dfy`, `TaskLifecycle.dfy`, `TaskService.dfy`, `IdMapper.dfy`, `TaskArguments.dfy` |
| linked list on the heap | `LinkedList.dfy` |
| boot information and boot | `Multiboot.dfy`, `Boot.dfy`, `Bytes.dfy` |
| strings and formatting | `Strings.dfy`, `Formatting.dfy` |
| word sizes, page size, options | `Machine.dfy` |

The results that carry most:

- The four-level page tables refine a flat map from page numbers to frames, after any run, with no
  table shared and none overlapping another (`Paging.RunRefinesFlatMap`, `TablesAreNotShared`).
- The kernel keeps every mapping twice, in a list and in the page tables, under an invariant that
  every run keeps (`VmemInvariant.RunKeepsInv`). The two agree on all addresses exactly when the first
  and the last entry of every listed page hold the same frame (`VmemAgreement.AgreeExactly`), and so
  whenever attached regions do not overlap (`RunAgrees`).
- Two address spaces that reach the same page of the allocator do so through a region attached to
  both, and at the same virtual page, after any run that maps by hand only pages the allocator does
  not own (`VmemIsolation.SpacesShareOnlyRegions`). The mapping of the kernel at boot is of this kind
  (`BootIsCareful`).
- A task starts where it was told to and always runs in the address space it was created for
  (`TaskLifecycle.StartsWhereTold`, `RunsInItsSpace`). It resumes with exactly the frame it was
  interrupted with, and waits for a bounded number of switches, whatever else happens
  (`TasksInvariant.PreemptedTaskResumes`, `BoundedWaiting`).
- `kalloc` can re-enter itself through its own growth. Its blocks are disjoint for any nesting
  (`KernelHeap.BlocksAreDisjoint`), and mapped when the bookkeeping of each call is at most the reserve
  (`SmallWorkIsMapped`). When growth re-enters, and when the reserve survives a run, is known exactly
  (`NeverReentersExactly`, `RunReserveExactly`).
- From the bytes of the boot information to the page allocator: nothing reported as unusable is ever
  handed out, and what can be handed out is known exactly (`Boot.UnusableNeverHandedOut`,
  `HandedOutAfterBoot`).

## Where the code does not do what it promises

The model follows the code. Each point names the exact condition and, where the condition is not the
whole story, a concrete case.

- `native_vmem_set` enters the first page of a range again and again, so it maps a range exactly when
  the rest of it was mapped already (`Paging.RangeMappedExactly`, `TwoPagesAreNotMapped`).
- Regions are not checked for overlap, as the repository's own to-do list says (`README.markdown`,
  line 59). The exact conditions for a creation, a resize and a mapping to overlap are
  `VmemGrowth.CreateOverlapsExactly`, `ResizeOverlapsExactly` and `MappingOverlapsExactly`.
  Automatic placement does overlap, because every address space counts from the same address
  (`AutomaticPlacementOverlaps`). Within one address space automatic starts are 1 MB apart or more, and
  two such regions overlap exactly when the lower one has outgrown the distance
  (`VmemPlacement.AutomaticStartsDistinct`). The step is 1 MB, though the comment in
  `src/kernel/core/include/core/hal/platform.h`, line 12, says 1 GB.
- `vmem_region_create` reports failure exactly for an unaligned address or too little memory, and in
  the second case leaves the region attached (`VmemGrowth.CreateExactly`, `FailedCreateStays`).
- List iteration takes a stored 0 for the end of the list, so a region is attached completely exactly
  when it does not hold physical page 0 (`VmemGrowth.AttachIsCompleteWithoutPageZero`,
  `PageZeroIsNotAttached`), and what is missing then stays missing (`VmemGaps.CompleteForever`).
- Removing neighbours during one iteration leaves every second of them in the list
  (`LinkedList.FiltersExactlyWithoutAdjacentRemovals`, `EverySecondStays`, `NeighbourStays`).
- `vsnprintf` writes behind its buffer exactly when literal text fills it in front of certain
  conversions (`Formatting.VSNPrintf`, `FillsExactly`, `LiteralFillsSpills`). Cutting literal text in
  front of the last character of the format also reads one byte behind the format's terminator, which
  has no effect on the result.
- `strncpy` returns the address behind the copied bytes, while section 7.24.2.4 of C11 asks for the
  destination. It also tests bit 3 of the addresses where their low three bits decide alignment, so its
  words can be unaligned; the bytes written are right in any case (`Strings.StrNCpy`).
- The memory size is right exactly below 4 GB (`Multiboot.TotalMemoryExactly`), and a reserved range
  whose end wraps around is not marked (`Pmem.RangeMarkedExactly`, `WrappingRangeIsNotMarked`).
- Boot marks reserved ranges and the kernel but not the modules' memory (`Boot.HandedOutAfterBoot`),
  and a page mapped by hand that the allocator owns gets into a second region
  (`VmemIsolation.MappedPageIsSharedNext`).
- Without arguments the size of the argument area is not checked (`TaskArguments.StaysInsideExactly`,
  `EightByteArea`). The NULL that the layout puts behind the pointers is never written, so the array
  ends with NULL exactly when the slot held 0 before (`CopyArguments`).
- The reserve of the kernel heap is meant to pay for the bookkeeping of growth. With at most a page of
  bookkeeping per page it never re-enters growth, but the reserve survives a call, and the call's block
  is mapped, exactly when the pages asked for pay for all of it (`KernelHeap.ReserveKeptExactly`); a
  call of a hundred pages can lose both (`OnePageEachLosesReserve`). A page costs more than a page
  exactly when it takes a block of page tables or more than 102 address spaces have the region
  (`VmemCosts.CostsAPageExactly`), and a block re-enters growth when only the reserve is left
  (`KernelHeap.BlockReenters`).

## What becomes a parameter

Interrupt frames, system call results, the stack region and the argument address of a new task, the
bookkeeping allocations that heap growth triggers, the address lookup of the argument copy, and the
order of all operations are inputs that the theorems range over. Page tables are told apart by address,
address spaces, regions and tasks by the order of their creation.

## Model

| member | source | states |
|---|---|---|
| `Paging.DigitsArePageNumber` | src/kernel/hal/src/x86_64/native_pagging.c:13-29 | the four table indices of an address, put together, are its 48-bit page number |
| `Paging.SamePageIffDigits` | src/kernel/hal/src/x86_64/native_pagging.c:13-29 | two addresses take the same way through the four levels if and only if they lie on the same page |
| `Paging.CutIsFresh` | src/kernel/hal/src/x86_64/native_pagging.c:114-141 | a table cut from a block is page-aligned, lies inside the newest block of its own address space, is disjoint from every table in use, and leaves the allocator in order |
| `Paging.LinkKeepsWalks` | src/kernel/hal/src/x86_64/native_pagging.c:166-184 | hanging an empty table into an absent entry changes no translation of any address space |
| `Paging.LeafKeepsOtherWalks` | src/kernel/hal/src/x86_64/native_pagging.c:143-184 | writing the leaf entry of one page changes no walk for another page or another address space |
| `Paging.SetEntryCorrect` | src/kernel/hal/src/x86_64/native_pagging.c:166-184 | from any table on the path, the recursion ends with the page entered, all other walks as before and the table invariant kept, however many tables had to be cut |
| `Paging.SetEntryKeepsHigher` | src/kernel/hal/src/x86_64/native_pagging.c:166-184 | the recursion changes no table above the level it starts from |
| `Paging.NativeSetCorrect` | src/kernel/hal/src/x86_64/native_pagging.c:224-238 | after native_vmem_set an address is translated to the given frame if and only if it is on the page of the given address, both addresses are aligned and the size is at least a page; every other translation, in every address space, is the old one |
| `Paging.NativeCreateCorrect` | src/kernel/hal/src/x86_64/native_pagging.c:202-219 | a new address space translates nothing and no existing translation changes |
| `Paging.RunRefinesFlatMap` | src/kernel/hal/src/x86_64/native_pagging.c:114-238 | after any run of creations, mappings and other heap use, the four-level walk of every address space equals a flat map from page numbers to frames updated by the same calls |
| `Paging.TablesAreNotShared` | src/kernel/hal/src/x86_64/native_pagging.c:137-184 | after any run, two ways through any address spaces that meet in a table are the same way from the same root: no table has two parents |
| `Paging.TablesAlignedAndDisjoint` | src/kernel/hal/src/x86_64/native_pagging.c:114-135 | after any run, all tables are 4096-aligned, pairwise disjoint and inside the used part of the heap |
| `Paging.RunIsOpen` | src/kernel/hal/src/x86_64/native_pagging.c:143-184 | after any run, whatever permissions were asked for, every entry of every table is absent and zero or open to user code for reading, writing and execution, and none is a large page |
| `Paging.RangeMappedExactly` | src/kernel/hal/src/x86_64/native_pagging.c:224-238 | native_vmem_set maps the whole range it is asked for if and only if every page behind the first one translated in step already: the loop enters the first page again and again |
| `Paging.RangeIsMappedOnlyForOnePage` | src/kernel/hal/src/x86_64/native_pagging.c:224-238 | so a range whose second page was not mapped is mapped if and only if it is one page |
| `Paging.TwoPagesAreNotMapped` | src/kernel/hal/src/x86_64/native_pagging.c:224-238 | asked for two pages in a new address space, at any aligned addresses, it does not map both |
| `PageTables.NativeVmem.CreateEntries` | src/kernel/hal/src/x86_64/native_pagging.c:114-141 | block and window bookkeeping, with a new block when the window is used up, reach the state and address CutIsFresh speaks about |
| `PageTables.NativeVmem.SetEntry` | src/kernel/hal/src/x86_64/native_pagging.c:166-184 | the recursion over mutable tables reaches the state SetEntryCorrect speaks about, cutting tables on the way |
| `PageTables.NativeVmem.NativeVmemSet` | src/kernel/hal/src/x86_64/native_pagging.c:224-238 | false exactly for an unaligned address; the loop over the size reaches the state NativeSetCorrect speaks about |
| `PageTables.NativeVmem.NativeVmemCreate` | src/kernel/hal/src/x86_64/native_pagging.c:202-219 | a new handle that translates no address, while every other address space translates every address as before |
| `PageDump.AccumulateEncodes` | src/kernel/hal/src/x86_64/native_pagging.c:46-76 | merging turns any ascending list of leaves into ranges that say the same about every byte and in which no two neighbours could still be merged |
| `PageDump.LeavesSorted` | src/kernel/hal/src/x86_64/native_pagging.c:78-94 | the recursive listing yields leaves in ascending order, without overlap, inside the span of the table |
| `PageDump.LeavesAreTheWalk` | src/kernel/hal/src/x86_64/native_pagging.c:78-94 | below any table, the listed leaves say about a byte what the walk along its indices finds, with large pages at any level |
| `PageDump.WalkHitIsWalk` | src/kernel/hal/src/x86_64/native_pagging.c:78-94 | the walk used for the dump finds the same page as the translation walk |
| `PageDump.DumpIsSortedAndMaximal` | src/kernel/hal/src/x86_64/native_pagging.c:46-105 | the log of a dump is ascending, without overlap and maximally merged |
| `PageDump.DumpIsLossless` | src/kernel/hal/src/x86_64/native_pagging.c:46-105 | for every 48-bit address the log gives the same physical address and permissions as the processor walk, or nothing when the walk finds nothing |
| `PageDump.MergeableExactly` | src/kernel/hal/src/x86_64/native_pagging.c:46-60 | two ascending ranges are merged if and only if a single range can say about every byte what both say |
| `PageDump.EncodingIsUnique` | src/kernel/hal/src/x86_64/native_pagging.c:46-105 | two ascending lists of ranges without mergeable neighbours that say the same about every byte are equal: no other log than that of the dump describes the tables like that |
| `PageDump.Dumper.AccumulateEntries` | src/kernel/hal/src/x86_64/native_pagging.c:46-76 | the in-place accumulator: the merged flag is exactly mergeability and a range that cannot be merged moves the accumulator to the log |
| `PageDump.Dumper.ParseEntries` | src/kernel/hal/src/x86_64/native_pagging.c:78-94 | the loop with its recursion feeds exactly the leaves of the table to the accumulator, in order |
| `PageDump.Dumper.ParseIntelMemory` | src/kernel/hal/src/x86_64/native_pagging.c:96-105 | the last accumulated range is logged too |
| `Pmem.PhysicalMemory.constructor` | src/kernel/core/src/pmem/services.c:19-33 | one free page entry per page of memory |
| `Pmem.PhysicalMemory.SetPageType` | src/kernel/core/src/pmem/services.c:35-46 | false exactly for a page that does not exist; a SYSTEM page does not change |
| `Pmem.PhysicalMemory.NextPageAvailable` | src/kernel/core/src/pmem/services.c:51-61 | the lowest free page from 64 MB on, or 0 if there is none |
| `Pmem.PhysicalMemory.PmemAllocate` | src/kernel/core/src/pmem/services.c:63-78 | the first free page becomes a user page and its address is returned, or 0 and no change (see Pmem.AllocateExact) |
| `Pmem.PhysicalMemory.PmemSetAsSystem` | src/kernel/core/src/pmem/services.c:84-94 | always true; a page becomes SYSTEM exactly when it ends behind the first address of the range and starts no later than the address behind its last byte, in 64 bits; every other page keeps its type |
| `Pmem.PhysicalMemory.PmemRelease` | src/kernel/core/src/pmem/services.c:96-102 | true exactly for an aligned address of an existing page; the page that starts there becomes free unless it is SYSTEM, and no other page changes |
| `Pmem.AllocateExact` | src/kernel/core/src/pmem/services.c:51-78 | allocation fails exactly when no page from 64 MB on is free; otherwise the lowest free page is taken and nothing else changes |
| `Pmem.ReleaseExact` | src/kernel/core/src/pmem/services.c:96-102 | releasing an address frees the page that starts there, unless it is SYSTEM, and no other |
| `Pmem.MarkExact` | src/kernel/core/src/pmem/services.c:84-94 | exactly the pages from the first to the last one become SYSTEM, both ends included |
| `Pmem.SetAsSystemExactly` | src/kernel/core/src/pmem/services.c:84-94 | a page becomes SYSTEM if and only if it ends behind the first address of the range and starts no later than the address behind its last byte, in 64 bits; every other page keeps its type |
| `Pmem.SetAsSystemCovers` | src/kernel/core/src/pmem/services.c:84-94 | every page with a byte in a range that does not wrap around becomes SYSTEM and no SYSTEM page stops being one |
| `Pmem.RangeMarkedExactly` | src/kernel/core/src/pmem/services.c:84-94 | every page of a range is marked if and only if the range ends inside the 64-bit address space, or no unmarked page from its start on begins behind the address its end wraps to |
| `Pmem.WrappingRangeIsNotMarked` | src/kernel/core/src/pmem/services.c:84-94 | a concrete range whose end wraps to 0: no page is marked |
| `Pmem.AllocateTakesOne` | src/kernel/core/src/pmem/services.c:63-78 | an allocation succeeds if and only if there is a free page from 64 MB on, and then takes exactly one of them |
| `Pmem.SystemForever` | src/kernel/core/src/pmem/services.c:35-102 | a SYSTEM page is SYSTEM after every run |
| `Pmem.SystemNeverHandedOut` | src/kernel/core/src/pmem/services.c:35-102 | no run hands out a SYSTEM page |
| `Pmem.BusyUntilReleased` | src/kernel/core/src/pmem/services.c:35-102 | a page in use stays in use through any run without a release of it |
| `Pmem.HandedOutTwice` | src/kernel/core/src/pmem/services.c:35-102 | the same page is handed out twice only with a release of it in between |
| `Pmem.AllocatingReaches` | src/kernel/core/src/pmem/services.c:51-78 | enough allocations in a row hand out any given free page from 64 MB on |
| `Pmem.EverHandedOutExactly` | src/kernel/core/src/pmem/services.c:35-102 | some run hands out a page if and only if the page is at or above 64 MB and not SYSTEM |
| `VmemInvariant.NotifyKeepsTree` | src/kernel/core/src/vmem/services.c:84-113 | appending an entry to a list and entering its page into the page tables keeps the two in agreement, in this address space and in all others |
| `VmemInvariant.BroadcastEffect` | src/kernel/core/src/vmem/region_services.c:37-41 | notifying the attached address spaces appends one entry to the list of each of them and touches no other |
| `VmemInvariant.AssocPageEffect` | src/kernel/core/src/vmem/region_services.c:25-43 | one more physical page: the region grows by a page and every attached address space, and only those, gets the entry for it |
| `VmemInvariant.AttachEffect` | src/kernel/core/src/vmem/services.c:133-168 | attaching links region and address space both ways and appends the entries of the pages before the first physical page 0, touching no other list |
| `VmemInvariant.AssocPageKeeps` | src/kernel/core/src/vmem/region_services.c:25-43 | the invariant of lists and page tables is kept when a region gets a page |
| `VmemInvariant.AttachKeeps` | src/kernel/core/src/vmem/services.c:133-168 | the invariant is kept by attaching a region |
| `VmemInvariant.VmemCreateKeeps` | src/kernel/core/src/vmem/services.c:28-61 | the invariant is kept by creating an address space with all kernel regions attached |
| `VmemInvariant.MapPagesKeeps` | src/kernel/core/src/vmem/region_services.c:51-90 | the invariant is kept by mapping any aligned physical range, page 0 included |
| `VmemInvariant.ResizeKeeps` | src/kernel/core/src/vmem/region_services.c:175-212 | the invariant is kept by a resize, successful or not |
| `VmemInvariant.RegionCreateKeeps` | src/kernel/core/src/vmem/region_services.c:116-173 | the invariant is kept by creating a region, also when it fails half-way |
| `VmemInvariant.RunKeepsInv` | src/kernel/core/src/vmem/region_services.c:25-212 | after any run of all operations: regions and address spaces refer to each other symmetrically and once, each list holds the entries of the attached regions in order, all of them but possibly a gap that starts at physical page 0, and the page tables hold the last entry written for every page |
| `VmemInvariant.ListsAreComplete` | src/kernel/core/src/vmem/region_services.c:25-43 | where no region holds physical page 0, each list holds exactly the entries of the attached regions |
| `VmemAgreement.SearchIsTheWalk` | src/kernel/core/src/vmem/services.c:118-131 | where attached regions do not overlap, the list search and the page-table walk give the same physical address for every 48-bit address |
| `VmemAgreement.AgreesAtListed` | src/kernel/core/src/vmem/services.c:84-131 | at a listed page the list search and the page-table walk agree if and only if the first and the last entry of the page hold the same frame |
| `VmemAgreement.AgreeExactly` | src/kernel/core/src/vmem/services.c:84-131 | search and walk agree on all 48-bit addresses if and only if the first and the last entry of every listed page hold the same frame |
| `VmemAgreement.RunAgrees` | src/kernel/core/src/vmem/services.c:84-131 | after any run that does not map page 0, search and walk agree on every 48-bit address of an address space without overlap |
| `VmemAgreement.AgreeExactlyWithoutOverlap` | src/kernel/core/src/vmem/services.c:84-131 | when no page is listed twice with the same frame, search and walk agree on all 48-bit addresses if and only if the attached regions do not overlap; frames may repeat at other addresses |
| `VmemGrowth.MapPagesGrows` | src/kernel/core/src/vmem/region_services.c:51-90 | mapping a range appends its physical pages in order, and nothing else of any region changes |
| `VmemGrowth.GrowByExactly` | src/kernel/core/src/vmem/region_services.c:187-202 | growing gets all pages asked for if and only if that many are free from 64 MB on; otherwise it takes all there are |
| `VmemGrowth.ResizeExactly` | src/kernel/core/src/vmem/region_services.c:175-212 | a resize succeeds if and only if the new size in whole pages is at most what the region has plus the free pages; then the region has the size, otherwise it keeps its size and takes all free pages; no mapped page is lost |
| `VmemGrowth.PageIsSeen` | src/kernel/core/src/vmem/services.c:84-131 | page k of a region is what an attached address space finds at start + 4096 k, by search and by walk, if no other region attached there lies on this one, however the others overlap |
| `VmemGrowth.SeenByte` | src/kernel/core/src/vmem/services.c:118-131 | search and walk find every byte of every page of an attached region on which no other one lies |
| `VmemGrowth.ResizeReachesEverySpace` | src/kernel/core/src/vmem/region_services.c:175-212 | growth shows up, by search and by walk, in every address space that has the region and in which no other region lies on it: old pages as before, new pages mapped |
| `VmemGrowth.AttachIsCompleteWithoutPageZero` | src/kernel/core/src/vmem/services.c:133-168 | attaching lists all pages of a region if and only if none of them is physical page 0, where the list iteration stops |
| `VmemGrowth.PageZeroIsNotAttached` | src/kernel/core/src/vmem/services.c:133-168 | a concrete run in which an address space gets a region without its page 0 |
| `VmemGaps.AttachSameGaps` | src/kernel/core/src/vmem/services.c:133-168 | attaching a region changes for no other attached region how many pages a list misses |
| `VmemGaps.CompleteForever` | src/kernel/core/src/vmem/region_services.c:25-212 | through every run, page 0 included: a list that has all pages of an attached region when it is attached always has, and one that does not never will |
| `VmemIsolation.ManagedExactly` | src/kernel/core/src/pmem/services.c:35-102 | the pages counted as the allocator's are exactly those that some run of the allocator hands out |
| `VmemIsolation.RunIsolates` | src/kernel/core/src/vmem/region_services.c:175-212 | after every run that maps by hand only pages the allocator does not own and releases no page in a region: no page of the allocator is in two regions or twice in one, and none in a region is free |
| `VmemIsolation.PlainIsCareful` | src/kernel/core/src/vmem/region_services.c:51-90 | a condition on the calls and the page types at boot alone: with no release, and with mappings by hand only below 64 MB, behind the end of memory or of SYSTEM pages, every run is one of these |
| `VmemIsolation.BootIsCareful` | src/kernel/core/src/alloc.c:20-66 | the mapping of kernel code and kernel data at boot, below 64 MB, is such a run, and so is every run that goes on like that |
| `VmemIsolation.WalkIsRegionPage` | src/kernel/core/src/vmem/services.c:84-113 | whatever the walk finds is a page of a region attached to the address space, at its place in that region |
| `VmemIsolation.SpacesShareOnlyRegions` | src/kernel/core/src/vmem/region_services.c:25-212 | over every such run, when two address spaces translate to the same page of the allocator, they do it through one region attached to both and at the same virtual page |
| `VmemIsolation.MappedPageIsSharedNext` | src/kernel/core/src/vmem/region_services.c:51-90 | the condition is needed: a page mapped by hand that the allocator owns gets into a second region |
| `VmemGrowth.AutomaticPlacementOverlaps` | src/kernel/core/src/vmem/region_services.c:93-173 | once the kernel has a region at the first automatic address, the first automatically placed region of a new address space overlaps it |
| `VmemPlacement.StepPlaces` | src/kernel/core/src/vmem/region_services.c:93-98 | every call leaves all regions where they are and attached; the next automatic address moves on by 1 MB in the address space of an automatic placement and nowhere else, and is 1 MB in a new address space |
| `VmemPlacement.NextExactly` | src/kernel/core/src/vmem/region_services.c:93-98 | after every run the next automatic address of an address space is 1 MB times one more than the automatic placements there |
| `VmemPlacement.PlacedAt` | src/kernel/core/src/vmem/region_services.c:116-173 | every automatic placement of a run creates a region that stays attached, at 1 MB times one more than the automatic placements before it |
| `VmemPlacement.AutomaticStartsDistinct` | src/kernel/core/src/vmem/region_services.c:93-173 | over every run, the automatic starts of one address space are pairwise distinct, later ones at least 1 MB further up; two such regions overlap if and only if neither is empty and the lower one maps more than the distance of their starts |
| `VmemPlacement.MappedWhereReturned` | src/kernel/core/src/vmem/region_services.c:51-90 | the mapping call returns 0 if and only if the range is unaligned or empty; otherwise byte i of the range is found at the returned address + i, by search and by walk, in every address space that has the region and in which no other region lies on it |
| `VmemPlacement.NewSpaceSeesKernel` | src/kernel/core/src/vmem/services.c:28-61 | a new address space has exactly the regions of the kernel, in the same order, and translates every page of a kernel region on which no other one lies as the address space of the kernel does |
| `VmemGrowth.CreateExactly` | src/kernel/core/src/vmem/region_services.c:93-173 | vmem_region_create succeeds if and only if the address is aligned and enough pages are free; place, size, permissions and attachment of the region; when memory is lacking the failed call leaves the region attached, with size 0 and all the free pages; the next automatic address moves on by 1 MB in this address space if the placement was automatic, and in no other |
| `VmemGrowth.FailedCreateStays` | src/kernel/core/src/vmem/region_services.c:116-173 | a concrete run in which the call fails and the region stays attached |
| `VmemGrowth.CreateOverlapsExactly` | src/kernel/core/src/vmem/region_services.c:93-173 | a successful creation keeps an address space free of overlap if and only if no attached region meets the range, given or picked automatically |
| `VmemGrowth.GrowthOverlapsExactly` | src/kernel/core/src/vmem/region_services.c:25-43 | growing a region in any way keeps an address space free of overlap if and only if no other attached region meets the range it then has |
| `VmemGrowth.ResizeOverlapsExactly` | src/kernel/core/src/vmem/region_services.c:175-212 | for a resize, that range is the new size in whole pages as far as the free pages go |
| `VmemGrowth.MappingOverlapsExactly` | src/kernel/core/src/vmem/region_services.c:51-90 | for a mapping, that range is what the region has and the size mapped |
| `VmemCosts.PageCosts` | src/kernel/core/src/vmem/region_services.c:25-43 | one more page of a region costs the heap exactly a list node, an entry for every attached address space and the blocks their page tables take |
| `VmemCosts.CostsAPageExactly` | src/kernel/core/src/vmem/region_services.c:25-43 | that is at most a page if and only if no block is taken and at most 102 address spaces have the region; at most three blocks per address space are taken |
| `VirtualMemory.Services.GetPhysicalAddress` | src/kernel/core/src/vmem/services.c:118-131 | the first list entry for the page of an address decides, plus the offset in the page; 0 without one |
| `VirtualMemory.Services.AttachRegion` | src/kernel/core/src/vmem/services.c:133-168 | region and address space are linked and the pages before a page 0 are entered, unless already attached |
| `VirtualMemory.Services.CreateVmem` | src/kernel/core/src/vmem/services.c:28-61 | a new address space, with a new handle, that has every kernel region attached in order |
| `VirtualMemory.Services.AssocPhysicalAddress` | src/kernel/core/src/vmem/region_services.c:25-43 | the page goes to the end of the region, its address is returned, and the attached address spaces are told in order |
| `VirtualMemory.Services.MapPhysicalAddress` | src/kernel/core/src/vmem/region_services.c:51-90 | 0 and no change for unaligned input; otherwise the pages are added one by one and the address of the first is returned, 0 for an empty range |
| `VirtualMemory.Services.ResizeRegion` | src/kernel/core/src/vmem/region_services.c:175-212 | pages are allocated until the new size fits or memory runs out; the size changes exactly on success |
| `VirtualMemory.Services.CreateRegion` | src/kernel/core/src/vmem/region_services.c:93-173 | succeeds if and only if the address is aligned and enough pages are free; a region at an aligned address ends up attached in any case, at that address and with its permissions, with the size asked for or, after a failure, with size 0; the next automatic address of this address space moves on by 1 MB exactly for an automatic placement, and no other one moves |
| `Loader.LoadProgramHeaders` | src/kernel/core/src/loader/module_loader.c:62-76 | only loadable headers are loaded, in order, up to the first failure; the state is the one LoadAllHolds speaks about |
| `Loader.AllocateProgramHeader` | src/kernel/core/src/loader/module_loader.c:15-36 | true if and only if the condition of LoadHeaderExactly holds; the state is the one LoadHeaderHolds speaks about |
| `Loader.ModuleIsMapped` | src/kernel/core/src/loader/module_loader.c:43-51 | the module file region maps the physical pages of the module one after the other |
| `Loader.StoppedLoad` | src/kernel/core/src/loader/module_loader.c:62-76 | headers behind a failed one change nothing |
| `Loader.LoadHeaderHolds` | src/kernel/core/src/loader/module_loader.c:15-36 | a loaded header has a region at its address, for the user, with its permissions and memory size, mapped as far as the larger of file and memory size, holding the module's own physical pages; no other region or address space changed |
| `Loader.LoadHeaderExactly` | src/kernel/core/src/loader/module_loader.c:15-36 | a header is loaded if and only if its address is page aligned, its file part starts on a physical page, and there are pages for the memory its file part does not back |
| `Loader.LoadAllHolds` | src/kernel/core/src/loader/module_loader.c:62-76 | after a whole successful load every loadable header is held like that, each in the region of its turn |
| `Loader.LoadAllExactly` | src/kernel/core/src/loader/module_loader.c:62-76 | the load succeeds if and only if every loadable header is loaded, each in the state the ones before it left |
| `Loader.LoadedBytesAreTheModule` | src/kernel/core/src/loader/module_loader.c:15-76 | byte i of the file part of a loaded header is translated to module start + offset + i, by the search and by the walk, if no other region in the module's address space lies on the header's |
| `KernelHeap.Allocator.EnsureFreeMemory` | src/kernel/core/src/alloc.c:100-126 | grows until request and reserve fit, page by page, where the bookkeeping of each page may call the allocator again |
| `KernelHeap.Allocator.KallocCall` | src/kernel/core/src/alloc.c:131-145 | succeeds if and only if the pages it asks for are there; the block returned is the one completed last, so behind the blocks of all nested calls, and the pointer is right behind it |
| `KernelHeap.KallocChains` | src/kernel/core/src/alloc.c:100-145 | every call, nested or not, appends its block to one gapless chain |
| `KernelHeap.KallocExactly` | src/kernel/core/src/alloc.c:100-145 | whatever the nesting, a call succeeds if and only if it is offered the pages it asks for; its block is the one completed last, and the pointer is right behind it |
| `KernelHeap.TargetReached` | src/kernel/core/src/alloc.c:100-126 | a call grows the heap if and only if less than 40 KB would stay mapped behind its block; it then asks for 80 KB behind the block, in whole pages and not a page more |
| `KernelHeap.SmallWorkIsModest` | src/kernel/core/src/alloc.c:100-145 | whatever the heap and however deep the nesting, bookkeeping of at most one reserve in all is modest: no growth inside the call uses up the reserve |
| `KernelHeap.NeverReentersExactly` | src/kernel/core/src/alloc.c:100-126 | growth never re-enters growth if and only if, page after page, the pages added pay for the bookkeeping so far beyond the reserve |
| `KernelHeap.ReserveKeptExactly` | src/kernel/core/src/alloc.c:100-145 | a call whose growth does not re-enter succeeds if and only if there are enough pages; it keeps the reserve if and only if the pages asked for pay for request, bookkeeping and reserve, and its block is mapped if and only if they pay for it without the reserve |
| `KernelHeap.OnePageEachLosesReserve` | src/kernel/core/src/alloc.c:100-145 | a concrete call with a page of bookkeeping per page that succeeds, loses the reserve and returns a block outside the mapped part |
| `KernelHeap.BlockReenters` | src/kernel/core/src/alloc.c:100-126 | a page that takes a block of page tables re-enters growth when only the reserve is left |
| `KernelHeap.TwoReservesStillMapped` | src/kernel/core/src/alloc.c:100-145 | bookkeeping of up to two reserves still leaves the new block mapped |
| `KernelHeap.NoneGrowExactly` | src/kernel/core/src/alloc.c:100-126 | bookkeeping re-enters growth if and only if it asks for more than lies beyond the reserve |
| `KernelHeap.GrowthNeverReenters` | src/kernel/core/src/alloc.c:100-126 | with the reserve in place and at most a page of bookkeeping per page, growth never re-enters itself |
| `KernelHeap.BlocksAreDisjoint` | src/kernel/core/src/alloc.c:88-145 | over any run with any nesting and any bookkeeping, blocks are pairwise disjoint, each at the base plus the sizes of the calls completed before it |
| `KernelHeap.SmallWorkIsMapped` | src/kernel/core/src/alloc.c:88-145 | over any run with any nesting in which the bookkeeping of each call is at most one reserve in all, every block is mapped and the reserve stays in place |
| `KernelHeap.RunReserveExactly` | src/kernel/core/src/alloc.c:88-145 | over any run with at most a page of bookkeeping per page, the reserve is in place all the time if and only if before every call the pages it asks for pay for it |
| `KernelHeap.PaidBlocksAreMapped` | src/kernel/core/src/alloc.c:88-145 | over such a run every block is mapped |
| `KernelHeap.BootEstablishesReserve` | src/kernel/core/src/alloc.c:20-145 | when initialisation succeeds after at least one boot allocation, the reserve is in place |
| `KernelHeap.GoLiveExactly` | src/kernel/core/src/alloc.c:20-145 | initialisation succeeds if and only if the kernel data region exists and, for every boot allocation that had found too little, has two reserves mapped behind its block; the allocator then starts behind all boot allocations |
| `IdMapper.Mapper.Add` | src/kernel/libutils/src/libutils/id_mapper.c:39-57 | a null value gets id 0 and changes nothing; otherwise a new id is appended with the value |
| `IdMapper.Mapper.Find` | src/kernel/libutils/src/libutils/id_mapper.c:26-37 | the search loop returns the value of the specification |
| `IdMapper.Mapper.Remove` | src/kernel/libutils/src/libutils/id_mapper.c:59-74 | exactly the entry with the id goes; true exactly when there was one |
| `IdMapper.GetAfterAdd` | src/kernel/libutils/src/libutils/id_mapper.c:26-57 | adding under a fresh id makes that id found and changes no other |
| `IdMapper.GetAfterDel` | src/kernel/libutils/src/libutils/id_mapper.c:26-74 | deleting makes the id unknown and changes no other, and ids stay distinct |
| `TasksInvariant.ApplyKeeps` | src/kernel/core/src/scheduler/services.c:24-86 | every step of the system keeps the invariant: the ready queue holds distinct ready tasks, the running task is not in it, ids name exactly the live tasks, dispatched tasks have a context |
| `TasksInvariant.TaskGetExact` | src/kernel/core/src/task/services.c:24-75 | task_get finds a task by an id exactly when a task with that id exists and is not destroyed |
| `TasksInvariant.DestroyedForever` | src/kernel/core/src/task/services.c:32-44 | a destroyed task is never dispatched, queued or found again, whatever happens afterwards |
| `TasksInvariant.ContextKept` | src/kernel/hal/src/x86_64/native_task.c:47-65 | no step changes the saved context of a task that is neither running nor being started |
| `TasksInvariant.DispatchResumes` | src/kernel/core/src/scheduler/services.c:61-86 | a dispatched task resumes with exactly its saved context and its own page tables |
| `TasksInvariant.PreemptedTaskResumes` | src/kernel/hal/src/x86_64/lib/idt.c:35-118 | a task interrupted with some frame, by the timer or any other interrupt that switches, resumes after any number of any steps with exactly that frame; only the segments are those of its creation |
| `TasksInvariant.EveryRunFromBoot` | src/kernel/core/src/scheduler/services.c:13-86 | after every run from boot: no task is queued twice, a task is ready if and only if it waits or runs, the active page tables are the running task's, and an id leads to its task exactly while that is not destroyed |
| `TasksInvariant.CreatedIsFound` | src/kernel/core/src/task/services.c:46-75 | a new task is in the address space it was created for, in user mode, without argument and not started; it is found by its id, neither runs nor waits, and every other id leads where it did |
| `TasksInvariant.StartedIsLast` | src/kernel/core/src/task/services.c:168-187 | a started task waits behind all others; its context has its code address, its stack in stack and base pointer, its argument in rdi, flags 0x202, the segments of its mode and zero elsewhere; nothing else about it and no other task changes |
| `TaskLifecycle.StepSettles` | src/kernel/core/src/task/services.c:54-85 | no step moves a task to another address space; its mode and its argument change only through the calls for them, on a task that is not started, the argument only once |
| `TaskLifecycle.SpaceForever` | src/kernel/core/src/task/services.c:54-61 | over every run a task keeps its address space and its id |
| `TaskLifecycle.KernelModeExactly` | src/kernel/core/src/task/services.c:77-85 | after every run a task is in kernel mode if and only if it was, or was made so by a step before it was started |
| `TaskLifecycle.StartedIsSettled` | src/kernel/core/src/task/services.c:77-187 | a started task keeps its mode and its argument over every run |
| `TaskLifecycle.RunsInItsSpace` | src/kernel/core/src/scheduler/services.c:61-86 | whenever the task created for an address space runs, after any steps, the active page tables are those of that address space |
| `TaskLifecycle.StartsWhereTold` | src/kernel/hal/src/x86_64/native_task.c:7-33 | at its first dispatch, after any number of any steps, a started task runs at its code address, with its stack, its argument and the segments of its mode, in its own address space |
| `TasksInvariant.DestroyedIsGone` | src/kernel/core/src/task/services.c:32-44 | a destroyed task does not run, does not wait and is not found; the others keep order, state and ids |
| `TasksInvariant.SwitchOutcome` | src/kernel/core/src/scheduler/services.c:61-86 | every step that switches dispatches the head of the queue with its saved context and page tables, or sleeps when nobody waits |
| `TasksInvariant.InterruptedIsLast` | src/kernel/hal/src/x86_64/native_task.c:47-65 | an interrupt puts the running task behind all others with the frame it was interrupted with, and changes nothing else |
| `TasksInvariant.KilledIsGone` | src/kernel/core/src/hw_events.c:8-52 | a fault or an exit takes the running task out of queue, processor and id table |
| `TasksInvariant.SyscallReturns` | src/kernel/hal/src/x86_64/lib/idt.c:45-57 | a fast system call resumes its caller with its frame, its result in rax and the segments of its mode, which are also saved; nothing else changes; without a running task the frame itself is resumed |
| `TasksInvariant.BoundedWaiting` | src/kernel/core/src/scheduler/services.c:24-86 | a task at place k of the queue is dispatched within k + 1 switches whatever is created, run or destroyed meanwhile, and exactly at the (k+1)-th if nothing ahead of it is destroyed |
| `TaskService.Kernel.TaskCreate` | src/kernel/core/src/task/services.c:46-75 | keeps the invariant; the new task is in the address space given, in user mode, without argument and not started; it is found by its id, neither runs nor waits, and every other id leads where it did |
| `TaskService.Kernel.TaskSetKernelMode` | src/kernel/core/src/task/services.c:77-85 | keeps the invariant; kernel mode is set exactly for a task that has not been started, and nothing else changes |
| `TaskService.Kernel.TaskSetArguments` | src/kernel/core/src/task/services.c:144-166 | keeps the invariant; the argument is set exactly for a task that is not started and has none, if there is memory for it, and nothing else changes |
| `TaskService.Kernel.TaskRun` | src/kernel/core/src/task/services.c:168-187 | keeps the invariant; a task is started once and only with a stack, behind all others; its context has its code address, its stack in stack and base pointer, its argument in rdi, flags 0x202, the segments of its mode and zero elsewhere; otherwise nothing changes |
| `TaskService.Kernel.TaskDestroy` | src/kernel/core/src/task/services.c:189-198 | keeps the invariant; the destroyed task does not run, does not wait and is not found; other tasks and other ids are untouched |
| `TaskService.Kernel.HandleEvent` | src/kernel/hal/src/x86_64/lib/idt.c:67-118 | keeps the invariant; an event that switches resumes the head of the queue with its own context and page tables or sleeps; the interrupted task waits with its frame; a faulting or exiting one is gone; a system call by interrupt resumes its caller with its frame and only rax replaced, and changes no task, queue or page tables |
| `TaskArguments.PartsAreDisjoint` | src/kernel/core/src/task/services.c:100-142 | pointer slots, argument bytes and record lie in separate parts of the area, in this order |
| `TaskArguments.StaysInsideExactly` | src/kernel/core/src/task/services.c:100-142 | a call writes only inside the area it is given if and only if there is an argument, or the area has at least 24 bytes, or it is not mapped: without arguments nothing is checked |
| `TaskArguments.EightByteArea` | src/kernel/core/src/task/services.c:100-142 | a concrete area of eight bytes and no arguments: the record is written behind it |
| `TaskArguments.StoreStep` | src/kernel/core/src/task/services.c:118-135 | copying one argument and its pointer stores it and keeps those before it |
| `TaskArguments.CopyArguments` | src/kernel/core/src/task/services.c:100-142 | for an area of any size: 0 if and only if the area is not mapped or too small for the arguments; otherwise the record leads to the number, the pointer array and every byte of every argument; the slot reserved for NULL behind the pointers holds 0 if and only if it did before; only the bytes StaysInsideExactly speaks about change |
| `LinkedList.FindExact` | src/kernel/libutils/src/algorithms/linkedlist.c:77-91 | the first place of the value that is not behind a null value, or -1 exactly when there is none; without null data, -1 exactly when the value is absent |
| `LinkedList.RemoveAt` | src/kernel/libutils/src/algorithms/linkedlist.c:182-200 | counting down and removing takes out exactly the value at an index |
| `LinkedList.IterationEnds` | src/kernel/libutils/src/algorithms/linkedlist.c:211-241 | an iteration ends at the first value whose action is not to go on: stopping returns the value, removing returns it and takes exactly it out, an unknown action returns 0, and so does the end of the list |
| `LinkedList.FiltersExactlyWithoutAdjacentRemovals` | src/kernel/libutils/src/algorithms/linkedlist.c:211-241 | an iteration that keeps and removes leaves the filtered list, with the right size, if and only if no two neighbours behind a kept value are both removed |
| `LinkedList.EverySecondStays` | src/kernel/libutils/src/algorithms/linkedlist.c:211-241 | in a run of removals behind a kept value, whatever follows, exactly the values at the even-numbered places stay, while all are counted as removed |
| `LinkedList.NeighbourStays` | src/kernel/libutils/src/algorithms/linkedlist.c:211-241 | removing 2 and 3 from the list 1, 2, 3 leaves 1 and 3 with a size of 1 |
| `LinkedList.List.Append` | src/kernel/libutils/src/algorithms/linkedlist.c:113-141 | contents with the value at the end; the chain stays free of cycles |
| `LinkedList.List.Get` | src/kernel/libutils/src/algorithms/linkedlist.c:59-74 | the value at an index, 0 behind the end |
| `LinkedList.List.FindElement` | src/kernel/libutils/src/algorithms/linkedlist.c:77-91 | the pointer loop returns the position FindExact speaks about |
| `LinkedList.List.RemoveNode` | src/kernel/libutils/src/algorithms/linkedlist.c:143-159 | unlinks the node if its predecessor is still in the list, and counts it as removed in any case |
| `LinkedList.List.IterWithAction` | src/kernel/libutils/src/algorithms/linkedlist.c:211-241 | for any action function, contents, size and result are those of the specification on sequences, removed predecessors included |
| `LinkedList.List.Remove` | src/kernel/libutils/src/algorithms/linkedlist.c:191-200 | exactly the value at the index goes and is returned; 0 and no change behind the end |
| `LinkedList.List.Pop` | src/kernel/libutils/src/algorithms/linkedlist.c:202-209 | the last value goes and is returned; 0 for an empty list |
| `LinkedList.List.RemoveElement` | src/kernel/libutils/src/algorithms/linkedlist.c:161-180 | the first equal value goes; true exactly when there was one |
| `Strings.HasZeroExactly` | src/kernel/libc/src/string.c:9-12 | the word test is non-zero if and only if one of the eight bytes is zero |
| `Strings.StoreLoad` | src/kernel/libc/src/string.c:33-34 | storing a loaded word writes back the bytes it came from |
| `Strings.StrLen` | src/kernel/libc/src/string.c:14-22 | for every alignment, the number of bytes before the first zero byte |
| `Strings.ByteStep` | src/kernel/libc/src/string.c:30-37 | a byte copied either continues the string or is exactly its end |
| `Strings.WordStep` | src/kernel/libc/src/string.c:33-34 | a word without a zero byte continues the string by eight bytes |
| `Strings.StrNCpy` | src/kernel/libc/src/string.c:24-41 | for every alignment and count: the string up to the count, then zeros to the count, nothing else changed; returns the address behind the copied bytes |
| `Strings.StrNLenIsStrLen` | src/kernel/libc/src/string.c:14-41 | bounded by n, the prefix before the zero byte is the shorter of n and the string length |
| `Strings.MemSet` | src/kernel/libc/src/string.c:51-57 | exactly the range gets the value |
| `Strings.DuplicateString` | src/kernel/hal/src/common/multiboot2.c:54-57 | strlen, a zeroed block and strncpy of that length: the string at the copy is the string that was copied, and only the copy changes |
| `Formatting.ParseNumeral` | src/kernel/libc/src/formatting.c:28-38 | every numeral parses back to its number in every base from 2 to 16 |
| `Formatting.NumeralLength` | src/kernel/libc/src/formatting.c:21-31 | a number below 2^(k+1) has at most k+1 digits in any base, so the 64-place buffer suffices |
| `Formatting.Produce` | src/kernel/libc/src/formatting.c:28-32 | the do-while loop leaves the digits of the numeral, least significant first, inside the buffer |
| `Formatting.Convert` | src/kernel/libc/src/formatting.c:19-39 | the first digits of the numeral, as many as there is room for, are written and counted, nothing else changes |
| `Formatting.NumbersReadBack` | src/kernel/libc/src/formatting.c:86-114 | what %d prints reads back to the 32-bit signed value of the argument, the most negative one included; what %o, %x and %p print reads back to the argument |
| `Formatting.NumeralMinimal` | src/kernel/libc/src/formatting.c:28-38 | a numeral has no sign, and a leading zero only for 0 |
| `Formatting.PlainConversions` | src/kernel/libc/src/formatting.c:80-119 | anywhere in a format, %% contributes a percent sign, %s its string or (null), %c the character of the low eight bits, %p (null) for address 0, an unknown letter nothing; each takes one argument or none |
| `Formatting.RenderConcat` | src/kernel/libc/src/formatting.c:64-120 | a format in two halves renders to the two renderings, the second with the arguments the first left |
| `Formatting.WriteConversion` | src/kernel/libc/src/formatting.c:80-119 | one conversion writes its text cut to the room left, or all of it where the code does not look at the room, with the 64-bit wrap-around of the room behind a sign |
| `Formatting.LoopExact` | src/kernel/libc/src/formatting.c:64-120 | the loop writes the recursive rendering cut to the buffer if literal text does not fill the buffer in front of a conversion that writes or fetches without looking; if it does, it writes more than the buffer holds or fetches a wrong argument |
| `Formatting.FillsExactly` | src/kernel/libc/src/formatting.c:64-120 | that condition in closed form: some prefix of the format that ends with literal text renders to exactly the size of the buffer, and such a conversion follows |
| `Formatting.LiteralFillsSpills` | src/kernel/libc/src/formatting.c:64-120 | a concrete format that writes three characters into a buffer of two |
| `Formatting.WriteFormat` | src/kernel/libc/src/formatting.c:64-120 | the two nested loops over format, arguments and buffer leave in the buffer exactly the text LoopExact speaks about |
| `Formatting.VSNPrintf` | src/kernel/libc/src/formatting.c:49-129 | the result is less than the size if and only if no literal text fills the buffer as FillsExactly says; then the buffer holds the rendering cut to one character less, terminated, and nothing behind it changes; otherwise the result and the terminator lie behind the buffer |
| `Multiboot.TagsEncoded` | src/kernel/hal/src/common/multiboot2.c:32-34 | a tag list written out in bytes, with any tags, is a tag list in memory |
| `Multiboot.TotalMemoryExactly` | src/kernel/hal/src/common/multiboot2.c:64-72 | the memory size is computed correctly if and only if the machine has less than 4 GB |
| `Multiboot.TotalExactly` | src/kernel/hal/src/common/multiboot2.c:64-72 | the memory size is 1024 times the upper memory of the last tag that gives one, plus 1 MB, in 32 bits; without such a tag it does not change |
| `Multiboot.UnavailableExactly` | src/kernel/hal/src/common/multiboot2.c:79-100 | a memory map reserves exactly its entries that are not available memory, each once, in order, with start, length and end |
| `Multiboot.ReservedFromEntries` | src/kernel/hal/src/common/multiboot2.c:79-100 | what a tag list reserves is what its memory maps, put one behind the other, reserve |
| `Multiboot.ReservedHas` | src/kernel/hal/src/common/multiboot2.c:79-100 | a region is reserved if and only if some memory map tag has an entry for it that is not available memory |
| `Multiboot.ModulesExactly` | src/kernel/hal/src/common/multiboot2.c:44-63 | the modules are exactly those of the module tags, each once, in order, with parameter, start, end and length |
| `Multiboot.Platform.ParseMmap` | src/kernel/hal/src/common/multiboot2.c:79-100 | for any entry size, what is appended is exactly the entries that are not available memory, in order: a region is in the list afterwards if and only if it was or such an entry describes it (see Multiboot.UnavailableExactly) |
| `Multiboot.Platform.ParseTag` | src/kernel/hal/src/common/multiboot2.c:35-171 | one tag changes the platform by what the tag says |
| `Multiboot.Platform.Multiboot2Parser` | src/kernel/hal/src/common/multiboot2.c:11-177 | false exactly for a wrong magic number or an unaligned address, with nothing changed; otherwise all modules with their parameters, all reserved ranges in order, and the memory size of the last size tag |
| `Boot.InitialiseMemory` | src/kernel/core/src/init.c:44-55 | all pages free, then every reserved range in order, then the kernel marked |
| `Boot.BootMachine` | src/kernel/hal/src/x86_64/boot.c:13-25 | from bytes in memory to the page types after boot |
| `Boot.BootExact` | src/kernel/core/src/init.c:44-55 | after boot a page is SYSTEM if and only if it ends behind the start of a reserved range or the kernel and begins no later than its end, and free otherwise |
| `Boot.UnusableNeverHandedOut` | src/kernel/core/src/init.c:44-55 | through every run after boot, no page with a byte in a range the boot loader reported as not available, or in the kernel image, is handed out |
| `Boot.HandedOutAfterBoot` | src/kernel/core/src/init.c:44-55 | from the boot information alone: some run after boot hands out a page if and only if it is at or above 64 MB and neither an entry of a memory map tag that is not available memory nor the kernel image reaches it |

## Left out

- Assembly, control registers, ports, the packing of descriptor tables, the serial line and the console module: hardware access without state of its own; the switch of page tables and registers is in the step system.
- The permissions of regions have no effect: the code itself overwrites them in every entry (`native_pagging.c`, lines 159-162), and so does the model (`Paging.RunIsOpen`); the dump does compare the permissions it finds.
- Addresses above 2^48 and a kernel heap above 2^60 bytes: page-table theorems assume the heap has not passed 2^60, the largest address an entry can hold.
- 64-bit wrap-around of addresses is modelled where boot data can cause it; elsewhere addresses and sizes are unbounded.
- Failing metadata allocations inside list, id and region operations; the code does not undo them, and kfree does nothing.
- Heap growth triggered by metadata of memory operations is modelled once, in KernelHeap, with any nesting; Vmem and Paging take such allocations as moving the heap pointer.
- vmem_destroy, linkedlist_destroy and region removal: they free nothing.
- ELF parsing before the program headers, module names and module start order.
- The region task_set_arguments creates: the step takes the address the arguments were copied to, and the copy is modelled on its own.
- The system call table and the log filter: table lookups and output.
- strncmp and memcpy: single loops without more to state than their bodies.
- Several processors: the kernel runs on one.
- TaskArguments.CopyArguments: requires that the area is contiguous in physical memory, because the code writes through one physical pointer. Sizes and addresses do not wrap.
- Formatting.VSNPrintf: requires a buffer of at least one byte, a format without a lone % at its end, arguments of the types the format asks for, and that the loop fetches no other argument, because the C standard leaves all of these undefined; LoopExact and FillsExactly say when the loop itself causes such a fetch. Memory behind the buffer is part of the model.
- Strings.StrLen: requires memory of whole words, because the last word read may reach behind the terminator.
- Multiboot.Platform.Multiboot2Parser: requires a well-formed tag list behind a correct magic number, because the walk has no other end; the copy of the parameter strings is DuplicateString.
- Loader.LoadedBytesAreTheModule: assumes that no other region lies on the header's or on the module file's, a file inside the module and a non-zero address, because the code does not check them.
- KernelHeap.RunReserveExactly: is exact for at most a page of bookkeeping per page; for growth that re-enters itself, SmallWorkIsMapped gives a sufficient condition only, because what nested growth maps depends on the heap it finds.
- VmemAgreement.RunAgrees: assumes that no call maps physical page 0, for which the search cannot tell a page at address 0 from none.
- VmemIsolation.SpacesShareOnlyRegions: assumes careful mapping by hand, because the loader maps modules from 64 MB on without telling the allocator.
