# The memory, process and path core of the Chicago-95 kernel, modelled and proved

This project models the core of the kernel: the physical page manager, the four-level page tables
built on it, the heap, the slab allocator, the write-back file cache, the process table with its
scheduler, the system calls that use page tables, path resolution, 64-bit division and the
CRC-guarded kernel snapshot.

`dafny verify dfyconfig.toml` checks everything. The modules follow the kernel's parts:

| file | part |
|---|---|
| `PageBits.dfy`, `Pmm.dfy` | page bitmaps as values, E820 start-up, page runs |
| `PageTables.dfy`, `Access.dfy`, `AddressSpaces.dfy`, `Teardown.dfy`, `Vmm.dfy` | page tables as values, what each entry says and who may write where, who owns which page, the teardown walk, and the object that updates them in place |
| `Demand.dfy`, `Mmap.dfy`, `Exec.dfy` | how many pages a set of virtual pages takes, mmap, munmap, the ELF loaders |
| `Heap.dfy`, `HeapRuns.dfy`, `HeapSizes.dfy`, `HeapList.dfy` | the block list, whole runs of kmalloc and kfree, how large the blocks handed out are, and the linked list in memory |
| `Slab.dfy`, `SlabPool.dfy` | slab pages and the allocator that updates them |
| `Lru.dfy`, `FileCache.dfy` | recency, and the cache over its disk |
| `Processes.dfy`, `ProcessLaws.dfy`, `Scheduling.dfy`, `ProcessTable.dfy` | the process state machine, the same as a relation on its 64 slots, its run-time laws, and the table updated in place |
| `Paths.dfy`, `Shell.dfy`, `Vfs.dfy` | canonical paths, the buffer-cutting resolver, the tree walk |
| `Options.dfy`, `Sets.dfy` | small shared definitions |
| `DivMod.dfy`, `Crc.dfy`, `CrcDivision.dfy`, `Snapshot.dfy` | shift-subtract division, CRC-32 bit by bit and as polynomial division, snapshot save and restore |

Wherever the C code updates something in place, a class or a method with loops does the same and is
proved equal to a function on values; the laws are proved about that function, over every input and
every run.

## How memory is represented

Page tables are entries made of a frame number and twelve flag bits, stored in the pages of physical
memory that the bitmap hands out; a table is named by the path of indices that leads to it. An address
space is *well formed* when every table lies in a page in use, no two paths share a table, and no upper
entry claims a huge page. It *owns its frames* when, in addition, every mapped frame is in use, mapped
once, and not a table. A set of pages is *accounted for* when every page in use belongs to exactly one of
three shares: the space, the rest of the kernel, or the pages lost.

The heap's headers live in the very words they manage: memory is a map from addresses to eight-byte
words, and the list exists only through the `next` and `prev` words.

## Where the code departs from what it seems to intend

The model follows the code. Each departure has a lemma with the exact condition.

* `vmm_map_page` returns nothing, so running out of table pages is silent. A caller that took a fresh page
  has then lost it: `AddressSpaces.LeakFree` says when, and `AddressSpaces.Lifecycle` says that these pages are
  all that a process's life can lose. For mmap, `Mmap.MmapOutcome` says from the state before the call when it
  reports success although its last page is not mapped, and `Mmap.SmallMachineLosesPage` is such a state. For exec,
  `Exec.ExecLoad` says the same, and `Exec.ExecLosesByte` is an example.
* mmap does not look whether its range is mapped: the old frames are lost, and a failed call unmaps the pages it
  got to instead of restoring them. `Mmap.FailedMmapMappings` says exactly when that happens,
  `Mmap.FailedMmapDestroys` is an example.
* mmap and munmap count pages from the page of the address, so that an unaligned range can end beyond them
  (`Mmap.UnalignedReach`), and a length within 4095 of 2^64 wraps to no page at all: mmap then reports success.
  mmap works out flags from its protection argument and does not use them: every page it maps is the user's to
  write (`Access.LifeWritable`).
* For a 1 GB page the masks of `vmm_translate` overlap in bit 29, which is set where either the entry or the address
  has it: `PageTables.GigabytePageTranslates`.
* exec's bounds check adds two 64-bit words: `Exec.AcceptedInImage` says when a segment it accepts lies in the
  image, `Exec.WrappedSegment` is one that does not.
* The page loader of exec computes `page - p_vaddr`, which wraps for the first page of an unaligned segment.
  It also visits only the pages of the memory part, so that a longer file part is cut off.
  `Exec.ExecAgreesExactly` says for whole lists of segments when the result is still right;
  `Exec.UnalignedLosesBytes` and `Exec.LongFileLosesBytes` are examples.
* A process that exits while no other is ready stays current, and a later sleep turns the zombie back into a
  blocked process: `Scheduling.ZombieLaw` has the exact condition, `Scheduling.ZombieRevived` a reachable example.
* `kfree` merges list neighbours without comparing addresses, and `heap_grow` pushes regions at the head.
  `HeapRuns.StepSound` says exactly which calls keep the blocks apart. On a heap where they are not,
  a split can write its header over a listed one, and the list in memory ends there: the laws of the list hold
  through a run exactly as long as no call does that (`HeapRuns.RunLaws`), and `HeapList.KernelHeap.Malloc` keeps
  the list in memory under exactly that condition. `HeapRuns.RegionsCollide` is a run that ends this way and
  `HeapList.SplitBreaksList` what it leaves in memory. A heap grown once never gets there (`HeapRuns.GrownOnce`).
* A request within 48 bytes of 2^64 wraps when the header is added: `HeapRuns.RequestMet`,
  `HeapRuns.RequestNotMet`.
* Freeing a slab slot that is not allocated spoils the page's count: `Slab.VacateOk`, with `Slab.DoubleFree` as an
  example.
* A failed disk read fills a cluster with zeros: `FileCache.MissIsTransparent`, `FileCache.FailedReadShowsZeros`.
* Sector numbers are cut to 32 bits, so clusters 2^29 apart share sectors (`FileCache.SameSectors`,
  `FileCache.AliasSpoils`), and when the 32-bit clock wraps, entries from before look more recent than those
  requested since (`Lru.LruExactly`).
* A failed snapshot save can leave a file that restore accepts, because the result of the unlink is ignored and a
  write that fails may have stored its bytes: `Snapshot.LeftoverRefused` has the condition,
  `Snapshot.ReadOnlyMedium` and `Snapshot.LastWriteReported` the two cases.
* In 64-bit division, INT64_MIN / -1 has no representable quotient: `DivMod.Div`. INT64_MIN / 1 is right
  only because the negation wraps.
* The comments at `stage2/main.c:754` and `stage2/main.c:808` name address 0x10000; the code uses 0x200000.
  The model has one image buffer.

## Model

| member | source | states |
|---|---|---|
| `Pmm.Pmm.Init` | kernel/kmalloc.c:57-103 | after start-up a page is free exactly when it lies at or above 1 MB and, as addresses, whole inside an available entry of those the firmware listed, for unaligned and wrapping entries too; memory ends at the highest end of an entry, cut to 2^24 pages; the used count is the number of set bits; page 0 is never free |
| `Pmm.ContributedPagesAreMemory` | kernel/kmalloc.c:74-94 | one half of the next row, for any page: a page taken from an entry is at or above 1 MB and ends inside the entry, also when the entry wraps the address space |
| `Pmm.ContributesExactly` | kernel/kmalloc.c:74-94 | the pages from 1 MB up that start-up takes from an available entry are exactly those that lie whole inside it: counted from the start of its first page if it begins at or above 1 MB, wrapping or not, and only if it does not wrap if it begins below |
| `Pmm.AlignedEntry` | kernel/kmalloc.c:74-94 | for an available entry with an aligned base that does not wrap: page p is taken, from 1 MB up, exactly when base <= 4096 p and 4096 (p + 1) <= base + length |
| `Pmm.AvailableExactly` | kernel/kmalloc.c:74-94 | a page from 1 MB up is available exactly when some listed entry covers it |
| `Pmm.EntryCountExactly` | kernel/kmalloc.c:57-67 | the entries listed are those up to the first that is all zero, at most 256 |
| `Pmm.MaxEndExactly` | kernel/kmalloc.c:62-67 | the extent is the end of one of the entries, as a 64-bit word, and no end is higher |
| `Pmm.AvailableInExists` | kernel/kmalloc.c:74-94 | a page is available exactly when some entry contributes it |
| `Pmm.MaskBits` | kernel/kmalloc.c:37-39 | setting or clearing one bit of a bitmap byte changes the test of that bit alone |
| `Pmm.Pmm.FindContiguous` | kernel/kmalloc.c:42-55 | finds the lowest wholly free run of the length asked for, and reports none exactly when none exists |
| `Pmm.Pmm.AllocPage` | kernel/kmalloc.c:105-114 | takes the lowest free page, failing only when nothing is free; the count keeps matching the bits |
| `Pmm.Pmm.AllocPages` | kernel/kmalloc.c:116-128 | takes the lowest free run and no other page, failing only when there is none |
| `Pmm.Pmm.FreePage` | kernel/kmalloc.c:130-136 | frees that page and nothing else; freeing a free page changes nothing, count included |
| `Pmm.Pmm.FreePages` | kernel/kmalloc.c:138-146 | frees the run's pages inside memory and nothing else |
| `Pmm.Pmm.GetFreePages` | kernel/kmalloc.c:148 | total minus used is the number of free pages |
| `Pmm.AllocThenFree` | kernel/kmalloc.c:116-146 | freeing a run just taken restores the bitmap |
| `PageBits.NoneFree` | kernel/kmalloc.c:105-114 | the scan fails exactly when the number of free pages is zero |
| `PageTables.TranslateIsFrame` | kernel/process.c:222-241 | on a well-formed tree translation is the mapped frame plus the page offset, 0 if unmapped |
| `PageTables.HugePageTranslates` | kernel/process.c:235-237 | a 2 MB page keeps the low 21 bits of the address and takes the others from its entry |
| `PageTables.GigabytePageTranslates` | kernel/process.c:234 | a 1 GB page keeps the low 29 bits of the address and takes the bits from 30 up from its entry; bit 29 is set where either has it |
| `PageTables.EnsureGrows` | kernel/process.c:170-195 | one level of the walk adds at most one table, in a fresh page, changes no mapping and no other table, and fails only when no page is free |
| `PageTables.MapPageCorrect` | kernel/process.c:160-200 | mapping changes the frame of one virtual page, keeps the tree well formed, writes only its own and fresh pages, uses exactly the missing tables, and maps nothing when pages run out; what the entries hold is `Access.MapPageEnters` |
| `PageTables.MapPageTranslates` | kernel/process.c:160-241 | after a map every user address translates as before, except those of the page mapped when there was room |
| `PageTables.UnmapPageCorrect` | kernel/process.c:202-220 | unmapping removes that one mapping and keeps tables, bitmap and all other mappings |
| `PageTables.OtherSpaceUntouched` | kernel/process.c:160-220 | a change confined to one space's tables leaves a space with disjoint tables as it was |
| `PageTables.MapPageIsolated` | kernel/process.c:160-241 | mapping in one space changes no translation in another and keeps their tables disjoint |
| `Vmm.Mmu.EnsureTable` | kernel/process.c:170-195 | the in-place level step is the step on values |
| `Vmm.Mmu.MapPage` | kernel/process.c:160-200 | the in-place map is the map on values, silent failure included; the entry of the page is the frame with the flags asked for and the present bit, and every other entry is as it was or a new link, present, writable and for the user |
| `Access.MapPageEnters` | kernel/process.c:160-200 | entry by entry: with pages for its tables the page's own entry is the frame, the flags asked for and the present bit; the entries of all other pages and of the kernel's half are as before; what else is new is a link to a new table with exactly present, writable and user set |
| `Access.MapKeepsWritable` | kernel/process.c:160-200 | a page the user may write, by all four entries on the way, stays so through a map of any other page with any flags, and of itself with rights to write |
| `Access.StepKeepsWritable` | kernel/process.c:160-220 | so it does through every step of a run, but for its own release and a map there without such rights |
| `Access.ReleaseSlots` | kernel/syscall.c:511-515 | a released page's own entry is cleared and no other entry changes |
| `Access.MappedIsWritable` | kernel/process.c:160-200 | where every present entry of the user half is open, each mapped page has all four entries on the way present, writable and for the user |
| `Access.MapFreshOpen` | kernel/process.c:303-309 | a fresh map with the flags that mmap, exec and process_create pass keeps every present entry of the user half open |
| `Access.ReleaseOpen` | kernel/syscall.c:511-515 | so does a release |
| `Access.CreateOpen` | kernel/process.c:42-61 | a new space is that way |
| `Access.LifeWritable` | kernel/process.c:42-61 | create a space and run any maps with those flags, any releases and anything others do: every page mapped at the end is the user's to write |
| `Vmm.Mmu.UnmapPage` | kernel/process.c:202-220 | the in-place unmap is the unmap on values |
| `Vmm.Mmu.Translate` | kernel/process.c:222-241 | the walk, huge pages included, for any address and any root |
| `Vmm.Mmu.CreateSpace` | kernel/process.c:42-61 | the in-place creation is the creation on values |
| `AddressSpaces.CreateAccounted` | kernel/process.c:42-61 | a new space maps nothing, owns its root alone, and shares the kernel half of the current one |
| `AddressSpaces.MapFreshFrames` | kernel/process.c:303-309 | mapping a fresh page maps it at the one address, to a page free before, or fails without changing any mapping |
| `AddressSpaces.LeakFree` | kernel/process.c:173-191 | a fresh map loses no page exactly when no page was free, or the target was unmapped and the free pages cover the frame and the missing tables |
| `AddressSpaces.MapFreshGains` | kernel/process.c:170-195 | a fresh map that succeeds adds exactly the tables on the way to its page |
| `AddressSpaces.MapFreshAccounted` | kernel/process.c:303-309 | after a fresh map every page in use is still owned, foreign or lost, and in one share only |
| `AddressSpaces.ReleaseAccounted` | kernel/syscall.c:511-515 | unmapping and freeing a page keeps the books |
| `AddressSpaces.Run` | kernel/process.c:160-200 | over any run of fresh maps and releases, with anything other users of the page manager do in between, every page in use stays in exactly one share |
| `AddressSpaces.LosslessRuns` | kernel/process.c:160-200 | a run loses nothing exactly when each of its maps is lossless when its turn comes |
| `AddressSpaces.OtherMapIsAllowed` | kernel/process.c:160-200 | a map in another address space is such a step of others |
| `AddressSpaces.Lifecycle` | kernel/process.c:42-97 | create, any run, destroy: in use are exactly the pages that others hold and those lost, none lost if and only if each map was lossless; without others the bitmap is back to the start exactly then |
| `Teardown.RegionStep` | kernel/process.c:69-94 | the pages below one more entry are those below the earlier ones plus that entry's subtree, with no overlap |
| `Teardown.LeafStep` | kernel/process.c:84-88 | one more leaf adds its frame, which no earlier leaf had |
| `Teardown.TableNotBelow` | kernel/process.c:89-93 | a table's own page is not among the pages freed below it |
| `Teardown.RegionRootIsOwned` | kernel/process.c:69-96 | the lower half of the root and the root itself are exactly the pages the space owns |
| `Vmm.Mmu.DestroyPt` | kernel/process.c:82-89 | frees one last-level table and its frames, each once |
| `Vmm.Mmu.DestroyPd` | kernel/process.c:77-91 | frees a directory's whole subtree, each page once |
| `Vmm.Mmu.DestroyPdpt` | kernel/process.c:72-93 | frees a pointer table's whole subtree, each page once |
| `Vmm.Mmu.DestroySpace` | kernel/process.c:63-97 | frees exactly the pages the space owns, with as many frees as pages; a null space frees nothing |
| `Vmm.Mmu.MapFreshBooked` | kernel/process.c:303-309 | the in-place fresh map keeps the books |
| `Vmm.Mmu.Release` | kernel/syscall.c:511-515 | the in-place release is the release on values |
| `Demand.MissingIsAbsent` | kernel/process.c:171-194 | the missing tables of a page counted along the walk are the absent tables as a set |
| `Demand.NeedOneMore` | kernel/process.c:170-195 | backing one more page costs nothing if it is backed, and otherwise itself and the tables it still lacks, so shared tables are paid for once |
| `Demand.TourFresh` | kernel/syscall.c:482-497 | visiting an unmapped page with a page at hand backs it when the free pages cover its tables, and otherwise leaves it unmapped with none free |
| `Demand.TourFails` | kernel/syscall.c:482-497 | a walk over pages that finds no page for an unmapped one is beyond the free pages there were at the start, and not one that merely loses a page |
| `Demand.TourEnds` | kernel/syscall.c:313-321 | a walk that gets through either had pages for all it lacked at the start or lost exactly the page told from the start |
| `Mmap.RollBack` | kernel/syscall.c:486-492 | unmaps the pages mapped so far and frees their frames |
| `Mmap.MapRange` | kernel/syscall.c:482-497 | over any range, mapped or not, told from the free pages there were: all pages fresh, or all but the last, or the pages its turns got to are unmapped; lost are exactly the frames those pages had, and the one page that running out on a page's tables wastes |
| `Mmap.SysMmap` | kernel/syscall.c:459-499 | the same for the system call, with its error returns and its choice of address, and in bytes: where the free pages cover the pages it reaches and their tables, it returns the address and every byte reached reads as zero from a page that was free, while every other address translates as before; a length within 4095 of 2^64 maps nothing and is reported as success; where the user may write every page, it may write the new ones |
| `Mmap.SysMunmap` | kernel/syscall.c:501-518 | unmaps the range, frees exactly its frames, changes nothing else; in bytes: every byte reached translates to 0 and every other address as before; a length within 4095 of 2^64 does nothing |
| `Mmap.ReachedIsInRange` | kernel/syscall.c:468-482 | the pages of the loop are those of the address and after it that it takes to hold the length, counted from the start of the first |
| `Mmap.AlignedReach` | kernel/syscall.c:468-482 | from a page boundary these are exactly the pages that share a byte with the range asked for |
| `Mmap.UnalignedReach` | kernel/syscall.c:468-482 | from elsewhere they hold the whole range exactly when what precedes the address in its page leaves room for it |
| `Mmap.MmapBytes` | kernel/syscall.c:459-499 | with free pages for the pages reached and their tables, mmap succeeds and every byte reached is fresh |
| `Mmap.MunmapBytes` | kernel/syscall.c:501-518 | after munmap exactly the bytes reached are gone |
| `Mmap.CostOfUnmapped` | kernel/syscall.c:482-497 | an unmapped range costs what a walk over its pages needs |
| `Mmap.MmapOutcome` | kernel/syscall.c:459-499 | for any range: success with all pages fresh exactly when the free pages cover the range and its missing tables; success with the last page unmapped exactly when they cover that of all but the last page and more, but not all; failure otherwise |
| `Mmap.FreshSpaceLosesPage` | kernel/syscall.c:459-499 | in a space without tables and with one to three pages free, mmap of one page reports success and maps nothing |
| `Mmap.SmallMachineLosesPage` | kernel/syscall.c:459-499 | such a state, made by creating a space on a three-page machine |
| `Mmap.UnmappedLosesOne` | kernel/syscall.c:482-497 | over an unmapped range no more is lost than the page of a turn that ran short |
| `Mmap.FailedMmapMappings` | kernel/syscall.c:484-494 | a failed mmap leaves the mappings as they were if and only if the pages its turns got to were unmapped; a mapped one is unmapped and its frame lost |
| `Mmap.FailedMmapRestores` | kernel/syscall.c:484-494 | with the tables in place a failed mmap leaves the bitmap as it was, and over an unmapped range the translations too |
| `Mmap.FailedMmapDestroys` | kernel/syscall.c:484-494 | with one page left, mmap of two pages of which the first was mapped fails and destroys that mapping |
| `Mmap.CrowdedMachineState` | kernel/syscall.c:484-494 | such a state, made by creating a space and mapping one page on a seven-page machine |
| `Mmap.MunmapUndoesMmap` | kernel/syscall.c:459-518 | munmap of the same range undoes a successful mmap up to new tables and at most one lost page; exactly, bitmap and tables included, when the tables existed |
| `Mmap.MunmapAccounted` | kernel/syscall.c:501-518 | munmap keeps the books |
| `Exec.LoadSegment` | kernel/elf.c:21-34 | a loaded segment is its file bytes, then zeros up to its memory size, and nothing else changes |
| `Exec.ElfLoad` | kernel/elf.c:16-39 | every byte of memory after loading all segments in order |
| `Exec.PageBytesIsExec` | kernel/syscall.c:323-337 | copying and zeroing one page gives at each byte the segment's byte, wherever the segment starts and whichever of its two sizes is larger |
| `Exec.AcceptedInImage` | kernel/syscall.c:308 | a segment that passes the 64-bit check lies in the image exactly when the check does not wrap |
| `Exec.WrappedSegment` | kernel/syscall.c:308 | a segment of 64-bit fields that passes the check and starts before the image |
| `Exec.LoadPage` | kernel/syscall.c:313-338 | one turn shows the segment at the page and leaves all other virtual bytes, unless the page is lost; it fails only when the page is unmapped and none is free |
| `Exec.LoadSegmentPages` | kernel/syscall.c:310-338 | the page loop shows the segment at every user address but those of a lost page, or is stuck at an unmapped page with none free |
| `Exec.ExecLoad` | kernel/syscall.c:306-339 | told from how far the free pages reach along the pages visited: all the way, 0 and all segments show; short of one page's tables with nothing left to map behind it, 0 all the same and the rest shows; otherwise -1. Mapped are exactly the pages that were, with their frames, and those reached; lost is exactly the page taken for the tables that could not be had; pages not visited keep their bytes |
| `Exec.ExecMaps` | kernel/syscall.c:306-338 | with pages for all, exec succeeds, and mapped are then the pages that were and each page on which some PT_LOAD segment whose file bytes lie in the image has memory, with file bytes there or not |
| `Exec.ExecShows` | kernel/syscall.c:306-338 | and each byte of such a segment's memory, where no later one lies over it, reads as the file's byte up to p_filesz and as zero from there to p_memsz, but for the first page of a segment that does not begin a page |
| `Exec.ExecLosesByte` | kernel/syscall.c:306-339 | from a new space with one page left, a one-byte program loads with success and its page is not mapped |
| `Exec.ExecIsElf` | kernel/syscall.c:306-339 | for page-aligned segments with p_filesz at most p_memsz the page loader gives the image of elf_load at every byte |
| `Exec.ElfByteIsLast` | kernel/elf.c:16-39 | the byte elf_load leaves is that of the last segment over it |
| `Exec.ExecAllIsLastKept` | kernel/syscall.c:306-339 | the byte exec leaves is that of the last segment over it whose byte there exec does not leave out |
| `Exec.ExecAgreesExactly` | kernel/syscall.c:306-339 | for a list of segments the two agree everywhere exactly when each byte that the last segment over it leaves out is already right below it |
| `Exec.UnalignedLosesBytes` | kernel/syscall.c:311-328 | a one-byte unaligned segment that exec loads as zero |
| `Exec.LongFileLosesBytes` | kernel/syscall.c:310-328 | a segment with one byte of memory and 4097 of file, of which exec loads one page |
| `Heap.CoalesceNoPairs` | kernel/kmalloc.c:256-266 | after the merging pass no two list neighbours are free, whatever the list was |
| `Heap.CoalesceSum` | kernel/kmalloc.c:256-266 | the pass keeps the sum of sizes and headers, and alignment |
| `Heap.FreedIs` | kernel/kmalloc.c:246-267 | a free fuses the block with its free neighbours into one and touches no other block |
| `Heap.FreeUndoesTake` | kernel/kmalloc.c:201-267 | freeing what a non-growing kmalloc just returned restores the list |
| `Heap.FreedSound` | kernel/kmalloc.c:259-262 | freeing keeps the blocks apart and on the granted pages exactly when the merged blocks lie end to end in memory |
| `Heap.FreedInOrder` | kernel/kmalloc.c:246-267 | in a list in address order every free merges in place and keeps the order |
| `Heap.TakeSound` | kernel/kmalloc.c:201-218 | splitting or taking a block keeps the blocks apart and the same bytes covered |
| `Heap.FirstFitIsLowest` | kernel/kmalloc.c:198-220 | in a list in address order the block found is the lowest that fits |
| `Heap.TakeHeaders` | kernel/kmalloc.c:204-213 | serving a request keeps the headers apart exactly when the split-off header is clear of every other listed header |
| `Heap.FreedHeaders` | kernel/kmalloc.c:256-266 | merging never makes headers overlap |
| `HeapRuns.StepLaws` | kernel/kmalloc.c:175-267 | a call keeps the laws of the list exactly when the header it writes is clear of the others: sizes plus headers equal the pages granted, 16-byte alignment, no two free neighbours, headers apart, address order while there is one region |
| `HeapRuns.RunLaws` | kernel/kmalloc.c:175-267 | the laws hold throughout a run, however often the heap grows, exactly when no call of it writes a header over a listed one |
| `HeapRuns.StepSound` | kernel/kmalloc.c:175-267 | a call on a sound heap leaves it sound exactly when it is not a free that merges blocks apart in memory, and it never writes a header over another |
| `HeapRuns.RunSound` | kernel/kmalloc.c:175-267 | over every run of safe calls the laws hold, no two blocks share a byte and together they are exactly the granted pages |
| `HeapRuns.OneRegionIsSafe` | kernel/kmalloc.c:175-267 | while the heap has grown at most once every call of every run is safe |
| `HeapRuns.GrownOnce` | kernel/kmalloc.c:175-267 | from an empty heap, every run that grows at most once keeps the laws throughout and the blocks tiling the region in address order |
| `HeapRuns.MallocAddsOne` | kernel/kmalloc.c:193-227 | kmalloc adds one live block, disjoint from all others, which it leaves as they were; a failure changes nothing |
| `HeapRuns.FreeRemovesOne` | kernel/kmalloc.c:246-267 | kfree removes the live block of the pointer and no other |
| `HeapRuns.RequestMet` | kernel/kmalloc.c:175-196 | a granted block is as large as the request exactly when the request is at most 2^64 - 48 |
| `HeapRuns.RequestNotMet` | kernel/kmalloc.c:175-196 | a request of 2^64 - 32 bytes that is granted a block of 4048 |
| `HeapSizes.MallocServed` | kernel/kmalloc.c:193-219 | a request that a listed block can hold takes the first such block and no page; with 80 bytes to spare the block is cut to exactly the rounded size and a free block with the rest, less 48 bytes, begins where it ends; otherwise it is handed out whole and is fewer than 80 bytes larger |
| `HeapSizes.RestServes` | kernel/kmalloc.c:203-213 | a request that fits in what an earlier one left of its block is served without taking a page |
| `HeapSizes.MallocGrows` | kernel/kmalloc.c:175-227 | a request that no listed block can hold takes the lowest free run of the least number of pages that hold it and its header, or fails without a trace when there is none |
| `HeapSizes.HugeFails` | kernel/kmalloc.c:175-224 | a request from 64 GB up to 48 bytes short of 2^64 always fails |
| `HeapSizes.WholePageFreed` | kernel/kmalloc.c:175-267 | a machine with one free page, taken whole by a request of 16 bytes and freed again |
| `HeapSizes.OnePageIsShared` | kernel/kmalloc.c:193-219 | after that two requests of 16 bytes share the page, at 4144 and 4208 |
| `HeapRuns.RegionsCollide` | kernel/kmalloc.c:184-262 | a run of five calls on three regions after which the list is still lawful but the heap unsound, and the next request puts a free header on a live block |
| `HeapList.KernelHeap.Search` | kernel/kmalloc.c:199-220 | the walk through the `next` words stops at the first fit |
| `HeapList.ChainApart` | kernel/kmalloc.c:159-165 | any aligned list that memory spells out has its headers apart |
| `HeapList.SplitChain` | kernel/kmalloc.c:204-213 | where the new header is clear of the others the writes of a split turn the linked list into the list with the block carved |
| `HeapList.SplitBreaksList` | kernel/kmalloc.c:204-213 | after the colliding run the same writes leave a list of one free block at the head, not the list meant |
| `HeapList.KernelHeap.Split` | kernel/kmalloc.c:204-213 | the nine writes of a split in place; where the new header is clear they give the carved list, and reach no live payload when blocks are apart |
| `HeapList.KernelHeap.Malloc` | kernel/kmalloc.c:193-227 | on any heap whose list is in order: result and bookkeeping are the model's, and memory spells out the resulting list, with next and prev inverse and heap_total its sum, exactly when the header written is clear of the others; on a sound heap it always is, and live payloads keep every word; where a listed block serves, the list and the pointer in bytes: cut to the rounded size exactly when 80 bytes or more are to spare |
| `HeapList.KernelHeap.MergeAll` | kernel/kmalloc.c:256-266 | the pass over the linked list leaves the coalesced list |
| `HeapList.KernelHeap.Free` | kernel/kmalloc.c:246-267 | the linked list becomes the freed list; null, unmarked and already free pointers change nothing; live payloads keep every word |
| `HeapList.KernelHeap.Write` | kernel/kmalloc.c:237-243 | a client's write to memory it was given leaves the whole list intact |
| `Slab.RoomHasSlot` | kernel/kmalloc.c:324-348 | a page's count is below its total exactly when the scan finds a clear bit |
| `Slab.VacateOk` | kernel/kmalloc.c:354-362 | freeing a slot keeps the count equal to the number of set bits exactly when the slot was allocated |
| `Slab.DoubleFree` | kernel/kmalloc.c:354-362 | freeing an object twice spoils the count; if it was the only one, the empty page counts as full |
| `Slab.TierIs` | kernel/kmalloc.c:279-320 | requests up to 256 bytes, and only those, go to a slab, to the smallest of the sizes 16, 32, 64, 128 and 256 that holds them |
| `Slab.PageHolds` | kernel/kmalloc.c:300-305 | a page holds as many objects behind its 32-byte header as fit, at most 64 |
| `Slab.SmallRequest` | kernel/kmalloc.c:311-348 | a slab request fails exactly when every object of its size is taken and no page is free; else its bytes lie in one page, a whole number of objects behind the 32-byte header, 16-byte aligned |
| `Slab.ObjectsApart` | kernel/kmalloc.c:296-348 | no two live objects share a byte |
| `Slab.ObjectInPage` | kernel/kmalloc.c:303-343 | an object lies inside its page behind the header, 16-byte aligned |
| `Slab.FreeReaches` | kernel/kmalloc.c:350-366 | the search for a live object's address ends at the tier, page and slot that hold it |
| `Slab.AllocKeeps` | kernel/kmalloc.c:312-348 | an allocation keeps counts, distinct pages, pages in use and the heap's laws exactly when it writes no heap header over another, as it never does on a sound heap |
| `Slab.AllocAddsOne` | kernel/kmalloc.c:312-348 | a slab-size request fails exactly when no page of the tier has room and no page is free; otherwise one object, large enough and not live before, comes to life and no other changes |
| `Slab.FreeRemovesOne` | kernel/kmalloc.c:350-366 | freeing a live object ends its life and no other's |
| `Slab.HeapPointerFallsThrough` | kernel/kmalloc.c:366-368 | a heap block's pointer is in no slab page, so it reaches kfree |
| `Slab.FreeUndoesAlloc` | kernel/kmalloc.c:312-366 | freeing at once what an existing page gave restores the allocator |
| `SlabPool.Pool.NewPage` | kernel/kmalloc.c:296-310 | a blank page at the head of the tier, or nothing when no page is free |
| `SlabPool.Pool.Alloc` | kernel/kmalloc.c:312-348 | the in-place allocation is the allocation on values, heap fall-back included, and the allocator stays in order exactly when no heap header is written over |
| `SlabPool.Pool.Free` | kernel/kmalloc.c:350-368 | the in-place free is the free on values for every slab or heap pointer, stale and interior ones included, and the allocator stays in order exactly when the slot was allocated |
| `Lru.CacheIsMostRecent` | kernel/kmalloc.c:400-440 | before the clock wraps, the valid entries are exactly the most recently requested distinct clusters |
| `Lru.EvictsLeastRecent` | kernel/kmalloc.c:410-420 | an eviction removes the least recently requested cluster; ages are distinct |
| `Lru.AgesOfHistory` | kernel/kmalloc.c:400-427 | after a history of any length an entry's age is the time of its last request as a 32-bit word |
| `Lru.LruExactly` | kernel/kmalloc.c:410-420 | a full cache, every entry of which was requested within 2^32 requests, gives up the least recent cluster if and only if every cached cluster was requested since the clock wrapped |
| `FileCache.SameSectors` | kernel/kmalloc.c:422-423 | two clusters lie in the same sectors exactly when they are congruent modulo 2^29 |
| `FileCache.WriteBackReaches` | kernel/kmalloc.c:422-424 | a write-back of any cluster changes on disk exactly the clusters in the same sectors |
| `FileCache.AliasSpoils` | kernel/kmalloc.c:422-424 | of two clusters in the same sectors, writing back the cached one changes what clients see of the other |
| `FileCache.MissIsTransparent` | kernel/kmalloc.c:410-437 | replacing an entry, with write-back, keeps every cluster's contents exactly when the data filled in is what the disk had |
| `FileCache.FailedReadShowsZeros` | kernel/kmalloc.c:431-437 | a failed read of a cluster of ones, after which clients see zeros |
| `FileCache.Cache.Get` | kernel/kmalloc.c:400-440 | returns the cluster's current contents and changes none, unless a failed read stands in for data that was not zero; recency follows the model, wrap of the clock included |
| `FileCache.Cache.Invalidate` | kernel/kmalloc.c:442-453 | drops the entry, its contents safe on disk, all contents kept |
| `FileCache.Cache.Flush` | kernel/kmalloc.c:455-463 | afterwards the disk holds every cluster's contents |
| `FileCache.Cache.InvalidateAll` | kernel/kmalloc.c:465-469 | the cache is empty and the disk holds every cluster's contents |
| `FileCache.Replay` | kernel/kmalloc.c:400-469 | any run of reads, writes, invalidations and flushes over clusters no two of which share sectors reads as plain memory would |
| `Processes.NextKeepsInv` | kernel/process.c:249-467 | every step keeps: only the current process runs, a used slot's pid is its index, slot 0 is no zombie, nobody is its own parent, the current slot is in use |
| `Processes.ReachableInv` | kernel/process.c:249-467 | this holds in every reachable state |
| `ProcessLaws.NextGoes` | kernel/process.c:249-467 | every step from every state is one of a relation written on the 64 slots: which slot changes, to what, and that no other does |
| `ProcessLaws.ScheduleExactly` | kernel/process.c:431-467 | the processor goes to the first slot behind the current one, going round, that is ready or due, and stays exactly when there is no other; sleepers that are due become ready, a running process that loses the processor becomes ready, all other slots stay |
| `ProcessLaws.WaitExactly` | kernel/syscall.c:386-408 | a wait frees and returns the first zombie child; with children but no zombie it yields; it fails only without children |
| `ProcessLaws.WokenRuns` | kernel/process.c:408-413 | a wake makes a blocked process ready, with pid, parent, exit code and wake time kept and every other slot as it was, and unless it is current it runs within 64 scheduler calls of any run |
| `ProcessLaws.OtherwiseAsleep` | kernel/process.c:408-413 | a wake changes nothing exactly when its slot is not that of a blocked process |
| `ProcessLaws.ForkedRuns` | kernel/process.c:353-381 | with a slot free, a fork makes a ready child of the caller in it, with the caller's wake time and no exit code and every other slot as it was, and the child runs within 64 scheduler calls of any run |
| `ProcessLaws.NeverLost` | kernel/process.c:249-467 | through any run in which it does not itself exit or sleep a process stays ready or running, and from whatever state comes next it has the processor or gets it within 64 scheduler calls |
| `ProcessLaws.SchedulesExactly` | kernel/process.c:384-443 | the steps that count as scheduler calls: a yield, an exit of any process but init, a sleep, a tick at a multiple of the interval, and a wait with children none of which is a zombie |
| `ProcessLaws.CallsByTicks` | kernel/timer.c:42-55 | a run calls the scheduler at least once in each timer interval it spans |
| `ProcessLaws.WaitsAtMost` | kernel/timer.c:42-55 | in time: whatever the run, a ready process that is not current has run after 64 timer intervals |
| `Scheduling.ExitHandsOver` | kernel/process.c:384-398 | an exit leaves a zombie with its code, and the processor passes on exactly when another process is ready or due |
| `Scheduling.ZombieStep` | kernel/syscall.c:386-409 | a zombie changes exactly when its parent waits for it, which returns and frees it, or when it is still current and sleeps or exits with another code |
| `Scheduling.ZombieUntilReaped` | kernel/syscall.c:386-409 | through any run without that wait a zombie off the processor stays as it was |
| `Scheduling.ZombieLaw` | kernel/process.c:384-398 | what an exit leaves in its slot survives every run in which it is not reaped exactly when another process was ready or due at the exit |
| `Scheduling.AloneIsReachable` | kernel/process.c:249-467 | the state of the next row is reached in four steps from start-up |
| `Scheduling.ZombieRevived` | kernel/process.c:384-406 | in a reachable state a lone process exits, sleeps, and is no zombie any more |
| `Scheduling.ScheduleProgress` | kernel/process.c:431-467 | a scheduler call runs a waiting process or brings it strictly nearer |
| `Scheduling.StepProgress` | kernel/process.c:353-467 | no step takes a waiting process further away, and each scheduler call brings it nearer |
| `Scheduling.BoundedWaiting` | kernel/process.c:431-467 | in every run a waiting process gets the processor within 64 scheduler calls |
| `Scheduling.SleeperStep` | kernel/process.c:400-443 | without an explicit wake a sleeper stays asleep before its time and is woken by the first scheduler call from then on |
| `Scheduling.NeverEarly` | kernel/process.c:400-443 | through any run that ends before its time, without an explicit wake, it is asleep |
| `Scheduling.SleeperRuns` | kernel/timer.c:42-55 | a sleeper is ready or has run by the first scheduler round at or after its time and has run 64 rounds later |
| `Scheduling.SleepHandsOver` | kernel/process.c:400-406 | a sleep gives up the processor exactly when another process is ready or due |
| `Scheduling.SleepStartsOnTrack` | kernel/process.c:400-406 | a process that sleeps while another is ready or due meets the premise of SleeperRuns |
| `ProcessTable.Table.Scheduler` | kernel/process.c:431-467 | the in-place scheduler is the one on values |
| `ProcessTable.Table.Create` | kernel/process.c:267-282 | the in-place slot creation is the one on values |
| `ProcessTable.Table.Fork` | kernel/process.c:353-381 | the in-place fork of the slot is the one on values |
| `ProcessTable.Table.Exit` | kernel/process.c:384-398 | the in-place exit is the one on values |
| `ProcessTable.Table.Sleep` | kernel/process.c:400-406 | the in-place sleep is the one on values |
| `ProcessTable.Table.Wake` | kernel/process.c:408-413 | the in-place wake is the one on values: a blocked process becomes ready with nothing else of its slot or any other changed, and any other call changes nothing |
| `ProcessTable.Table.WaitPass` | kernel/syscall.c:386-408 | one pass of the wait loop is the one on values |
| `ProcessTable.Table.TimerTick` | kernel/timer.c:42-55 | the tick handler is the one on values |
| `Shell.ResolvePath` | kernel/shell.c:84-140 | the buffer-cutting resolver returns the fold of the components, for every input and buffer length; empty input is the current directory, absolute input is taken from the root, relative input goes on from the components of the current directory |
| `Shell.SplitParts` | kernel/shell.c:105-129 | after the cutting loop the kept pointers read, in the cut buffer, as the stack of components |
| `Paths.ResolveIsJoin` | kernel/shell.c:84-140 | the result is the join of the components that remain of the whole path and always fits the buffer; which path that is, the next four rows say |
| `Paths.ResolveRelative` | kernel/shell.c:93-139 | relative input that fits is resolved component by component from what the current directory resolves to, for every length of the output buffer |
| `Paths.ResolveAbsolute` | kernel/shell.c:91-139 | absolute input means the same from every directory: its components, of the first 255 characters, from the root |
| `Paths.ResolveLong` | kernel/shell.c:93-139 | relative input of any length, behind the directory and a slash where one is missing, is cut after 255 characters and resolved from the root |
| `Paths.ResolveEmpty` | kernel/shell.c:85-88 | empty input gives the current directory as it stands, cut to the buffer |
| `Paths.CompsConcat` | kernel/shell.c:108-129 | a slash separates: the components of two strings joined by one are those of the first and then those of the second |
| `Paths.CompsOfOne` | kernel/shell.c:108-129 | a name without a slash is one component, the empty string none; with the row before this determines the split |
| `Paths.FoldSteps` | kernel/shell.c:118-127 | "." changes nothing, ".." undoes a name and stays at the root, and behind 32 parts names are dropped |
| `Paths.ResolveIsCanonical` | kernel/shell.c:84-140 | the result is absolute with no empty, "." or ".." component |
| `Paths.CanonicalIsFixed` | kernel/shell.c:84-140 | a canonical path resolves to itself from any directory |
| `Paths.ResolveIsIdempotent` | kernel/shell.c:84-140 | resolving twice is resolving once |
| `Paths.CompsOfJoin` | kernel/shell.c:108-139 | splitting a joined path gives back its components |
| `Vfs.FindChildLoop` | kernel/vfs.c:51-58 | the first child of that name, none for a file |
| `Vfs.AttachChild` | kernel/vfs.c:62-68 | appends the child and links it back, refuses files and full directories, keeps the tree a tree |
| `Vfs.VfsResolve` | kernel/vfs.c:611-658 | the cursor loop is the walk over the path's components |
| `Vfs.FoldWalk` | kernel/vfs.c:621-655 | a walk that succeeds ends where the walk over the folded components ends |
| `Vfs.FoundExactly` | kernel/vfs.c:621-655 | the raw walk succeeds exactly when the canonical form of each of its prefixes does |
| `Vfs.ResolvePreservesMeaning` | kernel/vfs.c:611-658 | a node found for the raw absolute path is found for the canonical path too |
| `Vfs.ResolveFromDirectory` | kernel/vfs.c:611-658 | with the current directory at a node, the node found for what resolve_path makes of a relative input is the one its own components lead to from there |
| `Vfs.WalkOne` | kernel/vfs.c:635-655 | one component: "." stays, ".." goes to the parent and stays at the root, a name leads to the first child that bears it, or nowhere |
| `Vfs.FewPartsFit` | kernel/shell.c:124-126 | while the parts are no more than 32 in all, none is dropped |
| `Vfs.LongNameIsCut` | kernel/vfs.c:624-628 | a name of 64 characters or more is cut after 63, and the walk takes the rest for another name |
| `Vfs.NodeHasPath` | kernel/vfs.c:611-658 | every node that a way down from the root leads to is found by the join of the names on it, which resolves to itself from any directory |
| `DivMod.OrIsSum` | lib/divmod64.c:42-45 | setting a quotient bit below which all bits are clear is addition |
| `DivMod.Normalise` | lib/divmod64.c:36-39 | the divisor is shifted until its top bit is set without losing a bit |
| `DivMod.UDivMod64` | lib/divmod64.c:10-54 | for every nonzero divisor the dividend is quotient times divisor plus a remainder below the divisor; a zero divisor gives zeros |
| `DivMod.UDiv` | lib/divmod64.c:56-58 | the quotient, zero for a zero divisor |
| `DivMod.UMod` | lib/divmod64.c:60-62 | the remainder, zero for a zero divisor |
| `DivMod.Div` | lib/divmod64.c:64-70 | the truncated quotient exactly unless the smallest word is divided by -1, which wraps to itself |
| `DivMod.Mod` | lib/divmod64.c:72-77 | the remainder with the sign of the dividend |
| `DivMod.TruncatedTruncates` | lib/divmod64.c:64-77 | these values meet section 6.5.5 of ISO C11: the division equation, a smaller remainder, the dividend's sign |
| `DivMod.TruncatesUnique` | lib/divmod64.c:64-77 | no other quotient and remainder do |
| `Crc.HashCrc32` | stage3/hash.c:4-12 | the nested loops compute the fold of the bytes over the register |
| `CrcDivision.PolyIsGenerator` | stage3/hash.c:8 | the code's constant is the generator with the powers 0, 1, 2, 4, 5, 7, 8, 10, 11, 12, 16, 22, 23, 26 and 32 |
| `CrcDivision.FeedIsRemainder` | stage3/hash.c:5-10 | the register is what long division by the generator leaves of the message behind its start value |
| `CrcDivision.CrcIsRemainder` | stage3/hash.c:4-12 | the CRC is the inverted remainder of dividing the message, with 32 zeros behind it and its first 32 bits inverted, by the generator |
| `Crc.AbsorbBijective` | stage3/hash.c:7-9 | absorbing a fixed byte is a bijection of the register, with the inverse given |
| `Crc.RegisterLinear` | stage3/hash.c:5-10 | the register after the exclusive or of two messages is the exclusive or of their registers |
| `Crc.CrcAffine` | stage3/hash.c:4-12 | the difference of two CRCs depends only on the difference of the messages |
| `Crc.RegisterInjective` | stage3/hash.c:6-10 | after any common tail registers are equal exactly when they were equal before it |
| `Crc.AbsorbPacked` | stage3/hash.c:6-10 | up to four bytes into a zero register are their packed bits shifted out |
| `Crc.BurstDetected` | stage2/main.c:745-752 | messages of equal length that differ only within four consecutive bytes have different CRCs |
| `Snapshot.Loader.Save` | stage2/main.c:755-806 | succeeds exactly when the image has content, the file opens and every write succeeds, and then the file holds the image under its CRC; a failed save leaves an intact file exactly when an intact old one could be neither removed nor opened, or when the last write stored its whole chunk and failed |
| `Snapshot.SavesExactly` | stage2/main.c:755-806 | a save of the 1 MB image succeeds exactly when 8 of its first 512 bytes are neither 0x00 nor 0xFF, the file opens, and header and 2048 chunks can be written; the file is then the header, magic and version in numbers, and the image |
| `Snapshot.LeftExactly` | stage2/main.c:784-797 | otherwise a file that opened holds the header if its 28 bytes were stored, and as many bytes of the image as the chunks written and the failing write's come to |
| `Snapshot.AcceptsExactly` | stage2/main.c:813-844 | given reads that each deliver something, restore accepts exactly a file with the magic and version, a size from 1 byte to 1 MB, that many bytes and their CRC |
| `Snapshot.TransferExactly` | stage2/main.c:829-836 | a read moves no more than is offered, wanted and there, nor than 512 bytes, and as much as one of these |
| `Snapshot.LeftoverRefused` | stage2/main.c:766-802 | restore refuses what a save leaves behind, whatever the reads, exactly when the old file was removed, cut off or refused before, and a byte of the new image is missing |
| `Snapshot.RefusedExactly` | stage2/main.c:813-844 | a file is refused by all reads exactly when its header, length or CRC is wrong |
| `Snapshot.ReadOnlyMedium` | stage2/main.c:766-771 | on a medium that can be read only, a save fails and the old snapshot is accepted |
| `Snapshot.LastWriteReported` | stage2/main.c:792-802 | the last write stores its chunk and fails: the save fails and its file is accepted |
| `Snapshot.Loader.WriteImage` | stage2/main.c:790-797 | the bytes stored are a prefix of the image: the chunks written and what the failing write stored; all of it counts as written exactly when no write fails |
| `Snapshot.Loader.LoadImage` | stage2/main.c:829-837 | the bytes loaded are the file's, behind them is what a failing read stored, and the others are untouched, under any pattern of short reads |
| `Snapshot.Loader.Restore` | stage2/main.c:809-849 | succeeds exactly on a readable, valid, complete file whose CRC matches, and then the image is the file's; after a refusal the image holds the bytes read so far, with what a failing read stored, over what it held |
| `Snapshot.RestoreAfterSave` | stage2/main.c:755-849 | a saved file is accepted exactly when the reads deliver it all, and one damaged within four consecutive bytes never is |
| `Snapshot.SteadyReadsSuffice` | stage2/main.c:829-837 | reads that each deliver something deliver everything |

## Left out

- vmm_clone_address_space and the address-space half of fork: the copy installs the source's tables.
- process_create's stacks, heap addresses, file descriptors and register context, and the context switch itself.
- kmalloc_aligned: the pointer it returns has no header before it, so it cannot be freed.
- sys_brk and sys_sbrk: they overwrite mappings without freeing the frames.
- The shared upper half of the tables: `Vmm.Mmu.MapPage`, mmap, munmap and exec are stated for lower-half addresses, and mapping code never meets a huge entry (translation handles it).
- Exec.ExecLoad: takes segments that end in the lower half and whose bounds check does not wrap (`Exec.WrappedSegment`); a segment accepted by a wrapped check is copied from outside the image, where the model has no bytes. A process without an address space (cr3 0) is left out too: for it vmm_translate is the identity, and exec writes the segments to physical memory at p_vaddr, page tables included.
- Exec.ElfLoad: elf_load does not check offsets, so the segments are taken to lie in the image and in memory.
- HeapRuns.RunLaws: speaks of runs of kmalloc and kfree; a client's own writes can also hit a header once the heap is unsound, and `HeapList.KernelHeap.Write` covers them for blocks that lie apart.
- HeapList.KernelHeap.Free: asks that a pointer with a live header before it came from kmalloc; the code cannot tell a forged header.
- SlabPool.Pool.Free: asks that a pointer outside the slab pages does not have a forged header in front of it.
- Slab.HeapPointerFallsThrough: blocks of size zero, which only a wrapped request leaves behind, and unsound heaps.
- Shell.ResolvePath: a buffer length of zero, for which the code's length arithmetic wraps.
- heap_used is not related to the live bytes: it grows by the request and shrinks by the block, and the code keeps no record of the request.
- The bitmap word of a slab page and the CRC register are sequences of bits; the slab page list of a tier is a sequence.
- FileCache.Replay: a reliable disk, and clusters in use no two of which share sectors (`FileCache.AliasSpoils`); disk write errors and the hit, miss and entry counters are not modelled.
- The `dirty` flag is set by an explicit client step, `FileCache.Cache.Store`, because no code shown sets it.
- Scheduling.NeverEarly: sleeps whose wake time would pass 2^64, and wrap-around of the tick counter, which is unbounded here.
- Lru.CacheIsMostRecent: stated before the 32-bit clock wraps; `Lru.LruExactly` says when the policy still holds afterwards.
- Snapshot.Loader.Save: a write or read that reports success is taken to have moved its bytes, and opening for writing to cut the file off.
- Vfs.ResolvePreservesMeaning: like `Vfs.ResolveFromDirectory`, paths under 256 characters, names under 64, depth at most 32, as the buffers of both functions demand; the finddir callback, whose result the code ignores, is not modelled.
- sys_wait's copy of the exit status and its pointer check; names and working directories of processes.
- The translation cache and its invalidation; all port, disk, timer and display hardware; the scheduler's interrupt context.
- Every other stage, driver and demo of the repository.
