# Verified model of the kernel memory stack, the FAT code and the console queue

This Dafny project models four parts of the operating system and proves what they promise.
`dafny verify dfyconfig.toml` checks everything.

**Kernel memory.** Three layers, each on top of the one before.
- `PhysicalMemoryManager` is the bitmap frame allocator, working in place on an array of 32-bit
  words; `FrameOwnership` says what it promises about sets of free blocks and live runs, over whole
  runs of allocations and releases; `MemoryBoot` is the sequence of region calls at boot.
- `AddressSpace` is the virtual memory manager and `allocate_new_page`. Physical memory is one array
  of words; the directory and the page tables are frames of that array, taken from the same bitmap
  as the data they map. `PagingMemory` gives the meaning of such a memory (tables, translation of
  every page) and what a store to any word does to it; `PagingSpec` states every operation as a step
  on an abstract view (frames, directory, tables, pages) and proves the global invariant over every
  run of steps; `PagingRollback` what a failing `allocate_new_page` does to the pages that were there;
  `PagingIdentity` when the tables stay where the code reaches them, `TableSupply` what a caller needs
  for them to stay there; `PageScan` is the search of `find_free_page`; `PagingBoot` the image built
  at boot.
- `Heap` is `malloc` and `free` on pages obtained from `AddressSpace`. Headers are kept by address;
  `HeapLayout` and `HeapSteps` say how blocks tile the pages and what each operation does to them,
  `HeapBacking` that every heap page stays mapped to a frame of its own in some data run, `HeapMemory`
  that a store into a payload therefore meets no header and no table; `HeapWindow` is what `malloc`
  does to a heap that has reached 4 GiB.
- `KernelBoot` is `init_virtual_memory_manager` as a whole, with the first `calloc` it ends in.
- `SampleMemory` sets up a memory by the region calls of boot; `RollbackInput` and `WindowInput` run the
  operations on two such memories, from boot to a call that does not do what its caller expects.

**FAT tables and chains.** `FatTable` is the packed 12-, 16- and 32-bit entry codec of all three FAT
drivers, proved against the digit layout of the format; `FatChains` says what cluster chains are and
how a file grows; `FatCache` is the in-memory table of the kernel driver.

**FAT12 write path.** `FatDriver` is the standalone driver: writing, seeking and reading a file on a
disk of sectors, with the cached FAT sector written through; `ClusterArea` places clusters on disk.

**Boot-time FAT reader.** `BootFatCache` is the sliding five-sector window over the FAT,
`BootFatReader` the sector-buffered, cluster-walking reads.

**Console queue.** `ConsoleQueue` is the linked FIFO of the virtual file system.

Words are naturals below 2^32; `Bits` defines the bitwise operators bit by bit, and every
wrap-around of the C code is written out. Methods keep the loops and in-place updates of the source.

Where the code does something else than its names or comments suggest, the model follows the code
and states exactly when it meets the intent:
- the frame search masks a word with the bit *index* instead of the bit (`SearchSkipsFreeBlock`,
  `LowestRunReturned`, `PaddedRunIsFound`);
- `SET_FRAME` does not clear bit 31 (`SetFrameExact`);
- `map_page` never sets the read/write attribute of a page, only of its table (`MapPage`, `AddTable`);
- region sizes are rounded down and the last block can lie past `max_blocks` (`BitmapReserved`,
  `BootPastEnd`);
- the page search takes one page more than asked for, and uses address 0 for "nothing yet"
  (`FoundAddressExact`);
- rolling back `allocate_new_page` unmaps pages that were mapped before: all those of the range in
  front of its first absent directory entry (`RollbackOutcome`, and `RollbackRemovesPage` for an input);
- the tables are read and written at their physical addresses, which reaches them exactly as long as
  each table's frame stays mapped onto itself (`ReachableExact`, `ReachableOverTraces`, `BootReachable`);
- `malloc` keeps its promise exactly when the pages granted to it lie in the window up to 4 GiB
  (`Malloc`, `AllKeptExact`).  Other pages take page 0 with them (`PastWindow`), and the block carved
  from them passes 4 GiB (`BlockInWindow`); a heap that ends at 4 GiB is granted its next pages at
  address 0 and takes them for a refusal (`MallocAtEnd`, and `PageZeroTaken` for a run from boot).  It
  wraps around for requests above 0xFFFFFFE0 (`AlignExact`);
- `find_free_blk` takes the first block of the list only when it is strictly larger (`FindFreeBlk`);
- growing a file without a free cluster leaves it without a chain (`GrowExact`);
- the cached FAT sector holds the entries of clusters up to 340, and 1024 clusters apart they share one
  (`HeldExact`, `SharedEntry`);
- a seek to a positive multiple of 512 stops one cluster early (`SeekExact`);
- a 12-bit entry split by the end of the boot loader's window takes its second byte from the window
  position (`SplitExact`, `SplitCounterexample`);
- the boot loader takes any cluster number from 0xFF8 on for the end of a file, whatever the FAT type,
  but looks only when it has used up a sector, so some such files still arrive (`OpenAndRead`,
  `WholeSeen`, `BoundOfSmallFile`).

## Model

| member | source | states |
|---|---|---|
| PhysicalMemoryManager.Manager.SetBlock | kernel/memory/management/physique/physical_memory_manager.c:33-37 | exactly the bit of this block becomes set, every other keeps its value |
| PhysicalMemoryManager.Manager.UnsetBlock | kernel/memory/management/physique/physical_memory_manager.c:39-44 | exactly the bit of this block becomes clear, every other keeps its value |
| PhysicalMemoryManager.Manager.TestBlock | kernel/memory/management/physique/physical_memory_manager.c:46-50 | nonzero exactly when the block is used |
| PhysicalMemoryManager.Manager.RunIsClear | kernel/memory/management/physique/physical_memory_manager.c:64-77 | true exactly when all blocks of the run are clear; the run never passes max_blocks |
| PhysicalMemoryManager.Manager.FindFirstFreeBlocks | kernel/memory/management/physique/physical_memory_manager.c:52-83 | a result is at least 32, all its bits are clear and no earlier candidate passes the filter; -1 only when no candidate exists |
| PhysicalMemoryManager.LowestRunReturned | kernel/memory/management/physique/physical_memory_manager.c:57-62 | the lowest free run is the one returned exactly when the mask test lets its first bit through |
| PhysicalMemoryManager.SearchSkipsFreeBlock | kernel/memory/management/physique/physical_memory_manager.c:62 | a bitmap with a free block that the search does not find |
| PhysicalMemoryManager.PaddedRunIsFound | kernel/memory/management/physique/physical_memory_manager.c:57-83 | a free run with 31 blocks to spare always yields a candidate |
| PhysicalMemoryManager.Manager.OffersFound | kernel/memory/management/physique/physical_memory_manager.c:52-83 | a free run at a word boundary, within the counter, is never refused, and the run returned starts no higher |
| PhysicalMemoryManager.Manager.AllocateBlocks | kernel/memory/management/physique/physical_memory_manager.c:115-131 | NULL exactly when the counter leaves no room or no candidate exists, and then nothing changes; otherwise the first candidate run moves from free to live |
| PhysicalMemoryManager.Manager.FreeBlocks | kernel/memory/management/physique/physical_memory_manager.c:133-141 | the live run at this address becomes free again and the counter drops by its length |
| PhysicalMemoryManager.Manager.InitPhysicalMemoryManager | kernel/memory/management/physique/physical_memory_manager.c:85-93 | sets exactly the blocks of the whole bytes below max_blocks |
| PhysicalMemoryManager.Manager.InitPhysicalMemoryRegion | kernel/memory/management/physique/physical_memory_manager.c:95-103 | frees exactly the blocks of the rounded-down range, never block 0 |
| PhysicalMemoryManager.Manager.DeletePhysicalMemoryRegion | kernel/memory/management/physique/physical_memory_manager.c:105-113 | marks exactly the blocks of the rounded-down range and block 0; the counter drops although blocks become used |
| FrameOwnership.OwnershipOverTraces | kernel/memory/management/physique/physical_memory_manager.c:115-141 | over every run: live runs are disjoint and used, block 0 is never free, used_blocks plus the free count is constant modulo 2^32 |
| FrameOwnership.NeverHandedOutTwice | kernel/memory/management/physique/physical_memory_manager.c:115-131 | no allocation returns a block of a run that is still live |
| MemoryBoot.InitRegions | kernel/memory/management/memory_management.c:15-33 | after boot a block is free exactly when an available range covers it, no deleted range does and it is not block 0 (or it lay past the cleared bytes and was free); the allocator's invariant holds exactly when every block from max_blocks on is deleted, or neither available nor free before; max_blocks is the number of the block that holds the last byte of the last region; reserved are block 0, nine blocks from the kernel's on, and max_blocks / 32768 blocks from number 48 on; used_blocks is what all these calls leave of max_blocks, modulo 2^32 |
| MemoryBoot.InitUsableRegions | kernel/memory/management/memory_management.c:23-27 | frees what some type-1 region covers and keeps what was free; used_blocks goes down by the blocks of each of them and one more |
| MemoryBoot.BitmapReserved | kernel/memory/management/memory_management.c:32 | the bitmap's own bytes are all reserved exactly when its size is a whole number of blocks |
| MemoryBoot.BootPastEnd | kernel/memory/management/memory_management.c:15-33 | after boot with a usable block-aligned last region, the block of its last byte, which has number max_blocks, is free exactly when no deleted range covers it, and then the allocator's invariant fails |
| PageEntry.PtIndexValue | kernel/memory/management/virtual/virtual_memory_manager.h:12 | the index macro yields the page number modulo 1024 |
| PageEntry.PagePhysAddrValue | kernel/memory/management/virtual/virtual_memory_manager.h:13 | the frame macro drops exactly the low twelve bits |
| PageEntry.SetAttributeValue | kernel/memory/management/virtual/virtual_memory_manager.h:14 | setting an attribute keeps the frame |
| PageEntry.UnsetPresentValue | kernel/memory/management/virtual/virtual_memory_manager.h:15 | clearing the present bit keeps the frame |
| PageEntry.SetFrameExact | kernel/memory/management/virtual/virtual_memory_manager.h:17 | the stored frame reads back exactly when the address is page-aligned and bit 31 was clear or is set by it |
| PagingMemory.StorePte | kernel/memory/management/virtual/virtual_memory_manager.c:102-105 | storing a page-table entry changes the translation of its page alone and no table |
| PagingMemory.ClearPte | kernel/memory/management/virtual/virtual_memory_manager.c:135-138 | clearing the entry get_page yields removes that page alone, even when it has no table |
| PagingMemory.InstallTable | kernel/memory/management/virtual/virtual_memory_manager.c:92-97 | hanging a cleared frame into an absent directory entry adds a table and no page |
| PagingMemory.StoreOutside | kernel/memory/management/virtual/virtual_memory_manager.c:41-47 | a store to any frame that holds no table changes no translation |
| AddressSpace.StoreThroughMapping | kernel/memory/management/memory_management.c:43-61 | a store through a mapped data page changes no table, no translation and no word of a page on another frame |
| AddressSpace.Space.GetPage | kernel/memory/management/virtual/virtual_memory_manager.c:41-47 | the address of the entry the two-level walk reaches |
| AddressSpace.Space.GetPhysAddr | kernel/memory/management/virtual/virtual_memory_manager.c:276-279 | the translation of every address of a present page |
| AddressSpace.Space.AddTable | kernel/memory/management/virtual/virtual_memory_manager.c:86-98 | installs one empty table on a frame that was free, or changes nothing when the allocator refuses; its directory entry becomes present and writable and keeps its other attributes, and no word outside it and the new table changes |
| AddressSpace.Space.MapPage | kernel/memory/management/virtual/virtual_memory_manager.c:82-107 | on success exactly this page gets this frame, with at most one new empty table; on failure nothing changes and no block at a word boundary was left; the entry of the page is the frame with the attributes it had, or none in a new table, and the present bit - never the read/write one; no word outside the directory and the tables changes |
| AddressSpace.Space.MapThenTranslate | kernel/memory/management/virtual/virtual_memory_manager.c:82-107 | after map_page(p, v) returns 1, get_phys_addr of any address in the page is p plus the offset, and every other page is present and translated as before |
| AddressSpace.Space.UnmapPage | kernel/memory/management/virtual/virtual_memory_manager.c:135-140 | exactly this page becomes absent; of its entry the other attributes stay, and only its table is written to, or frame 0 when it has none |
| AddressSpace.Space.AllocateNewPage | kernel/memory/management/memory_management.c:43-61 | refused, only when no run at a word boundary has n blocks within the counter; or all pages mapped onto one new run, no higher than the lowest such run; or rolled back, when no block at a word boundary was left for a table; the new tables take the lowest such blocks in turn; in each case exactly one legal step of the view; no word of memory outside the directory and the tables changes |
| AddressSpace.Space.MapRun | kernel/memory/management/memory_management.c:48-51 | the mapping loop: the first i pages lie on the first i frames of the run, and it stops early only for a missing table |
| AddressSpace.Space.Rollback | kernel/memory/management/memory_management.c:52-57 | gives the run back and unmaps exactly the pages mapped so far |
| AddressSpace.Space.ReserveRun | kernel/memory/management/physique/physical_memory_manager.c:115-131 | allocate_blocks as a step of the view: the invariant is kept, no page and no table changes |
| AddressSpace.Space.ReleaseRun | kernel/memory/management/physique/physical_memory_manager.c:133-141 | free_blocks of a data run as a step of the view |
| AddressSpace.Space.FindFreePage | kernel/memory/management/virtual/virtual_memory_manager.c:142-182 | the lowest run of nb + 1 absent pages, across table boundaries; new tables are empty, so no translation changes; NULL otherwise only when a table was missing on the way and no block at a word boundary was left for it; no word outside the directory and the tables changes |
| PageScan.FoundAddressExact | kernel/memory/management/virtual/virtual_memory_manager.c:166-168 | the reported address is the start of the run exactly when the run does not start at page 0, that is when a page up to nb is mapped |
| AddressSpace.Space.BuildAddressSpace | kernel/memory/management/virtual/virtual_memory_manager.c:200-265 | up to the switch of the directory: on success tables 0 and 768 alone exist, the pages are the boot pages and exactly the three runs are taken, each no higher than the lowest run at a word boundary; on failure the directory is not switched and one of the runs was refused; no word outside the three frames changes |
| KernelBoot.InitVirtualMemoryManager | kernel/memory/management/virtual/virtual_memory_manager.c:200-274 | at the return of 1: the boot pages, and page 0xF0000 on a block that was free, with tables 0, 768 and 960 and a heap of one live block of 12 bytes; or calloc has returned NULL and the address space is that of boot; in both cases every table is mapped onto itself exactly when the directory and all tables lie in the first 4 MiB |
| KernelBoot.FirstHeapPage | kernel/memory/malloc.c:75-87 | the heap's first request for one page maps exactly that page and adds exactly its table, or leaves the address space as it was |
| AddressSpace.Space.MapLinear | kernel/memory/management/virtual/virtual_memory_manager.c:232-251 | fills a table with 1024 present writable entries for consecutive frames and touches no other frame |
| PagingBoot.BootImagePages | kernel/memory/management/virtual/virtual_memory_manager.c:200-265 | the image the boot code leaves in memory translates exactly the boot pages |
| PagingBoot.BootAddress | kernel/memory/management/virtual/virtual_memory_manager.c:230-261 | v translates to v below 4 MiB, 3 GiB + o to k + o for o below 4 MiB, and nothing else is present |
| PagingSpec.StepKeepsInvariant | kernel/memory/management/virtual/virtual_memory_manager.c:82-182 | every operation keeps: one owner per frame, directory and tables live and distinct, mapped pages have a table |
| PagingSpec.InvariantOverTraces | kernel/memory/management/virtual/virtual_memory_manager.c:82-182 | the invariant in every state of every run |
| PagingSpec.TablesOverTraces | kernel/memory/management/virtual/virtual_memory_manager.c:82-182 | a frame that once holds the directory or a table does so for ever, stays used, is never handed out and is in no data run |
| PagingSpec.DataRunsDisjoint | kernel/memory/management/memory_management.c:43-61 | frames of different live data runs are disjoint and used, in every state of every run |
| PagingIdentity.ReachableExact | kernel/memory/management/virtual/virtual_memory_manager.c:82-106 | every operation keeps the directory and all tables mapped onto themselves exactly when it displaces no page of a table frame and puts new tables on frames that are mapped onto themselves |
| PagingIdentity.ReachableOverTraces | kernel/memory/management/virtual/virtual_memory_manager.c:82-182 | over every run that displaces no page below a bound and puts new tables below it, they stay so |
| PagingIdentity.MapReachable | kernel/memory/management/virtual/virtual_memory_manager.c:82-107 | with a free block at a word boundary below the bound, map_page of any page from the bound on succeeds and is such a step |
| PagingIdentity.ReachableMeanwhile | kernel/memory/management/memory_management.c:48-51 | in every round of allocate_new_page's loop as well, when no table, old or new, lies in the range and all were mapped onto themselves before |
| TableSupply.AllocateReachable | kernel/memory/management/memory_management.c:43-61 | allocate_new_page above the bound, with a run to be found and behind it a spare block below the bound for every missing table, succeeds and keeps all tables mapped onto themselves |
| TableSupply.FindReachable | kernel/memory/management/virtual/virtual_memory_manager.c:142-182 | so does find_free_page, with spare blocks for the tables missing up to the end of some absent run: it finds the lowest such run |
| PagingIdentity.BootReachable | kernel/memory/management/virtual/virtual_memory_manager.c:200-265 | after boot the tables are mapped onto themselves exactly when their five frames lie in the first 4 MiB |
| PagingIdentity.LostAtZero | kernel/memory/malloc.c:91 | pages granted from address 0 on displace every table whose frame number they reach |
| PagingSpec.SuccessfulAllocation | kernel/memory/management/memory_management.c:43-61 | the j-th page of the range lies on the j-th frame of one run that was free; pages outside are unchanged |
| PagingSpec.FailedAllocation | kernel/memory/management/memory_management.c:51-58 | a failed call leaves the frames and the tables as installing its new, empty tables alone would: the run goes back completely |
| PagingRollback.RollbackOutcome | kernel/memory/management/memory_management.c:48-58 | what failing does to the translation, in terms of the state before: nothing when the whole range was absent; always the loss of every page in front of the first absent directory entry; of no other page when the range meets one absent entry, so that the pages are kept exactly when none of these was present |
| RollbackInput.RollbackRemovesPage | kernel/memory/management/memory_management.c:43-61 | the boot address space on a memory of seven free blocks, then allocate_new_page(0x3FF000, 2): NULL, and page 0x3FF, mapped onto itself before, is gone |
| HeapLayout.BlocksDisjoint | kernel/memory/malloc.c:122-167 | two blocks, header and payload, never overlap and each lies inside one page behind its header |
| HeapLayout.TileExtent | kernel/memory/malloc.c:158-164 | a block of a page lies inside the used part of that page |
| HeapMemory.StoreInHeap | kernel/memory/malloc.c:158-164 | a store to one word of the heap, through the translation, changes no table, no translation and no other word of the heap |
| HeapMemory.PayloadStore | kernel/memory/malloc.c:122-167 | so a store to any word of a payload leaves every page header and every block header as it is |
| HeapSteps.CarveKeepsHeap | kernel/memory/malloc.c:154-164 | a block carved at the end of a page keeps the tiling, the free list and the partition into live and free |
| HeapSteps.ReuseKeepsHeap | kernel/memory/malloc.c:134-138 | so does a block taken from the free list |
| HeapSteps.FreeKeepsHeap | kernel/memory/malloc.c:169-173 | so does a block put in front of the free list |
| HeapSteps.AddPageKeepsHeap | kernel/memory/malloc.c:75-100 | so does a page appended behind the last one |
| HeapBacking.OldPagesBacked | kernel/memory/malloc.c:75-100 | whatever size is asked for and whatever becomes of it, even past 4 GiB, every heap page stays mapped to the frame it had, of a data run, and different pages to different frames |
| HeapBacking.MapKeepsBacked | kernel/memory/management/virtual/virtual_memory_manager.c:82-107 | nor does map_page of a page below the window touch the heap |
| HeapBacking.NewPagesBacked | kernel/memory/malloc.c:75-100 | pages granted inside the window extend the heap, each on a frame of its own of the new run |
| HeapBacking.KeptExact | kernel/memory/malloc.c:91 | granted pages lie in the window exactly when the heap ended below 4 GiB and they end at or below it |
| HeapBacking.PastWindow | kernel/memory/malloc.c:75-100 | pages granted behind the heap but not kept are exactly those that come round to page 0, which then lies on a frame of the new run |
| Heap.BlockInWindow | kernel/memory/malloc.c:149-164 | the pages added for a block lie in the window exactly when the block, carved behind both headers, ends at or below 4 GiB; the first page of a heap exactly for requests up to 256 MiB |
| Heap.AlignExact | kernel/memory/malloc.c:68-73 | rounding to 16 keeps a request large enough exactly up to 0xFFFFFFF0, with room for both headers exactly up to 0xFFFFFFE0 |
| Heap.AlignPages | kernel/memory/malloc.c:68-76 | rounding to pages yields the next multiple of 4096, or 0 above 0xFFFFF000 |
| Heap.Heap.constructor | kernel/memory/malloc.c:22-23 | the empty heap satisfies the invariant |
| Heap.Heap.AddPage | kernel/memory/malloc.c:75-100 | for every size: pages are asked for behind the last one in 32-bit arithmetic; granted at an address other than 0, one page of the rounded size follows the last, only its header used; otherwise the heap is unchanged; in both cases one legal step below |
| Heap.Heap.FindFreeBlk | kernel/memory/malloc.c:102-120 | removes the first suitable block and keeps the rest of the list in order, or NULL exactly when none suits and then changes nothing |
| Heap.Heap.FindRoom | kernel/memory/malloc.c:141-144 | the first page with room for the block, or the last page when none has |
| Heap.Heap.TryReuse | kernel/memory/malloc.c:134-138 | a reused block is newly live, large enough, and came from the free list |
| Heap.Heap.Carve | kernel/memory/malloc.c:154-166 | the block starts behind the used part of the page, holds exactly the rounded size, and the used part grows by that and 12; no other header changes; it is newly live, inside the page, and the end of the heap does not move |
| Heap.Heap.Malloc | kernel/memory/malloc.c:122-167 | for every heap and every n up to 0xFFFFFFE0: the invariant, NULL exactly when the last request for pages was refused and otherwise a new live block of n bytes beside unchanged live blocks, if and only if all pages granted on the way are kept; above: never a payload holding n bytes of a page; pages are asked for exactly when no free block suits and no page has room (twice only for an empty heap), and each request is answered as allocate_new_page answers; pages that are kept follow those of the heap, one for each request, and move its end; the headers are known in numbers: a carved block holds n rounded up to 16 and lies behind the used part of the first page with room, which grows by that and 12, while no other page or block changes; a reused one is the first of the free list if larger than that, else the first later one as large; NULL changes no block; no word of memory outside the directory and the tables changes |
| Heap.AllKeptExact | kernel/memory/malloc.c:128-150 | which pages malloc asks for and whether granted ones are kept follow from the end of the heap and the request before the call |
| HeapWindow.MallocAtEnd | kernel/memory/malloc.c:122-152 | for every heap that ends at 4 GiB, has neither a block nor room, and needs at most 32 pages for which there is a run: they are granted at address 0, malloc answers NULL, page 0 and those behind it move onto the run, the heap stays valid and every table mapped onto itself |
| WindowInput.FillWindow | kernel/memory/malloc.c:122-167 | malloc(0x0FFFEFE0) on a heap of one page, with spare blocks for its tables in the first 16 MiB: the heap ends at 4 GiB with no room left, all tables mapped onto themselves |
| WindowInput.PageZeroTaken | kernel/memory/malloc.c:122-167 | such a run, from the region calls on 288 MiB of memory: init_virtual_memory_manager with its calloc, map_page of the pages 1024 to 4095 onto themselves, malloc(0x0FFFEFE0), malloc(4096); the last answers NULL and has moved page 0 off frame 0, with every table mapped onto itself before and after it |
| Heap.Heap.Free | kernel/memory/malloc.c:169-173 | a live block moves to the front of the free list; nothing else changes and the invariant is kept |
| FatTable.ReadsEntry | kernel/filesystem/fat.c:211-239 | what the drivers compute from two or four bytes is the digits of the entry, the end range widened to 32 bits |
| FatTable.EncodeFits | kernel/filesystem/fat.c:293-301 | the masks store the low twelve bits next to the digit of the neighbour |
| FatTable.UpdateEntry | kernel/filesystem/fat.c:290-311 | after an update the entry is the value modulo its width |
| FatTable.UpdateOutside | kernel/filesystem/fat.c:290-311 | no digit outside the entry changes |
| FatTable.UpdateReads | kernel/filesystem/fat.c:186-311 | get after set for a table of any length and every pair of clusters, the neighbour sharing a byte included |
| FatChains.ChainDistinct | kernel/filesystem/fat.c:186-241 | a chain up to an end mark visits no cluster twice |
| FatChains.SharedTail | kernel/filesystem/fat.c:186-241 | chains that share a cluster are equal from there on |
| FatChains.ChainsDisjointExact | kernel/filesystem/fat.c:186-241 | two files are disjoint exactly when they end in different clusters |
| FatChains.GrowKeepsChains | kernel/filesystem/fat.c:388-394 | linking and marking a free cluster keeps the table well formed; only the writer's chain changes, by a suffix |
| FatChains.GrowExact | kernel/filesystem/fat.c:388-394 | the grown chain is a chain exactly when the search found a cluster |
| FatChains.GrowWithoutRoom | kernel/filesystem/fat.c:388-394 | with cluster 0 linked, no chain starts at the file's first cluster any more |
| FatChains.UpdateLinks | kernel/filesystem/fat.c:265-311 | an update changes the link of one cluster |
| FatCache.Cache.NextCluster | kernel/filesystem/fat.c:186-241 | the link of the cluster in the cached table |
| FatCache.Cache.FindFreeCluster | kernel/filesystem/fat.c:249-263 | the lowest free cluster from 2 to below total_clusters, or 0 exactly when there is none; whatever their number, as long as a free one lies in the sector |
| FatCache.Cache.UpdateFat | kernel/filesystem/fat.c:265-311 | changes the table in place to the encoded one, and the link of this cluster alone |
| FatCache.Cache.Advance | kernel/filesystem/fat.c:388-394 | inside the chain nothing changes; at its end the lowest free cluster is appended and all chains stay well formed; without one the file has no chain left |
| ClusterArea.LbaValue | test/fat.c:120-122 | clusters lie one after the other in the data area, without wrap-around |
| ClusterArea.LbasApart | test/fat.c:120-122 | different clusters occupy disjoint sectors |
| ClusterArea.LbaModulo | bootloader/stage2/fat.c:117-120 | for any cluster number the formula is right modulo 2^32 |
| FatDriver.Driver.LbaPlace | test/fat.c:120-122 | cluster c of the driver starts at first_data_sector + (c - 2) * sector_per_cluster |
| FatDriver.Driver.constructor | test/fat.c:280-307 | the cached FAT sector is the one on disk, on a volume of any number of clusters, and the geometry the one given |
| FatDriver.HeldExact | test/fat.c:146-150 | it holds the entry of a cluster, where the driver looks for it, exactly up to cluster 340 |
| FatDriver.SharedEntry | test/fat.c:218-235 | update_fat of any cluster also changes the entry read for the cluster 1024 further on |
| FatDriver.Driver.UpdateFat | test/fat.c:218-235 | one link changes, and the sector on disk equals the cached one again |
| FatDriver.Driver.StepOn | test/fat.c:249-255 | the next cluster of the chain, appended if need be; free clusters plus chain length is conserved; no sector but the FAT changes |
| FatDriver.Driver.WriteBlock | test/fat.c:239-255 | one more block of the data is on disk in the next cluster of the chain, earlier blocks untouched |
| FatDriver.Driver.WriteFile | test/fat.c:237-257 | all blocks lie in successive clusters of the file, each at its place in the data area, the last padded with zeros; the chain gains a suffix ending one cluster past the data; no other chain and no other sector changes; in front of the data area only the first FAT sector changes |
| FatDriver.Driver.SeekFile | test/fat.c:259-266 | where the seek loop stops, on the chain or behind it |
| FatDriver.Driver.SeekExact | test/fat.c:259-266 | that is the cluster of the position exactly when the position is 0 or no multiple of 512 |
| FatDriver.Driver.ReadFile | test/fat.c:203-216 | exactly the next bytes of the file as far as count, size and chain reach, and the cursor behind them |
| FatDriver.Driver.WriteSeekRead | test/fat.c:405-408 | write from 0, seek to 0, read returns the data written, cut off at the recorded size; every other chain and every sector of other files is unchanged |
| BootFatCache.Window.constructor | bootloader/stage2/fat.c:132 | nothing is cached at first |
| BootFatCache.Window.ReadFat | bootloader/stage2/fat.c:100-102 | the window holds the five FAT sectors from this one on |
| BootFatCache.Window.Load | bootloader/stage2/fat.c:232-237 | afterwards the sector lies in the window, which holds what is on disk |
| BootFatCache.Window.NextCluster | bootloader/stage2/fat.c:220-264 | from any window state the on-disk entry is returned, unless it is a split 12-bit entry, whose value is given too; the window stays when the sector is one of its five, and otherwise starts there |
| BootFatCache.SplitExact | bootloader/stage2/fat.c:239-247 | a split entry reads correctly exactly when the window position supplies the digits of the next sector |
| BootFatCache.SplitCounterexample | bootloader/stage2/fat.c:239-247 | cluster 1706 in the window at sector 0 is read wrongly |
| BootFatReader.Reader.SeenPrefix | bootloader/stage2/fat.c:283-307 | what the reader sees of a file is a prefix of its bytes: one sector when the first of several-sector clusters is 0xFF8 or above, else all clusters in front of the first later one that is |
| BootFatReader.Reader.WholeSeen | bootloader/stage2/fat.c:293-300 | that is all of it exactly when no later cluster is 0xFF8 or above, nor the first unless clusters have one sector |
| BootFatReader.Reader.BoundOfSmallFile | bootloader/stage2/fat.c:293-300 | cluster 5000 alone still delivers 512 bytes; followed by cluster 100, both arrive only with one sector a cluster |
| BootFatReader.Reader.OpenAndRead | bootloader/stage2/fat.c:181-310 | a file opened and read delivers its bytes up to the count, the size and that bound; with enough asked for, the whole file arrives exactly when its size is at most the bound |
| BootFatReader.Reader.SectorOnDisk | bootloader/stage2/fat.c:117-120 | every sector of a chain lies on the disk |
| BootFatReader.Reader.ClusterPlace | bootloader/stage2/fat.c:117-120 | cluster c of the reader starts at the data section + (c - 2) * sectors per cluster |
| BootFatReader.Reader.ContentByte | bootloader/stage2/fat.c:266-307 | byte x of a chain is byte x % 512 of sector x / 512 % spc of its cluster x / 512 / spc, on the disk |
| BootFatReader.Reader.FirstPlace | bootloader/stage2/fat.c:203 | where the first sector of an opened file is read from |
| BootFatReader.Reader.FreeHandle | bootloader/stage2/fat.c:182-187 | the first slot not in use, or none exactly when all are in use |
| BootFatReader.Reader.OpenEntry | bootloader/stage2/fat.c:181-214 | opens the first free slot at position 0 with the first sector buffered and the slot number as its handle; nothing is opened exactly when no slot is free or that sector cannot be read; open files are untouched |
| BootFatReader.Reader.OpenRoot | bootloader/stage2/fat.c:159-171 | the root directory satisfies the invariant of an open file |
| BootFatReader.Reader.NextSector | bootloader/stage2/fat.c:283-307 | cluster, sector in cluster and buffer move to the next sector of the file, or the chain ends exactly there and the size becomes the position |
| BootFatReader.Reader.Chunk | bootloader/stage2/fat.c:275-308 | one round takes the next bytes of the content and keeps the invariant |
| BootFatReader.Reader.ReadFile | bootloader/stage2/fat.c:266-310 | the next bytes of the content, as many as request, size and chain allow - from a directory of size 0 as many as request and chain do; position, size, buffer and cursor all agree afterwards; the loop terminates; the window ends where the lookups of exactly the clusters passed leave it |
| BootFatReader.Reader.ReadSeries | bootloader/stage2/fat.c:266-314 | any series of reads: each reply is as long as asked for and left, and together they are the next bytes of the file |
| BootFatReader.Reader.ReadInterleaved | bootloader/stage2/fat.c:266-310 | reads of several open files in any order through the one window: each file delivers its own next bytes as if read alone, as long as no lookup this order makes meets a split entry |
| BootFatReader.Reader.WideTurnsPass | bootloader/stage2/fat.c:239-253 | with FAT16 and FAT32 no order does |
| BootFatReader.Reader.SteadyTurnsPass | bootloader/stage2/fat.c:232-247 | nor does any order with FAT12, where no window at a sector looked up splits an entry looked up |
| ConsoleQueue.Std.constructor | kernel/vfs/std.c:6-9 | an empty queue |
| ConsoleQueue.Std.Put | kernel/vfs/std.c:12-26 | the byte is queued last; the list stays linked with head, tail and size |
| ConsoleQueue.Std.Get | kernel/vfs/std.c:29-43 | takes the oldest byte, or returns 0 and changes nothing when empty; bytes taken then queued are the bytes put |
| ConsoleQueue.Std.RunSteps | kernel/vfs/std.c:12-43 | any sequence of atomic std_put and std_get steps on one queue: bytes returned and bytes left are those of the abstract run, together the bytes queued before and put |
| ConsoleQueue.FifoOverRuns | kernel/vfs/std.c:12-43 | over every interleaving of atomic steps nothing is lost, invented or reordered |

## Left out

- PhysicalMemoryManager.Manager.FreeBlocks: callers must return a live run with its length; `deallocate_page`, `munmap` and ELF unloading pass something else and are not modelled.
- PhysicalMemoryManager.Manager.AllocateBlocks: used_blocks is not claimed to be the number of used blocks, since boot makes it differ (DeletePhysicalMemoryRegion); what stays constant is stated instead.
- MemoryBoot.InitRegions: regions must lie inside the bitmap; printing and the memory contents the bitmap overlaps are not part of the model.
- AddressSpace.Space.MapPage: physical addresses are page-aligned and below 2 GiB, since the frame mask leaves bit 31; free frames lie in the modelled memory and below 2 GiB; the model reaches tables at their physical address whatever is mapped there (PagingIdentity says when the code does).
- AddressSpace.Space.FindFreePage: a long enough run of absent pages must exist; otherwise the source walks past the 1024 directory entries.
- KernelBoot.InitVirtualMemoryManager: loading CR3, enabling paging, TLB flushes and the page-fault handler are hardware; what calloc and page_dir_vec_init store through the pointer they get, at NULL when the first page was refused, is left out.
- AddressSpace.Space: the bitmap is an array of its own, not a part of the physical memory array, so overlap between the bitmap and handed-out frames (see BitmapReserved) has no effect in the model.
- Heap.Heap.Malloc: after pages were granted past 4 GiB, and after a request above 0xFFFFFFE0, nothing is claimed of later calls; after pages were granted at address 0 the heap is valid in the model's tables, which the code's own walk has lost when the pages reach a table's frame (LostAtZero; they do not up to 32 pages, MallocAtEnd). The nb_block counter, which is never initialised, is left out.
- Heap.Heap.Free: frees only live blocks, as callers must; a double free or a foreign pointer is not modelled.
- Heap headers are kept in maps by address instead of being read from the memory array; PayloadStore says why that memory is theirs alone. What callers store in a payload is not modelled; malloc itself changes no word of memory outside the directory and the tables.
- `calloc` beyond its call of malloc (it clears at NULL when that fails), `realloc` (its grow test is inverted) and `mmap` (always asks for one page).
- FatCache.Cache.UpdateFat: entries in use lie in the one cached sector of at most 512 bytes, so the reload of another FAT sector, whose offset always evaluates to 0, never happens; on a volume with more clusters a search that finds none free in that sector is not modelled; the write of the sector to disk, which uses a byte offset as sector number, is left out there and modelled for the standalone driver.
- FatCache.Cache: kernel FAT_open, FAT_seek, FAT_append, path parsing and the return count of FAT_read.
- FatDriver.Driver.ReadFile: reads that start inside a 512-byte block, whose copy runs past the block, are not modelled.
- FatDriver.Driver.WriteFile: enough clusters must be free for the data and the one cluster appended past it; GrowExact says what happens otherwise. Disk reads and writes succeed, and sectors have 512 bytes.
- FatDriver.Driver.constructor: files in use, and the free clusters they grow by, lie below cluster 341, whose entries the first FAT sector holds (HeldExact); sectors have 512 bytes, the size of the driver's own table and buffer, which other sizes would overrun or leave half filled; directory scanning and printing are left out.
- BootFatReader.Reader.ReadFile: disk reads succeed while a file is read; no lookup a read makes along a FAT12 file may meet a split entry (Passes, decided by the window position and the cluster numbers); files hold less than 4 GiB. The root directory is read by consecutive sectors, as the code does.
- BootFatReader.Reader.OpenRoot: the root directory after FAT_Close, whose buffer is not reloaded, and FAT_Open, FAT_FindFile and FAT_Detect.
- ConsoleQueue.Std.Put: allocation of a node succeeds and fewer than 2^32 - 1 bytes are queued; steps are atomic.
- `libs/fat/fat.c`, DMA, processes, drivers, screen output, assembly and build scripts.
