# Memory management and interrupt queue of a small x86-64 kernel

This project models the parts of the kernel that are algorithms over mutable state, and proves what their
callers rely on. Run `dafny verify dfyconfig.toml` to check it.

* **Buddy allocator** (`Powers`, `ByteBits`, `Blocks`, `BuddyBitmaps`, `BuddyMetadata`, `Buddy`,
  `BuddyProperties`). The abstract state is the set of free units. The bitmap bytes and the cached counts are
  always the one canonical encoding of that set, so allocation, splitting, freeing and coalescing are specified by
  what they do to the set, and completeness, round trips, order independence and conservation follow.
* **Red-black tree** (`RbShape`, `RbTree`, `RbInsertion`, `RbSearch`, `RbRemoval`, `RbRemove`). Nodes are heap
  objects; a ghost tree and the ghost path back to the root say what the pointers mean.
* **Page tables** (`Paging`, `PageRights`, `PageIterators`, `PageFreeing`, `MmioPages`; `Dynmem`, `DynTables`,
  `DynPages`, `Leftovers`, `PagetableConstruct`, `KernelTables`; `FrameAllocator`, `MemoryInit`). Memory maps frames to
  tables of 512 entries, and a page's translation is the four-level walk of section 4.5 of the Intel 64 and IA-32
  Architectures Software Developer's Manual, volume 3A; what may be done at a page depends on the flags of every entry
  of the walk (section 4.6). Addresses are counted in pages of 4 KiB.
* **Memory map and MMIO ranges** (`HeapSort`, `MemoryMap`; `FreeIntervals`, `Pigeonhole`, `MmioFreeList`,
  `MmioMappings`, `MmioRuns`).
* **Slab allocator** (`LinkedRing`, `SlabPages`, `Slab`, `SlabBytes`). Pages by address, slots by offset, red zones
  and poison byte by byte; and the same page as its 4096 bytes, headers included.
* **Interrupt queue** (`RingBuffer`, `IntrLocks`, `EventLoop`). The main loop and the handlers as interleaved
  steps; a handler runs only while interrupts are on, `sti; hlt` is one step, and a pop is taken one memory access
  at a time.

What was found on the way, each with an exact condition:

* `rbtree_remove` uses a parent pointer it read before a recursive removal. With two children it is correct if and
  only if that removal does not rotate at the node (`RbRemove.Remove`, `RbRemove.StaleExactly`). The code is
  modelled as written.
* `pagetable_mmio_map` uses 2 MiB entries without looking at the physical address, and `mmio_alloc_mapping` does
  not align it: a page so covered translates correctly if and only if physical and virtual start agree modulo
  2 MiB (`MmioPages.TranslatesExactlyIff`).
* `mmio_dealloc_mapping` panics when no free interval lies above the range, as after allocating all of the last
  one (`MmioMappings.TakeThenGive`, `MmioMappings.WholeRangePanics`, `MmioRuns.FreeLive`).
* The factory of page tables keeps a table's address in 32 bits. It builds the right tables if and only if the pages
  that become tables fit (`PagetableConstruct.PagetableConstructDyn`; 513 pages from 4 GiB on are an input that goes
  wrong, `PagetableConstruct.CutAddress`).
* It does not clear the first three of them either. Nothing but the memory map is mapped in the lower half if and only
  if the entries that stay unused map nothing (`Leftovers.NothingBesideIff`), that is, where none of them links a
  table, if and only if all of them below the root table were empty at first (`Leftovers.NothingBesideUnlinked`);
  `PagetableConstruct.StaleEntryStaysMapped` is an input that goes wrong.
* `buddy_alloc_slice` multiplies a block's index by an `int` that is the size of a block only below level 19. The
  address it returns is right if and only if the block it cuts is at a level below 19 or is the first of its level
  (`Buddy.AddressRight`). It always is with less than 4 GiB (`BuddyProperties.SmallAreaRight`); in an area of 6 GiB
  even the first page is wrong (`BuddyProperties.FirstPageAstray`).
* In an area whose length is not a whole number of pages the last unit ends behind the area
  (`Buddy.BuddyBlocks.LastUnit`).
* Lengths above 2^63 make the search for a level run for ever, and the last of them get a single unit
  (`Buddy.NoShiftFits`, `Buddy.BuddyBlocks.AllocSlice`).
* `arraylist_shrink` may free pages still in use: a deallocation frees what it was asked to if and only if that is
  an aligned power of two of pages (`BuddyProperties.FreesExactly`); the pages that the list keeps stay in use if and
  only if the tail given back is a power of two (`BuddyProperties.Shrink`, `BuddyProperties.ShrinkFreesLivePage`).
* The strict assertion at line 43 of `libbuddy/src/buddy.c` fails for some memory sizes
  (`BuddyMetadata.InitAssertsExactly`).
* `linkedlist_pop_front` and `linkedlist_pop_back` return NULL on a list of one item
  (`LinkedRing.Ring.PopFront`, `LinkedRing.Ring.PopBack`).

## Model

| member | source | states |
|---|---|---|
| Buddy.BuddyBlocks.AllocSlice | libbuddy/src/buddy.c:132-173 | NULL, and no change, when no aligned block is wholly free of the least power of two of units that holds the length; otherwise the block is the leftmost piece of the lowest maximal free block at the lowest level that has one, it was wholly free, exactly its units leave the free set, and bitmaps and counts again encode that set. The address returned is the block's exactly when that level is below 19 or the block cut there is its first; the length returned, and `used`, are right when the fitting level is below 20. Lengths from 2^64 - 4095 on wrap to 0 in rounding and get one unit |
| Buddy.AddressRight | libbuddy/src/buddy.c:163-168 | with the shift of an `int`, the address computed for a block is right if and only if its level is below 19 or its index is 0 |
| Buddy.IntUnitIs | libbuddy/src/buddy.c:161 | `BUDDY_UNIT << idx` as a 32-bit `int`: the size of a block below level 19, the least `int` at 19, and 0 from 20 on |
| Buddy.BuddyBlocks.Dealloc | libbuddy/src/buddy.c:175-219 | with first and last the numbers of the units that hold the first and the last byte: exactly the aligned run, around the first, of the least power of two of units that is at least last - first + 1 joins the free set; none of it was free, as the caller owes; `used` drops by its size, and the coalesced bitmaps are again the canonical encoding; length 0 changes nothing |
| Buddy.BuddyBlocks.constructor | libbuddy/src/buddy.c:39-87 | given the assertions of `buddy_info_init`, for any start and length: the data begins at the least multiple of a page that holds the metadata of the whole length, the units are the least number that covers the rest, the levels as many as that number has binary digits, descriptors and bitmaps fit before the data, every unit is free, `used` is 0 and the bytes written are the canonical encoding of that |
| Buddy.BuddyBlocks.LastUnit | libbuddy/src/buddy.c:17-18 | the first unit begins where the metadata's pages end; the last unit begins inside the area, and ends inside it if and only if the length is a whole number of units |
| BuddyProperties.AllocThenDealloc | libbuddy/src/buddy.c:132-219 | where the address is right, allocating any length, wrapped ones included, and deallocating with the returned length, or with the requested one, restores every bitmap byte, every count and `used` |
| BuddyProperties.SmallAreaRight | libbuddy/src/buddy.c:163-168 | with up to 20 levels, that is below 4 GiB, no state of the allocator has an address go wrong |
| BuddyProperties.FirstPageAstray | libbuddy/src/buddy.c:163-168 | in an area of 6 GiB, all free, the address of the first page allocated comes out 8 GiB too low |
| BuddyProperties.AllocKeepsLive | libbuddy/src/buddy.c:132-173 | whatever the history, an allocation adds one block, disjoint from all live ones, and live blocks plus free units remain all units; the address returned is that block's under the condition of `AllocSlice` |
| BuddyProperties.LiveInAnyOrder | libbuddy/src/buddy.c:175-219 | any permutation of the live blocks is a listing of the live blocks |
| BuddyProperties.FreeAll | libbuddy/src/buddy.c:50-219 | deallocating the live blocks, of sizes that are an `int`, in whatever order they are listed restores the exact state right after initialisation |
| BuddyProperties.Conservation | libbuddy/src/buddy.c:161-162 | in every valid state `used` plus the unit size times the sum of count times 2^level is the unit size times the number of units |
| BuddyProperties.StateIsFunctionOfFreeSet | libbuddy/src/buddy.c:50-219 | two allocators of one size have the same free units if and only if they have the same bitmap bytes, and then the same counts and `used` |
| BuddyProperties.FreeUnitInOneBlock | libbuddy/src/buddy.c:99-117 | no free unit lies in marked blocks of two levels |
| BuddyProperties.InitialTiling | libbuddy/src/buddy.c:62-79 | after initialisation the marked blocks tile all units along the binary expansion of their number: level k has one, ending at the k-th truncation, exactly when bit k is set |
| BuddyProperties.FreesExactly | libbuddy/src/buddy.c:175-219 | after a deallocation, the units that became free are exactly those from the first byte's to the last byte's if and only if their number is a power of two and the first a multiple of it |
| BuddyProperties.Shrink | kernel/src/memory.c:74-83 | `arraylist_shrink` of a list that has a block of 2^d pages: of the tail of m pages it gives back, the last run of the least power of two of at least m pages becomes free, and nothing else; the pages kept stay in use if and only if m is a power of two |
| BuddyProperties.ShrinkFreesLivePage | kernel/src/memory.c:74-83 | shrinking a list of four pages to one page, wherever it is, frees its first page as well, which is still in use |
| Blocks.AddBlock | libbuddy/src/buddy.c:197-216 | freeing a block whose buddy is not wholly free changes the set of maximal free blocks by that block only |
| Blocks.RemoveBlock | libbuddy/src/buddy.c:151-152 | taking a maximal free block changes the set of maximal free blocks by that block only |
| Blocks.MaximalAbove | libbuddy/src/buddy.c:144-149 | every wholly free block lies in a maximal one at its own level or a higher level that exists, so the upward search misses nothing |
| BuddyBitmaps.EncodingUnique | libbuddy/src/buddy.c:95-117 | bitmap bytes, padding included, and counts are determined by the set of free units |
| BuddyBitmaps.FreeUnitMarked | libbuddy/src/buddy.c:99-101 | a unit is free exactly when some block above it is marked |
| BuddyBitmaps.BuddiesNotBothMarked | libbuddy/src/buddy.c:203-216 | a block and its buddy are never both marked |
| BuddyBitmaps.BlockHasSlots | libbuddy/src/buddy.c:203-204 | the buddy of every block has a bit within its level, so that reading the buddy of the last block of an odd level meets a padding bit |
| BuddyBitmaps.CountsConserve | libbuddy/src/buddy.c:103-117 | the sum of count times 2^level over all levels is the number of free units |
| Buddy.BuddyBlocks.GetFirst1 | libbuddy/src/buddy.c:119-130 | on a level with a mark, the scan stops in bounds at the lowest marked block |
| Buddy.BuddyBlocks.Set1 | libbuddy/src/buddy.c:103-109 | exactly the named bit is set, and the count grows exactly when it was clear |
| Buddy.BuddyBlocks.Set0 | libbuddy/src/buddy.c:111-117 | exactly the named bit is cleared, and the count drops exactly when it was set |
| Buddy.BuddyBlocks.FillLevels | libbuddy/src/buddy.c:62-79 | the initialisation loop leaves every level marked, or not, as the all-free state requires |
| Buddy.BuddyBlocks.FindLevel | libbuddy/src/buddy.c:144-149 | the lowest level from the fitting one on whose count is not zero; the levels skipped have no maximal free block |
| Buddy.BuddyBlocks.TakeLeftmost | libbuddy/src/buddy.c:151-159 | splitting down leaves free exactly the units of the chosen block outside its leftmost piece |
| Buddy.BuddyBlocks.BlockToFree | libbuddy/src/buddy.c:183-195 | the range assertions hold for a range inside the area; the level is the lowest whose blocks hold the units from the first byte's to the last byte's, and the index is the first unit's number divided by their size |
| Buddy.BuddyBlocks.FreeBlock | libbuddy/src/buddy.c:195-216 | the climb terminates and adds exactly the units of the block it starts from |
| Buddy.BitmapIndexForSize | libbuddy/src/buddy.c:89-93 | the level of the smallest block that is large enough |
| Buddy.FitUnique | libbuddy/src/buddy.c:89-93 | that level is the only one whose blocks are large enough while those half as large are not |
| Buddy.NoShiftFits | libbuddy/src/buddy.c:89-93 | for sizes above 2^63 no level stops the search, since the shifted unit wraps to 0 from level 52 on |
| Buddy.OffsetProduct | libbuddy/src/buddy.c:166 | the offset of a block is its index times the block size |
| BuddyMetadata.CalcMetadata | libbuddy/src/buddy.c:12-37 | units, levels and metadata length are those of the level sizes summed up, and the second assertion always holds given the first |
| BuddyMetadata.MetadataMonotone | libbuddy/src/buddy.c:39-43 | less data never needs more metadata, so the bitmaps fit the area reserved from the larger length |
| BuddyMetadata.InitAssertsExactly | libbuddy/src/buddy.c:39-48 | on n whole pages all assertions hold if and only if n is at least 3 and it is not so that the metadata is a whole number of pages and the rest needs just as much |
| BuddyMetadata.StrictAssertionFails | libbuddy/src/buddy.c:43 | the strict assertion does fail, for 15466 pages |
| RbInsertion.Insert | libcoll/src/rbtree.c:83-104 | a node with a new key is added at its place in key order and the result is a sorted red-black tree with consistent parent pointers; a key already present changes nothing |
| RbInsertion.InsertionBalancing | libcoll/src/rbtree.c:106-159 | through all five cases and the recursion on the grandparent the fix-up terminates with a red-black tree over the same nodes in the same order |
| RbRemove.Remove | libcoll/src/rbtree.c:161-221 | exactly the node is taken out and a sorted red-black tree with consistent links is left, for every node whose parent pointer does not go stale; where it does, what hangs off the root is no tree over the remaining nodes in order |
| RbRemove.StaleExactly | libcoll/src/rbtree.c:162-176 | the pointer read at line 162 goes stale exactly when taking out the least node on the right shortens that side and the left side has a red node to give |
| RbRemove.StaleExample | libcoll/src/rbtree.c:162-176 | the tree 20, 10, 30, 5 is a sorted red-black tree for which removing 20 goes wrong |
| RbRemove.RemoveSimple | libcoll/src/rbtree.c:191-220 | the path for at most one child, exactly as written: a sorted red-black tree over the other nodes in order |
| RbRemoval.RemovalBalancing | libcoll/src/rbtree.c:223-299 | all six cases and the upward recursion: from one black node short on one side to a red-black tree over the same nodes in the same order; and which node gets a new parent on the way |
| RedBlack.RotateLeft | libcoll/src/rbtree.c:310-333 | all parent, child and root pointers are those of the rotated tree |
| RedBlack.RotateRight | libcoll/src/rbtree.c:335-358 | all parent, child and root pointers are those of the rotated tree |
| RbSearch.Find | libcoll/src/rbtree.c:37-60 | the match, twice, if there is one; else the neighbours around the gap and the node below which the key belongs |
| RbSearch.FindBrackets | libcoll/src/rbtree.c:37-60 | `lower` is the greatest node not above the key and `upper` the least not below it |
| RbSearch.OnlyAttachPoint | libcoll/src/rbtree.c:93-100 | attaching the node anywhere but where the search says leaves the tree unsorted |
| RbSearch.First | libcoll/src/rbtree.c:62-64 | the first node in key order, NULL for an empty tree |
| RbSearch.Next | libcoll/src/rbtree.c:66-81 | the node next in key order, NULL after the last |
| RbSearch.MinNode | libcoll/src/rbtree.c:301-308 | the first node in order of a subtree, at the end of its left spine |
| RbSearch.Walk | libcoll/src/rbtree.c:62-81 | walking from the first node by the next one visits every node once, in key order |
| RbShape.HeightBound | libcoll/src/rbtree.c:106-159 | 2 to the height of a red-black tree is at most the square of its size plus one |
| PagetableConstruct.PagetableConstructDyn | kernel/src/arch/x86_64/memory.c:179-198 | it goes right if and only if the pages that become tables after the first three have addresses that fit 32 bits; otherwise a walk is led astray. Where it goes right every page of the memory map, in order from DYNMEM_START_VIRT on, translates to itself, present and writable by every entry of its walk; the tables on these walks lie in the first `dyn_pagetable_len` pages; frames outside the map and the upper half of the root table are as before; and nothing else in the lower half is mapped if and only if the entries of the root and the first three pages that stay unused map nothing. Of fewer than three pages none is mapped |
| Leftovers.NothingBesideIff | kernel/src/arch/x86_64/memory.c:121-163 | no page of the lower half outside the range is mapped if and only if no entry that stays unused in the root or the first three pages, as it was at first, maps a page |
| Leftovers.NothingBesideUnlinked | kernel/src/arch/x86_64/memory.c:121-163 | where none of these entries links a table: if and only if all of them below the root table were empty |
| Leftovers.LeftMapped | kernel/src/arch/x86_64/memory.c:121-163 | and how each page outside the range is mapped: by the entry that was there at first where its walk leaves the tables made |
| PagetableConstruct.StaleEntryStaysMapped | kernel/src/arch/x86_64/memory.c:101-142 | three pages, the third of which holds one entry at first: the page behind the three is mapped by it |
| PagetableConstruct.CutAddress | kernel/src/arch/x86_64/memory.c:144-163 | 513 pages from 4 GiB on, whatever memory holds: the construction is led astray |
| DynPages.Factory.NextMapped | kernel/src/arch/x86_64/memory.c:165-177 | one more page is mapped, the counters move on, and the number of tables taken is the closed form of the number of pages; or the walk to the page is led astray, exactly when the address of a table it takes does not fit 32 bits |
| DynPages.Factory.NextRecur | kernel/src/arch/x86_64/memory.c:144-163 | the next entry of a level is set to the address; tables, indices and next table advance as an odometer; entries in use and pages that hold no table are left alone; exactly when the tables it takes fit 32 bits |
| DynPages.Factory.NewTable | kernel/src/arch/x86_64/memory.c:149-159 | the table taken is mapped already when it is cleared through its virtual address, it is linked one level up, and its level has room, if its address and those of the tables above fit the 32 bits of `next_phys`; else some table of the walk is linked with its address cut |
| DynTables.LinkAstray | kernel/src/arch/x86_64/memory.c:157-158 | a link that was cut to 32 bits leads the walk to another frame |
| DynPages.Factory.ConstructDyn3 | kernel/src/arch/x86_64/memory.c:91-119 | through the table that links to itself the three pages become one table of each level, each mapped by the third, and the temporary entry is gone |
| DynPages.WindowWalk | kernel/src/arch/x86_64/memory.c:94-108 | the walk to the temporary window goes through the temporary table three times and ends at the page its entry names |
| DynPages.Factory.constructor | kernel/src/arch/x86_64/memory.c:130-142 | the factory starts with its counters at the entries the first three pages will use |
| DynPages.NewTablesCount | kernel/src/arch/x86_64/memory.c:149-159 | the tables the next page needs are those counted, and they fit in the pages mapped so far |
| DynTables.DirectoryMaps | kernel/src/arch/x86_64/memory.c:179-198 | in every state of the construction, the walk to each page mapped so far ends at that page |
| DynTables.DirectoryUsable | kernel/src/arch/x86_64/memory.c:144-163 | and the walk to each page mapped so far is present and writable in every entry |
| DynTables.SetUnused | kernel/src/arch/x86_64/memory.c:161 | setting an entry that is not in use keeps every walk to a mapped page |
| PagetableConstruct.FirstPagesHold | kernel/src/arch/x86_64/memory.c:149-159 | each of the first `dyn_pagetable_len` bytes' pages holds a table; none is wasted |
| KernelTables.PagetableConstructKernel | kernel/src/arch/x86_64/memory.c:80-90 | the kernel's two static tables and the last entry of the root table |
| KernelTables.ConstructTables | kernel/src/arch/x86_64/memory.c:200-205 | both constructions together: the kernel's tables outlast the second, and the address space is the kernel's three 2 MiB entries, the pages of the memory map, and what unused entries of the first three pages mapped already; where such an entry links a table, nothing is said of the pages below it |
| KernelTables.BootTree | kernel/src/arch/x86_64/memory.c:80-198 | the tables that are left form one tree from the root table, with each table in the place its position in the walk calls for |
| KernelTables.BootLinksUsable | kernel/src/arch/x86_64/memory.c:80-198 | every entry that links one of these tables is present and writable |
| KernelTables.AddressSpace | kernel/src/arch/x86_64/memory.c:80-198 | how every one of the 2^36 virtual pages is mapped after `pagetable_construct`, those that unused entries of the first pages still map included |
| KernelTables.TablesAre | kernel/src/arch/x86_64/memory.c:80-198 | the frames that hold tables are the root, the kernel's two and exactly the first pages of the memory map |
| KernelTables.TablesAlone | kernel/src/arch/x86_64/memory.c:80-198 | no walk leaves these tables |
| Dynmem.VirtToPhys | kernel/src/arch/x86_64/memory.c:40-54 | the unit at the offset in the entries put one after another; a panic exactly past the end |
| Dynmem.PhysToVirt | kernel/src/arch/x86_64/memory.c:56-68 | an offset that stands for the address; a panic exactly when no entry holds the address |
| Dynmem.RoundTrips | kernel/src/arch/x86_64/memory.c:40-68 | on a normalised map the two translations are inverse to each other, both ways |
| Dynmem.UnitsIncrease | kernel/src/arch/x86_64/memory.c:40-68 | offsets stand for addresses in increasing order |
| Dynmem.UnitsCover | kernel/src/arch/x86_64/memory.c:40-68 | the addresses translated are exactly those inside entries |
| MemoryInit.MemoryInit | kernel/src/memory.c:256-270 | from the firmware's memory map on: it goes through if and only if the addresses of tables fit and the area left passes the assertions of `buddy_info_init`; then all of memory that the firmware offers from 8 MiB on is mapped, every byte the buddy allocator manages is mapped, present and writable by every entry of its walk, to a page that holds no page table, every unit is free, the frames that page tables may take are exactly those of the free units, the whole address space is as `pagetable_construct` left it, all links between tables are present and writable, and the whole MMIO range is one free interval |
| FrameAllocator.GetOrAlloc | kernel/src/arch/x86_64/memory.c:243-252 | with the buddy allocator itself: the table made for a missing one is in the frame of a unit that was free and is not any more, and is linked with the flags given; none exactly when no unit is free; the other links are as before, and the frames that page tables may take stay those of the free units |
| FrameAllocator.FreeIfEmpty | kernel/src/arch/x86_64/memory.c:321-332 | the table given back was in the frame of a unit that was not free, and is, if and only if the table was empty; the frames that page tables may take stay those of the free units |
| FrameAllocator.AllocFrame | kernel/src/memory.c:235-237 | one page of the allocator, translated: the frame of one unit that was free; none exactly when none was |
| FrameAllocator.FreeFrame | kernel/src/memory.c:246-248 | deallocating a page by the address that its frame translates to frees exactly its unit |
| MmioPages.PageTables.Map | kernel/src/arch/x86_64/memory.c:269-295 | each page of an unmapped range maps to phys plus its offset, in 2 MiB entries exactly for the blocks inside the range that have no page table yet; a bit of the flags is set in every entry of its walk if and only if it is in the flags given and in the links that were there before; new links have the flags given; no other page's translation or rights change; no frame is lost. It goes through if and only if there are at least as many frames as tables missing on the walks of the range; else it faults when no frame is left, and exactly the pages before are mapped |
| PageRights.AllowsIff | kernel/include/arch/x86_64/memory.h:31-45 | a bit is set in every entry of the walk to a page exactly when it is in the flags of its mapping and in every link on the way |
| PageRights.LinkNewLinks | kernel/src/arch/x86_64/memory.c:246-250 | linking a cleared table changes no link that is met on any walk, and the new one has the flags given |
| MmioPages.MissingTable | kernel/src/arch/x86_64/memory.c:273-286 | the missing tables are those that the walk to some page of the range does not meet and that mapping the page uses: two for a page under a 2 MiB entry, three else |
| MmioPages.SufficesAlways | kernel/src/arch/x86_64/memory.c:273-286 | three frames for each page are always enough |
| MmioPages.PageTables.Unmap | kernel/src/arch/x86_64/memory.c:297-334 | it goes through if and only if every page of the range has a page table, whatever its entry, or is mapped by a 2 MiB entry that does not begin before the range; else an assertion fails at the first page that is not so. The pages before it, up to the end of a 2 MiB entry that reaches beyond the range, are unmapped, no other translation changes, no link changes but those that go, tables are only given back, nothing is mapped below one that is, no frame is lost, and no empty table stays behind except on the way to where it ended |
| MmioPages.PageTables.UnmapAll | kernel/src/arch/x86_64/memory.c:297-334 | a range that is mapped, by entries that map no other page, is unmapped, and exactly it |
| MmioPages.PageTables.constructor | kernel/src/arch/x86_64/memory.c:80-205 | any tree of tables, with frames for more that hold no table |
| MmioPages.PageTables.MapThenUnmap | kernel/src/arch/x86_64/memory.c:269-334 | unmapping right after mapping goes through and restores the translation and the rights of every page, if there were frames enough to map |
| MmioPages.TranslatesExactlyIff | kernel/src/arch/x86_64/memory.c:277-293 | a page of a mapped range translates to its own offset if and only if no 2 MiB entry covers it or phys and virtual start agree modulo 2 MiB |
| MmioPages.MisalignedStart | kernel/src/arch/x86_64/memory.c:277-281 | the first page of a block mapped by a 2 MiB entry translates right if phys is a multiple of 2 MiB, is one page off if it is one page more, and faults otherwise |
| MmioPages.PageTables.MapStep | kernel/src/arch/x86_64/memory.c:273-294 | one round maps 512 pages exactly when the page starts a block, 512 pages are left and the block has no page table; the iterator moves on accordingly |
| MmioPages.PageTables.UnmapStep | kernel/src/arch/x86_64/memory.c:301-333 | one round passes exactly when the page has a page table or begins a block that a 2 MiB entry maps; it unmaps the page or the 2 MiB entry, and gives back a table the iterator leaves only when it has no entry in use but those on the way to the page; tables not on the way keep their contents |
| MmioPages.PageTables.GetOrAlloc | kernel/src/arch/x86_64/memory.c:243-252 | the table below the entry, made if missing and then linked with the flags given; a fault exactly when it is missing and no frame is left; no page translates differently, and no other link changes |
| MmioPages.PageTables.FreeIfEmpty | kernel/src/arch/x86_64/memory.c:321-332 | the one table that may go had no entry in use, nothing is mapped below it, and no page translates differently |
| MmioPages.PageTables.IsEmpty | kernel/src/arch/x86_64/memory.c:259-266 | true exactly when no entry is present |
| MmioPages.TidyStep | kernel/src/arch/x86_64/memory.c:321-332 | if no empty table was left behind before a round, none is after it |
| Paging.LookupByRole | kernel/src/arch/x86_64/memory.c:243-257 | in a tree of tables, the walk to a page meets exactly the tables placed for its digits |
| Paging.WriteLeaf | kernel/src/arch/x86_64/memory.c:280-288 | setting or clearing a 4 KiB or 2 MiB entry changes the translation of the pages under it only |
| Paging.LinkNewSame | kernel/src/arch/x86_64/memory.c:246-250 | linking a cleared table changes no translation |
| Paging.UnlinkSame | kernel/src/arch/x86_64/memory.c:321-332 | unlinking an empty table changes no translation |
| PageIterators.FromVirtDigits | kernel/src/arch/x86_64/memory.c:211-218 | the masks and shifts yield the four base-512 digits that the walk uses |
| PageIterators.NextIsPlusOne | kernel/src/arch/x86_64/memory.c:220-241 | stepping the iterator is adding one page, carries included |
| PageIterators.NextIsPlusBlock | kernel/src/arch/x86_64/memory.c:220-235 | stepping the third index from the start of a block is adding 512 pages |
| HeapSort.Sort | libfreec/src/stdlib.c:15-46 | for a comparator that orders all values up to ties, the array ends up an ordered permutation of itself, through both phases of the one loop |
| HeapSort.RepairHeap | libfreec/src/stdlib.c:28-44 | a heap but for its first element becomes a heap; the sorted tail is left alone |
| HeapSort.FirstIsGreatest | libfreec/src/stdlib.c:24-25 | the element popped is at least every element of the heap |
| MemoryMap.ConstructMmapDyn | kernel/src/memory.c:95-130 | the entries left are available, page-aligned, not empty, sorted and disjoint, and cover exactly the pages from 8 MiB on that lie inside some available entry of the input, in any order and overlapping |
| MemoryMap.TrimAll | kernel/src/memory.c:100-120 | the first loop: what it keeps of each entry covers, together, exactly those pages |
| MemoryMap.Compact | kernel/src/memory.c:122-129 | the second loop: the available entries, in order, at the front |
| MemoryMap.StepCovers | kernel/src/memory.c:107-119 | cutting an entry off at the end of earlier ones loses no page, since earlier entries start no later |
| MemoryMap.SpansUnits | kernel/src/memory.c:95-130 | the result is a normalised map whose pages are exactly the covered ones |
| MmioMappings.Mappings.AllocMapping | kernel/src/memory.c:152-185 | the first interval long enough loses its front or goes; its pages, free and unmapped before, are mapped to what `pagetable_mmio_map` maps them to, which is the physical page at the same offset except where `TranslatesExactlyIff` says otherwise; present and writable by every entry of the walk if the links that were there before are; a panic exactly when no interval is long enough, and a fault exactly when there are fewer frames than tables missing |
| MmioMappings.Mappings.DeallocMapping | kernel/src/memory.c:187-233 | the whole pages that the bytes span join the free list in canonical form and are unmapped, whether mapped or not; or one of three panics, each exactly when its condition holds: two before anything happens, the third at the first page that `pagetable_mmio_unmap` does not pass |
| MmioMappings.Mappings.AllocMisaligned | kernel/src/memory.c:152-185 | the first 2 MiB mapped, for which two frames are enough: their first page translates right exactly when the physical start is a multiple of 2 MiB |
| MmioMappings.Mappings.AllocThenDealloc | kernel/src/memory.c:152-233 | unless allocating faults, which it does exactly for want of frames, deallocating right after restores the interval list and every translation, except after taking all of the last free interval, when it panics |
| MmioMappings.TakeThenGive | kernel/src/memory.c:152-233 | on the list alone: the exception is exact |
| MmioMappings.WholeRangePanics | kernel/src/memory.c:158-228 | a range of one interval taken as a whole leaves an empty list, into which nothing can be given back |
| MmioRuns.AllocLive | kernel/src/memory.c:152-185 | in any state of a run: one more live range, apart from the others, all of which stay mapped as they were; live ranges and free intervals make up the whole range, each page once; a panic and a fault exactly as `AllocMapping` says |
| MmioRuns.FreeLive | kernel/src/memory.c:187-233 | a live range goes and the others stay mapped as they were; it panics exactly when no page above the range is free, or when the pages beside it are not free and 24 intervals are |
| MmioRuns.FreeAll | kernel/src/memory.c:152-233 | giving back all live ranges in any order restores the one free interval and every translation, unless it panics; it cannot when the last page is free and at most 23 ranges are live |
| MmioRuns.Run | kernel/src/memory.c:152-233 | over any sequence of requests the invariant holds, and the free intervals and held ranges are those that the requests add up to one by one on the list alone; every page handed out is present and writable by every entry of its walk, if all links were at first; where it stops, all requests before could be answered and the next is a panic on the list, or an allocation that finds no frame left |
| MmioRuns.LiveUsable | kernel/src/memory.c:152-185 | in any state of a run, if all links between tables were present and writable at first, as `memory_init` leaves them, so is the whole walk to every page handed out |
| MmioRuns.FewIntervals | kernel/src/memory.c:141-149 | there are at most as many free intervals as live ranges, when a live range has no free page right below it |
| MmioMappings.Mappings.constructor | kernel/src/memory.c:132-139 | the whole range is one free interval |
| MmioMappings.WholePages | kernel/src/memory.c:155-156 | the pages of a byte range, no more |
| MmioFreeList.FreeList.TakeFirstFit | kernel/src/memory.c:158-179 | first fit: one interval is shortened or removed, and a removed node is marked free |
| MmioFreeList.FreeList.GiveBack | kernel/src/memory.c:194-228 | which of the three branches, joins or panics applies, and the interval list after it |
| MmioFreeList.FreeList.NewNode | kernel/src/memory.c:141-149 | a node that is not in the list; a panic exactly when all 24 are in it |
| FreeIntervals.TakesExactly | kernel/src/memory.c:171-176 | exactly the pages taken leave the free set, and they were free |
| FreeIntervals.GivesExactly | kernel/src/memory.c:209-225 | exactly the pages given back join the free set |
| FreeIntervals.WithCanonical | kernel/src/memory.c:209-225 | the list stays sorted, disjoint, not adjacent, and without empty intervals |
| FreeIntervals.CanonicalUnique | kernel/src/memory.c:132-233 | a set of pages has only one canonical list |
| FreeIntervals.PlaceExists | kernel/src/memory.c:206-207 | a range that is not free, with a free interval above it, passes the assertion |
| Slab.SlabAllocator.Alloc | libslab/src/slab.c:209-229 | a panic exactly when a page has a free slot and a byte of the slot that would be given, of its object or its red zones, was overwritten; NULL exactly when no page has a free slot and none is offered; otherwise one object joins the live ones, all zeros, and no other object changes |
| Slab.SlabAllocator.Dealloc | libslab/src/slab.c:231-247 | panics exactly when the slot is not an object or a byte of its red zones was overwritten; otherwise exactly that object goes, with the page if it was its last, and no other object changes |
| Slab.SlabAllocator.OverrunFound | libslab/src/slab.c:80-83 | a client that writes another byte than 0xe3 into a red zone of its object makes deallocating it panic |
| Slab.SlabAllocator.UseAfterFreeFound | libslab/src/slab.c:85-96 | a client that writes another byte than 0xf2 to an object it gave back makes the allocation of that slot panic |
| Slab.SlabAllocator.FreeAll | libslab/src/slab.c:231-247 | deallocating all live objects, in whatever order they are listed, leaves no page and an empty partial list |
| Slab.SlabAllocator.ClientWrite | libslab/src/slab.c:80-87 | a write inside a live object keeps every check of red zones and poison passing, and changes no other object; that it cannot reach a header is `SlabBytes.ClientWriteBytes` |
| Slab.SlabAllocator.TakeSlot | libslab/src/slab.c:217-228 | the head page gives the front of its chain, and leaves the partial list exactly when that was its last |
| Slab.SlabAllocator.AllocPage | libslab/src/slab.c:197-207 | the new page is the only one in the partial list |
| Slab.ObjectsApart | libslab/src/slab.c:164-166 | no two live objects overlap |
| Slab.ObjectAligned | libslab/src/slab.c:40-54 | a live object lies inside its page, at a multiple of the alignment |
| SlabBytes.HeadersApart | libslab/src/slab.c:14-25 | no page header and no slot header overlaps a payload |
| SlabBytes.ClientWriteBytes | libslab/src/slab.c:154-176 | on the 4096 bytes of the page, headers included: a byte written inside a live object leaves `free_index`, `alloc_count` and every magic and next as they are, and the page in order |
| SlabBytes.TakesBytes | libslab/src/slab.c:154-170 | the five writes of `page_pop_front` and `slot_on_alloc` to the bytes do to the page what the model does |
| SlabBytes.ReturnsBytes | libslab/src/slab.c:101-106 | and so the writes of `slot_on_dealloc` and `page_push_front` |
| SlabBytes.PageInitBytes | libslab/src/slab.c:133-152 | the writes of `page_init` and `slot_init` to any 4096 bytes make them those of a page all of whose slots are free, poisoned, red-zoned and chained in order |
| SlabBytes.ChecksAlike | libslab/src/slab.c:80-106 | what the checks read from the bytes is what the model says |
| SlabBytes.AnyBytes | libslab/src/slab.c:133-137 | whatever bytes a page has when it comes from the page allocator, they stand for some page of the model |
| SlabBytes.OnePage | libslab/src/slab.c:14-25 | bytes stand for one page only: counters, slot headers and slot contents are determined by them |
| SlabPages.SlabInit | libslab/src/slab.c:178-195 | the layout has the least payload offset, slot size and first slot of all layouts for objects of this size and alignment: the least multiples of the alignment that leave 4 bytes for the header and 16 for each red zone; a panic exactly when there is no such layout |
| SlabPages.PageInit | libslab/src/slab.c:133-152 | every slot is free, poisoned and red-zoned, and the chain runs through all of them in order |
| SlabPages.TakeOk | libslab/src/slab.c:154-170 | the front slot passes all allocation checks, and taking it leaves the page in order |
| SlabPages.ReturnOk | libslab/src/slab.c:101-106 | the deallocation check passes exactly for an object, and returning it leaves the page in order |
| SlabPages.TakeThenReturn | libslab/src/slab.c:154-176 | taking a slot and returning it restores the page byte for byte |
| SlabPages.Capacity | libslab/src/slab.c:139-151 | the number of slots of a page, from the strict comparison |
| SlabPages.ChainAndObjects | libslab/src/slab.c:154-176 | length of the free chain plus `alloc_count` is the capacity, and the chain is empty exactly when all slots are taken |
| LinkedRing.Ring.InsertBefore | libcoll/src/linkedlist.c:55-60 | the node joins the ring in front of the link, both ways round |
| LinkedRing.Ring.InsertAfter | libcoll/src/linkedlist.c:62-67 | the node joins the ring behind the link, both ways round |
| LinkedRing.Ring.Remove | libcoll/src/linkedlist.c:69-72 | exactly the node leaves the ring |
| LinkedRing.Ring.IsEmpty | libcoll/src/linkedlist.c:17-19 | true exactly for a ring without items |
| LinkedRing.Ring.PopFront | libcoll/src/linkedlist.c:37-44 | NULL, and no change, for a ring of one item too; otherwise the first item leaves |
| LinkedRing.Ring.PopBack | libcoll/src/linkedlist.c:46-53 | NULL, and no change, for a ring of one item too; otherwise the last item leaves |
| EventLoop.RunSafe | kernel/src/kmain.c:53-69 | over every interleaving of main and interrupt steps: the messages accepted are those that interrupts brought when the queue was not full; dispatched messages, the one in hand and the queued ones are the accepted ones in order; interrupts are on exactly between messages, in dispatching without a lock, and when halted; a pop runs with interrupts off and never on an empty queue, and the CPU is not halted while messages wait |
| EventLoop.IsrExactly | kernel/src/interrupt.c:16-22 | an interrupt brings its message to the end of the queue if that is not full, and else leaves it as it is; it wakes a halted CPU and changes nothing else |
| EventLoop.IsrPossible | kernel/src/interrupt.c:16-22 | an interrupt is possible exactly when interrupts are on |
| EventLoop.Drains | kernel/src/kmain.c:53-69 | from every state of a run without a lock held, the main loop left alone dispatches all accepted messages in order and halts |
| EventLoop.StepKeeps | kernel/src/kmain.c:53-69 | every step keeps the invariant |
| EventLoop.NeverStuck | kernel/src/kmain.c:53-69 | in every state of a run the main loop can go on, or release a lock, or is halted and can be woken |
| EventLoop.FlagRestored | kernel/src/spinlock.c:29-40 | after nested locks are released the interrupt flag is what it was |
| EventLoop.TakenMeansHeld | kernel/src/spinlock.c:10-16 | a lock is found taken exactly when the main loop holds it, and interrupts are off then |
| EventLoop.OutOfOrder | kernel/src/spinlock.c:35-40 | of several locks held, releasing one turns interrupts on with the others still taken if and only if it is the first and messages are being dispatched |
| RingBuffer.IntrQueue.TryPush | kernel/src/interrupt.c:16-22 | the message is appended unless the queue is full, in which case it is turned away |
| RingBuffer.OfferedQueue | kernel/src/interrupt.c:16-22 | what a push that is turned away by a full queue makes of the queue, in `TryPush` and in the interrupt step alike |
| RingBuffer.IntrQueue.TryPop | kernel/src/interrupt.c:24-31 | the oldest message, unless the queue is empty |
| RingBuffer.IntrQueue.PushIndex | libcoll/src/ringbuffer.c:21-31 | the old tail; the tail wraps |
| RingBuffer.IntrQueue.PopIndex | libcoll/src/ringbuffer.c:33-43 | the old head; the head wraps and the count drops |
| RingBuffer.PushQueue | libcoll/src/ringbuffer.c:21-31 | pushing appends to the queue that the indices stand for |
| RingBuffer.PopQueue | libcoll/src/ringbuffer.c:33-43 | popping drops its first, whose slot keeps the message |
| IntrLocks.IntrLock.Acquire | kernel/src/spinlock.c:29-33 | the flag is saved, interrupts are off, and it is a panic exactly when the lock is taken |
| IntrLocks.IntrLock.Release | kernel/src/spinlock.c:35-40 | the lock is free, and interrupts are on if they were when it was taken |
| IntrLocks.Nested | kernel/src/spinlock.c:29-40 | locks taken one inside another, to any depth: none is found taken, and interrupts are as before at the end |

## Left out

- Buddy.BuddyBlocks.AllocSlice: lengths above 2^63 that do not wrap to 0 are excluded, because the search for a level does not end for them (`Buddy.NoShiftFits`). A shift of `BUDDY_UNIT` past the width of `int` is taken to cut bits off, as two's complement does; areas of more than 32 levels, 16 TiB and more, are excluded, because a shift by 32 or more means nothing.
- Buddy.BuddyBlocks.Dealloc: the freed block's level stays below 19, because the `int` that the source divides by is negative at 19 and 0 from there on; and the area is made of whole pages, as the kernel passes it. What the computed block holds is the caller's duty, as in the source.
- Machine widths elsewhere: sizes and addresses are natural numbers, and no other sum is taken to wrap at 64 bits. The 16-bit fields of slabs fit by the layout.
- PagetableConstruct.PagetableConstructDyn: stops at the first walk led astray; what the source goes on to write through it is not modelled. Memory maps of 2^35 - 512 pages or more, where the source asserts, are excluded.
- MemoryInit.MemoryInit: the entries of the first three pages that stay unused may map pages but link no table, else tables outside the model would be part of the tree. What the first three pages hold beside these is free.
- KernelTables.BootTree: the same of those entries.
- FrameAllocator.GetOrAlloc: called where no address of the allocator goes wrong, and of a table in the allocator's area when one is given back; `PageTables` itself works on the set of frames.
- Entry encoding: an entry is its frame, its size bit and its other flags, not a 64-bit word; flags carry the present bit, as the source asserts, and not the size bit.
- MmioPages.PageTables.Map: the pages of the range are unmapped before, as `mmio_alloc_mapping` makes sure. Virtual pages are numbered by their 36 translated bits, and ranges end before the last of them, where the iterator panics. TLB flushes are no-ops. The allocator is the set of frames it can still hand out.
- Address arithmetic of `phys_to_virt` for the kernel image and the boot-time tables: the root table, the kernel's tables and the temporary table are written directly.
- MmioMappings.Mappings.DeallocMapping: of at least one byte; after the panic in the middle of unmapping only the list, the tables and what is unmapped by then are described.
- MmioRuns.Run: requests to free a range that is not live are not made, since callers free what they were given; a run ends at its first panic or fault.
- Memory-map buffer: the static buffer of 128 entries; the model's array is as long as the firmware's map.
- Slab.SlabAllocator.Alloc: the page allocator is a parameter that offers a page or none; alignments are powers of two, so that rounding by a mask is rounding to a multiple.
- Slab.SlabAllocator.Dealloc: the damage that is found is to the body of the slot at hand; slot headers, and other slots, are in order.
- Slab.SlabAllocator.TakeSlot: the class keeps headers apart from bytes; that the bytes alone carry them is proved of one page in `SlabBytes`, where the two pointers of the link stand for 16 bytes without contents.
- LinkedRing.Ring and Slab.SlabAllocator: links and pages are named by address in maps, not by typed pointers; a page and its link share an address, as in the source.
- MmioFreeList.FreeList: list links are indices into the node pool, with one more for the dummy.
- EventLoop: message handlers and drawing are steps that take and release interrupt locks only; a handler pushes one message; one CPU.
- Infinite loop of `kmain`: stated over finite runs of every length; that some step can always be taken is proved, fairness is not claimed.
- Swapping elements byte by byte in `sort`: elements are swapped whole.
- Graphics, terminals, serial and PS/2 drivers, boot code, descriptor tables, `snprintf`, `arraylist.c`, `singlylist.c` and `string.c` as such, and all printing and self-test code: output, hardware calls, or code that adds only easy members.
