# Vectra kernel: memory, page tables and object protocol

A Dafny model of the three connected cores of the Vectra kernel, with proofs of what they promise:

1. **Page tables on the frame allocator.** The AArch64 four-level tables (section D8.3 of the Arm ARM, DDI 0487) and the RISC-V
   Sv39 tables (sections 4.3.2 and 4.4 of the RISC-V privileged architecture 20211203) live in frames of 512 64-bit words.
   `PageTree` states once, for both formats, what a forest of tables is and what a walk means; `TableMemory` adds and writes tables;
   `Arm64Paging`, `Arm64History` and `Sv39Paging` are the two source files. `Arm64Hardware` and `Sv39Paging` hold the walks of the two
   processors, written with the bit fields of the manuals, and prove what the tables mean to them.
2. **The memory stack.** `PhysFrame` is the bitmap allocator with its search hint, `Slab` the slab caches with every structure,
   header and free node in memory, `KHeap` the size classes, block headers and multi-frame blocks, `Boot` the boot order.
   `MemoryStack` puts heap, slabs and page tables over one allocator and one memory; `MemoryRuns` proves that nothing in it overlaps.
   `ClientModel` is a client's view of it, and `ClientRuns` proves that in any run blocks behave as byte sequences, address spaces as page
   maps and objects as word sequences of their own.
3. **Objects and capabilities.** `ObjectProtocol` and `ObjectRuns` are a state machine over threads with program counters, where each
   section under a lock and each atomic update outside one is a step; `ObjectChecks` proves what each call does when nothing interrupts it,
   and what must have happened when a destroy decision rests on a stale count. `CapTable`, `HashTable` and `SpinLock` are the sequential or
   word-level pieces under it; `ObjectStorage` and `ObjectManager` are the objects in slab memory with their id table.

`Machine` and `Bytes` hold words, pages, physical memory and little-endian bytes. `dafny verify dfyconfig.toml` checks everything.

Where the source updates memory or fields in place, the model does the same in a class, and each method's contract gives the whole new
state as a function of the old one; the lemmas are about those functions. Integer widths are explicit: words are below 2^64, sums that
can wrap are written with a remainder, 32-bit counters wrap at 2^32. A `panic` ends a run: a method reports it as a result and callers
stop.

## What the proofs found

These statements are true of the code as it stands; each has its exact condition or a concrete run.

- `free_frames` starts at the number of frames while every frame is marked used, so it exceeds the number of clear bits by the number of
  frames for ever. Its zero test can only fire on a machine without frames; exhaustion is the scan returning 0
  (`PhysFrame.FrameAllocator.AllocFrame`).
- The bitmap has a bit for every frame exactly when the frame count modulo 64 is 0 or at least 8 (`PhysFrame.BitmapCoversExactly`).
- The allocator's range has the size of RAM but starts at the kernel image, so it offers frames outside RAM exactly when the image does
  not start where RAM does (`Boot.OffersOnlyRamExactly`).
- A large block holds the bytes asked for exactly when header and page rounding do not wrap (`KHeap.BlockHoldsExactly`); for some
  wrapping sizes `kfree` gives back none of the frame the block owns (`KHeap.LeaksExactly`).
- `kfree_sized` leaves the free lists and free frames that `kfree` would exactly when its size has the block's own bucket or, for a large
  block, asks for no fewer frames and the others it reaches are free already (`KHeap.KernelHeap.SizedOutcomeExactly`). A block of 3000
  bytes freed as 5000 is right or wrong depending on the frame behind it (`KHeap.KernelHeap.OneFrameTooMany`). `krealloc` leaves the
  header alone when it shrinks a block, so the size to pass later is still the old one (`KHeap.Reallocs`).
- The copy of a growing `krealloc` leaves the new block exactly when rounding the new size wraps and the old bytes with the header do not
  fit one page (`KHeap.CopyFitsExactly`); `kcalloc` zeroes past its block exactly when the rounding of its product wraps
  (`KHeap.BlockHoldsExactly`). Both are the outcome `Overrun`, with the condition for it in the contracts.
- `arch_unmap_page` links every missing table that frames allow before it looks for the page: it adds none exactly when none is missing or
  no frame is free, whether it succeeds or fails (`Arm64Paging.AddressSpaces.UnmapPage`, `Arm64Paging.LinksMissing`). On a fresh address
  space it fails and takes three frames (`Arm64History.UnmapOfFreshSpace`).
- `arch_map_page` ignores bits 48 to 63 of the address: a call with any of them set maps the address without them, while the processor does
  not translate the address itself through this table (`Arm64Hardware.MapTranslates`, `Arm64Hardware.HistoryTranslates`).
- `vmm_virt_to_phys` and the hardware disagree exactly on mapped pages that are reached by a non-canonical address or whose leaf the
  hardware refuses, unless the leaf names frame 0 and the offset is 0, which reads as the fault value (`Sv39Paging.SoftwareAgreesExactly`).
- The UART pages of the RISC-V boot map have their A and D bits clear. On hardware that leaves those bits to software they fault; no other
  boot page depends on that choice (`Sv39Paging.KernelTables.VmmInit`, `Sv39Paging.BootTranslate`).
- The destroy check loads its two counters one after the other. A run is safe exactly when no decision of it is torn, that is, rests on a
  reference count that was zero when loaded but no longer is (`ObjectRuns.SafeExactly`). A lookup and a close between the loads give a
  torn decision, and destroy an object that a thread still holds (`ObjectRuns.CheckCanBeFooled`). Nothing else does: a check that nothing
  interrupts is exact (`ObjectChecks.CheckAlone`), and between the loads of any torn one another thread was granted a lookup of the object
  (`ObjectChecks.DecisionNeedsLookup`). Runs without torn decisions whose
  counters stay within 32 bits are called calm.
- Even in calm runs a thread already in the check may act on an object that another has freed, waiting for its lock
  (`ObjectRuns.CheckAfterFree`) or holding it (`ObjectRuns.LockAfterFree`). Nobody enters the check of a marked object, and the thread that
  marks it held its lock alone, so this can happen exactly when another thread is at the door as the object is marked
  (`ObjectRuns.LateCheckExactly`, `ObjectRuns.LateFromMarkingExactly`).
- Generations are 32-bit counters that go round: a handle that is neither closed nor looked up is stale exactly when the number of
  revocations of its object is no multiple of 2^32 (`CapTable.RevokedExactly`).
- `object_create` never writes `destroyed`. Memory recycled from a destroyed object still says so, and an object born with that flag is
  never destroyed (`ObjectStorage.Recycle`, `ObjectRuns.QuiescentStates`).

## Model

| member | source | states |
|---|---|---|
| PhysFrame.BitmapCoversExactly | base/mm/physframe.c:45-60 | the bitmap `pmm_init` sizes has a bit for every frame iff the frame count mod 64 is 0 or at least 8 |
| PhysFrame.MarkedFree | base/mm/physframe.c:30-33 | setting bit `b` makes exactly frame `b` used in the set of free frames the bitmap represents |
| PhysFrame.UnmarkedFree | base/mm/physframe.c:35-38 | clearing bit `b` makes exactly frame `b` free |
| PhysFrame.FrameAllocator.BitmapTest | base/mm/physframe.c:40-43 | the test answers whether the frame is outside the set of free frames |
| PhysFrame.FrameAllocator.Init | base/mm/physframe.c:45-63 | no frame is free, while the counter equals the frame count: the offset every later operation keeps; the bitmap has as many bytes as eighths of the frame count, rounded up to 8 |
| PhysFrame.FrameAllocator.FreeRegion | base/mm/physframe.c:65-76 | exactly the whole pages of the region join the free frames, and the counter moves by as many as were used |
| PhysFrame.FrameAllocator.ReserveRegion | base/mm/physframe.c:78-89 | exactly the pages the region touches leave the free frames; no free frame appears below the hint |
| PhysFrame.FrameAllocator.AllocFrame | base/mm/physframe.c:91-118 | takes the first free frame from the hint on, cyclically; 0 iff none is free; the next search starts behind it; when nothing is free below the hint, the lowest free frame, and that stays so |
| PhysFrame.FrameAllocator.FreeFrame | base/mm/physframe.c:120-134 | an in-range used frame becomes free, the counter goes up and the hint down to it if it was above; anything else changes neither frames, counter nor hint; nothing free stays below the hint |
| PhysFrame.AllocThenFree | base/mm/physframe.c:91-134 | allocating and freeing restores the free frames and their count |
| PhysFrame.RegionFreeKeepsHint | base/mm/physframe.c:65-76 | freeing a region keeps "no free frame below the hint" iff the region is empty or starts at or above the hint |
| PhysFrame.LowestExactly | base/mm/physframe.c:98-115 | the hinted scan finds the lowest free frame iff that frame is at or above the hint or no free frame is |
| PageTree.PlaceIsUnique | arch/arm64/paging.c:128-141 | in a forest, two tables for the same root, level and address prefix are one table |
| PageTree.OneParentSlot | arch/arm64/paging.c:134-138 | over all trees, a table is linked from at most one slot |
| PageTree.WalkArrives | arch/arm64/paging.c:128-141 | the walk from the root reaches the table placed on the address's path, at every level |
| PageTree.LinkedForest | arch/arm64/paging.c:134-138 | linking a cleared frame in an empty entry keeps the forest |
| PageTree.LinkedLookup | arch/arm64/paging.c:134-138 | a new empty table changes no translation |
| PageTree.StoredForest | arch/arm64/paging.c:154-154 | writing a leaf word keeps the forest |
| PageTree.StoredLookup | arch/arm64/paging.c:143-158 | writing a leaf word changes the translation of its own page in its own tree only |
| PageTree.NextSubtree | arch/arm64/paging.c:109-116 | the tables freed through one more entry are exactly the subtree of the child it links |
| PageTree.RootSubtree | arch/arm64/paging.c:105-119 | everything reachable from a root is exactly the tables placed in its tree |
| PageTree.WithoutTreeForest | arch/arm64/paging.c:121-126 | removing one tree leaves a forest |
| TableMemory.TableMemory.AllocTablePage | arch/arm64/paging.c:54-60 | a free frame is taken and cleared, no other word changes; 0 iff no frame is free |
| TableMemory.TableMemory.ChildTable | arch/arm64/paging.c:128-138 | follows or links the next table: only empty tables are added, from free frames, and no translation changes |
| PageTree.LevelIndexIsIndex | arch/arm64/paging.c:67-71 | for both formats, the shift and mask of the address is the index of its page number at that level |
| Arm64Paging.LeafEntryExactly | arch/arm64/paging.c:148-154 | the leaf word is the one word whose fields, bit by bit, are the frame, normal inner-shareable memory, accessed, not global, user read-write iff bit 1 of prot is set and else read-only, never privileged-executable, and user-executable iff bit 2 of prot is set |
| Arm64Hardware.TableEntryExactly | arch/arm64/paging.c:138-138 | a table descriptor is the one word with type 3, the table's address in bits 12..47 and every other bit zero, so no table forbids anything below it |
| Arm64Hardware.HardwareSeesLookup | arch/arm64/paging.c:67-141 | on every forest, from any table of any tree, the walk of the processor (slots from bits 47..39, 38..30, 29..21 and 20..12, next table from bits 47..12, descriptor types, table attributes) ends at the word the model's walk finds, or faults where it finds none |
| Arm64Hardware.MapTranslates | arch/arm64/paging.c:143-158 | to the processor, after a successful call exactly the addresses with the same bits 12..47 reach the frame at their offset, user-writable iff bit 1 of prot is set, user-executable iff bit 2 is, never executable by the kernel; every other address of every tree translates as before, and all do after a failed call |
| Arm64Hardware.UnmapTranslates | arch/arm64/paging.c:160-168 | and after a successful unmap exactly those addresses fault |
| Arm64Hardware.HistoryTranslates | arch/arm64/paging.c:128-168 | after any history on a new tree the processor translates every 64-bit address as the last successful call on the same bits 12..47 says, and none from 2^48 on |
| Arm64Hardware.MappedExactly | arch/arm64/paging.c:160-164 | the pages on which an unmap succeeds after a history are those the processor translates |
| Arm64Paging.AddressSpaces.WalkCreate | arch/arm64/paging.c:128-141 | finds the leaf slot iff the missing tables do not outnumber the free frames; failing part-way uses up all frames, keeps the forest and changes no translation |
| Arm64Paging.AddressSpaces.MapPage | arch/arm64/paging.c:143-158 | on 0 the page gets exactly the encoded frame and attributes and every other page of every tree is as before; -1 iff frames run out, with no translation changed |
| Arm64Paging.AddressSpaces.UnmapPage | arch/arm64/paging.c:160-168 | 0 iff the page was mapped, then it alone is removed; -1 changes no translation; either way it links as many missing tables as frames allow, so none iff none is missing or no frame is free |
| Arm64Paging.AddressSpaces.AsidAlloc | arch/arm64/paging.c:28-43 | the lowest unused ASID from 1, -1 iff all are used |
| Arm64Paging.AsidTaken | arch/arm64/paging.c:28-43 | the ASID table stays exact and live roots keep distinct ASIDs in 1..255 when one is taken |
| Arm64Paging.AsidGiven | arch/arm64/paging.c:45-52 | and when one is given back |
| Arm64Paging.AddressSpaces.NewTree | arch/arm64/paging.c:87-98 | a fresh empty tree with an unused ASID; on failure nothing is kept |
| Arm64Paging.SlotSubtree | arch/arm64/paging.c:110-114 | the entry test of the teardown accepts exactly the linked children |
| Arm64Paging.AddressSpaces.FreeTableRecursive | arch/arm64/paging.c:105-119 | exactly the tables of the subtree become free, each one given back once, and no leaf-mapped frame |
| Arm64Paging.AddressSpaces.DestroyTree | arch/arm64/paging.c:121-126 | exactly the tree's table frames and its ASID come back, every other tree stays |
| Arm64History.Perform | arch/arm64/paging.c:143-168 | one call acts on the tree as update or delete acts on a partial map of pages |
| Arm64History.RunHistory | arch/arm64/paging.c:143-168 | any history of map and unmap calls refines the same history on the partial map, and leaves other trees alone |
| Arm64History.Lifetime | arch/arm64/paging.c:82-168 | create, any history, destroy: free frames, tables, ASIDs and every other tree's pages are as before; the frames given back were free before and come back once each; it is created iff a frame and an ASID are left |
| Arm64History.UnmapOfFreshSpace | arch/arm64/paging.c:160-168 | with four free frames and an ASID: unmapping address 0 of a new address space fails and leaves three more tables besides the root |
| Sv39Paging.HardwareSeesLookup | arch/riscv/paging.c:68-119 | on every table built by the code, for either treatment of clear A and D bits, the walk of section 4.3.2, with its indices as address bits 38..30, 29..21 and 20..12, accepts exactly the mapped pages with a legal leaf, and reaches the same address |
| Sv39Paging.SoftwareAgreesExactly | arch/riscv/paging.c:121-131 | software and hardware results agree iff the page is unmapped, or the address is canonical and the hardware accepts the leaf, or the leaf's address field and the offset are both 0 |
| Sv39Paging.LegalMapEntry | arch/riscv/paging.c:43-51 | a mapping's leaf is legal iff the address is below 2^56, it is readable or executable, and not writable without readable |
| Sv39Paging.KernelTables.VirtToPhys | arch/riscv/paging.c:121-131 | the result is the abstract translation, 0 for an unmapped page |
| Sv39Paging.KernelTables.WalkAlloc | arch/riscv/paging.c:68-119 | the unrolled walk finds the slot iff the missing tables do not outnumber the free frames; it adds empty tables only |
| Sv39Paging.KernelTables.MapPage | arch/riscv/paging.c:133-147 | for any 64-bit flags, ored into the word as the code does: succeeds iff both addresses are aligned and frames suffice; then that page alone changes, otherwise no translation does |
| Sv39Paging.MappingTranslates | arch/riscv/paging.c:133-147 | in hardware terms: the canonical addresses with the same bits 12..38 as va reach pa + offset with the flags asked for, and no other address changes |
| Sv39Paging.HistoryTranslates | arch/riscv/paging.c:68-147 | after any history of calls on a zeroed root, with any flag bits, the hardware translates every address as the last successful call on the same bits 12..38 says: to its frame if the call was legal, to a fault if not |
| Machine.BitOrBits | arch/riscv/paging.c:144-144 | the or that builds a leaf word sets a bit iff it is set in either operand |
| Sv39Paging.MapHistory | arch/riscv/paging.c:121-147 | any history of calls on a zeroed root refines the same history on an abstract page map; a call fails only if misaligned or out of frames; if all calls were legal, hardware and software translate every canonical address alike |
| Sv39Paging.KernelTables.VmmInit | arch/riscv/paging.c:159-182 | when it returns, every address translates in hardware to what the three loops say, and to nothing else; the UART pages only where the hardware sets A and D bits itself |
| Sv39Paging.BootIsIdentityAndWxorX | arch/riscv/paging.c:159-182 | after boot every translation is the identity and the kernel's alone, and no page is both writable and executable; image pages up to the end of the read-only part are readable and executable, the rest of RAM readable and writable, the UART pages, where they translate, readable and writable, and nothing else is mapped |
| Slab.CarveCount | base/mm/slab.c:41-48 | the carving loop makes floor(room / size) objects |
| Slab.CarveSpaced | base/mm/slab.c:41-48 | they are aligned, inside the page behind the header, and at least a size apart |
| Slab.SlabPopulation | base/mm/slab.c:25-49 | free and live objects of a cache number slabs times floor((4096 - 16) / size) |
| Slab.GrownAccounted | base/mm/slab.c:25-49 | growing keeps the free list duplicate-free and free plus live objects exactly the carved ones |
| Slab.AnyObjectsApart | base/mm/slab.c:25-113 | objects of any caches, free or live, do not overlap |
| Slab.StructsApart | base/mm/slab.c:51-81 | no two cache structures share a word, the bootstrap one included |
| Slab.SlabWorld.Grow | base/mm/slab.c:25-49 | takes one free frame and carves all of it in front of the list; every list in memory stays what it should be and no live object changes; fails iff no frame is free |
| Slab.SlabWorld.Alloc | base/mm/slab.c:83-100 | an object that was not live becomes live, from the head of the list when there is one; 0 iff the list is empty and growing yields nothing |
| Slab.SlabWorld.Free | base/mm/slab.c:102-113 | the object becomes the head of the list, no other live object's memory changes |
| Slab.SlabWorld.CacheCreate | base/mm/slab.c:51-81 | a new empty cache whose structure is a fresh object of the bootstrap cache; other caches and all live objects are untouched |
| KHeap.BucketIsBestFit | base/mm/kheap.c:25-36 | the index is the smallest bucket that holds the size, -1 iff the size is over 2048; bucket i holds 2^(i + 4) bytes |
| KHeap.PagesHoldExactly | base/mm/kheap.c:78-78 | the page count holds header and request iff the rounding does not wrap, and then is the least that does |
| KHeap.LeaksExactly | base/mm/kheap.c:106-108 | the wrapped page count of a large size is 0 exactly for sizes whose rounding wraps while the header sum does not |
| KHeap.BlockHoldsExactly | base/mm/kheap.c:64-94 | a block reaches past header and request iff the size does not wrap |
| KHeap.KernelHeap.Init | base/mm/kheap.c:38-53 | on success eight empty caches of the bucket sizes plus header; otherwise every frame is used up; nothing outside the slab pages is written |
| KHeap.KernelHeap.SmallAlloc | base/mm/kheap.c:69-75 | a new block with its header, no block or live object changed; it halts iff the bucket is empty and no frame is left, and never returns null |
| KHeap.NextOfRun | base/mm/kheap.c:83-88 | the next frame taken is the expected one iff that frame was free |
| KHeap.KernelHeap.LargeAlloc | base/mm/kheap.c:76-92 | succeeds iff the lowest free frames it needs are consecutive, then owns precisely those; null iff no frame is free |
| KHeap.KernelHeap.Kmalloc | base/mm/kheap.c:55-95 | both paths; every block holds, every frame is held or free exactly if it was before, and no word outside the heap's frames changes |
| KHeap.KernelHeap.Kfree | base/mm/kheap.c:97-115 | precisely the block named by the header is released: its object to the front of its own cache's list, or the frames its size asks for; other blocks keep every word |
| KHeap.KernelHeap.KfreeSized | base/mm/kheap.c:161-180 | when the size matches, all that `kfree` promises, with the free lists and frames that going by the size gives |
| KHeap.KernelHeap.SizedOutcomeExactly | base/mm/kheap.c:161-180 | going by the size and going by the header leave the same free lists and free frames iff the size matches: same bucket, or both large, no fewer frames, and the other frames reached by the wrapping address sum already free |
| KHeap.KernelHeap.OneFrameTooMany | base/mm/kheap.c:161-180 | a block of 3000 bytes freed as 5000: the outcomes agree iff the next frame is free or past the last |
| KHeap.OverflowCheckExactly | base/mm/kheap.c:119-121 | the division test refuses exactly the products of 2^64 or more |
| KHeap.KernelHeap.Kcalloc | base/mm/kheap.c:117-131 | overflowing products give null and change nothing; otherwise it is served exactly when `kmalloc` is, taking the same frames, and the new block has every byte zero and every other block is intact; it overruns iff the page rounding of the product wraps and a frame is free |
| KHeap.KernelHeap.Krealloc | base/mm/kheap.c:133-159 | a null pointer allocates and size 0 frees, exactly as `kmalloc` and `kfree`; shrinking keeps address, header and contents; growing is served exactly when `kmalloc` is and the copy fits, moves all old bytes to a new block and frees the old one; a failure keeps it intact; it overruns iff the copy does not fit and a frame is free |
| KHeap.CopyFitsExactly | base/mm/kheap.c:148-155 | copying the old bytes stays inside the new block iff rounding the new size does not wrap, or header and old bytes fit one page |
| KHeap.KernelHeap.CopyBytes | base/mm/kheap.c:151-155 | exactly the bytes of the destination range change, to those of the source |
| KHeap.KernelHeap.BlocksApart | base/mm/kheap.c:55-115 | any two live blocks, header included, do not overlap |
| Bytes.PatchedBytes | base/mm/kheap.c:153-155 | storing one byte in a word changes no other byte of memory |
| Bytes.ByteIsShift | base/mm/kheap.c:151-155 | byte k of a word is the word shifted right by 8 k bits, cut to 8: memory is little-endian |
| Boot.OffersOnlyRamExactly | base/mm/mm.c:29-37 | the frames offered after boot are all in RAM iff the kernel image starts at the start of RAM |
| Boot.Frames | base/mm/mm.c:29-37 | after the three calls the free frames are the range less the kernel, and none lies below the hint |
| Boot.MmInit | base/mm/mm.c:25-43 | the boot order ends in a valid heap and allocator whose frames are the free ones and the slab pages |
| MemoryStack.KernelMemory.Kmalloc | base/mm/kheap.c:55-95 | beside live page tables: all that the heap promises of success, frames taken and the new block, and no translation or block changes, all frames stay accounted for |
| MemoryStack.KernelMemory.Kfree | base/mm/kheap.c:97-115 | likewise for releasing any block but a root structure, with the free lists and frames the heap promises |
| MemoryStack.KernelMemory.Krealloc | base/mm/kheap.c:133-159 | likewise for all that the heap promises of moving a block |
| MemoryStack.KernelMemory.MapPage | arch/arm64/paging.c:143-158 | through the root structure in the heap: updates that page only, and no heap block changes |
| MemoryStack.KernelMemory.UnmapPage | arch/arm64/paging.c:160-168 | likewise for unmapping, with the same count of tables linked |
| MemoryStack.KernelMemory.CreatePagetable | arch/arm64/paging.c:82-103 | a new root structure, tree and ASID iff an ASID is left and the free frames cover the root table and the slab page the structure may need; otherwise all is as before but for that page; halts iff the heap cannot supply the structure |
| MemoryStack.KernelMemory.DestroyPagetable | arch/arm64/paging.c:121-126 | the tree's frames, each once, the ASID and the structure come back; no other tree or block changes |
| MemoryRuns.ItemsApart | base/mm/slab.c:25-113 | disjointness across layers: no two of live objects, free nodes, slab headers, large blocks and page-table frames share a byte |
| MemoryRuns.ItemsInUsedFrames | base/mm/physframe.c:91-134 | every byte of every such item lies in a frame of the machine that is marked used |
| MemoryRuns.BlocksAreItems | base/mm/kheap.c:55-95 | every heap block is one of these items |
| ClientRuns.Step | base/mm/kheap.c:55-180 | allocating, zeroing, writing, growing, freeing with or without size, creating, mapping, unmapping and destroying address spaces, and making, filling and freeing objects of other caches: each is served exactly under `ClientRuns.CanServe`, then does one thing to the client's view, and otherwise nothing |
| ClientRuns.Run | base/mm/kheap.c:55-180 | any run of such operations, from a client that holds nothing (`ClientRuns.NothingHeld`) or any later one, keeps the whole stack valid, and memory bears out the client's view at its end: the bytes of each block, the page map of each address space and the words of each object it holds; no frame is lost if no request wraps |
| ClientModel.UntouchedBytes | base/mm/kheap.c:55-180 | along every such run, a block's bytes stay what they are until the client itself writes, moves or frees it |
| ClientModel.UntouchedPages | arch/arm64/paging.c:143-168 | and so do the pages of an address space, whatever is mapped in others |
| ClientModel.UntouchedObject | base/mm/slab.c:83-113 | and the words of an object |
| MemoryRuns.SpaceLifetime | arch/arm64/paging.c:82-168 | create, any history, destroy: created iff an ASID and the frames for it are left; tables, ASIDs, heap blocks with their words and other trees' pages are as before, and free frames but for at most one page that the slab layer keeps for the root structure; the frames given back were free before and come back once each |
| ObjectProtocol.StepKeepsInv | base/ob/ob.c:80-112 | every step but a torn destroy decision keeps: refcount is the references held, handle_count the entries and closes less grants in flight, and destruction is due when both are zero |
| ObjectChecks.CheckAlone | base/ob/ob.c:94-100 | in any state, a destroy check that nothing interrupts marks the object iff refcount and handle_count are both 0 and it was not destroyed, and is never torn; otherwise the object is as it was |
| ObjectChecks.DecisionNeedsLookup | base/ob/ob.c:94-100 | in every run, safe or not, a decision on an object with a nonzero refcount means that the count was 0 when the same thread loaded it, and that since then, before any step of that thread, another thread took the first new reference by a granted lookup |
| ObjectChecks.DestroyAlone | base/ob/ob.c:94-112 | the whole call on such an object, uninterrupted: it is marked once, leaves the id table and is freed, and nothing else changes |
| ObjectChecks.CreateAlone | base/ob/ob.c:53-77 | a new object with refcount 1, held by its creator, handle_count 0 and generation 0, under a new id; nothing else changes |
| ObjectChecks.FailAlone | base/ob/ob.c:66-70 | when the callback fails, the id is spent and nobody refers to the object |
| ObjectChecks.RefAlone | base/ob/ob.c:80-83 | one more reference, held by the caller |
| ObjectChecks.DerefAlone | base/ob/ob.c:86-91 | one reference less, and whoever gives back the last one, and only that one, goes on to the check |
| ObjectChecks.GrantAlone | base/ob/cap.c:46-70 | the free slot gets object, rights and current generation, and handle_count goes up by one |
| ObjectChecks.LookupAlone | base/ob/cap.c:91-118 | a stale entry is dropped and its handle is about to be counted down; too few rights change nothing; else the caller holds one more reference |
| ObjectChecks.CloseAlone | base/ob/cap.c:73-89 | the slot is free, handle_count is one less, and the caller goes on to the check |
| ObjectRuns.SafeExactly | base/ob/ob.c:94-112 | over all runs within 32 bits: no reachable object is ever marked destroyed, and none twice, iff no destroy decision of the run is torn |
| ObjectRuns.Reachable | base/ob/cap.c:37-118 | in every state of every such run the invariant holds |
| ObjectRuns.DestroyedIsUnreachable | base/ob/ob.c:94-112 | an object is marked destroyed only once, and only with no reference, no entry, and no grant or close in flight |
| ObjectRuns.DestroyedForEver | base/ob/cap.c:91-118 | no later step makes it reachable again |
| ObjectRuns.DestructionIsDue | base/ob/ob.c:86-112 | an undestroyed published object with both counters zero has a thread in the destroy check |
| ObjectRuns.QuiescentStates | base/ob/ob.c:53-112 | with no call in progress, an object is freed iff nothing refers to it and it was not born destroyed; the id table holds exactly the others |
| ObjectRuns.CheckCanBeFooled | base/ob/ob.c:94-100 | a run in which the two separate loads let a held object be destroyed |
| ObjectRuns.CheckAfterFree | base/ob/ob.c:94-112 | a calm run in which a thread already at the check has yet to look at an object that another has freed |
| ObjectRuns.LockAfterFree | base/ob/ob.c:94-112 | and one in which it holds the freed object's lock |
| ObjectRuns.LateChecksOnlyShrink | base/ob/ob.c:86-112 | in every calm run from a marked object, the threads in its check, at the door or with the lock, never grow in number |
| ObjectRuns.FinishDestruction | base/ob/ob.c:102-112 | a marked object can be freed by its destroyer while every thread in its check stays where it is |
| ObjectRuns.LateCheckExactly | base/ob/ob.c:86-112 | some calm continuation leaves a thread in the check of the freed object iff one is in the check of the marked one |
| ObjectRuns.LateFromMarkingExactly | base/ob/ob.c:94-112 | seen from the step that marks it: iff another thread is at the door of the check then |
| ObjectStorage.CreatedFlag | base/ob/ob.c:53-64 | creating an object leaves its `destroyed` byte as it found it |
| ObjectStorage.Recycle | base/ob/ob.c:53-112 | the next object of the type gets a destroyed object's memory with `destroyed` already set |
| ObjectManager.Manager.RegisterType | base/ob/ob.c:38-50 | the next index, with a new empty cache of its own, whose object size is 48 bytes and the payload rounded up to 8; it panics iff 64 types exist or the structure cannot be allocated |
| ObjectManager.Manager.Create | base/ob/ob.c:53-77 | a new object under a fresh nonzero id, once in the id table, whose header in memory has refcount 1, handle_count 0, generation 0, that id and a free lock; the headers of all other objects are as before; 0 iff the callback fails or the cache is empty and cannot grow; then the slab's live set is the live objects again |
| ObjectManager.Manager.Destroy | base/ob/ob.c:102-112 | the type and id read from the header are the object's, so it alone leaves the table and its own cache, and the headers of the others are as before |
| CapTable.ProbeVisitsOnce | base/ob/cap.c:49-50 | for every 32-bit hint the probe visits each slot in exactly one turn, wrapping sums included |
| CapTable.IncludesExactly | base/ob/cap.c:40-40 | the mask test of grant and lookup succeeds iff every bit that is required is set in the rights |
| CapTable.CapabilityTable.Grant | base/ob/cap.c:37-63 | fails iff some bit of the rights is not among the type's defaults or none of the 4096 slots is free; otherwise fills the first free slot from the hint upwards, going round, whatever the hint, and moves the hint behind it (to 0 on RISC-V, whose store writes zero) |
| CapTable.CapabilityTable.Close | base/ob/cap.c:73-84 | empties exactly the named slot and names its object |
| CapTable.CapabilityTable.Lookup | base/ob/cap.c:91-118 | resolves by slot, generation and, bit by bit, the rights required; a stale slot, and only that, is emptied |
| CapTable.RunCalls | base/ob/cap.c:37-118 | any history of real grant, close and lookup calls on a new table does and answers what the abstract table does; every granted lookup is backed by an earlier grant of that handle, not closed since, with the rights asked for within the type's default rights at that time |
| CapTable.AuthorityIsGranted | base/ob/cap.c:37-118 | on the abstract table, over all histories: a granted lookup's rights are within those of one earlier grant of that slot, and within its type's defaults |
| CapTable.HandleResolves | base/ob/cap.c:37-118 | a granted handle resolves to its object for exactly the granted rights through any history that neither closes nor revokes it |
| CapTable.RevokedExactly | base/ob/cap.c:101-108 | a handle neither closed nor looked up is stale iff the revocations of its object are not a multiple of 2^32, and otherwise still answers by its rights |
| CapTable.ClosedHandleIsDead | base/ob/cap.c:73-108 | a handle that was closed, or dropped by a lookup that found it stale, resolves to nothing until its slot is granted again |
| HashTable.HashTable.Insert | libkern/hash.c:37-45 | pushes on the key's stack, every other key's stack is as before, the count is the total chain length |
| HashTable.HashTable.Lookup | libkern/hash.c:47-52 | reads the top of the key's stack |
| HashTable.HashTable.Remove | libkern/hash.c:54-67 | pops only the top of the key's stack |
| HashTable.RemovePops | libkern/hash.c:54-67 | removing the first match of a chain pops that key's stack and no other |
| HashTable.RemoveUndoesInsert | libkern/hash.c:37-67 | removing a key right after inserting it restores the chain |
| SpinLock.MutualExclusion | include/sync/atomic.hpp:33-59 | at most one thread is inside, in every run of any number of threads |
| SpinLock.FreeLockCanBeTaken | include/sync/atomic.hpp:33-55 | when nobody is inside, a waiting thread gets in with at most two consecutive steps of its own, no other thread moving in between |
| SpinLock.UnlockFrees | include/sync/atomic.hpp:57-59 | in every reachable state, unlocking leaves the word 0, that thread outside and every other thread where it was, and each waiting thread then gets in with at most two consecutive steps of its own |
| SpinLock.HeldLockIsKept | include/sync/atomic.hpp:33-55 | while a thread is inside, no step of another changes the word or lets anybody in or out |

## Left out

- ObjectProtocol.StepKeepsInv: a torn destroy decision is excluded, because it breaks safety every time (`ObjectRuns.SafeExactly`).
- ObjectProtocol.StepKeepsInv: callers of ref, deref and grant hold a reference throughout, and counters stay below 2^32 (`ObjectProtocol.Bounded`).
- ObjectRuns.QuiescentStates: memory of a freed object is not reused in the protocol; reuse is the subject of `ObjectStorage` and `ObjectManager`, where calls run one at a time.
- ObjectManager.Manager.Create: does not model object ids that wrap at 2^32, after which ids can repeat, nor the node that the id table takes from a slab cache of its own: that allocation can take a frame or panic.
- HashTable.HashTable.Insert: nodes are objects of the model, so their allocation from the node cache, and its failure, are not modelled.
- ObjectManager.Manager.RegisterType: instance sizes whose sum with the header is within 8 of 2^64 or wraps are excluded.
- KHeap.KernelHeap.Krealloc: what memory holds after an overrun is not modelled; the outcome `Overrun` ends the run before the first byte is copied.
- KHeap.KernelHeap.Kcalloc: likewise for zeroing.
- KHeap.KernelHeap.KfreeSized: with a size that does not match, the heap's lists and frames are no longer in order, so only its free lists and frames are compared (`KHeap.KernelHeap.SizedOutcomeExactly`), not what follows.
- Slab.SlabWorld.CacheCreate: object sizes within 8 of 2^64 are excluded: they round to 0, and carving a slab with size 0 never ends.
- PhysFrame.FrameAllocator.Init: a RAM base of 0 is excluded, as frame 0 could not be told from failure, so is one that is not page aligned, and so are frame counts that the bitmap does not cover (`PhysFrame.BitmapCoversExactly`), where the code would write past it.
- Slab.SlabWorld.Alloc: the lock word of a cache is not modelled and a call is one step. The frame allocator has no lock, and the cache locks do not serialise `slab_grow` of two caches, so frame allocation by several threads at once is outside the model. 0 stands both for the panic of `slab_grow` when no frame is left and for the null pointer of a cache whose objects do not fit a page.
- Boot.MmInit: memory is taken to exist over the whole range offered, from the image start for the size of RAM, although `Boot.OffersOnlyRamExactly` shows that part of it is not RAM when the image starts later. The image start is page aligned, RAM ends below 2^48, the static bootstrap structure lies in one page, and `mm_boot_alloc` only promises fresh memory.
- Sv39Paging.KernelTables.VmmInit: physical addresses end below 2^38, so that identity addresses are canonical, and the kernel's static root table is a used frame of the allocator's range.
- Sv39Paging.HardwareSeesLookup: the access-type and privilege checks of step 5 are not modelled.
- Arm64Hardware.HardwareSeesLookup: no file of the repository sets the translation registers. A 4 KB granule, 48-bit addresses and no hardware update of the access flag are taken from the four levels of 512 entries; memory types and shareability are in `Arm64Paging.LeafEntryExactly` only.
- ClientRuns.Run: the client passes `kfree_sized` a size of the block's class only.
- CapTable.RunCalls: calls are in the order of their locked sections; the counter updates outside the lock are the subject of `ObjectProtocol`. No function of the repository moves an object to its next generation; a revocation stands for whatever will.
- HashTable.HashTable.Lookup: the hash function is any function into the buckets; its arithmetic is not modelled.
- TLB invalidation, `satp` and barriers: table contents are modelled, not the TLB.
- Weak memory: atomic steps are sequentially consistent.
- Console and logging, interrupt controller, timers, SBI calls and assembly: output and hardware effects.
- The boot bump allocator, string routines and the RISC-V user demo: `memset` and `memcpy` appear as their effects.
- The read, write, wait and ioop callbacks of object types; create and destroy callbacks do not re-enter the object manager.
- `cap_table_create`: one zeroed `kmalloc`; the tables of the model start empty.
