/** The boot order of `base/mm/mm.c`, which establishes the invariants of the frame allocator and of the heap. */
module Boot {
  import opened Machine
  import opened PhysFrame
  import opened Slab
  import opened KHeap

  /** Pages from the start of the kernel image to the end of the boot heap, rounded up. */
  function KernelPages(imageStart: Word, heapEnd: Word): nat
    requires imageStart <= heapEnd
  {
    AlignUpPage(heapEnd - imageStart) / PAGE_SIZE
  }

  /** The frames free when `mm_init` hands over to the heap: as many as there is RAM, counted from the kernel image. */
  ghost function FreeAtBoot(imageStart: Word, ramTotal: Word, heapEnd: Word): set<nat>
    requires imageStart <= heapEnd
  {
    Span(imageStart / PAGE_SIZE, ramTotal / PAGE_SIZE) - Span(imageStart / PAGE_SIZE, KernelPages(imageStart, heapEnd))
  }

  /**
   The allocator's range has the size of RAM but starts at the kernel image. So, as long as the kernel does not fill it, it
   offers only frames of RAM exactly when the image starts where RAM does.
   */
  lemma OffersOnlyRamExactly(ramBase: Word, ramTotal: Word, imageStart: Word, heapEnd: Word)
    requires ramBase % PAGE_SIZE == 0 && imageStart % PAGE_SIZE == 0 && ramTotal % PAGE_SIZE == 0 && ramBase <= imageStart <= heapEnd
    requires KernelPages(imageStart, heapEnd) < ramTotal / PAGE_SIZE
    ensures (forall p :: p in FreeAtBoot(imageStart, ramTotal, heapEnd) ==> (p + 1) * PAGE_SIZE <= ramBase + ramTotal) <==> imageStart == ramBase
  {
    var last := imageStart / PAGE_SIZE + ramTotal / PAGE_SIZE - 1;
    assert last in FreeAtBoot(imageStart, ramTotal, heapEnd);
  }

  /**
   `mm_init`, with the bitmap in the boot heap. False is a panic of `kheap_init`. Freeing the whole range comes before the first
   allocation, which is what makes "no free frame below the hint" true from the start.
   */
  method MmInit(imageStart: Word, ramTotal: Word, heapEnd: Word, ram: Ram, meta: nat) returns (heap: KernelHeap, ok: bool)
    requires imageStart % PAGE_SIZE == 0 && 0 < imageStart <= heapEnd && imageStart + ramTotal <= 0x1_0000_0000_0000
    requires BitmapCovers(ramTotal / PAGE_SIZE) && KernelPages(imageStart, heapEnd) <= ramTotal / PAGE_SIZE
    requires (imageStart + ramTotal) / 8 <= ram.cells.Length
    requires meta % 8 == 0 && imageStart <= meta && meta + CACHE_STRUCT <= heapEnd && meta % PAGE_SIZE + CACHE_STRUCT <= PAGE_SIZE
    modifies ram.cells
    ensures fresh(heap) && heap.Valid() && heap.slab.ram == ram && heap.blocks == map[]
    ensures heap.slab.pmm.first == imageStart / PAGE_SIZE && heap.slab.pmm.totalFrames == ramTotal / PAGE_SIZE
    ensures if ok then heap.initialized else !heap.initialized && heap.slab.pmm.free == {}
    ensures FreeAtBoot(imageStart, ramTotal, heapEnd) == heap.slab.pmm.free + heap.slab.owner.Keys
    ensures heap.slab.pmm.freeFrames == |heap.slab.pmm.free| + heap.slab.pmm.totalFrames
    ensures SameOutside(old(ram.View()), ram.View(), heap.slab.Pages())
  {
    hide Represents, IsFree, Span, WorldOk, FreeAtBoot, LargeFrames, SameOutside, KernelPages, BitmapCovers;
    var pmm := Frames(imageStart, ramTotal, heapEnd);
    InRam(imageStart, ramTotal, heapEnd, meta, ram.cells.Length);
    heap, ok := Heap(pmm, ram, meta);
  }

  /** `kheap_init` on a fresh heap over the frames of `pmm`. */
  method Heap(pmm: FrameAllocator, ram: Ram, meta: nat) returns (heap: KernelHeap, ok: bool)
    requires pmm.Valid() && pmm.HintOk() && ram.cells as object != pmm.bitmap as object
    requires (pmm.first + pmm.totalFrames) * PAGE_WORDS <= ram.cells.Length && (pmm.first + pmm.totalFrames) * PAGE_SIZE <= 0x1_0000_0000_0000
    requires 0 < meta && meta % 8 == 0 && meta / 8 + 4 <= ram.cells.Length && meta / PAGE_SIZE !in pmm.free
    requires meta % PAGE_SIZE + CACHE_STRUCT <= PAGE_SIZE
    modifies pmm`freeFrames, pmm`lastFreeIndex, pmm`free, pmm.bitmap, ram.cells
    ensures fresh(heap) && heap.Valid() && heap.slab.pmm == pmm && heap.slab.ram == ram && heap.blocks == map[]
    ensures if ok then heap.initialized else !heap.initialized && pmm.free == {}
    ensures old(pmm.free) == pmm.free + heap.slab.owner.Keys
    ensures SameOutside(old(ram.View()), ram.View(), heap.slab.Pages())
  {
    hide Represents, IsFree, Span, WorldOk, LargeFrames, SameOutside, NoneBelow, KernelHeap.Valid, SlabWorld.Valid, FrameAllocator.Valid;
    ghost var free := pmm.free;
    var slab := new SlabWorld(pmm, ram, meta);
    heap := new KernelHeap(slab);
    ok := heap.Init();
    NoLargeFrames();
    SlabOfHeap(heap);
    Pools(slab, free);
  }

  lemma SlabOfHeap(heap: KernelHeap)
    requires heap.Valid()
    ensures heap.slab.Valid()
  {
    hide SlabWorld.Valid;
  }

  /** The three calls that set up the frame allocator. */
  method Frames(imageStart: Word, ramTotal: Word, heapEnd: Word) returns (pmm: FrameAllocator)
    requires imageStart % PAGE_SIZE == 0 && 0 < imageStart <= heapEnd && imageStart + ramTotal <= 0x1_0000_0000_0000
    requires BitmapCovers(ramTotal / PAGE_SIZE) && KernelPages(imageStart, heapEnd) <= ramTotal / PAGE_SIZE
    ensures fresh(pmm) && fresh(pmm.bitmap) && pmm.Valid() && pmm.HintOk() && pmm.lastFreeIndex == 0
    ensures pmm.first == imageStart / PAGE_SIZE && pmm.totalFrames == ramTotal / PAGE_SIZE
    ensures pmm.free == FreeAtBoot(imageStart, ramTotal, heapEnd)
  {
    hide Represents, IsFree, Span;
    pmm := new FrameAllocator.Init(imageStart, ramTotal);
    pmm.FreeRegion(imageStart, ramTotal);
    var kernSize := heapEnd - imageStart;
    pmm.ReserveRegion(imageStart, kernSize);
    NothingFreeBelow(pmm);
  }

  lemma NothingFreeBelow(pmm: FrameAllocator)
    requires pmm.Valid() && pmm.lastFreeIndex == 0
    ensures pmm.HintOk()
  {
    hide IsFree;
  }

  lemma InRam(imageStart: Word, ramTotal: Word, heapEnd: Word, meta: nat, cells: nat)
    requires imageStart % PAGE_SIZE == 0 && 0 < imageStart <= heapEnd && imageStart + ramTotal <= 0x1_0000_0000_0000
    requires (imageStart + ramTotal) / 8 <= cells && KernelPages(imageStart, heapEnd) <= ramTotal / PAGE_SIZE
    requires meta % 8 == 0 && imageStart <= meta && meta + CACHE_STRUCT <= heapEnd
    ensures (imageStart / PAGE_SIZE + ramTotal / PAGE_SIZE) * PAGE_WORDS <= cells
    ensures (imageStart / PAGE_SIZE + ramTotal / PAGE_SIZE) * PAGE_SIZE <= 0x1_0000_0000_0000
    ensures meta / 8 + 4 <= cells && meta / PAGE_SIZE !in FreeAtBoot(imageStart, ramTotal, heapEnd)
  {
    assert heapEnd <= imageStart + KernelPages(imageStart, heapEnd) * PAGE_SIZE;
  }

  lemma NoLargeFrames()
    ensures LargeFrames(map[]) == {}
  {
  }

  lemma Pools(slab: SlabWorld, free: set<nat>)
    requires slab.Valid() && slab.meta / PAGE_SIZE !in free
    requires slab.Pages() + slab.pmm.free == {slab.meta / PAGE_SIZE} + free
    ensures slab.owner.Keys + slab.pmm.free == free
  {
    hide InMemory, Accounted;
    assert slab.meta / PAGE_SIZE !in slab.owner.Keys + slab.pmm.free;
    forall p
      ensures p in slab.owner.Keys + slab.pmm.free <==> p in free
    {
      assert p in slab.Pages() + slab.pmm.free <==> p in {slab.meta / PAGE_SIZE} + free;
    }
  }
}
