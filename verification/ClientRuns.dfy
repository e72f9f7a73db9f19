/**
 Runs of a client of the memory stack. Whatever it allocates, writes, maps, moves and frees, each operation is served exactly when the
 machine has what it takes, then does to the client's view what `ClientModel.Does` says, and otherwise leaves the view alone.
 */
module ClientRuns {
  import opened Machine
  import opened Bytes
  import opened Slab
  import opened KHeap
  import opened PageTree
  import opened TableMemory
  import opened Arm64Paging
  import opened Arm64History
  import opened MemoryStack
  import opened ClientModel

  /** `kmalloc` finds room: an object or a frame for a small request, the lowest free frames consecutive for a large one. */
  ghost predicate Available(size: Word, free: set<nat>, stock: seq<nat>) {
    size != 0 && if size <= MAX_SLAB then free != {} || stock != [] else HasRun(free, OwnedPages(size))
  }

  /** The cache has a free object, or can grow one. */
  ghost predicate HasObject(caches: map<nat, Cache>, c: nat, free: set<nat>) {
    c in caches && (caches[c].free != [] || (free != {} && caches[c].objSize <= PAGE_SIZE - FRAME_HEADER))
  }

  /** When an operation is served: it concerns what the client holds, and memory does not run out. */
  ghost predicate CanServe(k: KernelMemory, held: Held, op: Op)
    reads k, k.heap, k.heap.buckets, k.heap.slab, k.heap.slab.pmm`free, k.heap.slab.ram.cells, k.spaces`asids
  {
    var free := k.heap.slab.pmm.free;
    match op
    case MallocOp(size) => Available(size, free, k.heap.FreeObjects(size))
    case CallocOp(num, size) =>
      && Product(num, size) + HEADER + PAGE_SIZE <= U64
      && Available(Product(num, size), free, k.heap.FreeObjects(Product(num, size) % U64))
    case FreeOp(i) => i < |held.ptrs|
    case FreeSizedOp(i, size) => i < |held.ptrs| && held.ptrs[i] in held.sizes && SameClass(held.sizes[held.ptrs[i]], size)
    case ReallocOp(i, size) =>
      && i < |held.ptrs| && held.ptrs[i] in held.sizes
      && (held.sizes[held.ptrs[i]] < size ==>
            CopyFits(held.sizes[held.ptrs[i]], size) && Available(size, free, k.heap.FreeObjects(size)))
    case WriteOp(i, at, b) => i < |held.ptrs| && held.ptrs[i] in held.sizes && at < Room(held.sizes[held.ptrs[i]]) && b < 256
    case CreateOp => Creatable(free, k.heap.FreeObjects(ROOT_STRUCT), k.spaces.asids)
    case DestroyOp(i) => i < |held.spaces|
    case MapPageOp(i, va, _, _) =>
      && i < |held.spaces| && held.spaces[i] in k.roots
      && Missing(Arm64, k.heap.slab.ram.View(), k.roots[held.spaces[i]], 0, Vpn(va)) <= |free|
    case UnmapPageOp(i, _) => i < |held.spaces|
    case CacheOp(objSize) => objSize + 8 <= U64 && (free != {} || k.heap.FreeStructs() != [])
    case ObjectOp(i) => i < |held.caches| && HasObject(k.heap.slab.caches, held.caches[i], free)
    case WriteObjectOp(i, w, _) =>
      && i < |held.objects| && held.objects[i].0 in k.heap.slab.caches
      && w < k.heap.slab.caches[held.objects[i].0].objSize / 8
    case FreeObjectOp(i) => i < |held.objects|
  }

  /** No block's page count wrapped to 0. */
  ghost predicate NoLeak(blocks: map<nat, Word>) {
    forall h :: h in blocks ==> !Leaks(blocks[h])
  }

  /** A request that can be rounded up to pages. */
  predicate Fits(op: Op) {
    op.MallocOp? || op.ReallocOp? ==> op.size + HEADER + PAGE_SIZE <= U64
  }

  /** A client that holds nothing can start in any state. */
  lemma NothingHeld(k: KernelMemory)
    ensures Keeps(k, Held([], map[], [], [], []), Known(map[], map[], map[]))
  {
  }

  // Heap calls

  lemma MallocIsKept(size: Word, r: Outcome, blocks: map<nat, Word>, blocks': map<nat, Word>, free: set<nat>, free': set<nat>, stock: seq<nat>)
    requires Mallocs(r, size, blocks, blocks', free, free', stock)
    ensures if r.Block? then HEADER <= r.ptr && r.ptr - HEADER !in blocks && blocks' == blocks[r.ptr - HEADER := size] else blocks' == blocks
    ensures r.Block? <==> Available(size, free, stock)
    ensures NoLeak(blocks) && size + HEADER + PAGE_SIZE <= U64 ==> NoLeak(blocks')
  {
    hide HasRun, TookRun, RefillTakes;
    LeaksExactly(size);
  }

  method MallocStep(k: KernelMemory, held: Held, ghost known: Known, ghost op: Op, size: Word) returns (next: Held, ghost now: Known, halted: bool)
    requires op == MallocOp(size) && k.Valid() && Keeps(k, held, known)
    modifies k.heap.slab.pmm`freeFrames, k.heap.slab.pmm`lastFreeIndex, k.heap.slab.pmm`free, k.heap.slab.pmm.bitmap, k.heap.slab.ram.cells,
      k.heap.slab`caches, k.heap.slab`owner, k.heap`blocks
    ensures k.Valid() && Keeps(k, next, now)
    ensures ClientStep(op, old(CanServe(k, held, op)), held, known, next, now)
    ensures !halted ==> k.AllFrames() == old(k.AllFrames())
    ensures NoLeak(old(k.heap.blocks)) && size + HEADER + PAGE_SIZE <= U64 ==> NoLeak(k.heap.blocks)
  {
    hide KernelMemory.Valid, KernelMemory.AllFrames, PtrsOk, SpacesOk, ObjectsOk, HeadersAligned, RootsHaveHeaders, RootsAreTables, PlainObjects,
      OnlyBuckets, SameMeaning, BlocksSame, ForeignSame, NoLeak, CanServe, BytesAt, Mallocs, Gains, Room, Available, KernelHeap.FreeObjects;
    ghost var m, blocks, roots, nodes, caches, buckets :=
      k.heap.slab.ram.View(), k.heap.blocks, k.roots, k.spaces.t.nodes, k.heap.slab.caches, k.heap.buckets[..];
    IsReady(k);
    ghost var free, stock, can := k.heap.slab.pmm.free, k.heap.FreeObjects(size), CanServe(k, held, op);
    assert can <==> Available(size, free, stock) by {
      MallocServed(k, held, size);
    }
    var r := k.Kmalloc(size);
    ghost var m' := k.heap.slab.ram.View();
    MallocIsKept(size, r, blocks, k.heap.blocks, free, k.heap.slab.pmm.free, stock);
    ViewKept(m, m', blocks, blocks, roots, nodes, caches, k.heap.slab.caches, k.heap.slab.meta, buckets, held, known);
    halted := r.Panic?;
    next, now := held, known;
    if r.Block? {
      NewHeader(blocks, roots, r.ptr);
      PointerGained(m', blocks, roots, held, known, r.ptr, size);
      next, now := Gain(held, r.ptr, size), Learn(known, r.ptr, BytesAt(m', r.ptr, Room(size)));
    }
  }

  lemma MallocServed(k: KernelMemory, held: Held, size: Word)
    ensures CanServe(k, held, MallocOp(size)) <==> Available(size, k.heap.slab.pmm.free, k.heap.FreeObjects(size))
  {
  }

  lemma NewHeader(blocks: map<nat, Word>, roots: map<nat, nat>, p: nat)
    requires RootsHaveHeaders(blocks, roots) && HEADER <= p && p - HEADER !in blocks
    ensures p !in roots
  {
  }

  lemma CallocIsKept(num: Word, size: Word, r: Outcome, blocks: map<nat, Word>, blocks': map<nat, Word>, free: set<nat>, free': set<nat>,
                     stock: seq<nat>, m: seq<Word>)
    requires Callocs(r, num, size, blocks, blocks', free, free', stock, m)
    ensures r.Block? <==> Product(num, size) + HEADER + PAGE_SIZE <= U64 && Available(Product(num, size), free, stock)
    ensures r.Block? ==>
      && HEADER <= r.ptr && r.ptr - HEADER !in blocks && blocks' == blocks[r.ptr - HEADER := Product(num, size)]
      && Cleared(BytesAt(m, r.ptr, Room(Product(num, size))))
    ensures NoLeak(blocks) && !r.Overrun? ==> NoLeak(blocks')
    ensures forall h :: h in blocks ==> h in blocks' && blocks'[h] == blocks[h]
  {
    hide Product, ByteAt, Takes, HasRun;
    if Product(num, size) < U64 {
      LeaksExactly(Product(num, size));
      if U64 < Product(num, size) + HEADER + PAGE_SIZE {
        WrappedRun(Product(num, size), free);
      }
    }
  }

  lemma CallocServed(k: KernelMemory, held: Held, num: Word, size: Word)
    ensures CanServe(k, held, CallocOp(num, size)) <==>
      && Product(num, size) + HEADER + PAGE_SIZE <= U64
      && Available(Product(num, size), k.heap.slab.pmm.free, k.heap.FreeObjects(Product(num, size) % U64))
  {
    hide Product;
  }

  method CallocStep(k: KernelMemory, held: Held, ghost known: Known, ghost op: Op, num: Word, size: Word)
    returns (next: Held, ghost now: Known, halted: bool)
    requires op == CallocOp(num, size) && k.Valid() && Keeps(k, held, known)
    modifies k.heap.slab.pmm`freeFrames, k.heap.slab.pmm`lastFreeIndex, k.heap.slab.pmm`free, k.heap.slab.pmm.bitmap, k.heap.slab.ram.cells,
      k.heap.slab`caches, k.heap.slab`owner, k.heap`blocks
    ensures k.Valid() && Keeps(k, next, now)
    ensures ClientStep(op, old(CanServe(k, held, op)), held, known, next, now)
    ensures NoLeak(old(k.heap.blocks)) && !halted ==> NoLeak(k.heap.blocks)
    ensures !halted ==> k.AllFrames() == old(k.AllFrames())
  {
    hide KernelMemory.Valid, KernelMemory.AllFrames, PtrsOk, SpacesOk, ObjectsOk, HeadersAligned, RootsHaveHeaders, RootsAreTables, PlainObjects,
      OnlyBuckets, SameMeaning, BlocksSame, ForeignSame, NoLeak, CanServe, BytesAt, Callocs, Gains, Cleared, Product, Room, Available, KernelHeap.FreeObjects;
    ghost var m, blocks, roots, nodes, caches, buckets :=
      k.heap.slab.ram.View(), k.heap.blocks, k.roots, k.spaces.t.nodes, k.heap.slab.caches, k.heap.buckets[..];
    IsReady(k);
    ghost var free, stock := k.heap.slab.pmm.free, k.heap.FreeObjects(Product(num, size) % U64);
    CallocServed(k, held, num, size);
    var r := k.Kcalloc(num, size);
    ghost var m' := k.heap.slab.ram.View();
    CallocIsKept(num, size, r, blocks, k.heap.blocks, free, k.heap.slab.pmm.free, stock, m');
    ViewKept(m, m', blocks, if r.Block? then blocks else k.heap.blocks, roots, nodes, caches, k.heap.slab.caches, k.heap.slab.meta, buckets,
             held, known);
    halted := r.Panic? || r.Overrun?;
    next, now := held, known;
    if r.Block? {
      NewHeader(blocks, roots, r.ptr);
      PointerGained(m', blocks, roots, held, known, r.ptr, Product(num, size));
      next, now := Gain(held, r.ptr, Product(num, size)), Learn(known, r.ptr, BytesAt(m', r.ptr, Room(Product(num, size))));
    }
  }

  lemma LeakFree(blocks: map<nat, Word>, ptr: nat)
    ensures NoLeak(blocks) ==> NoLeak(blocks - BlockAt(ptr)) && (HEADER <= ptr && ptr - HEADER in blocks ==> !Leaks(blocks[ptr - HEADER]))
  {
  }

  /** `kfree`. */
  method FreeStep(k: KernelMemory, held: Held, ghost known: Known, i: nat) returns (next: Held, ghost now: Known)
    requires k.Valid() && Keeps(k, held, known) && i < |held.ptrs|
    modifies k.heap.slab.pmm`freeFrames, k.heap.slab.pmm`lastFreeIndex, k.heap.slab.pmm`free, k.heap.slab.pmm.bitmap, k.heap.slab.ram.cells,
      k.heap.slab`caches, k.heap`blocks
    ensures k.Valid() && Keeps(k, next, now)
    ensures next == Lose(held, i) && now == Forget(known, held.ptrs[i])
    ensures NoLeak(old(k.heap.blocks)) ==> NoLeak(k.heap.blocks) && k.AllFrames() == old(k.AllFrames())
  {
    hide KernelMemory.Valid, KernelMemory.AllFrames, PtrsOk, SpacesOk, ObjectsOk, HeadersAligned, RootsHaveHeaders, RootsAreTables, PlainObjects,
      OnlyBuckets, SameMeaning, BlocksSame, ForeignSame, NoLeak, CanServe, BytesAt, Leaks, GivenBack, Room, KernelHeap.AfterRoute, KernelHeap.HeaderRoute;
    ghost var m, blocks, roots, nodes, caches, buckets :=
      k.heap.slab.ram.View(), k.heap.blocks, k.roots, k.spaces.t.nodes, k.heap.slab.caches, k.heap.buckets[..];
    IsReady(k);
    HeldPtr(m, blocks, roots, held, known.data, i);
    var ptr := held.ptrs[i];
    LeakFree(blocks, ptr);
    k.Kfree(ptr);
    ghost var m' := k.heap.slab.ram.View();
    RestKept(m, m', nodes, roots, caches, k.heap.slab.caches, k.heap.slab.meta, buckets, held, known);
    PointerLost(m, m', blocks, roots, held, known, i);
    next, now := Lose(held, i), Forget(known, ptr);
  }

  /** `kfree_sized` with a size of the block's class. */
  method FreeSizedStep(k: KernelMemory, held: Held, ghost known: Known, i: nat, size: Word) returns (next: Held, ghost now: Known)
    requires k.Valid() && Keeps(k, held, known) && i < |held.ptrs|
    requires held.ptrs[i] in held.sizes && SameClass(held.sizes[held.ptrs[i]], size)
    modifies k.heap.slab.pmm`freeFrames, k.heap.slab.pmm`lastFreeIndex, k.heap.slab.pmm`free, k.heap.slab.pmm.bitmap, k.heap.slab.ram.cells,
      k.heap.slab`caches, k.heap`blocks
    ensures k.Valid() && Keeps(k, next, now)
    ensures next == Lose(held, i) && now == Forget(known, held.ptrs[i])
    ensures NoLeak(old(k.heap.blocks)) ==> NoLeak(k.heap.blocks) && k.AllFrames() == old(k.AllFrames())
  {
    hide KernelMemory.Valid, KernelMemory.AllFrames, PtrsOk, SpacesOk, ObjectsOk, HeadersAligned, RootsHaveHeaders, RootsAreTables, PlainObjects,
      OnlyBuckets, SameMeaning, BlocksSame, ForeignSame, NoLeak, CanServe, BytesAt, Leaks, GivenBack, Room, SameClass,
      KernelHeap.SizeMatches, KernelHeap.AfterRoute, KernelHeap.SizedRoute;
    ghost var m, blocks, roots, nodes, caches, buckets :=
      k.heap.slab.ram.View(), k.heap.blocks, k.roots, k.spaces.t.nodes, k.heap.slab.caches, k.heap.buckets[..];
    IsReady(k);
    HeldPtr(m, blocks, roots, held, known.data, i);
    var ptr := held.ptrs[i];
    LeakFree(blocks, ptr);
    MatchingSize(k, ptr - HEADER, size);
    k.KfreeSized(ptr, size);
    ghost var m' := k.heap.slab.ram.View();
    RestKept(m, m', nodes, roots, caches, k.heap.slab.caches, k.heap.slab.meta, buckets, held, known);
    PointerLost(m, m', blocks, roots, held, known, i);
    next, now := Lose(held, i), Forget(known, ptr);
  }

  lemma MatchingSize(k: KernelMemory, h: nat, n: Word)
    requires k.Valid() && h in k.heap.blocks && SameClass(k.heap.blocks[h], n)
    ensures k.heap.SizeMatches(h, n)
  {
    hide KernelMemory.Valid, KernelHeap.Valid, KernelHeap.SizeMatches, SameClass;
    k.Together();
    k.heap.SameClassMatches(h, n);
  }

  /** A heap call that frees or moves a block leaves spaces and objects as they were. */
  lemma RestKept(m: seq<Word>, m': seq<Word>, nodes: map<nat, Node>, roots: map<nat, nat>, caches: map<nat, Cache>, caches': map<nat, Cache>,
                 meta: nat, buckets: seq<nat>, held: Held, known: Known)
    requires RootsAreTables(nodes, roots) && PlainObjects(caches, meta, buckets)
    requires SpacesOk(m, roots, held.spaces, known.pages) && ObjectsOk(m, caches, meta, buckets, held.caches, held.objects, known.words)
    requires SameMeaning(Arm64, m, m', nodes) && OnlyBuckets(caches, caches', buckets) && ForeignSame(m, m', caches, buckets, {})
    ensures SpacesOk(m', roots, held.spaces, known.pages) && ObjectsOk(m', caches', meta, buckets, held.caches, held.objects, known.words)
  {
    hide SpacesOk, ObjectsOk, RootsAreTables, PlainObjects, SameMeaning, OnlyBuckets, ForeignSame;
    SpacesKept(m, m', nodes, roots, held.spaces, known.pages);
    ObjectsKept(m, m', caches, caches', meta, buckets, held.caches, held.objects, known.words);
  }

  lemma GrowIsKept(size: Word, r: Outcome, ptr: nat, blocks: map<nat, Word>, blocks': map<nat, Word>, free: set<nat>, free': set<nat>,
                   stock: seq<nat>, m: seq<Word>, m': seq<Word>)
    requires HEADER <= ptr && ptr - HEADER in blocks && blocks[ptr - HEADER] < size
    requires Reallocs(r, ptr, size, blocks, blocks', free, free', stock, m, m')
    ensures r.Block? <==> CopyFits(blocks[ptr - HEADER], size) && Available(size, free, stock)
    ensures match r
      case Block(to) =>
        && HEADER <= to && to - HEADER !in blocks && blocks' == blocks[to - HEADER := size] - BlockAt(ptr)
        && CopyFits(blocks[ptr - HEADER], size) && BytesAt(m', to, blocks[ptr - HEADER]) == BytesAt(m, ptr, blocks[ptr - HEADER])
      case _ => BlocksSame(m, m', blocks, {}) && forall h :: h in blocks ==> h in blocks' && blocks'[h] == blocks[h]
    ensures NoLeak(blocks) && !r.Overrun? && size + HEADER + PAGE_SIZE <= U64 ==> NoLeak(blocks')
  {
    hide BytesAt, BlocksSame, Takes, HasRun;
    LeaksExactly(size);
    if !CopyFits(blocks[ptr - HEADER], size) {
      WrappedRun(size, free);
    }
  }

  lemma ReallocServed(k: KernelMemory, held: Held, i: nat, size: Word)
    ensures CanServe(k, held, ReallocOp(i, size)) <==>
      && i < |held.ptrs| && held.ptrs[i] in held.sizes
      && (held.sizes[held.ptrs[i]] < size ==>
            CopyFits(held.sizes[held.ptrs[i]], size) && Available(size, k.heap.slab.pmm.free, k.heap.FreeObjects(size)))
  {
  }

  /** `krealloc` to a larger size. */
  method GrowStep(k: KernelMemory, held: Held, ghost known: Known, ghost op: Op, i: nat, size: Word) returns (next: Held, ghost now: Known, halted: bool)
    requires op == ReallocOp(i, size) && k.Valid() && Keeps(k, held, known) && i < |held.ptrs| && held.ptrs[i] in held.sizes && held.sizes[held.ptrs[i]] < size
    modifies k.heap.slab.pmm`freeFrames, k.heap.slab.pmm`lastFreeIndex, k.heap.slab.pmm`free, k.heap.slab.pmm.bitmap, k.heap.slab.ram.cells,
      k.heap.slab`caches, k.heap.slab`owner, k.heap`blocks
    ensures k.Valid() && Keeps(k, next, now)
    ensures ClientStep(op, old(CanServe(k, held, op)), held, known, next, now)
    ensures NoLeak(old(k.heap.blocks)) && !halted && size + HEADER + PAGE_SIZE <= U64 ==> NoLeak(k.heap.blocks)
    ensures !halted ==> k.AllFrames() == old(k.AllFrames())
  {
    hide KernelMemory.Valid, KernelMemory.AllFrames, PtrsOk, SpacesOk, ObjectsOk, HeadersAligned, RootsHaveHeaders, RootsAreTables, PlainObjects,
      OnlyBuckets, SameMeaning, BlocksSame, ForeignSame, NoLeak, CanServe, BytesAt, Leaks, Reallocs, Reallocated,
      CopyFits, Room, Available, KernelHeap.FreeObjects;
    ghost var m, blocks, roots, nodes, caches, buckets :=
      k.heap.slab.ram.View(), k.heap.blocks, k.roots, k.spaces.t.nodes, k.heap.slab.caches, k.heap.buckets[..];
    IsReady(k);
    ghost var free, stock := k.heap.slab.pmm.free, k.heap.FreeObjects(size);
    HeldPtr(m, blocks, roots, held, known.data, i);
    ReallocServed(k, held, i, size);
    var ptr := held.ptrs[i];
    var r := k.Krealloc(ptr, size);
    ghost var m' := k.heap.slab.ram.View();
    GrowIsKept(size, r, ptr, blocks, k.heap.blocks, free, k.heap.slab.pmm.free, stock, m, m');
    RestKept(m, m', nodes, roots, caches, k.heap.slab.caches, k.heap.slab.meta, buckets, held, known);
    halted := r.Panic? || r.Overrun?;
    if r.Block? {
      PointerMoved(m, m', blocks, roots, held, known, i, r.ptr, size);
      next, now := Gain(Lose(held, i), r.ptr, size), Learn(Forget(known, ptr), r.ptr, BytesAt(m', r.ptr, Room(size)));
    } else {
      PtrsStay(m, m', blocks, k.heap.blocks, roots, held, known.data);
      next, now := held, known;
    }
  }

  lemma PtrsStay(m: seq<Word>, m': seq<Word>, blocks: map<nat, Word>, blocks': map<nat, Word>, roots: map<nat, nat>, held: Held, data: Contents)
    requires PtrsOk(m, blocks, roots, held.ptrs, held.sizes, data) && HeadersAligned(blocks) && BlocksSame(m, m', blocks, {})
    requires forall h :: h in blocks ==> h in blocks' && blocks'[h] == blocks[h]
    ensures PtrsOk(m', blocks', roots, held.ptrs, held.sizes, data)
  {
    hide HeadersAligned, BlocksSame, BytesAt, Room;
    PtrsKept(m, m', blocks, blocks', roots, roots, {}, held.ptrs, held.sizes, data);
  }

  predicate Shrinks(held: Held, i: nat, size: Word) {
    i < |held.ptrs| && held.ptrs[i] in held.sizes && size <= held.sizes[held.ptrs[i]]
  }

  lemma ShrinkIsKept(size: Word, r: Outcome, ptr: nat, blocks: map<nat, Word>, blocks': map<nat, Word>, free: set<nat>, free': set<nat>,
                     stock: seq<nat>, m: seq<Word>, m': seq<Word>)
    requires HEADER <= ptr && ptr - HEADER in blocks && size <= blocks[ptr - HEADER]
    requires Reallocs(r, ptr, size, blocks, blocks', free, free', stock, m, m')
    ensures if size == 0 then r == Null && blocks' == blocks - BlockAt(ptr) else r == Block(ptr) && blocks' == blocks && m' == m
  {
    hide Released;
  }

  /** `krealloc` to no more than the old size: 0 frees, anything else changes nothing. */
  method ShrinkStep(k: KernelMemory, held: Held, ghost known: Known, ghost op: Op, i: nat, size: Word) returns (next: Held, ghost now: Known)
    requires op == ReallocOp(i, size) && k.Valid() && Keeps(k, held, known) && Shrinks(held, i, size)
    modifies k.heap.slab.pmm`freeFrames, k.heap.slab.pmm`lastFreeIndex, k.heap.slab.pmm`free, k.heap.slab.pmm.bitmap, k.heap.slab.ram.cells,
      k.heap.slab`caches, k.heap.slab`owner, k.heap`blocks
    ensures k.Valid() && Keeps(k, next, now)
    ensures ClientStep(op, old(CanServe(k, held, op)), held, known, next, now)
    ensures NoLeak(old(k.heap.blocks)) ==> NoLeak(k.heap.blocks) && k.AllFrames() == old(k.AllFrames())
  {
    hide KernelMemory.Valid, KernelMemory.AllFrames, PtrsOk, SpacesOk, ObjectsOk, HeadersAligned, RootsHaveHeaders, RootsAreTables, PlainObjects,
      OnlyBuckets, SameMeaning, BlocksSame, ForeignSame, NoLeak, CanServe, BytesAt, Leaks, Reallocs, Room, KernelHeap.FreeObjects, Gains;
    ghost var m, blocks, roots, nodes, caches, buckets :=
      k.heap.slab.ram.View(), k.heap.blocks, k.roots, k.spaces.t.nodes, k.heap.slab.caches, k.heap.buckets[..];
    IsReady(k);
    ghost var free, stock := k.heap.slab.pmm.free, k.heap.FreeObjects(size);
    HeldPtr(m, blocks, roots, held, known.data, i);
    ReallocServed(k, held, i, size);
    var ptr := held.ptrs[i];
    LeakFree(blocks, ptr);
    var r := k.Krealloc(ptr, size);
    ghost var m' := k.heap.slab.ram.View();
    ShrinkIsKept(size, r, ptr, blocks, k.heap.blocks, free, k.heap.slab.pmm.free, stock, m, m');
    RestKept(m, m', nodes, roots, caches, k.heap.slab.caches, k.heap.slab.meta, buckets, held, known);
    if size == 0 {
      PointerLost(m, m', blocks, roots, held, known, i);
      next, now := Lose(held, i), Forget(known, ptr);
    } else {
      next, now := held, known;
    }
  }

  /** The client stores a byte of a block it holds. */
  method WriteStep(k: KernelMemory, held: Held, ghost known: Known, i: nat, at: nat, b: nat) returns (ghost now: Known)
    requires k.Valid() && Keeps(k, held, known) && i < |held.ptrs| && held.ptrs[i] in held.sizes && at < Room(held.sizes[held.ptrs[i]]) && b < 256
    modifies k.heap.slab.ram.cells
    ensures k.Valid() && Keeps(k, held, now) && k.AllFrames() == old(k.AllFrames())
    ensures Does(WriteOp(i, at, b), held, known, held, now)
  {
    hide KernelMemory.Valid, KernelMemory.AllFrames, PtrsOk, SpacesOk, ObjectsOk, HeadersAligned, RootsHaveHeaders, RootsAreTables, PlainObjects,
      OnlyBuckets, SameMeaning, BlocksSame, ForeignSame, NoLeak, CanServe, BytesAt, Room, End, LiveSame, Patched, SetAt;
    ghost var m, blocks, roots, nodes, caches, buckets :=
      k.heap.slab.ram.View(), k.heap.blocks, k.roots, k.spaces.t.nodes, k.heap.slab.caches, k.heap.buckets[..];
    IsReady(k);
    HeldPtr(m, blocks, roots, held, known.data, i);
    var ptr := held.ptrs[i];
    RoomInBlock(ptr - HEADER, blocks[ptr - HEADER]);
    k.WriteByte(ptr, at, b);
    ghost var m' := k.heap.slab.ram.View();
    OnlyBucketsAtFirst(caches, buckets);
    RestKept(m, m', nodes, roots, caches, caches, k.heap.slab.meta, buckets, held, known);
    PointerWritten(m, m', blocks, roots, held, known, i, at, b);
    now := Learn(known, ptr, SetAt(known.data[ptr], at, b));
  }

  // Calls on address spaces

  lemma CreatedIs(ptr: nat, roots: map<nat, nat>, roots': map<nat, nat>, blocks: map<nat, Word>, blocks': map<nat, Word>,
                  nodes: map<nat, Node>, nodes': map<nat, Node>, asids: map<nat, nat>, asids': map<nat, nat>,
                  free: set<nat>, free': set<nat>, stock: seq<nat>, m: seq<Word>)
    requires Created(ptr, roots, roots', blocks, blocks', nodes, nodes', asids, asids', free, free', stock, m)
    ensures if ptr == 0 then roots' == roots && blocks' == blocks
            else
              && HEADER <= ptr && ptr !in roots && ptr - HEADER !in blocks && blocks' == blocks[ptr - HEADER := ROOT_STRUCT]
              && ptr in roots' && roots' == roots[ptr := roots'[ptr]] && MapsNothing(m, roots'[ptr])
    ensures NoLeak(blocks) ==> NoLeak(blocks')
  {
    hide MapsNothing, WithRoot;
  }

  lemma CreateServed(k: KernelMemory, held: Held)
    ensures CanServe(k, held, CreateOp) <==> Creatable(k.heap.slab.pmm.free, k.heap.FreeObjects(ROOT_STRUCT), k.spaces.asids)
  {
    hide Creatable;
  }

  /** The structure of a new space is no block the client holds. */
  lemma PtrsBesideNew(m: seq<Word>, m': seq<Word>, blocks: map<nat, Word>, roots: map<nat, nat>, held: Held, data: Contents, ptr: nat, page: nat, size: Word)
    requires PtrsOk(m, blocks, roots, held.ptrs, held.sizes, data) && HeadersAligned(blocks) && BlocksSame(m, m', blocks, {})
    requires HEADER <= ptr && ptr - HEADER !in blocks
    ensures PtrsOk(m', blocks[ptr - HEADER := size], roots[ptr := page], held.ptrs, held.sizes, data)
  {
    hide HeadersAligned, BlocksSame, BytesAt, Room;
    PtrsKept(m, m', blocks, blocks[ptr - HEADER := size], roots, roots[ptr := page], {}, held.ptrs, held.sizes, data);
  }

  method CreateStep(k: KernelMemory, held: Held, ghost known: Known) returns (next: Held, ghost now: Known, halted: bool)
    requires k.Valid() && Keeps(k, held, known)
    modifies k.heap.slab.pmm`freeFrames, k.heap.slab.pmm`lastFreeIndex, k.heap.slab.pmm`free, k.heap.slab.pmm.bitmap, k.heap.slab.ram.cells,
      k.heap.slab`caches, k.heap.slab`owner, k.heap`blocks, k.spaces.t`nodes, k.spaces.asidUsed, k.spaces`asids, k`roots
    ensures k.Valid() && Keeps(k, next, now)
    ensures ClientStep(CreateOp, old(CanServe(k, held, CreateOp)), held, known, next, now)
    ensures NoLeak(old(k.heap.blocks)) ==> NoLeak(k.heap.blocks)
    ensures !halted ==> k.AllFrames() == old(k.AllFrames())
  {
    hide KernelMemory.Valid, KernelMemory.AllFrames, PtrsOk, SpacesOk, ObjectsOk, HeadersAligned, RootsHaveHeaders, RootsAreTables, PlainObjects,
      OnlyBuckets, SameMeaning, BlocksSame, ForeignSame, NoLeak, CanServe, BytesAt, Created, Creatable, KernelHeap.FreeObjects, MapsNothing;
    ghost var m, blocks, roots, nodes, caches, buckets :=
      k.heap.slab.ram.View(), k.heap.blocks, k.roots, k.spaces.t.nodes, k.heap.slab.caches, k.heap.buckets[..];
    IsReady(k);
    ghost var asids, free, stock := k.spaces.asids, k.heap.slab.pmm.free, k.heap.FreeObjects(ROOT_STRUCT);
    CreateServed(k, held);
    var ptr, stop := k.CreatePagetable();
    halted := stop;
    ghost var m' := k.heap.slab.ram.View();
    CreatedIs(ptr, roots, k.roots, blocks, k.heap.blocks, nodes, k.spaces.t.nodes, asids, k.spaces.asids,
              free, k.heap.slab.pmm.free, stock, m');
    RestKept(m, m', nodes, roots, caches, k.heap.slab.caches, k.heap.slab.meta, buckets, held, known);
    next, now := held, known;
    if ptr == 0 {
      PtrsStay(m, m', blocks, blocks, roots, held, known.data);
    } else {
      PtrsBesideNew(m, m', blocks, roots, held, known.data, ptr, k.roots[ptr], ROOT_STRUCT);
      SpaceGained(m', roots, held.spaces, known.pages, ptr, k.roots[ptr]);
      next, now := held.(spaces := held.spaces + [ptr]), known.(pages := known.pages[ptr := map[]]);
      assert next.spaces[|held.spaces|] == ptr;
    }
  }

  lemma PtrsBesideOld(m: seq<Word>, m': seq<Word>, blocks: map<nat, Word>, roots: map<nat, nat>, held: Held, data: Contents, ptr: nat)
    requires PtrsOk(m, blocks, roots, held.ptrs, held.sizes, data) && HeadersAligned(blocks) && BlocksSame(m, m', blocks, BlockAt(ptr))
    requires ptr in roots && HEADER <= ptr
    ensures PtrsOk(m', blocks - BlockAt(ptr), roots - {ptr}, held.ptrs, held.sizes, data)
  {
    hide HeadersAligned, BlocksSame, BytesAt, Room;
    PtrsKept(m, m', blocks, blocks - BlockAt(ptr), roots, roots - {ptr}, BlockAt(ptr), held.ptrs, held.sizes, data);
  }

  method DestroyStep(k: KernelMemory, held: Held, ghost known: Known, i: nat) returns (next: Held, ghost now: Known)
    requires k.Valid() && Keeps(k, held, known) && i < |held.spaces|
    modifies k.heap.slab.pmm`freeFrames, k.heap.slab.pmm`lastFreeIndex, k.heap.slab.pmm`free, k.heap.slab.pmm.bitmap, k.heap.slab.ram.cells,
      k.heap.slab`caches, k.heap`blocks, k.spaces.t`nodes, k.spaces.asidUsed, k.spaces`asids, k`roots
    ensures k.Valid() && Keeps(k, next, now) && k.AllFrames() == old(k.AllFrames())
    ensures Does(DestroyOp(i), held, known, next, now)
    ensures NoLeak(old(k.heap.blocks)) ==> NoLeak(k.heap.blocks)
  {
    hide KernelMemory.Valid, KernelMemory.AllFrames, PtrsOk, SpacesOk, ObjectsOk, HeadersAligned, RootsHaveHeaders, RootsAreTables, PlainObjects,
      OnlyBuckets, SameMeaning, BlocksSame, ForeignSame, NoLeak, CanServe, BytesAt, WithoutTree, EachOnce, Without;
    ghost var m, blocks, roots, nodes, caches, buckets :=
      k.heap.slab.ram.View(), k.heap.blocks, k.roots, k.spaces.t.nodes, k.heap.slab.caches, k.heap.buckets[..];
    IsReady(k);
    HeldSpace(m, roots, held.spaces, known.pages, i);
    var ptr := held.spaces[i];
    LeakFree(blocks, ptr);
    RootHeader(blocks, roots, ptr);
    ghost var freed := k.DestroyPagetable(ptr);
    ghost var m' := k.heap.slab.ram.View();
    PtrsBesideOld(m, m', blocks, roots, held, known.data, ptr);
    SpaceLost(m, roots, held.spaces, known.pages, i);
    TablesAndRoots(k);
    SpacesKept(m, m', k.spaces.t.nodes, k.roots, Without(held.spaces, i), known.pages - {ptr});
    ObjectsKept(m, m', caches, k.heap.slab.caches, k.heap.slab.meta, buckets, held.caches, held.objects, known.words);
    next, now := held.(spaces := Without(held.spaces, i)), known.(pages := known.pages - {ptr});
  }

  lemma RootHeader(blocks: map<nat, Word>, roots: map<nat, nat>, ptr: nat)
    requires RootsHaveHeaders(blocks, roots) && ptr in roots
    ensures HEADER <= ptr
  {
  }

  lemma MapServed(k: KernelMemory, held: Held, i: nat, va: Word, phys: Word, prot: nat)
    requires i < |held.spaces| && held.spaces[i] in k.roots
    ensures CanServe(k, held, MapPageOp(i, va, phys, prot)) <==>
      Missing(Arm64, k.heap.slab.ram.View(), k.roots[held.spaces[i]], 0, Vpn(va)) <= |k.heap.slab.pmm.free|
  {
    hide Missing, Vpn;
  }

  /** Both outcomes of mapping a page, on the client's page maps. */
  lemma MapIsKept(m: seq<Word>, m': seq<Word>, nodes: map<nat, Node>, nodes': map<nat, Node>, free: set<nat>, free': set<nat>,
                  roots: map<nat, nat>, held: Held, pages: Pages, i: nat, r: int, vpn: nat, e: Word)
    requires SpacesOk(m, roots, held.spaces, pages) && RootsAreTables(nodes, roots)
    requires i < |held.spaces| && held.spaces[i] in roots && held.spaces[i] in pages
    requires Maps(r, roots[held.spaces[i]], vpn, e, m, nodes, free, m', nodes', free')
    ensures r == 0 <==> Missing(Arm64, m, roots[held.spaces[i]], 0, vpn) <= |free|
    ensures SpacesOk(m', roots, held.spaces, if r == 0 then pages[held.spaces[i] := Mapped(pages[held.spaces[i]], vpn, e)] else pages)
  {
    hide SpacesOk, RootsAreTables, Updated, SameMeaning, TablesAdded, LinksMissing, Missing;
    if r == 0 {
      SpaceRepaged(m, m', nodes, roots, held.spaces, pages, i, vpn, Some(e));
    } else {
      SpacesKept(m, m', nodes, roots, held.spaces, pages);
    }
  }

  /** And of unmapping one: the page is not mapped afterwards, whether or not it was. */
  lemma UnmapIsKept(m: seq<Word>, m': seq<Word>, nodes: map<nat, Node>, nodes': map<nat, Node>, free: set<nat>, free': set<nat>,
                    roots: map<nat, nat>, held: Held, pages: Pages, i: nat, r: int, vpn: nat)
    requires SpacesOk(m, roots, held.spaces, pages) && RootsAreTables(nodes, roots) && vpn < VpnLimit(Arm64)
    requires i < |held.spaces| && held.spaces[i] in roots && held.spaces[i] in pages
    requires Unmaps(r, roots[held.spaces[i]], vpn, m, nodes, free, m', nodes', free')
    ensures SpacesOk(m', roots, held.spaces, pages[held.spaces[i] := Unmapped(pages[held.spaces[i]], vpn)])
  {
    hide SpacesOk, RootsAreTables, Updated, SameMeaning, TablesAdded, LinksMissing, Lookup, Means;
    if r == 0 {
      SpaceRepaged(m, m', nodes, roots, held.spaces, pages, i, vpn, None);
    } else {
      HeldSpace(m, roots, held.spaces, pages, i);
      NotMapped(m, roots[held.spaces[i]], pages[held.spaces[i]], vpn);
      SpacesKept(m, m', nodes, roots, held.spaces, pages);
      assert pages[held.spaces[i] := pages[held.spaces[i]]] == pages;
    }
  }

  method MapStep(k: KernelMemory, held: Held, ghost known: Known, ghost op: Op, i: nat, va: Word, phys: Word, prot: nat) returns (ghost now: Known)
    requires op == MapPageOp(i, va, phys, prot) && k.Valid() && Keeps(k, held, known) && i < |held.spaces|
    modifies k.heap.slab.pmm`freeFrames, k.heap.slab.pmm`lastFreeIndex, k.heap.slab.pmm`free, k.heap.slab.pmm.bitmap, k.heap.slab.ram.cells, k.spaces.t`nodes
    ensures k.Valid() && Keeps(k, held, now) && k.AllFrames() == old(k.AllFrames())
    ensures ClientStep(op, old(CanServe(k, held, op)), held, known, held, now)
  {
    hide KernelMemory.Valid, KernelMemory.AllFrames, PtrsOk, SpacesOk, ObjectsOk, HeadersAligned, RootsHaveHeaders, RootsAreTables, PlainObjects,
      OnlyBuckets, SameMeaning, BlocksSame, ForeignSame, NoLeak, CanServe, BytesAt, Maps, LeafEntry, Vpn, Missing;
    ghost var m, blocks, roots, nodes, caches, buckets :=
      k.heap.slab.ram.View(), k.heap.blocks, k.roots, k.spaces.t.nodes, k.heap.slab.caches, k.heap.buckets[..];
    IsReady(k);
    ghost var free := k.heap.slab.pmm.free;
    HeldSpace(m, roots, held.spaces, known.pages, i);
    MapServed(k, held, i, va, phys, prot);
    var ptr := held.spaces[i];
    var r := k.MapPage(ptr, va, phys, prot);
    ghost var m' := k.heap.slab.ram.View();
    MapIsKept(m, m', nodes, k.spaces.t.nodes, free, k.heap.slab.pmm.free, roots, held, known.pages, i, r, Vpn(va), LeafEntry(phys, prot));
    OnlyBucketsAtFirst(caches, buckets);
    ObjectsKept(m, m', caches, caches, k.heap.slab.meta, buckets, held.caches, held.objects, known.words);
    PtrsStay(m, m', blocks, blocks, roots, held, known.data);
    now := if r == 0 then known.(pages := known.pages[ptr := Mapped(known.pages[ptr], Vpn(va), LeafEntry(phys, prot))]) else known;
  }

  method UnmapStep(k: KernelMemory, held: Held, ghost known: Known, i: nat, va: Word) returns (ghost now: Known)
    requires k.Valid() && Keeps(k, held, known) && i < |held.spaces|
    modifies k.heap.slab.pmm`freeFrames, k.heap.slab.pmm`lastFreeIndex, k.heap.slab.pmm`free, k.heap.slab.pmm.bitmap, k.heap.slab.ram.cells, k.spaces.t`nodes
    ensures k.Valid() && Keeps(k, held, now) && k.AllFrames() == old(k.AllFrames())
    ensures Does(UnmapPageOp(i, va), held, known, held, now)
  {
    hide KernelMemory.Valid, KernelMemory.AllFrames, PtrsOk, SpacesOk, ObjectsOk, HeadersAligned, RootsHaveHeaders, RootsAreTables, PlainObjects,
      OnlyBuckets, SameMeaning, BlocksSame, ForeignSame, NoLeak, CanServe, BytesAt, Unmaps, Vpn;
    ghost var m, blocks, roots, nodes, caches, buckets :=
      k.heap.slab.ram.View(), k.heap.blocks, k.roots, k.spaces.t.nodes, k.heap.slab.caches, k.heap.buckets[..];
    IsReady(k);
    ghost var free := k.heap.slab.pmm.free;
    HeldSpace(m, roots, held.spaces, known.pages, i);
    var ptr := held.spaces[i];
    var r := k.UnmapPage(ptr, va);
    ghost var m' := k.heap.slab.ram.View();
    UnmapIsKept(m, m', nodes, k.spaces.t.nodes, free, k.heap.slab.pmm.free, roots, held, known.pages, i, r, Vpn(va));
    OnlyBucketsAtFirst(caches, buckets);
    ObjectsKept(m, m', caches, caches, k.heap.slab.meta, buckets, held.caches, held.objects, known.words);
    PtrsStay(m, m', blocks, blocks, roots, held, known.data);
    now := known.(pages := known.pages[ptr := Unmapped(known.pages[ptr], Vpn(va))]);
  }

  // Calls on other slab caches

  lemma CacheServed(k: KernelMemory, held: Held, objSize: Word)
    ensures CanServe(k, held, CacheOp(objSize)) <==> objSize + 8 <= U64 && (k.heap.slab.pmm.free != {} || k.heap.FreeStructs() != [])
  {
  }

  /** Caches of other users are as they were. */
  lemma CachesStillLive(caches: map<nat, Cache>, caches': map<nat, Cache>, meta: nat, buckets: seq<nat>)
    requires forall d :: d in caches && d != meta ==> d in caches' && caches'[d] == caches[d]
    ensures StillLive(caches, caches', meta, buckets, {})
  {
  }

  lemma OldCacheHeld(m: seq<Word>, caches: map<nat, Cache>, meta: nat, buckets: seq<nat>, held: Held, words: Words, c: nat)
    requires ObjectsOk(m, caches, meta, buckets, held.caches, held.objects, words) && c !in caches
    ensures c !in held.caches
  {
    hide ObjectWords;
  }

  method CacheStep(k: KernelMemory, held: Held, ghost known: Known, ghost op: Op, objSize: Word) returns (next: Held)
    requires op == CacheOp(objSize) && k.Valid() && Keeps(k, held, known) && objSize + 8 <= U64
    modifies k.heap.slab.pmm`freeFrames, k.heap.slab.pmm`lastFreeIndex, k.heap.slab.pmm`free, k.heap.slab.pmm.bitmap, k.heap.slab.ram.cells,
      k.heap.slab`caches, k.heap.slab`owner, k.heap.slab`metaInitialized
    ensures k.Valid() && Keeps(k, next, known) && k.AllFrames() == old(k.AllFrames())
    ensures ClientStep(op, old(CanServe(k, held, op)), held, known, next, known)
  {
    hide LiveSame, KernelMemory.Valid, KernelMemory.AllFrames, PtrsOk, SpacesOk, ObjectsOk, HeadersAligned, RootsHaveHeaders, RootsAreTables, PlainObjects,
      SameMeaning, BlocksSame, ForeignSame, NoLeak, CanServe, BytesAt, KernelHeap.FreeStructs, StillLive;
    ghost var m, blocks, roots, nodes, caches, buckets :=
      k.heap.slab.ram.View(), k.heap.blocks, k.roots, k.spaces.t.nodes, k.heap.slab.caches, k.heap.buckets[..];
    IsReady(k);
    CacheServed(k, held, objSize);
    var c := k.NewCache(objSize);
    ghost var m', caches' := k.heap.slab.ram.View(), k.heap.slab.caches;
    NothingForeign(m, caches, buckets);
    ForeignSpared(m, m', caches, buckets, {});
    CachesStillLive(caches, caches', k.heap.slab.meta, buckets);
    ObjectsAfter(m, m', caches, caches', k.heap.slab.meta, buckets, held.caches, held.objects, known.words, {});
    SpacesKept(m, m', nodes, roots, held.spaces, known.pages);
    PtrsStay(m, m', blocks, blocks, roots, held, known.data);
    if c == 0 {
      return held;
    }
    OldCacheHeld(m, caches, k.heap.slab.meta, buckets, held, known.words, c);
    CacheGained(m', caches', k.heap.slab.meta, buckets, held, known.words, c);
    next := held.(caches := held.caches + [c]);
    assert next.caches[|held.caches|] == c;
  }

  lemma ObjectServed(k: KernelMemory, held: Held, i: nat)
    ensures CanServe(k, held, ObjectOp(i)) <==> i < |held.caches| && HasObject(k.heap.slab.caches, held.caches[i], k.heap.slab.pmm.free)
  {
  }

  lemma NewStillLive(caches: map<nat, Cache>, caches': map<nat, Cache>, meta: nat, buckets: seq<nat>, c: nat, live: set<nat>)
    requires c in caches && OnlyLive(caches, caches', c, live) && caches[c].live <= live
    ensures StillLive(caches, caches', meta, buckets, {})
    ensures Foreign(caches, meta, buckets, c) ==> Foreign(caches', meta, buckets, c) && caches'[c].live == live
  {
  }

  lemma NewIsNotHeld(m: seq<Word>, caches: map<nat, Cache>, meta: nat, buckets: seq<nat>, held: Held, words: Words, o: (nat, nat))
    requires ObjectsOk(m, caches, meta, buckets, held.caches, held.objects, words) && o.0 in caches && o.1 !in caches[o.0].live
    ensures o !in held.objects
  {
    hide ObjectWords;
  }

  method ObjectStep(k: KernelMemory, held: Held, ghost known: Known, ghost op: Op, i: nat) returns (next: Held, ghost now: Known)
    requires op == ObjectOp(i) && k.Valid() && Keeps(k, held, known) && i < |held.caches|
    modifies k.heap.slab.pmm`freeFrames, k.heap.slab.pmm`lastFreeIndex, k.heap.slab.pmm`free, k.heap.slab.pmm.bitmap, k.heap.slab.ram.cells,
      k.heap.slab`caches, k.heap.slab`owner
    ensures k.Valid() && Keeps(k, next, now) && k.AllFrames() == old(k.AllFrames())
    ensures ClientStep(op, old(CanServe(k, held, op)), held, known, next, now)
  {
    hide LiveSame, KernelMemory.Valid, KernelMemory.AllFrames, PtrsOk, SpacesOk, ObjectsOk, HeadersAligned, RootsHaveHeaders, RootsAreTables, PlainObjects,
      SameMeaning, BlocksSame, ForeignSame, NoLeak, CanServe, BytesAt, OnlyLive, StillLive, ObjectWords;
    ghost var m, blocks, roots, nodes, caches, buckets :=
      k.heap.slab.ram.View(), k.heap.blocks, k.roots, k.spaces.t.nodes, k.heap.slab.caches, k.heap.buckets[..];
    IsReady(k);
    HeldCache(m, caches, k.heap.slab.meta, buckets, held, known.words, i);
    ObjectServed(k, held, i);
    var c := held.caches[i];
    ghost var live := caches[c].live;
    var a := k.NewObject(c);
    ghost var m', caches' := k.heap.slab.ram.View(), k.heap.slab.caches;
    NothingForeign(m, caches, buckets);
    ForeignSpared(m, m', caches, buckets, {});
    NewStillLive(caches, caches', k.heap.slab.meta, buckets, c, if a == 0 then live else live + {a});
    ObjectsAfter(m, m', caches, caches', k.heap.slab.meta, buckets, held.caches, held.objects, known.words, {});
    SpacesKept(m, m', nodes, roots, held.spaces, known.pages);
    PtrsStay(m, m', blocks, blocks, roots, held, known.data);
    next, now := held, known;
    if a != 0 {
      NewIsNotHeld(m, caches, k.heap.slab.meta, buckets, held, known.words, (c, a));
      ObjectGained(m', caches', k.heap.slab.meta, buckets, held, known.words, (c, a));
      next := held.(objects := held.objects + [(c, a)]);
      now := known.(words := known.words[(c, a) := ObjectWords(m', caches', (c, a))]);
      assert next.objects[|held.objects|] == (c, a);
    }
  }

  lemma ObjectSizeKnown(k: KernelMemory, c: nat)
    requires k.Valid() && c in k.heap.slab.caches
    ensures c / 8 < k.heap.slab.ram.cells.Length && Ld(k.heap.slab.ram.View(), c / 8) == k.heap.slab.caches[c].objSize
  {
    hide SlabWorld.Valid, AddressSpaces.Valid;
    k.Together();
    k.heap.slab.SizeInMemory(c);
  }

  lemma ForeignBut(m: seq<Word>, m': seq<Word>, caches: map<nat, Cache>, buckets: seq<nat>, but: set<nat>)
    requires LiveSame(m, m', caches, but)
    ensures ForeignSame(m, m', caches, buckets, but)
  {
  }

  lemma WholeWords(caches: map<nat, Cache>, meta: nat, buckets: seq<nat>, c: nat, a: nat)
    requires PlainObjects(caches, meta, buckets) && Foreign(caches, meta, buckets, c) && a in caches[c].live
    ensures (a + caches[c].objSize) / 8 == a / 8 + caches[c].objSize / 8
  {
    assert a !in caches && a % 8 == 0 && caches[c].objSize % 8 == 0;
  }

  /** The client stores word `w` of an object it holds, if the object has that many. */
  method WriteObjectStep(k: KernelMemory, held: Held, ghost known: Known, ghost op: Op, i: nat, w: nat, v: Word) returns (ghost now: Known)
    requires op == WriteObjectOp(i, w, v) && k.Valid() && Keeps(k, held, known) && i < |held.objects|
    modifies k.heap.slab.ram.cells
    ensures k.Valid() && Keeps(k, held, now) && k.AllFrames() == old(k.AllFrames())
    ensures ClientStep(op, old(CanServe(k, held, op)), held, known, held, now)
  {
    hide LiveSame, KernelMemory.Valid, KernelMemory.AllFrames, PtrsOk, SpacesOk, ObjectsOk, HeadersAligned, RootsHaveHeaders, RootsAreTables, PlainObjects,
      SameMeaning, BlocksSame, ForeignSame, NoLeak, CanServe, BytesAt, ObjectWords, SetAt, Put;
    ghost var m, blocks, roots, nodes, caches, buckets :=
      k.heap.slab.ram.View(), k.heap.blocks, k.roots, k.spaces.t.nodes, k.heap.slab.caches, k.heap.buckets[..];
    IsReady(k);
    HeldObject(m, caches, k.heap.slab.meta, buckets, held, known.words, i);
    WriteServed(k, held, i, w, v);
    var (c, a) := held.objects[i];
    WholeWords(caches, k.heap.slab.meta, buckets, c, a);
    ObjectSizeKnown(k, c);
    var size := k.heap.slab.ram.Load(c / 8);
    now := known;
    if w < size / 8 {
      k.WriteObject(c, a, a / 8 + w, v);
      ghost var m' := k.heap.slab.ram.View();
      ForeignBut(m, m', caches, buckets, {a});
      ObjectWritten(m, m', caches, k.heap.slab.meta, buckets, held, known.words, i, w, v);
      SpacesKept(m, m', nodes, roots, held.spaces, known.pages);
      PtrsStay(m, m', blocks, blocks, roots, held, known.data);
      now := known.(words := known.words[held.objects[i] := SetAt(known.words[held.objects[i]], w, v)]);
    }
  }

  lemma WriteServed(k: KernelMemory, held: Held, i: nat, w: nat, v: Word)
    ensures CanServe(k, held, WriteObjectOp(i, w, v)) <==>
      i < |held.objects| && held.objects[i].0 in k.heap.slab.caches && w < k.heap.slab.caches[held.objects[i].0].objSize / 8
  {
  }

  lemma GoneStillLive(caches: map<nat, Cache>, meta: nat, buckets: seq<nat>, c: nat, a: nat)
    requires c in caches
    ensures StillLive(caches, caches[c := Given(caches[c], a)], meta, buckets, {a})
  {
  }

  method FreeObjectStep(k: KernelMemory, held: Held, ghost known: Known, i: nat) returns (next: Held, ghost now: Known)
    requires k.Valid() && Keeps(k, held, known) && i < |held.objects|
    modifies k.heap.slab.ram.cells, k.heap.slab`caches
    ensures k.Valid() && Keeps(k, next, now) && k.AllFrames() == old(k.AllFrames())
    ensures Does(FreeObjectOp(i), held, known, next, now)
  {
    hide LiveSame, KernelMemory.Valid, KernelMemory.AllFrames, PtrsOk, SpacesOk, ObjectsOk, HeadersAligned, RootsHaveHeaders, RootsAreTables, PlainObjects,
      SameMeaning, BlocksSame, ForeignSame, NoLeak, CanServe, BytesAt, ObjectWords, Given, StillLive;
    ghost var m, blocks, roots, nodes, caches, buckets :=
      k.heap.slab.ram.View(), k.heap.blocks, k.roots, k.spaces.t.nodes, k.heap.slab.caches, k.heap.buckets[..];
    IsReady(k);
    HeldObject(m, caches, k.heap.slab.meta, buckets, held, known.words, i);
    ObjectLost(m, caches, k.heap.slab.meta, buckets, held, known.words, i);
    var (c, a) := held.objects[i];
    k.FreeObject(c, a);
    ghost var m', caches' := k.heap.slab.ram.View(), k.heap.slab.caches;
    ForeignBut(m, m', caches, buckets, {a});
    GoneStillLive(caches, k.heap.slab.meta, buckets, c, a);
    ObjectsAfter(m, m', caches, caches', k.heap.slab.meta, buckets, held.caches, Without(held.objects, i), known.words - {held.objects[i]}, {a});
    SpacesKept(m, m', nodes, roots, held.spaces, known.pages);
    PtrsStay(m, m', blocks, blocks, roots, held, known.data);
    next, now := held.(objects := Without(held.objects, i)), known.(words := known.words - {held.objects[i]});
  }

  // Runs

  /** One operation of the client; one on something it does not hold is not made. */
  method Step(k: KernelMemory, held: Held, ghost known: Known, op: Op) returns (next: Held, ghost now: Known, halted: bool)
    requires k.Valid() && Keeps(k, held, known)
    modifies k.heap.slab.pmm`freeFrames, k.heap.slab.pmm`lastFreeIndex, k.heap.slab.pmm`free, k.heap.slab.pmm.bitmap, k.heap.slab.ram.cells,
      k.heap.slab`caches, k.heap.slab`owner, k.heap.slab`metaInitialized, k.heap`blocks,
      k.spaces.t`nodes, k.spaces.asidUsed, k.spaces`asids, k`roots
    ensures k.Valid() && Keeps(k, next, now)
    ensures ClientStep(op, old(CanServe(k, held, op)), held, known, next, now)
    ensures NoLeak(old(k.heap.blocks)) && Fits(op) && !halted ==> NoLeak(k.heap.blocks) && k.AllFrames() == old(k.AllFrames())
  {
    hide KernelMemory.Valid, KernelMemory.AllFrames, Keeps, NoLeak, Does, SetAt, Room, Product, SameClass;
    ghost var can := CanServe(k, held, op);
    ghost var blocks := k.heap.blocks;
    PtrsKnown(k, held, known);
    next, now, halted := held, known, false;
    match op {
      case MallocOp(size) =>
        next, now, halted := MallocStep(k, held, known, op, size);
      case CallocOp(num, size) =>
        next, now, halted := CallocStep(k, held, known, op, num, size);
      case FreeOp(i) =>
        if i < |held.ptrs| {
          next, now := FreeStep(k, held, known, i);
          assert Does(op, held, known, next, now) by {
            FreeDone(op, held, known, next, now, i);
          }
        }
      case FreeSizedOp(i, size) =>
        if i < |held.ptrs| && SameClass(held.sizes[held.ptrs[i]], size) {
          next, now := FreeSizedStep(k, held, known, i, size);
          assert Does(op, held, known, next, now) by {
            FreeDone(op, held, known, next, now, i);
          }
        }
      case ReallocOp(i, size) =>
        if i < |held.ptrs| {
          if held.sizes[held.ptrs[i]] < size {
            next, now, halted := GrowStep(k, held, known, op, i, size);
          } else {
            next, now := ShrinkStep(k, held, known, op, i, size);
          }
        }
      case WriteOp(i, at, b) =>
        if i < |held.ptrs| && at < Room(held.sizes[held.ptrs[i]]) && b < 256 {
          now := WriteStep(k, held, known, i, at, b);
        }
      case CreateOp =>
        next, now, halted := CreateStep(k, held, known);
      case DestroyOp(i) =>
        if i < |held.spaces| {
          next, now := DestroyStep(k, held, known, i);
        }
      case MapPageOp(i, va, phys, prot) =>
        if i < |held.spaces| {
          now := MapStep(k, held, known, op, i, va, phys, prot);
        }
      case UnmapPageOp(i, va) =>
        if i < |held.spaces| {
          now := UnmapStep(k, held, known, i, va);
        }
      case CacheOp(objSize) =>
        if objSize + 8 <= U64 {
          next := CacheStep(k, held, known, op, objSize);
        }
      case ObjectOp(i) =>
        if i < |held.caches| {
          next, now := ObjectStep(k, held, known, op, i);
        }
      case WriteObjectOp(i, w, v) =>
        if i < |held.objects| {
          now := WriteObjectStep(k, held, known, op, i, w, v);
        }
      case FreeObjectOp(i) =>
        if i < |held.objects| {
          next, now := FreeObjectStep(k, held, known, i);
        }
    }
  }

  /** The client has a size for every pointer it holds. */
  lemma PtrsKnown(k: KernelMemory, held: Held, known: Known)
    requires Keeps(k, held, known)
    ensures forall i :: 0 <= i < |held.ptrs| ==> held.ptrs[i] in held.sizes
  {
    hide Room, BytesAt, SpacesOk, ObjectsOk;
    forall i | 0 <= i < |held.ptrs|
      ensures held.ptrs[i] in held.sizes
    {
      assert held.ptrs[i] in held.ptrs;
    }
  }

  lemma FreeDone(op: Op, held: Held, known: Known, next: Held, now: Known, i: nat)
    requires (op == FreeOp(i) || (op.FreeSizedOp? && op.k == i)) && i < |held.ptrs| && next == Lose(held, i) && now == Forget(known, held.ptrs[i])
    ensures Does(op, held, known, next, now)
  {
  }

  /**
   Any run, until it ends or the kernel halts. The stack stays valid, so by `ItemsApart` everything live is disjoint. Each operation does
   the one thing it should to the client's view, or nothing: blocks behave as byte sequences, address spaces as page maps and objects as
   word sequences of their own, whatever the calls in between. When no request is too large to be rounded up to pages, every frame stays
   accounted for.
   */
  method Run(k: KernelMemory, held: Held, ghost known: Known, ops: seq<Op>)
    returns (next: Held, halted: bool, ghost served: seq<bool>, ghost trace: seq<(Held, Known)>)
    requires k.Valid() && Keeps(k, held, known)
    modifies k.heap.slab.pmm`freeFrames, k.heap.slab.pmm`lastFreeIndex, k.heap.slab.pmm`free, k.heap.slab.pmm.bitmap, k.heap.slab.ram.cells,
      k.heap.slab`caches, k.heap.slab`owner, k.heap.slab`metaInitialized, k.heap`blocks,
      k.spaces.t`nodes, k.spaces.asidUsed, k.spaces`asids, k`roots
    ensures k.Valid() && IsTrace(ops, served, trace) && (!halted ==> |served| == |ops|)
    ensures trace[0] == (held, known) && trace[|served|].0 == next && Keeps(k, next, trace[|served|].1)
    ensures NoLeak(old(k.heap.blocks)) && (forall op :: op in ops ==> Fits(op)) && !halted ==>
      NoLeak(k.heap.blocks) && k.AllFrames() == old(k.AllFrames())
  {
    hide KernelMemory.Valid, Keeps, NoLeak, Fits, KernelMemory.AllFrames, ClientStep, CanServe;
    next, halted, served, trace := held, false, [], [(held, known)];
    for i := 0 to |ops|
      invariant k.Valid() && !halted && |served| == i && IsTrace(ops, served, trace)
      invariant trace[0] == (held, known) && trace[i].0 == next && Keeps(k, next, trace[i].1)
      invariant NoLeak(old(k.heap.blocks)) && (forall op :: op in ops ==> Fits(op)) ==>
        NoLeak(k.heap.blocks) && k.AllFrames() == old(k.AllFrames())
    {
      ghost var can := CanServe(k, next, ops[i]);
      ghost var now;
      next, now, halted := Step(k, next, trace[i].1, ops[i]);
      TraceGrows(ops, served, trace, can, next, now);
      served, trace := served + [can], trace + [(next, now)];
      if halted {
        return;
      }
    }
  }
}
