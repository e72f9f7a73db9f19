/** The memory stack as a whole: nothing live overlaps, and the life of an address space leaves nothing behind. */
module MemoryRuns {
  import opened Machine
  import opened PhysFrame
  import opened Slab
  import opened KHeap
  import opened PageTree
  import opened TableMemory
  import opened Arm64Paging
  import opened Arm64History
  import opened MemoryStack

  /**
   Everything that occupies managed memory. Small `kmalloc` blocks and cache structures are live objects of their caches;
   the structure of the bootstrap cache is static and lies outside.
   */
  datatype Item =
    | FreeNode(cache: nat, addr: nat)
    | LiveObject(cache: nat, addr: nat)
    | SlabHeader(page: nat)
    | LargeBlock(header: nat)
    | TableFrame(page: nat)

  ghost predicate Occupies(caches: map<nat, Cache>, owner: map<nat, nat>, blocks: map<nat, Word>, nodes: map<nat, Node>, i: Item) {
    match i
    case FreeNode(c, a) => c in caches && a in caches[c].free
    case LiveObject(c, a) => c in caches && a in caches[c].live
    case SlabHeader(p) => p in owner
    case LargeBlock(h) => h in blocks && MAX_SLAB < blocks[h]
    case TableFrame(p) => p in nodes
  }

  /** The first byte of an item, and one past its last. */
  ghost function First(i: Item): nat {
    match i
    case FreeNode(c, a) => a
    case LiveObject(c, a) => a
    case SlabHeader(p) => p * PAGE_SIZE
    case LargeBlock(h) => h
    case TableFrame(p) => p * PAGE_SIZE
  }

  ghost function Last(caches: map<nat, Cache>, blocks: map<nat, Word>, i: Item): nat {
    match i
    case FreeNode(c, a) => if c in caches then a + caches[c].objSize else a
    case LiveObject(c, a) => if c in caches then a + caches[c].objSize else a
    case SlabHeader(p) => p * PAGE_SIZE + FRAME_HEADER
    case LargeBlock(h) => if h in blocks then End(h, blocks[h]) else h
    case TableFrame(p) => (p + 1) * PAGE_SIZE
  }

  predicate InSlab(i: Item) {
    i.FreeNode? || i.LiveObject? || i.SlabHeader?
  }

  /** The pages an item lies in. */
  ghost function Home(blocks: map<nat, Word>, i: Item): set<nat> {
    match i
    case FreeNode(c, a) => {a / PAGE_SIZE}
    case LiveObject(c, a) => {a / PAGE_SIZE}
    case SlabHeader(p) => {p}
    case LargeBlock(h) => if h in blocks then OwnFrames(h, blocks[h]) else {}
    case TableFrame(p) => {p}
  }

  /** Two intervals of bytes in disjoint sets of pages do not meet. */
  lemma ApartByPages(a: nat, b: nat, c: nat, d: nat, p: nat, n: nat, q: nat, k: nat)
    requires p * PAGE_SIZE <= a && b <= (p + n) * PAGE_SIZE && q * PAGE_SIZE <= c && d <= (q + k) * PAGE_SIZE
    requires 0 < n && 0 < k && Span(p, n) !! Span(q, k)
    ensures b <= c || d <= a
  {
    assert p in Span(p, n) && q in Span(q, k);
    assert p !in Span(q, k) && q !in Span(p, n);
  }

  lemma SlabItemPlace(m: seq<Word>, caches: map<nat, Cache>, owner: map<nat, nat>, meta: nat, blocks: map<nat, Word>,
                      nodes: map<nat, Node>, i: Item)
    requires WorldOk(m, caches, owner, meta) && InSlab(i) && Occupies(caches, owner, blocks, nodes, i)
    ensures var p := First(i) / PAGE_SIZE;
      && Home(blocks, i) == {p} && p in owner
      && Last(caches, blocks, i) <= (p + 1) * PAGE_SIZE && First(i) < Last(caches, blocks, i)
  {
    hide WorldOk;
    if !i.SlabHeader? {
      ObjectPlace(m, caches, owner, meta, i.cache, i.addr);
    }
  }

  /** Free nodes, live objects and headers of all slabs are apart. */
  lemma SlabItemsApart(m: seq<Word>, caches: map<nat, Cache>, owner: map<nat, nat>, meta: nat, blocks: map<nat, Word>,
                       nodes: map<nat, Node>, i: Item, j: Item)
    requires WorldOk(m, caches, owner, meta) && InSlab(i) && InSlab(j) && i != j
    requires Occupies(caches, owner, blocks, nodes, i) && Occupies(caches, owner, blocks, nodes, j)
    ensures Last(caches, blocks, i) <= First(j) || Last(caches, blocks, j) <= First(i)
  {
    hide WorldOk;
    if i.SlabHeader? && j.SlabHeader? {
    } else if i.SlabHeader? {
      ObjectPlace(m, caches, owner, meta, j.cache, j.addr);
    } else if j.SlabHeader? {
      ObjectPlace(m, caches, owner, meta, i.cache, i.addr);
    } else {
      ObjectsAreDistinct(m, caches, owner, meta, blocks, nodes, i, j);
      AnyObjectsApart(m, caches, owner, meta, i.cache, i.addr, j.cache, j.addr);
    }
  }

  /** No address is both free and live, or an object of two caches. */
  lemma ObjectsAreDistinct(m: seq<Word>, caches: map<nat, Cache>, owner: map<nat, nat>, meta: nat, blocks: map<nat, Word>,
                           nodes: map<nat, Node>, i: Item, j: Item)
    requires WorldOk(m, caches, owner, meta) && InSlab(i) && InSlab(j) && i != j && !i.SlabHeader? && !j.SlabHeader?
    requires Occupies(caches, owner, blocks, nodes, i) && Occupies(caches, owner, blocks, nodes, j)
    ensures i.addr != j.addr
  {
    hide InMemory, IsObject;
    ObjectPlace(m, caches, owner, meta, i.cache, i.addr);
    ObjectPlace(m, caches, owner, meta, j.cache, j.addr);
    assert Accounted(caches[i.cache]);
  }

  /** Where an item that is no slab item lies. */
  lemma OtherItemPlace(m: seq<Word>, caches: map<nat, Cache>, owner: map<nat, nat>, pages: set<nat>, low: nat, high: nat, free: set<nat>,
                       blocks: map<nat, Word>, nodes: map<nat, Node>, i: Item)
    requires LargeOk(m, pages, low, high, free, blocks) && !InSlab(i) && Occupies(caches, owner, blocks, nodes, i)
    ensures var p, n := First(i) / PAGE_SIZE, if i.LargeBlock? then OwnedPages(blocks[i.header]) else 1;
      && Home(blocks, i) == Span(p, n) && 0 < n
      && p * PAGE_SIZE == First(i) && Last(caches, blocks, i) == (p + n) * PAGE_SIZE
      && (if i.LargeBlock? then Home(blocks, i) <= LargeFrames(blocks) && Home(blocks, i) !! free + pages && low <= p && p + n <= high
          else Home(blocks, i) <= nodes.Keys)
  {
    hide NumPages;
    if i.LargeBlock? {
      LargePlace(m, pages, low, high, free, blocks, i.header);
    } else {
      assert Span(i.page, 1) == {i.page};
    }
  }

  /** All that the items of a state rest on. */
  ghost predicate Sound(m: seq<Word>, caches: map<nat, Cache>, owner: map<nat, nat>, meta: nat, pages: set<nat>, low: nat, high: nat,
                        free: set<nat>, blocks: map<nat, Word>, nodes: map<nat, Node>) {
    && WorldOk(m, caches, owner, meta) && LargeOk(m, pages, low, high, free, blocks)
    && owner.Keys <= pages && nodes.Keys !! pages + LargeFrames(blocks)
    && owner.Keys !! free && nodes.Keys !! free
    && (forall p :: p in owner || p in nodes ==> low <= p < high)
  }

  lemma HomesApart(m: seq<Word>, caches: map<nat, Cache>, owner: map<nat, nat>, meta: nat, pages: set<nat>, low: nat, high: nat,
                   free: set<nat>, blocks: map<nat, Word>, nodes: map<nat, Node>, i: Item, j: Item)
    requires Sound(m, caches, owner, meta, pages, low, high, free, blocks, nodes) && i != j && (!InSlab(i) || !InSlab(j))
    requires Occupies(caches, owner, blocks, nodes, i) && Occupies(caches, owner, blocks, nodes, j)
    ensures Home(blocks, i) !! Home(blocks, j)
  {
    hide WorldOk, LargeOk, LargeFrames, OwnFrames;
    if InSlab(i) {
      SlabItemPlace(m, caches, owner, meta, blocks, nodes, i);
      OtherItemPlace(m, caches, owner, pages, low, high, free, blocks, nodes, j);
    } else if InSlab(j) {
      SlabItemPlace(m, caches, owner, meta, blocks, nodes, j);
      OtherItemPlace(m, caches, owner, pages, low, high, free, blocks, nodes, i);
    } else {
      OtherItemPlace(m, caches, owner, pages, low, high, free, blocks, nodes, i);
      OtherItemPlace(m, caches, owner, pages, low, high, free, blocks, nodes, j);
      if i.LargeBlock? && j.LargeBlock? {
        LargePlace(m, pages, low, high, free, blocks, i.header);
      }
    }
  }

  /** Pages that hold an item. */
  lemma ItemPages(m: seq<Word>, caches: map<nat, Cache>, owner: map<nat, nat>, meta: nat, pages: set<nat>, low: nat, high: nat,
                  free: set<nat>, blocks: map<nat, Word>, nodes: map<nat, Node>, i: Item) returns (n: nat)
    requires Sound(m, caches, owner, meta, pages, low, high, free, blocks, nodes) && Occupies(caches, owner, blocks, nodes, i)
    ensures var p := First(i) / PAGE_SIZE;
      && 0 < n && Home(blocks, i) == Span(p, n) && p * PAGE_SIZE <= First(i) < Last(caches, blocks, i) <= (p + n) * PAGE_SIZE
    ensures Home(blocks, i) !! free && forall p :: p in Home(blocks, i) ==> low <= p < high
  {
    hide WorldOk, LargeOk, LargeFrames, OwnFrames, NumPages;
    if InSlab(i) {
      SlabItemPlace(m, caches, owner, meta, blocks, nodes, i);
      n := 1;
      assert Span(First(i) / PAGE_SIZE, 1) == {First(i) / PAGE_SIZE};
    } else {
      OtherItemPlace(m, caches, owner, pages, low, high, free, blocks, nodes, i);
      n := if i.LargeBlock? then OwnedPages(blocks[i.header]) else 1;
    }
  }

  lemma SoundItemsApart(m: seq<Word>, caches: map<nat, Cache>, owner: map<nat, nat>, meta: nat, pages: set<nat>, low: nat, high: nat,
                        free: set<nat>, blocks: map<nat, Word>, nodes: map<nat, Node>, i: Item, j: Item)
    requires Sound(m, caches, owner, meta, pages, low, high, free, blocks, nodes) && i != j
    requires Occupies(caches, owner, blocks, nodes, i) && Occupies(caches, owner, blocks, nodes, j)
    ensures Last(caches, blocks, i) <= First(j) || Last(caches, blocks, j) <= First(i)
  {
    hide WorldOk, LargeOk, Home, First, Last, Occupies, LargeFrames;
    if InSlab(i) && InSlab(j) {
      SlabItemsApart(m, caches, owner, meta, blocks, nodes, i, j);
    } else {
      HomesApart(m, caches, owner, meta, pages, low, high, free, blocks, nodes, i, j);
      var n := ItemPages(m, caches, owner, meta, pages, low, high, free, blocks, nodes, i);
      var k := ItemPages(m, caches, owner, meta, pages, low, high, free, blocks, nodes, j);
      ApartByPages(First(i), Last(caches, blocks, i), First(j), Last(caches, blocks, j), First(i) / PAGE_SIZE, n, First(j) / PAGE_SIZE, k);
    }
  }

  ghost predicate Has(k: KernelMemory, i: Item)
    reads k.heap, k.heap.slab, k.spaces.t`nodes
  {
    Occupies(k.heap.slab.caches, k.heap.slab.owner, k.heap.blocks, k.spaces.t.nodes, i)
  }

  lemma IsSound(k: KernelMemory)
    requires k.Valid()
    ensures Sound(k.heap.slab.ram.View(), k.heap.slab.caches, k.heap.slab.owner, k.heap.slab.meta, k.heap.slab.Pages(),
                  k.heap.slab.pmm.first, k.heap.slab.pmm.first + k.heap.slab.pmm.totalFrames, k.heap.slab.pmm.free,
                  k.heap.blocks, k.spaces.t.nodes)
  {
    hide WorldOk, LargeOk, SmallOk, BucketsOk, Forest, Represents, RootsOk, LargeFrames, AsidTable, IsRoot;
  }

  /** Disjointness of all live memory: no two items share a byte. */
  lemma ItemsApart(k: KernelMemory, i: Item, j: Item)
    requires k.Valid() && Has(k, i) && Has(k, j) && i != j
    ensures Last(k.heap.slab.caches, k.heap.blocks, i) <= First(j) || Last(k.heap.slab.caches, k.heap.blocks, j) <= First(i)
  {
    hide WorldOk, LargeOk, KernelMemory.Valid, Occupies, Sound;
    IsSound(k);
    SoundItemsApart(k.heap.slab.ram.View(), k.heap.slab.caches, k.heap.slab.owner, k.heap.slab.meta, k.heap.slab.Pages(),
                    k.heap.slab.pmm.first, k.heap.slab.pmm.first + k.heap.slab.pmm.totalFrames, k.heap.slab.pmm.free,
                    k.heap.blocks, k.spaces.t.nodes, i, j);
  }

  /** Every byte of every item lies in a frame of the machine that is marked used. */
  lemma ItemsInUsedFrames(k: KernelMemory, i: Item, b: nat)
    requires k.Valid() && Has(k, i) && First(i) <= b < Last(k.heap.slab.caches, k.heap.blocks, i)
    ensures k.heap.slab.pmm.InRange(b / PAGE_SIZE) && b / PAGE_SIZE !in k.heap.slab.pmm.free
  {
    hide WorldOk, LargeOk, KernelMemory.Valid, Occupies, Sound, Home, First, Last;
    IsSound(k);
    var n := ItemPages(k.heap.slab.ram.View(), k.heap.slab.caches, k.heap.slab.owner, k.heap.slab.meta, k.heap.slab.Pages(),
                       k.heap.slab.pmm.first, k.heap.slab.pmm.first + k.heap.slab.pmm.totalFrames, k.heap.slab.pmm.free,
                       k.heap.blocks, k.spaces.t.nodes, i);
    assert b / PAGE_SIZE in Home(k.heap.blocks, i);
  }

  /** Every heap block is one of these items, from its header to its end. */
  lemma BlocksAreItems(k: KernelMemory, h: nat)
    requires k.Valid() && h in k.heap.blocks
    ensures exists i :: Has(k, i) && First(i) == h && Last(k.heap.slab.caches, k.heap.blocks, i) == End(h, k.heap.blocks[h])
  {
    hide KernelMemory.Valid, WorldOk, SmallOk, LargeOk, BucketsOk, BucketSize, NumPages, End;
    k.Together();
    k.heap.SmallPlace(h);
    var i := if k.heap.blocks[h] <= MAX_SLAB then LiveObject(k.heap.CacheOf(k.heap.blocks[h]), h) else LargeBlock(h);
    assert Has(k, i) && First(i) == h;
  }

  // The lifetime of one address space

  lemma NothingAddedYet(root: nat, m: seq<Word>, n: map<nat, Node>, f: set<nat>)
    requires n.Keys !! f
    ensures TablesAdded(root, m, n, f, m, n, f) && OthersSame(m, m, n, root)
  {
  }

  /** With the large blocks and tables unchanged, the slab layer's pages and the free frames together are unchanged. */
  lemma SlabKeepsTheRest(pages: set<nat>, large: set<nat>, free: set<nat>, tables: set<nat>, pages': set<nat>, free': set<nat>)
    requires pages + large + free + tables == pages' + large + free' + tables
    requires large !! pages + free && large !! pages' + free' && tables !! pages + free && tables !! pages' + free'
    ensures pages' + free' == pages + free
  {
    forall p
      ensures p in pages' + free' <==> p in pages + free
    {
      assert p in pages + large + free + tables <==> p in pages' + large + free' + tables;
    }
  }

  lemma Layers(k: KernelMemory)
    requires k.Valid()
    ensures k.AllFrames() == k.heap.slab.Pages() + LargeFrames(k.heap.blocks) + k.heap.slab.pmm.free + k.spaces.t.nodes.Keys
    ensures LargeFrames(k.heap.blocks) !! k.heap.slab.Pages() + k.heap.slab.pmm.free
    ensures k.spaces.t.nodes.Keys !! k.heap.slab.Pages() + k.heap.slab.pmm.free
    ensures k.spaces.t.nodes.Keys !! k.heap.slab.pmm.free && Forest(Arm64, k.heap.slab.ram.View(), k.spaces.t.nodes)
  {
    hide LargeFrames, KernelMemory.Valid, Forest, Sound;
    k.Parts();
    k.HeapParts();
    IsSound(k);
    LargeClearOfPages(k);
  }

  lemma LargeClearOfPages(k: KernelMemory)
    requires k.Valid()
    ensures LargeFrames(k.heap.blocks) !! k.heap.slab.Pages()
  {
    hide WorldOk, SmallOk, BucketsOk, Forest, Represents, RootsOk, AsidTable, IsRoot, OwnedPages, Span;
    IsSound(k);
    var blocks := k.heap.blocks;
    forall h | h in blocks
      ensures OwnFrames(h, blocks[h]) !! k.heap.slab.Pages()
    {
      if blocks[h] <= MAX_SLAB {
        NothingOwned(h, blocks[h]);
      }
    }
  }

  lemma UpdatedOthers(a: seq<Word>, b: seq<Word>, nodes: map<nat, Node>, root: nat, vpn: nat, e: Option<Word>)
    ensures Updated(Arm64, a, b, nodes, root, vpn, e) ==> OthersSame(a, b, nodes, root)
    ensures SameMeaning(Arm64, a, b, nodes) ==> OthersSame(a, b, nodes, root)
  {
  }

  lemma PagesSameAgain(a: seq<Word>, b: seq<Word>, c: seq<Word>, nodes: map<nat, Node>)
    requires SamePages(a, b, nodes) && SameMeaning(Arm64, b, c, nodes)
    ensures SamePages(a, c, nodes)
  {
    forall r, v: nat | IsRoot(nodes, r) && v < VpnLimit(Arm64)
      ensures Lookup(Arm64, c, r, 0, v) == Lookup(Arm64, a, r, 0, v)
    {
      assert Lookup(Arm64, b, r, 0, v) == Lookup(Arm64, a, r, 0, v);
    }
  }

  /** Blocks that were there before one more was added, used and removed. */
  lemma OldBlocksSame(m0: seq<Word>, m1: seq<Word>, m2: seq<Word>, m3: seq<Word>, blocks: map<nat, Word>, grown: map<nat, Word>, h: nat)
    requires BlocksSame(m0, m1, blocks, {}) && BlocksSame(m1, m2, grown, {}) && BlocksSame(m2, m3, grown, {h}) && h !in blocks
    requires forall k :: k in blocks ==> k in grown && grown[k] == blocks[k]
    ensures BlocksSame(m0, m3, blocks, {})
  {
    hide BlocksSame;
    SparesMore(m1, m2, map[], grown, h);
    BlocksSameAgain(m1, m2, m3, grown, {h});
    NewSparesOld(m0, m1, m3, blocks, grown, h);
  }

  lemma MoreFree(freed: seq<nat>, created: bool, free: set<nat>, more: set<nat>, nodes: map<nat, Node>)
    requires FreedOnce(freed, created, free, nodes) && free <= more
    ensures FreedOnce(freed, created, more, nodes)
  {
  }

  /** What the rest of a new address space's life starts from. */
  lemma SpaceBegins(ptr: nat, roots: map<nat, nat>, roots': map<nat, nat>, blocks: map<nat, Word>, blocks': map<nat, Word>,
                    nodes: map<nat, Node>, nodes': map<nat, Node>, asids: map<nat, nat>, asids': map<nat, nat>,
                    free: set<nat>, free': set<nat>, stock: seq<nat>, m: seq<Word>)
    requires Created(ptr, roots, roots', blocks, blocks', nodes, nodes', asids, asids', free, free', stock, m)
    ensures if ptr == 0 then roots' == roots && blocks' == blocks && nodes' == nodes && asids' == asids && RefillTakes(stock, free, free')
      else
        && HEADER <= ptr && ptr in roots' && roots' - {ptr} == roots && blocks' - BlockAt(ptr) == blocks && ptr - HEADER !in blocks
        && (forall k :: k in blocks ==> k in blocks' && blocks'[k] == blocks[k])
        && roots'[ptr] !in nodes && nodes' == WithRoot(nodes, roots'[ptr]) && asids' - {roots'[ptr]} == asids
        && free' + {roots'[ptr]} <= free && roots'[ptr] !in free' && RefillTakes(stock, free, free' + {roots'[ptr]})
  {
    hide MapsNothing, WithRoot;
  }

  /**
   Create an address space, run any map and unmap history on it, destroy it: tables, ASIDs, root structures, heap blocks with every
   word of theirs, and all other trees' pages are as before, and so are the free frames except for at most one page that the slab layer
   took for the root structure and keeps. The frames given back at the end were free before, and each comes back once.
   */
  method SpaceLifetime(k: KernelMemory, ops: seq<PageOp>) returns (created: bool, halted: bool, ghost freed: seq<nat>)
    requires k.Valid()
    modifies k.heap.slab.pmm`freeFrames, k.heap.slab.pmm`lastFreeIndex, k.heap.slab.pmm`free, k.heap.slab.pmm.bitmap, k.heap.slab.ram.cells,
      k.heap.slab`caches, k.heap.slab`owner, k.heap`blocks, k.spaces.t`nodes, k.spaces.asidUsed, k.spaces`asids, k`roots
    ensures k.Valid() && k.roots == old(k.roots) && k.heap.blocks == old(k.heap.blocks)
    ensures k.spaces.t.nodes == old(k.spaces.t.nodes) && k.spaces.asids == old(k.spaces.asids)
    ensures !halted ==> k.heap.slab.Pages() + k.heap.slab.pmm.free == old(k.heap.slab.Pages() + k.heap.slab.pmm.free)
    ensures halted <==> old(k.heap.slab.pmm.free) == {} && old(k.heap.FreeObjects(ROOT_STRUCT)) == []
    ensures created <==> Creatable(old(k.heap.slab.pmm.free), old(k.heap.FreeObjects(ROOT_STRUCT)), old(k.spaces.asids))
    ensures RefillTakes(old(k.heap.FreeObjects(ROOT_STRUCT)), old(k.heap.slab.pmm.free), k.heap.slab.pmm.free)
    ensures SamePages(old(k.heap.slab.ram.View()), k.heap.slab.ram.View(), old(k.spaces.t.nodes))
    ensures BlocksSame(old(k.heap.slab.ram.View()), k.heap.slab.ram.View(), old(k.heap.blocks), {})
    ensures FreedOnce(freed, created, old(k.heap.slab.pmm.free), old(k.spaces.t.nodes))
  {
    hide KernelMemory.Valid, KernelMemory.AllFrames, SlabWorld.Pages, LargeFrames, SameMeaning, SamePages, BlocksSame, FreedOnce, Created,
      OnlyBuckets, WithRoot, Forest, Creatable, RefillTakes, KernelHeap.FreeObjects;
    freed := [];
    Layers(k);
    ghost var m0, n0, blocks0, free0 := k.heap.slab.ram.View(), k.spaces.t.nodes, k.heap.blocks, k.heap.slab.pmm.free;
    ghost var roots0, asids0, stock := k.roots, k.spaces.asids, k.heap.FreeObjects(ROOT_STRUCT);
    NoneFreed(free0, n0);
    var ptr, stop := k.CreatePagetable();
    halted := stop;
    created := ptr != 0;
    ghost var m1, f1 := k.heap.slab.ram.View(), k.heap.slab.pmm.free;
    SpaceBegins(ptr, roots0, k.roots, blocks0, k.heap.blocks, n0, k.spaces.t.nodes, asids0, k.spaces.asids, free0, f1, stock, m1);
    SameIsSamePages(m0, m1, n0);
    if created {
      ghost var root := k.roots[ptr];
      freed := LiveOut(k, ptr, ops, m0, n0, blocks0);
      MoreFree(freed, true, f1 + {root}, free0, n0);
    }
    Layers(k);
    if !halted {
      SlabKeepsTheRest(old(k.heap.slab.Pages()), LargeFrames(blocks0), free0, n0.Keys, k.heap.slab.Pages(), k.heap.slab.pmm.free);
    }
  }

  /** The rest of the life of the address space just created at `ptr`, `m0`, `n0` and `blocks0` being from before it. */
  method LiveOut(k: KernelMemory, ptr: nat, ops: seq<PageOp>, ghost m0: seq<Word>, ghost n0: map<nat, Node>, ghost blocks0: map<nat, Word>)
    returns (ghost freed: seq<nat>)
    requires k.Valid() && ptr in k.roots && Forest(Arm64, m0, n0) && k.roots[ptr] !in n0 && k.spaces.t.nodes == WithRoot(n0, k.roots[ptr])
    requires SameMeaning(Arm64, m0, k.heap.slab.ram.View(), n0) && BlocksSame(m0, k.heap.slab.ram.View(), blocks0, {})
    requires HEADER <= ptr && ptr - HEADER !in blocks0 && k.roots[ptr] !in k.heap.slab.pmm.free && n0.Keys !! k.heap.slab.pmm.free
    requires forall h :: h in blocks0 ==> h in k.heap.blocks && k.heap.blocks[h] == blocks0[h]
    modifies k.heap.slab.pmm`freeFrames, k.heap.slab.pmm`lastFreeIndex, k.heap.slab.pmm`free, k.heap.slab.pmm.bitmap, k.heap.slab.ram.cells,
      k.heap.slab`caches, k.heap`blocks, k.spaces.t`nodes, k.spaces.asidUsed, k.spaces`asids, k`roots
    ensures k.Valid() && k.AllFrames() == old(k.AllFrames()) && k.spaces.t.nodes == n0
    ensures k.roots == old(k.roots) - {ptr} && k.heap.blocks == old(k.heap.blocks) - BlockAt(ptr)
    ensures k.spaces.asids == old(k.spaces.asids) - {old(k.roots)[ptr]}
    ensures SamePages(m0, k.heap.slab.ram.View(), n0) && BlocksSame(m0, k.heap.slab.ram.View(), blocks0, {})
    ensures k.heap.slab.pmm.free == old(k.heap.slab.pmm.free) + {old(k.roots)[ptr]}
    ensures FreedOnce(freed, true, old(k.heap.slab.pmm.free) + {old(k.roots)[ptr]}, n0)
  {
    hide KernelMemory.Valid, KernelMemory.AllFrames, LargeFrames, SameMeaning, SamePages, OthersSame, BlocksSame, TablesAdded, OnlyBuckets, WithRoot,
      WithoutTree, EachOnce, Forest, FreedOnce;
    ghost var root, m1, n1, f1, blocks1 := k.roots[ptr], k.heap.slab.ram.View(), k.spaces.t.nodes, k.heap.slab.pmm.free, k.heap.blocks;
    History(k, ptr, ops);
    ghost var m2, n2, f2 := k.heap.slab.ram.View(), k.spaces.t.nodes, k.heap.slab.pmm.free;
    assert f1 + {root} - {root} == f1;
    TreeComesAndGoes(root, m0, n0, f1 + {root}, m1, m2, n2, f2);
    OthersKept(root, m0, n0, m1, m2);
    freed := k.DestroyPagetable(ptr);
    PagesSameAgain(m0, m2, k.heap.slab.ram.View(), n0);
    OldBlocksSame(m0, m1, m2, k.heap.slab.ram.View(), blocks0, blocks1, ptr - HEADER);
    FreedTables(freed, root, m1, n0, f1 + {root}, m2, n2, f2);
  }

  /** Any map and unmap calls on the address space at `ptr`. */
  method History(k: KernelMemory, ptr: nat, ops: seq<PageOp>)
    requires k.Valid() && ptr in k.roots
    modifies k.heap.slab.pmm`freeFrames, k.heap.slab.pmm`lastFreeIndex, k.heap.slab.pmm`free, k.heap.slab.pmm.bitmap, k.heap.slab.ram.cells, k.spaces.t`nodes
    ensures k.Valid() && k.AllFrames() == old(k.AllFrames())
    ensures TablesAdded(k.roots[ptr], old(k.heap.slab.ram.View()), old(k.spaces.t.nodes), old(k.heap.slab.pmm.free),
                        k.heap.slab.ram.View(), k.spaces.t.nodes, k.heap.slab.pmm.free)
    ensures OthersSame(old(k.heap.slab.ram.View()), k.heap.slab.ram.View(), old(k.spaces.t.nodes), k.roots[ptr])
    ensures BlocksSame(old(k.heap.slab.ram.View()), k.heap.slab.ram.View(), k.heap.blocks, {})
  {
    hide KernelMemory.Valid, KernelMemory.AllFrames, SlabWorld.Pages, LargeFrames, SameMeaning, OthersSame, BlocksSame, TablesAdded, Updated,
      LeafEntry, Vpn, Forest, LinksMissing, Missing, Lookup;
    Layers(k);
    ghost var m0, n0, f0, root := k.heap.slab.ram.View(), k.spaces.t.nodes, k.heap.slab.pmm.free, k.roots[ptr];
    NothingAddedYet(root, m0, n0, f0);
    BlocksUntouched(m0, k.heap.blocks);
    for i := 0 to |ops|
      invariant k.Valid() && k.AllFrames() == old(k.AllFrames())
      invariant TablesAdded(root, m0, n0, f0, k.heap.slab.ram.View(), k.spaces.t.nodes, k.heap.slab.pmm.free)
      invariant OthersSame(m0, k.heap.slab.ram.View(), n0, root) && BlocksSame(m0, k.heap.slab.ram.View(), k.heap.blocks, {})
    {
      ghost var m, n, f := k.heap.slab.ram.View(), k.spaces.t.nodes, k.heap.slab.pmm.free;
      var r;
      match ops[i] {
        case MapOp(va, phys, prot) =>
          r := k.MapPage(ptr, va, phys, prot);
          UpdatedOthers(m, k.heap.slab.ram.View(), n, root, Vpn(va), Some(LeafEntry(phys, prot)));
        case UnmapOp(va) =>
          r := k.UnmapPage(ptr, va);
          UpdatedOthers(m, k.heap.slab.ram.View(), n, root, Vpn(va), None);
      }
      AddedTwice(root, m0, n0, f0, m, n, f, k.heap.slab.ram.View(), k.spaces.t.nodes, k.heap.slab.pmm.free);
      BlocksSameAgain(m0, m, k.heap.slab.ram.View(), k.heap.blocks, {});
    }
  }
}
