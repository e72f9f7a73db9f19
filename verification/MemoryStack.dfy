/**
 The whole memory stack of a running arm64 kernel: frame allocator, slab layer, heap and page tables over one physical memory.
 Each layer was proved against the frames it is given; here they share them.
 */
module MemoryStack {
  import opened Machine
  import opened Bytes
  import opened PhysFrame
  import opened Slab
  import opened KHeap
  import opened PageTree
  import opened TableMemory
  import opened Arm64Paging

  lemma WordOutside(m: seq<Word>, m': seq<Word>, pages: set<nat>, w: nat)
    requires SameOutside(m, m', pages) && w / PAGE_WORDS !in pages
    ensures Ld(m', w) == Ld(m, w)
  {
    assert Entry(m', w / PAGE_WORDS, w % PAGE_WORDS) == Entry(m, w / PAGE_WORDS, w % PAGE_WORDS);
  }

  lemma WordsOutside(m: seq<Word>, m': seq<Word>, pages: set<nat>)
    requires SameOutside(m, m', pages)
    ensures forall w: nat {:trigger Ld(m', w)} :: w / PAGE_WORDS !in pages ==> Ld(m', w) == Ld(m, w)
  {
    forall w: nat | w / PAGE_WORDS !in pages
      ensures Ld(m', w) == Ld(m, w)
    {
      WordOutside(m, m', pages, w);
    }
  }

  lemma CacheIsLocal(m: seq<Word>, m': seq<Word>, caches: map<nat, Cache>, owner: map<nat, nat>, meta: nat, pages: set<nat>, c: nat)
    requires WorldOk(m, caches, owner, meta) && SameOutside(m, m', pages) && pages !! owner.Keys && meta / PAGE_SIZE !in pages
    requires c in caches
    ensures InMemory(m', c, caches[c])
  {
    hide SameOutside, IsObject, InMemory, Accounted;
    WordsOutside(m, m', pages);
    StructPlace(m, caches, owner, meta, c);
    forall i | 0 <= i < |caches[c].slabs|
      ensures caches[c].slabs[i] in owner
    {
    }
    forall i | 0 <= i < |caches[c].free|
      ensures caches[c].free[i] / 8 / PAGE_WORDS in owner
    {
      ObjectPlace(m, caches, owner, meta, c, caches[c].free[i]);
    }
    InMemoryIsLocal(m, m', c, caches[c]);
  }

  /** Writes outside its pages leave the slab layer as it is. */
  lemma WorldIsLocal(m: seq<Word>, m': seq<Word>, caches: map<nat, Cache>, owner: map<nat, nat>, meta: nat, pages: set<nat>)
    requires WorldOk(m, caches, owner, meta) && SameOutside(m, m', pages) && pages !! owner.Keys && meta / PAGE_SIZE !in pages
    ensures WorldOk(m', caches, owner, meta) && LiveSame(m, m', caches, {})
  {
    hide IsObject, InMemory, Accounted;
    forall c | c in caches
      ensures InMemory(m', c, caches[c])
    {
      CacheIsLocal(m, m', caches, owner, meta, pages, c);
    }
    LiveIsLocal(m, m', caches, owner, meta, pages);
  }

  lemma LiveIsLocal(m: seq<Word>, m': seq<Word>, caches: map<nat, Cache>, owner: map<nat, nat>, meta: nat, pages: set<nat>)
    requires WorldOk(m, caches, owner, meta) && SameOutside(m, m', pages) && pages !! owner.Keys
    ensures LiveSame(m, m', caches, {})
  {
    hide WorldOk, IsObject, InMemory, Accounted;
    forall c, a: nat, w: nat | Payload(caches, c, a, w) && w < |m|
      ensures m'[w] == m[w]
    {
      ObjectPlace(m, caches, owner, meta, c, a);
      assert w / PAGE_WORDS == a / PAGE_SIZE;
      WordOutside(m, m', pages, w);
    }
  }

  /** Nor do they touch any heap block; only the frames given back by others may become free. */
  lemma BlocksAreLocal(m: seq<Word>, m': seq<Word>, caches: map<nat, Cache>, owner: map<nat, nat>, meta: nat, buckets: seq<nat>,
                       blocks: map<nat, Word>, pages: set<nat>, low: nat, high: nat, free: set<nat>, free': set<nat>, written: set<nat>)
    requires WorldOk(m, caches, owner, meta) && BucketsOk(caches, meta, buckets) && SmallOk(m, caches, buckets, blocks)
    requires LargeOk(m, pages, low, high, free, blocks) && SameOutside(m, m', written) && LiveSame(m, m', caches, {})
    requires written !! LargeFrames(blocks) && free' !! LargeFrames(blocks)
    ensures SmallOk(m', caches, buckets, blocks) && LargeOk(m', pages, low, high, free', blocks) && BlocksSame(m, m', blocks, {})
  {
    hide WorldOk, BucketsOk, SmallOk, LargeOk, LiveSame, SameOutside, BlocksSame, NumPages;
    forall h | h in blocks && MAX_SLAB < blocks[h]
      ensures h % PAGE_SIZE == 0 && OwnFrames(h, blocks[h]) !! written
    {
      LargePlace(m, pages, low, high, free, blocks, h);
    }
    SlabSparesBlocks(m, m', caches, owner, meta, buckets, blocks, {}, written);
    BucketsExist(caches, meta, buckets);
    SmallKept(m, m', caches, caches, meta, buckets, blocks);
    LargeKept(m, m', pages, pages, low, high, free, {}, blocks, {});
    LargeWithFree(m', pages, low, high, free', blocks);
  }

  lemma LargeWithFree(m: seq<Word>, pages: set<nat>, low: nat, high: nat, free: set<nat>, blocks: map<nat, Word>)
    requires LargeOk(m, pages, low, high, {}, blocks) && free !! LargeFrames(blocks)
    ensures LargeOk(m, pages, low, high, free, blocks)
  {
    hide OwnFrames, OwnedPages;
    forall h | h in blocks && MAX_SLAB < blocks[h]
      ensures OwnFrames(h, blocks[h]) !! free
    {
      forall p | p in OwnFrames(h, blocks[h])
        ensures p in LargeFrames(blocks)
      {
      }
    }
  }

  /** Writes outside the page tables leave every tree and every translation as it is. */
  lemma TablesAreLocal(m: seq<Word>, m': seq<Word>, nodes: map<nat, Node>, written: set<nat>)
    requires Forest(Arm64, m, nodes) && SameOutside(m, m', written) && written !! nodes.Keys
    ensures Forest(Arm64, m', nodes) && SameMeaning(Arm64, m, m', nodes)
  {
    hide Forest;
    assert SameTables(m, m', nodes);
    ForestIsLocal(Arm64, m, m', nodes);
    forall r, v: nat | IsRoot(nodes, r)
      ensures Lookup(Arm64, m', r, 0, v) == Lookup(Arm64, m, r, 0, v)
    {
      LookupIsLocal(Arm64, m, m', nodes, r, v);
    }
  }

  /** `sizeof(pagetable_root_t)`. */
  const ROOT_STRUCT := 16

  /** Each live root structure is a heap block that names its level-0 table and its ASID; there is one for every tree. */
  ghost predicate RootsOk(m: seq<Word>, blocks: map<nat, Word>, asids: map<nat, nat>, roots: map<nat, nat>) {
    && (forall ptr :: ptr in roots ==>
          && HEADER <= ptr && ptr % 8 == 0 && ptr - HEADER in blocks && blocks[ptr - HEADER] == ROOT_STRUCT && roots[ptr] in asids
          && Ld(m, ptr / 8) == roots[ptr] * PAGE_SIZE && Ld(m, ptr / 8 + 1) % 0x1_0000 == asids[roots[ptr]])
    && (forall ptr, other :: ptr in roots && other in roots && roots[ptr] == roots[other] ==> ptr == other)
    && forall r :: r in asids ==> r in roots.Values
  }

  lemma RootsKept(m: seq<Word>, m': seq<Word>, blocks: map<nat, Word>, blocks': map<nat, Word>, asids: map<nat, nat>, roots: map<nat, nat>,
                  but: set<nat>)
    requires RootsOk(m, blocks, asids, roots) && BlocksSame(m, m', blocks, but)
    requires forall ptr :: ptr in roots && HEADER <= ptr ==> ptr - HEADER !in but
    requires forall h :: h in blocks && h !in but ==> h in blocks' && blocks'[h] == blocks[h]
    ensures RootsOk(m', blocks', asids, roots)
  {
    forall ptr | ptr in roots
      ensures Ld(m', ptr / 8) == Ld(m, ptr / 8) && Ld(m', ptr / 8 + 1) == Ld(m, ptr / 8 + 1)
    {
      RootInBlock(blocks, ptr);
    }
  }

  lemma RootInBlock(blocks: map<nat, Word>, ptr: nat)
    requires HEADER <= ptr && ptr % 8 == 0 && ptr - HEADER in blocks && blocks[ptr - HEADER] == ROOT_STRUCT
    ensures InBlock(blocks, ptr - HEADER, ptr / 8) && InBlock(blocks, ptr - HEADER, ptr / 8 + 1)
  {
    BucketSizes();
  }

  lemma LargeNotFree(m: seq<Word>, pages: set<nat>, low: nat, high: nat, free: set<nat>, blocks: map<nat, Word>)
    requires LargeOk(m, pages, low, high, free, blocks)
    ensures free !! LargeFrames(blocks)
  {
    forall h | h in blocks
      ensures OwnFrames(h, blocks[h]) !! free
    {
      if blocks[h] <= MAX_SLAB {
        NothingOwned(h, blocks[h]);
      }
    }
  }

  lemma TwoBytes(x: nat, lo: nat, hi: nat)
    requires lo < 256 && hi < 256 && x % 256 == lo
    ensures ((x / 256 - x / 256 % 256 + hi) * 256 + x % 256) % 0x1_0000 == hi * 256 + lo
  {
    var q := x / 256 / 256;
    assert x / 256 - x / 256 % 256 == q * 256;
    assert (q * 256 + hi) * 256 + lo == q * 0x1_0000 + (hi * 256 + lo);
  }

  lemma HalfWord(w: Word, a: nat, v: nat)
    requires a % 8 == 0 && v < 0x1_0000
    ensures Patched(Patched(w, a, v % 256), a + 1, v / 256) % 0x1_0000 == v
  {
    var x := WithByte(w, 0, v % 256);
    assert x == w - w % 256 + v % 256 && x % 256 == v % 256;
    assert WithByte(x, 1, v / 256) == WithByte(x / 256, 0, v / 256) * 256 + x % 256;
    TwoBytes(x, v % 256, v / 256);
  }

  lemma RootsHaveBlocks(m: seq<Word>, blocks: map<nat, Word>, asids: map<nat, nat>, roots: map<nat, nat>, ptr: nat)
    requires HEADER <= ptr && ptr - HEADER !in blocks
    ensures RootsOk(m, blocks, asids, roots) ==> ptr !in roots
  {
  }

  lemma RootsAdded(m: seq<Word>, blocks: map<nat, Word>, asids: map<nat, nat>, roots: map<nat, nat>, ptr: nat, r: nat, asid: nat)
    requires RootsOk(m, blocks, asids, roots) && r !in asids && ptr !in roots
    requires HEADER <= ptr && ptr % 8 == 0 && ptr - HEADER in blocks && blocks[ptr - HEADER] == ROOT_STRUCT
    requires Ld(m, ptr / 8) == r * PAGE_SIZE && Ld(m, ptr / 8 + 1) % 0x1_0000 == asid
    ensures RootsOk(m, blocks, asids[r := asid], roots[ptr := r])
  {
    var all := roots[ptr := r];
    assert all[ptr] == r;
    forall q | q in asids
      ensures q in all.Values
    {
      var other :| other in roots && roots[other] == q;
      assert all[other] == q;
    }
  }

  lemma AddedSum(tables: set<nat>, free: set<nat>, tables': set<nat>, free': set<nat>)
    requires tables <= tables' <= tables + free && free' == free - tables' && tables !! free
    ensures free' + tables' == free + tables
  {
  }

  lemma SameSum(held: set<nat>, free: set<nat>, tables: set<nat>, free': set<nat>, tables': set<nat>)
    requires free' + tables' == free + tables
    ensures held + free' + tables' == held + free + tables
  {
    assert held + free' + tables' == held + (free' + tables');
    assert held + free + tables == held + (free + tables);
  }

  /** Frame `r` becomes a root table. */
  lemma RootSum(held: set<nat>, free: set<nat>, nodes: map<nat, Node>, r: nat)
    requires free !! held && nodes.Keys !! held && nodes.Keys !! free
    ensures r in free ==>
      && held + (free - {r}) + WithRoot(nodes, r).Keys == held + free + nodes.Keys
      && WithRoot(nodes, r).Keys !! held && r !in nodes
    ensures forall q :: q in nodes ==> q !in free
  {
    assert WithRoot(nodes, r).Keys == nodes.Keys + {r};
  }

  lemma TreeGone(nodes: map<nat, Node>, r: nat, free0: set<nat>, free: set<nat>, held: set<nat>)
    requires nodes.Keys !! held && free0 !! held && free == free0 + (nodes.Keys - WithoutTree(nodes, r).Keys)
    ensures free !! held && WithoutTree(nodes, r).Keys <= nodes.Keys
  {
  }

  lemma RootsRemoved(m: seq<Word>, blocks: map<nat, Word>, asids: map<nat, nat>, roots: map<nat, nat>, ptr: nat)
    requires RootsOk(m, blocks, asids, roots) && ptr in roots
    ensures RootsOk(m, blocks, asids - {roots[ptr]}, roots - {ptr})
  {
    var rest := roots - {ptr};
    forall q | q in asids && q != roots[ptr]
      ensures q in rest.Values
    {
      var other :| other in roots && roots[other] == q;
      assert rest[other] == q;
    }
  }

  lemma SameMeaningTwice(a: seq<Word>, b: seq<Word>, c: seq<Word>, nodes: map<nat, Node>)
    requires SameMeaning(Arm64, a, b, nodes) && SameMeaning(Arm64, b, c, nodes)
    ensures SameMeaning(Arm64, a, c, nodes)
  {
    forall r, v: nat | IsRoot(nodes, r)
      ensures Lookup(Arm64, c, r, 0, v) == Lookup(Arm64, a, r, 0, v)
    {
      assert Lookup(Arm64, c, r, 0, v) == Lookup(Arm64, b, r, 0, v);
      assert Lookup(Arm64, b, r, 0, v) == Lookup(Arm64, a, r, 0, v);
    }
  }

  lemma EmptyStill(a: seq<Word>, b: seq<Word>, nodes: map<nat, Node>, r: nat)
    requires SameMeaning(Arm64, a, b, nodes) && r in nodes && nodes[r].level == 0
    ensures MapsNothing(a, r) ==> MapsNothing(b, r)
  {
    forall v: nat
      ensures Lookup(Arm64, b, r, 0, v) == Lookup(Arm64, a, r, 0, v)
    {
      assert IsRoot(nodes, r);
    }
  }

  lemma SameMeaningOld(a: seq<Word>, b: seq<Word>, nodes: map<nat, Node>, more: map<nat, Node>)
    requires SameMeaning(Arm64, a, b, more) && forall p :: p in nodes ==> p in more && more[p] == nodes[p]
    ensures SameMeaning(Arm64, a, b, nodes)
  {
    forall r, v: nat | IsRoot(nodes, r)
      ensures Lookup(Arm64, b, r, 0, v) == Lookup(Arm64, a, r, 0, v)
    {
      assert IsRoot(more, r);
    }
  }

  lemma BlocksSameNew(m0: seq<Word>, m1: seq<Word>, m2: seq<Word>, blocks: map<nat, Word>, grown: map<nat, Word>, but: set<nat>)
    requires BlocksSame(m0, m1, blocks, but) && BlocksSame(m1, m2, grown, but)
    requires forall k :: k in blocks ==> k in grown && grown[k] == blocks[k]
    ensures BlocksSame(m0, m2, blocks, but)
  {
    hide End;
    forall k: nat, w: nat | InBlock(blocks, k, w) && k !in but && w < |m0|
      ensures m2[w] == m0[w]
    {
      assert InBlock(grown, k, w);
    }
  }

  /** An ASID is left, and a frame for the root table besides the slab page that the structure may need. */
  ghost predicate Creatable(free: set<nat>, stock: seq<nat>, asids: map<nat, nat>) {
    (if stock == [] then 2 else 1) <= |free| && !AsidsExhausted(asids)
  }

  /**
   A new address space at `ptr`: its structure is a new block, its tree and its ASID are new, and it maps nothing; 0 changes nothing. The
   frames taken are the root table and at most one slab page, `stock` being the free structures.
   */
  ghost predicate Created(ptr: nat, roots: map<nat, nat>, roots': map<nat, nat>, blocks: map<nat, Word>, blocks': map<nat, Word>,
                          nodes: map<nat, Node>, nodes': map<nat, Node>, asids: map<nat, nat>, asids': map<nat, nat>,
                          free: set<nat>, free': set<nat>, stock: seq<nat>, m': seq<Word>) {
    if ptr == 0 then roots' == roots && nodes' == nodes && asids' == asids && blocks' == blocks && RefillTakes(stock, free, free')
    else
      && HEADER <= ptr && ptr !in roots && ptr in roots'
      && ptr - HEADER !in blocks && blocks' == blocks[ptr - HEADER := 16]
      && var r := roots'[ptr];
      && roots' == roots[ptr := r] && r !in nodes && nodes' == WithRoot(nodes, r)
      && r !in asids && r in asids' && asids' == asids[r := asids'[r]] && asids'[r] !in asids.Values
      && r in free && r !in free' && RefillTakes(stock, free, free' + {r})
      && MapsNothing(m', r)
  }

  /** The structure's `kmalloc` gives a block or halts. */
  lemma StructAllocated(r: Outcome, blocks: map<nat, Word>, blocks': map<nat, Word>, free: set<nat>, free': set<nat>, stock: seq<nat>)
    requires Mallocs(r, ROOT_STRUCT, blocks, blocks', free, free', stock)
    ensures r.Panic? <==> free == {} && stock == []
    ensures RefillTakes(stock, free, free')
    ensures if r.Block? then HEADER < r.ptr && r.ptr - HEADER !in blocks && blocks' == blocks[r.ptr - HEADER := ROOT_STRUCT]
            else r.Panic? && blocks' == blocks
  {
  }

  lemma RefillLeaves(stock: seq<nat>, free: set<nat>, free': set<nat>)
    requires RefillTakes(stock, free, free')
    ensures free' <= free && (free' == {} <==> |free| <= if stock == [] then 1 else 0)
  {
  }

  lemma NothingCreated(roots: map<nat, nat>, blocks: map<nat, Word>, nodes: map<nat, Node>, asids: map<nat, nat>,
                       free: set<nat>, free': set<nat>, stock: seq<nat>, m: seq<Word>)
    requires RefillTakes(stock, free, free')
    ensures Created(0, roots, roots, blocks, blocks, nodes, nodes, asids, asids, free, free', stock, m)
  {
  }

  /** What the stores into the new structure need of the planted tree. */
  lemma PlantedFacts(l0Phys: Word, asid: int, nodes: map<nat, Node>, nodes': map<nat, Node>, asids: map<nat, nat>, asids': map<nat, nat>,
                     free: set<nat>, free': set<nat>, m: seq<Word>)
    requires Planted(l0Phys, asid, nodes, nodes', asids, asids', free, free', m)
    ensures if l0Phys == 0 then asids' == asids && nodes' == nodes && free' == free
            else 0 < asid < 0x1_0000 && asids' == asids[l0Phys / PAGE_SIZE := asid]
  {
  }

  /** The planted tree, with its structure stored, is a new address space. */
  lemma PlantedIsCreated(ptr: nat, l0Phys: Word, asid: int, roots: map<nat, nat>, blocks: map<nat, Word>, nodes: map<nat, Node>,
                         nodes': map<nat, Node>, asids: map<nat, nat>, asids': map<nat, nat>, free0: set<nat>, free: set<nat>, free': set<nat>,
                         stock: seq<nat>, m: seq<Word>, m': seq<Word>)
    requires RefillTakes(stock, free0, free) && l0Phys != 0
    requires Planted(l0Phys, asid, nodes, nodes', asids, asids', free, free', m) && l0Phys / PAGE_SIZE !in asids
    requires HEADER <= ptr && ptr !in roots && ptr - HEADER !in blocks && SameMeaning(Arm64, m, m', nodes')
    ensures Created(ptr, roots, roots[ptr := l0Phys / PAGE_SIZE], blocks, blocks[ptr - HEADER := ROOT_STRUCT], nodes, nodes', asids, asids',
                    free0, free', stock, m')
    ensures SameMeaning(Arm64, m, m', nodes)
  {
    hide SameMeaning, MapsNothing, Blank;
    assert free' + {l0Phys / PAGE_SIZE} == free;
    SameMeaningOld(m, m', nodes, nodes');
    EmptyStill(m, m', nodes', l0Phys / PAGE_SIZE);
  }

  lemma WalkAdds(r: int, root: nat, vpn: nat, e: Word, m: seq<Word>, nodes: map<nat, Node>, free: set<nat>,
                 m': seq<Word>, nodes': map<nat, Node>, free': set<nat>)
    requires Maps(r, root, vpn, e, m, nodes, free, m', nodes', free') || Unmaps(r, root, vpn, m, nodes, free, m', nodes', free')
    ensures TablesAdded(root, m, nodes, free, m', nodes', free')
  {
  }

  class KernelMemory {
    const heap: KernelHeap
    const spaces: AddressSpaces

    /** Address of each live `pagetable_root_t`, and the frame of its level-0 table. */
    ghost var roots: map<nat, nat>

    /** Both layers use the same allocator and the same memory. */
    ghost predicate Shared()
    {
      && spaces.t.pmm == heap.slab.pmm && spaces.t.ram == heap.slab.ram
      && spaces.asidUsed as object != heap.buckets as object
    }

    ghost predicate Valid()
      reads this, heap, heap.buckets, heap.slab, heap.slab.pmm, heap.slab.pmm.bitmap, heap.slab.ram.cells
      reads spaces, spaces.t, spaces.t.pmm, spaces.t.pmm.bitmap, spaces.t.ram.cells, spaces.asidUsed
    {
      && Shared() && heap.Valid() && heap.initialized && spaces.Valid()
      && spaces.t.nodes.Keys !! heap.Footprint()
      && RootsOk(heap.slab.ram.View(), heap.blocks, spaces.asids, roots)
    }

    constructor (heap: KernelHeap, spaces: AddressSpaces)
      requires heap.Valid() && heap.initialized && spaces.Valid() && spaces.t.nodes == map[]
      requires spaces.t.pmm == heap.slab.pmm && spaces.t.ram == heap.slab.ram && spaces.asidUsed as object != heap.buckets as object
      ensures Valid() && this.heap == heap && this.spaces == spaces && roots == map[]
    {
      this.heap, this.spaces := heap, spaces;
      roots := map[];
    }

    /** What page tables need of the rest of memory. */
    ghost predicate TablesFit()
      reads spaces`asids, spaces.t`nodes, spaces.t.pmm`bitmap, spaces.t.pmm`first, spaces.t.pmm`totalFrames, spaces.asidUsed
    {
      && Shared() && spaces.t.fmt == Arm64 && spaces.t.Backed() && spaces.t.AllInRange() && spaces.AsidsOk()
      && spaces.asidUsed as object != spaces.t.ram.cells as object && spaces.asidUsed as object != spaces.t.pmm.bitmap as object
      && (forall r :: IsRoot(spaces.t.nodes, r) <==> r in spaces.asids)
    }

    lemma Parts()
      requires Valid()
      ensures TablesFit() && Forest(Arm64, heap.slab.ram.View(), spaces.t.nodes) && spaces.t.nodes.Keys !! heap.Reach()
      ensures spaces.t.nodes.Keys !! heap.slab.pmm.free
      ensures heap.slab.ram.cells as object != heap.slab.pmm.bitmap as object
      ensures spaces.asidUsed as object != heap.slab.ram.cells as object && spaces.asidUsed as object != heap.slab.pmm.bitmap as object
    {
      hide Forest, Represents, KernelHeap.Valid, RootsOk, TablesFit, AddressSpaces.Valid;
      TablesPart();
    }

    lemma Together()
      requires Valid()
      ensures Shared() && heap.Valid() && heap.initialized && spaces.Valid() && spaces.t.nodes.Keys !! heap.Footprint()
      ensures RootsOk(heap.slab.ram.View(), heap.blocks, spaces.asids, roots)
      ensures spaces.t.pmm == heap.slab.pmm && spaces.t.ram == heap.slab.ram && spaces.asidUsed as object != heap.buckets as object
    {
      hide KernelHeap.Valid, AddressSpaces.Valid, RootsOk;
    }

    lemma BucketsApart()
      requires Valid()
      ensures heap.buckets as object != heap.slab.ram.cells as object && heap.buckets as object != heap.slab.pmm.bitmap as object
      ensures heap.buckets as object != spaces.asidUsed as object
    {
      hide HeapFits, HeapHolds, KernelHeap.Valid;
      HeapParts();
    }

    lemma Reunited()
      requires Shared() && heap.Valid() && heap.initialized && spaces.Valid() && spaces.t.nodes.Keys !! heap.Footprint()
      requires RootsOk(heap.slab.ram.View(), heap.blocks, spaces.asids, roots)
      ensures Valid()
    {
      hide KernelHeap.Valid, AddressSpaces.Valid, RootsOk;
    }

    /** After the heap changed memory from `m0`, within `written`, the page tables are intact. */
    lemma TablesSpared(m0: seq<Word>, written: set<nat>)
      requires TablesFit() && heap.slab.pmm.Valid() && Forest(Arm64, m0, spaces.t.nodes)
      requires SameOutside(m0, heap.slab.ram.View(), written) && spaces.t.nodes.Keys !! written
      requires spaces.t.nodes.Keys !! heap.slab.pmm.free
      ensures spaces.Valid() && SameMeaning(Arm64, m0, heap.slab.ram.View(), spaces.t.nodes)
    {
      hide Forest, Represents, SameOutside, SameMeaning, IsRoot;
      TablesAreLocal(m0, heap.slab.ram.View(), spaces.t.nodes, written);
    }

    /** What the heap needs of the rest of memory. */
    ghost predicate HeapFits()
      reads heap, heap.buckets, heap.slab, heap.slab.pmm`bitmap, heap.slab.pmm`first, heap.slab.pmm`totalFrames
    {
      var slab := heap.slab;
      && heap.initialized && heap.Backed() && slab.ram.cells as object != slab.pmm.bitmap as object
      && (slab.pmm.first + slab.pmm.totalFrames) * PAGE_WORDS <= slab.ram.cells.Length
      && (slab.metaInitialized <==> slab.caches != map[])
      && (forall p :: p in slab.owner ==> slab.pmm.InRange(p))
      && 0 < slab.meta && slab.meta % 8 == 0 && slab.meta / 8 + 4 <= slab.ram.cells.Length
      && BucketsOk(slab.caches, slab.meta, heap.buckets[..])
    }

    /** The heap's data are in order in memory `m`, with `free` the free frames. */
    ghost predicate HeapHolds(m: seq<Word>, free: set<nat>)
      reads heap, heap.buckets, heap.slab, heap.slab.pmm`first, heap.slab.pmm`totalFrames
    {
      && heap.buckets.Length == BUCKETS
      && WorldOk(m, heap.slab.caches, heap.slab.owner, heap.slab.meta)
      && SmallOk(m, heap.slab.caches, heap.buckets[..], heap.blocks)
      && LargeOk(m, heap.slab.Pages(), heap.slab.pmm.first, heap.slab.pmm.first + heap.slab.pmm.totalFrames, free, heap.blocks)
    }

    /** The heap, the root structures and the page tables lie side by side in memory `m`. */
    ghost predicate Beside(m: seq<Word>, free: set<nat>, nodes: map<nat, Node>, asids: map<nat, nat>)
      reads this, heap, heap.buckets, heap.slab, heap.slab.pmm`bitmap, heap.slab.pmm`first, heap.slab.pmm`totalFrames
    {
      && HeapFits() && HeapHolds(m, free) && Shared() && RootsOk(m, heap.blocks, asids, roots)
      && nodes.Keys !! heap.Footprint() && free !! heap.Footprint() && nodes.Keys !! free
      && forall r :: r in asids ==> r in nodes
    }

    lemma IsBeside()
      requires Valid()
      ensures Beside(heap.slab.ram.View(), heap.slab.pmm.free, spaces.t.nodes, spaces.asids)
      ensures spaces.Valid() && spaces.t.pmm == heap.slab.pmm && spaces.t.ram == heap.slab.ram && heap.slab.pmm.HintOk()
      ensures heap.buckets as object != heap.slab.ram.cells as object && heap.buckets as object != heap.slab.pmm.bitmap as object
      ensures spaces.asidUsed as object != heap.buckets as object
    {
      hide HeapFits, HeapHolds, RootsOk, Forest, KernelHeap.Valid, KernelMemory.Valid, AddressSpaces.Valid, LargeFrames;
      Together();
      Parts();
      HeapParts();
      AsidsAreRoots();
    }

    lemma HeapParts()
      requires Valid()
      ensures HeapFits() && heap.slab.pmm.free !! heap.Footprint() && heap.slab.pmm.HintOk()
      ensures heap.buckets as object != heap.slab.ram.cells as object && heap.buckets as object != heap.slab.pmm.bitmap as object
      ensures HeapHolds(heap.slab.ram.View(), heap.slab.pmm.free)
    {
      hide WorldOk, SmallOk, LargeOk, BucketsOk, Represents, AddressSpaces.Valid, RootsOk;
      LargeNotFree(heap.slab.ram.View(), heap.slab.Pages(), heap.slab.pmm.first, heap.slab.pmm.first + heap.slab.pmm.totalFrames,
                   heap.slab.pmm.free, heap.blocks);
    }

    /** After the page-table code changed memory from `m0` within `written`, and free frames from `free0`, the heap is intact. */
    lemma HeapSpared(m0: seq<Word>, free0: set<nat>, written: set<nat>)
      requires HeapFits() && heap.slab.pmm.Valid() && heap.slab.pmm.HintOk() && HeapHolds(m0, free0)
      requires SameOutside(m0, heap.slab.ram.View(), written) && written !! heap.Footprint() && heap.slab.pmm.free !! heap.Footprint()
      ensures heap.Valid() && BlocksSame(m0, heap.slab.ram.View(), heap.blocks, {})
      ensures ForeignSame(m0, heap.slab.ram.View(), heap.slab.caches, heap.buckets[..], {})
    {
      hide ForeignSame, WorldOk, SmallOk, LargeOk, BucketsOk, Represents, LiveSame, SameOutside, BlocksSame;
      var slab := heap.slab;
      WorldIsLocal(m0, slab.ram.View(), slab.caches, slab.owner, slab.meta, written);
      NothingForeign(m0, slab.caches, heap.buckets[..]);
      ForeignSpared(m0, slab.ram.View(), slab.caches, heap.buckets[..], {});
      BlocksAreLocal(m0, slab.ram.View(), slab.caches, slab.owner, slab.meta, heap.buckets[..], heap.blocks, slab.Pages(),
                     slab.pmm.first, slab.pmm.first + slab.pmm.totalFrames, free0, slab.pmm.free, written);
    }

    /** `kmalloc` beside live page tables. */
    method Kmalloc(size: Word) returns (r: Outcome)
      requires Valid()
      modifies heap.slab.pmm`freeFrames, heap.slab.pmm`lastFreeIndex, heap.slab.pmm`free, heap.slab.pmm.bitmap, heap.slab.ram.cells,
        heap.slab`caches, heap.slab`owner, heap`blocks
      ensures Valid() && (!r.Panic? ==> AllFrames() == old(AllFrames())) && heap.slab.pmm.free <= old(heap.slab.pmm.free)
      ensures Mallocs(r, size, old(heap.blocks), heap.blocks, old(heap.slab.pmm.free), heap.slab.pmm.free, old(heap.FreeObjects(size)))
      ensures BlocksSame(old(heap.slab.ram.View()), heap.slab.ram.View(), old(heap.blocks), {})
      ensures SameMeaning(Arm64, old(heap.slab.ram.View()), heap.slab.ram.View(), spaces.t.nodes)
      ensures OnlyBuckets(old(heap.slab.caches), heap.slab.caches, heap.buckets[..])
      ensures ForeignSame(old(heap.slab.ram.View()), heap.slab.ram.View(), old(heap.slab.caches), heap.buckets[..], {})
    {
      hide ForeignSame, Forest, Represents, SameOutside, SameMeaning, BlocksSame, LiveSame, RootsOk, TablesFit, KernelHeap.Valid, SlabWorld.Valid,
        AddressSpaces.Valid, LargeFrames, HasRun, LowestRun, OwnedPages, OwnFrames, TookRun;
      ghost var m0, blocks0 := heap.slab.ram.View(), heap.blocks;
      Parts();
      r := heap.Kmalloc(size);
      PmmValid();
      TablesSpared(m0, heap.Footprint());
      RootsKept(m0, heap.slab.ram.View(), blocks0, heap.blocks, spaces.asids, roots, {});
    }

    lemma PmmValid()
      requires heap.Valid()
      ensures heap.slab.pmm.Valid()
    {
      hide Represents;
    }

    /** `kfree` beside live page tables, of anything but a root structure. */
    method Kfree(ptr: nat)
      requires Valid() && (ptr == 0 || (HEADER <= ptr && ptr - HEADER in heap.blocks && ptr !in roots))
      modifies heap.slab.pmm`freeFrames, heap.slab.pmm`lastFreeIndex, heap.slab.pmm`free, heap.slab.pmm.bitmap, heap.slab.ram.cells,
        heap.slab`caches, heap`blocks
      ensures Valid() && heap.blocks == old(heap.blocks) - BlockAt(ptr)
      ensures ptr == 0 || !Leaks(old(heap.blocks)[ptr - HEADER]) ==> AllFrames() == old(AllFrames())
      ensures heap.slab.pmm.free == old(heap.slab.pmm.free) + GivenBack(ptr, old(heap.blocks))
      ensures ptr != 0 ==> Effect(heap.slab.caches, heap.slab.pmm.free) == old(heap.AfterRoute(ptr - HEADER, heap.HeaderRoute(ptr - HEADER)))
      ensures BlocksSame(old(heap.slab.ram.View()), heap.slab.ram.View(), old(heap.blocks), BlockAt(ptr))
      ensures SameMeaning(Arm64, old(heap.slab.ram.View()), heap.slab.ram.View(), spaces.t.nodes)
      ensures OnlyBuckets(old(heap.slab.caches), heap.slab.caches, heap.buckets[..])
      ensures ForeignSame(old(heap.slab.ram.View()), heap.slab.ram.View(), old(heap.slab.caches), heap.buckets[..], {})
    {
      hide ForeignSame, Forest, Represents, SameOutside, SameMeaning, BlocksSame, LiveSame, RootsOk, TablesFit, KernelHeap.Valid, SlabWorld.Valid,
        AddressSpaces.Valid, LargeFrames, Released, NumPages, KernelHeap.AfterRoute, KernelHeap.HeaderRoute;
      ghost var m0, blocks0 := heap.slab.ram.View(), heap.blocks;
      Parts();
      heap.Kfree(ptr);
      PmmValid();
      TablesSpared(m0, heap.slab.Pages());
      RootsKept(m0, heap.slab.ram.View(), blocks0, heap.blocks, spaces.asids, roots, BlockAt(ptr));
    }

    /** `krealloc` beside live page tables. */
    method Krealloc(ptr: nat, newSize: Word) returns (r: Outcome)
      requires Valid() && (ptr == 0 || (HEADER <= ptr && ptr - HEADER in heap.blocks && ptr !in roots))
      modifies heap.slab.pmm`freeFrames, heap.slab.pmm`lastFreeIndex, heap.slab.pmm`free, heap.slab.pmm.bitmap, heap.slab.ram.cells,
        heap.slab`caches, heap.slab`owner, heap`blocks
      ensures Valid()
      ensures !r.Panic? && (ptr != 0 && newSize == 0 ==> !Leaks(old(heap.blocks)[ptr - HEADER])) ==> AllFrames() == old(AllFrames())
      ensures BlocksSame(old(heap.slab.ram.View()), heap.slab.ram.View(), old(heap.blocks), BlockAt(ptr))
      ensures SameMeaning(Arm64, old(heap.slab.ram.View()), heap.slab.ram.View(), spaces.t.nodes)
      ensures Reallocs(r, ptr, newSize, old(heap.blocks), heap.blocks, old(heap.slab.pmm.free), heap.slab.pmm.free,
                       old(heap.FreeObjects(newSize)), old(heap.slab.ram.View()), heap.slab.ram.View())
      ensures OnlyBuckets(old(heap.slab.caches), heap.slab.caches, heap.buckets[..])
      ensures ForeignSame(old(heap.slab.ram.View()), heap.slab.ram.View(), old(heap.slab.caches), heap.buckets[..], {})
    {
      hide ForeignSame, Forest, Represents, SameOutside, SameMeaning, BlocksSame, LiveSame, RootsOk, TablesFit, KernelHeap.Valid, SlabWorld.Valid,
        AddressSpaces.Valid, LargeFrames, Reallocs, KernelHeap.FreeObjects;
      ghost var m0, blocks0, reach, free0, stock := heap.slab.ram.View(), heap.blocks, heap.Reach(), heap.slab.pmm.free, heap.FreeObjects(newSize);
      Parts();
      r := heap.Krealloc(ptr, newSize);
      ReallocKeepsBlocks(r, ptr, newSize, blocks0, heap.blocks, free0, heap.slab.pmm.free, stock, m0, heap.slab.ram.View());
      PmmValid();
      TablesSpared(m0, reach);
      RootsKept(m0, heap.slab.ram.View(), blocks0, heap.blocks, spaces.asids, roots, BlockAt(ptr));
    }

    /** `kcalloc` beside live page tables. */
    method Kcalloc(num: Word, size: Word) returns (r: Outcome)
      requires Valid()
      modifies heap.slab.pmm`freeFrames, heap.slab.pmm`lastFreeIndex, heap.slab.pmm`free, heap.slab.pmm.bitmap, heap.slab.ram.cells,
        heap.slab`caches, heap.slab`owner, heap`blocks
      ensures Valid() && (!r.Panic? ==> AllFrames() == old(AllFrames()))
      ensures Callocs(r, num, size, old(heap.blocks), heap.blocks, old(heap.slab.pmm.free), heap.slab.pmm.free,
                      old(heap.FreeObjects(Product(num, size) % U64)), heap.slab.ram.View())
      ensures BlocksSame(old(heap.slab.ram.View()), heap.slab.ram.View(), old(heap.blocks), {})
      ensures SameMeaning(Arm64, old(heap.slab.ram.View()), heap.slab.ram.View(), spaces.t.nodes)
      ensures OnlyBuckets(old(heap.slab.caches), heap.slab.caches, heap.buckets[..])
      ensures ForeignSame(old(heap.slab.ram.View()), heap.slab.ram.View(), old(heap.slab.caches), heap.buckets[..], {})
    {
      hide ForeignSame, Forest, Represents, SameOutside, SameMeaning, BlocksSame, LiveSame, RootsOk, TablesFit, KernelHeap.Valid, SlabWorld.Valid,
        AddressSpaces.Valid, LargeFrames, Callocs, Product, KernelHeap.FreeObjects;
      ghost var m0, blocks0, reach, free0 := heap.slab.ram.View(), heap.blocks, heap.Reach(), heap.slab.pmm.free;
      ghost var stock := heap.FreeObjects(Product(num, size) % U64);
      Parts();
      r := heap.Kcalloc(num, size);
      CallocKeepsBlocks(r, num, size, blocks0, heap.blocks, free0, heap.slab.pmm.free, stock, heap.slab.ram.View());
      PmmValid();
      TablesSpared(m0, reach);
      RootsKept(m0, heap.slab.ram.View(), blocks0, heap.blocks, spaces.asids, roots, {});
    }

    /** `kfree_sized` beside live page tables, with a size that matches. */
    method KfreeSized(ptr: nat, n: Word)
      requires Valid() && (ptr == 0 || (HEADER <= ptr && ptr - HEADER in heap.blocks && ptr !in roots && heap.SizeMatches(ptr - HEADER, n)))
      modifies heap.slab.pmm`freeFrames, heap.slab.pmm`lastFreeIndex, heap.slab.pmm`free, heap.slab.pmm.bitmap, heap.slab.ram.cells,
        heap.slab`caches, heap`blocks
      ensures Valid() && heap.blocks == old(heap.blocks) - BlockAt(ptr)
      ensures ptr == 0 || !Leaks(old(heap.blocks)[ptr - HEADER]) ==> AllFrames() == old(AllFrames())
      ensures heap.slab.pmm.free == old(heap.slab.pmm.free) + GivenBack(ptr, old(heap.blocks))
      ensures ptr != 0 ==> Effect(heap.slab.caches, heap.slab.pmm.free) == old(heap.AfterRoute(ptr - HEADER, heap.SizedRoute(n)))
      ensures BlocksSame(old(heap.slab.ram.View()), heap.slab.ram.View(), old(heap.blocks), BlockAt(ptr))
      ensures SameMeaning(Arm64, old(heap.slab.ram.View()), heap.slab.ram.View(), spaces.t.nodes)
      ensures OnlyBuckets(old(heap.slab.caches), heap.slab.caches, heap.buckets[..])
      ensures ForeignSame(old(heap.slab.ram.View()), heap.slab.ram.View(), old(heap.slab.caches), heap.buckets[..], {})
    {
      hide ForeignSame, Forest, Represents, SameOutside, SameMeaning, BlocksSame, LiveSame, RootsOk, TablesFit, KernelHeap.Valid, SlabWorld.Valid,
        AddressSpaces.Valid, LargeFrames, Released, NumPages, KernelHeap.AfterRoute, KernelHeap.SizedRoute, KernelHeap.SizeMatches;
      ghost var m0, blocks0 := heap.slab.ram.View(), heap.blocks;
      Parts();
      heap.KfreeSized(ptr, n);
      PmmValid();
      TablesSpared(m0, heap.slab.Pages());
      RootsKept(m0, heap.slab.ram.View(), blocks0, heap.blocks, spaces.asids, roots, BlockAt(ptr));
    }

    /** A client stores a byte in a block it holds. */
    method WriteByte(ptr: nat, i: nat, b: nat)
      requires Valid() && HEADER <= ptr && ptr - HEADER in heap.blocks && ptr !in roots
      requires b < 256 && ptr + i < End(ptr - HEADER, heap.blocks[ptr - HEADER])
      modifies heap.slab.ram.cells
      ensures Valid() && (ptr + i) / 8 < heap.slab.ram.cells.Length
      ensures heap.slab.ram.View() ==
        Put(old(heap.slab.ram.View()), (ptr + i) / 8, Patched(Ld(old(heap.slab.ram.View()), (ptr + i) / 8), ptr + i, b))
      ensures BlocksSame(old(heap.slab.ram.View()), heap.slab.ram.View(), heap.blocks, {ptr - HEADER})
      ensures LiveSame(old(heap.slab.ram.View()), heap.slab.ram.View(), heap.slab.caches, {ptr - HEADER})
      ensures SameMeaning(Arm64, old(heap.slab.ram.View()), heap.slab.ram.View(), spaces.t.nodes)
      ensures ForeignSame(old(heap.slab.ram.View()), heap.slab.ram.View(), old(heap.slab.caches), heap.buckets[..], {})
    {
      hide ForeignSame, Forest, Represents, SameOutside, SameMeaning, BlocksSame, LiveSame, RootsOk, TablesFit, KernelHeap.Valid, SlabWorld.Valid,
        AddressSpaces.Valid, LargeFrames, End, Patched;
      ghost var m0 := heap.slab.ram.View();
      Parts();
      heap.WriteByte(ptr, i, b);
      PmmValid();
      TablesSpared(m0, heap.Footprint());
      RootsKept(m0, heap.slab.ram.View(), heap.blocks, heap.blocks, spaces.asids, roots, {ptr - HEADER});
    }

    /** A client stores a word in an object it holds. */
    method WriteObject(c: nat, a: nat, k: nat, v: Word)
      requires Valid() && heap.OtherCache(c) && a in heap.slab.caches[c].live && a / 8 <= k < (a + heap.slab.caches[c].objSize) / 8
      modifies heap.slab.ram.cells
      ensures Valid() && k < heap.slab.ram.cells.Length && heap.slab.ram.View() == Put(old(heap.slab.ram.View()), k, v)
      ensures BlocksSame(old(heap.slab.ram.View()), heap.slab.ram.View(), heap.blocks, {})
      ensures LiveSame(old(heap.slab.ram.View()), heap.slab.ram.View(), heap.slab.caches, {a})
      ensures SameMeaning(Arm64, old(heap.slab.ram.View()), heap.slab.ram.View(), spaces.t.nodes)
    {
      hide Forest, Represents, SameOutside, SameMeaning, BlocksSame, LiveSame, RootsOk, TablesFit, KernelHeap.Valid, SlabWorld.Valid,
        AddressSpaces.Valid, LargeFrames;
      ghost var m0 := heap.slab.ram.View();
      Parts();
      heap.WriteObject(c, a, k, v);
      PmmValid();
      TablesSpared(m0, heap.slab.Pages());
      RootsKept(m0, heap.slab.ram.View(), heap.blocks, heap.blocks, spaces.asids, roots, {});
    }

    /** `arch_map_page` on the address space at `ptr`. */
    method MapPage(ptr: nat, va: Word, phys: Word, prot: nat) returns (r: int)
      requires Valid() && ptr in roots
      modifies heap.slab.pmm`freeFrames, heap.slab.pmm`lastFreeIndex, heap.slab.pmm`free, heap.slab.pmm.bitmap, heap.slab.ram.cells, spaces.t`nodes
      ensures Valid() && AllFrames() == old(AllFrames())
      ensures Maps(r, roots[ptr], Vpn(va), LeafEntry(phys, prot), old(heap.slab.ram.View()), old(spaces.t.nodes), old(heap.slab.pmm.free),
                   heap.slab.ram.View(), spaces.t.nodes, heap.slab.pmm.free)
      ensures BlocksSame(old(heap.slab.ram.View()), heap.slab.ram.View(), heap.blocks, {})
      ensures ForeignSame(old(heap.slab.ram.View()), heap.slab.ram.View(), heap.slab.caches, heap.buckets[..], {})
    {
      hide *;
      ghost var m0, free0, nodes0 := heap.slab.ram.View(), heap.slab.pmm.free, spaces.t.nodes;
      IsBeside();
      FramesAre();
      var ttbr0, asid := ReadRoot(ptr);
      r := spaces.MapPage(ttbr0, va, phys, prot);
      WalkAdds(r, roots[ptr], Vpn(va), LeafEntry(phys, prot), m0, nodes0, free0, heap.slab.ram.View(), spaces.t.nodes, heap.slab.pmm.free);
      AfterWalk(m0, free0, nodes0, roots[ptr]);
      FramesAre();
      SameSum(heap.Footprint(), free0, nodes0.Keys, heap.slab.pmm.free, spaces.t.nodes.Keys);
    }

    /** `arch_unmap_page` on the address space at `ptr`. */
    method UnmapPage(ptr: nat, va: Word) returns (r: int)
      requires Valid() && ptr in roots
      modifies heap.slab.pmm`freeFrames, heap.slab.pmm`lastFreeIndex, heap.slab.pmm`free, heap.slab.pmm.bitmap, heap.slab.ram.cells, spaces.t`nodes
      ensures Valid() && AllFrames() == old(AllFrames())
      ensures Unmaps(r, roots[ptr], Vpn(va), old(heap.slab.ram.View()), old(spaces.t.nodes), old(heap.slab.pmm.free),
                     heap.slab.ram.View(), spaces.t.nodes, heap.slab.pmm.free)
      ensures BlocksSame(old(heap.slab.ram.View()), heap.slab.ram.View(), heap.blocks, {})
      ensures ForeignSame(old(heap.slab.ram.View()), heap.slab.ram.View(), heap.slab.caches, heap.buckets[..], {})
    {
      hide *;
      ghost var m0, free0, nodes0 := heap.slab.ram.View(), heap.slab.pmm.free, spaces.t.nodes;
      IsBeside();
      FramesAre();
      var ttbr0, asid := ReadRoot(ptr);
      r := spaces.UnmapPage(ttbr0, va);
      WalkAdds(r, roots[ptr], Vpn(va), 0, m0, nodes0, free0, heap.slab.ram.View(), spaces.t.nodes, heap.slab.pmm.free);
      AfterWalk(m0, free0, nodes0, roots[ptr]);
      FramesAre();
      SameSum(heap.Footprint(), free0, nodes0.Keys, heap.slab.pmm.free, spaces.t.nodes.Keys);
    }

    /** The fields of a live root structure. */
    lemma RootFields(ptr: nat)
      requires Valid() && ptr in roots
      ensures ptr / 8 + 1 < heap.slab.ram.cells.Length && ptr % 8 == 0 && HEADER <= ptr && ptr - HEADER in heap.blocks
      ensures heap.blocks[ptr - HEADER] == ROOT_STRUCT
      ensures Ld(heap.slab.ram.View(), ptr / 8) == roots[ptr] * PAGE_SIZE && IsRoot(spaces.t.nodes, roots[ptr])
      ensures roots[ptr] in spaces.asids && Ld(heap.slab.ram.View(), ptr / 8 + 1) % 0x1_0000 == spaces.asids[roots[ptr]]
    {
      hide Forest, Represents, KernelHeap.Valid, SlabWorld.Valid, BucketSize;
      RootInBlock(heap.blocks, ptr);
      heap.PayloadPlace(ptr - HEADER, ptr / 8 + 1);
    }

    /** `root->ttbr0_phys` and `root->asid` are loaded. */
    method ReadRoot(ptr: nat) returns (ttbr0: Word, asid: nat)
      requires Valid() && ptr in roots
      ensures ttbr0 % PAGE_SIZE == 0 && ttbr0 / PAGE_SIZE == roots[ptr] && IsRoot(spaces.t.nodes, roots[ptr])
      ensures roots[ptr] in spaces.asids && asid == spaces.asids[roots[ptr]] && HEADER <= ptr
      ensures ptr - HEADER in heap.blocks && heap.blocks[ptr - HEADER] == ROOT_STRUCT
    {
      hide KernelMemory.Valid;
      RootFields(ptr);
      ttbr0 := heap.slab.ram.Load(ptr / 8);
      asid := heap.slab.ram.Load(ptr / 8 + 1) % 0x1_0000;
    }

    /** A walk that only added tables from free frames leaves the heap and the root structures as they were. */
    lemma AfterWalk(m0: seq<Word>, free0: set<nat>, nodes0: map<nat, Node>, root: nat)
      requires Beside(m0, free0, nodes0, spaces.asids) && spaces.Valid() && heap.slab.pmm.HintOk()
      requires TablesAdded(root, m0, nodes0, free0, heap.slab.ram.View(), spaces.t.nodes, heap.slab.pmm.free)
      ensures Valid() && BlocksSame(m0, heap.slab.ram.View(), heap.blocks, {})
      ensures heap.slab.pmm.free + spaces.t.nodes.Keys == free0 + nodes0.Keys
      ensures ForeignSame(m0, heap.slab.ram.View(), heap.slab.caches, heap.buckets[..], {})
    {
      hide ForeignSame, HeapFits, HeapHolds, RootsOk, Forest, Represents, SameOutside, BlocksSame, LargeFrames, AddressSpaces.Valid, KernelHeap.Valid;
      AddedSum(nodes0.Keys, free0, spaces.t.nodes.Keys, heap.slab.pmm.free);
      PmmOfSpaces();
      HeapSpared(m0, free0, spaces.t.nodes.Keys);
      RootsKept(m0, heap.slab.ram.View(), heap.blocks, heap.blocks, spaces.asids, roots, {});
      Initialized();
    }

    lemma Initialized()
      requires HeapFits()
      ensures heap.initialized
    {
    }

    /** Every frame the stack manages: free, a slab page, part of a large block, or a page table. */
    ghost function AllFrames(): set<nat>
      reads heap, heap.slab, heap.slab.pmm`free, spaces.t`nodes
    {
      heap.Reach() + spaces.t.nodes.Keys
    }

    lemma FramesAre()
      ensures AllFrames() == heap.Footprint() + heap.slab.pmm.free + spaces.t.nodes.Keys
    {
    }

    /** The table and ASID steps of `arch_pagetable_create`, after the root structure is allocated. */
    method PlantTree() returns (l0Phys: Word, asid: int)
      requires Valid()
      modifies heap.slab.pmm`freeFrames, heap.slab.pmm`lastFreeIndex, heap.slab.pmm`free, heap.slab.pmm.bitmap, heap.slab.ram.cells,
        spaces.t`nodes, spaces.asidUsed, spaces`asids
      ensures heap.Valid() && spaces.Valid() && spaces.t.nodes.Keys !! heap.Footprint() && AllFrames() == old(AllFrames())
      ensures RootsOk(heap.slab.ram.View(), heap.blocks, old(spaces.asids), roots)
      ensures BlocksSame(old(heap.slab.ram.View()), heap.slab.ram.View(), heap.blocks, {})
      ensures SameMeaning(Arm64, old(heap.slab.ram.View()), heap.slab.ram.View(), old(spaces.t.nodes))
      ensures l0Phys == 0 <==> old(heap.slab.pmm.free) == {} || AsidsExhausted(old(spaces.asids))
      ensures Planted(l0Phys, asid, old(spaces.t.nodes), spaces.t.nodes, old(spaces.asids), spaces.asids,
                      old(heap.slab.pmm.free), heap.slab.pmm.free, heap.slab.ram.View())
      ensures l0Phys % PAGE_SIZE == 0 && (l0Phys != 0 ==> l0Phys / PAGE_SIZE !in old(spaces.asids))
      ensures ForeignSame(old(heap.slab.ram.View()), heap.slab.ram.View(), old(heap.slab.caches), heap.buckets[..], {})
    {
      hide *;
      ghost var m0, free0, nodes0, asids0 := heap.slab.ram.View(), heap.slab.pmm.free, spaces.t.nodes, spaces.asids;
      IsBeside();
      FramesAre();
      l0Phys, asid := spaces.NewTree();
      AfterPlanting(m0, free0, nodes0, asids0, l0Phys, asid);
    }

    /** A new root table taken from a free frame leaves the heap and the root structures as they were. */
    lemma AfterPlanting(m0: seq<Word>, free0: set<nat>, nodes0: map<nat, Node>, asids0: map<nat, nat>, l0Phys: Word, asid: int)
      requires Beside(m0, free0, nodes0, asids0) && spaces.Valid() && heap.slab.pmm.HintOk() && SameOutside(m0, heap.slab.ram.View(), free0)
      requires Planted(l0Phys, asid, nodes0, spaces.t.nodes, asids0, spaces.asids, free0, heap.slab.pmm.free, heap.slab.ram.View())
      ensures heap.Valid() && RootsOk(heap.slab.ram.View(), heap.blocks, asids0, roots)
      ensures BlocksSame(m0, heap.slab.ram.View(), heap.blocks, {}) && spaces.t.nodes.Keys !! heap.Footprint()
      ensures AllFrames() == heap.Footprint() + free0 + nodes0.Keys && (l0Phys != 0 ==> l0Phys / PAGE_SIZE !in asids0)
      ensures ForeignSame(m0, heap.slab.ram.View(), heap.slab.caches, heap.buckets[..], {})
    {
      hide ForeignSame, HeapFits, HeapHolds, RootsOk, Forest, Represents, SameOutside, BlocksSame, LargeFrames, AddressSpaces.Valid, KernelHeap.Valid, WithRoot,
        MapsNothing, Blank;
      RootSum(heap.Footprint(), free0, nodes0, l0Phys / PAGE_SIZE);
      PmmOfSpaces();
      HeapSpared(m0, free0, free0);
      RootsKept(m0, heap.slab.ram.View(), heap.blocks, heap.blocks, asids0, roots, {});
    }

    lemma PmmOfSpaces()
      requires spaces.Valid()
      ensures spaces.t.pmm.Valid()
    {
      hide Forest, Represents;
    }

    lemma AsidsAreRoots()
      requires Valid()
      ensures forall r :: r in spaces.asids ==> r in spaces.t.nodes
    {
      hide Forest, Represents, KernelHeap.Valid, RootsOk;
      assert forall r :: r in spaces.asids ==> IsRoot(spaces.t.nodes, r);
    }

    /** `root->ttbr0_phys` and `root->asid` are stored. */
    method FillRoot(ptr: nat, l0Phys: Word, asid: nat)
      requires heap.Valid() && HEADER <= ptr && ptr - HEADER in heap.blocks && heap.blocks[ptr - HEADER] == ROOT_STRUCT && asid < 0x1_0000
      modifies heap.slab.ram.cells
      ensures heap.Valid() && ptr % 8 == 0
      ensures Ld(heap.slab.ram.View(), ptr / 8) == l0Phys && Ld(heap.slab.ram.View(), ptr / 8 + 1) % 0x1_0000 == asid
      ensures BlocksSame(old(heap.slab.ram.View()), heap.slab.ram.View(), heap.blocks, {ptr - HEADER})
      ensures SameOutside(old(heap.slab.ram.View()), heap.slab.ram.View(), heap.Footprint())
      ensures ForeignSame(old(heap.slab.ram.View()), heap.slab.ram.View(), old(heap.slab.caches), heap.buckets[..], {})
    {
      hide ForeignSame, KernelHeap.Valid, SlabWorld.Valid, BlocksSame, SameOutside, LiveSame, LargeFrames, BucketSize, Patched;
      ghost var m0, h := heap.slab.ram.View(), ptr - HEADER;
      heap.HeaderSays(h);
      BucketSizes();
      heap.WriteWord(ptr - HEADER, ptr / 8, l0Phys);
      ghost var m1 := heap.slab.ram.View();
      heap.WriteByte(ptr, 8, asid % 256);
      ghost var m2 := heap.slab.ram.View();
      heap.WriteByte(ptr, 9, asid / 256);
      ghost var m3 := heap.slab.ram.View();
      OnlyBucketsAtFirst(heap.slab.caches, heap.buckets[..]);
      ForeignSameAgain(m0, m1, m2, heap.slab.caches, heap.slab.caches, heap.buckets[..]);
      ForeignSameAgain(m0, m2, m3, heap.slab.caches, heap.slab.caches, heap.buckets[..]);
      BlocksSameAgain(m0, m1, m2, heap.blocks, {h});
      BlocksSameAgain(m0, m2, m3, heap.blocks, {h});
      SameOutsideTwice(m0, m1, m2, heap.Footprint(), heap.Footprint());
      SameOutsideTwice(m0, m2, m3, heap.Footprint(), heap.Footprint());
      HalfWord(Ld(m1, ptr / 8 + 1), ptr + 8, asid);
    }

    /** `arch_pagetable_create`: 0 when no frame or no ASID is left; it halts when the heap cannot supply the root structure. */
    method CreatePagetable() returns (ptr: nat, halted: bool)
      requires Valid()
      modifies heap.slab.pmm`freeFrames, heap.slab.pmm`lastFreeIndex, heap.slab.pmm`free, heap.slab.pmm.bitmap, heap.slab.ram.cells,
        heap.slab`caches, heap.slab`owner, heap`blocks, spaces.t`nodes, spaces.asidUsed, spaces`asids, `roots
      ensures Valid() && (!halted ==> AllFrames() == old(AllFrames()))
      ensures halted <==> old(heap.slab.pmm.free) == {} && old(heap.FreeObjects(ROOT_STRUCT)) == []
      ensures ptr != 0 <==> Creatable(old(heap.slab.pmm.free), old(heap.FreeObjects(ROOT_STRUCT)), old(spaces.asids))
      ensures Created(ptr, old(roots), roots, old(heap.blocks), heap.blocks, old(spaces.t.nodes), spaces.t.nodes,
                      old(spaces.asids), spaces.asids, old(heap.slab.pmm.free), heap.slab.pmm.free,
                      old(heap.FreeObjects(ROOT_STRUCT)), heap.slab.ram.View())
      ensures BlocksSame(old(heap.slab.ram.View()), heap.slab.ram.View(), old(heap.blocks), {})
      ensures SameMeaning(Arm64, old(heap.slab.ram.View()), heap.slab.ram.View(), old(spaces.t.nodes))
      ensures OnlyBuckets(old(heap.slab.caches), heap.slab.caches, heap.buckets[..])
      ensures ForeignSame(old(heap.slab.ram.View()), heap.slab.ram.View(), old(heap.slab.caches), heap.buckets[..], {})
    {
      hide ForeignSame, Forest, Represents, SameOutside, SameMeaning, BlocksSame, RootsOk, TablesFit, KernelMemory.Valid, KernelHeap.Valid, SlabWorld.Valid,
        HeapFits, AddressSpaces.Valid, LargeFrames, HeapHolds, Lookup, OnlyBuckets, Planted, Created, AsidsExhausted, AllFrames, Mallocs,
        KernelHeap.FreeObjects, RefillTakes;
      ghost var m0, blocks0, nodes0, asids0, roots0, free0, stock, caches0 :=
        heap.slab.ram.View(), heap.blocks, spaces.t.nodes, spaces.asids, roots, heap.slab.pmm.free, heap.FreeObjects(ROOT_STRUCT), heap.slab.caches;
      BucketsApart();
      Together();
      var r := Kmalloc(ROOT_STRUCT);
      StructAllocated(r, blocks0, heap.blocks, free0, heap.slab.pmm.free, stock);
      RefillLeaves(stock, free0, heap.slab.pmm.free);
      if !r.Block? {
        NothingCreated(roots, blocks0, nodes0, asids0, free0, heap.slab.pmm.free, stock, heap.slab.ram.View());
        return 0, r.Panic?;
      }
      RootsHaveBlocks(m0, blocks0, asids0, roots, r.ptr);
      ghost var m1, blocks1, caches1, free1 := heap.slab.ram.View(), heap.blocks, heap.slab.caches, heap.slab.pmm.free;
      var l0Phys, asid := PlantTree();
      ghost var m2 := heap.slab.ram.View();
      PlantedFacts(l0Phys, asid, nodes0, spaces.t.nodes, asids0, spaces.asids, free1, heap.slab.pmm.free, m2);
      SameMeaningTwice(m0, m1, m2, nodes0);
      BlocksSameNew(m0, m1, m2, blocks0, blocks1, {});
      ForeignSameAgain(m0, m1, m2, caches0, caches1, heap.buckets[..]);
      if l0Phys == 0 {
        Reunited();
        GiveBack(r.ptr);
        OnlyBucketsTwice(caches0, caches1, heap.slab.caches, heap.buckets[..]);
        ForeignSameAgain(m0, m2, heap.slab.ram.View(), caches0, caches1, heap.buckets[..]);
        SameMeaningTwice(m0, m2, heap.slab.ram.View(), nodes0);
        NewSparesOld(m0, m2, heap.slab.ram.View(), blocks0, blocks1, r.ptr - HEADER);
        NothingCreated(roots, blocks0, nodes0, asids0, free0, heap.slab.pmm.free, stock, heap.slab.ram.View());
        assert heap.blocks == blocks0;
        return 0, false;
      }
      Install(r.ptr, l0Phys, asid, asids0);
      ghost var m3 := heap.slab.ram.View();
      PlantedIsCreated(r.ptr, l0Phys, asid, roots0, blocks0, nodes0, spaces.t.nodes, asids0, spaces.asids,
                       free0, free1, heap.slab.pmm.free, stock, m2, m3);
      SameMeaningTwice(m0, m2, m3, nodes0);
      NewSparesOld(m0, m2, m3, blocks0, blocks1, r.ptr - HEADER);
      ForeignSameAgain(m0, m2, m3, caches0, caches1, heap.buckets[..]);
      return r.ptr, false;
    }

    /** `kfree_sized` of a root structure that no tree needs. */
    method GiveBack(ptr: nat)
      requires Valid() && HEADER <= ptr && ptr - HEADER in heap.blocks && heap.blocks[ptr - HEADER] == ROOT_STRUCT && ptr !in roots
      modifies heap.slab.pmm`freeFrames, heap.slab.pmm`lastFreeIndex, heap.slab.pmm`free, heap.slab.pmm.bitmap, heap.slab.ram.cells,
        heap.slab`caches, heap`blocks
      ensures Valid() && heap.blocks == old(heap.blocks) - {ptr - HEADER}
      ensures heap.slab.pmm.free == old(heap.slab.pmm.free) && AllFrames() == old(AllFrames())
      ensures BlocksSame(old(heap.slab.ram.View()), heap.slab.ram.View(), old(heap.blocks), {ptr - HEADER})
      ensures SameMeaning(Arm64, old(heap.slab.ram.View()), heap.slab.ram.View(), spaces.t.nodes)
      ensures OnlyBuckets(old(heap.slab.caches), heap.slab.caches, heap.buckets[..])
      ensures ForeignSame(old(heap.slab.ram.View()), heap.slab.ram.View(), old(heap.slab.caches), heap.buckets[..], {})
    {
      hide ForeignSame, Forest, Represents, SameOutside, SameMeaning, BlocksSame, LiveSame, RootsOk, TablesFit, KernelHeap.Valid, SlabWorld.Valid,
        AddressSpaces.Valid, LargeFrames;
      ghost var m0, blocks0 := heap.slab.ram.View(), heap.blocks;
      Parts();
      heap.KfreeSized(ptr, ROOT_STRUCT);
      PmmValid();
      TablesSpared(m0, heap.slab.Pages());
      RootsKept(m0, heap.slab.ram.View(), blocks0, heap.blocks, spaces.asids, roots, {ptr - HEADER});
    }

    /** The stores into the new root structure make its tree part of the stack. */
    method Install(ptr: nat, l0Phys: Word, asid: nat, ghost asids0: map<nat, nat>)
      requires heap.Valid() && heap.initialized && Shared() && spaces.Valid() && spaces.t.nodes.Keys !! heap.Footprint()
      requires RootsOk(heap.slab.ram.View(), heap.blocks, asids0, roots)
      requires HEADER <= ptr && ptr - HEADER in heap.blocks && heap.blocks[ptr - HEADER] == ROOT_STRUCT && ptr !in roots
      requires l0Phys % PAGE_SIZE == 0 && l0Phys / PAGE_SIZE !in asids0 && asid < 0x1_0000
      requires spaces.asids == asids0[l0Phys / PAGE_SIZE := asid]
      modifies heap.slab.ram.cells, `roots
      ensures Valid() && roots == old(roots)[ptr := l0Phys / PAGE_SIZE]
      ensures BlocksSame(old(heap.slab.ram.View()), heap.slab.ram.View(), heap.blocks, {ptr - HEADER})
      ensures SameMeaning(Arm64, old(heap.slab.ram.View()), heap.slab.ram.View(), spaces.t.nodes)
      ensures ForeignSame(old(heap.slab.ram.View()), heap.slab.ram.View(), old(heap.slab.caches), heap.buckets[..], {})
    {
      hide ForeignSame, Forest, Represents, SameOutside, SameMeaning, BlocksSame, LiveSame, RootsOk, TablesFit, KernelHeap.Valid, SlabWorld.Valid,
        LargeFrames, AddressSpaces.Valid;
      ghost var m0 := heap.slab.ram.View();
      TablesPart();
      FillRoot(ptr, l0Phys, asid);
      PmmValid();
      TablesSpared(m0, heap.Footprint());
      RootsKept(m0, heap.slab.ram.View(), heap.blocks, heap.blocks, asids0, roots, {ptr - HEADER});
      RootsAdded(heap.slab.ram.View(), heap.blocks, asids0, roots, ptr, l0Phys / PAGE_SIZE, asid);
      roots := roots[ptr := l0Phys / PAGE_SIZE];
    }

    lemma TablesPart()
      requires Shared() && spaces.Valid()
      ensures TablesFit() && Forest(Arm64, heap.slab.ram.View(), spaces.t.nodes) && spaces.t.nodes.Keys !! heap.slab.pmm.free
      ensures heap.slab.ram.cells as object != heap.slab.pmm.bitmap as object
      ensures spaces.asidUsed as object != heap.slab.ram.cells as object && spaces.asidUsed as object != heap.slab.pmm.bitmap as object
    {
      hide Forest, Represents;
    }

    /** The tree and the ASID of the address space at `ptr` go; its root structure is then an ordinary block. */
    method FellTree(ghost ptr: nat, ttbr0: Word, asid: nat) returns (ghost freed: seq<nat>)
      requires Valid() && ptr in roots && IsRoot(spaces.t.nodes, roots[ptr]) && roots[ptr] in spaces.asids
      requires ttbr0 % PAGE_SIZE == 0 && ttbr0 / PAGE_SIZE == roots[ptr] && asid == spaces.asids[roots[ptr]]
      modifies heap.slab.pmm`freeFrames, heap.slab.pmm`lastFreeIndex, heap.slab.pmm`free, heap.slab.pmm.bitmap,
        spaces.t`nodes, spaces.asidUsed, spaces`asids, `roots
      ensures Valid() && heap.slab.ram.View() == old(heap.slab.ram.View())
      ensures roots == old(roots) - {ptr}
      ensures spaces.t.nodes == WithoutTree(old(spaces.t.nodes), old(roots)[ptr]) && spaces.asids == old(spaces.asids) - {old(roots)[ptr]}
      ensures heap.slab.pmm.free == old(heap.slab.pmm.free) + (old(spaces.t.nodes).Keys - spaces.t.nodes.Keys)
      ensures EachOnce(freed, old(spaces.t.nodes).Keys - spaces.t.nodes.Keys)
    {
      hide *;
      ghost var m0, free0, nodes0, r := heap.slab.ram.View(), heap.slab.pmm.free, spaces.t.nodes, roots[ptr];
      Together();
      Parts();
      HeapParts();
      freed := spaces.DestroyTree(ttbr0, asid);
      TreeGone(nodes0, r, free0, heap.slab.pmm.free, heap.Footprint());
      PmmOfSpaces();
      NothingWritten(m0, spaces.t.nodes, {});
      HeapSpared(m0, free0, {});
      RootsRemoved(m0, heap.blocks, old(spaces.asids), roots, ptr);
      roots := roots - {ptr};
      Reunited();
    }

    /** `arch_pagetable_destroy`: the tree's frames, each once, and the root structure are given back; nothing else changes. */
    method DestroyPagetable(ptr: nat) returns (ghost freed: seq<nat>)
      requires Valid() && ptr in roots
      modifies heap.slab.pmm`freeFrames, heap.slab.pmm`lastFreeIndex, heap.slab.pmm`free, heap.slab.pmm.bitmap, heap.slab.ram.cells,
        heap.slab`caches, heap`blocks, spaces.t`nodes, spaces.asidUsed, spaces`asids, `roots
      ensures Valid() && AllFrames() == old(AllFrames())
      ensures roots == old(roots) - {ptr} && heap.blocks == old(heap.blocks) - BlockAt(ptr)
      ensures spaces.t.nodes == WithoutTree(old(spaces.t.nodes), old(roots)[ptr]) && spaces.asids == old(spaces.asids) - {old(roots)[ptr]}
      ensures heap.slab.pmm.free == old(heap.slab.pmm.free) + (old(spaces.t.nodes).Keys - spaces.t.nodes.Keys)
      ensures EachOnce(freed, old(spaces.t.nodes).Keys - spaces.t.nodes.Keys)
      ensures BlocksSame(old(heap.slab.ram.View()), heap.slab.ram.View(), old(heap.blocks), BlockAt(ptr))
      ensures SameMeaning(Arm64, old(heap.slab.ram.View()), heap.slab.ram.View(), spaces.t.nodes)
      ensures OnlyBuckets(old(heap.slab.caches), heap.slab.caches, heap.buckets[..])
      ensures ForeignSame(old(heap.slab.ram.View()), heap.slab.ram.View(), old(heap.slab.caches), heap.buckets[..], {})
    {
      hide ForeignSame, SameMeaning, BlocksSame, KernelMemory.Valid, EachOnce, LargeFrames;
      var ttbr0, asid := ReadRoot(ptr);
      freed := FellTree(ptr, ttbr0, asid);
      GiveBack(ptr);
    }

    /** `slab_cache_create`, `slab_alloc` and `slab_free` for users other than the heap, beside live blocks and page tables. */
    method NewCache(objSize: Word) returns (c: nat)
      requires Valid() && objSize + 8 <= U64
      modifies heap.slab.pmm`freeFrames, heap.slab.pmm`lastFreeIndex, heap.slab.pmm`free, heap.slab.pmm.bitmap, heap.slab.ram.cells,
        heap.slab`caches, heap.slab`owner, heap.slab`metaInitialized
      ensures Valid() && AllFrames() == old(AllFrames())
      ensures c == 0 <==> old(heap.slab.pmm.free) == {} && old(heap.FreeStructs()) == []
      ensures c != 0 ==> heap.OtherCache(c) && c !in old(heap.slab.caches) && heap.slab.caches[c].live == {}
      ensures BlocksSame(old(heap.slab.ram.View()), heap.slab.ram.View(), heap.blocks, {})
      ensures LiveSame(old(heap.slab.ram.View()), heap.slab.ram.View(), old(heap.slab.caches), {})
      ensures SameMeaning(Arm64, old(heap.slab.ram.View()), heap.slab.ram.View(), spaces.t.nodes)
      ensures forall d :: d in old(heap.slab.caches) && d != heap.slab.meta ==> d in heap.slab.caches && heap.slab.caches[d] == old(heap.slab.caches)[d]
    {
      hide Forest, Represents, SameOutside, SameMeaning, BlocksSame, LiveSame, RootsOk, TablesFit, KernelHeap.Valid, SlabWorld.Valid,
        AddressSpaces.Valid, LargeFrames, KernelHeap.FreeStructs;
      ghost var m0 := heap.slab.ram.View();
      Parts();
      c := heap.NewCache(objSize);
      PmmValid();
      TablesSpared(m0, heap.slab.Pages());
      RootsKept(m0, heap.slab.ram.View(), heap.blocks, heap.blocks, spaces.asids, roots, {});
    }

    method NewObject(c: nat) returns (a: nat)
      requires Valid() && heap.OtherCache(c)
      modifies heap.slab.pmm`freeFrames, heap.slab.pmm`lastFreeIndex, heap.slab.pmm`free, heap.slab.pmm.bitmap, heap.slab.ram.cells,
        heap.slab`caches, heap.slab`owner
      ensures Valid() && AllFrames() == old(AllFrames())
      ensures OnlyLive(old(heap.slab.caches), heap.slab.caches, c,
                       if a == 0 then old(heap.slab.caches)[c].live else old(heap.slab.caches)[c].live + {a})
      ensures a == 0 <==>
        old(heap.slab.caches)[c].free == [] && (old(heap.slab.pmm.free) == {} || PAGE_SIZE - FRAME_HEADER < old(heap.slab.caches)[c].objSize)
      ensures a != 0 ==> a !in old(heap.slab.caches)[c].live
      ensures BlocksSame(old(heap.slab.ram.View()), heap.slab.ram.View(), heap.blocks, {})
      ensures LiveSame(old(heap.slab.ram.View()), heap.slab.ram.View(), old(heap.slab.caches), {})
      ensures SameMeaning(Arm64, old(heap.slab.ram.View()), heap.slab.ram.View(), spaces.t.nodes)
    {
      hide Forest, Represents, SameOutside, SameMeaning, BlocksSame, LiveSame, RootsOk, TablesFit, KernelHeap.Valid, SlabWorld.Valid,
        AddressSpaces.Valid, LargeFrames;
      ghost var m0 := heap.slab.ram.View();
      Parts();
      a := heap.NewObject(c);
      PmmValid();
      TablesSpared(m0, heap.slab.Pages());
      RootsKept(m0, heap.slab.ram.View(), heap.blocks, heap.blocks, spaces.asids, roots, {});
    }

    method FreeObject(c: nat, a: nat)
      requires Valid() && heap.OtherCache(c) && a in heap.slab.caches[c].live
      modifies heap.slab.ram.cells, heap.slab`caches
      ensures Valid() && AllFrames() == old(AllFrames())
      ensures heap.slab.caches == old(heap.slab.caches)[c := Given(old(heap.slab.caches)[c], a)]
      ensures BlocksSame(old(heap.slab.ram.View()), heap.slab.ram.View(), heap.blocks, {})
      ensures LiveSame(old(heap.slab.ram.View()), heap.slab.ram.View(), old(heap.slab.caches), {a})
      ensures SameMeaning(Arm64, old(heap.slab.ram.View()), heap.slab.ram.View(), spaces.t.nodes)
    {
      hide Forest, Represents, SameOutside, SameMeaning, BlocksSame, LiveSame, RootsOk, TablesFit, KernelHeap.Valid, SlabWorld.Valid,
        AddressSpaces.Valid, LargeFrames;
      ghost var m0 := heap.slab.ram.View();
      Parts();
      heap.FreeObject(c, a);
      PmmValid();
      TablesSpared(m0, heap.slab.Pages());
      RootsKept(m0, heap.slab.ram.View(), heap.blocks, heap.blocks, spaces.asids, roots, {});
    }
  }
}
