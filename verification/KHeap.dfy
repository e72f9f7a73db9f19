/**
 The kernel heap of `base/mm/kheap.c`: eight slab caches for small blocks, runs of whole frames for large ones, and a
 16-byte header in front of every block. A large block is one whose size is over `MAX_SLAB`.
 */
module KHeap {
  import opened Machine
  import opened Bytes
  import opened PhysFrame
  import opened Slab

  const BUCKETS := 8
  const MAX_SLAB := 2048

  /** `sizeof(alloc_header_t)`: the requested size, then the owning cache or 0. */
  const HEADER := 16

  /** `KMALLOC_MIN_SIZE << i`. */
  function BucketSize(i: nat): nat
    requires i < BUCKETS
  {
    if i == 0 then 16 else 2 * BucketSize(i - 1)
  }

  /** `get_bucket_index`. */
  function BucketIndex(size: Word): (i: int)
    ensures -1 <= i < BUCKETS && (i == -1 <==> MAX_SLAB < size)
  {
    if size <= 16 then 0
    else if size <= 32 then 1
    else if size <= 64 then 2
    else if size <= 128 then 3
    else if size <= 256 then 4
    else if size <= 512 then 5
    else if size <= 1024 then 6
    else if size <= MAX_SLAB then 7
    else -1
  }

  /** The index names the smallest bucket that holds the size; there is none exactly for large sizes. */
  lemma BucketIsBestFit(size: Word)
    ensures var i := BucketIndex(size);
      && (i == -1 <==> 2048 < size)
      && (i != -1 ==> 0 <= i < 8 && size <= BucketSize(i) && forall j :: 0 <= j < i ==> BucketSize(j) < size)
    ensures forall i :: 0 <= i < 8 ==> BucketSize(i) == Pow2(i + 4)
  {
    BucketSizes();
    forall i | 0 <= i < 8
      ensures BucketSize(i) == Pow2(i + 4)
    {
      Shifts(i);
    }
  }

  lemma {:induction false} Shifts(i: nat)
    requires i < BUCKETS
    ensures BucketSize(i) == Pow2(i + 4)
  {
    if i == 0 {
      assert Pow2(2) == 4;
    } else {
      Shifts(i - 1);
    }
  }

  lemma BucketSizes()
    ensures BucketSize(0) == 16 && BucketSize(1) == 32 && BucketSize(2) == 64 && BucketSize(3) == 128
    ensures BucketSize(4) == 256 && BucketSize(5) == 512 && BucketSize(6) == 1024 && BucketSize(7) == MAX_SLAB
  {
    assert BucketSize(2) == 64;
    assert BucketSize(4) == 256;
    assert BucketSize(6) == 1024;
  }

  /** The page count of a large request; both sums wrap at 64 bits. */
  function NumPages(size: Word): nat {
    AlignUpPage((size + HEADER) % U64) / PAGE_SIZE
  }

  /** The pages hold header and request exactly when rounding up does not wrap, and then one fewer would not. */
  lemma PagesHoldExactly(size: Word)
    ensures size + 16 <= NumPages(size) * 4096 <==> size + 16 + 4096 <= U64
    ensures size + 16 + 4096 <= U64 ==> NumPages(size) * 4096 < size + 16 + 4096
  {
  }

  function AtLeastOne(n: nat): nat {
    if n == 0 then 1 else n
  }

  /** Frames a block owns: `kmalloc` takes one even when the wrapped count is 0. */
  function OwnedPages(size: Word): nat {
    if size <= MAX_SLAB then 0 else AtLeastOne(NumPages(size))
  }

  /** `kfree` gives back no frame of such a block, although it owns one. */
  predicate Leaks(size: Word) {
    MAX_SLAB < size && NumPages(size) == 0
  }

  lemma LeaksExactly(size: Word)
    ensures Leaks(size) <==> U64 < size + 16 + 4096 && size + 16 <= U64
  {
  }

  ghost function OwnFrames(h: nat, size: Word): set<nat> {
    Span(h / PAGE_SIZE, OwnedPages(size))
  }

  /** The frames `kfree` gives back: as many as the size in the header asks for. */
  ghost function Released(h: nat, size: Word): set<nat> {
    if size <= MAX_SLAB then {} else Span(h / PAGE_SIZE, NumPages(size))
  }

  /** The frames that freeing the block at `ptr` gives back; none for a null pointer. */
  ghost function GivenBack(ptr: nat, blocks: map<nat, Word>): set<nat> {
    if HEADER <= ptr && ptr - HEADER in blocks then Released(ptr - HEADER, blocks[ptr - HEADER]) else {}
  }

  /** One past the last byte of the block whose header is at `h`. */
  function End(h: nat, size: Word): nat {
    if size <= MAX_SLAB then h + HEADER + BucketSize(BucketIndex(size)) else h + OwnedPages(size) * PAGE_SIZE
  }

  /** Word `w` is part of block `h`, header included. */
  ghost predicate InBlock(blocks: map<nat, Word>, h: nat, w: nat) {
    h in blocks && h / 8 <= w < End(h, blocks[h]) / 8
  }

  /** The header of the block at `ptr`; none for a null pointer. */
  ghost function BlockAt(ptr: nat): set<nat> {
    if HEADER <= ptr then {ptr - HEADER} else {}
  }

  /** All words of all blocks but those in `but` are the same. */
  ghost predicate BlocksSame(m: seq<Word>, m': seq<Word>, blocks: map<nat, Word>, but: set<nat>) {
    && |m'| == |m|
    && forall h: nat, w: nat {:trigger InBlock(blocks, h, w)} :: InBlock(blocks, h, w) && h !in but && w < |m| ==> m'[w] == m[w]
  }

  /** The caches `kheap_init` made. */
  ghost predicate BucketsOk(caches: map<nat, Cache>, meta: nat, buckets: seq<nat>) {
    && |buckets| == BUCKETS
    && (forall i :: 0 <= i < BUCKETS ==>
          buckets[i] in caches && buckets[i] != meta && caches[buckets[i]].objSize == BucketSize(i) + HEADER)
    && forall i, j :: 0 <= i < j < BUCKETS ==> buckets[i] != buckets[j]
  }

  /** Small blocks are exactly the live objects of the bucket caches, each with its size and cache in its header. */
  ghost predicate SmallOk(m: seq<Word>, caches: map<nat, Cache>, buckets: seq<nat>, blocks: map<nat, Word>)
    requires |buckets| == BUCKETS
  {
    && (forall h :: h in blocks && blocks[h] <= MAX_SLAB ==>
          var c := buckets[BucketIndex(blocks[h])];
          0 < blocks[h] && c in caches && h in caches[c].live && Ld(m, h / 8) == blocks[h] && Ld(m, h / 8 + 1) == c)
    && forall i, h :: 0 <= i < BUCKETS && buckets[i] in caches && h in caches[buckets[i]].live ==>
         h in blocks && blocks[h] <= MAX_SLAB && BucketIndex(blocks[h]) == i
  }

  /** Large blocks start with their header on whole used frames that no slab, structure or other block has. */
  ghost predicate LargeOk(m: seq<Word>, pages: set<nat>, low: nat, high: nat, free: set<nat>, blocks: map<nat, Word>) {
    && (forall h :: h in blocks && MAX_SLAB < blocks[h] ==>
          && h % PAGE_SIZE == 0 && Ld(m, h / 8) == blocks[h] && Ld(m, h / 8 + 1) == 0
          && low <= h / PAGE_SIZE && h / PAGE_SIZE + OwnedPages(blocks[h]) <= high
          && OwnFrames(h, blocks[h]) !! free && OwnFrames(h, blocks[h]) !! pages)
    && forall h, g :: h in blocks && g in blocks && MAX_SLAB < blocks[h] && MAX_SLAB < blocks[g] && h != g ==>
         OwnFrames(h, blocks[h]) !! OwnFrames(g, blocks[g])
  }

  /** The frames of all large blocks. */
  ghost function LargeFrames(blocks: map<nat, Word>): (r: set<nat>) {
    set h, p | h in blocks && p in OwnFrames(h, blocks[h]) :: p
  }

  /** The `n` lowest free frames exist and are consecutive. */
  ghost predicate HasRun(free: set<nat>, n: nat) {
    exists low :: LowestRun(free, low, n)
  }

  ghost predicate LowestRun(free: set<nat>, low: nat, n: nat) {
    low in free && NoneBelow(free, low) && Span(low, n) <= free
  }

  /** A large block at `h` took the lowest free frames. */
  ghost predicate TookRun(free: set<nat>, free': set<nat>, h: nat, size: Word) {
    LowestRun(free, h / PAGE_SIZE, OwnedPages(size)) && free' == free - OwnFrames(h, size)
  }

  // What one step keeps of the other blocks

  lemma SmallBlockPlace(m: seq<Word>, caches: map<nat, Cache>, owner: map<nat, nat>, meta: nat, buckets: seq<nat>,
                        blocks: map<nat, Word>, h: nat)
    requires WorldOk(m, caches, owner, meta) && BucketsOk(caches, meta, buckets) && SmallOk(m, caches, buckets, blocks)
    requires h in blocks && blocks[h] <= MAX_SLAB
    ensures var i := BucketIndex(blocks[h]);
      && 0 <= i < BUCKETS && buckets[i] in caches && h in caches[buckets[i]].live
      && h !in caches && h % 8 == 0 && h % PAGE_SIZE != 0
      && h / PAGE_SIZE in owner && owner[h / PAGE_SIZE] == buckets[i]
      && End(h, blocks[h]) == h + caches[buckets[i]].objSize
      && End(h, blocks[h]) <= (h / PAGE_SIZE + 1) * PAGE_SIZE
      && Ld(m, h / 8) == blocks[h] && Ld(m, h / 8 + 1) == buckets[i] && 0 < blocks[h]
  {
    hide WorldOk, BucketSize;
    var c := buckets[BucketIndex(blocks[h])];
    BucketIsBestFit(blocks[h]);
    OwnObject(m, caches, owner, meta, c, h);
    ObjectPlace(m, caches, owner, meta, c, h);
  }

  lemma BucketsExist(caches: map<nat, Cache>, meta: nat, buckets: seq<nat>)
    requires BucketsOk(caches, meta, buckets)
    ensures |buckets| == BUCKETS && forall i :: 0 <= i < BUCKETS ==> buckets[i] in caches
  {
  }

  /** Memory effects of the slab layer that spare live objects spare all blocks. */
  lemma SlabSparesBlocks(m: seq<Word>, m': seq<Word>, caches: map<nat, Cache>, owner: map<nat, nat>, meta: nat, buckets: seq<nat>,
                         blocks: map<nat, Word>, but: set<nat>, pages: set<nat>)
    requires WorldOk(m, caches, owner, meta) && BucketsOk(caches, meta, buckets) && SmallOk(m, caches, buckets, blocks)
    requires LiveSame(m, m', caches, but) && SameOutside(m, m', pages)
    requires forall h :: h in blocks && MAX_SLAB < blocks[h] ==> h % PAGE_SIZE == 0 && OwnFrames(h, blocks[h]) !! pages
    ensures BlocksSame(m, m', blocks, but)
  {
    hide WorldOk, BucketsOk, SmallOk, BucketSize;
    forall h: nat, w: nat | InBlock(blocks, h, w) && h !in but && w < |m|
      ensures m'[w] == m[w]
    {
      if blocks[h] <= MAX_SLAB {
        SmallBlockPlace(m, caches, owner, meta, buckets, blocks, h);
        BucketsExist(caches, meta, buckets);
        assert Payload(caches, buckets[BucketIndex(blocks[h])], h, w);
      } else {
        var p, i := w / PAGE_WORDS, w % PAGE_WORDS;
        assert p in OwnFrames(h, blocks[h]);
        assert Entry(m', p, i) == Entry(m, p, i);
      }
    }
  }

  lemma HeaderKept(m: seq<Word>, m': seq<Word>, blocks: map<nat, Word>, but: set<nat>, h: nat)
    requires BlocksSame(m, m', blocks, but) && h in blocks && h !in but
    ensures Ld(m', h / 8) == Ld(m, h / 8) && Ld(m', h / 8 + 1) == Ld(m, h / 8 + 1)
  {
    BucketIsBestFit(blocks[h]);
    assert h / 8 + 1 < End(h, blocks[h]) / 8;
    assert InBlock(blocks, h, h / 8) && InBlock(blocks, h, h / 8 + 1);
  }

  /** Large blocks stay intact while slab pages come from free frames and free frames only go away. */
  lemma LargeKept(m: seq<Word>, m': seq<Word>, pages: set<nat>, pages': set<nat>, low: nat, high: nat,
                  free: set<nat>, free': set<nat>, blocks: map<nat, Word>, but: set<nat>)
    requires LargeOk(m, pages, low, high, free, blocks) && BlocksSame(m, m', blocks, but)
    requires pages' <= pages + free && free' <= free && forall h :: h in but && h in blocks ==> blocks[h] <= MAX_SLAB
    ensures LargeOk(m', pages', low, high, free', blocks)
  {
    hide BlocksSame, OwnFrames, OwnedPages;
    forall h | h in blocks && MAX_SLAB < blocks[h]
      ensures Ld(m', h / 8) == blocks[h] && Ld(m', h / 8 + 1) == 0
    {
      HeaderKept(m, m', blocks, but, h);
    }
  }

  lemma SmallKept(m: seq<Word>, m': seq<Word>, caches: map<nat, Cache>, caches': map<nat, Cache>, meta: nat, buckets: seq<nat>,
                  blocks: map<nat, Word>)
    requires BucketsOk(caches, meta, buckets) && SmallOk(m, caches, buckets, blocks) && BlocksSame(m, m', blocks, {})
    requires forall i :: 0 <= i < BUCKETS ==> buckets[i] in caches' && caches'[buckets[i]].live == caches[buckets[i]].live
    ensures SmallOk(m', caches', buckets, blocks)
  {
    hide BlocksSame, BucketSize;
    forall h | h in blocks && blocks[h] <= MAX_SLAB
      ensures Ld(m', h / 8) == blocks[h] && Ld(m', h / 8 + 1) == buckets[BucketIndex(blocks[h])]
    {
      HeaderKept(m, m', blocks, {}, h);
    }
  }

  /** A fresh object of a bucket cache is no block yet. */
  lemma NewObjectIsNoBlock(m0: seq<Word>, m: seq<Word>, caches0: map<nat, Cache>, caches: map<nat, Cache>, owner: map<nat, nat>,
                           meta: nat, buckets: seq<nat>, blocks: map<nat, Word>, i: nat, a: nat)
    requires BucketsOk(caches0, meta, buckets) && SmallOk(m0, caches0, buckets, blocks) && i < BUCKETS
    requires WorldOk(m, caches, owner, meta)
    requires OnlyLive(caches0, caches, buckets[i], caches0[buckets[i]].live + {a}) && a !in caches0[buckets[i]].live
    requires forall h :: h in blocks && MAX_SLAB < blocks[h] ==> h % PAGE_SIZE == 0
    ensures a !in blocks
  {
    hide WorldOk, BucketSize;
    ObjectPlace(m, caches, owner, meta, buckets[i], a);
    if a in blocks && blocks[a] <= MAX_SLAB {
      BucketIsBestFit(blocks[a]);
      ObjectPlace(m, caches, owner, meta, buckets[BucketIndex(blocks[a])], a);
    }
  }

  lemma NewObjectIsNew(m: seq<Word>, caches0: map<nat, Cache>, caches: map<nat, Cache>, owner: map<nat, nat>, meta: nat, c: nat, a: nat)
    requires WorldOk(m, caches, owner, meta) && c in caches && a in caches[c].live
    requires OnlyLive(caches0, caches, c, caches[c].live) && a !in caches0[c].live
    ensures forall d :: d in caches0 ==> a !in caches0[d].live
  {
    hide WorldOk;
    ObjectPlace(m, caches, owner, meta, c, a);
    forall d | d in caches0 && a in caches0[d].live
      ensures d == c
    {
      if d != c {
        ObjectPlace(m, caches, owner, meta, d, a);
      }
    }
  }

  lemma OnlyLiveBuckets(caches: map<nat, Cache>, caches': map<nat, Cache>, meta: nat, buckets: seq<nat>, i: nat, live: set<nat>)
    requires BucketsOk(caches, meta, buckets) && i < BUCKETS && OnlyLive(caches, caches', buckets[i], live)
    ensures BucketsOk(caches', meta, buckets)
    ensures forall j :: 0 <= j < BUCKETS ==>
      buckets[j] in caches' && caches'[buckets[j]].live == if j == i then live else caches[buckets[j]].live
  {
    hide BucketSize;
  }

  lemma SmallAdded(m: seq<Word>, m': seq<Word>, caches: map<nat, Cache>, caches': map<nat, Cache>, meta: nat, buckets: seq<nat>,
                   blocks: map<nat, Word>, a: nat, size: Word)
    requires BucketsOk(caches, meta, buckets) && SmallOk(m, caches, buckets, blocks) && BlocksSame(m, m', blocks, {})
    requires 0 < size <= MAX_SLAB && a !in blocks
    requires var c := buckets[BucketIndex(size)];
      OnlyLive(caches, caches', c, caches[c].live + {a}) && Ld(m', a / 8) == size && Ld(m', a / 8 + 1) == c
    ensures BucketsOk(caches', meta, buckets) && SmallOk(m', caches', buckets, blocks[a := size])
  {
    hide BlocksSame, BucketSize, OnlyLive;
    BucketIsBestFit(size);
    OnlyLiveBuckets(caches, caches', meta, buckets, BucketIndex(size), caches[buckets[BucketIndex(size)]].live + {a});
    forall h | h in blocks && blocks[h] <= MAX_SLAB
      ensures Ld(m', h / 8) == blocks[h] && Ld(m', h / 8 + 1) == buckets[BucketIndex(blocks[h])]
    {
      HeaderKept(m, m', blocks, {}, h);
    }
    forall h | h in blocks && blocks[h] <= MAX_SLAB
      ensures h in caches'[buckets[BucketIndex(blocks[h])]].live
    {
      BucketIsBestFit(blocks[h]);
    }
  }

  lemma SmallRemoved(m: seq<Word>, m': seq<Word>, caches: map<nat, Cache>, caches': map<nat, Cache>, meta: nat, buckets: seq<nat>,
                     blocks: map<nat, Word>, a: nat)
    requires BucketsOk(caches, meta, buckets) && SmallOk(m, caches, buckets, blocks) && BlocksSame(m, m', blocks, {a})
    requires a in blocks && blocks[a] <= MAX_SLAB
    requires var c := buckets[BucketIndex(blocks[a])]; OnlyLive(caches, caches', c, caches[c].live - {a})
    ensures BucketsOk(caches', meta, buckets) && SmallOk(m', caches', buckets, blocks - {a})
  {
    hide BlocksSame, BucketSize, OnlyLive;
    BucketIsBestFit(blocks[a]);
    var i := BucketIndex(blocks[a]);
    OnlyLiveBuckets(caches, caches', meta, buckets, i, caches[buckets[i]].live - {a});
    forall h | h in blocks && blocks[h] <= MAX_SLAB && h != a
      ensures Ld(m', h / 8) == blocks[h] && Ld(m', h / 8 + 1) == buckets[BucketIndex(blocks[h])]
      ensures h in caches'[buckets[BucketIndex(blocks[h])]].live
    {
      BucketIsBestFit(blocks[h]);
      HeaderKept(m, m', blocks, {a}, h);
    }
  }

  /** A run of free frames becomes a block. */
  lemma LargeAdded(m: seq<Word>, m': seq<Word>, pages: set<nat>, low: nat, high: nat, free: set<nat>, blocks: map<nat, Word>, p: nat, size: Word)
    requires LargeOk(m, pages, low, high, free, blocks) && BlocksSame(m, m', blocks, {})
    requires MAX_SLAB < size && p * PAGE_SIZE !in blocks && Span(p, OwnedPages(size)) <= free && free !! pages
    requires low <= p && p + OwnedPages(size) <= high
    requires Ld(m', p * PAGE_WORDS) == size && Ld(m', p * PAGE_WORDS + 1) == 0
    ensures LargeOk(m', pages, low, high, free - Span(p, OwnedPages(size)), blocks[p * PAGE_SIZE := size])
  {
    hide BlocksSame, OwnedPages, Span;
    assert p * PAGE_SIZE / PAGE_SIZE == p && p * PAGE_SIZE / 8 == p * PAGE_WORDS;
    forall h | h in blocks && MAX_SLAB < blocks[h]
      ensures Ld(m', h / 8) == blocks[h] && Ld(m', h / 8 + 1) == 0
    {
      HeaderKept(m, m', blocks, {}, h);
    }
  }

  /** A block's frames become free. */
  lemma LargeRemoved(m: seq<Word>, pages: set<nat>, low: nat, high: nat, free: set<nat>, blocks: map<nat, Word>, h: nat)
    requires LargeOk(m, pages, low, high, free, blocks) && h in blocks && MAX_SLAB < blocks[h]
    ensures LargeOk(m, pages, low, high, free + Span(h / PAGE_SIZE, NumPages(blocks[h])), blocks - {h})
    ensures Span(h / PAGE_SIZE, NumPages(blocks[h])) <= OwnFrames(h, blocks[h])
  {
    hide NumPages;
  }

  lemma OwnsFirst(h: nat, size: Word)
    ensures MAX_SLAB < size ==> h / PAGE_SIZE in OwnFrames(h, size)
  {
  }

  /** A free frame starts no block. */
  lemma FreeFrameIsNoBlock(m: seq<Word>, caches: map<nat, Cache>, owner: map<nat, nat>, meta: nat, buckets: seq<nat>,
                           blocks: map<nat, Word>, pages: set<nat>, low: nat, high: nat, free: set<nat>, p: nat)
    requires WorldOk(m, caches, owner, meta) && BucketsOk(caches, meta, buckets) && SmallOk(m, caches, buckets, blocks)
    requires LargeOk(m, pages, low, high, free, blocks) && p in free
    ensures p * PAGE_SIZE !in blocks
  {
    hide WorldOk, SmallOk, BucketsOk, NumPages, BucketSize, BucketIndex;
    var h := p * PAGE_SIZE;
    if h in blocks {
      OwnsFirst(h, blocks[h]);
      if blocks[h] <= MAX_SLAB {
        SmallBlockPlace(m, caches, owner, meta, buckets, blocks, h);
      }
    }
  }

  /** The slab layer moved memory from `m` to `m'`: the blocks outside `but` are intact. */
  lemma SlabStep(m: seq<Word>, m': seq<Word>, caches: map<nat, Cache>, owner: map<nat, nat>, meta: nat, buckets: seq<nat>,
                 blocks: map<nat, Word>, but: set<nat>, pages: set<nat>, pages': set<nat>, low: nat, high: nat, free: set<nat>, free': set<nat>)
    requires WorldOk(m, caches, owner, meta) && BucketsOk(caches, meta, buckets) && SmallOk(m, caches, buckets, blocks)
    requires LargeOk(m, pages, low, high, free, blocks) && LiveSame(m, m', caches, but) && SameOutside(m, m', pages')
    requires pages' <= pages + free && free' <= free && forall h :: h in but && h in blocks ==> blocks[h] <= MAX_SLAB
    ensures BlocksSame(m, m', blocks, but) && LargeOk(m', pages', low, high, free', blocks)
  {
    hide WorldOk, BucketsOk, SmallOk, LiveSame, SameOutside, BlocksSame, OwnedPages;
    SlabSparesBlocks(m, m', caches, owner, meta, buckets, blocks, but, pages');
    LargeKept(m, m', pages, pages', low, high, free, free', blocks, but);
  }

  lemma LargeForgets(m: seq<Word>, pages: set<nat>, low: nat, high: nat, free: set<nat>, blocks: map<nat, Word>, a: nat, size: Word)
    requires LargeOk(m, pages, low, high, free, blocks) && (a in blocks ==> blocks[a] <= MAX_SLAB) && size <= MAX_SLAB
    ensures LargeOk(m, pages, low, high, free, blocks[a := size]) && LargeOk(m, pages, low, high, free, blocks - {a})
  {
    hide OwnedPages, Span;
  }

  lemma LargeAligned(m: seq<Word>, pages: set<nat>, low: nat, high: nat, free: set<nat>, blocks: map<nat, Word>)
    requires LargeOk(m, pages, low, high, free, blocks)
    ensures forall h :: h in blocks && MAX_SLAB < blocks[h] ==> h % PAGE_SIZE == 0
  {
  }

  lemma PagesTakenBounds(owner: map<nat, nat>, owner': map<nat, nat>, free: set<nat>, free': set<nat>, m: nat)
    requires PagesTaken(owner, owner', free, free')
    ensures owner'.Keys + {m} <= owner.Keys + {m} + free && free' <= free
  {
  }

  /** The frame after the first `i` of a run is the lowest free one left exactly when it was free. */
  lemma NextOfRun(free: set<nat>, low: nat, i: nat, next: Word, high: nat)
    requires low in free && NoneBelow(free, low) && Span(low, i) <= free && 0 < i
    requires high * PAGE_SIZE <= 0x1_0000_0000_0000 && forall p :: p in free ==> p < high
    requires var rest := free - Span(low, i);
      if next == 0 then rest == {} else next % PAGE_SIZE == 0 && next / PAGE_SIZE in rest && NoneBelow(rest, next / PAGE_SIZE)
    requires next != 0 || 0 < low
    ensures next == (low * PAGE_SIZE + i * PAGE_SIZE) % U64 <==> low + i in free
    ensures low + i in free ==> next == (low + i) * PAGE_SIZE && Span(low, i + 1) <= free
  {
    assert low + i - 1 in Span(low, i);
    assert (low + i) * PAGE_SIZE <= high * PAGE_SIZE;
    if low + i in free {
      assert low + i in free - Span(low, i);
      assert next / PAGE_SIZE <= low + i;
    }
  }

  lemma NoRun(free: set<nat>, low: nat, i: nat, n: nat)
    requires low in free && NoneBelow(free, low) && i < n && low + i !in free
    ensures !HasRun(free, n)
  {
    assert low + i in Span(low, n);
    assert forall other :: LowestRun(free, other, n) ==> other == low;
  }

  lemma NothingHasRun(n: nat)
    ensures !HasRun({}, n)
  {
  }

  lemma FirstOfRun(free: set<nat>, low: nat)
    requires low in free && NoneBelow(free, low)
    ensures LowestRun(free, low, 1) && Span(low, 1) == {low}
  {
    assert Span(low, 1) == {low};
  }

  lemma LongerRun(free: set<nat>, low: nat, i: nat)
    requires LowestRun(free, low, i) && low + i in free
    ensures LowestRun(free, low, i + 1) && free - Span(low, i + 1) == free - Span(low, i) - {low + i}
  {
  }

  lemma RunFound(free: set<nat>, low: nat, n: nat)
    requires LowestRun(free, low, n)
    ensures HasRun(free, n)
  {
  }

  /** Any free frame at all gives a run of one. */
  lemma {:induction false} RunOfOne(free: set<nat>, p: nat)
    requires p in free
    ensures HasRun(free, 1)
    decreases p
  {
    if NoneBelow(free, p) {
      FirstOfRun(free, p);
      RunFound(free, p, 1);
    } else {
      var q :| q in free && q < p;
      RunOfOne(free, q);
    }
  }

  lemma BlocksUntouched(m: seq<Word>, blocks: map<nat, Word>)
    ensures BlocksSame(m, m, blocks, {})
  {
  }

  lemma RunBounds(free: set<nat>, p: nat, n: nat, low: nat, high: nat)
    requires LowestRun(free, p, n) && 0 < n && forall q :: q in free ==> low <= q < high
    ensures low <= p && p + n <= high && Span(p, n) <= free
  {
    assert p + n - 1 in Span(p, n);
  }

  /** No block has a word in a free frame. */
  lemma ClearOfBlocks(m: seq<Word>, caches: map<nat, Cache>, owner: map<nat, nat>, meta: nat, buckets: seq<nat>,
                      blocks: map<nat, Word>, pages: set<nat>, low: nat, high: nat, free: set<nat>, p: nat)
    requires WorldOk(m, caches, owner, meta) && BucketsOk(caches, meta, buckets) && SmallOk(m, caches, buckets, blocks)
    requires LargeOk(m, pages, low, high, free, blocks) && owner.Keys <= pages && p in free && p !in pages
    ensures forall h: nat, w: nat :: InBlock(blocks, h, w) ==> w / PAGE_WORDS != p
  {
    hide WorldOk, SmallOk, BucketsOk, NumPages, BucketSize, BucketIndex;
    forall h: nat, w: nat | InBlock(blocks, h, w)
      ensures w / PAGE_WORDS != p
    {
      if blocks[h] <= MAX_SLAB {
        SmallBlockPlace(m, caches, owner, meta, buckets, blocks, h);
      } else {
        InOwnFrame(h, blocks[h], w);
      }
    }
  }

  lemma InOwnFrame(h: nat, size: Word, w: nat)
    requires MAX_SLAB < size && h % PAGE_SIZE == 0 && h / 8 <= w < End(h, size) / 8
    ensures w / PAGE_WORDS in OwnFrames(h, size) && w < (h / PAGE_SIZE + OwnedPages(size)) * PAGE_WORDS
    ensures h / PAGE_SIZE <= w / PAGE_WORDS
  {
    hide NumPages;
  }

  /** A header in frame `p` spares all blocks elsewhere. */
  lemma HeaderWrittenSpares(m: seq<Word>, blocks: map<nat, Word>, p: nat, size: Word)
    requires (p + 1) * PAGE_WORDS <= |m| && MAX_SLAB < size
    requires forall h: nat, w: nat :: InBlock(blocks, h, w) ==> w / PAGE_WORDS != p
    ensures var m' := Put(Put(m, p * PAGE_WORDS, size), p * PAGE_WORDS + 1, 0);
      && BlocksSame(m, m', blocks, {}) && Ld(m', p * PAGE_WORDS) == size && Ld(m', p * PAGE_WORDS + 1) == 0
      && SameOutside(m, m', LargeFrames(blocks[p * PAGE_SIZE := size]))
  {
    hide InBlock, OwnedPages;
    var m' := Put(Put(m, p * PAGE_WORDS, size), p * PAGE_WORDS + 1, 0);
    OwnsFirst(p * PAGE_SIZE, size);
    var all := blocks[p * PAGE_SIZE := size];
    assert p * PAGE_SIZE in all && p in OwnFrames(p * PAGE_SIZE, all[p * PAGE_SIZE]);
    assert p in LargeFrames(all);
  }

  lemma SmallForgets(m: seq<Word>, caches: map<nat, Cache>, meta: nat, buckets: seq<nat>, blocks: map<nat, Word>, h: nat, size: Word)
    requires BucketsOk(caches, meta, buckets) && SmallOk(m, caches, buckets, blocks) && MAX_SLAB < size
    ensures h !in blocks ==> SmallOk(m, caches, buckets, blocks[h := size])
    ensures h in blocks && MAX_SLAB < blocks[h] ==> SmallOk(m, caches, buckets, blocks - {h})
  {
    hide BucketSize, Ld;
  }

  lemma SameOutsideWider(m: seq<Word>, m': seq<Word>, inner: set<nat>, outer: set<nat>)
    requires inner <= outer
    ensures SameOutside(m, m', inner) ==> SameOutside(m, m', outer)
  {
  }

  lemma PagesTakenReach(owner: map<nat, nat>, owner': map<nat, nat>, free: set<nat>, free': set<nat>)
    requires PagesTaken(owner, owner', free, free')
    ensures owner'.Keys + free' == owner.Keys + free && free' <= free
  {
  }

  lemma LargeFramesOf(blocks: map<nat, Word>, h: nat, size: Word)
    requires h !in blocks
    ensures LargeFrames(blocks[h := size]) == LargeFrames(blocks) + OwnFrames(h, size)
    ensures size <= MAX_SLAB ==> OwnFrames(h, size) == {}
  {
    hide NumPages, Span;
    var all := blocks[h := size];
    forall p | p in LargeFrames(all)
      ensures p in LargeFrames(blocks) + OwnFrames(h, size)
    {
      var g :| g in all && p in OwnFrames(g, all[g]);
      assert g == h || (g in blocks && blocks[g] == all[g]);
    }
    forall p | p in LargeFrames(blocks) + OwnFrames(h, size)
      ensures p in LargeFrames(all)
    {
      if p in LargeFrames(blocks) {
        var g :| g in blocks && p in OwnFrames(g, blocks[g]);
        assert g in all && all[g] == blocks[g];
      } else {
        assert h in all && all[h] == size;
      }
    }
    NothingOwned(h, size);
  }

  lemma NothingOwned(h: nat, size: Word)
    ensures size <= MAX_SLAB ==> OwnFrames(h, size) == {}
  {
  }

  lemma OwnFramesTaken(free: set<nat>, h: nat, size: Word)
    requires LowestRun(free, h / PAGE_SIZE, OwnedPages(size))
    ensures OwnFrames(h, size) <= free
  {
  }

  lemma LargeFramesWithout(blocks: map<nat, Word>, h: nat)
    requires h in blocks && (MAX_SLAB < blocks[h] ==> forall g :: g in blocks && g != h ==> OwnFrames(g, blocks[g]) !! OwnFrames(h, blocks[h]))
    ensures LargeFrames(blocks - {h}) == LargeFrames(blocks) - OwnFrames(h, blocks[h])
    ensures blocks[h] <= MAX_SLAB ==> OwnFrames(h, blocks[h]) == {}
  {
    hide NumPages;
    var rest := blocks - {h};
    assert forall g :: g in rest <==> g in blocks && g != h;
    forall p | p in LargeFrames(blocks) && p !in OwnFrames(h, blocks[h])
      ensures p in LargeFrames(rest)
    {
      var g :| g in blocks && p in OwnFrames(g, blocks[g]);
      assert g in rest && rest[g] == blocks[g];
    }
  }

  lemma LargePlace(m: seq<Word>, pages: set<nat>, low: nat, high: nat, free: set<nat>, blocks: map<nat, Word>, h: nat)
    requires LargeOk(m, pages, low, high, free, blocks) && h in blocks && MAX_SLAB < blocks[h]
    ensures h % PAGE_SIZE == 0 && low <= h / PAGE_SIZE && h / PAGE_SIZE + NumPages(blocks[h]) <= high
    ensures forall g :: g in blocks && g != h ==> OwnFrames(g, blocks[g]) !! OwnFrames(h, blocks[h])
    ensures h / PAGE_SIZE + 1 <= high && Ld(m, h / 8) == blocks[h] && Ld(m, h / 8 + 1) == 0
    ensures h / PAGE_SIZE + OwnedPages(blocks[h]) <= high && OwnFrames(h, blocks[h]) !! pages
    ensures Span(h / PAGE_SIZE, NumPages(blocks[h])) !! pages && OwnFrames(h, blocks[h]) <= LargeFrames(blocks)
  {
    hide NumPages;
    forall g | g in blocks
      ensures blocks[g] <= MAX_SLAB ==> OwnFrames(g, blocks[g]) == {}
    {
      NothingOwned(g, blocks[g]);
    }
  }

  lemma OwnedIs(h: nat, size: Word)
    ensures !Leaks(size) ==> OwnFrames(h, size) == Released(h, size)
    ensures Released(h, size) <= OwnFrames(h, size)
  {
    hide NumPages;
  }

  lemma SparesMore(m: seq<Word>, m': seq<Word>, caches: map<nat, Cache>, blocks: map<nat, Word>, h: nat)
    ensures LiveSame(m, m', caches, {}) ==> LiveSame(m, m', caches, {h})
    ensures BlocksSame(m, m', blocks, {}) ==> BlocksSame(m, m', blocks, {h})
  {
  }

  /** The first `n` bucket caches exist and are empty. */
  ghost predicate Made(caches: map<nat, Cache>, meta: nat, buckets: seq<nat>, n: nat) {
    && n <= BUCKETS == |buckets|
    && (forall j :: 0 <= j < n ==> buckets[j] in caches && buckets[j] != meta && caches[buckets[j]] == Cache(BucketSize(j) + HEADER, [], [], {}))
    && forall j, k :: 0 <= j < k < n ==> buckets[j] != buckets[k]
  }

  lemma MadeOneMore(caches: map<nat, Cache>, caches': map<nat, Cache>, meta: nat, buckets: seq<nat>, n: nat, c: nat)
    requires Made(caches, meta, buckets, n) && n < BUCKETS && c !in caches && c != meta
    requires c in caches' && caches'[c] == Cache(BucketSize(n) + HEADER, [], [], {})
    requires forall d :: d in caches && d != meta ==> d in caches' && caches'[d] == caches[d]
    ensures Made(caches', meta, buckets[n := c], n + 1)
  {
    hide BucketSize;
  }

  lemma BucketFits(i: nat)
    requires i < BUCKETS
    ensures 8 <= BucketSize(i) && BucketSize(i) + HEADER + 8 <= U64 && AlignUp8(BucketSize(i) + HEADER) == BucketSize(i) + HEADER
  {
    BucketSizes();
  }

  lemma DoubleBucket(i: nat)
    requires i + 1 < BUCKETS
    ensures BucketSize(i + 1) == 2 * BucketSize(i)
  {
  }

  lemma AllMade(m: seq<Word>, caches: map<nat, Cache>, meta: nat, buckets: seq<nat>, pages: set<nat>, low: nat, high: nat, free: set<nat>)
    requires Made(caches, meta, buckets, BUCKETS)
    ensures BucketsOk(caches, meta, buckets) && SmallOk(m, caches, buckets, map[]) && LargeOk(m, pages, low, high, free, map[])
  {
    hide BucketSize;
  }

  lemma SmallLargeApart(m: seq<Word>, caches: map<nat, Cache>, owner: map<nat, nat>, meta: nat, buckets: seq<nat>,
                        blocks: map<nat, Word>, pages: set<nat>, low: nat, high: nat, free: set<nat>, h: nat, g: nat)
    requires WorldOk(m, caches, owner, meta) && BucketsOk(caches, meta, buckets) && SmallOk(m, caches, buckets, blocks)
    requires LargeOk(m, pages, low, high, free, blocks) && owner.Keys <= pages
    requires h in blocks && g in blocks && blocks[h] <= MAX_SLAB && MAX_SLAB < blocks[g]
    ensures End(h, blocks[h]) <= g || End(g, blocks[g]) <= h
    ensures h % 8 == 0 && g % 8 == 0
  {
    hide WorldOk, SmallOk, BucketsOk, BucketSize, NumPages, BucketIndex;
    SmallBlockPlace(m, caches, owner, meta, buckets, blocks, h);
    LargePlace(m, pages, low, high, free, blocks, g);
    assert h / PAGE_SIZE in pages && OwnFrames(g, blocks[g]) !! pages;
    assert h / PAGE_SIZE !in OwnFrames(g, blocks[g]);
  }

  lemma SmallApart(m: seq<Word>, caches: map<nat, Cache>, owner: map<nat, nat>, meta: nat, buckets: seq<nat>,
                   blocks: map<nat, Word>, h: nat, g: nat)
    requires WorldOk(m, caches, owner, meta) && BucketsOk(caches, meta, buckets) && SmallOk(m, caches, buckets, blocks)
    requires h in blocks && g in blocks && blocks[h] <= MAX_SLAB && blocks[g] <= MAX_SLAB && h != g
    ensures End(h, blocks[h]) <= g || End(g, blocks[g]) <= h
    ensures h % 8 == 0
  {
    hide WorldOk, SmallOk, BucketsOk, BucketSize, NumPages, BucketIndex, End;
    BucketsExist(caches, meta, buckets);
    SmallBlockPlace(m, caches, owner, meta, buckets, blocks, h);
    SmallBlockPlace(m, caches, owner, meta, buckets, blocks, g);
    AnyObjectsApart(m, caches, owner, meta, buckets[BucketIndex(blocks[h])], h, buckets[BucketIndex(blocks[g])], g);
  }

  lemma LargeApart(h: nat, s: Word, g: nat, t: Word)
    requires MAX_SLAB < s && MAX_SLAB < t && h % PAGE_SIZE == 0 && g % PAGE_SIZE == 0 && OwnFrames(h, s) !! OwnFrames(g, t)
    ensures End(h, s) <= g || End(g, t) <= h
    ensures h % 8 == 0
  {
    hide NumPages;
    OwnsFirst(h, s);
    OwnsFirst(g, t);
    assert h / PAGE_SIZE !in OwnFrames(g, t) && g / PAGE_SIZE !in OwnFrames(h, s);
  }

  lemma AnyBlocksApart(m: seq<Word>, caches: map<nat, Cache>, owner: map<nat, nat>, meta: nat, buckets: seq<nat>,
                       blocks: map<nat, Word>, pages: set<nat>, low: nat, high: nat, free: set<nat>, h: nat, g: nat)
    requires WorldOk(m, caches, owner, meta) && BucketsOk(caches, meta, buckets) && SmallOk(m, caches, buckets, blocks)
    requires LargeOk(m, pages, low, high, free, blocks) && owner.Keys <= pages
    requires h in blocks && g in blocks && h != g
    ensures End(h, blocks[h]) <= g || End(g, blocks[g]) <= h
    ensures h % 8 == 0
  {
    hide *;
    if blocks[h] <= MAX_SLAB && blocks[g] <= MAX_SLAB {
      SmallApart(m, caches, owner, meta, buckets, blocks, h, g);
    } else if blocks[h] <= MAX_SLAB {
      SmallLargeApart(m, caches, owner, meta, buckets, blocks, pages, low, high, free, h, g);
    } else if blocks[g] <= MAX_SLAB {
      SmallLargeApart(m, caches, owner, meta, buckets, blocks, pages, low, high, free, g, h);
    } else {
      LargePlace(m, pages, low, high, free, blocks, h);
      LargePlace(m, pages, low, high, free, blocks, g);
      LargeApart(h, blocks[h], g, blocks[g]);
    }
  }

  /** Writing a word of block `h` behind its header keeps all headers. */
  lemma PayloadWritten(m: seq<Word>, caches: map<nat, Cache>, meta: nat, buckets: seq<nat>, blocks: map<nat, Word>, pages: set<nat>,
                       low: nat, high: nat, free: set<nat>, h: nat, w: nat, v: Word)
    requires BucketsOk(caches, meta, buckets) && SmallOk(m, caches, buckets, blocks) && LargeOk(m, pages, low, high, free, blocks)
    requires h in blocks && h / 8 + 2 <= w < End(h, blocks[h]) / 8 && w < |m|
    requires forall g: nat, u: nat {:trigger InBlock(blocks, g, u)} :: InBlock(blocks, g, u) && g != h ==> u != w
    ensures SmallOk(Put(m, w, v), caches, buckets, blocks) && LargeOk(Put(m, w, v), pages, low, high, free, blocks)
    ensures BlocksSame(m, Put(m, w, v), blocks, {h})
  {
    hide BucketSize, NumPages, InBlock, End;
    var m' := Put(m, w, v);
    forall g | g in blocks
      ensures Ld(m', g / 8) == Ld(m, g / 8) && Ld(m', g / 8 + 1) == Ld(m, g / 8 + 1)
    {
      HeaderInBlock(blocks, g);
    }
  }

  lemma HeaderInBlock(blocks: map<nat, Word>, h: nat)
    requires h in blocks
    ensures InBlock(blocks, h, h / 8) && InBlock(blocks, h, h / 8 + 1)
  {
    BucketIsBestFit(blocks[h]);
    hide NumPages;
    assert h / 8 + 1 < End(h, blocks[h]) / 8;
  }

  lemma EndAligned(h: nat, size: Word)
    ensures h % 8 == 0 ==> End(h, size) % 8 == 0
  {
    BucketSizes();
    hide NumPages;
  }

  lemma BlocksSameAgain(m0: seq<Word>, m1: seq<Word>, m2: seq<Word>, blocks: map<nat, Word>, but: set<nat>)
    requires BlocksSame(m0, m1, blocks, but) && BlocksSame(m1, m2, blocks, but)
    ensures BlocksSame(m0, m2, blocks, but)
  {
    hide InBlock;
  }

  /** The `n` bytes from `dst` on are those that were at `src`; no other byte changed. */
  ghost predicate Copied(m: seq<Word>, m': seq<Word>, src: nat, dst: nat, n: nat) {
    forall x: nat {:trigger ByteAt(m', x)} :: ByteAt(m', x) == if dst <= x < dst + n then ByteAt(m, x - dst + src) else ByteAt(m, x)
  }

  lemma CopyStep(m0: seq<Word>, m: seq<Word>, src: nat, dst: nat, i: nat)
    requires Copied(m0, m, src, dst, i) && (dst + i) / 8 < |m| && (src + i < dst || dst + i <= src)
    ensures Copied(m0, Put(m, (dst + i) / 8, Patched(Ld(m, (dst + i) / 8), dst + i, ByteAt(m, src + i))), src, dst, i + 1)
  {
    hide ByteAt, Patched, Ld;
    var m' := Put(m, (dst + i) / 8, Patched(Ld(m, (dst + i) / 8), dst + i, ByteAt(m, src + i)));
    PatchedBytes(m, dst + i, ByteAt(m, src + i));
    assert ByteAt(m, src + i) == ByteAt(m0, src + i);
    forall x: nat
      ensures ByteAt(m', x) == if dst <= x < dst + i + 1 then ByteAt(m0, x - dst + src) else ByteAt(m0, x)
    {
      assert ByteAt(m, x) == if dst <= x < dst + i then ByteAt(m0, x - dst + src) else ByteAt(m0, x);
    }
  }

  /** A block holds its requested bytes behind its header exactly when rounding its size up to pages does not wrap. */
  lemma BlockHoldsExactly(h: nat, size: Word)
    ensures h + 16 + size <= End(h, size) <==> size + 16 + 4096 <= U64
    ensures h % 8 == 0 ==> End(h, size) % 8 == 0
  {
    BucketIsBestFit(size);
    PagesHoldExactly(size);
    EndAligned(h, size);
    hide NumPages;
  }

  /** Rounding the new size up to pages does not wrap, or the old bytes fit the one page that a wrapped size gets. */
  predicate CopyFits(oldSize: Word, newSize: Word) {
    newSize + HEADER + PAGE_SIZE <= U64 || oldSize + HEADER <= PAGE_SIZE
  }

  /** The copy of `krealloc` stays inside the new block `g` exactly then. */
  lemma CopyFitsExactly(g: nat, oldSize: Word, newSize: Word)
    requires oldSize < newSize
    ensures g + HEADER + oldSize <= End(g, newSize) <==> CopyFits(oldSize, newSize)
  {
    BlockHoldsExactly(g, newSize);
    PagesHoldExactly(newSize);
  }

  /** A size that wraps gets one page. */
  lemma WrappedPages(size: Word)
    requires U64 < size + HEADER + PAGE_SIZE
    ensures MAX_SLAB < size && OwnedPages(size) == 1
  {
  }

  /** One block of size `size` was added. */
  ghost predicate OneMoreBlock(blocks: map<nat, Word>, blocks': map<nat, Word>, size: Word) {
    exists h: nat :: IsNewBlock(blocks, blocks', h, size)
  }

  ghost predicate IsNewBlock(blocks: map<nat, Word>, blocks': map<nat, Word>, h: nat, size: Word) {
    h !in blocks && blocks' == blocks[h := size]
  }

  lemma SameByte(m: seq<Word>, m': seq<Word>, x: nat)
    requires Ld(m', x / 8) == Ld(m, x / 8)
    ensures ByteAt(m', x) == ByteAt(m, x)
  {
  }

  lemma BytesKept(m: seq<Word>, m': seq<Word>, blocks: map<nat, Word>, but: set<nat>, h: nat, a: nat, n: nat)
    requires BlocksSame(m, m', blocks, but) && h in blocks && h !in but
    requires h % 8 == 0 && h <= a && a + n <= End(h, blocks[h])
    ensures BytesAt(m', a, n) == BytesAt(m, a, n)
  {
    hide End, ByteAt;
    BlockHoldsExactly(h, blocks[h]);
    forall i | 0 <= i < n
      ensures BytesAt(m', a, n)[i] == BytesAt(m, a, n)[i]
    {
      assert InBlock(blocks, h, (a + i) / 8);
      SameByte(m, m', a + i);
    }
  }

  lemma CopiedBytes(m: seq<Word>, m': seq<Word>, src: nat, dst: nat, n: nat)
    requires Copied(m, m', src, dst, n)
    ensures BytesAt(m', dst, n) == BytesAt(m, src, n)
  {
    hide ByteAt;
    forall i | 0 <= i < n
      ensures BytesAt(m', dst, n)[i] == BytesAt(m, src, n)[i]
    {
      assert dst + i - dst + src == src + i;
    }
  }

  lemma SparesBoth(m0: seq<Word>, m1: seq<Word>, m2: seq<Word>, blocks: map<nat, Word>, h: nat, g: nat)
    requires BlocksSame(m0, m1, blocks, {g}) && BlocksSame(m1, m2, blocks, {h})
    ensures BlocksSame(m0, m2, blocks, {h, g})
  {
    hide InBlock;
  }

  lemma SparesOld(m0: seq<Word>, m1: seq<Word>, m2: seq<Word>, blocks: map<nat, Word>, grown: map<nat, Word>, h: nat, g: nat)
    requires BlocksSame(m0, m1, blocks, {}) && BlocksSame(m1, m2, grown, {h, g}) && g !in blocks
    requires forall k :: k in blocks ==> k in grown && grown[k] == blocks[k]
    ensures BlocksSame(m0, m2, blocks, {h})
  {
    hide End;
    forall k: nat, w: nat | InBlock(blocks, k, w) && k != h && w < |m0|
      ensures m2[w] == m0[w]
    {
      assert InBlock(grown, k, w);
    }
  }

  function Product(num: Word, size: Word): nat {
    num * size
  }

  ghost predicate AllZero(m: seq<Word>, a: nat, n: nat) {
    forall x :: a <= x < a + n ==> ByteAt(m, x) == 0
  }

  /** The division in `kcalloc` refuses exactly the products that do not fit 64 bits. */
  lemma OverflowCheckExactly(num: Word, size: Word)
    ensures num != 0 && Product(num, size) % U64 / num != size <==> Product(num, size) >= U64
  {
    var p := num * size;
    if num != 0 {
      if p < U64 {
        assert p % U64 == p;
        UniqueQuotient(p, num, size, 0);
      } else {
        var total := p % U64;
        assert total < p;
        assert num * (total / num) <= total;
      }
    }
  }

  lemma NewSparesOld(m0: seq<Word>, m1: seq<Word>, m2: seq<Word>, blocks: map<nat, Word>, grown: map<nat, Word>, h: nat)
    requires BlocksSame(m0, m1, blocks, {}) && BlocksSame(m1, m2, grown, {h}) && h !in blocks
    requires forall k :: k in blocks ==> k in grown && grown[k] == blocks[k]
    ensures BlocksSame(m0, m2, blocks, {})
  {
    hide End;
    forall k: nat, w: nat | InBlock(blocks, k, w) && w < |m0|
      ensures m2[w] == m0[w]
    {
      assert InBlock(grown, k, w);
    }
  }

  lemma OtherObjectIsNoBlock(m: seq<Word>, caches: map<nat, Cache>, owner: map<nat, nat>, meta: nat, buckets: seq<nat>,
                             blocks: map<nat, Word>, pages: set<nat>, low: nat, high: nat, free: set<nat>, c: nat, a: nat)
    requires WorldOk(m, caches, owner, meta) && BucketsOk(caches, meta, buckets) && SmallOk(m, caches, buckets, blocks)
    requires LargeOk(m, pages, low, high, free, blocks) && c in caches && c !in buckets && a in caches[c].live
    ensures a !in blocks
  {
    hide WorldOk, SmallOk, LargeOk, BucketSize, NumPages;
    ObjectPlace(m, caches, owner, meta, c, a);
    if a in blocks {
      if blocks[a] <= MAX_SLAB {
        SmallBlockPlace(m, caches, owner, meta, buckets, blocks, a);
      } else {
        LargePlace(m, pages, low, high, free, blocks, a);
      }
    }
  }

  lemma NoBlockSpared(m: seq<Word>, m': seq<Word>, blocks: map<nat, Word>, a: nat)
    requires BlocksSame(m, m', blocks, {a}) && a !in blocks
    ensures BlocksSame(m, m', blocks, {})
  {
    hide End;
  }

  /** Only caches among `buckets` changed, and none came or went. */
  ghost predicate OnlyBuckets(caches: map<nat, Cache>, caches': map<nat, Cache>, buckets: seq<nat>) {
    caches'.Keys == caches.Keys && forall c :: c in caches && c !in buckets ==> caches'[c] == caches[c]
  }

  /** Words of live objects of other users' caches, but for the objects in `but`, are the same. */
  ghost predicate ForeignSame(m: seq<Word>, m': seq<Word>, caches: map<nat, Cache>, buckets: seq<nat>, but: set<nat>) {
    && |m'| == |m|
    && forall c, a, w: nat {:trigger Payload(caches, c, a, w)} ::
         Payload(caches, c, a, w) && c !in buckets && a !in but && w < |m| ==> m'[w] == m[w]
  }

  /** No object of another user's cache is in `but`. */
  ghost predicate ClearOfForeign(caches: map<nat, Cache>, buckets: seq<nat>, but: set<nat>) {
    forall c, a :: c in caches && c !in buckets && a in caches[c].live ==> a !in but
  }

  lemma ForeignSpared(m: seq<Word>, m': seq<Word>, caches: map<nat, Cache>, buckets: seq<nat>, but: set<nat>)
    requires LiveSame(m, m', caches, but) && ClearOfForeign(caches, buckets, but)
    ensures ForeignSame(m, m', caches, buckets, {})
  {
  }

  lemma NothingForeign(m: seq<Word>, caches: map<nat, Cache>, buckets: seq<nat>)
    ensures ClearOfForeign(caches, buckets, {}) && ForeignSame(m, m, caches, buckets, {})
  {
  }

  lemma ForeignSameAgain(m0: seq<Word>, m1: seq<Word>, m2: seq<Word>, caches0: map<nat, Cache>, caches1: map<nat, Cache>, buckets: seq<nat>)
    requires ForeignSame(m0, m1, caches0, buckets, {}) && ForeignSame(m1, m2, caches1, buckets, {}) && OnlyBuckets(caches0, caches1, buckets)
    ensures ForeignSame(m0, m2, caches0, buckets, {})
  {
    forall c, a, w: nat | Payload(caches0, c, a, w) && c !in buckets && w < |m0|
      ensures m2[w] == m0[w]
    {
      assert Payload(caches1, c, a, w);
    }
  }

  lemma OnlyBucketsAtFirst(caches: map<nat, Cache>, buckets: seq<nat>)
    ensures OnlyBuckets(caches, caches, buckets)
  {
  }

  lemma OnlyBucketsTwice(a: map<nat, Cache>, b: map<nat, Cache>, c: map<nat, Cache>, buckets: seq<nat>)
    requires OnlyBuckets(a, b, buckets) && OnlyBuckets(b, c, buckets)
    ensures OnlyBuckets(a, c, buckets)
  {
  }

  lemma OneBucket(caches: map<nat, Cache>, caches': map<nat, Cache>, buckets: seq<nat>, i: nat, live: set<nat>)
    requires i < |buckets| && OnlyLive(caches, caches', buckets[i], live)
    ensures OnlyBuckets(caches, caches', buckets)
  {
  }

  /** The sizes have one bucket, or one page count. */
  predicate SameClass(size: Word, n: Word) {
    BucketIndex(n) == BucketIndex(size) && (MAX_SLAB < n ==> NumPages(n) == NumPages(size))
  }

  // Where a freed block goes

  datatype Route = ToCache(cache: nat) | ToFrames(count: nat)

  /** The free lists and the free frames once a block has gone its way. */
  datatype Effect = Effect(caches: map<nat, Cache>, frames: set<nat>)

  /** Frame numbers of 64-bit addresses: the address sum in the frame loop wraps here. */
  const FRAMES := 0x10_0000_0000_0000

  /** One of `count` frame numbers from `p` on, wrapping, is `q`. */
  predicate Reaches(p: nat, count: nat, q: nat) {
    (q + FRAMES - p % FRAMES) % FRAMES < count
  }

  /** The frames of the machine that a loop over `count` frames from `p` on gives to `pmm_free_frame`. */
  ghost function Reached(p: nat, count: nat, low: nat, high: nat): set<nat> {
    set q | low <= q < high && Reaches(p, count, q)
  }

  lemma PageCountFits(size: Word)
    ensures NumPages(size) < FRAMES
  {
  }

  /** The frame of the address `i` pages on. */
  lemma FrameOfSum(phys: Word, i: nat)
    ensures (phys + i * PAGE_SIZE) % U64 / PAGE_SIZE == (phys / PAGE_SIZE + i) % FRAMES
  {
    var p, low := phys / PAGE_SIZE, phys % PAGE_SIZE;
    var k, q := (p + i) / FRAMES, (p + i) % FRAMES;
    assert phys + i * PAGE_SIZE == k * U64 + (q * PAGE_SIZE + low);
    assert (phys + i * PAGE_SIZE) % U64 == q * PAGE_SIZE + low;
  }

  lemma NothingReached(p: nat, low: nat, high: nat)
    ensures Reached(p, 0, low, high) == {}
  {
  }

  lemma OneMoreReached(p: nat, i: nat, q: nat)
    requires p < FRAMES && i < FRAMES && q < FRAMES
    ensures Reaches(p, i + 1, q) <==> Reaches(p, i, q) || q == (p + i) % FRAMES
  {
  }

  lemma ReachedStep(p: nat, i: nat, low: nat, high: nat)
    requires p < FRAMES && i < FRAMES && high <= FRAMES
    ensures var q := (p + i) % FRAMES;
      Reached(p, i + 1, low, high) == Reached(p, i, low, high) + if low <= q < high then {q} else {}
  {
    hide Reaches;
    forall q | low <= q < high
      ensures Reaches(p, i + 1, q) <==> Reaches(p, i, q) || q == (p + i) % FRAMES
    {
      OneMoreReached(p, i, q);
    }
  }

  lemma ReachesNear(p: nat, count: nat, q: nat, high: nat)
    requires p + count <= high <= FRAMES / 2 && q < high
    ensures Reaches(p, count, q) <==> p <= q < p + count
  {
  }

  /** Where nothing leaves the machine's frames, the loop reaches just the run at `p`. */
  lemma ReachedIsSpan(p: nat, count: nat, low: nat, high: nat)
    requires low <= p && p + count <= high <= FRAMES / 2
    ensures Reached(p, count, low, high) == Span(p, count)
  {
    hide Reaches;
    forall q | low <= q < high
      ensures Reaches(p, count, q) <==> p <= q < p + count
    {
      ReachesNear(p, count, q, high);
    }
  }

  lemma NextReached(p: nat, low: nat, high: nat)
    requires low <= p < high < FRAMES / 2
    ensures Reached(p, 2, low, high) - Span(p, 1) == if p + 1 < high then {p + 1} else {}
  {
    hide Reaches;
    forall q | low <= q < high
      ensures Reaches(p, 2, q) <==> p <= q < p + 2
    {
      ReachesNear(p, 2, q, FRAMES / 2);
    }
  }

  lemma ReachesMore(p: nat, fewer: nat, more: nat, q: nat)
    requires p < FRAMES && fewer <= more
    ensures Reaches(p, fewer, q) ==> Reaches(p, more, q)
  {
  }

  /** Freeing `asked` frames instead of the `count` used ones at `p` comes to the same iff it is no fewer and the rest are free already. */
  lemma SameFramesExactly(free: set<nat>, p: nat, count: nat, asked: nat, low: nat, high: nat)
    requires low <= p && p + count <= high <= FRAMES / 2 && p < high && Span(p, count) !! free
    ensures free + Reached(p, asked, low, high) == free + Span(p, count) <==>
      count <= asked && Reached(p, asked, low, high) - Span(p, count) <= free
  {
    hide Reaches;
    var reached, run := Reached(p, asked, low, high), Span(p, count);
    if count <= asked {
      forall q | q in run
        ensures q in reached
      {
        ReachesNear(p, count, q, high);
        ReachesMore(p, count, asked, q);
      }
    } else {
      ReachesNear(p, asked, p + asked, high);
      assert p + asked in run && p + asked !in reached;
    }
    if reached - run <= free && run <= reached {
      assert free + reached == free + run;
    }
    if free + reached == free + run {
      forall q | q in reached - run
        ensures q in free
      {
        assert q in free + run;
      }
    }
  }

  /** `Overrun` ends the run like `Panic`: a byte loop is about to write past the new block, into memory that is not its own. */
  datatype Outcome = Null | Panic | Overrun | Block(ptr: nat)

  // What the calls of the heap may do

  ghost predicate NewBlock(r: Outcome, size: Word, blocks: map<nat, Word>, blocks': map<nat, Word>) {
    r.Block? && HEADER < r.ptr && r.ptr - HEADER !in blocks && blocks' == blocks[r.ptr - HEADER := size]
  }

  /**
   How `kmalloc` answers a request, where `stock` is the free list of the bucket that serves the size: null when nothing is asked for or
   a large request finds no frame; a block when a small one finds an object or a frame, or a large one finds the lowest free frames
   consecutive.
   */
  ghost predicate Serves(r: Outcome, size: Word, free: set<nat>, stock: seq<nat>) {
    && (r.Null? <==> size == 0 || (MAX_SLAB < size && free == {}))
    && (0 < size <= MAX_SLAB ==> (r.Panic? <==> free == {} && stock == []))
    && (MAX_SLAB < size ==> (r.Block? || r.Overrun? <==> HasRun(free, OwnedPages(size))))
  }

  /** The frames a request takes from the free ones: a slab page if the bucket is empty, or the run of a large block. */
  ghost predicate Takes(r: Outcome, size: Word, free: set<nat>, free': set<nat>, stock: seq<nat>) {
    if size == 0 then free' == free
    else if size <= MAX_SLAB then RefillTakes(stock, free, free')
    else r.Block? ==> HEADER <= r.ptr && TookRun(free, free', r.ptr - HEADER, size)
  }

  /** `kmalloc`. */
  ghost predicate Mallocs(r: Outcome, size: Word, blocks: map<nat, Word>, blocks': map<nat, Word>, free: set<nat>, free': set<nat>, stock: seq<nat>) {
    && Serves(r, size, free, stock) && Takes(r, size, free, free', stock)
    && (match r
        case Block(_) => NewBlock(r, size, blocks, blocks')
        case Overrun => false
        case _ => blocks' == blocks)
  }

  /** A request for `total` zero bytes: the block is all zero, unless the zeroing would leave it. */
  ghost predicate Zeroes(r: Outcome, total: Word, blocks: map<nat, Word>, blocks': map<nat, Word>, free: set<nat>, free': set<nat>,
                         stock: seq<nat>, m': seq<Word>) {
    && Serves(r, total, free, stock) && Takes(r, total, free, free', stock)
    && (r.Overrun? <==> U64 < total + HEADER + PAGE_SIZE && free != {})
    && (match r
        case Block(ptr) => total + HEADER + PAGE_SIZE <= U64 && NewBlock(r, total, blocks, blocks') && AllZero(m', ptr, total)
        case Overrun => OneMoreBlock(blocks, blocks', total)
        case _ => blocks' == blocks)
  }

  /** `kcalloc`: a product of 2^64 or more is refused, one that the page rounding wraps gets a block too small to zero. */
  ghost predicate Callocs(r: Outcome, num: Word, size: Word, blocks: map<nat, Word>, blocks': map<nat, Word>, free: set<nat>, free': set<nat>,
                          stock: seq<nat>, m': seq<Word>) {
    if U64 <= Product(num, size) then r.Null? && blocks' == blocks && free' == free
    else Zeroes(r, Product(num, size), blocks, blocks', free, free', stock, m')
  }

  /** A growing `krealloc` of block `h` at `ptr`: the new block starts with all the old bytes and the old one is freed. */
  ghost predicate Grows(r: Outcome, ptr: nat, size: Word, blocks: map<nat, Word>, blocks': map<nat, Word>, free: set<nat>, free': set<nat>,
                        stock: seq<nat>, m: seq<Word>, m': seq<Word>)
    requires HEADER <= ptr && ptr - HEADER in blocks
  {
    var h, oldSize := ptr - HEADER, blocks[ptr - HEADER];
    && Serves(r, size, free, stock)
    && (r.Overrun? <==> !CopyFits(oldSize, size) && free != {})
    && match r
       case Block(to) =>
         && CopyFits(oldSize, size) && HEADER < to && to - HEADER !in blocks && blocks' == blocks[to - HEADER := size] - {h}
         && BytesAt(m', to, oldSize) == BytesAt(m, ptr, oldSize)
         && exists between: set<nat> :: Takes(r, size, free, between, stock) && free' == between + Released(h, oldSize)
       case Overrun => OneMoreBlock(blocks, blocks', size) && BlocksSame(m, m', blocks, {})
       case _ => blocks' == blocks && BlocksSame(m, m', blocks, {})
  }

  /** `krealloc`: a null pointer allocates, size 0 frees, a size that is no larger changes nothing, a larger one grows. */
  ghost predicate Reallocs(r: Outcome, ptr: nat, size: Word, blocks: map<nat, Word>, blocks': map<nat, Word>, free: set<nat>, free': set<nat>,
                           stock: seq<nat>, m: seq<Word>, m': seq<Word>)
    requires ptr == 0 || (HEADER <= ptr && ptr - HEADER in blocks)
  {
    if ptr == 0 then Mallocs(r, size, blocks, blocks', free, free', stock)
    else
      var h := ptr - HEADER;
      if size == 0 then r == Null && blocks' == blocks - {h} && free' == free + Released(h, blocks[h])
      else if size <= blocks[h] then r == Block(ptr) && blocks' == blocks && m' == m && free' == free
      else Grows(r, ptr, size, blocks, blocks', free, free', stock, m, m')
  }

  /** What a served request for a larger block means for a copy of `oldSize` bytes. */
  lemma OverrunServes(r: Outcome, oldSize: Word, size: Word, blocks: map<nat, Word>, blocks': map<nat, Word>, free: set<nat>, free': set<nat>,
                      stock: seq<nat>)
    requires Mallocs(r, size, blocks, blocks', free, free', stock) && oldSize < size
    ensures Serves(r, size, free, stock) && Takes(r, size, free, free', stock) && !r.Overrun?
    ensures if r.Block? then NewBlock(r, size, blocks, blocks') else blocks' == blocks
    ensures !CopyFits(oldSize, size) ==> (r.Block? <==> free != {}) && Serves(Overrun, size, free, stock) == r.Block?
    ensures !CopyFits(oldSize, size) && r.Block? ==> OneMoreBlock(blocks, blocks', size)
  {
    hide Takes, HasRun;
    if r.Block? {
      assert IsNewBlock(blocks, blocks', r.ptr - HEADER, size);
    }
    if !CopyFits(oldSize, size) {
      WrappedRun(size, free);
    }
  }

  /** A size that wraps is served iff a frame is free. */
  lemma WrappedRun(size: Word, free: set<nat>)
    requires U64 < size + HEADER + PAGE_SIZE
    ensures MAX_SLAB < size && (HasRun(free, OwnedPages(size)) <==> free != {})
  {
    hide HasRun, OwnedPages;
    WrappedPages(size);
    NothingHasRun(1);
    if free != {} {
      var p :| p in free;
      RunOfOne(free, p);
    }
  }

  /** A copy that fits has a source block that holds its bytes. */
  lemma FitsHolds(oldSize: Word, size: Word)
    requires oldSize < size && CopyFits(oldSize, size)
    ensures oldSize + HEADER + PAGE_SIZE <= U64
  {
  }

  lemma CallocKeepsBlocks(r: Outcome, num: Word, size: Word, blocks: map<nat, Word>, blocks': map<nat, Word>, free: set<nat>, free': set<nat>,
                          stock: seq<nat>, m': seq<Word>)
    requires Callocs(r, num, size, blocks, blocks', free, free', stock, m')
    ensures forall h :: h in blocks ==> h in blocks' && blocks'[h] == blocks[h]
  {
    hide Product, Serves, Takes, AllZero;
  }

  lemma ReallocKeepsBlocks(r: Outcome, ptr: nat, size: Word, blocks: map<nat, Word>, blocks': map<nat, Word>, free: set<nat>, free': set<nat>,
                           stock: seq<nat>, m: seq<Word>, m': seq<Word>)
    requires ptr == 0 || (HEADER <= ptr && ptr - HEADER in blocks)
    requires Reallocs(r, ptr, size, blocks, blocks', free, free', stock, m, m')
    ensures forall h :: h in blocks && h !in BlockAt(ptr) ==> h in blocks' && blocks'[h] == blocks[h]
  {
    hide Serves, Takes, BytesAt, BlocksSame, CopyFits;
  }

  class KernelHeap {
    const slab: SlabWorld

    /** `kmalloc_caches`. */
    const buckets: array<nat>
    var initialized: bool

    /** Header address and header size of every block handed out and not yet freed. */
    ghost var blocks: map<nat, Word>

    ghost predicate Backed()
      reads slab, slab.pmm`bitmap, slab.pmm`first, slab.pmm`totalFrames
    {
      && buckets.Length == BUCKETS
      && buckets as object != slab.ram.cells as object && buckets as object != slab.pmm.bitmap as object
      && (slab.pmm.first + slab.pmm.totalFrames) * PAGE_SIZE <= 0x1_0000_0000_0000
    }

    /** The cache that serves `size`, and that cache's free objects. */
    function CacheOf(size: Word): nat
      reads buckets
    {
      if MAX_SLAB < size || buckets.Length != BUCKETS then 0 else buckets[BucketIndex(size)]
    }

    ghost function FreeObjects(size: Word): seq<nat>
      reads buckets, slab
    {
      if CacheOf(size) in slab.caches then slab.caches[CacheOf(size)].free else []
    }

    ghost predicate BlocksOk()
      reads this, buckets, slab, slab.pmm, slab.ram.cells
    {
      && BucketsOk(slab.caches, slab.meta, buckets[..])
      && SmallOk(slab.ram.View(), slab.caches, buckets[..], blocks)
      && LargeOk(slab.ram.View(), slab.Pages(), slab.pmm.first, slab.pmm.first + slab.pmm.totalFrames, slab.pmm.free, blocks)
    }

    ghost predicate Valid()
      reads this, buckets, slab, slab.pmm, slab.pmm.bitmap, slab.ram.cells
    {
      && slab.Valid() && slab.pmm.HintOk() && Backed()
      && if initialized then BlocksOk() else blocks == map[]
    }

    constructor (slab: SlabWorld)
      requires slab.Valid() && slab.pmm.HintOk()
      requires (slab.pmm.first + slab.pmm.totalFrames) * PAGE_SIZE <= 0x1_0000_0000_0000
      ensures Valid() && this.slab == slab && !initialized && blocks == map[] && fresh(buckets)
    {
      this.slab := slab;
      buckets := new nat[BUCKETS];
      initialized := false;
      blocks := map[];
    }

    /** The cache of bucket `i`. */
    lemma BucketCache(i: nat)
      requires Valid() && initialized && i < BUCKETS
      ensures buckets[i] in slab.caches && buckets[i] != slab.meta && buckets[..][i] == buckets[i]
      ensures slab.caches[buckets[i]].objSize == BucketSize(i) + HEADER && 32 <= BucketSize(i) + HEADER
    {
      hide WorldOk, SmallOk, LargeOk;
      BucketSizes();
    }

    /** The `slab_alloc` and the header writes of a small `kmalloc`. */
    method NewSmall(c: nat, size: Word) returns (a: nat)
      requires slab.Valid() && Backed() && c in slab.caches && c != slab.meta && 16 <= slab.caches[c].objSize
      modifies slab.pmm`freeFrames, slab.pmm`lastFreeIndex, slab.pmm`free, slab.pmm.bitmap, slab.ram.cells, slab`caches, slab`owner
      ensures slab.Valid() && (old(slab.pmm.HintOk()) ==> slab.pmm.HintOk())
      ensures a == 0 <==>
        old(slab.caches)[c].free == [] && (old(slab.pmm.free) == {} || PAGE_SIZE - FRAME_HEADER < old(slab.caches)[c].objSize)
      ensures a != 0 ==>
        && a !in old(slab.caches)[c].live
        && Ld(slab.ram.View(), a / 8) == size && Ld(slab.ram.View(), a / 8 + 1) == c
      ensures OnlyLive(old(slab.caches), slab.caches, c, if a == 0 then old(slab.caches)[c].live else old(slab.caches)[c].live + {a})
      ensures PagesTaken(old(slab.owner), slab.owner, old(slab.pmm.free), slab.pmm.free)
      ensures RefillTakes(old(slab.caches)[c].free, old(slab.pmm.free), slab.pmm.free)
      ensures LiveSame(old(slab.ram.View()), slab.ram.View(), old(slab.caches), {})
      ensures SameOutside(old(slab.ram.View()), slab.ram.View(), slab.Pages())
    {
      hide InMemory, Accounted, Represents, IsFree, LiveSame, WorldOk, Payload, PagesTaken, RefillTakes, SameOutside;
      ghost var m0, caches0 := slab.ram.View(), slab.caches;
      a := slab.Alloc(c);
      if a == 0 {
        return;
      }
      ghost var m1, caches1, pages := slab.ram.View(), slab.caches, slab.Pages();
      OwnObject(m1, caches1, slab.owner, slab.meta, c, a);
      NewObjectIsNew(m1, caches0, caches1, slab.owner, slab.meta, c, a);
      slab.MetaSize();
      slab.InBounds(slab.meta);
      slab.InBounds(c);
      slab.WriteObject(c, a, a / 8, size);
      ghost var m2 := slab.ram.View();
      slab.WriteObject(c, a, a / 8 + 1, c);
      LiveSameAgain(m1, m2, slab.ram.View(), caches1, {a});
      LiveSameNew(m0, m1, slab.ram.View(), caches0, caches1, a);
      SameOutsideTwice(m0, m1, m2, pages, pages);
      SameOutsideTwice(m0, m2, slab.ram.View(), pages, pages);
    }

    /**
     `kmalloc` of at most 2048 bytes. It halts in `slab_grow` exactly when the bucket is empty and no frame is left; as every
     bucket's objects fit a page, it never returns null.
     */
    method SmallAlloc(size: Word) returns (r: Outcome)
      requires Valid() && initialized && 0 < size <= MAX_SLAB
      modifies slab.pmm`freeFrames, slab.pmm`lastFreeIndex, slab.pmm`free, slab.pmm.bitmap, slab.ram.cells, slab`caches, slab`owner, `blocks
      ensures Valid() && !r.Null? && !r.Overrun?
      ensures r.Panic? <==> old(slab.pmm.free) == {} && old(FreeObjects(size)) == []
      ensures r.Panic? ==> blocks == old(blocks)
      ensures r.Block? ==> HEADER < r.ptr && r.ptr - HEADER !in old(blocks) && blocks == old(blocks)[r.ptr - HEADER := size]
      ensures PagesTaken(old(slab.owner), slab.owner, old(slab.pmm.free), slab.pmm.free)
      ensures RefillTakes(old(FreeObjects(size)), old(slab.pmm.free), slab.pmm.free)
      ensures BlocksSame(old(slab.ram.View()), slab.ram.View(), old(blocks), {})
      ensures LiveSame(old(slab.ram.View()), slab.ram.View(), old(slab.caches), {})
      ensures SameOutside(old(slab.ram.View()), slab.ram.View(), slab.Pages())
      ensures OnlyBuckets(old(slab.caches), slab.caches, buckets[..])
    {
      hide InMemory, Accounted, Represents, IsFree, LiveSame, WorldOk, Payload, PagesTaken, RefillTakes, SameOutside, SmallOk, LargeOk,
        BucketsOk, BlocksSame, BucketSize, OnlyLive, SlabWorld.Valid;
      slab.IsWorld();
      ghost var m0, caches0, owner0, free0, pages0 := slab.ram.View(), slab.caches, slab.owner, slab.pmm.free, slab.Pages();
      ghost var low, high := slab.pmm.first, slab.pmm.first + slab.pmm.totalFrames;
      BucketIsBestFit(size);
      var i := BucketIndex(size);
      BucketCache(i);
      BucketSizes();
      var c := buckets[i];
      var a := NewSmall(c, size);
      slab.IsWorld();
      ghost var m := slab.ram.View();
      PagesTakenBounds(owner0, slab.owner, free0, slab.pmm.free, slab.meta / PAGE_SIZE);
      SlabStep(m0, m, caches0, owner0, slab.meta, buckets[..], blocks, {}, pages0, slab.Pages(), low, high, free0, slab.pmm.free);
      OneBucket(caches0, slab.caches, buckets[..], i, if a == 0 then caches0[c].live else caches0[c].live + {a});
      if a == 0 {
        OnlyLiveBuckets(caches0, slab.caches, slab.meta, buckets[..], i, caches0[c].live);
        SmallKept(m0, m, caches0, slab.caches, slab.meta, buckets[..], blocks);
        return Panic;
      }
      LargeAligned(m0, pages0, low, high, free0, blocks);
      NewObjectIsNoBlock(m0, m, caches0, slab.caches, slab.owner, slab.meta, buckets[..], blocks, i, a);
      SmallAdded(m0, m, caches0, slab.caches, slab.meta, buckets[..], blocks, a, size);
      LargeForgets(m, slab.Pages(), low, high, slab.pmm.free, blocks, a, size);
      blocks := blocks[a := size];
      return Block(a + HEADER);
    }

    /** `pmm_alloc_frame`: with no free frame below the hint, the lowest one. */
    method LowestFrame() returns (phys: Word)
      requires slab.Valid() && slab.pmm.HintOk()
      modifies slab.pmm`freeFrames, slab.pmm`lastFreeIndex, slab.pmm`free, slab.pmm.bitmap
      ensures slab.Valid() && slab.pmm.HintOk()
      ensures phys == 0 <==> old(slab.pmm.free) == {}
      ensures slab.pmm.free == old(slab.pmm.free) - if phys == 0 then {} else {phys / PAGE_SIZE}
      ensures phys != 0 ==>
        phys % PAGE_SIZE == 0 && phys / PAGE_SIZE in old(slab.pmm.free) && NoneBelow(old(slab.pmm.free), phys / PAGE_SIZE)
    {
      hide WorldOk, Represents, IsFree, NoneBelow, FirstFrom, SlabWorld.Pages, FrameAllocator.HintPast;
      phys := slab.pmm.AllocFrame();
    }

    /** The frame loop of a large `kmalloc`: `numPages` frames, at least one, expected to be consecutive. */
    method TakeFrames(numPages: nat) returns (r: Outcome)
      requires slab.Valid() && slab.pmm.HintOk() && Backed()
      modifies slab.pmm`freeFrames, slab.pmm`lastFreeIndex, slab.pmm`free, slab.pmm.bitmap
      ensures slab.Valid() && slab.pmm.HintOk() && slab.pmm.free <= old(slab.pmm.free) && !r.Overrun?
      ensures r.Null? <==> old(slab.pmm.free) == {}
      ensures r.Block? <==> HasRun(old(slab.pmm.free), AtLeastOne(numPages))
      ensures r.Block? ==>
        && r.ptr % PAGE_SIZE == 0 && LowestRun(old(slab.pmm.free), r.ptr / PAGE_SIZE, AtLeastOne(numPages))
        && slab.pmm.free == old(slab.pmm.free) - Span(r.ptr / PAGE_SIZE, AtLeastOne(numPages))
    {
      hide SlabWorld.Valid, FrameAllocator.HintOk, NoneBelow, HasRun, Span, SlabWorld.Pages;
      ghost var free0, high := slab.pmm.free, slab.pmm.first + slab.pmm.totalFrames;
      FreeInRange();
      var phys := LowestFrame();
      if phys == 0 {
        NothingHasRun(AtLeastOne(numPages));
        return Null;
      }
      ghost var low := phys / PAGE_SIZE;
      FirstOfRun(free0, low);
      var i := 1;
      while i < numPages
        invariant i == AtLeastOne(i) <= AtLeastOne(numPages)
        invariant slab.Valid() && slab.pmm.HintOk() && LowestRun(free0, low, i)
        invariant slab.pmm.free == free0 - Span(low, i)
      {
        var nextPhys := LowestFrame();
        NextOfRun(free0, low, i, nextPhys, high);
        if nextPhys != (phys + i * PAGE_SIZE) % U64 {
          NoRun(free0, low, i, numPages);
          return Panic;
        }
        LongerRun(free0, low, i);
        i := i + 1;
      }
      RunFound(free0, low, AtLeastOne(numPages));
      return Block(phys);
    }

    lemma FreeInRange()
      requires slab.Valid()
      ensures slab.pmm.free !! slab.Pages()
      ensures forall p :: p in slab.pmm.free ==> slab.pmm.first <= p < slab.pmm.first + slab.pmm.totalFrames
      ensures 0 < slab.pmm.first
    {
      hide WorldOk;
    }

    /** The header of a large block. */
    method WriteHeader(h: nat, size: Word)
      requires slab.Valid() && h % PAGE_SIZE == 0 && 0 < h && h / PAGE_SIZE !in slab.Pages() && h / 8 + PAGE_WORDS <= slab.ram.cells.Length
      modifies slab.ram.cells
      ensures slab.Valid()
      ensures slab.ram.View() == Put(Put(old(slab.ram.View()), h / PAGE_SIZE * PAGE_WORDS, size), h / PAGE_SIZE * PAGE_WORDS + 1, 0)
      ensures LiveSame(old(slab.ram.View()), slab.ram.View(), slab.caches, {})
    {
      hide WorldOk, LiveSame, SlabWorld.Valid;
      ghost var m, p := slab.ram.View(), h / PAGE_SIZE;
      assert h / 8 == p * PAGE_WORDS;
      slab.WriteElsewhere(p, h / 8, size);
      ghost var m1 := slab.ram.View();
      slab.WriteElsewhere(p, h / 8 + 1, 0);
      LiveSameAgain(m, m1, slab.ram.View(), slab.caches, {});
    }

    /** `kmalloc` of more than 2048 bytes: it needs the lowest free frames to be consecutive, and then owns precisely those. */
    method LargeAlloc(size: Word) returns (r: Outcome)
      requires Valid() && initialized && MAX_SLAB < size
      modifies slab.pmm`freeFrames, slab.pmm`lastFreeIndex, slab.pmm`free, slab.pmm.bitmap, slab.ram.cells, `blocks
      ensures Valid() && slab.pmm.free <= old(slab.pmm.free) && !r.Overrun?
      ensures r.Null? <==> old(slab.pmm.free) == {}
      ensures r.Block? <==> HasRun(old(slab.pmm.free), OwnedPages(size))
      ensures !r.Block? ==> blocks == old(blocks) && slab.ram.View() == old(slab.ram.View())
      ensures r.Block? ==>
        var h := r.ptr - HEADER;
        && 0 < h && h % PAGE_SIZE == 0 && h !in old(blocks) && blocks == old(blocks)[h := size]
        && LowestRun(old(slab.pmm.free), h / PAGE_SIZE, OwnedPages(size))
        && slab.pmm.free == old(slab.pmm.free) - OwnFrames(h, size)
      ensures BlocksSame(old(slab.ram.View()), slab.ram.View(), old(blocks), {})
      ensures LiveSame(old(slab.ram.View()), slab.ram.View(), slab.caches, {})
      ensures SameOutside(old(slab.ram.View()), slab.ram.View(), LargeFrames(blocks))
    {
      hide InMemory, Accounted, Represents, IsFree, LiveSame, WorldOk, Payload, SameOutside, SmallOk, LargeOk, BucketsOk, BlocksSame,
        HasRun, Span, NumPages, LargeFrames, SlabWorld.Valid, LowestRun;
      slab.IsWorld();
      ghost var m, free, pages := slab.ram.View(), slab.pmm.free, slab.Pages();
      ghost var low, high := slab.pmm.first, slab.pmm.first + slab.pmm.totalFrames;
      FreeInRange();
      r := TakeFrames(NumPages(size));
      if !r.Block? {
        NothingTouched(m, slab.caches, LargeFrames(blocks));
        BlocksUntouched(m, blocks);
        LargeKept(m, m, pages, pages, low, high, free, slab.pmm.free, blocks, {});
        return;
      }
      ClaimRun(r.ptr, size, free);
      r := Block(r.ptr + HEADER);
    }

    /** The run of frames at `h`, just taken from `free`, becomes a block. */
    method ClaimRun(h: nat, size: Word, ghost free: set<nat>)
      requires slab.Valid() && slab.pmm.HintOk() && Backed() && initialized && MAX_SLAB < size && h % PAGE_SIZE == 0
      requires BucketsOk(slab.caches, slab.meta, buckets[..]) && SmallOk(slab.ram.View(), slab.caches, buckets[..], blocks)
      requires LargeOk(slab.ram.View(), slab.Pages(), slab.pmm.first, slab.pmm.first + slab.pmm.totalFrames, free, blocks)
      requires free !! slab.Pages() && forall p :: p in free ==> slab.pmm.first <= p < slab.pmm.first + slab.pmm.totalFrames
      requires LowestRun(free, h / PAGE_SIZE, OwnedPages(size)) && slab.pmm.free == free - OwnFrames(h, size)
      modifies slab.ram.cells, `blocks
      ensures Valid() && 0 < h && h !in old(blocks) && blocks == old(blocks)[h := size]
      ensures BlocksSame(old(slab.ram.View()), slab.ram.View(), old(blocks), {})
      ensures LiveSame(old(slab.ram.View()), slab.ram.View(), slab.caches, {})
      ensures SameOutside(old(slab.ram.View()), slab.ram.View(), LargeFrames(blocks))
    {
      hide InMemory, Accounted, Represents, IsFree, LiveSame, WorldOk, Payload, SameOutside, SmallOk, LargeOk, BucketsOk, BlocksSame,
        Span, NumPages, LargeFrames, SlabWorld.Valid;
      ghost var m, pages, p := slab.ram.View(), slab.Pages(), h / PAGE_SIZE;
      ghost var low, high := slab.pmm.first, slab.pmm.first + slab.pmm.totalFrames;
      slab.IsWorld();
      RunBounds(free, p, OwnedPages(size), low, high);
      FreeFrameIsNoBlock(m, slab.caches, slab.owner, slab.meta, buckets[..], blocks, pages, low, high, free, p);
      ClearOfBlocks(m, slab.caches, slab.owner, slab.meta, buckets[..], blocks, pages, low, high, free, p);
      WriteHeader(h, size);
      HeaderWrittenSpares(m, blocks, p, size);
      BucketsExist(slab.caches, slab.meta, buckets[..]);
      SmallKept(m, slab.ram.View(), slab.caches, slab.caches, slab.meta, buckets[..], blocks);
      LargeAdded(m, slab.ram.View(), pages, low, high, free, blocks, p, size);
      SmallForgets(slab.ram.View(), slab.caches, slab.meta, buckets[..], blocks, h, size);
      blocks := blocks[h := size];
    }

    /** All frames the heap holds: its slab pages (with the bootstrap structure's page) and its large blocks. */
    ghost function Footprint(): set<nat>
      reads this, slab
    {
      slab.Pages() + LargeFrames(blocks)
    }

    /** The frames the heap holds or could be given. */
    ghost function Reach(): set<nat>
      reads this, slab, slab.pmm`free
    {
      Footprint() + slab.pmm.free
    }

    /** `kmalloc`. Unless the machine halts, every frame is held by the heap or free exactly if it was before. */
    method Kmalloc(size: Word) returns (r: Outcome)
      requires Valid()
      modifies slab.pmm`freeFrames, slab.pmm`lastFreeIndex, slab.pmm`free, slab.pmm.bitmap, slab.ram.cells, slab`caches, slab`owner, `blocks
      ensures Valid() && Reach() <= old(Reach()) && (!r.Panic? ==> Reach() == old(Reach())) && slab.pmm.free <= old(slab.pmm.free)
      ensures initialized ==> Mallocs(r, size, old(blocks), blocks, old(slab.pmm.free), slab.pmm.free, old(FreeObjects(size)))
      ensures !initialized ==> blocks == old(blocks) && r == if size == 0 then Null else Panic
      ensures BlocksSame(old(slab.ram.View()), slab.ram.View(), old(blocks), {})
      ensures LiveSame(old(slab.ram.View()), slab.ram.View(), old(slab.caches), {})
      ensures SameOutside(old(slab.ram.View()), slab.ram.View(), Footprint())
      ensures OnlyBuckets(old(slab.caches), slab.caches, buckets[..])
      ensures ForeignSame(old(slab.ram.View()), slab.ram.View(), old(slab.caches), buckets[..], {})
    {
      hide ForeignSame, ClearOfForeign, InMemory, Accounted, Represents, IsFree, LiveSame, WorldOk, Payload, SameOutside, SmallOk,
        LargeOk, BucketsOk, BlocksSame,
        HasRun, Span, NumPages, PagesTaken, RefillTakes, LargeFrames, KernelHeap.Valid, SlabWorld.Valid, OwnFrames, LowestRun, BlocksOk;
      ghost var m := slab.ram.View();
      BlocksUntouched(m, blocks);
      NothingTouched(m, slab.caches, Footprint());
      NothingForeign(m, slab.caches, buckets[..]);
      if size == 0 {
        return Null;
      }
      if !initialized {
        return Panic;
      }
      ghost var owner0, free0, blocks0, caches0 := slab.owner, slab.pmm.free, blocks, slab.caches;
      if BucketIndex(size) != -1 {
        r := SmallAlloc(size);
        PagesTakenReach(owner0, slab.owner, free0, slab.pmm.free);
        if r.Block? {
          LargeFramesOf(blocks0, r.ptr - HEADER, size);
        }
      } else {
        r := LargeAlloc(size);
        if r.Block? {
          LargeFramesOf(blocks0, r.ptr - HEADER, size);
          OwnFramesTaken(free0, r.ptr - HEADER, size);
        }
      }
      SameOutsideWider(m, slab.ram.View(), slab.Pages(), Footprint());
      SameOutsideWider(m, slab.ram.View(), LargeFrames(blocks), Footprint());
      ForeignSpared(m, slab.ram.View(), caches0, buckets[..], {});
    }

    /** `slab_free` of a small block. */
    method FreeSmall(h: nat, c: nat)
      requires Valid() && h in blocks && blocks[h] <= MAX_SLAB && c == CacheOf(blocks[h])
      modifies slab.ram.cells, slab`caches, `blocks
      ensures Valid() && blocks == old(blocks) - {h} && LargeFrames(blocks) == LargeFrames(old(blocks))
      ensures c in old(slab.caches) && slab.caches == old(slab.caches)[c := Given(old(slab.caches)[c], h)]
      ensures BlocksSame(old(slab.ram.View()), slab.ram.View(), old(blocks), {h})
      ensures LiveSame(old(slab.ram.View()), slab.ram.View(), old(slab.caches), {h})
      ensures SameOutside(old(slab.ram.View()), slab.ram.View(), slab.Pages()) && slab.Pages() == old(slab.Pages())
      ensures OnlyBuckets(old(slab.caches), slab.caches, buckets[..])
    {
      hide InMemory, Accounted, Represents, IsFree, LiveSame, WorldOk, Payload, SameOutside, SmallOk, LargeOk, BucketsOk, BlocksSame,
        Span, NumPages, LargeFrames, BucketSize, OwnFrames, SlabWorld.Valid;
      slab.IsWorld();
      ghost var m, caches, pages := slab.ram.View(), slab.caches, slab.Pages();
      ghost var low, high := slab.pmm.first, slab.pmm.first + slab.pmm.totalFrames;
      SmallBlockPlace(m, caches, slab.owner, slab.meta, buckets[..], blocks, h);
      slab.InBounds(buckets[BucketIndex(blocks[h])]);
      slab.Free(c, h);
      SlabStep(m, slab.ram.View(), caches, slab.owner, slab.meta, buckets[..], blocks, {h}, pages, pages, low, high, slab.pmm.free, slab.pmm.free);
      SmallRemoved(m, slab.ram.View(), caches, slab.caches, slab.meta, buckets[..], blocks, h);
      LargeForgets(slab.ram.View(), pages, low, high, slab.pmm.free, blocks, h, 0);
      LargeFramesWithout(blocks, h);
      blocks := blocks - {h};
    }

    /** The loop that gives back the frames of a large block. The address sum wraps at 64 bits. */
    method FreeFrames(phys: Word, numPages: nat)
      requires slab.pmm.Valid() && slab.pmm.HintOk() && Backed() && numPages < FRAMES
      modifies slab.pmm`freeFrames, slab.pmm`lastFreeIndex, slab.pmm`free, slab.pmm.bitmap
      ensures slab.pmm.Valid() && slab.pmm.HintOk()
      ensures slab.pmm.free == old(slab.pmm.free) +
        Reached(phys / PAGE_SIZE, numPages, slab.pmm.first, slab.pmm.first + slab.pmm.totalFrames)
    {
      hide Represents, IsFree, Reached;
      ghost var free0, p, low, high := slab.pmm.free, phys / PAGE_SIZE, slab.pmm.first, slab.pmm.first + slab.pmm.totalFrames;
      NothingReached(p, low, high);
      for i := 0 to numPages
        invariant slab.pmm.Valid() && slab.pmm.HintOk() && slab.pmm.free == free0 + Reached(p, i, low, high)
      {
        ReachedStep(p, i, low, high);
        FrameOfSum(phys, i);
        slab.pmm.FreeFrame((phys + i * PAGE_SIZE) % U64);
      }
    }

    /** `kfree` of a large block when `numPages` frames are asked for, those beyond its own being free already. */
    method FreeLarge(h: nat, numPages: nat)
      requires Valid() && h in blocks && MAX_SLAB < blocks[h] && LargeMatches(h, numPages)
      modifies slab.pmm`freeFrames, slab.pmm`lastFreeIndex, slab.pmm`free, slab.pmm.bitmap, `blocks
      ensures Valid() && blocks == old(blocks) - {h} && h % PAGE_SIZE == 0
      ensures slab.pmm.free == old(slab.pmm.free) + Released(h, old(blocks)[h])
      ensures LargeFrames(blocks) == LargeFrames(old(blocks)) - OwnFrames(h, old(blocks)[h])
      ensures OwnFrames(h, old(blocks)[h]) <= LargeFrames(old(blocks))
    {
      hide Represents, IsFree, WorldOk, SmallOk, LargeOk, BucketsOk, Span, NumPages, LargeFrames, OwnFrames, Reached, Reaches;
      ghost var m, free0, pages, p, size := slab.ram.View(), slab.pmm.free, slab.Pages(), h / PAGE_SIZE, blocks[h];
      ghost var low, high := slab.pmm.first, slab.pmm.first + slab.pmm.totalFrames;
      LargeRemoved(m, pages, low, high, free0, blocks, h);
      LargePlace(m, pages, low, high, free0, blocks, h);
      SmallForgets(m, slab.caches, slab.meta, buckets[..], blocks, h, size);
      LargeFramesWithout(blocks, h);
      OwnFramesUsed(h);
      SameFramesExactly(free0, p, NumPages(size), numPages, low, high);
      FreeFrames(h, numPages);
      blocks := blocks - {h};
    }

    /** `kfree`: by the header alone. */
    method Kfree(ptr: nat)
      requires Valid() && (ptr == 0 || (HEADER <= ptr && ptr - HEADER in blocks))
      modifies slab.pmm`freeFrames, slab.pmm`lastFreeIndex, slab.pmm`free, slab.pmm.bitmap, slab.ram.cells, slab`caches, `blocks
      ensures Valid()
      ensures ptr == 0 ==> blocks == old(blocks) && slab.pmm.free == old(slab.pmm.free)
      ensures ptr != 0 ==>
        var h, size := ptr - HEADER, old(blocks)[ptr - HEADER];
        && blocks == old(blocks) - {h}
        && slab.pmm.free == old(slab.pmm.free) + Released(h, size)
        && (!Leaks(size) ==> Reach() == old(Reach()))
      ensures ptr != 0 ==> Effect(slab.caches, slab.pmm.free) == old(AfterRoute(ptr - HEADER, HeaderRoute(ptr - HEADER)))
      ensures Reach() <= old(Reach())
      ensures BlocksSame(old(slab.ram.View()), slab.ram.View(), old(blocks), BlockAt(ptr))
      ensures LiveSame(old(slab.ram.View()), slab.ram.View(), old(slab.caches), BlockAt(ptr))
      ensures SameOutside(old(slab.ram.View()), slab.ram.View(), slab.Pages()) && slab.Pages() == old(slab.Pages())
      ensures OnlyBuckets(old(slab.caches), slab.caches, buckets[..])
      ensures ForeignSame(old(slab.ram.View()), slab.ram.View(), old(slab.caches), buckets[..], {})
    {
      hide ForeignSame, ClearOfForeign, Represents, IsFree, WorldOk, SmallOk, LargeOk, BucketsOk, Span, NumPages, LargeFrames, LiveSame,
        SameOutside, BlocksSame,
        OwnFrames, BlocksOk, KernelHeap.Valid, SlabWorld.Valid;
      ghost var m := slab.ram.View();
      NothingTouched(m, slab.caches, slab.Pages());
      NothingForeign(m, slab.caches, buckets[..]);
      BlockNotForeign(ptr);
      ghost var caches0 := slab.caches;
      BlocksUntouched(m, blocks);
      if ptr == 0 {
        return;
      }
      var h := ptr - HEADER;
      HeaderSays(h);
      SparesMore(m, m, slab.caches, blocks, h);
      var cache := slab.ram.Load(h / 8 + 1);
      if cache != 0 {
        FreeSmall(h, cache);
      } else {
        var size := slab.ram.Load(h / 8);
        assert MAX_SLAB < size;
        OwnedIs(h, size);
        LargeFree(h, size);
        FreeLarge(h, NumPages(size));
        assert slab.ram.View() == m;
      }
      ForeignSpared(m, slab.ram.View(), caches0, buckets[..], BlockAt(ptr));
    }

    /** The header of a live block holds its size, and its cache exactly when it is small. */
    lemma HeaderSays(h: nat)
      requires Valid() && h in blocks
      ensures h / 8 + 1 < slab.ram.cells.Length && Ld(slab.ram.View(), h / 8) == blocks[h]
      ensures Ld(slab.ram.View(), h / 8 + 1) == 0 <==> MAX_SLAB < blocks[h]
      ensures blocks[h] <= MAX_SLAB ==> Ld(slab.ram.View(), h / 8 + 1) == CacheOf(blocks[h])
      ensures buckets as object != slab.ram.cells as object && buckets as object != slab.pmm.bitmap as object
      ensures initialized && 0 < blocks[h] && h % 8 == 0 && slab.ram.cells as object != slab.pmm.bitmap as object
    {
      hide WorldOk, BucketSize, BucketIndex, NumPages, OwnedPages, OwnFrames, Span, End, LargeFrames, LargeOk, SmallOk, BucketsOk, SlabWorld.Valid;
      slab.IsWorld();
      if blocks[h] <= MAX_SLAB {
        SmallBlockPlace(slab.ram.View(), slab.caches, slab.owner, slab.meta, buckets[..], blocks, h);
        slab.InBounds(buckets[BucketIndex(blocks[h])]);
      } else {
        LargePlace(slab.ram.View(), slab.Pages(), slab.pmm.first, slab.pmm.first + slab.pmm.totalFrames, slab.pmm.free, blocks, h);
      }
    }

    /** Where `kfree` and `kfree_sized` send a block. */
    ghost function HeaderRoute(h: nat): Route
      reads slab, slab.ram.cells
    {
      var c := Ld(slab.ram.View(), h / 8 + 1);
      if c != 0 then ToCache(c) else ToFrames(NumPages(Ld(slab.ram.View(), h / 8)))
    }

    ghost function SizedRoute(n: Word): Route
      reads buckets
    {
      if BucketIndex(n) != -1 then ToCache(CacheOf(n)) else ToFrames(NumPages(n))
    }

    /** The free lists and free frames after block `h` has gone way `r`. */
    ghost function AfterRoute(h: nat, r: Route): Effect
      reads slab, slab.pmm
    {
      match r
      case ToCache(c) => Effect(if c in slab.caches then slab.caches[c := Given(slab.caches[c], h)] else slab.caches, slab.pmm.free)
      case ToFrames(count) =>
        Effect(slab.caches, slab.pmm.free + Reached(h / PAGE_SIZE, count, slab.pmm.first, slab.pmm.first + slab.pmm.totalFrames))
    }

    /** `numPages` covers the frames that large block `h` gives back, and reaches no other used frame of the machine. */
    ghost predicate LargeMatches(h: nat, numPages: nat)
      requires h in blocks
      reads this, slab, slab.pmm
    {
      && NumPages(blocks[h]) <= numPages < FRAMES
      && Reached(h / PAGE_SIZE, numPages, slab.pmm.first, slab.pmm.first + slab.pmm.totalFrames) - Released(h, blocks[h]) <= slab.pmm.free
    }

    /** Size `n` names the block's own bucket or, for a large block, no frame in use besides the block's own. */
    ghost predicate SizeMatches(h: nat, n: Word)
      requires h in blocks
      reads this, slab, slab.pmm
    {
      if blocks[h] <= MAX_SLAB then BucketIndex(n) == BucketIndex(blocks[h])
      else MAX_SLAB < n && LargeMatches(h, NumPages(n))
    }

    lemma SmallOutcome(h: nat, n: Word)
      requires Valid() && h in blocks && blocks[h] <= MAX_SLAB
      ensures AfterRoute(h, SizedRoute(n)) == AfterRoute(h, HeaderRoute(h)) <==> BucketIndex(n) == BucketIndex(blocks[h])
    {
      hide WorldOk, SmallOk, LargeOk, NumPages, SlabWorld.Valid, BucketSize, Reached, Span, LargeFrames, BlocksOk, BucketIndex;
      HeaderSays(h);
      SmallPlace(h);
      var c := CacheOf(blocks[h]);
      var caches := slab.caches[c := Given(slab.caches[c], h)];
      assert AfterRoute(h, HeaderRoute(h)) == Effect(caches, slab.pmm.free);
      assert |caches[c].free| == |slab.caches[c].free| + 1;
      if n <= MAX_SLAB {
        DistinctBuckets(BucketIndex(n), BucketIndex(blocks[h]));
        var other := CacheOf(n);
        assert AfterRoute(h, SizedRoute(n)).caches == slab.caches[other := Given(slab.caches[other], h)];
        if other != c {
          assert AfterRoute(h, SizedRoute(n)).caches[c] == slab.caches[c];
        }
      } else {
        assert AfterRoute(h, SizedRoute(n)).caches == slab.caches;
      }
    }

    lemma DistinctBuckets(i: nat, j: nat)
      requires Valid() && initialized && i < BUCKETS && j < BUCKETS
      ensures buckets[i] in slab.caches && (buckets[i] == buckets[j] <==> i == j)
    {
      hide WorldOk, SmallOk, LargeOk, NumPages, SlabWorld.Valid, BucketSize;
      assert buckets[..][i] == buckets[i] && buckets[..][j] == buckets[j];
    }

    lemma LargeOutcome(h: nat, n: Word)
      requires Valid() && h in blocks && MAX_SLAB < blocks[h]
      ensures AfterRoute(h, SizedRoute(n)) == AfterRoute(h, HeaderRoute(h)) <==> MAX_SLAB < n && LargeMatches(h, NumPages(n))
    {
      hide WorldOk, SmallOk, LargeOk, NumPages, SlabWorld.Valid, BucketSize, Reached, Span, LargeFrames, BlocksOk, BucketIndex;
      HeaderSays(h);
      LargeFree(h, n);
      if n <= MAX_SLAB {
        DistinctBuckets(BucketIndex(n), BucketIndex(n));
        var other := CacheOf(n);
        assert |AfterRoute(h, SizedRoute(n)).caches[other].free| == |slab.caches[other].free| + 1;
      }
    }

    lemma LargeFree(h: nat, n: Word)
      requires Valid() && h in blocks && MAX_SLAB < blocks[h]
      ensures var p, low, high := h / PAGE_SIZE, slab.pmm.first, slab.pmm.first + slab.pmm.totalFrames;
        && Reached(p, NumPages(blocks[h]), low, high) == Released(h, blocks[h])
        && (slab.pmm.free + Reached(p, NumPages(n), low, high) == slab.pmm.free + Released(h, blocks[h]) <==> LargeMatches(h, NumPages(n)))
    {
      hide WorldOk, SmallOk, LargeOk, BucketsOk, NumPages, SlabWorld.Valid, BucketSize, Reached, Span, LargeFrames, OwnFrames;
      ghost var p, low, high := h / PAGE_SIZE, slab.pmm.first, slab.pmm.first + slab.pmm.totalFrames;
      slab.IsWorld();
      LargePlace(slab.ram.View(), slab.Pages(), low, high, slab.pmm.free, blocks, h);
      OwnFramesUsed(h);
      PageCountFits(n);
      ReachedIsSpan(p, NumPages(blocks[h]), low, high);
      SameFramesExactly(slab.pmm.free, p, NumPages(blocks[h]), NumPages(n), low, high);
    }

    lemma OwnFramesUsed(h: nat)
      requires Valid() && h in blocks && MAX_SLAB < blocks[h]
      ensures Span(h / PAGE_SIZE, NumPages(blocks[h])) !! slab.pmm.free
    {
      hide WorldOk, SmallOk, BucketsOk, NumPages, SlabWorld.Valid, BucketSize, Span;
      OwnedIs(h, blocks[h]);
    }

    /** Trusting the caller's size leaves the same free lists and free frames as the header does exactly when the size matches. */
    lemma SizedOutcomeExactly(h: nat, n: Word)
      requires Valid() && h in blocks
      ensures AfterRoute(h, SizedRoute(n)) == AfterRoute(h, HeaderRoute(h)) <==> SizeMatches(h, n)
    {
      hide WorldOk, SmallOk, LargeOk, NumPages, SlabWorld.Valid, BucketSize, Reached, Span, LargeFrames, BlocksOk;
      HeaderSays(h);
      if blocks[h] <= MAX_SLAB {
        SmallOutcome(h, n);
      } else {
        LargeOutcome(h, n);
      }
    }

    lemma SameClassMatches(h: nat, n: Word)
      requires Valid() && h in blocks && SameClass(blocks[h], n)
      ensures SizeMatches(h, n)
    {
      hide WorldOk, SmallOk, LargeOk, BucketsOk, NumPages, SlabWorld.Valid, BucketSize, Reached, Span, LargeFrames;
      if MAX_SLAB < blocks[h] {
        LargeFree(h, n);
        PageCountFits(n);
      }
    }

    /** A block of 3000 bytes freed as one of 5000: the outcome is the same iff the frame behind it is free or not the machine's. */
    lemma OneFrameTooMany(h: nat)
      requires Valid() && h in blocks && blocks[h] == 3000
      ensures AfterRoute(h, SizedRoute(5000)) == AfterRoute(h, HeaderRoute(h)) <==>
        var next := h / PAGE_SIZE + 1;
        next in slab.pmm.free || next == slab.pmm.first + slab.pmm.totalFrames
    {
      hide WorldOk, SmallOk, LargeOk, SlabWorld.Valid, BucketSize, Reached, Span, LargeFrames, BlocksOk, BucketIndex, AfterRoute, SizedRoute;
      SizedOutcomeExactly(h, 5000);
      TwoFrames(h);
    }

    lemma TwoFrames(h: nat)
      requires Valid() && h in blocks && blocks[h] == 3000
      ensures LargeMatches(h, 2) <==>
        var next := h / PAGE_SIZE + 1;
        next in slab.pmm.free || next == slab.pmm.first + slab.pmm.totalFrames
    {
      hide WorldOk, SmallOk, BucketsOk, SlabWorld.Valid, BucketSize, LargeFrames, OwnFrames, LargeOk, Reached, Span;
      ghost var p, low, high := h / PAGE_SIZE, slab.pmm.first, slab.pmm.first + slab.pmm.totalFrames;
      slab.IsWorld();
      LargePlace(slab.ram.View(), slab.Pages(), low, high, slab.pmm.free, blocks, h);
      FreeInRange();
      NextReached(p, low, high);
      assert Released(h, 3000) == Span(p, 1);
    }

    /** `kfree_sized`: as `kfree`, provided the size matches. */
    method KfreeSized(ptr: nat, n: Word)
      requires Valid() && (ptr == 0 || (HEADER <= ptr && ptr - HEADER in blocks && SizeMatches(ptr - HEADER, n)))
      modifies slab.pmm`freeFrames, slab.pmm`lastFreeIndex, slab.pmm`free, slab.pmm.bitmap, slab.ram.cells, slab`caches, `blocks
      ensures Valid()
      ensures ptr == 0 ==> blocks == old(blocks) && slab.pmm.free == old(slab.pmm.free)
      ensures ptr != 0 ==>
        var h, size := ptr - HEADER, old(blocks)[ptr - HEADER];
        && blocks == old(blocks) - {h}
        && slab.pmm.free == old(slab.pmm.free) + Released(h, size)
        && (!Leaks(size) ==> Reach() == old(Reach()))
      ensures ptr != 0 ==> Effect(slab.caches, slab.pmm.free) == old(AfterRoute(ptr - HEADER, SizedRoute(n)))
      ensures Reach() <= old(Reach())
      ensures BlocksSame(old(slab.ram.View()), slab.ram.View(), old(blocks), BlockAt(ptr))
      ensures LiveSame(old(slab.ram.View()), slab.ram.View(), old(slab.caches), BlockAt(ptr))
      ensures SameOutside(old(slab.ram.View()), slab.ram.View(), slab.Pages()) && slab.Pages() == old(slab.Pages())
      ensures OnlyBuckets(old(slab.caches), slab.caches, buckets[..])
      ensures ForeignSame(old(slab.ram.View()), slab.ram.View(), old(slab.caches), buckets[..], {})
    {
      hide ForeignSame, ClearOfForeign, Represents, IsFree, WorldOk, SmallOk, LargeOk, BucketsOk, Span, NumPages, LargeFrames, LiveSame,
        SameOutside, BlocksSame,
        OwnFrames, BlocksOk, KernelHeap.Valid, SlabWorld.Valid;
      ghost var m := slab.ram.View();
      NothingTouched(m, slab.caches, slab.Pages());
      NothingForeign(m, slab.caches, buckets[..]);
      BlockNotForeign(ptr);
      ghost var caches0 := slab.caches;
      BlocksUntouched(m, blocks);
      if ptr == 0 {
        return;
      }
      var h := ptr - HEADER;
      HeaderSays(h);
      SizedOutcomeExactly(h, n);
      SparesMore(m, m, slab.caches, blocks, h);
      OwnedIs(h, blocks[h]);
      if BucketIndex(n) != -1 {
        FreeSmall(h, CacheOf(n));
      } else {
        LargeFree(h, n);
        FreeLarge(h, NumPages(n));
        assert slab.ram.View() == m;
      }
      ForeignSpared(m, slab.ram.View(), caches0, buckets[..], BlockAt(ptr));
    }

    /** One turn of the loop of `kheap_init`. */
    method MakeBucket(i: nat, bucketSize: nat) returns (made: bool)
      requires slab.Valid() && slab.pmm.HintOk() && Backed() && i < BUCKETS && bucketSize == BucketSize(i)
      requires Made(slab.caches, slab.meta, buckets[..], i)
      modifies slab.pmm`freeFrames, slab.pmm`lastFreeIndex, slab.pmm`free, slab.pmm.bitmap, slab.ram.cells, slab`caches, slab`owner,
        slab`metaInitialized, buckets
      ensures slab.Valid() && slab.pmm.HintOk()
      ensures if made then Made(slab.caches, slab.meta, buckets[..], i + 1) else slab.pmm.free == {}
      ensures slab.Pages() + slab.pmm.free == old(slab.Pages() + slab.pmm.free) && slab.pmm.free <= old(slab.pmm.free)
      ensures old(slab.Pages()) <= slab.Pages()
      ensures SameOutside(old(slab.ram.View()), slab.ram.View(), slab.Pages())
    {
      hide Represents, IsFree, WorldOk, SameOutside, LiveSame, BucketSize, PagesTaken, SlabWorld.Valid, Made;
      ghost var caches, owner, free := slab.caches, slab.owner, slab.pmm.free;
      slab.IsWorld();
      BucketFits(i);
      var c := slab.CacheCreate(bucketSize + HEADER);
      PagesTakenReach(owner, slab.owner, free, slab.pmm.free);
      PagesOnlyGrow(owner, slab.owner, free, slab.pmm.free);
      slab.IsWorld();
      if c == 0 {
        return false;
      }
      MadeOneMore(caches, slab.caches, slab.meta, buckets[..], i, c);
      buckets[i] := c;
      made := true;
    }

    /** `kheap_init`; false is its panic. Calling it again does nothing. */
    method Init() returns (ok: bool)
      requires Valid()
      modifies slab.pmm`freeFrames, slab.pmm`lastFreeIndex, slab.pmm`free, slab.pmm.bitmap, slab.ram.cells, slab`caches, slab`owner,
        slab`metaInitialized, buckets, `initialized
      ensures Valid() && Reach() == old(Reach()) && slab.pmm.free <= old(slab.pmm.free)
      ensures if ok then initialized else !initialized && slab.pmm.free == {}
      ensures ok && !old(initialized) ==> Made(slab.caches, slab.meta, buckets[..], BUCKETS)
      ensures old(initialized) ==> ok && slab.ram.View() == old(slab.ram.View()) && slab.caches == old(slab.caches)
      ensures SameOutside(old(slab.ram.View()), slab.ram.View(), slab.Pages())
    {
      hide Represents, IsFree, WorldOk, SameOutside, LiveSame, BucketSize, PagesTaken, SlabWorld.Valid;
      ghost var m0, reach := slab.ram.View(), slab.Pages() + slab.pmm.free;
      NothingTouched(m0, slab.caches, slab.Pages());
      if initialized {
        return true;
      }
      BucketSizes();
      var bucketSize := 16;
      for i := 0 to BUCKETS
        invariant slab.Valid() && slab.pmm.HintOk() && blocks == map[] && !initialized
        invariant i < BUCKETS ==> bucketSize == BucketSize(i)
        invariant Made(slab.caches, slab.meta, buckets[..], i)
        invariant slab.Pages() + slab.pmm.free == reach && slab.pmm.free <= old(slab.pmm.free)
        invariant SameOutside(m0, slab.ram.View(), slab.Pages())
      {
        ghost var m, pages := slab.ram.View(), slab.Pages();
        var made := MakeBucket(i, bucketSize);
        SameOutsideTwice(m0, m, slab.ram.View(), pages, slab.Pages());
        if !made {
          return false;
        }
        if i + 1 < BUCKETS {
          DoubleBucket(i);
        }
        bucketSize := bucketSize * 2;
      }
      AllMade(slab.ram.View(), slab.caches, slab.meta, buckets[..], slab.Pages(), slab.pmm.first, slab.pmm.first + slab.pmm.totalFrames, slab.pmm.free);
      initialized := true;
      ok := true;
    }

    /** Distinct blocks do not overlap. */
    lemma BlocksApart(h: nat, g: nat)
      requires Valid() && h in blocks && g in blocks && h != g
      ensures End(h, blocks[h]) <= g || End(g, blocks[g]) <= h
      ensures h % 8 == 0
    {
      hide WorldOk, SmallOk, LargeOk, BucketsOk, End, SlabWorld.Valid, OwnFrames, LargeFrames;
      slab.IsWorld();
      AnyBlocksApart(slab.ram.View(), slab.caches, slab.owner, slab.meta, buckets[..], blocks, slab.Pages(),
                     slab.pmm.first, slab.pmm.first + slab.pmm.totalFrames, slab.pmm.free, h, g);
    }

    /** Blocks are no objects of other users. */
    lemma BlockNotForeign(ptr: nat)
      requires Valid() && (ptr == 0 || (HEADER <= ptr && ptr - HEADER in blocks))
      ensures ClearOfForeign(slab.caches, buckets[..], BlockAt(ptr))
    {
      hide WorldOk, SmallOk, LargeOk, BucketsOk, SlabWorld.Valid;
      if ptr != 0 {
        slab.IsWorld();
        forall c, a | c in slab.caches && c !in buckets[..] && a in slab.caches[c].live
          ensures a !in BlockAt(ptr)
        {
          OtherObjectIsNoBlock(slab.ram.View(), slab.caches, slab.owner, slab.meta, buckets[..], blocks, slab.Pages(),
                               slab.pmm.first, slab.pmm.first + slab.pmm.totalFrames, slab.pmm.free, c, a);
        }
      }
    }

    /** A small block is a live object of its bucket's cache. */
    lemma SmallPlace(h: nat)
      requires Valid() && initialized && h in blocks
      ensures blocks[h] <= MAX_SLAB ==>
        var c := CacheOf(blocks[h]);
        c in slab.caches && h in slab.caches[c].live && End(h, blocks[h]) == h + slab.caches[c].objSize
    {
      hide WorldOk, SmallOk, LargeOk, BucketsOk, BucketSize, NumPages, SlabWorld.Valid, Ld, LargeFrames, OwnFrames, End;
      slab.IsWorld();
      if blocks[h] <= MAX_SLAB {
        SmallBlockPlace(slab.ram.View(), slab.caches, slab.owner, slab.meta, buckets[..], blocks, h);
      }
    }

    /** Words of block `h` are in no other block. */
    lemma WordOfOneBlock(h: nat, w: nat)
      requires Valid() && h in blocks && h / 8 <= w < End(h, blocks[h]) / 8
      ensures forall g: nat, u: nat {:trigger InBlock(blocks, g, u)} :: InBlock(blocks, g, u) && g != h ==> u != w
    {
      hide KernelHeap.Valid, End;
      forall g: nat, u: nat | InBlock(blocks, g, u) && g != h
        ensures u != w
      {
        BlocksApart(h, g);
        BlocksApart(g, h);
      }
    }

    lemma SmallPayload(h: nat, w: nat)
      requires Valid() && h in blocks && blocks[h] <= MAX_SLAB && h / 8 + 2 <= w < (End(h, blocks[h]) + 7) / 8
      ensures h % 8 == 0 && w < End(h, blocks[h]) / 8 && w < slab.ram.cells.Length && w / PAGE_WORDS in Footprint()
      ensures var c := CacheOf(blocks[h]);
        c in slab.caches && h in slab.caches[c].live && h !in slab.caches && w < (h + slab.caches[c].objSize) / 8
    {
      hide WorldOk, SmallOk, LargeOk, BucketsOk, BucketSize, NumPages, SlabWorld.Valid, Ld, LargeFrames, OwnFrames;
      slab.IsWorld();
      EndAligned(h, blocks[h]);
      SmallBlockPlace(slab.ram.View(), slab.caches, slab.owner, slab.meta, buckets[..], blocks, h);
      slab.InBounds(CacheOf(blocks[h]));
    }

    lemma LargePayload(h: nat, w: nat)
      requires Valid() && h in blocks && MAX_SLAB < blocks[h] && h / 8 + 2 <= w < (End(h, blocks[h]) + 7) / 8
      ensures h % 8 == 0 && w < End(h, blocks[h]) / 8 && w < slab.ram.cells.Length && w / PAGE_WORDS in Footprint()
      ensures w / PAGE_WORDS !in slab.Pages() && 0 < w / PAGE_WORDS
    {
      hide WorldOk, SmallOk, LargeOk, BucketsOk, BucketSize, NumPages, SlabWorld.Valid, Ld, LargeFrames, OwnFrames, Span;
      slab.IsWorld();
      EndAligned(h, blocks[h]);
      LargePlace(slab.ram.View(), slab.Pages(), slab.pmm.first, slab.pmm.first + slab.pmm.totalFrames, slab.pmm.free, blocks, h);
      InOwnFrame(h, blocks[h], w);
    }

    /** Words behind the header of block `h` are in memory, in the heap's frames, and in no other block. */
    lemma PayloadPlace(h: nat, w: nat)
      requires Valid() && h in blocks && h / 8 + 2 <= w < (End(h, blocks[h]) + 7) / 8
      ensures h % 8 == 0 && w < End(h, blocks[h]) / 8 && w < slab.ram.cells.Length
      ensures forall g: nat, u: nat {:trigger InBlock(blocks, g, u)} :: InBlock(blocks, g, u) && g != h ==> u != w
      ensures w / PAGE_WORDS in Footprint()
      ensures blocks[h] <= MAX_SLAB ==>
        var c := CacheOf(blocks[h]);
        c in slab.caches && h in slab.caches[c].live && h !in slab.caches && w < (h + slab.caches[c].objSize) / 8
      ensures MAX_SLAB < blocks[h] ==> w / PAGE_WORDS !in slab.Pages() && 0 < w / PAGE_WORDS
    {
      hide KernelHeap.Valid, End, InBlock, KernelHeap.Footprint, KernelHeap.CacheOf;
      if blocks[h] <= MAX_SLAB {
        SmallPayload(h, w);
      } else {
        LargePayload(h, w);
      }
      WordOfOneBlock(h, w);
    }

    /** The owner of a block writes one byte of it, behind the header. */
    method WriteByte(ptr: nat, i: nat, b: nat)
      requires Valid() && HEADER <= ptr && ptr - HEADER in blocks && b < 256 && ptr + i < End(ptr - HEADER, blocks[ptr - HEADER])
      modifies slab.ram.cells
      ensures Valid() && (ptr + i) / 8 < slab.ram.cells.Length
      ensures slab.ram.View() == Put(old(slab.ram.View()), (ptr + i) / 8, Patched(Ld(old(slab.ram.View()), (ptr + i) / 8), ptr + i, b))
      ensures BlocksSame(old(slab.ram.View()), slab.ram.View(), blocks, {ptr - HEADER})
      ensures LiveSame(old(slab.ram.View()), slab.ram.View(), slab.caches, {ptr - HEADER})
      ensures SameOutside(old(slab.ram.View()), slab.ram.View(), Footprint())
      ensures ForeignSame(old(slab.ram.View()), slab.ram.View(), old(slab.caches), buckets[..], {})
    {
      hide ForeignSame, ClearOfForeign, KernelHeap.Valid, SlabWorld.Valid, LiveSame, SameOutside, BlocksSame, End;
      var w := (ptr + i) / 8;
      var h := ptr - HEADER;
      HeaderSays(h);
      BlockNotForeign(ptr);
      ghost var m := slab.ram.View();
      BlockHoldsExactly(h, blocks[h]);
      PayloadPlace(h, w);
      WriteWord(h, w, Patched(slab.ram.Load(w), ptr + i, b));
      ForeignSpared(m, slab.ram.View(), slab.caches, buckets[..], {h});
    }

    /** The byte at `ptr + i` of a block. */
    method ReadByte(ptr: nat, i: nat) returns (b: nat)
      requires Valid() && HEADER <= ptr && ptr - HEADER in blocks && ptr + i < End(ptr - HEADER, blocks[ptr - HEADER])
      ensures b == ByteAt(slab.ram.View(), ptr + i)
    {
      hide WorldOk, SmallOk, LargeOk, BucketsOk, BucketSize, NumPages, KernelHeap.Valid, SlabWorld.Valid, End;
      HeaderSays(ptr - HEADER);
      EndAligned(ptr - HEADER, blocks[ptr - HEADER]);
      PayloadPlace(ptr - HEADER, (ptr + i) / 8);
      b := ByteOf(slab.ram.Load((ptr + i) / 8), (ptr + i) % 8);
    }

    /** The copying loop of `krealloc`. */
    method CopyBytes(src: nat, dst: nat, n: nat)
      requires Valid() && HEADER <= src && HEADER <= dst && src != dst && src - HEADER in blocks && dst - HEADER in blocks
      requires src + n <= End(src - HEADER, blocks[src - HEADER]) && dst + n <= End(dst - HEADER, blocks[dst - HEADER])
      modifies slab.ram.cells
      ensures Valid()
      ensures Copied(old(slab.ram.View()), slab.ram.View(), src, dst, n)
      ensures BlocksSame(old(slab.ram.View()), slab.ram.View(), blocks, {dst - HEADER})
      ensures LiveSame(old(slab.ram.View()), slab.ram.View(), slab.caches, {dst - HEADER})
      ensures SameOutside(old(slab.ram.View()), slab.ram.View(), Footprint())
    {
      hide KernelHeap.Valid, SlabWorld.Valid, LiveSame, SameOutside, BlocksSame, End, ByteAt, Patched, Ld;
      ghost var m0, h := slab.ram.View(), dst - HEADER;
      BlocksApart(src - HEADER, h);
      NothingTouched(m0, slab.caches, Footprint());
      BlocksUntouched(m0, blocks);
      SparesMore(m0, m0, slab.caches, blocks, h);
      for i := 0 to n
        invariant Valid()
        invariant Copied(m0, slab.ram.View(), src, dst, i)
        invariant BlocksSame(m0, slab.ram.View(), blocks, {h})
        invariant LiveSame(m0, slab.ram.View(), slab.caches, {h})
        invariant SameOutside(m0, slab.ram.View(), Footprint())
      {
        ghost var m := slab.ram.View();
        var b := ReadByte(src, i);
        WriteByte(dst, i, b);
        CopyStep(m0, m, src, dst, i);
        BlocksSameAgain(m0, m, slab.ram.View(), blocks, {h});
        LiveSameAgain(m0, m, slab.ram.View(), slab.caches, {h});
        SameOutsideTwice(m0, m, slab.ram.View(), Footprint(), Footprint());
      }
    }

    /** The zeroing loop of `kcalloc`. */
    method ZeroBytes(ptr: nat, n: nat)
      requires Valid() && HEADER <= ptr && ptr - HEADER in blocks && ptr + n <= End(ptr - HEADER, blocks[ptr - HEADER])
      modifies slab.ram.cells
      ensures Valid()
      ensures forall x: nat :: ByteAt(slab.ram.View(), x) == if ptr <= x < ptr + n then 0 else old(ByteAt(slab.ram.View(), x))
      ensures BlocksSame(old(slab.ram.View()), slab.ram.View(), blocks, {ptr - HEADER})
      ensures LiveSame(old(slab.ram.View()), slab.ram.View(), slab.caches, {ptr - HEADER})
      ensures SameOutside(old(slab.ram.View()), slab.ram.View(), Footprint())
    {
      hide KernelHeap.Valid, SlabWorld.Valid, LiveSame, SameOutside, BlocksSame, End, ByteAt, Patched, Ld;
      ghost var m0, h := slab.ram.View(), ptr - HEADER;
      NothingTouched(m0, slab.caches, Footprint());
      BlocksUntouched(m0, blocks);
      SparesMore(m0, m0, slab.caches, blocks, h);
      for i := 0 to n
        invariant Valid()
        invariant forall x: nat :: ByteAt(slab.ram.View(), x) == if ptr <= x < ptr + i then 0 else ByteAt(m0, x)
        invariant BlocksSame(m0, slab.ram.View(), blocks, {h})
        invariant LiveSame(m0, slab.ram.View(), slab.caches, {h})
        invariant SameOutside(m0, slab.ram.View(), Footprint())
      {
        ghost var m := slab.ram.View();
        WriteByte(ptr, i, 0);
        PatchedBytes(m, ptr + i, 0);
        BlocksSameAgain(m0, m, slab.ram.View(), blocks, {h});
        LiveSameAgain(m0, m, slab.ram.View(), slab.caches, {h});
        SameOutsideTwice(m0, m, slab.ram.View(), Footprint(), Footprint());
      }
    }

    /** The end of `krealloc`: copy the old block `h` to the new one `g` and free it. */
    method Move(h: nat, g: nat, n: Word)
      requires Valid() && h != g && h in blocks && g in blocks
      requires n == blocks[h] < blocks[g] && CopyFits(n, blocks[g])
      modifies slab.pmm`freeFrames, slab.pmm`lastFreeIndex, slab.pmm`free, slab.pmm.bitmap, slab.ram.cells, slab`caches, `blocks
      ensures Valid() && Reach() == old(Reach()) && blocks == old(blocks) - {h}
      ensures slab.pmm.free == old(slab.pmm.free) + Released(h, n)
      ensures BytesAt(slab.ram.View(), g + HEADER, n) == BytesAt(old(slab.ram.View()), h + HEADER, n)
      ensures BlocksSame(old(slab.ram.View()), slab.ram.View(), old(blocks), {h, g})
      ensures SameOutside(old(slab.ram.View()), slab.ram.View(), old(Footprint()))
      ensures OnlyBuckets(old(slab.caches), slab.caches, buckets[..])
      ensures ForeignSame(old(slab.ram.View()), slab.ram.View(), old(slab.caches), buckets[..], {})
    {
      hide ForeignSame, ClearOfForeign, KernelHeap.Valid, SlabWorld.Valid, LiveSame, SameOutside, BlocksSame, End, BytesAt, NumPages,
        InBlock, LargeFrames, Copied, Released;
      ghost var m0, was := slab.ram.View(), blocks;
      HeaderSays(h);
      BlockHoldsExactly(h, n);
      CopyFitsExactly(g, n, blocks[g]);
      LeaksExactly(n);
      BlocksApart(g, h);
      BlockNotForeign(g + HEADER);
      CopyBytes(h + HEADER, g + HEADER, n);
      ghost var m1, caches1 := slab.ram.View(), slab.caches;
      ForeignSpared(m0, m1, slab.caches, buckets[..], {g});
      OnlyBucketsAtFirst(slab.caches, buckets[..]);
      CopiedBytes(m0, m1, h + HEADER, g + HEADER, n);
      ghost var foot := Footprint();
      Kfree(h + HEADER);
      SameOutsideWider(m1, slab.ram.View(), slab.Pages(), foot);
      SameOutsideTwice(m0, m1, slab.ram.View(), foot, foot);
      BytesKept(m1, slab.ram.View(), was, {h}, g, g + HEADER, n);
      SparesBoth(m0, m1, slab.ram.View(), was, h, g);
      ForeignSameAgain(m0, m1, slab.ram.View(), caches1, caches1, buckets[..]);
    }

    /** `krealloc` to a larger size. `Overrun` is reported before the first byte is copied. */
    method GrowBlock(ptr: nat, newSize: Word) returns (r: Outcome)
      requires Valid() && initialized && HEADER <= ptr && ptr - HEADER in blocks && blocks[ptr - HEADER] < newSize
      modifies slab.pmm`freeFrames, slab.pmm`lastFreeIndex, slab.pmm`free, slab.pmm.bitmap, slab.ram.cells, slab`caches, slab`owner, `blocks
      ensures Valid() && Reach() <= old(Reach()) && (!r.Panic? ==> Reach() == old(Reach()))
      ensures Grows(r, ptr, newSize, old(blocks), blocks, old(slab.pmm.free), slab.pmm.free, old(FreeObjects(newSize)),
                    old(slab.ram.View()), slab.ram.View())
      ensures BlocksSame(old(slab.ram.View()), slab.ram.View(), old(blocks), BlockAt(ptr))
      ensures SameOutside(old(slab.ram.View()), slab.ram.View(), old(Reach()))
      ensures OnlyBuckets(old(slab.caches), slab.caches, buckets[..])
      ensures ForeignSame(old(slab.ram.View()), slab.ram.View(), old(slab.caches), buckets[..], {})
    {
      hide ForeignSame, ClearOfForeign, KernelHeap.Valid, SlabWorld.Valid, LiveSame, SameOutside, BlocksSame, End, BytesAt, Serves, Takes,
        CopyFits, OnlyBuckets,
        InBlock, LargeFrames, OneMoreBlock, Released, KernelHeap.FreeObjects;
      ghost var m, was, reach, free0, stock := slab.ram.View(), blocks, Reach(), slab.pmm.free, FreeObjects(newSize);
      var h := ptr - HEADER;
      HeaderSays(h);
      ghost var caches0 := slab.caches;
      var oldSize := slab.ram.Load(h / 8);
      r := Kmalloc(newSize);
      ghost var m1, f1, grown := slab.ram.View(), slab.pmm.free, blocks;
      OverrunServes(r, oldSize, newSize, was, grown, free0, f1, stock);
      SameOutsideWider(m, m1, Footprint(), reach);
      SparesMore(m, m1, slab.caches, was, h);
      if !r.Block? {
        return;
      }
      if !CopyFits(oldSize, newSize) {
        return Overrun;
      }
      BlockHoldsExactly(h, oldSize);
      FitsHolds(oldSize, newSize);
      var g := r.ptr - HEADER;
      ghost var foot, caches1 := Footprint(), slab.caches;
      Move(h, g, oldSize);
      OnlyBucketsTwice(caches0, caches1, slab.caches, buckets[..]);
      ForeignSameAgain(m, m1, slab.ram.View(), caches0, caches1, buckets[..]);
      SameOutsideWider(m1, slab.ram.View(), foot, reach);
      SameOutsideTwice(m, m1, slab.ram.View(), reach, reach);
      BytesKept(m, m1, was, {}, h, ptr, oldSize);
      SparesOld(m, m1, slab.ram.View(), was, grown, h, g);
      assert Takes(r, newSize, free0, f1, stock);
    }

    /**
     `krealloc`. The bytes the old block held are found at the new address, whichever that is, unless the copy would leave the new
     block.
     */
    method Krealloc(ptr: nat, newSize: Word) returns (r: Outcome)
      requires Valid() && (ptr == 0 || (HEADER <= ptr && ptr - HEADER in blocks))
      modifies slab.pmm`freeFrames, slab.pmm`lastFreeIndex, slab.pmm`free, slab.pmm.bitmap, slab.ram.cells, slab`caches, slab`owner, `blocks
      ensures Valid() && Reach() <= old(Reach())
      ensures !r.Panic? && (ptr != 0 && newSize == 0 ==> !Leaks(old(blocks)[ptr - HEADER])) ==> Reach() == old(Reach())
      ensures initialized ==> Reallocs(r, ptr, newSize, old(blocks), blocks, old(slab.pmm.free), slab.pmm.free, old(FreeObjects(newSize)),
                                       old(slab.ram.View()), slab.ram.View())
      ensures !initialized ==> ptr == 0 && blocks == old(blocks) && r == if newSize == 0 then Null else Panic
      ensures BlocksSame(old(slab.ram.View()), slab.ram.View(), old(blocks), BlockAt(ptr))
      ensures SameOutside(old(slab.ram.View()), slab.ram.View(), old(Reach()))
      ensures OnlyBuckets(old(slab.caches), slab.caches, buckets[..])
      ensures ForeignSame(old(slab.ram.View()), slab.ram.View(), old(slab.caches), buckets[..], {})
    {
      hide ForeignSame, ClearOfForeign, KernelHeap.Valid, SlabWorld.Valid, LiveSame, SameOutside, BlocksSame, Mallocs, Grows, Released,
        Leaks, LargeFrames, OnlyBuckets,
        KernelHeap.FreeObjects;
      ghost var m, was, reach := slab.ram.View(), blocks, Reach();
      BlocksUntouched(m, blocks);
      NothingTouched(m, slab.caches, reach);
      NothingForeign(m, slab.caches, buckets[..]);
      OnlyBucketsAtFirst(slab.caches, buckets[..]);
      if ptr == 0 {
        r := Kmalloc(newSize);
        SameOutsideWider(m, slab.ram.View(), Footprint(), reach);
        return;
      }
      var h := ptr - HEADER;
      HeaderSays(h);
      SparesMore(m, m, slab.caches, blocks, h);
      if newSize == 0 {
        Kfree(ptr);
        SameOutsideWider(m, slab.ram.View(), slab.Pages(), reach);
        return Null;
      }
      var oldSize := slab.ram.Load(h / 8);
      if newSize <= oldSize {
        return Block(ptr);
      }
      r := GrowBlock(ptr, newSize);
    }

    /** `kmalloc` and the zeroing of all `total` bytes, unless they leave the block. */
    method ZeroedAlloc(total: Word) returns (r: Outcome)
      requires Valid()
      modifies slab.pmm`freeFrames, slab.pmm`lastFreeIndex, slab.pmm`free, slab.pmm.bitmap, slab.ram.cells, slab`caches, slab`owner, `blocks
      ensures Valid() && Reach() <= old(Reach()) && (!r.Panic? ==> Reach() == old(Reach()))
      ensures initialized ==>
        Zeroes(r, total, old(blocks), blocks, old(slab.pmm.free), slab.pmm.free, old(FreeObjects(total)), slab.ram.View())
      ensures !initialized ==> blocks == old(blocks) && r == if total == 0 then Null else Panic
      ensures BlocksSame(old(slab.ram.View()), slab.ram.View(), old(blocks), {})
      ensures SameOutside(old(slab.ram.View()), slab.ram.View(), old(Reach()))
      ensures OnlyBuckets(old(slab.caches), slab.caches, buckets[..])
      ensures ForeignSame(old(slab.ram.View()), slab.ram.View(), old(slab.caches), buckets[..], {})
    {
      hide ForeignSame, ClearOfForeign, KernelHeap.Valid, SlabWorld.Valid, LiveSame, SameOutside, BlocksSame, End, ByteAt, HasRun,
        LowestRun, BucketIndex, NumPages,
        InBlock, LargeFrames;
      ghost var m, was, reach, caches0 := slab.ram.View(), blocks, Reach(), slab.caches;
      if U64 < total + HEADER + PAGE_SIZE {
        WrappedRun(total, slab.pmm.free);
      }
      r := Kmalloc(total);
      ghost var m1, foot := slab.ram.View(), Footprint();
      SameOutsideWider(m, m1, foot, reach);
      if r.Block? && U64 < total + HEADER + PAGE_SIZE {
        assert IsNewBlock(was, blocks, r.ptr - HEADER, total);
        return Overrun;
      }
      if r.Block? {
        ghost var h := r.ptr - HEADER;
        BlockHoldsExactly(h, total);
        BlockNotForeign(r.ptr);
        ZeroBytes(r.ptr, total);
        ForeignSpared(m1, slab.ram.View(), slab.caches, buckets[..], {h});
        ForeignSameAgain(m, m1, slab.ram.View(), caches0, slab.caches, buckets[..]);
        SameOutsideWider(m1, slab.ram.View(), foot, reach);
        SameOutsideTwice(m, m1, slab.ram.View(), reach, reach);
        NewSparesOld(m, m1, slab.ram.View(), was, blocks, h);
      }
    }

    /** `kcalloc`. A product that overflows is refused; one that only the page rounding wraps gets a block too small to zero. */
    method Kcalloc(num: Word, size: Word) returns (r: Outcome)
      requires Valid()
      modifies slab.pmm`freeFrames, slab.pmm`lastFreeIndex, slab.pmm`free, slab.pmm.bitmap, slab.ram.cells, slab`caches, slab`owner, `blocks
      ensures Valid() && Reach() <= old(Reach()) && (!r.Panic? ==> Reach() == old(Reach()))
      ensures initialized ==>
        Callocs(r, num, size, old(blocks), blocks, old(slab.pmm.free), slab.pmm.free, old(FreeObjects(Product(num, size) % U64)), slab.ram.View())
      ensures !initialized ==> blocks == old(blocks) && r == if Product(num, size) == 0 || U64 <= Product(num, size) then Null else Panic
      ensures Product(num, size) >= U64 ==> slab.ram.View() == old(slab.ram.View()) && slab.pmm.free == old(slab.pmm.free)
      ensures BlocksSame(old(slab.ram.View()), slab.ram.View(), old(blocks), {})
      ensures SameOutside(old(slab.ram.View()), slab.ram.View(), old(Reach()))
      ensures OnlyBuckets(old(slab.caches), slab.caches, buckets[..])
      ensures ForeignSame(old(slab.ram.View()), slab.ram.View(), old(slab.caches), buckets[..], {})
    {
      hide ForeignSame, ClearOfForeign, KernelHeap.Valid, SlabWorld.Valid, LiveSame, SameOutside, BlocksSame, AllZero, Product, Zeroes,
        LargeFrames, OnlyBuckets;
      OnlyBucketsAtFirst(slab.caches, buckets[..]);
      BlocksUntouched(slab.ram.View(), blocks);
      NothingTouched(slab.ram.View(), slab.caches, Reach());
      NothingForeign(slab.ram.View(), slab.caches, buckets[..]);
      OverflowCheckExactly(num, size);
      var total := Product(num, size) % U64;
      if num != 0 && total / num != size {
        return Null;
      }
      r := ZeroedAlloc(total);
    }

    /** The owner of a block writes a whole word of it, behind the header. */
    method WriteWord(h: nat, w: nat, v: Word)
      requires Valid() && h in blocks && h / 8 + 2 <= w < End(h, blocks[h]) / 8
      modifies slab.ram.cells
      ensures Valid() && w < slab.ram.cells.Length && slab.ram.View() == Put(old(slab.ram.View()), w, v)
      ensures BlocksSame(old(slab.ram.View()), slab.ram.View(), blocks, {h})
      ensures LiveSame(old(slab.ram.View()), slab.ram.View(), slab.caches, {h})
      ensures SameOutside(old(slab.ram.View()), slab.ram.View(), Footprint())
      ensures ForeignSame(old(slab.ram.View()), slab.ram.View(), slab.caches, buckets[..], {})
    {
      hide ForeignSame, ClearOfForeign, WorldOk, SmallOk, LargeOk, BucketsOk, BucketSize, NumPages, SlabWorld.Valid, LiveSame, SameOutside, BlocksSame, End;
      ghost var m := slab.ram.View();
      HeaderSays(h);
      BlockNotForeign(h + HEADER);
      PayloadPlace(h, w);
      var size := slab.ram.Load(h / 8);
      if size <= MAX_SLAB {
        slab.WriteObject(CacheOf(size), h, w, v);
        SameOutsideWider(m, slab.ram.View(), slab.Pages(), Footprint());
      } else {
        slab.WriteElsewhere(w / PAGE_WORDS, w, v);
        PutInside(m, w, v, Footprint());
        SparesMore(m, slab.ram.View(), slab.caches, blocks, h);
      }
      PayloadWritten(m, slab.caches, slab.meta, buckets[..], blocks, slab.Pages(),
                     slab.pmm.first, slab.pmm.first + slab.pmm.totalFrames, slab.pmm.free, h, w, v);
      ForeignSpared(m, slab.ram.View(), slab.caches, buckets[..], {h});
    }

    // Caches of other users, beside the bucket caches

    ghost predicate OtherCache(c: nat)
      reads slab, buckets
    {
      c in slab.caches && c != slab.meta && c !in buckets[..]
    }

    /** The free list of the cache that structures come from. */
    ghost function FreeStructs(): seq<nat>
      reads slab
    {
      if slab.meta in slab.caches then slab.caches[slab.meta].free else []
    }

    lemma MetaExists()
      requires Valid() && initialized
      ensures slab.caches != map[] && slab.meta in slab.caches
    {
      hide InMemory, Accounted, SmallOk, LargeOk, Represents;
      assert buckets[..][0] in slab.caches;
    }

    /** `slab_cache_create` for another user. */
    method NewCache(objSize: Word) returns (c: nat)
      requires Valid() && initialized && objSize + 8 <= U64
      modifies slab.pmm`freeFrames, slab.pmm`lastFreeIndex, slab.pmm`free, slab.pmm.bitmap, slab.ram.cells, slab`caches, slab`owner,
        slab`metaInitialized
      ensures Valid() && Reach() == old(Reach()) && slab.pmm.free <= old(slab.pmm.free)
      ensures c == 0 <==> old(slab.pmm.free) == {} && old(FreeStructs()) == []
      ensures c != 0 ==> OtherCache(c) && c !in old(slab.caches) && slab.caches[c].live == {} && objSize <= slab.caches[c].objSize
      ensures forall d :: d in old(slab.caches) && d != slab.meta ==> d in slab.caches && slab.caches[d] == old(slab.caches)[d]
      ensures BlocksSame(old(slab.ram.View()), slab.ram.View(), blocks, {})
      ensures LiveSame(old(slab.ram.View()), slab.ram.View(), old(slab.caches), {})
      ensures SameOutside(old(slab.ram.View()), slab.ram.View(), slab.Pages())
    {
      hide InMemory, Accounted, Represents, IsFree, LiveSame, WorldOk, Payload, PagesTaken, SameOutside, SmallOk, LargeOk, BlocksSame,
        BucketSize, SlabWorld.Valid, LargeFrames;
      slab.IsWorld();
      MetaExists();
      ghost var m, caches, owner, free, pages := slab.ram.View(), slab.caches, slab.owner, slab.pmm.free, slab.Pages();
      ghost var low, high := slab.pmm.first, slab.pmm.first + slab.pmm.totalFrames;
      c := slab.CacheCreate(objSize);
      slab.IsWorld();
      PagesTakenReach(owner, slab.owner, free, slab.pmm.free);
      PagesTakenBounds(owner, slab.owner, free, slab.pmm.free, slab.meta / PAGE_SIZE);
      SlabStep(m, slab.ram.View(), caches, owner, slab.meta, buckets[..], blocks, {}, pages, slab.Pages(), low, high, free, slab.pmm.free);
      SmallKept(m, slab.ram.View(), caches, slab.caches, slab.meta, buckets[..], blocks);
    }

    /** `slab_alloc` from another user's cache. */
    method NewObject(c: nat) returns (a: nat)
      requires Valid() && initialized && OtherCache(c)
      modifies slab.pmm`freeFrames, slab.pmm`lastFreeIndex, slab.pmm`free, slab.pmm.bitmap, slab.ram.cells, slab`caches, slab`owner
      ensures Valid() && Reach() == old(Reach()) && slab.pmm.free <= old(slab.pmm.free)
      ensures a == 0 <==>
        old(slab.caches)[c].free == [] && (old(slab.pmm.free) == {} || PAGE_SIZE - FRAME_HEADER < old(slab.caches)[c].objSize)
      ensures RefillTakes(old(slab.caches)[c].free, old(slab.pmm.free), slab.pmm.free)
      ensures a != 0 ==> a !in old(slab.caches)[c].live
      ensures OnlyLive(old(slab.caches), slab.caches, c, if a == 0 then old(slab.caches)[c].live else old(slab.caches)[c].live + {a})
      ensures BlocksSame(old(slab.ram.View()), slab.ram.View(), blocks, {})
      ensures LiveSame(old(slab.ram.View()), slab.ram.View(), old(slab.caches), {})
      ensures SameOutside(old(slab.ram.View()), slab.ram.View(), slab.Pages())
    {
      hide InMemory, Accounted, Represents, IsFree, LiveSame, WorldOk, Payload, PagesTaken, RefillTakes, SameOutside, SmallOk, LargeOk, BlocksSame,
        BucketSize, SlabWorld.Valid, LargeFrames;
      slab.IsWorld();
      ghost var m, caches, owner, free, pages := slab.ram.View(), slab.caches, slab.owner, slab.pmm.free, slab.Pages();
      ghost var low, high := slab.pmm.first, slab.pmm.first + slab.pmm.totalFrames;
      a := slab.Alloc(c);
      slab.IsWorld();
      PagesTakenReach(owner, slab.owner, free, slab.pmm.free);
      PagesTakenBounds(owner, slab.owner, free, slab.pmm.free, slab.meta / PAGE_SIZE);
      SlabStep(m, slab.ram.View(), caches, owner, slab.meta, buckets[..], blocks, {}, pages, slab.Pages(), low, high, free, slab.pmm.free);
      SmallKept(m, slab.ram.View(), caches, slab.caches, slab.meta, buckets[..], blocks);
    }

    /** `slab_free` into another user's cache. */
    method FreeObject(c: nat, a: nat)
      requires Valid() && initialized && OtherCache(c) && a in slab.caches[c].live
      modifies slab.ram.cells, slab`caches
      ensures Valid() && Reach() == old(Reach()) && slab.caches == old(slab.caches)[c := Given(old(slab.caches)[c], a)]
      ensures BlocksSame(old(slab.ram.View()), slab.ram.View(), blocks, {})
      ensures LiveSame(old(slab.ram.View()), slab.ram.View(), old(slab.caches), {a})
      ensures SameOutside(old(slab.ram.View()), slab.ram.View(), slab.Pages())
    {
      hide InMemory, Accounted, Represents, IsFree, LiveSame, WorldOk, Payload, SameOutside, SmallOk, LargeOk, BlocksSame,
        BucketSize, SlabWorld.Valid, LargeFrames;
      slab.IsWorld();
      ghost var m, caches, pages := slab.ram.View(), slab.caches, slab.Pages();
      ghost var low, high := slab.pmm.first, slab.pmm.first + slab.pmm.totalFrames;
      OwnObject(m, caches, slab.owner, slab.meta, c, a);
      OtherObjectIsNoBlock(m, caches, slab.owner, slab.meta, buckets[..], blocks, pages, low, high, slab.pmm.free, c, a);
      slab.Free(c, a);
      SlabStep(m, slab.ram.View(), caches, slab.owner, slab.meta, buckets[..], blocks, {a}, pages, pages, low, high, slab.pmm.free, slab.pmm.free);
      NoBlockSpared(m, slab.ram.View(), blocks, a);
      SmallKept(m, slab.ram.View(), caches, slab.caches, slab.meta, buckets[..], blocks);
    }

    /** The owner of another user's object writes a word of it. */
    method WriteObject(c: nat, a: nat, k: nat, v: Word)
      requires Valid() && initialized && OtherCache(c) && a in slab.caches[c].live && a / 8 <= k < (a + slab.caches[c].objSize) / 8
      modifies slab.ram.cells
      ensures Valid() && k < slab.ram.cells.Length && slab.ram.View() == Put(old(slab.ram.View()), k, v)
      ensures BlocksSame(old(slab.ram.View()), slab.ram.View(), blocks, {})
      ensures LiveSame(old(slab.ram.View()), slab.ram.View(), slab.caches, {a})
      ensures SameOutside(old(slab.ram.View()), slab.ram.View(), slab.Pages())
    {
      hide InMemory, Accounted, Represents, IsFree, LiveSame, WorldOk, Payload, SameOutside, SmallOk, LargeOk, BlocksSame,
        BucketSize, SlabWorld.Valid, LargeFrames;
      slab.IsWorld();
      ghost var m, caches, pages := slab.ram.View(), slab.caches, slab.Pages();
      ghost var low, high := slab.pmm.first, slab.pmm.first + slab.pmm.totalFrames;
      OwnObject(m, caches, slab.owner, slab.meta, c, a);
      OtherObjectIsNoBlock(m, caches, slab.owner, slab.meta, buckets[..], blocks, pages, low, high, slab.pmm.free, c, a);
      slab.InBounds(c);
      slab.WriteObject(c, a, k, v);
      SlabStep(m, slab.ram.View(), caches, slab.owner, slab.meta, buckets[..], blocks, {a}, pages, pages, low, high, slab.pmm.free, slab.pmm.free);
      NoBlockSpared(m, slab.ram.View(), blocks, a);
      BucketsExist(caches, slab.meta, buckets[..]);
      SmallKept(m, slab.ram.View(), caches, caches, slab.meta, buckets[..], blocks);
    }
  }
}
