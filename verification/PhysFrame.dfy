/** The physical frame allocator: one bit per frame, set when the frame is used, and a search hint. */
module PhysFrame {
  import opened Machine

  /** `1 << k`, tabulated. */
  function Mask(k: nat): (r: bv8)
    requires k < 8
  {
    if k == 0 then 1 else if k == 1 then 2 else if k == 2 then 4 else if k == 3 then 8
    else if k == 4 then 16 else if k == 5 then 32 else if k == 6 then 64 else 128
  }

  lemma MaskIsShift(k: nat)
    requires k < 8
    ensures Mask(k) == 1 << k
  {
  }

  /** Bit `k` of a bitmap byte. */
  predicate Bit(b: bv8, k: nat)
    requires k < 8
  {
    b & Mask(k) != 0
  }

  lemma SetBit(b: bv8, k: nat, j: nat)
    requires k < 8 && j < 8
    ensures Bit(b | Mask(k), j) == (j == k || Bit(b, j))
  {
  }

  lemma ClearBit(b: bv8, k: nat, j: nat)
    requires k < 8 && j < 8
    ensures Bit(b & !Mask(k), j) == (j != k && Bit(b, j))
  {
  }

  /** Frame `p` is free in a bitmap whose bit 0 stands for frame `first`. */
  predicate IsFree(bytes: seq<bv8>, first: nat, p: nat) {
    first <= p && (p - first) / 8 < |bytes| && !Bit(bytes[(p - first) / 8], (p - first) % 8)
  }

  /** `free` is the set of free frames among the first `total`. */
  ghost predicate Represents(bytes: seq<bv8>, first: nat, total: nat, free: set<nat>) {
    && (forall p :: p in free ==> first <= p < first + total)
    && forall p {:trigger IsFree(bytes, first, p)} ::
         first <= p < first + total ==> (p in free <==> IsFree(bytes, first, p))
  }

  ghost function Marked(bytes: seq<bv8>, bit: nat): (r: seq<bv8>)
    requires bit / 8 < |bytes|
  {
    bytes[bit / 8 := bytes[bit / 8] | Mask(bit % 8)]
  }

  ghost function Unmarked(bytes: seq<bv8>, bit: nat): (r: seq<bv8>)
    requires bit / 8 < |bytes|
  {
    bytes[bit / 8 := bytes[bit / 8] & !Mask(bit % 8)]
  }

  lemma MarkedFree(bytes: seq<bv8>, first: nat, total: nat, free: set<nat>, bit: nat)
    requires bit < total <= |bytes| * 8 && Represents(bytes, first, total, free)
    ensures Represents(Marked(bytes, bit), first, total, free - {first + bit})
  {
    forall p: nat | first <= p < first + total
      ensures IsFree(Marked(bytes, bit), first, p) <==> p != first + bit && IsFree(bytes, first, p)
    {
      SetBit(bytes[bit / 8], bit % 8, (p - first) % 8);
    }
  }

  lemma UnmarkedFree(bytes: seq<bv8>, first: nat, total: nat, free: set<nat>, bit: nat)
    requires bit < total <= |bytes| * 8 && Represents(bytes, first, total, free)
    ensures Represents(Unmarked(bytes, bit), first, total, free + {first + bit})
  {
    forall p: nat | first <= p < first + total
      ensures IsFree(Unmarked(bytes, bit), first, p) <==> p == first + bit || IsFree(bytes, first, p)
    {
      ClearBit(bytes[bit / 8], bit % 8, (p - first) % 8);
    }
  }

  /** The bytes `pmm_init` asks for hold a bit for every frame. */
  predicate BitmapCovers(total: Word) {
    total <= AlignUp8(total / 8) * 8
  }

  /** The size rounds the frame count down before rounding bytes up, so some counts lose their last frames. */
  lemma BitmapCoversExactly(total: Word)
    ensures BitmapCovers(total) <==> total % 64 == 0 || 8 <= total % 64
  {
    var bytes := total / 8;
    assert AlignUp8(bytes) == (bytes + 7) / 8 * 8;
    var q, r := total / 64, total % 64;
    assert bytes == q * 8 + r / 8;
    assert (bytes + 7) / 8 == q + (r / 8 + 7) / 8;
  }

  /** `p` is where a cyclic scan of the free frames `free` that starts at `from` stops. */
  ghost predicate FirstFrom(free: set<nat>, from: nat, p: nat) {
    && p in free
    && if from <= p then forall q :: q in free && from <= q ==> p <= q
       else (forall q :: q in free ==> q < from) && forall q :: q in free ==> p <= q
  }

  /** The frames `[from, from + count)`. */
  ghost function Span(from: nat, count: nat): (s: set<nat>)
    ensures forall p :: p in s <==> from <= p < from + count
  {
    set p: nat | p < from + count && Within(p, from, count)
  }

  ghost predicate Within(p: nat, from: nat, count: nat) {
    from <= p < from + count
  }

  ghost predicate NoneBelow(free: set<nat>, bound: nat) {
    forall p :: p in free ==> bound <= p
  }

  /** Freeing a region keeps "no free frame below the hint" exactly when the region does not start below the hint. */
  lemma RegionFreeKeepsHint(free: set<nat>, from: nat, count: nat, hint: nat)
    ensures NoneBelow(free + Span(from, count), hint) <==> NoneBelow(free, hint) && (count == 0 || hint <= from)
  {
    if 0 < count {
      assert from in free + Span(from, count);
    }
  }

  /** The scan returns the lowest free frame exactly when that frame, or no free frame, lies at or above the hint. */
  lemma LowestExactly(free: set<nat>, hint: nat, p: nat, low: nat)
    requires FirstFrom(free, hint, p)
    requires low in free && NoneBelow(free, low)
    ensures p == low <==> hint <= low || forall q :: q in free ==> q < hint
  {
  }

  lemma HintAfterFree(free: set<nat>, bound: nat, p: nat)
    ensures NoneBelow(free, bound) ==> NoneBelow(free + {p}, if p < bound then p else bound)
  {
  }

  class FrameAllocator {
    var bitmap: array<bv8>
    var totalFrames: nat
    var freeFrames: nat
    var physBase: Word
    var lastFreeIndex: nat

    /** Frame number (address / PAGE_SIZE) of bitmap bit 0. */
    ghost var first: nat

    /** Numbers of the frames whose bit is clear. */
    ghost var free: set<nat>

    /** The bitmap has a bit for each frame, `free` is what it says, and frames have 64-bit addresses. */
    ghost predicate Shape()
      reads `bitmap, `totalFrames, `physBase, `first, `free, bitmap
    {
      && totalFrames <= bitmap.Length * 8
      && physBase == first * PAGE_SIZE && 0 < physBase
      && physBase + totalFrames * PAGE_SIZE <= U64
      && Represents(bitmap[..], first, totalFrames, free)
    }

    /** `pmm_init` counts every frame as free before any bit is clear; the surplus never goes away. */
    ghost predicate Valid()
      reads this, bitmap
    {
      Shape() && freeFrames == |free| + totalFrames && lastFreeIndex <= totalFrames
    }

    /** Every frame below the search hint is used. */
    ghost predicate HintOk()
      reads `free, `first, `lastFreeIndex
    {
      NoneBelow(free, first + lastFreeIndex)
    }

    /** The next search starts behind frame `p`. */
    ghost predicate HintPast(p: nat)
      reads `first, `lastFreeIndex
    {
      first + lastFreeIndex == p + 1
    }

    ghost predicate InRange(p: nat)
      reads `first, `totalFrames
    {
      first <= p < first + totalFrames
    }

    predicate BitmapTest(bit: nat)
      requires Shape() && bit < totalFrames
      reads `bitmap, `totalFrames, `physBase, `first, `free, bitmap
      ensures BitmapTest(bit) <==> first + bit !in free
    {
      assert IsFree(bitmap[..], first, first + bit) <==> !Bit(bitmap[bit / 8], bit % 8);
      bitmap[bit / 8] & Mask(bit % 8) != 0
    }

    method BitmapSet(bit: nat)
      requires Shape() && bit < totalFrames
      modifies bitmap, `free
      ensures Shape() && free == old(free) - {first + bit}
    {
      MarkedFree(bitmap[..], first, totalFrames, free, bit);
      ghost var was := bitmap[..];
      bitmap[bit / 8] := bitmap[bit / 8] | Mask(bit % 8);
      free := free - {first + bit};
      assert bitmap[..] == Marked(was, bit);
    }

    method BitmapClear(bit: nat)
      requires Shape() && bit < totalFrames
      modifies bitmap, `free
      ensures Shape() && free == old(free) + {first + bit}
    {
      UnmarkedFree(bitmap[..], first, totalFrames, free, bit);
      ghost var was := bitmap[..];
      bitmap[bit / 8] := bitmap[bit / 8] & !Mask(bit % 8);
      free := free + {first + bit};
      assert bitmap[..] == Unmarked(was, bit);
    }

    /** `pmm_init`: every frame starts used, yet all are counted as free. */
    constructor Init(ramBase: Word, ramSize: Word)
      requires ramBase % PAGE_SIZE == 0 && 0 < ramBase && ramBase + ramSize <= U64
      requires BitmapCovers(ramSize / PAGE_SIZE)
      ensures Valid() && fresh(bitmap)
      ensures physBase == ramBase && totalFrames == ramSize / PAGE_SIZE
      ensures free == {} && lastFreeIndex == 0
      ensures bitmap.Length == (ramSize / 4096 / 8 + 7) / 8 * 8
    {
      physBase := ramBase;
      first := ramBase / PAGE_SIZE;
      free := {};
      totalFrames := ramSize / PAGE_SIZE;
      freeFrames := ramSize / PAGE_SIZE;
      lastFreeIndex := 0;
      var bytes := new bv8[AlignUp8(ramSize / PAGE_SIZE / 8)];
      for i := 0 to bytes.Length
        invariant forall k :: 0 <= k < i ==> bytes[k] == 0xFF
      {
        bytes[i] := 0xFF;
      }
      bitmap := bytes;
      new;
      forall p: nat
        ensures !IsFree(bitmap[..], first, p)
      {
        if first <= p {
          SetBit(0xFF, (p - first) % 8, (p - first) % 8);
        }
      }
    }

    /** One turn of the loop of `pmm_free_region`. */
    method Release(bit: nat)
      requires Valid() && bit < totalFrames
      modifies `freeFrames, `free, bitmap
      ensures Valid() && free == old(free) + {first + bit}
    {
      if BitmapTest(bit) {
        BitmapClear(bit);
        freeFrames := freeFrames + 1;
      }
    }

    /** One turn of the loop of `pmm_reserve_region`. */
    method Reserve(bit: nat)
      requires Valid() && bit < totalFrames
      modifies `freeFrames, `free, bitmap
      ensures Valid() && free == old(free) - {first + bit}
    {
      if !BitmapTest(bit) {
        BitmapSet(bit);
        if freeFrames > 0 {
          freeFrames := freeFrames - 1;
        }
      }
    }

    /** `pmm_free_region`: whole pages only; it does not move the search hint. */
    method FreeRegion(base: Word, size: Word)
      requires Valid() && physBase <= base
      requires (base - physBase) / PAGE_SIZE + size / PAGE_SIZE <= totalFrames
      modifies this`freeFrames, this`free, bitmap
      ensures Valid()
      ensures free == old(free) + Span(base / PAGE_SIZE, size / PAGE_SIZE)
    {
      var startFrame := (base - physBase) / PAGE_SIZE;
      var count := size / PAGE_SIZE;
      ghost var start := first + startFrame;
      assert start == base / PAGE_SIZE;
      for i := 0 to count
        invariant Valid()
        invariant free == old(free) + Span(start, i)
      {
        Release(startFrame + i);
      }
    }

    /** `pmm_reserve_region`: every page the bytes touch, counted from a page-aligned start. */
    method ReserveRegion(base: Word, size: Word)
      requires Valid() && physBase <= base && size + PAGE_SIZE <= U64
      requires (base - physBase) / PAGE_SIZE + AlignUpPage(size) / PAGE_SIZE <= totalFrames
      modifies this`freeFrames, this`free, bitmap
      ensures Valid()
      ensures free == old(free) - Span(base / PAGE_SIZE, AlignUpPage(size) / PAGE_SIZE)
      ensures old(HintOk()) ==> HintOk()
    {
      var startFrame := (base - physBase) / PAGE_SIZE;
      var count := AlignUpPage(size) / PAGE_SIZE;
      ghost var start := first + startFrame;
      assert start == base / PAGE_SIZE;
      for i := 0 to count
        invariant Valid()
        invariant free == old(free) - Span(start, i)
      {
        Reserve(startFrame + i);
      }
    }

    /** Take free frame `i`: the body both scanning loops share. */
    method Take(i: nat) returns (phys: Word)
      requires Valid() && i < totalFrames && first + i in free
      modifies this`freeFrames, this`lastFreeIndex, this`free, bitmap
      ensures Valid()
      ensures phys == (first + i) * PAGE_SIZE && lastFreeIndex == i + 1
      ensures free == old(free) - {first + i}
    {
      BitmapSet(i);
      freeFrames := freeFrames - 1;
      lastFreeIndex := i + 1;
      phys := physBase + i * PAGE_SIZE;
    }

    /** `pmm_alloc_frame`: the first free frame from the hint on, cyclically; 0 exactly when none is free. */
    method AllocFrame() returns (phys: Word)
      requires Valid()
      modifies this`freeFrames, this`lastFreeIndex, this`free, bitmap
      ensures Valid()
      ensures phys == 0 <==> old(free) == {}
      ensures phys == 0 ==> free == old(free) && lastFreeIndex == old(lastFreeIndex)
      ensures phys != 0 ==>
        && phys % PAGE_SIZE == 0 && InRange(phys / PAGE_SIZE) && phys / PAGE_SIZE in old(free)
        && FirstFrom(old(free), first + old(lastFreeIndex), phys / PAGE_SIZE)
        && free == old(free) - {phys / PAGE_SIZE} && HintPast(phys / PAGE_SIZE)
      ensures old(HintOk()) ==> HintOk() && (phys != 0 ==> NoneBelow(old(free), phys / PAGE_SIZE))
    {
      hide Shape;
      FreeIsInRange();
      if freeFrames == 0 {
        // "out of physical memory frames": only when the machine has no frames at all
        assert totalFrames == 0;
        return 0;
      }
      for i := lastFreeIndex to totalFrames
        invariant forall p :: p in free ==> !(first + lastFreeIndex <= p < first + i)
      {
        if !BitmapTest(i) {
          phys := Take(i);
          return;
        }
      }
      for i := 0 to lastFreeIndex
        invariant forall p :: p in free ==> first + i <= p < first + lastFreeIndex
      {
        if !BitmapTest(i) {
          phys := Take(i);
          return;
        }
      }
      return 0;
    }

    /** Used frame `i` becomes free. */
    method Give(i: nat)
      requires Valid() && i < totalFrames && first + i !in free
      modifies this`freeFrames, this`lastFreeIndex, this`free, bitmap
      ensures Valid() && free == old(free) + {first + i} && freeFrames == old(freeFrames) + 1
      ensures lastFreeIndex == if i < old(lastFreeIndex) then i else old(lastFreeIndex)
    {
      hide Represents, IsFree;
      BitmapClear(i);
      freeFrames := freeFrames + 1;
      if i < lastFreeIndex {
        lastFreeIndex := i;
      }
    }

    lemma FreeIsInRange()
      requires Valid()
      ensures (forall p :: p in free ==> InRange(p)) && 0 < first
    {
    }

    lemma FrameOf(phys: Word)
      requires Valid()
      ensures if phys < physBase then phys / PAGE_SIZE < first else first + (phys - physBase) / PAGE_SIZE == phys / PAGE_SIZE
    {
      hide Represents;
    }

    /** `pmm_free_frame`: out-of-range addresses and free frames are ignored. */
    method FreeFrame(phys: Word)
      requires Valid()
      modifies this`freeFrames, this`lastFreeIndex, this`free, bitmap
      ensures Valid()
      ensures free == old(free) + if InRange(phys / PAGE_SIZE) then {phys / PAGE_SIZE} else {}
      ensures InRange(phys / PAGE_SIZE) && phys / PAGE_SIZE !in old(free) ==>
        && freeFrames == old(freeFrames) + 1
        && lastFreeIndex == if phys / PAGE_SIZE < first + old(lastFreeIndex) then phys / PAGE_SIZE - first else old(lastFreeIndex)
      ensures !InRange(phys / PAGE_SIZE) || phys / PAGE_SIZE in old(free) ==>
        freeFrames == old(freeFrames) && lastFreeIndex == old(lastFreeIndex)
      ensures old(HintOk()) ==> HintOk()
    {
      hide Shape, NoneBelow;
      FrameOf(phys);
      HintAfterFree(free, first + lastFreeIndex, phys / PAGE_SIZE);
      if phys < physBase {
        return;
      }
      var frameIdx := (phys - physBase) / PAGE_SIZE;
      if frameIdx >= totalFrames {
        return;
      }
      if BitmapTest(frameIdx) {
        Give(frameIdx);
      }
    }
  }

  /** Allocating a frame and freeing it again changes neither the free frames nor their count. */
  method AllocThenFree(a: FrameAllocator) returns (phys: Word)
    requires a.Valid()
    modifies a`freeFrames, a`lastFreeIndex, a`free, a.bitmap
    ensures a.Valid() && a.free == old(a.free) && a.freeFrames == old(a.freeFrames)
    ensures old(a.HintOk()) ==> a.HintOk()
  {
    hide Represents, IsFree;
    phys := a.AllocFrame();
    if phys != 0 {
      a.FreeFrame(phys);
    }
  }
}
