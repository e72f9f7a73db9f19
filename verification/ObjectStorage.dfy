/**
 Object headers in slab memory. `object_create` fills in every field of the header except `destroyed`, so the flag of a new
 object is whatever byte its memory held; a recycled object starts out marked destroyed.
 */
module ObjectStorage {
  import opened Machine
  import opened Bytes
  import opened Slab

  /** `sizeof(object_header_t)` and the offset of its `destroyed` byte. */
  const OBJECT_HEADER := 48
  const DESTROYED := 28

  /** The header words `object_create` leaves in memory: type id and refcount, handle count and generation, id, and a free lock. */
  ghost function Created(m: seq<Word>, a: nat, typeId: nat, id: Word): (r: seq<Word>)
    requires a / 8 + 3 < |m| && typeId < U32
    ensures |r| == |m|
  {
    Put(Put(Put(Put(m, a / 8, typeId + U32), a / 8 + 1, 0), a / 8 + 2, id), a / 8 + 3, Ld(m, a / 8 + 3) - Ld(m, a / 8 + 3) % U32)
  }

  /** The fields of a new object's header: type id, one reference, no handle, generation 0, id, and a lock nobody holds. */
  ghost predicate FreshHeader(m: seq<Word>, a: nat, typeId: nat, id: Word) {
    && Ld(m, a / 8) % 0x1_0000_0000 == typeId
    && Ld(m, a / 8) / 0x1_0000_0000 == 1
    && Ld(m, a / 8 + 1) == 0
    && Ld(m, a / 8 + 2) == id
    && Ld(m, a / 8 + 3) % 0x1_0000_0000 == 0
  }

  lemma CreatedFields(m: seq<Word>, a: nat, typeId: nat, id: Word)
    requires a / 8 + 3 < |m| && typeId < U32
    ensures FreshHeader(Created(m, a, typeId, id), a, typeId, id)
  {
  }

  /** The four header words at `a` are the same in both memories: every field but the type's own data. */
  ghost predicate SameHeader(m: seq<Word>, m': seq<Word>, a: nat) {
    && Ld(m', a / 8) == Ld(m, a / 8)
    && Ld(m', a / 8 + 1) == Ld(m, a / 8 + 1)
    && Ld(m', a / 8 + 2) == Ld(m, a / 8 + 2)
    && Ld(m', a / 8 + 3) == Ld(m, a / 8 + 3)
  }

  ghost predicate SameHeaders(m: seq<Word>, m': seq<Word>, objs: set<nat>) {
    forall a :: a in objs ==> SameHeader(m, m', a)
  }

  lemma {:induction false} LowBytes(w: Word, k: nat)
    requires 4 <= k < 8
    ensures ByteOf(w - w % U32, k) == ByteOf(w, k)
  {
    var v := w - w % U32;
    var h := w / U32;
    assert v == h * U32;
    assert v / 256 / 256 / 256 / 256 == h == w / 256 / 256 / 256 / 256;
    ByteFrom4(v, k);
    ByteFrom4(w, k);
  }

  lemma ByteFrom4(w: nat, k: nat)
    requires 4 <= k
    ensures ByteOf(w, k) == ByteOf(w / 256 / 256 / 256 / 256, k - 4)
  {
    assert ByteOf(w, k) == ByteOf(w / 256, k - 1);
    assert ByteOf(w / 256, k - 1) == ByteOf(w / 256 / 256, k - 2);
    assert ByteOf(w / 256 / 256, k - 2) == ByteOf(w / 256 / 256 / 256, k - 3);
  }

  /** Creation leaves the `destroyed` byte as it finds it. */
  lemma CreatedFlag(m: seq<Word>, a: nat, typeId: nat, id: Word)
    requires a / 8 + 3 < |m| && typeId < U32 && a % 8 == 0
    ensures ByteAt(Created(m, a, typeId, id), a + 28) == ByteAt(m, a + 28)
  {
    assert (a + DESTROYED) / 8 == a / 8 + 3 && (a + DESTROYED) % 8 == 4;
    LowBytes(Ld(m, a / 8 + 3), 4);
  }

  /** Pushing an object on its free list and popping it again write its first word only. */
  lemma FreeListFlag(m: seq<Word>, c: nat, a: nat)
    requires c / 8 + 2 < |m| && a / 8 + 3 < |m| && a < U64 && a % 8 == 0 && (c / 8 + 2 < a / 8 || a / 8 + 3 < c / 8 + 2)
    ensures var m1 := Pushed(m, c, a);
      ByteAt(Put(m1, c / 8 + 2, Ld(m1, a / 8)), a + DESTROYED) == ByteAt(m, a + DESTROYED)
  {
    assert (a + DESTROYED) / 8 == a / 8 + 3;
  }

  /** The header stores of `object_create`, on an object just taken from the cache at `c`. */
  method InitHeader(slab: SlabWorld, c: nat, a: nat, typeId: nat, id: Word)
    requires slab.Valid() && c in slab.caches && a in slab.caches[c].live && a !in slab.caches
    requires OBJECT_HEADER <= slab.caches[c].objSize && typeId < U32
    modifies slab.ram.cells
    ensures slab.Valid() && a / 8 + 3 < slab.ram.cells.Length && a % 8 == 0
    ensures FreshHeader(slab.ram.View(), a, typeId, id)
    ensures LiveSame(old(slab.ram.View()), slab.ram.View(), slab.caches, {a})
    ensures ByteAt(slab.ram.View(), a + DESTROYED) == ByteAt(old(slab.ram.View()), a + DESTROYED)
  {
    hide SlabWorld.Valid, LiveSame, SameOutside, ByteAt, FreshHeader;
    ghost var m := slab.ram.View();
    slab.InBounds(c);
    CreatedFlag(m, a, typeId, id);
    CreatedFields(m, a, typeId, id);
    WriteField(slab, c, a, 0, typeId + U32);
    ghost var m1 := slab.ram.View();
    WriteField(slab, c, a, 1, 0);
    ghost var m2 := slab.ram.View();
    WriteField(slab, c, a, 2, id);
    var w := slab.ram.Load(a / 8 + 3);
    ghost var m3 := slab.ram.View();
    WriteField(slab, c, a, 3, w - w % U32);
    LiveSameAgain(m, m1, m2, slab.caches, {a});
    LiveSameAgain(m, m2, m3, slab.caches, {a});
    LiveSameAgain(m, m3, slab.ram.View(), slab.caches, {a});
  }

  method WriteField(slab: SlabWorld, c: nat, a: nat, k: nat, v: Word)
    requires slab.Valid() && c in slab.caches && a in slab.caches[c].live && a !in slab.caches
    requires OBJECT_HEADER <= slab.caches[c].objSize && k < 4
    modifies slab.ram.cells
    ensures slab.Valid() && a / 8 + k < slab.ram.cells.Length && slab.ram.View() == Put(old(slab.ram.View()), a / 8 + k, v)
    ensures LiveSame(old(slab.ram.View()), slab.ram.View(), slab.caches, {a})
  {
    hide SlabWorld.Valid, LiveSame, SameOutside;
    slab.InBounds(c);
    slab.WriteObject(c, a, a / 8 + k, v);
  }

  /** `obj->destroyed = true`. */
  method MarkDestroyed(slab: SlabWorld, c: nat, a: nat)
    requires slab.Valid() && c in slab.caches && a in slab.caches[c].live && a !in slab.caches
    requires OBJECT_HEADER <= slab.caches[c].objSize
    modifies slab.ram.cells
    ensures slab.Valid() && ByteAt(slab.ram.View(), a + DESTROYED) == 1
  {
    hide SlabWorld.Valid, LiveSame, SameOutside, ByteAt, Patched;
    slab.InBounds(c);
    ghost var m := slab.ram.View();
    assert (a + DESTROYED) / 8 == a / 8 + 3;
    PatchedBytes(m, a + DESTROYED, 1);
    var w := slab.ram.Load(a / 8 + 3);
    WriteField(slab, c, a, 3, Patched(w, a + DESTROYED, 1));
  }

  /**
   An object is destroyed and its type creates another one. The new object has the memory of the old one, and its `destroyed`
   flag is already set, so its own destruction will never begin.
   */
  method Recycle(slab: SlabWorld, c: nat, a: nat, typeId: nat, id: Word) returns (b: nat)
    requires slab.Valid() && c in slab.caches && c != slab.meta && a in slab.caches[c].live
    requires OBJECT_HEADER <= slab.caches[c].objSize && typeId < U32
    modifies slab.pmm`freeFrames, slab.pmm`lastFreeIndex, slab.pmm`free, slab.pmm.bitmap, slab.ram.cells, slab`caches, slab`owner
    ensures slab.Valid() && b == a && ByteAt(slab.ram.View(), b + 28) == 1
  {
    hide SlabWorld.Valid, LiveSame, SameOutside, ByteAt, PagesTaken, Pushed;
    Apart(slab, c, a);
    MarkDestroyed(slab, c, a);
    ghost var m := slab.ram.View();
    FreeListFlag(m, c, a);
    slab.Free(c, a);
    b := slab.Alloc(c);
    ObjectStaysOut(slab, c, a);
    InitHeader(slab, c, b, typeId, id);
  }

  lemma Apart(slab: SlabWorld, c: nat, a: nat)
    requires slab.Valid() && c in slab.caches && c != slab.meta && a in slab.caches[c].live && OBJECT_HEADER <= slab.caches[c].objSize
    ensures a !in slab.caches && a % 8 == 0 && a / 8 + 3 < slab.ram.cells.Length && a < U64 && c / 8 + 2 < slab.ram.cells.Length
    ensures c / 8 + 2 < a / 8 || a / 8 + 3 < c / 8 + 2
  {
    hide WorldOk;
    slab.IsWorld();
    slab.InBounds(c);
    OwnObject(slab.ram.View(), slab.caches, slab.owner, slab.meta, c, a);
    ObjectClearOfStructs(slab.ram.View(), slab.caches, slab.owner, slab.meta, c, a, c);
    StructPlace(slab.ram.View(), slab.caches, slab.owner, slab.meta, c);
  }

  lemma ObjectStaysOut(slab: SlabWorld, c: nat, a: nat)
    requires slab.Valid() && c in slab.caches && c != slab.meta && a in slab.caches[c].live
    ensures a !in slab.caches
  {
    hide WorldOk;
    slab.IsWorld();
    OwnObject(slab.ram.View(), slab.caches, slab.owner, slab.meta, c, a);
  }
}
