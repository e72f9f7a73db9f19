/**
 The slab allocator of `base/mm/slab.c`. Cache structures, slab headers and free-list nodes all live in physical memory;
 the structure of every cache but the bootstrap one is itself an object of the bootstrap cache.
 */
module Slab {
  import opened Machine
  import opened PhysFrame

  /** `sizeof(frame_t)`, the header of a slab page. */
  const FRAME_HEADER := 16

  /** `sizeof(slab_cache_t)`: obj_size, slabs, free_objects.head and lock, one word each. */
  const CACHE_STRUCT := 32

  // Carving a page into objects

  /** The addresses `slab_grow` turns into free nodes, from `ptr` on. */
  function Carve(ptr: nat, end: nat, size: nat): (objs: seq<nat>)
    requires 0 < size
    decreases end - ptr
  {
    if ptr + size <= end then [ptr] + Carve(ptr + size, end, size) else []
  }

  /** Carved objects lie inside the page and at least `size` bytes apart. */
  lemma {:induction false} CarveSpaced(ptr: nat, end: nat, size: nat)
    requires 0 < size
    ensures forall i :: 0 <= i < |Carve(ptr, end, size)| ==> ptr <= Carve(ptr, end, size)[i] && Carve(ptr, end, size)[i] + size <= end
    ensures forall i, j :: 0 <= i < j < |Carve(ptr, end, size)| ==> Carve(ptr, end, size)[i] + size <= Carve(ptr, end, size)[j]
    ensures ptr % 8 == 0 && size % 8 == 0 ==> forall i :: 0 <= i < |Carve(ptr, end, size)| ==> Carve(ptr, end, size)[i] % 8 == 0
    decreases end - ptr
  {
    if ptr + size <= end {
      CarveSpaced(ptr + size, end, size);
    }
  }

  /** A page yields floor((end - ptr) / size) objects. */
  lemma {:induction false} CarveCount(ptr: nat, end: nat, size: nat)
    requires 0 < size && ptr <= end
    ensures |Carve(ptr, end, size)| == (end - ptr) / size
    decreases end - ptr
  {
    if ptr + size <= end {
      CarveCount(ptr + size, end, size);
      QuotientStep(end - ptr, size);
    } else {
      SmallQuotient(end - ptr, size);
    }
  }

  lemma QuotientStep(n: nat, d: nat)
    requires 0 < d <= n
    ensures n / d == (n - d) / d + 1
  {
    assert n == (n - d) + d;
    var q := (n - d) / d;
    assert n - d == q * d + (n - d) % d;
    assert n == (q + 1) * d + (n - d) % d;
    UniqueQuotient(n, d, q + 1, (n - d) % d);
  }

  lemma SmallQuotient(n: nat, d: nat)
    requires n < d
    ensures n / d == 0
  {
    UniqueQuotient(n, d, 0, n);
  }

  function PageObjects(p: nat, size: nat): seq<nat>
    requires 0 < size
  {
    Carve(p * PAGE_SIZE + FRAME_HEADER, (p + 1) * PAGE_SIZE, size)
  }

  /** `a` is an object carved from one of the pages `slabs`. */
  predicate IsObject(size: nat, slabs: seq<nat>, a: nat)
    requires 0 < size
  {
    a / PAGE_SIZE in slabs && a in PageObjects(a / PAGE_SIZE, size)
  }

  lemma ObjectInPage(size: nat, slabs: seq<nat>, a: nat)
    requires 0 < size && size % 8 == 0 && IsObject(size, slabs, a)
    ensures var p := a / PAGE_SIZE;
      p in slabs && p * PAGE_SIZE + FRAME_HEADER <= a && a + size <= (p + 1) * PAGE_SIZE && a % 8 == 0
  {
    hide Carve;
    var p := a / PAGE_SIZE;
    var objs := PageObjects(p, size);
    CarveSpaced(p * PAGE_SIZE + FRAME_HEADER, (p + 1) * PAGE_SIZE, size);
    var i :| 0 <= i < |objs| && objs[i] == a;
  }

  /** Distinct objects of one cache do not overlap. */
  lemma ObjectsApart(size: nat, slabs: seq<nat>, a: nat, b: nat)
    requires 0 < size && size % 8 == 0 && IsObject(size, slabs, a) && IsObject(size, slabs, b) && a != b
    ensures a + size <= b || b + size <= a
  {
    hide Carve;
    ObjectInPage(size, slabs, a);
    ObjectInPage(size, slabs, b);
    var p := a / PAGE_SIZE;
    if p == b / PAGE_SIZE {
      var objs := PageObjects(p, size);
      CarveSpaced(p * PAGE_SIZE + FRAME_HEADER, (p + 1) * PAGE_SIZE, size);
      var i :| 0 <= i < |objs| && objs[i] == a;
      var j :| 0 <= j < |objs| && objs[j] == b;
      assert i < j || j < i;
    }
  }

  /** One cache: its object size, slab pages and free list in memory order, and the objects handed out. */
  datatype Cache = Cache(objSize: nat, slabs: seq<nat>, free: seq<nat>, live: set<nat>)

  function FreePtr(free: seq<nat>, i: nat): nat {
    if i < |free| then free[i] else 0
  }

  function SlabPtr(slabs: seq<nat>, i: nat): nat {
    if i < |slabs| then slabs[i] * PAGE_SIZE else 0
  }

  lemma PtrShift(x: nat, s: seq<nat>, i: nat)
    ensures SlabPtr([x] + s, i + 1) == SlabPtr(s, i) && FreePtr([x] + s, i + 1) == FreePtr(s, i)
  {
  }

  /** The lists of cache `k`, whose structure is at address `c`, as memory `m` has them. */
  ghost predicate InMemory(m: seq<Word>, c: nat, k: Cache) {
    && Ld(m, c / 8) == k.objSize && Ld(m, c / 8 + 1) == SlabPtr(k.slabs, 0) && Ld(m, c / 8 + 2) == FreePtr(k.free, 0)
    && (forall i :: 0 <= i < |k.slabs| ==>
          Ld(m, k.slabs[i] * PAGE_WORDS) == k.slabs[i] * PAGE_SIZE && Ld(m, k.slabs[i] * PAGE_WORDS + 1) == SlabPtr(k.slabs, i + 1))
    && forall i :: 0 <= i < |k.free| ==> Ld(m, k.free[i] / 8) == FreePtr(k.free, i + 1)
  }

  /** Free and live objects are disjoint, free ones listed once, and together they are exactly the carved objects. */
  ghost predicate Accounted(k: Cache) {
    && 8 <= k.objSize && k.objSize % 8 == 0
    && (forall i, j :: 0 <= i < j < |k.free| ==> k.free[i] != k.free[j])
    && (forall i, j :: 0 <= i < j < |k.slabs| ==> k.slabs[i] != k.slabs[j])
    && (forall a :: a in k.free ==> a !in k.live)
    && (forall a :: IsObject(k.objSize, k.slabs, a) <==> a in k.free || a in k.live)
  }

  /** All caches, the page owners, and the bootstrap cache at `meta`, whose objects hold the other cache structures. */
  ghost predicate WorldOk(m: seq<Word>, caches: map<nat, Cache>, owner: map<nat, nat>, meta: nat) {
    && (forall c :: c in caches ==> c % 8 == 0 && InMemory(m, c, caches[c]) && Accounted(caches[c]))
    && (forall c, p :: c in caches ==> (p in caches[c].slabs <==> p in owner && owner[p] == c))
    && (forall p :: p in owner ==> owner[p] in caches)
    && (caches != map[] ==> meta in caches && caches[meta].objSize == CACHE_STRUCT)
    && meta / PAGE_SIZE !in owner && meta % PAGE_SIZE + CACHE_STRUCT <= PAGE_SIZE
    && forall c :: c in caches && c != meta ==> c in caches[meta].live
  }

  lemma InMemoryIsLocal(m: seq<Word>, m': seq<Word>, c: nat, k: Cache)
    requires InMemory(m, c, k)
    requires Ld(m', c / 8) == Ld(m, c / 8) && Ld(m', c / 8 + 1) == Ld(m, c / 8 + 1) && Ld(m', c / 8 + 2) == Ld(m, c / 8 + 2)
    requires forall i :: 0 <= i < |k.slabs| ==>
      Ld(m', k.slabs[i] * PAGE_WORDS) == Ld(m, k.slabs[i] * PAGE_WORDS) && Ld(m', k.slabs[i] * PAGE_WORDS + 1) == Ld(m, k.slabs[i] * PAGE_WORDS + 1)
    requires forall i :: 0 <= i < |k.free| ==> Ld(m', k.free[i] / 8) == Ld(m, k.free[i] / 8)
    ensures InMemory(m', c, k)
  {
    hide Ld;
  }

  /** A cache structure lies in one page: the bootstrap one in a page no cache owns, the others in a bootstrap slab. */
  lemma StructPlace(m: seq<Word>, caches: map<nat, Cache>, owner: map<nat, nat>, meta: nat, c: nat)
    requires WorldOk(m, caches, owner, meta) && c in caches
    ensures var p := c / PAGE_SIZE;
      && c % 8 == 0 && c + CACHE_STRUCT <= (p + 1) * PAGE_SIZE
      && if c == meta then p !in owner
         else p in owner && owner[p] == meta && p * PAGE_SIZE + FRAME_HEADER <= c && IsObject(CACHE_STRUCT, caches[meta].slabs, c)
  {
    hide IsObject, InMemory;
    if c != meta {
      assert c in caches[meta].live && Accounted(caches[meta]);
      ObjectInPage(CACHE_STRUCT, caches[meta].slabs, c);
    }
  }

  /** No two cache structures share a word. */
  lemma StructsApart(m: seq<Word>, caches: map<nat, Cache>, owner: map<nat, nat>, meta: nat, c: nat, d: nat)
    requires WorldOk(m, caches, owner, meta) && c in caches && d in caches && c != d
    ensures c + 32 <= d || d + 32 <= c
  {
    hide IsObject, InMemory, Accounted;
    StructPlace(m, caches, owner, meta, c);
    StructPlace(m, caches, owner, meta, d);
    if c != meta && d != meta {
      ObjectsApart(CACHE_STRUCT, caches[meta].slabs, c, d);
    } else {
      assert c / PAGE_SIZE != d / PAGE_SIZE;
    }
  }

  /** Where an object of cache `c` lies. */
  lemma ObjectPlace(m: seq<Word>, caches: map<nat, Cache>, owner: map<nat, nat>, meta: nat, c: nat, a: nat)
    requires WorldOk(m, caches, owner, meta) && c in caches && (a in caches[c].free || a in caches[c].live)
    ensures var p, k := a / PAGE_SIZE, caches[c];
      && 8 <= k.objSize && k.objSize % 8 == 0 && IsObject(k.objSize, k.slabs, a)
      && p in owner && owner[p] == c && a % 8 == 0
      && p * PAGE_SIZE + FRAME_HEADER <= a && a + k.objSize <= (p + 1) * PAGE_SIZE
  {
    hide IsObject, InMemory;
    assert Accounted(caches[c]);
    ObjectInPage(caches[c].objSize, caches[c].slabs, a);
  }

  /** Objects of any two caches, or two objects of one, do not overlap. */
  lemma AnyObjectsApart(m: seq<Word>, caches: map<nat, Cache>, owner: map<nat, nat>, meta: nat, c: nat, a: nat, d: nat, b: nat)
    requires WorldOk(m, caches, owner, meta) && c in caches && d in caches && a != b
    requires a in caches[c].free || a in caches[c].live
    requires b in caches[d].free || b in caches[d].live
    ensures a + caches[c].objSize <= b || b + caches[d].objSize <= a
  {
    ObjectPlace(m, caches, owner, meta, c, a);
    ObjectPlace(m, caches, owner, meta, d, b);
    hide IsObject, InMemory, Accounted, WorldOk;
    if a / PAGE_SIZE == b / PAGE_SIZE {
      ObjectsApart(caches[c].objSize, caches[c].slabs, a, b);
    }
  }

  /** An object that is not itself a cache structure overlaps none. */
  lemma ObjectClearOfStructs(m: seq<Word>, caches: map<nat, Cache>, owner: map<nat, nat>, meta: nat, c: nat, a: nat, d: nat)
    requires WorldOk(m, caches, owner, meta) && c in caches && d in caches && a !in caches
    requires a in caches[c].free || a in caches[c].live
    ensures a + caches[c].objSize <= d || d + CACHE_STRUCT <= a
  {
    hide IsObject, InMemory, Accounted;
    ObjectPlace(m, caches, owner, meta, c, a);
    StructPlace(m, caches, owner, meta, d);
    if d != meta {
      AnyObjectsApart(m, caches, owner, meta, c, a, meta, d);
    } else {
      assert a / PAGE_SIZE != d / PAGE_SIZE;
    }
  }

  // Writing to memory

  /** Word `w` belongs to no list of cache `d`: neither its structure, nor a slab header, nor the link of a free node. */
  ghost predicate Clear(w: nat, d: nat, k: Cache) {
    && w != d / 8 && w != d / 8 + 1 && w != d / 8 + 2
    && (forall i :: 0 <= i < |k.slabs| ==> w != k.slabs[i] * PAGE_WORDS && w != k.slabs[i] * PAGE_WORDS + 1)
    && forall i :: 0 <= i < |k.free| ==> w != k.free[i] / 8
  }

  lemma WriteClear(m: seq<Word>, w: nat, v: Word, d: nat, k: Cache)
    requires InMemory(m, d, k) && Clear(w, d, k) && w < |m|
    ensures InMemory(Put(m, w, v), d, k)
  {
    InMemoryIsLocal(m, Put(m, w, v), d, k);
  }

  /** A word inside a live object that is no cache structure is clear of every cache. */
  lemma LiveWordClear(m: seq<Word>, caches: map<nat, Cache>, owner: map<nat, nat>, meta: nat, c: nat, a: nat, w: nat, d: nat)
    requires WorldOk(m, caches, owner, meta) && c in caches && d in caches && a in caches[c].live && a !in caches
    requires a / 8 <= w < (a + caches[c].objSize) / 8
    ensures Clear(w, d, caches[d])
  {
    hide IsObject, InMemory, Accounted, WorldOk;
    ObjectPlace(m, caches, owner, meta, c, a);
    StructPlace(m, caches, owner, meta, d);
    ObjectClearOfStructs(m, caches, owner, meta, c, a, d);
    forall i | 0 <= i < |caches[d].free|
      ensures w != caches[d].free[i] / 8
    {
      var b := caches[d].free[i];
      LiveIsNotFree(m, caches, owner, meta, c, a, d, b);
      AnyObjectsApart(m, caches, owner, meta, c, a, d, b);
      ObjectPlace(m, caches, owner, meta, d, b);
    }
  }

  lemma LiveIsNotFree(m: seq<Word>, caches: map<nat, Cache>, owner: map<nat, nat>, meta: nat, c: nat, a: nat, d: nat, b: nat)
    requires WorldOk(m, caches, owner, meta) && c in caches && d in caches && a in caches[c].live && b in caches[d].free
    ensures a != b
  {
    ObjectPlace(m, caches, owner, meta, c, a);
    ObjectPlace(m, caches, owner, meta, d, b);
    assert Accounted(caches[c]);
  }

  /** A word of the structure of cache `c` is clear of every other cache, and of all headers and free nodes. */
  lemma StructWordClear(m: seq<Word>, caches: map<nat, Cache>, owner: map<nat, nat>, meta: nat, c: nat, w: nat, d: nat)
    requires WorldOk(m, caches, owner, meta) && c in caches && d in caches && c / 8 <= w < c / 8 + 4
    ensures c != d ==> Clear(w, d, caches[d])
    ensures forall i :: 0 <= i < |caches[d].slabs| ==> w != caches[d].slabs[i] * PAGE_WORDS && w != caches[d].slabs[i] * PAGE_WORDS + 1
    ensures forall i :: 0 <= i < |caches[d].free| ==> w != caches[d].free[i] / 8
  {
    hide IsObject, InMemory, Accounted;
    StructPlace(m, caches, owner, meta, c);
    StructPlace(m, caches, owner, meta, d);
    if c != d {
      StructsApart(m, caches, owner, meta, c, d);
    }
    forall i | 0 <= i < |caches[d].slabs|
      ensures w != caches[d].slabs[i] * PAGE_WORDS && w != caches[d].slabs[i] * PAGE_WORDS + 1
    {
      assert caches[d].slabs[i] in owner;
    }
    forall i | 0 <= i < |caches[d].free|
      ensures w != caches[d].free[i] / 8
    {
      var b := caches[d].free[i];
      ObjectPlace(m, caches, owner, meta, d, b);
      if c != meta {
        LiveIsNotFree(m, caches, owner, meta, meta, c, d, b);
        AnyObjectsApart(m, caches, owner, meta, meta, c, d, b);
      } else {
        assert c / PAGE_SIZE != b / PAGE_SIZE;
      }
    }
  }

  /** Words of live objects that are no cache structures, other than `but`, are the same in `m'` as in `m`. */
  ghost predicate LiveSame(m: seq<Word>, m': seq<Word>, caches: map<nat, Cache>, but: set<nat>) {
    && |m'| == |m|
    && forall c, a, w: nat {:trigger Payload(caches, c, a, w)} ::
         Payload(caches, c, a, w) && a !in but && w < |m| ==> m'[w] == m[w]
  }

  /** Word `w` lies in live object `a` of cache `c`, which is not a cache structure. */
  ghost predicate Payload(caches: map<nat, Cache>, c: nat, a: nat, w: nat) {
    c in caches && a in caches[c].live && a !in caches && a / 8 <= w < (a + caches[c].objSize) / 8
  }

  /** Memory after writing a free node at `a` in front of the list of cache `c`. */
  ghost function Pushed(m: seq<Word>, c: nat, a: nat): (r: seq<Word>)
    requires c / 8 + 2 < |m| && a / 8 < |m| && a < U64
    ensures |r| == |m|
  {
    Put(Put(m, a / 8, Ld(m, c / 8 + 2)), c / 8 + 2, a)
  }

  // Giving an object back

  ghost function Given(k: Cache, a: nat): Cache {
    k.(free := [a] + k.free, live := k.live - {a})
  }

  lemma GivenAccounted(k: Cache, a: nat)
    requires Accounted(k) && a in k.live
    ensures Accounted(Given(k, a))
  {
    hide IsObject;
  }

  /** The nodes of a free list link one another, the last one nothing. */
  ghost predicate FreeLinked(m: seq<Word>, free: seq<nat>) {
    forall i :: 0 <= i < |free| ==> Ld(m, free[i] / 8) == FreePtr(free, i + 1)
  }

  lemma LinkedInFront(m: seq<Word>, r: seq<Word>, free: seq<nat>, a: nat)
    requires FreeLinked(m, free) && Ld(r, a / 8) == FreePtr(free, 0)
    requires forall i :: 0 <= i < |free| ==> Ld(r, free[i] / 8) == Ld(m, free[i] / 8)
    ensures FreeLinked(r, [a] + free)
  {
    forall i | 0 <= i < |[a] + free|
      ensures Ld(r, ([a] + free)[i] / 8) == FreePtr([a] + free, i + 1)
    {
      if i > 0 {
        assert ([a] + free)[i] == free[i - 1];
        assert Ld(m, free[i - 1] / 8) == FreePtr(free, i);
      }
    }
  }

  /** The list head now names a node that links the old list. */
  lemma HeadMoved(m: seq<Word>, c: nat, k: Cache, a: nat)
    requires InMemory(m, c, k) && a < U64 && c / 8 + 2 < |m| && Ld(m, a / 8) == FreePtr(k.free, 0) && a / 8 != c / 8 + 2
    requires forall i :: 0 <= i < |k.slabs| ==> c / 8 + 2 != k.slabs[i] * PAGE_WORDS && c / 8 + 2 != k.slabs[i] * PAGE_WORDS + 1
    requires forall i :: 0 <= i < |k.free| ==> c / 8 + 2 != k.free[i] / 8
    ensures InMemory(Put(m, c / 8 + 2, a), c, Given(k, a))
  {
    var r, free := Put(m, c / 8 + 2, a), [a] + k.free;
    assert Ld(r, c / 8) == Ld(m, c / 8) && Ld(r, c / 8 + 1) == Ld(m, c / 8 + 1) && Ld(r, c / 8 + 2) == a == FreePtr(free, 0);
    assert Ld(r, a / 8) == Ld(m, a / 8);
    assert forall i :: 0 <= i < |k.free| ==> Ld(r, k.free[i] / 8) == Ld(m, k.free[i] / 8);
    SlabsSpared(m, c / 8 + 2, a, k.slabs);
    LinkedInFront(m, r, k.free, a);
    hide Put, Ld, SlabPtr, FreePtr;
  }

  lemma SlabsSpared(m: seq<Word>, w: nat, v: Word, slabs: seq<nat>)
    requires w < |m| && forall i :: 0 <= i < |slabs| ==> w != slabs[i] * PAGE_WORDS && w != slabs[i] * PAGE_WORDS + 1
    ensures forall i :: 0 <= i < |slabs| ==>
      Ld(Put(m, w, v), slabs[i] * PAGE_WORDS) == Ld(m, slabs[i] * PAGE_WORDS)
      && Ld(Put(m, w, v), slabs[i] * PAGE_WORDS + 1) == Ld(m, slabs[i] * PAGE_WORDS + 1)
  {
  }

  /** The node is written in front of the list. */
  lemma GivenInMemory(m: seq<Word>, c: nat, k: Cache, a: nat)
    requires InMemory(m, c, k) && Clear(a / 8, c, k) && a < U64 && c / 8 + 2 < |m| && a / 8 < |m|
    requires forall i :: 0 <= i < |k.slabs| ==> c / 8 + 2 != k.slabs[i] * PAGE_WORDS && c / 8 + 2 != k.slabs[i] * PAGE_WORDS + 1
    requires forall i :: 0 <= i < |k.free| ==> c / 8 + 2 != k.free[i] / 8
    ensures InMemory(Pushed(m, c, a), c, Given(k, a))
  {
    assert Ld(m, c / 8 + 2) == FreePtr(k.free, 0) && a / 8 != c / 8 + 2;
    hide InMemory, Clear, FreePtr, Given;
    WriteClear(m, a / 8, Ld(m, c / 8 + 2), c, k);
    HeadMoved(Put(m, a / 8, Ld(m, c / 8 + 2)), c, k, a);
  }

  ghost predicate CanGive(m: seq<Word>, caches: map<nat, Cache>, owner: map<nat, nat>, meta: nat, c: nat, a: nat) {
    WorldOk(m, caches, owner, meta) && c in caches && a in caches[c].live && a !in caches
  }

  lemma GiveKeepsWorld(m: seq<Word>, caches: map<nat, Cache>, owner: map<nat, nat>, meta: nat, c: nat, a: nat)
    requires CanGive(m, caches, owner, meta, c, a) && a < U64 && c / 8 + 2 < |m| && a / 8 < |m|
    ensures WorldOk(Pushed(m, c, a), caches[c := Given(caches[c], a)], owner, meta)
    ensures LiveSame(m, Pushed(m, c, a), caches, {a})
  {
    hide IsObject, Accounted, Clear, InMemory;
    var m1 := Put(m, a / 8, Ld(m, c / 8 + 2));
    var m2 := Put(m1, c / 8 + 2, a);
    var all := caches[c := Given(caches[c], a)];
    ObjectPlace(m, caches, owner, meta, c, a);
    forall d | d in caches
      ensures InMemory(m2, d, all[d]) && Accounted(all[d])
    {
      LiveWordClear(m, caches, owner, meta, c, a, a / 8, d);
      StructWordClear(m, caches, owner, meta, c, c / 8 + 2, d);
      if d == c {
        GivenInMemory(m, c, caches[c], a);
        GivenAccounted(caches[c], a);
      } else {
        WriteClear(m, a / 8, Ld(m, c / 8 + 2), d, caches[d]);
        WriteClear(m1, c / 8 + 2, a, d, caches[d]);
      }
    }
    GiveTouches(m, caches, owner, meta, c, a);
  }

  lemma GiveTouches(m: seq<Word>, caches: map<nat, Cache>, owner: map<nat, nat>, meta: nat, c: nat, a: nat)
    requires CanGive(m, caches, owner, meta, c, a) && a < U64 && c / 8 + 2 < |m| && a / 8 < |m|
    ensures LiveSame(m, Pushed(m, c, a), caches, {a})
  {
    hide IsObject, Accounted, Clear, InMemory, WorldOk;
    forall d, b: nat, w: nat | Payload(caches, d, b, w) && b != a
      ensures w != a / 8 && w != c / 8 + 2
    {
      ObjectPlace(m, caches, owner, meta, c, a);
      AnyObjectsApart(m, caches, owner, meta, c, a, d, b);
      ObjectPlace(m, caches, owner, meta, d, b);
      ObjectClearOfStructs(m, caches, owner, meta, d, b, c);
      StructPlace(m, caches, owner, meta, c);
    }
  }

  // Taking the head of the free list

  ghost function Taken(k: Cache): Cache
    requires k.free != []
  {
    k.(free := k.free[1..], live := k.live + {k.free[0]})
  }

  lemma TakenAccounted(k: Cache)
    requires Accounted(k) && k.free != []
    ensures Accounted(Taken(k)) && k.free[0] !in k.live
  {
    hide IsObject;
    assert k.free[0] in k.free;
    forall a
      ensures a in k.free || a in k.live <==> a in Taken(k).free || a in Taken(k).live
    {
      if a in k.free {
        var i :| 0 <= i < |k.free| && k.free[i] == a;
        if i > 0 {
          assert k.free[1..][i - 1] == a;
        }
      }
    }
  }

  lemma TakenInMemory(m: seq<Word>, c: nat, k: Cache)
    requires InMemory(m, c, k) && k.free != [] && c / 8 + 2 < |m|
    requires forall i :: 0 <= i < |k.slabs| ==> c / 8 + 2 != k.slabs[i] * PAGE_WORDS && c / 8 + 2 != k.slabs[i] * PAGE_WORDS + 1
    requires forall i :: 0 <= i < |k.free| ==> c / 8 + 2 != k.free[i] / 8
    ensures InMemory(Put(m, c / 8 + 2, Ld(m, k.free[0] / 8)), c, Taken(k))
  {
    hide Ld, Put, SlabPtr, FreePtr;
    var r := Put(m, c / 8 + 2, Ld(m, k.free[0] / 8));
    var rest := k.free[1..];
    assert k.free == [k.free[0]] + rest;
    LdUpdate(m, c / 8 + 2, Ld(m, k.free[0] / 8));
    PtrShift(k.free[0], rest, 0);
    forall i | 0 <= i < |rest|
      ensures Ld(r, rest[i] / 8) == FreePtr(rest, i + 1)
    {
      PtrShift(k.free[0], rest, i + 1);
      assert rest[i] == k.free[i + 1];
      assert Ld(m, k.free[i + 1] / 8) == FreePtr(k.free, i + 2);
    }
  }

  lemma TakeKeepsWorld(m: seq<Word>, caches: map<nat, Cache>, owner: map<nat, nat>, meta: nat, c: nat)
    requires WorldOk(m, caches, owner, meta) && c in caches && caches[c].free != [] && c / 8 + 2 < |m|
    ensures WorldOk(Put(m, c / 8 + 2, Ld(m, caches[c].free[0] / 8)), caches[c := Taken(caches[c])], owner, meta)
    ensures LiveSame(m, Put(m, c / 8 + 2, Ld(m, caches[c].free[0] / 8)), caches, {})
  {
    hide IsObject, Accounted, Clear, InMemory;
    var a := caches[c].free[0];
    var m1 := Put(m, c / 8 + 2, Ld(m, a / 8));
    var all := caches[c := Taken(caches[c])];
    forall d | d in caches
      ensures InMemory(m1, d, all[d]) && Accounted(all[d])
    {
      StructWordClear(m, caches, owner, meta, c, c / 8 + 2, d);
      if d == c {
        TakenInMemory(m, c, caches[c]);
        TakenAccounted(caches[c]);
      } else {
        WriteClear(m, c / 8 + 2, Ld(m, a / 8), d, caches[d]);
      }
    }
    StructWriteTouches(m, caches, owner, meta, c, c / 8 + 2, Ld(m, a / 8));
  }

  lemma StructWriteTouches(m: seq<Word>, caches: map<nat, Cache>, owner: map<nat, nat>, meta: nat, c: nat, k: nat, v: Word)
    requires WorldOk(m, caches, owner, meta) && c in caches && c / 8 <= k < c / 8 + 4 && k < |m|
    ensures LiveSame(m, Put(m, k, v), caches, {})
  {
    hide IsObject, Accounted, Clear, InMemory, WorldOk;
    forall d, b: nat, w: nat | Payload(caches, d, b, w)
      ensures w != k
    {
      ObjectPlace(m, caches, owner, meta, d, b);
      ObjectClearOfStructs(m, caches, owner, meta, d, b, c);
      StructPlace(m, caches, owner, meta, c);
    }
  }

  // Growing a cache by page `p`

  function Reversed(s: seq<nat>): (r: seq<nat>)
    ensures |r| == |s|
  {
    if s == [] then [] else [s[|s| - 1]] + Reversed(s[..|s| - 1])
  }

  lemma {:induction false} ReversedElements(s: seq<nat>)
    ensures forall x :: x in s <==> x in Reversed(s)
    ensures (forall i, j :: 0 <= i < j < |s| ==> s[i] != s[j]) ==> forall i, j :: 0 <= i < j < |s| ==> Reversed(s)[i] != Reversed(s)[j]
  {
    if s != [] {
      var init, last := s[..|s| - 1], s[|s| - 1];
      ReversedElements(init);
      assert s == init + [last];
      assert forall i, j :: 0 <= i < j < |init| ==> init[i] == s[i] && init[j] == s[j];
      if forall i, j :: 0 <= i < j < |s| ==> s[i] != s[j] {
        assert last !in init;
      }
    }
  }

  /** Cache `k` with page `p` added and the objects `done` carved from it so far. */
  ghost function Partly(k: Cache, p: nat, done: seq<nat>): Cache {
    k.(slabs := [p] + k.slabs, free := Reversed(done) + k.free)
  }

  /** Page `p` is new to all caches. */
  ghost predicate FreshPage(owner: map<nat, nat>, meta: nat, p: nat) {
    p !in owner && p != meta / PAGE_SIZE && 0 < p
  }

  lemma FreshWordClear(m: seq<Word>, caches: map<nat, Cache>, owner: map<nat, nat>, meta: nat, p: nat, w: nat, d: nat)
    requires WorldOk(m, caches, owner, meta) && FreshPage(owner, meta, p) && p * PAGE_WORDS <= w < (p + 1) * PAGE_WORDS && d in caches
    ensures Clear(w, d, caches[d])
  {
    hide IsObject, InMemory, Accounted;
    StructPlace(m, caches, owner, meta, d);
    assert d / PAGE_SIZE != p;
    forall i | 0 <= i < |caches[d].slabs|
      ensures w != caches[d].slabs[i] * PAGE_WORDS && w != caches[d].slabs[i] * PAGE_WORDS + 1
    {
      assert caches[d].slabs[i] in owner;
    }
    forall i | 0 <= i < |caches[d].free|
      ensures w != caches[d].free[i] / 8
    {
      ObjectPlace(m, caches, owner, meta, d, caches[d].free[i]);
      assert caches[d].free[i] / PAGE_SIZE != p;
    }
  }

  /** The state of the carving loop of `slab_grow` on cache `c`, `m0` being memory before the call. */
  ghost predicate Growing(m0: seq<Word>, m: seq<Word>, caches: map<nat, Cache>, owner: map<nat, nat>, meta: nat, c: nat, p: nat,
                          done: seq<nat>, ptr: nat)
    requires c in caches && 0 < caches[c].objSize
  {
    && WorldOk(m0, caches, owner, meta) && FreshPage(owner, meta, p) && |m| == |m0| && (p + 1) * PAGE_WORDS <= |m|
    && (forall d :: d in caches && d != c ==> InMemory(m, d, caches[d]))
    && InMemory(m, c, Partly(caches[c], p, done))
    && PageObjects(p, caches[c].objSize) == done + Carve(ptr, (p + 1) * PAGE_SIZE, caches[c].objSize)
  }

  ghost function HeaderWritten(m: seq<Word>, c: nat, p: nat): seq<Word>
    requires (p + 1) * PAGE_WORDS <= |m| && c / 8 + 2 < |m| && p * PAGE_SIZE < U64
  {
    Put(Put(Put(m, p * PAGE_WORDS, p * PAGE_SIZE), p * PAGE_WORDS + 1, Ld(m, c / 8 + 1)), c / 8 + 1, p * PAGE_SIZE)
  }

  lemma SlabHead(m: seq<Word>, c: nat, k: Cache)
    requires InMemory(m, c, k)
    ensures Ld(m, c / 8 + 1) == SlabPtr(k.slabs, 0)
  {
  }

  lemma HeaderInMemory(m: seq<Word>, c: nat, k: Cache, p: nat)
    requires InMemory(m, c, k) && (p + 1) * PAGE_WORDS <= |m| && c / 8 + 2 < |m| && p * PAGE_SIZE < U64
    requires Clear(p * PAGE_WORDS, c, k) && Clear(p * PAGE_WORDS + 1, c, k) && p !in k.slabs
    requires forall i :: 0 <= i < |k.slabs| ==> c / 8 + 1 != k.slabs[i] * PAGE_WORDS && c / 8 + 1 != k.slabs[i] * PAGE_WORDS + 1
    requires forall i :: 0 <= i < |k.free| ==> c / 8 + 1 != k.free[i] / 8
    ensures InMemory(HeaderWritten(m, c, p), c, Partly(k, p, []))
  {
    hide InMemory;
    var m1 := Put(m, p * PAGE_WORDS, p * PAGE_SIZE);
    var m2 := Put(m1, p * PAGE_WORDS + 1, Ld(m, c / 8 + 1));
    var r := HeaderWritten(m, c, p);
    SlabHead(m, c, k);
    WriteClear(m, p * PAGE_WORDS, p * PAGE_SIZE, c, k);
    WriteClear(m1, p * PAGE_WORDS + 1, Ld(m, c / 8 + 1), c, k);
    HeaderLinked(m2, r, c, k, p);
  }

  lemma LdUpdate(m: seq<Word>, k: nat, v: Word)
    requires k < |m|
    ensures forall x: nat :: Ld(Put(m, k, v), x) == if x == k then v else Ld(m, x)
  {
    var r := Put(m, k, v);
    forall x: nat
      ensures Ld(r, x) == if x == k then v else Ld(m, x)
    {
      assert |r| == |m|;
    }
  }

  lemma HeaderLinked(m2: seq<Word>, r: seq<Word>, c: nat, k: Cache, p: nat)
    requires InMemory(m2, c, k) && c / 8 + 1 < |m2| && p * PAGE_SIZE < U64 && r == Put(m2, c / 8 + 1, p * PAGE_SIZE)
    requires c / 8 + 1 != p * PAGE_WORDS && c / 8 + 1 != p * PAGE_WORDS + 1
    requires Ld(m2, p * PAGE_WORDS) == p * PAGE_SIZE && Ld(m2, p * PAGE_WORDS + 1) == SlabPtr(k.slabs, 0)
    requires forall i :: 0 <= i < |k.slabs| ==> c / 8 + 1 != k.slabs[i] * PAGE_WORDS && c / 8 + 1 != k.slabs[i] * PAGE_WORDS + 1
    requires forall i :: 0 <= i < |k.free| ==> c / 8 + 1 != k.free[i] / 8
    ensures InMemory(r, c, Partly(k, p, []))
  {
    hide Ld, Put, SlabPtr, FreePtr;
    LdUpdate(m2, c / 8 + 1, p * PAGE_SIZE);
    var slabs := [p] + k.slabs;
    assert Reversed([]) + k.free == k.free;
    forall i | 0 <= i < |slabs|
      ensures Ld(r, slabs[i] * PAGE_WORDS) == slabs[i] * PAGE_SIZE && Ld(r, slabs[i] * PAGE_WORDS + 1) == SlabPtr(slabs, i + 1)
    {
      PtrShift(p, k.slabs, i);
      if i > 0 {
        var q := k.slabs[i - 1];
        assert slabs[i] == q;
        assert Ld(m2, q * PAGE_WORDS) == q * PAGE_SIZE && Ld(m2, q * PAGE_WORDS + 1) == SlabPtr(k.slabs, i);
      }
    }
    forall i | 0 <= i < |k.free|
      ensures Ld(r, k.free[i] / 8) == FreePtr(k.free, i + 1)
    {
      assert Ld(m2, k.free[i] / 8) == FreePtr(k.free, i + 1);
    }
    assert SlabPtr(slabs, 0) == p * PAGE_SIZE by {
      FirstSlab(p, k.slabs);
    }
  }

  lemma FirstSlab(p: nat, slabs: seq<nat>)
    ensures SlabPtr([p] + slabs, 0) == p * PAGE_SIZE
  {
  }

  lemma GrowStarts(m: seq<Word>, caches: map<nat, Cache>, owner: map<nat, nat>, meta: nat, c: nat, p: nat)
    requires WorldOk(m, caches, owner, meta) && c in caches && 0 < caches[c].objSize && FreshPage(owner, meta, p)
    requires (p + 1) * PAGE_WORDS <= |m| && c / 8 + 2 < |m| && p * PAGE_SIZE < U64
    ensures Growing(m, HeaderWritten(m, c, p), caches, owner, meta, c, p, [], p * PAGE_SIZE + FRAME_HEADER)
  {
    hide IsObject, InMemory, Accounted, Clear, Carve;
    var m1 := Put(m, p * PAGE_WORDS, p * PAGE_SIZE);
    var m2 := Put(m1, p * PAGE_WORDS + 1, Ld(m, c / 8 + 1));
    forall d | d in caches
      ensures InMemory(HeaderWritten(m, c, p), d, if d == c then Partly(caches[c], p, []) else caches[d])
    {
      FreshWordClear(m, caches, owner, meta, p, p * PAGE_WORDS, d);
      FreshWordClear(m, caches, owner, meta, p, p * PAGE_WORDS + 1, d);
      StructWordClear(m, caches, owner, meta, c, c / 8 + 1, d);
      if d == c {
        HeaderInMemory(m, c, caches[c], p);
      } else {
        WriteClear(m, p * PAGE_WORDS, p * PAGE_SIZE, d, caches[d]);
        WriteClear(m1, p * PAGE_WORDS + 1, Ld(m, c / 8 + 1), d, caches[d]);
        WriteClear(m2, c / 8 + 1, p * PAGE_SIZE, d, caches[d]);
      }
    }
  }

  /** Where the next node and the nodes before it lie. */
  lemma NextNodePlace(k: Cache, p: nat, done: seq<nat>, ptr: nat)
    requires Accounted(k) && ptr + k.objSize <= (p + 1) * PAGE_SIZE
    requires PageObjects(p, k.objSize) == done + Carve(ptr, (p + 1) * PAGE_SIZE, k.objSize)
    ensures p * PAGE_SIZE + FRAME_HEADER <= ptr && ptr % 8 == 0
    ensures forall i :: 0 <= i < |done| ==> done[i] / PAGE_SIZE == p && done[i] / 8 != ptr / 8
  {
    hide IsObject;
    var objs := PageObjects(p, k.objSize);
    CarveSpaced(p * PAGE_SIZE + FRAME_HEADER, (p + 1) * PAGE_SIZE, k.objSize);
    assert objs[|done|] == ptr;
    forall i | 0 <= i < |done|
      ensures done[i] / PAGE_SIZE == p && done[i] / 8 != ptr / 8
    {
      assert objs[i] == done[i] && objs[i] + k.objSize <= ptr;
    }
  }

  lemma ClearOfPartly(w: nat, c: nat, k: Cache, p: nat, done: seq<nat>)
    requires Clear(w, c, k) && w != p * PAGE_WORDS && w != p * PAGE_WORDS + 1
    requires forall i :: 0 <= i < |done| ==> done[i] / 8 != w
    ensures Clear(w, c, Partly(k, p, done))
  {
    var free, slabs := Reversed(done) + k.free, [p] + k.slabs;
    ReversedElements(done);
    forall i | 0 <= i < |free|
      ensures w != free[i] / 8
    {
      if i < |done| {
        assert free[i] in Reversed(done);
      }
    }
    forall i | 0 <= i < |slabs|
      ensures w != slabs[i] * PAGE_WORDS && w != slabs[i] * PAGE_WORDS + 1
    {
      if i > 0 {
        assert slabs[i] == k.slabs[i - 1];
      }
    }
  }

  /** The node at `ptr` is clear of everything the growing cache has in memory. */
  lemma NextNodeClear(m0: seq<Word>, m: seq<Word>, caches: map<nat, Cache>, owner: map<nat, nat>, meta: nat, c: nat, p: nat,
                      done: seq<nat>, ptr: nat)
    requires c in caches && Accounted(caches[c]) && Growing(m0, m, caches, owner, meta, c, p, done, ptr)
    requires ptr + caches[c].objSize <= (p + 1) * PAGE_SIZE
    ensures p * PAGE_SIZE + FRAME_HEADER <= ptr && ptr % 8 == 0
    ensures Clear(ptr / 8, c, Partly(caches[c], p, done))
    ensures forall i :: 0 <= i < |done| ==> done[i] / PAGE_SIZE == p
  {
    NextNodePlace(caches[c], p, done, ptr);
    hide IsObject, InMemory, WorldOk, Clear, PageObjects, Carve;
    FreshWordClear(m0, caches, owner, meta, p, ptr / 8, c);
    ClearOfPartly(ptr / 8, c, caches[c], p, done);
  }

  /** One turn of the loop of `slab_grow`, as the growing cache sees it. */
  lemma NextNodeOwn(m0: seq<Word>, m: seq<Word>, caches: map<nat, Cache>, owner: map<nat, nat>, meta: nat, c: nat, p: nat,
                    done: seq<nat>, ptr: nat)
    requires c in caches && Accounted(caches[c]) && Growing(m0, m, caches, owner, meta, c, p, done, ptr)
    requires ptr + caches[c].objSize <= (p + 1) * PAGE_SIZE <= U64 && c / 8 + 2 < |m| && ptr / 8 < |m|
    ensures InMemory(Pushed(m, c, ptr), c, Partly(caches[c], p, done + [ptr]))
  {
    hide IsObject, InMemory, Clear, PageObjects, Accounted, WorldOk, Pushed, Ld;
    var k := Partly(caches[c], p, done);
    NextNodeClear(m0, m, caches, owner, meta, c, p, done, ptr);
    HeadClearOfPartly(m0, m, caches, owner, meta, c, p, done);
    GivenInMemory(m, c, k, ptr);
    assert Reversed(done + [ptr]) == [ptr] + Reversed(done) by {
      assert (done + [ptr])[..|done|] == done;
    }
    assert [ptr] + (Reversed(done) + caches[c].free) == ([ptr] + Reversed(done)) + caches[c].free;
    LiveDoesNotMatter(Pushed(m, c, ptr), c, Given(k, ptr), Partly(caches[c], p, done + [ptr]));
  }

  /** As another cache sees it. */
  lemma NextNodeOther(m0: seq<Word>, m: seq<Word>, caches: map<nat, Cache>, owner: map<nat, nat>, meta: nat, c: nat, p: nat,
                      ptr: nat, v: Word, d: nat)
    requires c in caches && d in caches && d != c && WorldOk(m0, caches, owner, meta) && FreshPage(owner, meta, p)
    requires p * PAGE_WORDS <= ptr / 8 < (p + 1) * PAGE_WORDS <= |m| && c / 8 + 2 < |m| && ptr < U64
    requires InMemory(m, d, caches[d])
    ensures InMemory(Put(Put(m, ptr / 8, v), c / 8 + 2, ptr), d, caches[d])
  {
    hide IsObject, InMemory, Clear, WorldOk;
    StructWordClear(m0, caches, owner, meta, c, c / 8 + 2, d);
    FreshWordClear(m0, caches, owner, meta, p, ptr / 8, d);
    WriteClear(m, ptr / 8, v, d, caches[d]);
    WriteClear(Put(m, ptr / 8, v), c / 8 + 2, ptr, d, caches[d]);
  }

  /** One turn of the loop of `slab_grow`. */
  lemma NextNode(m0: seq<Word>, m: seq<Word>, caches: map<nat, Cache>, owner: map<nat, nat>, meta: nat, c: nat, p: nat,
                 done: seq<nat>, ptr: nat)
    requires c in caches && Accounted(caches[c]) && Growing(m0, m, caches, owner, meta, c, p, done, ptr)
    requires ptr + caches[c].objSize <= (p + 1) * PAGE_SIZE <= U64 && c / 8 + 2 < |m| && ptr / 8 < |m|
    ensures Growing(m0, Pushed(m, c, ptr), caches, owner, meta, c, p, done + [ptr], ptr + caches[c].objSize)
  {
    hide IsObject, InMemory, Clear, WorldOk, PageObjects, Ld, Put;
    NextNodeClear(m0, m, caches, owner, meta, c, p, done, ptr);
    NextNodeOwn(m0, m, caches, owner, meta, c, p, done, ptr);
    forall d | d in caches && d != c
      ensures InMemory(Pushed(m, c, ptr), d, caches[d])
    {
      NextNodeOther(m0, m, caches, owner, meta, c, p, ptr, Ld(m, c / 8 + 2), d);
    }
    assert done + Carve(ptr, (p + 1) * PAGE_SIZE, caches[c].objSize)
        == (done + [ptr]) + Carve(ptr + caches[c].objSize, (p + 1) * PAGE_SIZE, caches[c].objSize);
  }

  lemma LiveDoesNotMatter(m: seq<Word>, c: nat, k: Cache, k': Cache)
    requires InMemory(m, c, k) && k'.objSize == k.objSize && k'.slabs == k.slabs && k'.free == k.free
    ensures InMemory(m, c, k')
  {
    hide Ld, SlabPtr, FreePtr;
  }

  /** The list head of `c` is no header and no node of the growing cache. */
  lemma HeadClearOfPartly(m0: seq<Word>, m: seq<Word>, caches: map<nat, Cache>, owner: map<nat, nat>, meta: nat, c: nat, p: nat, done: seq<nat>)
    requires c in caches && WorldOk(m0, caches, owner, meta) && FreshPage(owner, meta, p)
    requires forall i :: 0 <= i < |done| ==> done[i] / PAGE_SIZE == p
    ensures var k := Partly(caches[c], p, done);
      && (forall i :: 0 <= i < |k.slabs| ==> c / 8 + 2 != k.slabs[i] * PAGE_WORDS && c / 8 + 2 != k.slabs[i] * PAGE_WORDS + 1)
      && forall i :: 0 <= i < |k.free| ==> c / 8 + 2 != k.free[i] / 8
  {
    hide IsObject, InMemory, Accounted, Clear;
    StructPlace(m0, caches, owner, meta, c);
    StructWordClear(m0, caches, owner, meta, c, c / 8 + 2, c);
    assert c / PAGE_SIZE != p;
    ReversedElements(done);
    var k := Partly(caches[c], p, done);
    forall i | 0 <= i < |k.free|
      ensures c / 8 + 2 != k.free[i] / 8
    {
      if i < |done| {
        assert k.free[i] in Reversed(done);
      }
    }
  }

  /** The loop ends with all of the page carved, and every invariant of the caches restored. */
  lemma GrowEnds(m0: seq<Word>, m: seq<Word>, caches: map<nat, Cache>, owner: map<nat, nat>, meta: nat, c: nat, p: nat,
                 done: seq<nat>, ptr: nat)
    requires c in caches && Accounted(caches[c]) && Growing(m0, m, caches, owner, meta, c, p, done, ptr)
    requires (p + 1) * PAGE_SIZE < ptr + caches[c].objSize
    ensures done == PageObjects(p, caches[c].objSize)
    ensures WorldOk(m, caches[c := Partly(caches[c], p, done)], owner[p := c], meta)
  {
    hide IsObject, InMemory, Clear;
    assert done + [] == done;
    GrownAccounted(caches[c], p);
  }

  lemma GrownAccounted(k: Cache, p: nat)
    requires Accounted(k) && p !in k.slabs
    ensures Accounted(Partly(k, p, PageObjects(p, k.objSize)))
  {
    hide Carve;
    var objs := PageObjects(p, k.objSize);
    var k' := Partly(k, p, objs);
    CarveSpaced(p * PAGE_SIZE + FRAME_HEADER, (p + 1) * PAGE_SIZE, k.objSize);
    ReversedElements(objs);
    assert forall x :: x in objs ==> x / PAGE_SIZE == p;
    forall a
      ensures IsObject(k.objSize, k'.slabs, a) <==> a in k'.free || a in k'.live
    {
      assert IsObject(k.objSize, k'.slabs, a) <==> IsObject(k.objSize, k.slabs, a) || a in objs;
    }
    forall x | x in objs
      ensures x !in k.free && x !in k.live
    {
      assert !IsObject(k.objSize, k.slabs, x);
    }
    PartlyDistinct(k, p, objs);
  }

  lemma PartlyDistinct(k: Cache, p: nat, objs: seq<nat>)
    requires Accounted(k) && p !in k.slabs
    requires forall i, j :: 0 <= i < j < |objs| ==> objs[i] != objs[j]
    requires forall x :: x in objs ==> x !in k.free
    ensures var k' := Partly(k, p, objs);
      && (forall i, j :: 0 <= i < j < |k'.free| ==> k'.free[i] != k'.free[j])
      && forall i, j :: 0 <= i < j < |k'.slabs| ==> k'.slabs[i] != k'.slabs[j]
  {
    hide IsObject;
    ReversedElements(objs);
    var free := Reversed(objs) + k.free;
    forall i, j | 0 <= i < j < |free|
      ensures free[i] != free[j]
    {
      if i < |objs| <= j {
        assert free[i] in Reversed(objs) && free[j] in k.free;
      }
    }
  }

  /** Between `m0` and `m` only page `p` and the two list heads of cache `c` were written. */
  ghost predicate OnlyGrew(m0: seq<Word>, m: seq<Word>, c: nat, p: nat) {
    && |m| == |m0|
    && forall w: nat {:trigger m[w]} :: w < |m| && w / PAGE_WORDS != p && w != c / 8 + 1 && w != c / 8 + 2 ==> m[w] == m0[w]
  }

  lemma GrowTouches(m0: seq<Word>, m: seq<Word>, caches: map<nat, Cache>, owner: map<nat, nat>, meta: nat, c: nat, p: nat)
    requires WorldOk(m0, caches, owner, meta) && c in caches && FreshPage(owner, meta, p) && OnlyGrew(m0, m, c, p)
    ensures LiveSame(m0, m, caches, {})
  {
    hide IsObject, Accounted, Clear, InMemory, WorldOk;
    forall d, b: nat, w: nat | Payload(caches, d, b, w)
      ensures w / PAGE_WORDS != p && w != c / 8 + 1 && w != c / 8 + 2
    {
      ObjectPlace(m0, caches, owner, meta, d, b);
      ObjectClearOfStructs(m0, caches, owner, meta, d, b, c);
      StructPlace(m0, caches, owner, meta, c);
      assert b / PAGE_SIZE != p;
    }
  }

  // A new cache whose structure is object `c` of the bootstrap cache

  ghost function StructWritten(m: seq<Word>, c: nat, size: nat): seq<Word>
    requires c / 8 + 2 < |m| && size < U64
  {
    Put(Put(Put(m, c / 8, size), c / 8 + 1, 0), c / 8 + 2, 0)
  }

  lemma StructInMemory(m: seq<Word>, c: nat, size: nat)
    requires c / 8 + 2 < |m| && size < U64
    ensures InMemory(StructWritten(m, c, size), c, Cache(size, [], [], {}))
  {
  }

  lemma NewCacheWorld(m: seq<Word>, caches: map<nat, Cache>, owner: map<nat, nat>, meta: nat, c: nat, size: nat)
    requires WorldOk(m, caches, owner, meta) && meta in caches && c in caches[meta].live && c !in caches
    requires 8 <= size < U64 && size % 8 == 0 && c / 8 + 2 < |m|
    ensures WorldOk(StructWritten(m, c, size), caches[c := Cache(size, [], [], {})], owner, meta)
    ensures LiveSame(m, StructWritten(m, c, size), caches, {c})
  {
    hide Accounted, Clear, InMemory, StructWritten, Put;
    ObjectPlace(m, caches, owner, meta, meta, c);
    StructInMemory(m, c, size);
    EmptyAccounted(size);
    forall d | d in caches
      ensures InMemory(StructWritten(m, c, size), d, caches[d])
    {
      LiveWordClear(m, caches, owner, meta, meta, c, c / 8, d);
      LiveWordClear(m, caches, owner, meta, meta, c, c / 8 + 1, d);
      LiveWordClear(m, caches, owner, meta, meta, c, c / 8 + 2, d);
      StructWriteClear(m, c, size, d, caches[d]);
    }
    NewCacheTouches(m, caches, owner, meta, c, size);
  }

  lemma EmptyAccounted(size: nat)
    requires 8 <= size && size % 8 == 0
    ensures Accounted(Cache(size, [], [], {}))
  {
  }

  lemma StructWriteClear(m: seq<Word>, c: nat, size: nat, d: nat, k: Cache)
    requires c / 8 + 2 < |m| && size < U64 && InMemory(m, d, k)
    requires Clear(c / 8, d, k) && Clear(c / 8 + 1, d, k) && Clear(c / 8 + 2, d, k)
    ensures InMemory(StructWritten(m, c, size), d, k)
  {
    hide InMemory, Clear, Put;
    WriteClear(m, c / 8, size, d, k);
    WriteClear(Put(m, c / 8, size), c / 8 + 1, 0, d, k);
    WriteClear(Put(Put(m, c / 8, size), c / 8 + 1, 0), c / 8 + 2, 0, d, k);
  }

  lemma NewCacheTouches(m: seq<Word>, caches: map<nat, Cache>, owner: map<nat, nat>, meta: nat, c: nat, size: nat)
    requires WorldOk(m, caches, owner, meta) && meta in caches && c in caches[meta].live && c !in caches
    requires size < U64 && c / 8 + 2 < |m|
    ensures LiveSame(m, StructWritten(m, c, size), caches, {c})
  {
    hide IsObject, Accounted, Clear, InMemory;
    forall d, b: nat, w: nat | Payload(caches, d, b, w) && b != c
      ensures w < c / 8 || c / 8 + 2 < w
    {
      ObjectPlace(m, caches, owner, meta, meta, c);
      ObjectPlace(m, caches, owner, meta, d, b);
      AnyObjectsApart(m, caches, owner, meta, meta, c, d, b);
    }
  }

  // Writing outside the slab layer's own data

  lemma WriteKeepsWorld(m: seq<Word>, caches: map<nat, Cache>, owner: map<nat, nat>, meta: nat, c: nat, a: nat, k: nat, v: Word)
    requires CanGive(m, caches, owner, meta, c, a) && a / 8 <= k < (a + caches[c].objSize) / 8 && k < |m|
    ensures WorldOk(Put(m, k, v), caches, owner, meta) && LiveSame(m, Put(m, k, v), caches, {a})
  {
    hide IsObject, Accounted, Clear, InMemory;
    forall d | d in caches
      ensures InMemory(Put(m, k, v), d, caches[d])
    {
      LiveWordClear(m, caches, owner, meta, c, a, k, d);
      WriteClear(m, k, v, d, caches[d]);
    }
    forall d, b: nat, w: nat | Payload(caches, d, b, w) && b != a
      ensures w != k
    {
      ObjectPlace(m, caches, owner, meta, c, a);
      ObjectPlace(m, caches, owner, meta, d, b);
      AnyObjectsApart(m, caches, owner, meta, c, a, d, b);
    }
  }

  lemma ElsewhereKeepsWorld(m: seq<Word>, caches: map<nat, Cache>, owner: map<nat, nat>, meta: nat, p: nat, k: nat, v: Word)
    requires WorldOk(m, caches, owner, meta) && FreshPage(owner, meta, p) && p * PAGE_WORDS <= k < (p + 1) * PAGE_WORDS && k < |m|
    ensures WorldOk(Put(m, k, v), caches, owner, meta) && LiveSame(m, Put(m, k, v), caches, {})
  {
    hide IsObject, Accounted, Clear, InMemory;
    forall d | d in caches
      ensures InMemory(Put(m, k, v), d, caches[d])
    {
      FreshWordClear(m, caches, owner, meta, p, k, d);
      WriteClear(m, k, v, d, caches[d]);
    }
    forall d, b: nat, w: nat | Payload(caches, d, b, w)
      ensures w != k
    {
      ObjectPlace(m, caches, owner, meta, d, b);
    }
  }

  /** An object of a cache other than the bootstrap cache is no cache structure. */
  lemma OwnObject(m: seq<Word>, caches: map<nat, Cache>, owner: map<nat, nat>, meta: nat, c: nat, a: nat)
    requires WorldOk(m, caches, owner, meta) && c in caches && c != meta && (a in caches[c].live || a in caches[c].free)
    ensures a !in caches
  {
    hide IsObject, Accounted, InMemory;
    ObjectPlace(m, caches, owner, meta, c, a);
    if a in caches {
      StructPlace(m, caches, owner, meta, a);
    }
  }

  lemma BootstrapWorld(m: seq<Word>, owner: map<nat, nat>, meta: nat)
    requires WorldOk(m, map[], owner, meta) && meta / 8 + 2 < |m| && meta % 8 == 0
    ensures WorldOk(StructWritten(m, meta, CACHE_STRUCT), map[meta := Cache(CACHE_STRUCT, [], [], {})], owner, meta)
    ensures meta + CACHE_STRUCT <= (meta / PAGE_SIZE + 1) * PAGE_SIZE
  {
    hide Accounted, InMemory, StructWritten;
    StructInMemory(m, meta, CACHE_STRUCT);
    EmptyAccounted(CACHE_STRUCT);
    assert owner == map[];
  }

  // How many objects a cache holds

  ghost function Elements(s: seq<nat>): (r: set<nat>)
    ensures forall x :: x in r <==> x in s
  {
    set x | x in s
  }

  lemma {:induction false} DistinctCount(s: seq<nat>)
    requires forall i, j :: 0 <= i < j < |s| ==> s[i] != s[j]
    ensures |Elements(s)| == |s|
  {
    if s == [] {
      assert Elements(s) == {};
    } else {
      var init, last := s[..|s| - 1], s[|s| - 1];
      DistinctCount(init);
      assert s == init + [last];
      assert last !in init;
      assert Elements(s) == Elements(init) + {last};
    }
  }

  ghost function ObjectSet(size: nat, slabs: seq<nat>): set<nat>
    requires 0 < size
  {
    if slabs == [] then {} else Elements(PageObjects(slabs[0], size)) + ObjectSet(size, slabs[1..])
  }

  lemma {:induction false} PageHoldsItsObjects(p: nat, size: nat)
    requires 0 < size
    ensures forall a :: a in PageObjects(p, size) ==> a / PAGE_SIZE == p
    ensures |Elements(PageObjects(p, size))| == (PAGE_SIZE - FRAME_HEADER) / size
  {
    hide Carve;
    var objs := PageObjects(p, size);
    CarveSpaced(p * PAGE_SIZE + FRAME_HEADER, (p + 1) * PAGE_SIZE, size);
    CarveCount(p * PAGE_SIZE + FRAME_HEADER, (p + 1) * PAGE_SIZE, size);
    DistinctCount(objs);
    forall a | a in objs
      ensures a / PAGE_SIZE == p
    {
      var i :| 0 <= i < |objs| && objs[i] == a;
    }
  }

  lemma {:induction false} ObjectSetIs(size: nat, slabs: seq<nat>)
    requires 0 < size
    ensures forall a :: a in ObjectSet(size, slabs) <==> IsObject(size, slabs, a)
  {
    hide PageObjects;
    if slabs != [] {
      ObjectSetIs(size, slabs[1..]);
      PageHoldsItsObjects(slabs[0], size);
      assert slabs == [slabs[0]] + slabs[1..];
    }
  }

  /** How many objects `slab_grow` carves from one page. */
  function PerPage(size: nat): nat
    requires 0 < size
  {
    (PAGE_SIZE - FRAME_HEADER) / size
  }

  lemma OneMore(n: nat, each: nat)
    ensures (n + 1) * each == each + n * each
  {
  }

  lemma NewPageObjects(size: nat, p: nat, rest: seq<nat>)
    requires 0 < size && p !in rest
    ensures |Elements(PageObjects(p, size)) + ObjectSet(size, rest)| == PerPage(size) + |ObjectSet(size, rest)|
  {
    hide PageObjects;
    ObjectSetIs(size, rest);
    PageHoldsItsObjects(p, size);
    assert Elements(PageObjects(p, size)) !! ObjectSet(size, rest);
  }

  lemma {:induction false} ObjectSetCount(size: nat, slabs: seq<nat>)
    requires 0 < size
    requires forall i, j :: 0 <= i < j < |slabs| ==> slabs[i] != slabs[j]
    ensures |ObjectSet(size, slabs)| == |slabs| * PerPage(size)
  {
    hide PageObjects, PerPage;
    if slabs != [] {
      var rest := slabs[1..];
      ObjectSetCount(size, rest);
      NewPageObjects(size, slabs[0], rest);
      OneMore(|rest|, PerPage(size));
    }
  }

  /** Free and live objects of a cache number floor((4096 - 16) / size) for each of its slab pages. */
  lemma SlabPopulation(k: Cache)
    requires Accounted(k)
    ensures |k.free| + |k.live| == |k.slabs| * ((4096 - 16) / k.objSize)
  {
    hide IsObject, ObjectSet;
    ObjectSetCount(k.objSize, k.slabs);
    ObjectSetIs(k.objSize, k.slabs);
    DistinctCount(k.free);
    assert ObjectSet(k.objSize, k.slabs) == Elements(k.free) + k.live;
    assert Elements(k.free) !! k.live;
  }

  /** How `slab_grow` changes cache `c`: one formerly free page is added and carved. */
  ghost predicate Grew(caches0: map<nat, Cache>, owner0: map<nat, nat>, free0: set<nat>,
                       caches: map<nat, Cache>, owner: map<nat, nat>, free: set<nat>, c: nat)
  {
    && c in caches0 && 0 < caches0[c].objSize
    && exists p :: p in free0 && p !in owner0 && free == free0 - {p} && owner == owner0[p := c]
         && caches == caches0[c := Partly(caches0[c], p, PageObjects(p, caches0[c].objSize))]
  }

  lemma GrewMeans(caches0: map<nat, Cache>, owner0: map<nat, nat>, free0: set<nat>,
                  caches: map<nat, Cache>, owner: map<nat, nat>, free: set<nat>, c: nat)
    requires Grew(caches0, owner0, free0, caches, owner, free, c) && owner0.Keys !! free0
    ensures OnlyLive(caches0, caches, c, caches0[c].live) && PagesTaken(owner0, owner, free0, free) && free0 != {}
    ensures free <= free0 && |free| + 1 == |free0|
    ensures caches[c].free == [] <==> caches0[c].free == [] && PAGE_SIZE - FRAME_HEADER < caches0[c].objSize
  {
    hide PageObjects, Reversed;
    AnyPageYields(caches0[c].objSize);
  }

  /** `slab_alloc` takes one frame when its cache's list `stock` is empty and a frame is free, else none. */
  ghost predicate RefillTakes(stock: seq<nat>, free: set<nat>, free': set<nat>) {
    if stock == [] && free != {} then free' <= free && |free'| + 1 == |free| else free' == free
  }

  /** The slab caches of the machine. */
  class SlabWorld {
    const pmm: FrameAllocator
    const ram: Ram

    /** Address of the static structure of the bootstrap cache, and whether it is set up. */
    const meta: nat
    var metaInitialized: bool

    ghost var caches: map<nat, Cache>
    ghost var owner: map<nat, nat>

    ghost predicate Valid()
      reads this, pmm, pmm.bitmap, ram.cells
    {
      && pmm.Valid() && ram.cells as object != pmm.bitmap as object
      && (pmm.first + pmm.totalFrames) * PAGE_WORDS <= ram.cells.Length
      && WorldOk(ram.View(), caches, owner, meta)
      && (metaInitialized <==> caches != map[])
      && (forall p :: p in owner ==> pmm.InRange(p)) && owner.Keys !! pmm.free
      && 0 < meta && meta % 8 == 0 && meta / 8 + 4 <= ram.cells.Length && meta / PAGE_SIZE !in pmm.free
    }

    constructor (pmm: FrameAllocator, ram: Ram, meta: nat)
      requires pmm.Valid() && ram.cells as object != pmm.bitmap as object
      requires (pmm.first + pmm.totalFrames) * PAGE_WORDS <= ram.cells.Length
      requires 0 < meta && meta % 8 == 0 && meta / 8 + 4 <= ram.cells.Length && meta / PAGE_SIZE !in pmm.free
      requires meta % PAGE_SIZE + CACHE_STRUCT <= PAGE_SIZE
      ensures Valid() && this.pmm == pmm && this.ram == ram && this.meta == meta && caches == map[] && owner == map[]
    {
      this.pmm, this.ram, this.meta := pmm, ram, meta;
      metaInitialized := false;
      caches, owner := map[], map[];
    }

    /** The pages the slab layer writes: its slabs and the page of the bootstrap structure. */
    ghost function Pages(): (r: set<nat>)
      reads this
    {
      owner.Keys + {meta / PAGE_SIZE}
    }

    /** A structure lies in one of these pages. */
    lemma StructPage(c: nat)
      requires Valid() && c in caches
      ensures c / 8 / PAGE_WORDS in Pages() && (c / 8 + 1) / PAGE_WORDS in Pages() && (c / 8 + 2) / PAGE_WORDS in Pages()
    {
      hide InMemory, Accounted, IsObject;
      StructPlace(ram.View(), caches, owner, meta, c);
    }

    /** So does an object. */
    lemma ObjectPage(c: nat, a: nat)
      requires Valid() && c in caches && (a in caches[c].free || a in caches[c].live)
      ensures forall w: nat :: a / 8 <= w < (a + caches[c].objSize) / 8 ==> w / PAGE_WORDS in Pages()
      ensures a / 8 < (a + caches[c].objSize) / 8 && a % 8 == 0 && a != 0
    {
      hide InMemory, Accounted, IsObject;
      ObjectPlace(ram.View(), caches, owner, meta, c, a);
    }

    /** Structures and objects lie in existing memory. */
    lemma InBounds(c: nat)
      requires Valid() && c in caches
      ensures c / 8 + 4 <= ram.cells.Length && 0 < c && Accounted(caches[c]) && c % 8 == 0
      ensures forall a :: a in caches[c].free || a in caches[c].live ==>
        0 < a && a / 8 < (a + caches[c].objSize) / 8 <= ram.cells.Length && a % 8 == 0 && a < U64
    {
      hide InMemory, IsObject;
      StructPlace(ram.View(), caches, owner, meta, c);
      forall a | a in caches[c].free || a in caches[c].live
        ensures 0 < a && a / 8 < (a + caches[c].objSize) / 8 <= ram.cells.Length && a % 8 == 0 && a < U64
      {
        ObjectPlace(ram.View(), caches, owner, meta, c, a);
      }
    }

    /** The first word of a cache structure is its object size. */
    lemma SizeInMemory(c: nat)
      requires Valid() && c in caches
      ensures c / 8 < ram.cells.Length && Ld(ram.View(), c / 8) == caches[c].objSize
    {
      InBounds(c);
      assert InMemory(ram.View(), c, caches[c]);
    }

    /** `slab_free` of a live object that holds no cache structure. */
    method Free(c: nat, a: nat)
      requires Valid() && c in caches && a in caches[c].live && a !in caches
      modifies ram.cells, `caches
      ensures Valid() && caches == old(caches)[c := Given(old(caches)[c], a)]
      ensures c / 8 + 2 < ram.cells.Length && a / 8 < ram.cells.Length && a < U64 && ram.View() == Pushed(old(ram.View()), c, a)
      ensures LiveSame(old(ram.View()), ram.View(), old(caches), {a})
      ensures SameOutside(old(ram.View()), ram.View(), Pages())
    {
      hide InMemory, Accounted, Represents, IsFree, SameOutside, WorldOk, LiveSame, Payload, Given, IsObject;
      InBounds(c);
      StructPage(c);
      ObjectPage(c, a);
      GiveKeepsWorld(ram.View(), caches, owner, meta, c, a);
      ghost var m := ram.View();
      var head := ram.Load(c / 8 + 2);
      ram.Store(a / 8, head);
      PutInside(m, a / 8, head, Pages());
      PutInside(ram.View(), c / 8 + 2, a, Pages());
      SameOutsideTwice(m, ram.View(), Put(ram.View(), c / 8 + 2, a), Pages(), Pages());
      ram.Store(c / 8 + 2, a);
      caches := caches[c := Given(caches[c], a)];
    }

    /** The owner of live object `a` writes word `k` of it. */
    method WriteObject(c: nat, a: nat, k: nat, v: Word)
      requires Valid() && c in caches && a in caches[c].live && a !in caches && a / 8 <= k < (a + caches[c].objSize) / 8
      requires k < ram.cells.Length
      modifies ram.cells
      ensures Valid() && ram.View() == Put(old(ram.View()), k, v)
      ensures LiveSame(old(ram.View()), ram.View(), caches, {a})
      ensures SameOutside(old(ram.View()), ram.View(), Pages())
    {
      hide InMemory, Accounted, Represents, IsFree, SameOutside, LiveSame, WorldOk;
      InBounds(c);
      ObjectPage(c, a);
      WriteKeepsWorld(ram.View(), caches, owner, meta, c, a, k, v);
      PutInside(ram.View(), k, v, Pages());
      ram.Store(k, v);
    }

    /** A word of a page the slab layer does not use is written. */
    method WriteElsewhere(ghost p: nat, k: nat, v: Word)
      requires Valid() && p !in Pages() && p * PAGE_WORDS <= k < (p + 1) * PAGE_WORDS && 0 < p && k < ram.cells.Length
      modifies ram.cells
      ensures Valid() && ram.View() == Put(old(ram.View()), k, v)
      ensures LiveSame(old(ram.View()), ram.View(), caches, {})
    {
      hide InMemory, Accounted, Represents, IsFree, LiveSame, WorldOk;
      ElsewhereKeepsWorld(ram.View(), caches, owner, meta, p, k, v);
      ram.Store(k, v);
    }

    /** The part of `slab_grow` before its loop: the page header goes in front of the cache's slab list. */
    method WriteHeader(c: nat, phys: Word, ghost p: nat)
      requires c in caches && 0 < caches[c].objSize && WorldOk(ram.View(), caches, owner, meta) && FreshPage(owner, meta, p)
      requires phys == p * PAGE_SIZE && (p + 1) * PAGE_WORDS <= ram.cells.Length && c / 8 + 2 < ram.cells.Length
      modifies ram.cells
      ensures Growing(old(ram.View()), ram.View(), caches, owner, meta, c, p, [], phys + FRAME_HEADER)
      ensures OnlyGrew(old(ram.View()), ram.View(), c, p)
    {
      hide InMemory, WorldOk, Growing, IsObject, Accounted, FreshPage;
      ghost var m0 := ram.View();
      GrowStarts(m0, caches, owner, meta, c, p);
      var slabs := ram.Load(c / 8 + 1);
      ram.Store(phys / 8, phys);
      ram.Store(phys / 8 + 1, slabs);
      ram.Store(c / 8 + 1, phys);
      assert ram.View() == HeaderWritten(m0, c, p);
    }

    /** `slab_grow`: one more page, carved into free nodes; false is its panic, when no frame is left. */
    method Grow(c: nat) returns (ok: bool)
      requires Valid() && c in caches && 0 < caches[c].objSize
      modifies pmm`freeFrames, pmm`lastFreeIndex, pmm`free, pmm.bitmap, ram.cells, `caches, `owner
      ensures Valid()
      ensures ok <==> old(pmm.free) != {}
      ensures !ok ==> caches == old(caches) && owner == old(owner) && pmm.free == old(pmm.free) && ram.View() == old(ram.View())
      ensures ok ==> Grew(old(caches), old(owner), old(pmm.free), caches, owner, pmm.free, c)
      ensures LiveSame(old(ram.View()), ram.View(), old(caches), {})
      ensures SameOutside(old(ram.View()), ram.View(), Pages())
      ensures old(pmm.HintOk()) ==> pmm.HintOk()
    {
      hide InMemory, Accounted, Represents, IsFree, Growing, OnlyGrew, IsObject, LiveSame, WorldOk, Partly, SameOutside;
      InBounds(c);
      StructPage(c);
      ghost var m0 := ram.View();
      var phys := pmm.AllocFrame();
      if phys == 0 {
        NothingTouched(m0, caches, Pages());
        return false;
      }
      ghost var p := phys / PAGE_SIZE;
      WriteHeader(c, phys, p);
      ghost var m1 := ram.View();
      GrowingSize(m0, m1, caches, owner, meta, c, p, [], phys + FRAME_HEADER);
      var size := ram.Load(c / 8);
      CarvePage(c, phys, size, p, m0);
      OnlyGrewTwice(m0, m1, ram.View(), c, p);
      GrowTouches(m0, ram.View(), caches, owner, meta, c, p);
      GrowOutside(m0, ram.View(), c, p, owner[p := c].Keys + {meta / PAGE_SIZE});
      caches := caches[c := Partly(caches[c], p, PageObjects(p, size))];
      owner := owner[p := c];
      return true;
    }

    /** The carving loop of `slab_grow`. */
    method CarvePage(c: nat, phys: Word, size: nat, ghost p: nat, ghost m0: seq<Word>)
      requires c in caches && Accounted(caches[c]) && size == caches[c].objSize && phys == p * PAGE_SIZE
      requires (p + 1) * PAGE_SIZE <= U64 && c / 8 + 2 < ram.cells.Length
      requires Growing(m0, ram.View(), caches, owner, meta, c, p, [], p * PAGE_SIZE + FRAME_HEADER)
      modifies ram.cells
      ensures WorldOk(ram.View(), caches[c := Partly(caches[c], p, PageObjects(p, size))], owner[p := c], meta)
      ensures OnlyGrew(old(ram.View()), ram.View(), c, p)
    {
      hide InMemory, WorldOk, Growing, IsObject, Accounted;
      var ptr := phys + FRAME_HEADER;
      ghost var done: seq<nat> := [];
      PositiveSize(caches[c]);
      while ptr + size <= phys + PAGE_SIZE
        invariant Growing(m0, ram.View(), caches, owner, meta, c, p, done, ptr)
        invariant OnlyGrew(old(ram.View()), ram.View(), c, p)
        decreases phys + PAGE_SIZE - ptr
      {
        NextNodeClear(m0, ram.View(), caches, owner, meta, c, p, done, ptr);
        GrowingBounds(m0, ram.View(), caches, owner, meta, c, p, done, ptr);
        NextNode(m0, ram.View(), caches, owner, meta, c, p, done, ptr);
        var head := ram.Load(c / 8 + 2);
        ram.Store(ptr / 8, head);
        ram.Store(c / 8 + 2, ptr);
        done := done + [ptr];
        ptr := ptr + size;
      }
      GrowEnds(m0, ram.View(), caches, owner, meta, c, p, done, ptr);
    }

    /** The second half of `slab_alloc`: pop the head of a non-empty list. */
    method Take(c: nat) returns (a: nat)
      requires Valid() && c in caches && caches[c].free != []
      modifies ram.cells, `caches
      ensures Valid() && a == old(caches)[c].free[0] && a != 0 && a !in old(caches)[c].live
      ensures caches == old(caches)[c := Taken(old(caches)[c])]
      ensures c / 8 + 2 < ram.cells.Length && ram.View() == Put(old(ram.View()), c / 8 + 2, Ld(old(ram.View()), a / 8))
      ensures LiveSame(old(ram.View()), ram.View(), old(caches), {})
      ensures SameOutside(old(ram.View()), ram.View(), Pages())
    {
      hide InMemory, Accounted, Represents, IsFree, LiveSame, SameOutside;
      InBounds(c);
      StructPage(c);
      TakeKeepsWorld(ram.View(), caches, owner, meta, c);
      HeadInMemory(ram.View(), c, caches[c]);
      TakenAccounted(caches[c]);
      a := ram.Load(c / 8 + 2);
      assert a in caches[c].free;
      var next := ram.Load(a / 8);
      PutInside(ram.View(), c / 8 + 2, next, Pages());
      ram.Store(c / 8 + 2, next);
      caches := caches[c := Taken(caches[c])];
    }

    /** The first half of `slab_alloc`: grow the cache if its list is empty. */
    method Refill(c: nat)
      requires Valid() && c in caches
      modifies pmm`freeFrames, pmm`lastFreeIndex, pmm`free, pmm.bitmap, ram.cells, `caches, `owner
      ensures Valid()
      ensures OnlyLive(old(caches), caches, c, old(caches)[c].live)
      ensures caches[c].free == [] <==>
        old(caches)[c].free == [] && (old(pmm.free) == {} || PAGE_SIZE - FRAME_HEADER < old(caches)[c].objSize)
      ensures PagesTaken(old(owner), owner, old(pmm.free), pmm.free) && RefillTakes(old(caches)[c].free, old(pmm.free), pmm.free)
      ensures LiveSame(old(ram.View()), ram.View(), old(caches), {})
      ensures SameOutside(old(ram.View()), ram.View(), Pages())
      ensures old(pmm.HintOk()) ==> pmm.HintOk()
      ensures old(caches)[c].free != [] ==> caches == old(caches) && ram.View() == old(ram.View())
    {
      hide InMemory, Accounted, Represents, IsFree, LiveSame, WorldOk, PageObjects, Payload, Growing, SameOutside, Reversed, SlabWorld.Valid,
        FirstFrom, NoneBelow, Grew;
      InBounds(c);
      HeadInMemoryOf(c);
      PositiveSize(caches[c]);
      NothingTouched(ram.View(), caches, Pages());
      OwnersNotFree();
      ghost var caches0, owner0, free0 := caches, owner, pmm.free;
      var head := ram.Load(c / 8 + 2);
      if head == 0 {
        var ok := Grow(c);
        if ok {
          GrewMeans(caches0, owner0, free0, caches, owner, pmm.free, c);
        }
      }
    }

    /** `slab_alloc`: an object that was not live, or 0 when the list is empty and growing yields no object. */
    method Alloc(c: nat) returns (a: nat)
      requires Valid() && c in caches
      modifies pmm`freeFrames, pmm`lastFreeIndex, pmm`free, pmm.bitmap, ram.cells, `caches, `owner
      ensures Valid()
      ensures a == 0 <==> old(caches)[c].free == [] && (old(pmm.free) == {} || PAGE_SIZE - FRAME_HEADER < old(caches)[c].objSize)
      ensures a != 0 ==> a !in old(caches)[c].live
      ensures OnlyLive(old(caches), caches, c, if a == 0 then old(caches)[c].live else old(caches)[c].live + {a})
      ensures PagesTaken(old(owner), owner, old(pmm.free), pmm.free) && RefillTakes(old(caches)[c].free, old(pmm.free), pmm.free)
      ensures LiveSame(old(ram.View()), ram.View(), old(caches), {})
      ensures SameOutside(old(ram.View()), ram.View(), Pages())
      ensures old(pmm.HintOk()) ==> pmm.HintOk()
      ensures c / 8 + 2 < ram.cells.Length
      ensures old(caches)[c].free != [] ==>
        a == old(caches)[c].free[0] && ram.View() == Put(old(ram.View()), c / 8 + 2, Ld(old(ram.View()), a / 8))
    {
      hide InMemory, Accounted, Represents, IsFree, LiveSame, WorldOk, Payload, PagesTaken, SameOutside;
      ghost var m0, caches0 := ram.View(), caches;
      Refill(c);
      ghost var m1, caches1 := ram.View(), caches;
      HeadInMemoryOf(c);
      var head := ram.Load(c / 8 + 2);
      if head == 0 {
        return 0;
      }
      ghost var pages := Pages();
      a := Take(c);
      SameOutsideTwice(m0, m1, ram.View(), pages, Pages());
      LiveSameTwice(m0, m1, ram.View(), caches0, caches1);
    }

    /** Set up the static structure of the bootstrap cache, if that has not been done. */
    method Bootstrap()
      requires Valid()
      modifies ram.cells, `caches, `metaInitialized
      ensures Valid() && metaInitialized && meta in caches
      ensures old(metaInitialized) ==> caches == old(caches) && ram.View() == old(ram.View())
      ensures !old(metaInitialized) ==> old(caches) == map[] && caches == map[meta := Cache(32, [], [], {})]
      ensures SameOutside(old(ram.View()), ram.View(), Pages())
    {
      hide Accounted, Represents, IsFree, InMemory, WorldOk, SameOutside;
      NothingTouched(ram.View(), caches, Pages());
      if !metaInitialized {
        BootstrapWorld(ram.View(), owner, meta);
        ram.Store(meta / 8, CACHE_STRUCT);
        ram.Store(meta / 8 + 1, 0);
        ram.Store(meta / 8 + 2, 0);
        assert ram.View() == StructWritten(old(ram.View()), meta, CACHE_STRUCT);
        metaInitialized := true;
        caches := map[meta := Cache(CACHE_STRUCT, [], [], {})];
        assert meta in caches;
        StructOutside(old(ram.View()), meta, CACHE_STRUCT, Pages());
      } else {
        MetaSize();
      }
    }

    /** Fill in the structure of a new cache in the bootstrap object at `c`. */
    method InitStruct(c: nat, size: nat)
      requires Valid() && meta in caches && c in caches[meta].live && c !in caches && 8 <= size < U64 && size % 8 == 0
      modifies ram.cells, `caches
      ensures Valid() && caches == old(caches)[c := Cache(size, [], [], {})]
      ensures LiveSame(old(ram.View()), ram.View(), old(caches), {c})
      ensures SameOutside(old(ram.View()), ram.View(), Pages())
    {
      hide InMemory, Accounted, Represents, IsFree, LiveSame, SameOutside;
      InBounds(meta);
      ObjectPlace(ram.View(), caches, owner, meta, meta, c);
      assert c / PAGE_SIZE in owner.Keys;
      StructOutside(ram.View(), c, size, Pages());
      NewCacheWorld(ram.View(), caches, owner, meta, c, size);
      ram.Store(c / 8, size);
      ram.Store(c / 8 + 1, 0);
      ram.Store(c / 8 + 2, 0);
      caches := caches[c := Cache(size, [], [], {})];
    }

    /** The part of `slab_cache_create` that finds room for the new structure. */
    method NewStruct() returns (c: nat)
      requires Valid()
      modifies pmm`freeFrames, pmm`lastFreeIndex, pmm`free, pmm.bitmap, ram.cells, `caches, `owner, `metaInitialized
      ensures Valid() && meta in caches && (c != 0 ==> c in caches[meta].live && c !in caches)
      ensures c == 0 <==> old(pmm.free) == {} && (old(caches) == map[] || old(caches)[meta].free == [])
      ensures caches.Keys == old(caches).Keys + {meta}
      ensures caches[meta].live == (if old(caches) == map[] then {} else old(caches)[meta].live) + if c == 0 then {} else {c}
      ensures c != 0 ==> forall d :: d in old(caches) ==> c !in old(caches)[d].live
      ensures forall d :: d in old(caches) && d != meta ==> d in caches && caches[d] == old(caches)[d]
      ensures old(caches) != map[] ==> caches[meta].objSize == old(caches)[meta].objSize
      ensures PagesTaken(old(owner), owner, old(pmm.free), pmm.free)
      ensures LiveSame(old(ram.View()), ram.View(), old(caches), {})
      ensures SameOutside(old(ram.View()), ram.View(), Pages())
      ensures old(pmm.HintOk()) ==> pmm.HintOk()
    {
      hide InMemory, Accounted, Represents, IsFree, LiveSame, WorldOk, Payload, PagesTaken, SameOutside;
      ghost var m0, caches0 := ram.View(), caches;
      Bootstrap();
      BootstrapTouches(m0, ram.View(), caches0, caches);
      ghost var m1, caches1 := ram.View(), caches;
      MetaSize();
      ghost var pages, owner1, free1 := Pages(), owner, pmm.free;
      c := Alloc(meta);
      PagesOnlyGrow(owner1, owner, free1, pmm.free);
      SameOutsideTwice(m0, m1, ram.View(), pages, Pages());
      LiveSameAfter(m0, m1, ram.View(), caches0, caches1, {});
      if c != 0 {
        NewObjectIsNoCache(c, caches1);
      }
    }

    /** `slab_cache_create`: 0 when the bootstrap cache cannot grow. Sizes that wrap when rounded up are left out. */
    method CacheCreate(objSize: Word) returns (c: nat)
      requires Valid() && objSize + 8 <= U64
      modifies pmm`freeFrames, pmm`lastFreeIndex, pmm`free, pmm.bitmap, ram.cells, `caches, `owner, `metaInitialized
      ensures Valid() && meta in caches
      ensures c == 0 <==> old(pmm.free) == {} && (old(caches) == map[] || old(caches)[meta].free == [])
      ensures c == 0 ==> caches.Keys == old(caches).Keys + {meta}
      ensures c != 0 ==>
        && c !in old(caches) && c != meta && caches.Keys == old(caches).Keys + {meta, c}
        && caches[c] == Cache(AlignUp8(if objSize < 8 then 8 else objSize), [], [], {})
        && caches[meta].live == (if old(caches) == map[] then {} else old(caches)[meta].live) + {c}
      ensures forall d :: d in old(caches) && d != meta ==> d in caches && caches[d] == old(caches)[d]
      ensures PagesTaken(old(owner), owner, old(pmm.free), pmm.free)
      ensures LiveSame(old(ram.View()), ram.View(), old(caches), {})
      ensures SameOutside(old(ram.View()), ram.View(), Pages())
      ensures old(pmm.HintOk()) ==> pmm.HintOk()
    {
      hide InMemory, Accounted, Represents, IsFree, LiveSame, WorldOk, Payload, PagesTaken, SameOutside;
      ghost var m0, caches0 := ram.View(), caches;
      var size := AlignUp8(if objSize < 8 then 8 else objSize);
      if caches != map[] {
        MetaSize();
      }
      c := NewStruct();
      if c == 0 {
        return;
      }
      ghost var m1, caches1 := ram.View(), caches;
      InitStruct(c, size);
      SameOutsideTwice(m0, m1, ram.View(), Pages(), Pages());
      LiveSameNew(m0, m1, ram.View(), caches0, caches1, c);
    }

    lemma OwnersNotFree()
      requires Valid()
      ensures owner.Keys !! pmm.free
    {
      hide WorldOk;
    }

    lemma IsWorld()
      requires Valid()
      ensures WorldOk(ram.View(), caches, owner, meta) && ram.cells as object != pmm.bitmap as object
      ensures (pmm.first + pmm.totalFrames) * PAGE_WORDS <= ram.cells.Length && 0 < pmm.first
    {
      hide WorldOk;
    }

    lemma MetaSize()
      requires Valid() && caches != map[]
      ensures meta in caches && caches[meta].objSize == 32
      ensures forall c :: c in caches && c != meta ==> c in caches[meta].live
    {
    }

    lemma NewObjectIsNoCache(c: nat, caches1: map<nat, Cache>)
      requires Valid() && meta in caches && c in caches[meta].live && caches.Keys == caches1.Keys && meta in caches1
      requires c !in caches1[meta].live && forall d :: d in caches1 && d != meta ==> d in caches1[meta].live
      ensures c !in caches && c != meta && c != 0
      ensures forall d :: d in caches && d != meta ==> c !in caches[d].live
    {
      hide InMemory, Accounted;
      ObjectPlace(ram.View(), caches, owner, meta, meta, c);
      forall d | d in caches && d != meta
        ensures c !in caches[d].live
      {
        if c in caches[d].live {
          ObjectPlace(ram.View(), caches, owner, meta, d, c);
        }
      }
    }

    lemma HeadInMemoryOf(c: nat)
      requires Valid() && c in caches
      ensures c / 8 + 2 < ram.cells.Length && Ld(ram.View(), c / 8 + 2) == FreePtr(caches[c].free, 0)
      ensures Ld(ram.View(), c / 8 + 2) == 0 <==> caches[c].free == []
    {
      InBounds(c);
      if caches[c].free != [] {
        assert caches[c].free[0] in caches[c].free;
      }
    }
  }

  lemma BootstrapTouches(m0: seq<Word>, m1: seq<Word>, caches0: map<nat, Cache>, caches1: map<nat, Cache>)
    requires |m0| == |m1| && (m1 == m0 || caches0 == map[])
    ensures LiveSame(m0, m1, caches0, {})
  {
  }

  lemma LiveSameAfter(m0: seq<Word>, m1: seq<Word>, m2: seq<Word>, caches0: map<nat, Cache>, caches1: map<nat, Cache>, but: set<nat>)
    requires LiveSame(m0, m1, caches0, {}) && LiveSame(m1, m2, caches1, but) && (caches0 == caches1 || caches0 == map[])
    ensures LiveSame(m0, m2, caches0, but)
  {
    forall c, a: nat, w: nat | Payload(caches0, c, a, w) && a !in but && w < |m0|
      ensures m2[w] == m0[w]
    {
      assert Payload(caches1, c, a, w);
    }
  }

  /** Filling in object `c`, which was not live in `caches0`, touches no object live there. */
  lemma LiveSameNew(m0: seq<Word>, m1: seq<Word>, m2: seq<Word>, caches0: map<nat, Cache>, caches1: map<nat, Cache>, c: nat)
    requires LiveSame(m0, m1, caches0, {}) && LiveSame(m1, m2, caches1, {c})
    requires caches0 != map[] ==> caches0.Keys == caches1.Keys
    requires forall d :: d in caches0 ==> d in caches1 && caches0[d].live <= caches1[d].live && caches0[d].objSize == caches1[d].objSize
    requires forall d :: d in caches0 ==> c !in caches0[d].live
    ensures LiveSame(m0, m2, caches0, {})
  {
    forall d, a: nat, w: nat | Payload(caches0, d, a, w) && w < |m0|
      ensures m2[w] == m0[w]
    {
      assert Payload(caches1, d, a, w);
    }
  }

  /** From `caches0` to `caches1` only cache `c` changed, keeping its object size; its live objects are now `live`. */
  ghost predicate OnlyLive(caches0: map<nat, Cache>, caches1: map<nat, Cache>, c: nat, live: set<nat>) {
    && c in caches0 && c in caches1 && caches1 == caches0[c := caches1[c]]
    && caches1[c].objSize == caches0[c].objSize && caches1[c].live == live
  }

  /** Slab pages were only added, from free frames. */
  ghost predicate PagesTaken(owner0: map<nat, nat>, owner1: map<nat, nat>, free0: set<nat>, free1: set<nat>) {
    && (forall p :: p in owner0 ==> p in owner1 && owner1[p] == owner0[p])
    && owner1.Keys <= owner0.Keys + free0 && free1 == free0 - owner1.Keys
  }

  lemma PagesOnlyGrow(owner0: map<nat, nat>, owner1: map<nat, nat>, free0: set<nat>, free1: set<nat>)
    requires PagesTaken(owner0, owner1, free0, free1)
    ensures owner0.Keys <= owner1.Keys
  {
  }

  lemma HeadInMemory(m: seq<Word>, c: nat, k: Cache)
    requires InMemory(m, c, k) && k.free != []
    ensures Ld(m, c / 8 + 2) == k.free[0]
  {
  }

  /** A page yields at least one object exactly when one fits behind the header. */
  lemma AnyPageYields(size: nat)
    requires 0 < size
    ensures forall p :: PageObjects(p, size) == [] <==> PAGE_SIZE - FRAME_HEADER < size
    ensures forall p :: Reversed(PageObjects(p, size)) == [] <==> PAGE_SIZE - FRAME_HEADER < size
  {
  }

  lemma LiveSameTwice(m0: seq<Word>, m1: seq<Word>, m2: seq<Word>, caches0: map<nat, Cache>, caches1: map<nat, Cache>)
    requires LiveSame(m0, m1, caches0, {}) && LiveSame(m1, m2, caches1, {})
    requires caches0.Keys == caches1.Keys
    requires forall c :: c in caches0 ==> caches0[c].live == caches1[c].live && caches0[c].objSize == caches1[c].objSize
    ensures LiveSame(m0, m2, caches0, {})
  {
    forall c, a: nat, w: nat | Payload(caches0, c, a, w) && w < |m0|
      ensures m2[w] == m0[w]
    {
      assert Payload(caches1, c, a, w);
    }
  }

  lemma LiveSameAgain(m0: seq<Word>, m1: seq<Word>, m2: seq<Word>, caches: map<nat, Cache>, but: set<nat>)
    requires LiveSame(m0, m1, caches, but) && LiveSame(m1, m2, caches, but)
    ensures LiveSame(m0, m2, caches, but)
  {
  }

  lemma PositiveSize(k: Cache)
    requires Accounted(k)
    ensures 8 <= k.objSize
  {
  }

  lemma NothingTouched(m: seq<Word>, caches: map<nat, Cache>, pages: set<nat>)
    ensures LiveSame(m, m, caches, {}) && SameOutside(m, m, pages)
  {
  }

  lemma StructOutside(m: seq<Word>, c: nat, size: nat, pages: set<nat>)
    requires c / 8 + 2 < |m| && size < U64 && c % 8 == 0 && c + CACHE_STRUCT <= (c / PAGE_SIZE + 1) * PAGE_SIZE && c / PAGE_SIZE in pages
    ensures SameOutside(m, StructWritten(m, c, size), pages)
  {
  }

  lemma GrowOutside(m0: seq<Word>, m: seq<Word>, c: nat, p: nat, pages: set<nat>)
    requires OnlyGrew(m0, m, c, p) && p in pages && (c / 8 + 1) / PAGE_WORDS in pages && (c / 8 + 2) / PAGE_WORDS in pages
    ensures SameOutside(m0, m, pages)
  {
    forall q: nat, i: nat | q !in pages && i < 512
      ensures Entry(m, q, i) == Entry(m0, q, i)
    {
      assert (q * PAGE_WORDS + i) / PAGE_WORDS == q;
    }
  }

  lemma OnlyGrewTwice(m0: seq<Word>, m1: seq<Word>, m2: seq<Word>, c: nat, p: nat)
    requires OnlyGrew(m0, m1, c, p) && OnlyGrew(m1, m2, c, p)
    ensures OnlyGrew(m0, m2, c, p)
  {
  }

  lemma GrowingSize(m0: seq<Word>, m: seq<Word>, caches: map<nat, Cache>, owner: map<nat, nat>, meta: nat, c: nat, p: nat,
                    done: seq<nat>, ptr: nat)
    requires c in caches && 0 < caches[c].objSize && Growing(m0, m, caches, owner, meta, c, p, done, ptr)
    ensures Ld(m, c / 8) == caches[c].objSize
  {
  }

  lemma GrowingBounds(m0: seq<Word>, m: seq<Word>, caches: map<nat, Cache>, owner: map<nat, nat>, meta: nat, c: nat, p: nat,
                      done: seq<nat>, ptr: nat)
    requires c in caches && 0 < caches[c].objSize && Growing(m0, m, caches, owner, meta, c, p, done, ptr)
    ensures |m| == |m0| && (p + 1) * PAGE_WORDS <= |m|
  {
  }
}
