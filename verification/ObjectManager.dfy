/**
 The object manager over real storage: objects in slab memory with their ids and types in their headers, and the id table.
 Reference counts are the subject of `ObjectProtocol`; here every call runs alone, as it does between quiescent states.
 */
module ObjectManager {
  import opened Machine
  import opened Slab
  import H = HashTable
  import opened ObjectStorage

  const MAX_OBJECT_TYPES := 64

  /** A live object, known by the address of its header. */
  datatype Obj = Obj(typeId: nat, id: Word)

  /** The live objects of each type are exactly the live set of its slab cache. */
  ghost predicate TypesOk(caches: map<nat, Cache>, meta: nat, types: seq<nat>, objects: map<nat, Obj>) {
    && |types| <= MAX_OBJECT_TYPES
    && (forall i :: 0 <= i < |types| ==> types[i] in caches && types[i] != meta && OBJECT_HEADER <= caches[types[i]].objSize)
    && (forall i, j :: 0 <= i < j < |types| ==> types[i] != types[j])
    && (forall a :: a in objects ==> objects[a].typeId < |types|)
    && forall i, a :: 0 <= i < |types| ==> (a in caches[types[i]].live <==> a in objects && objects[a].typeId == i)
  }

  /** Each live object has its type id and object id in its header. */
  ghost predicate HeadersOk(m: seq<Word>, objects: map<nat, Obj>) {
    forall a :: a in objects ==> Ld(m, a / 8) % U32 == objects[a].typeId && Ld(m, a / 8 + 2) == objects[a].id
  }

  /** Object ids are distinct, nonzero and below the next one. */
  ghost predicate IdsOk(objects: map<nat, Obj>, nextId: nat) {
    && 0 < nextId < U32
    && (forall a :: a in objects ==> 0 < objects[a].id < nextId)
    && forall a, b :: a in objects && b in objects && objects[a].id == objects[b].id ==> a == b
  }

  /** What the id table holds under `id`: the live object with that id, once, or nothing. */
  ghost predicate Filed(stack: seq<nat>, objects: map<nat, Obj>, id: Word) {
    && |stack| <= 1
    && (stack != [] ==> stack[0] in objects && objects[stack[0]].id == id)
    && (stack == [] ==> forall a :: a in objects ==> objects[a].id != id)
  }

  lemma HeadersFromWords(m: seq<Word>, m': seq<Word>, objects: map<nat, Obj>)
    requires HeadersOk(m, objects) && SameHeaders(m, m', objects.Keys)
    ensures HeadersOk(m', objects)
  {
    assert forall a :: a in objects ==> SameHeader(m, m', a);
  }

  lemma HeaderAdded(m: seq<Word>, objects: map<nat, Obj>, a: nat, typeId: nat, id: Word)
    requires HeadersOk(m, objects) && FreshHeader(m, a, typeId, id)
    ensures HeadersOk(m, objects[a := Obj(typeId, id)])
  {
  }

  lemma HeadersTwice(m: seq<Word>, m1: seq<Word>, m2: seq<Word>, objs: set<nat>)
    requires SameHeaders(m, m1, objs) && SameHeaders(m1, m2, objs)
    ensures SameHeaders(m, m2, objs)
  {
    forall a | a in objs
      ensures SameHeader(m, m2, a)
    {
      assert SameHeader(m, m1, a) && SameHeader(m1, m2, a);
    }
  }

  /** The header words of live objects are payload, which only their own frees and creations touch. */
  lemma HeadersKept(m: seq<Word>, m': seq<Word>, caches: map<nat, Cache>, owner: map<nat, nat>, meta: nat, types: seq<nat>,
                    objects: map<nat, Obj>, but: set<nat>)
    requires WorldOk(m, caches, owner, meta) && TypesOk(caches, meta, types, objects) && HeadersOk(m, objects)
    requires LiveSame(m, m', caches, but) && forall a :: a in but ==> a !in objects
    ensures SameHeaders(m, m', objects.Keys) && HeadersOk(m', objects)
  {
    hide WorldOk;
    forall a | a in objects
      ensures SameHeader(m, m', a)
    {
      var c := types[objects[a].typeId];
      assert a in caches[c].live;
      OwnObject(m, caches, owner, meta, c, a);
      ObjectPlace(m, caches, owner, meta, c, a);
      assert Payload(caches, c, a, a / 8) && Payload(caches, c, a, a / 8 + 1);
      assert Payload(caches, c, a, a / 8 + 2) && Payload(caches, c, a, a / 8 + 3);
    }
    HeadersFromWords(m, m', objects);
  }

  lemma TypeAdded(caches: map<nat, Cache>, caches': map<nat, Cache>, meta: nat, types: seq<nat>, objects: map<nat, Obj>, c: nat)
    requires TypesOk(caches, meta, types, objects) && |types| < MAX_OBJECT_TYPES && c !in caches && c != meta
    requires c in caches' && caches'[c].live == {} && OBJECT_HEADER <= caches'[c].objSize
    requires forall d :: d in caches && d != meta ==> d in caches' && caches'[d] == caches[d]
    ensures TypesOk(caches', meta, types + [c], objects)
  {
  }

  lemma ObjectAdded(caches: map<nat, Cache>, caches': map<nat, Cache>, meta: nat, types: seq<nat>, objects: map<nat, Obj>, i: nat, a: nat, id: Word)
    requires TypesOk(caches, meta, types, objects) && i < |types| && a !in objects
    requires OnlyLive(caches, caches', types[i], caches[types[i]].live + {a})
    ensures TypesOk(caches', meta, types, objects[a := Obj(i, id)])
  {
  }

  lemma ObjectRemoved(caches: map<nat, Cache>, meta: nat, types: seq<nat>, objects: map<nat, Obj>, a: nat)
    requires TypesOk(caches, meta, types, objects) && a in objects
    ensures var c := types[objects[a].typeId];
      c in caches && TypesOk(caches[c := Given(caches[c], a)], meta, types, objects - {a})
  {
  }

  lemma NewAddress(m: seq<Word>, caches: map<nat, Cache>, caches': map<nat, Cache>, owner: map<nat, nat>, meta: nat, types: seq<nat>,
                   objects: map<nat, Obj>, i: nat, a: nat)
    requires TypesOk(caches, meta, types, objects) && i < |types| && WorldOk(m, caches', owner, meta)
    requires OnlyLive(caches, caches', types[i], caches[types[i]].live + {a}) && a !in caches[types[i]].live
    ensures a !in objects && a !in caches'
  {
    hide WorldOk;
    OwnObject(m, caches', owner, meta, types[i], a);
    ObjectPlace(m, caches', owner, meta, types[i], a);
    if a in objects {
      ObjectPlace(m, caches', owner, meta, types[objects[a].typeId], a);
    }
  }

  lemma FiledNew(stack: seq<nat>, objects: map<nat, Obj>, k: Word, a: nat, o: Obj)
    requires Filed(stack, objects, k) && a !in objects && forall b :: b in objects ==> objects[b].id != o.id
    ensures Filed(if k == o.id then [a] + stack else stack, objects[a := o], k)
  {
  }

  lemma IdsWithNew(objects: map<nat, Obj>, id: Word, a: nat, typeId: nat)
    requires IdsOk(objects, id) && a !in objects && id + 1 < U32
    ensures IdsOk(objects[a := Obj(typeId, id)], id + 1)
  {
  }

  lemma FiledLess(stack: seq<nat>, objects: map<nat, Obj>, k: Word, a: nat)
    requires Filed(stack, objects, k) && a in objects
    requires forall b, d :: b in objects && d in objects && objects[b].id == objects[d].id ==> b == d
    ensures Filed(H.Popped(stack, k == objects[a].id), objects - {a}, k)
  {
  }

  /** The cache has no free object and cannot grow one: no frame is free, or an object does not fit a page. */
  ghost predicate NoRoom(k: Cache, free: set<nat>) {
    k.free == [] && (free == {} || PAGE_SIZE - FRAME_HEADER < k.objSize)
  }

  class Manager {
    const slab: SlabWorld
    const table: H.HashTable

    /** The slab cache of each registered type. */
    var types: seq<nat>
    var nextId: nat

    ghost var objects: map<nat, Obj>

    ghost predicate Valid()
      reads this, slab, slab.pmm, slab.pmm.bitmap, slab.ram.cells, table, table.buckets, table.repr
    {
      && slab.Valid() && table.Valid()
      && table.buckets as object != slab.ram.cells as object && table.buckets as object != slab.pmm.bitmap as object
      && TypesOk(slab.caches, slab.meta, types, objects) && HeadersOk(slab.ram.View(), objects) && IdsOk(objects, nextId)
      && forall id: Word {:trigger table.Stack(id)} :: Filed(table.Stack(id), objects, id)
    }

    /** `ob_init`. */
    constructor (slab: SlabWorld, hash: Word -> nat)
      requires slab.Valid()
      ensures Valid() && this.slab == slab && fresh(table) && fresh(table.buckets) && objects == map[] && types == [] && nextId == 1
    {
      this.slab := slab;
      table := new H.HashTable(hash, 4096);
      types := [];
      nextId := 1;
      objects := map[];
    }

    /** `object_type_register`; `None` stands for its panics: the type table is full, or no frame is left for the cache's structure. */
    method RegisterType(instanceSize: Word) returns (idx: Option<nat>)
      requires Valid() && instanceSize + OBJECT_HEADER + 8 <= U64
      modifies this`types, slab.pmm`freeFrames, slab.pmm`lastFreeIndex, slab.pmm`free, slab.pmm.bitmap, slab.ram.cells,
        slab`caches, slab`owner, slab`metaInitialized
      ensures Valid()
      ensures idx == None <==>
        || |old(types)| == 64
        || (old(slab.pmm.free) == {} && (old(slab.caches) == map[] || old(slab.caches)[slab.meta].free == []))
      ensures idx == None ==> types == old(types)
      ensures SameHeaders(old(slab.ram.View()), slab.ram.View(), objects.Keys)
      ensures idx.Some? ==>
        && idx.value == |old(types)| && |types| == idx.value + 1 && types[..idx.value] == old(types)
        && types[idx.value] !in old(slab.caches) && types[idx.value] in slab.caches
        && slab.caches[types[idx.value]].live == {} && slab.caches[types[idx.value]].objSize == (48 + instanceSize + 7) / 8 * 8
    {
      hide SlabWorld.Valid, LiveSame, SameOutside, PagesTaken, Filed, WorldOk, TypesOk, HeadersOk, IdsOk, H.HashTable.Valid;
      TypeCount();
      if |types| >= MAX_OBJECT_TYPES {
        return None;
      }
      ghost var m, caches, owner := slab.ram.View(), slab.caches, slab.owner;
      slab.IsWorld();
      var c := slab.CacheCreate(OBJECT_HEADER + instanceSize);
      HeadersKept(m, slab.ram.View(), caches, owner, slab.meta, types, objects, {});
      if c == 0 {
        SameTypesAfter(caches, slab.caches, slab.meta, types, objects);
        return None;
      }
      TypeAdded(caches, slab.caches, slab.meta, types, objects, c);
      types := types + [c];
      return Some(|types| - 1);
    }

    lemma TypeCount()
      requires Valid()
      ensures |types| <= MAX_OBJECT_TYPES && (slab.caches != map[] ==> slab.meta in slab.caches)
    {
      hide SlabWorld.Valid, InMemory, Accounted;
      slab.IsWorld();
    }

    /** The allocation and the header of `object_create`, and its failing callback. */
    method NewHeader(typeId: nat, callbackOk: bool) returns (obj: nat)
      requires Valid() && typeId < |types| && nextId + 1 < U32
      modifies this`nextId, slab.pmm`freeFrames, slab.pmm`lastFreeIndex, slab.pmm`free, slab.pmm.bitmap, slab.ram.cells,
        slab`caches, slab`owner
      ensures slab.Valid() && table.buckets as object != slab.ram.cells as object && table.buckets as object != slab.pmm.bitmap as object
      ensures HeadersOk(slab.ram.View(), objects) && old(nextId) <= nextId < U32
      ensures types[typeId] in old(slab.caches) && (obj == 0 <==> !callbackOk || NoRoom(old(slab.caches)[types[typeId]], old(slab.pmm.free)))
      ensures obj == 0 ==> TypesOk(slab.caches, slab.meta, types, objects)
      ensures obj != 0 ==>
        && callbackOk && obj !in objects && nextId == old(nextId) + 1
        && TypesOk(slab.caches, slab.meta, types, objects[obj := Obj(typeId, old(nextId))])
        && HeadersOk(slab.ram.View(), objects[obj := Obj(typeId, old(nextId))])
        && FreshHeader(slab.ram.View(), obj, typeId, old(nextId))
      ensures SameHeaders(old(slab.ram.View()), slab.ram.View(), objects.Keys)
    {
      hide SlabWorld.Valid, LiveSame, SameOutside, PagesTaken, Filed, WorldOk, FreshHeader, SameHeaders, HeadersOk, H.HashTable.Valid;
      ghost var m, caches, owner := slab.ram.View(), slab.caches, slab.owner;
      slab.IsWorld();
      var c := types[typeId];
      var a := slab.Alloc(c);
      slab.IsWorld();
      HeadersKept(m, slab.ram.View(), caches, owner, slab.meta, types, objects, {});
      if a == 0 {
        SameTypes(caches, slab.caches, slab.meta, types, objects, c);
        return 0;
      }
      ghost var m1, caches1 := slab.ram.View(), slab.caches;
      NewAddress(m1, caches, caches1, slab.owner, slab.meta, types, objects, typeId, a);
      ObjectAdded(caches, caches1, slab.meta, types, objects, typeId, a, nextId);
      var id := nextId;
      nextId := nextId + 1;
      InitHeader(slab, c, a, typeId, id);
      OldHeadersKept(m1, slab.ram.View(), caches1, slab.owner, slab.meta, types, objects, a, Obj(typeId, id));
      HeadersTwice(m, m1, slab.ram.View(), objects.Keys);
      if !callbackOk {
        ghost var m2 := slab.ram.View();
        slab.IsWorld();
        slab.Free(c, a);
        OldHeadersKept(m2, slab.ram.View(), caches1, slab.owner, slab.meta, types, objects, a, Obj(typeId, id));
        HeadersTwice(m, m2, slab.ram.View(), objects.Keys);
        ObjectRemoved(caches1, slab.meta, types, objects[a := Obj(typeId, id)], a);
        assert objects[a := Obj(typeId, id)] - {a} == objects;
        return 0;
      }
      HeaderAdded(slab.ram.View(), objects, a, typeId, id);
      return a;
    }

    /** `object_create`; `callbackOk` is what the type's create callback answers. Ids that wrap are left out. */
    method Create(typeId: nat, callbackOk: bool) returns (obj: nat)
      requires Valid() && typeId < |types| && nextId + 1 < U32
      modifies this`nextId, this`objects, slab.pmm`freeFrames, slab.pmm`lastFreeIndex, slab.pmm`free, slab.pmm.bitmap, slab.ram.cells,
        slab`caches, slab`owner, table, table.buckets
      ensures Valid()
      ensures types[typeId] in old(slab.caches) && (obj == 0 <==> !callbackOk || NoRoom(old(slab.caches)[types[typeId]], old(slab.pmm.free)))
      ensures obj == 0 ==> objects == old(objects)
      ensures obj != 0 ==> callbackOk && obj !in old(objects) && objects == old(objects)[obj := Obj(typeId, old(nextId))]
      ensures obj != 0 ==> nextId == old(nextId) + 1 && FreshHeader(slab.ram.View(), obj, typeId, old(nextId))
      ensures SameHeaders(old(slab.ram.View()), slab.ram.View(), old(objects).Keys)
    {
      hide SlabWorld.Valid, TypesOk, HeadersOk, Filed, FreshHeader, SameHeaders, H.HashTable.Valid;
      var id := nextId;
      obj := NewHeader(typeId, callbackOk);
      if obj == 0 {
        return;
      }
      TableUsable();
      label Before:
      ghost var was := objects;
      table.Insert(id, obj);
      TableUsable();
      objects := objects[obj := Obj(typeId, id)];
      forall k: Word
        ensures Filed(table.Stack(k), objects, k)
      {
        FiledNew(old@Before(table.Stack(k)), was, k, obj, Obj(typeId, id));
      }
      IdsWithNew(was, id, obj, typeId);
    }

    /** The end of `object_maybe_destroy`: the object leaves the id table and its memory goes back to its type's cache. */
    method Destroy(obj: nat)
      requires Valid() && obj in objects
      modifies this`objects, slab.ram.cells, slab`caches, table, table.buckets, table.repr
      ensures Valid() && objects == old(objects) - {obj}
      ensures SameHeaders(old(slab.ram.View()), slab.ram.View(), objects.Keys)
    {
      hide SlabWorld.Valid, SameHeaders, LiveSame, SameOutside, Filed, WorldOk, H.HashTable.Valid, H.StackIn, H.RemoveIn;
      slab.IsWorld();
      LiveObjectInMemory(obj);
      ghost var m, caches := slab.ram.View(), slab.caches;
      var typeId := slab.ram.Load(obj / 8) % U32;
      var id := slab.ram.Load(obj / 8 + 2);
      ObjectRemoved(caches, slab.meta, types, objects, obj);
      RestOfHeaders(m, caches, slab.owner, slab.meta, types, objects, obj);
      Unfile(obj, id);
      slab.Free(types[typeId], obj);
      objects := objects - {obj};
    }

    /** Taking a live object out of the id table. */
    method Unfile(ghost obj: nat, id: Word)
      requires Valid() && obj in objects && objects[obj].id == id
      modifies table, table.buckets, table.repr
      ensures slab.Valid() && table.Valid() && IdsOk(objects - {obj}, nextId)
      ensures forall k: Word {:trigger table.Stack(k)} :: Filed(table.Stack(k), objects - {obj}, k)
    {
      hide SlabWorld.Valid, TypesOk, HeadersOk, Filed, H.HashTable.Valid, H.StackIn, H.RemoveIn;
      TableUsable();
      label Before:
      table.Remove(id);
      TableUsable();
      forall k: Word
        ensures Filed(table.Stack(k), objects - {obj}, k)
      {
        FiledLess(old@Before(table.Stack(k)), objects, k, obj);
      }
    }

    lemma LiveObjectInMemory(obj: nat)
      requires Valid() && obj in objects
      ensures obj / 8 + 2 < slab.ram.cells.Length && obj !in slab.caches
      ensures types[objects[obj].typeId] in slab.caches && obj in slab.caches[types[objects[obj].typeId]].live
    {
      hide SlabWorld.Valid, WorldOk, Filed, H.HashTable.Valid;
      slab.IsWorld();
      var c := types[objects[obj].typeId];
      slab.InBounds(c);
      OwnObject(slab.ram.View(), slab.caches, slab.owner, slab.meta, c, obj);
    }

    lemma TableUsable()
      requires table.Valid()
      ensures 0 < table.buckets.Length && |table.table| == table.buckets.Length
    {
    }
  }

  lemma SameTypesAfter(caches: map<nat, Cache>, caches': map<nat, Cache>, meta: nat, types: seq<nat>, objects: map<nat, Obj>)
    requires TypesOk(caches, meta, types, objects) && forall d :: d in caches && d != meta ==> d in caches' && caches'[d] == caches[d]
    ensures TypesOk(caches', meta, types, objects)
  {
  }

  lemma SameTypes(caches: map<nat, Cache>, caches': map<nat, Cache>, meta: nat, types: seq<nat>, objects: map<nat, Obj>, c: nat)
    requires TypesOk(caches, meta, types, objects) && c in caches && OnlyLive(caches, caches', c, caches[c].live)
    ensures TypesOk(caches', meta, types, objects)
  {
  }

  /** Writing the header of `a`, or the link of its free node, keeps the headers of the others. */
  lemma OldHeadersKept(m: seq<Word>, m': seq<Word>, caches: map<nat, Cache>, owner: map<nat, nat>, meta: nat, types: seq<nat>,
                       objects: map<nat, Obj>, a: nat, o: Obj)
    requires WorldOk(m, caches, owner, meta) && TypesOk(caches, meta, types, objects[a := o]) && HeadersOk(m, objects) && a !in objects
    requires LiveSame(m, m', caches, {a})
    ensures SameHeaders(m, m', objects.Keys) && HeadersOk(m', objects)
  {
    hide WorldOk;
    forall b | b in objects
      ensures SameHeader(m, m', b)
    {
      assert b in objects[a := o] && objects[a := o][b] == objects[b];
      var c := types[objects[b].typeId];
      assert b in caches[c].live;
      OwnObject(m, caches, owner, meta, c, b);
      ObjectPlace(m, caches, owner, meta, c, b);
      assert Payload(caches, c, b, b / 8) && Payload(caches, c, b, b / 8 + 1);
      assert Payload(caches, c, b, b / 8 + 2) && Payload(caches, c, b, b / 8 + 3);
    }
    HeadersFromWords(m, m', objects);
  }

  lemma RestOfHeaders(m: seq<Word>, caches: map<nat, Cache>, owner: map<nat, nat>, meta: nat, types: seq<nat>, objects: map<nat, Obj>, a: nat)
    requires WorldOk(m, caches, owner, meta) && TypesOk(caches, meta, types, objects) && HeadersOk(m, objects) && a in objects
    ensures forall m' :: LiveSame(m, m', caches, {a}) ==> HeadersOk(m', objects - {a}) && SameHeaders(m, m', objects.Keys - {a})
  {
    hide WorldOk;
    forall m' | LiveSame(m, m', caches, {a})
      ensures HeadersOk(m', objects - {a}) && SameHeaders(m, m', objects.Keys - {a})
    {
      assert (objects - {a}).Keys == objects.Keys - {a};
      assert (objects - {a})[a := objects[a]] == objects;
      OldHeadersKept(m, m', caches, owner, meta, types, objects - {a}, a, objects[a]);
    }
  }
}
