/**
 A client of the memory stack, as the client sees it: the blocks, address spaces, caches and objects it holds, and what it knows to be in
 them. Every operation either does exactly one thing to this view or leaves it alone.
 */
module ClientModel {
  import opened Machine
  import opened Bytes
  import opened Slab
  import opened KHeap
  import opened PageTree
  import opened TableMemory
  import opened Arm64Paging
  import opened Arm64History
  import opened MemoryStack

  /** A call or a store by a client that touches only what it holds: `k` is an index into what it holds. */
  datatype Op =
    | MallocOp(size: Word)
    | CallocOp(num: Word, size: Word)
    | FreeOp(k: nat)
    | FreeSizedOp(k: nat, size: Word)
    | ReallocOp(k: nat, size: Word)
    | WriteOp(k: nat, i: nat, b: nat)
    | CreateOp
    | DestroyOp(k: nat)
    | MapPageOp(k: nat, va: Word, phys: Word, prot: nat)
    | UnmapPageOp(k: nat, va: Word)
    | CacheOp(objSize: Word)
    | ObjectOp(k: nat)
    | WriteObjectOp(k: nat, w: nat, v: Word)
    | FreeObjectOp(k: nat)

  /** What the client holds: heap pointers with the size each was allocated with, address spaces, caches, and objects with their caches. */
  datatype Held = Held(ptrs: seq<nat>, sizes: map<nat, Word>, spaces: seq<nat>, caches: seq<nat>, objects: seq<(nat, nat)>)

  type Contents = map<nat, seq<int>>
  type Pages = map<nat, map<nat, Word>>
  type Words = map<(nat, nat), seq<int>>

  /** What the client knows: the bytes behind each pointer, the leaf word of each page of each space, the words of each object. */
  datatype Known = Known(data: Contents, pages: Pages, words: Words)

  function Without<T>(s: seq<T>, k: nat): (r: seq<T>)
    requires k < |s|
  {
    s[..k] + s[k + 1..]
  }

  ghost predicate Distinct<T>(s: seq<T>) {
    forall i, j :: 0 <= i < j < |s| ==> s[i] != s[j]
  }

  lemma WithoutDistinct<T>(s: seq<T>, k: nat)
    requires k < |s| && Distinct(s)
    ensures Distinct(Without(s, k)) && forall x :: x in Without(s, k) <==> x in s && x != s[k]
  {
    var r := Without(s, k);
    forall i | 0 <= i < |r|
      ensures r[i] == s[if i < k then i else i + 1]
    {
    }
    forall x | x in s && x != s[k]
      ensures x in r
    {
      var i :| 0 <= i < |s| && s[i] == x;
      assert r[if i < k then i else i - 1] == x;
    }
  }

  lemma AddDistinct<T>(s: seq<T>, x: T)
    requires Distinct(s) && x !in s
    ensures Distinct(s + [x]) && forall y :: y in s + [x] <==> y in s || y == x
  {
  }

  /** How many bytes of a block the client may use: all it asked for, unless rounding the size up to pages wraps. */
  function Room(size: Word): nat {
    if size + HEADER + PAGE_SIZE <= U64 then size else PAGE_SIZE - HEADER
  }

  lemma RoomInBlock(h: nat, size: Word)
    ensures h + HEADER + Room(size) <= End(h, size)
  {
    BlockHoldsExactly(h, size);
    if U64 < size + HEADER + PAGE_SIZE {
      WrappedPages(size);
    }
  }

  function SetAt(s: seq<int>, i: nat, b: int): seq<int>
    requires i < |s|
  {
    s[i := b]
  }

  ghost predicate Cleared(s: seq<int>) {
    forall i :: 0 <= i < |s| ==> s[i] == 0
  }

  function Gain(held: Held, p: nat, size: Word): Held {
    held.(ptrs := held.ptrs + [p], sizes := held.sizes[p := size])
  }

  function Lose(held: Held, k: nat): Held
    requires k < |held.ptrs|
  {
    held.(ptrs := Without(held.ptrs, k), sizes := held.sizes - {held.ptrs[k]})
  }

  function Learn(known: Known, p: nat, bytes: seq<int>): Known {
    known.(data := known.data[p := bytes])
  }

  function Forget(known: Known, p: nat): Known {
    known.(data := known.data - {p})
  }

  function Mapped(pages: map<nat, Word>, vpn: nat, e: Word): map<nat, Word> {
    pages[vpn := e]
  }

  function Unmapped(pages: map<nat, Word>, vpn: nat): map<nat, Word> {
    pages - {vpn}
  }

  // What an operation that is served does

  /** A new pointer `p` with `size` bytes of room. */
  ghost predicate Gains(held: Held, known: Known, next: Held, now: Known, p: nat, size: Word) {
    && next == Gain(held, p, size) && p !in known.data && p in now.data && |now.data[p]| == Room(size)
    && now == Learn(known, p, now.data[p])
  }

  /** The last pointer held, if any. */
  function LastPtr(held: Held): nat {
    if held.ptrs == [] then 0 else held.ptrs[|held.ptrs| - 1]
  }

  ghost predicate Reallocated(held: Held, known: Known, next: Held, now: Known, k: nat, size: Word) {
    && k < |held.ptrs| && held.ptrs[k] in held.sizes && held.ptrs[k] in known.data
    && var p, q := held.ptrs[k], LastPtr(next);
    if size == 0 then next == Lose(held, k) && now == Forget(known, p)
    else if size <= held.sizes[p] then next == held && now == known
    else Gains(Lose(held, k), Forget(known, p), next, now, q, size) && q !in known.data && known.data[p] <= now.data[q]
  }

  /** A new space appears last, with no page mapped. */
  ghost predicate Opened(held: Held, known: Known, next: Held, now: Known) {
    && |next.spaces| == |held.spaces| + 1
    && var p := next.spaces[|held.spaces|];
    next == held.(spaces := held.spaces + [p]) && p !in known.pages && now == known.(pages := known.pages[p := map[]])
  }

  ghost predicate Repaged(held: Held, known: Known, now: Known, k: nat, pages: map<nat, Word>) {
    k < |held.spaces| && now == known.(pages := known.pages[held.spaces[k] := pages])
  }

  /** A new object of cache `k` appears last. */
  ghost predicate Built(held: Held, known: Known, next: Held, now: Known, k: nat) {
    && k < |held.caches| && |next.objects| == |held.objects| + 1
    && var o := next.objects[|held.objects|];
    && o.0 == held.caches[k] && next == held.(objects := held.objects + [o]) && o !in known.words && o in now.words
    && now == known.(words := known.words[o := now.words[o]])
  }

  ghost predicate Does(op: Op, held: Held, known: Known, next: Held, now: Known) {
    match op
    case MallocOp(size) => Gains(held, known, next, now, LastPtr(next), size)
    case CallocOp(num, size) =>
      && Product(num, size) < U64 && Gains(held, known, next, now, LastPtr(next), Product(num, size))
      && Cleared(now.data[LastPtr(next)])
    case FreeOp(k) => k < |held.ptrs| && next == Lose(held, k) && now == Forget(known, held.ptrs[k])
    case FreeSizedOp(k, _) => k < |held.ptrs| && next == Lose(held, k) && now == Forget(known, held.ptrs[k])
    case ReallocOp(k, size) => Reallocated(held, known, next, now, k, size)
    case WriteOp(k, i, b) =>
      && next == held && k < |held.ptrs| && held.ptrs[k] in known.data && i < |known.data[held.ptrs[k]]|
      && now == Learn(known, held.ptrs[k], SetAt(known.data[held.ptrs[k]], i, b))
    case CreateOp => Opened(held, known, next, now)
    case DestroyOp(k) =>
      && k < |held.spaces| && next == held.(spaces := Without(held.spaces, k))
      && now == known.(pages := known.pages - {held.spaces[k]})
    case MapPageOp(k, va, phys, prot) =>
      && next == held && k < |held.spaces| && held.spaces[k] in known.pages
      && Repaged(held, known, now, k, Mapped(known.pages[held.spaces[k]], Vpn(va), LeafEntry(phys, prot)))
    case UnmapPageOp(k, va) =>
      && next == held && k < |held.spaces| && held.spaces[k] in known.pages
      && Repaged(held, known, now, k, Unmapped(known.pages[held.spaces[k]], Vpn(va)))
    case CacheOp(_) =>
      && now == known && |next.caches| == |held.caches| + 1 && next.caches[|held.caches|] !in held.caches
      && next == held.(caches := held.caches + [next.caches[|held.caches|]])
    case ObjectOp(k) => Built(held, known, next, now, k)
    case WriteObjectOp(k, w, v) =>
      && next == held && k < |held.objects| && held.objects[k] in known.words && w < |known.words[held.objects[k]]|
      && now == known.(words := known.words[held.objects[k] := SetAt(known.words[held.objects[k]], w, v)])
    case FreeObjectOp(k) =>
      && k < |held.objects| && next == held.(objects := Without(held.objects, k))
      && now == known.(words := known.words - {held.objects[k]})
  }

  /** An operation that is not served changes nothing the client can see. */
  ghost predicate ClientStep(op: Op, served: bool, held: Held, known: Known, next: Held, now: Known) {
    if served then Does(op, held, known, next, now) else next == held && now == known
  }

  // What stays along a run

  /** The view along a run: `trace[i]` is before operation `i`, and `served[i]` says whether that operation was served. */
  ghost predicate IsTrace(ops: seq<Op>, served: seq<bool>, trace: seq<(Held, Known)>) {
    && |trace| == |served| + 1 && |served| <= |ops|
    && forall i :: 0 <= i < |served| ==> ClientStep(ops[i], served[i], trace[i].0, trace[i].1, trace[i + 1].0, trace[i + 1].1)
  }

  lemma TraceGrows(ops: seq<Op>, served: seq<bool>, trace: seq<(Held, Known)>, ok: bool, next: Held, now: Known)
    requires IsTrace(ops, served, trace) && |served| < |ops|
    requires ClientStep(ops[|served|], ok, trace[|served|].0, trace[|served|].1, next, now)
    ensures IsTrace(ops, served + [ok], trace + [(next, now)])
  {
    hide ClientStep;
  }

  /** The operation frees, moves or writes the block at `p`. */
  predicate TouchesBlock(op: Op, held: Held, p: nat) {
    (op.FreeOp? || op.FreeSizedOp? || op.ReallocOp? || op.WriteOp?) && op.k < |held.ptrs| && held.ptrs[op.k] == p
  }

  /** The operation maps, unmaps or destroys in the space at `p`. */
  predicate TouchesSpace(op: Op, held: Held, p: nat) {
    (op.DestroyOp? || op.MapPageOp? || op.UnmapPageOp?) && op.k < |held.spaces| && held.spaces[op.k] == p
  }

  /** The operation writes or frees object `o`. */
  predicate TouchesObject(op: Op, held: Held, o: (nat, nat)) {
    (op.WriteObjectOp? || op.FreeObjectOp?) && op.k < |held.objects| && held.objects[op.k] == o
  }

  lemma StepSparesBlock(op: Op, served: bool, held: Held, known: Known, next: Held, now: Known, p: nat)
    requires ClientStep(op, served, held, known, next, now) && p in known.data && !TouchesBlock(op, held, p)
    ensures p in now.data && now.data[p] == known.data[p]
  {
    hide Gain, Lose, Room, Product, Cleared, Opened, Built, Repaged;
    PagesOnly(op, held, known, next, now);
  }

  lemma StepSparesSpace(op: Op, served: bool, held: Held, known: Known, next: Held, now: Known, p: nat)
    requires ClientStep(op, served, held, known, next, now) && p in known.pages && !TouchesSpace(op, held, p)
    ensures p in now.pages && now.pages[p] == known.pages[p]
  {
    hide Gain, Lose, Room, Product, Cleared, Built;
    PagesOnly(op, held, known, next, now);
  }

  lemma StepSparesObject(op: Op, served: bool, held: Held, known: Known, next: Held, now: Known, o: (nat, nat))
    requires ClientStep(op, served, held, known, next, now) && o in known.words && !TouchesObject(op, held, o)
    ensures o in now.words && now.words[o] == known.words[o]
  {
    hide Gain, Lose, Room, Product, Cleared, Opened, Repaged;
    PagesOnly(op, held, known, next, now);
  }

  /** Calls on address spaces leave bytes and words alone, calls on objects leave bytes alone. */
  lemma PagesOnly(op: Op, held: Held, known: Known, next: Held, now: Known)
    ensures Opened(held, known, next, now) ==> now.data == known.data && now.words == known.words
    ensures forall k: nat, pages :: Repaged(held, known, now, k, pages) ==> now.data == known.data && now.words == known.words
    ensures forall k: nat :: Built(held, known, next, now, k) ==> now.data == known.data && now.pages == known.pages
  {
  }

  /** Bytes stay what they are until the client itself touches their block. */
  lemma {:induction false} UntouchedBytes(ops: seq<Op>, served: seq<bool>, trace: seq<(Held, Known)>, p: nat, i: nat, j: nat)
    requires IsTrace(ops, served, trace) && i <= j < |trace| && p in trace[i].1.data
    requires forall n :: i <= n < j ==> !TouchesBlock(ops[n], trace[n].0, p)
    ensures p in trace[j].1.data && trace[j].1.data[p] == trace[i].1.data[p]
    decreases j
  {
    hide ClientStep;
    if i < j {
      UntouchedBytes(ops, served, trace, p, i, j - 1);
      StepSparesBlock(ops[j - 1], served[j - 1], trace[j - 1].0, trace[j - 1].1, trace[j].0, trace[j].1, p);
    }
  }

  /** So do the pages of an address space, whatever happens in other spaces. */
  lemma {:induction false} UntouchedPages(ops: seq<Op>, served: seq<bool>, trace: seq<(Held, Known)>, p: nat, i: nat, j: nat)
    requires IsTrace(ops, served, trace) && i <= j < |trace| && p in trace[i].1.pages
    requires forall n :: i <= n < j ==> !TouchesSpace(ops[n], trace[n].0, p)
    ensures p in trace[j].1.pages && trace[j].1.pages[p] == trace[i].1.pages[p]
    decreases j
  {
    hide ClientStep;
    if i < j {
      UntouchedPages(ops, served, trace, p, i, j - 1);
      StepSparesSpace(ops[j - 1], served[j - 1], trace[j - 1].0, trace[j - 1].1, trace[j].0, trace[j].1, p);
    }
  }

  /** And the words of an object. */
  lemma {:induction false} UntouchedObject(ops: seq<Op>, served: seq<bool>, trace: seq<(Held, Known)>, o: (nat, nat), i: nat, j: nat)
    requires IsTrace(ops, served, trace) && i <= j < |trace| && o in trace[i].1.words
    requires forall n :: i <= n < j ==> !TouchesObject(ops[n], trace[n].0, o)
    ensures o in trace[j].1.words && trace[j].1.words[o] == trace[i].1.words[o]
    decreases j
  {
    hide ClientStep;
    if i < j {
      UntouchedObject(ops, served, trace, o, i, j - 1);
      StepSparesObject(ops[j - 1], served[j - 1], trace[j - 1].0, trace[j - 1].1, trace[j].0, trace[j].1, o);
    }
  }

  // How memory bears the view out

  /** The client's pointers are live blocks that are no root structures, and memory holds the bytes it knows. */
  ghost predicate PtrsOk(m: seq<Word>, blocks: map<nat, Word>, roots: map<nat, nat>, ptrs: seq<nat>, sizes: map<nat, Word>, data: Contents) {
    && Distinct(ptrs) && (forall p :: p in data <==> p in ptrs)
    && forall p :: p in ptrs ==>
         && HEADER <= p && p - HEADER in blocks && p !in roots && p in sizes && sizes[p] == blocks[p - HEADER]
         && |data[p]| == Room(sizes[p]) && BytesAt(m, p, |data[p]|) == data[p]
  }

  /** Its spaces are live, and their trees are the pages it knows. */
  ghost predicate SpacesOk(m: seq<Word>, roots: map<nat, nat>, spaces: seq<nat>, pages: Pages) {
    && Distinct(spaces) && (forall p :: p in pages <==> p in spaces)
    && forall p :: p in spaces ==> p in roots && Means(m, roots[p], pages[p])
  }

  ghost predicate Foreign(caches: map<nat, Cache>, meta: nat, buckets: seq<nat>, c: nat) {
    c in caches && c != meta && c !in buckets
  }

  /** The `n` words from word `k` on. */
  ghost function WordsAt(m: seq<Word>, k: nat, n: nat): (r: seq<int>)
    ensures |r| == n
  {
    seq(n, i requires 0 <= i < n => Ld(m, k + i))
  }

  ghost function ObjectWords(m: seq<Word>, caches: map<nat, Cache>, o: (nat, nat)): seq<int> {
    if o.0 in caches then WordsAt(m, o.1 / 8, caches[o.0].objSize / 8) else []
  }

  /** Its caches are its own, its objects are live in them, and memory holds the words it knows. */
  ghost predicate ObjectsOk(m: seq<Word>, caches: map<nat, Cache>, meta: nat, buckets: seq<nat>, cs: seq<nat>, objects: seq<(nat, nat)>, words: Words) {
    && (forall c :: c in cs ==> Foreign(caches, meta, buckets, c))
    && Distinct(objects) && (forall o :: o in words <==> o in objects)
    && forall o :: o in objects ==>
         Foreign(caches, meta, buckets, o.0) && o.1 in caches[o.0].live && ObjectWords(m, caches, o) == words[o]
  }

  ghost predicate Keeps(k: KernelMemory, held: Held, known: Known)
    reads k, k.heap, k.heap.buckets, k.heap.slab, k.heap.slab.ram.cells
  {
    && PtrsOk(k.heap.slab.ram.View(), k.heap.blocks, k.roots, held.ptrs, held.sizes, known.data)
    && SpacesOk(k.heap.slab.ram.View(), k.roots, held.spaces, known.pages)
    && ObjectsOk(k.heap.slab.ram.View(), k.heap.slab.caches, k.heap.slab.meta, k.heap.buckets[..], held.caches, held.objects, known.words)
  }

  // What the kernel's state gives the lemmas below

  ghost predicate HeadersAligned(blocks: map<nat, Word>) {
    forall h :: h in blocks ==> h % 8 == 0
  }

  ghost predicate RootsHaveHeaders(blocks: map<nat, Word>, roots: map<nat, nat>) {
    forall p :: p in roots ==> HEADER <= p && p - HEADER in blocks
  }

  /** Each space has a tree of its own. */
  ghost predicate RootsAreTables(nodes: map<nat, Node>, roots: map<nat, nat>) {
    && (forall p :: p in roots ==> IsRoot(nodes, roots[p]))
    && forall p, q :: p in roots && q in roots && roots[p] == roots[q] ==> p == q
  }

  /** Objects of other users' caches are no cache structures, consist of whole words, and belong to one cache each. */
  ghost predicate PlainObjects(caches: map<nat, Cache>, meta: nat, buckets: seq<nat>) {
    && (forall c, a :: Foreign(caches, meta, buckets, c) && a in caches[c].live ==>
          a !in caches && a % 8 == 0 && caches[c].objSize % 8 == 0)
    && forall c, d, a :: Foreign(caches, meta, buckets, c) && Foreign(caches, meta, buckets, d) && a in caches[c].live && a in caches[d].live ==>
         c == d
  }

  lemma BlocksAndRoots(k: KernelMemory)
    requires k.Valid()
    ensures HeadersAligned(k.heap.blocks) && RootsHaveHeaders(k.heap.blocks, k.roots)
  {
    hide KernelHeap.Valid, AddressSpaces.Valid;
    forall h | h in k.heap.blocks
      ensures h % 8 == 0
    {
      k.heap.HeaderSays(h);
    }
  }

  lemma TablesAndRoots(k: KernelMemory)
    requires k.Valid()
    ensures RootsAreTables(k.spaces.t.nodes, k.roots)
  {
    hide KernelHeap.Valid, Forest, AsidTable, IsRoot;
  }

  lemma ObjectsArePlain(k: KernelMemory)
    requires k.Valid()
    ensures PlainObjects(k.heap.slab.caches, k.heap.slab.meta, k.heap.buckets[..])
  {
    hide KernelHeap.Valid, SlabWorld.Valid, AddressSpaces.Valid, WorldOk;
    var slab := k.heap.slab;
    k.Together();
    HeapSlab(k.heap);
    slab.IsWorld();
    forall c, a | Foreign(slab.caches, slab.meta, k.heap.buckets[..], c) && a in slab.caches[c].live
      ensures a !in slab.caches && a % 8 == 0 && slab.caches[c].objSize % 8 == 0
    {
      OwnObject(slab.ram.View(), slab.caches, slab.owner, slab.meta, c, a);
      slab.InBounds(c);
    }
    forall c, d, a | Foreign(slab.caches, slab.meta, k.heap.buckets[..], c) && Foreign(slab.caches, slab.meta, k.heap.buckets[..], d)
                     && a in slab.caches[c].live && a in slab.caches[d].live
      ensures c == d
    {
      ObjectPlace(slab.ram.View(), slab.caches, slab.owner, slab.meta, c, a);
      ObjectPlace(slab.ram.View(), slab.caches, slab.owner, slab.meta, d, a);
    }
  }

  lemma HeapSlab(heap: KernelHeap)
    requires heap.Valid()
    ensures heap.slab.Valid()
  {
    hide SlabWorld.Valid;
  }

  /** All of these at once. */
  ghost predicate Ready(blocks: map<nat, Word>, roots: map<nat, nat>, nodes: map<nat, Node>, caches: map<nat, Cache>, meta: nat, buckets: seq<nat>) {
    HeadersAligned(blocks) && RootsHaveHeaders(blocks, roots) && RootsAreTables(nodes, roots) && PlainObjects(caches, meta, buckets)
  }

  lemma IsReady(k: KernelMemory)
    requires k.Valid()
    ensures Ready(k.heap.blocks, k.roots, k.spaces.t.nodes, k.heap.slab.caches, k.heap.slab.meta, k.heap.buckets[..])
    ensures k.heap.buckets as object != k.heap.slab.ram.cells as object && k.heap.buckets as object != k.heap.slab.pmm.bitmap as object
    ensures k.heap.buckets as object != k.spaces.asidUsed as object
  {
    hide KernelMemory.Valid, HeadersAligned, RootsHaveHeaders, RootsAreTables, PlainObjects;
    BlocksAndRoots(k);
    TablesAndRoots(k);
    ObjectsArePlain(k);
    k.BucketsApart();
  }

  // What one call leaves of the view

  lemma SpacesKept(m: seq<Word>, m': seq<Word>, nodes: map<nat, Node>, roots: map<nat, nat>, spaces: seq<nat>, pages: Pages)
    requires SpacesOk(m, roots, spaces, pages) && RootsAreTables(nodes, roots) && SameMeaning(Arm64, m, m', nodes)
    ensures SpacesOk(m', roots, spaces, pages)
  {
    hide Means, SameMeaning;
    forall p | p in spaces
      ensures Means(m', roots[p], pages[p])
    {
      SameMeans(m, m', nodes, roots[p], pages[p]);
    }
  }

  lemma ObjectWordsKept(m: seq<Word>, m': seq<Word>, caches: map<nat, Cache>, caches': map<nat, Cache>, meta: nat, buckets: seq<nat>,
                        o: (nat, nat), but: set<nat>)
    requires ForeignSame(m, m', caches, buckets, but) && PlainObjects(caches, meta, buckets) && Foreign(caches, meta, buckets, o.0)
    requires o.1 in caches[o.0].live && o.1 !in but && o.0 in caches' && caches'[o.0].objSize == caches[o.0].objSize
    ensures ObjectWords(m', caches', o) == ObjectWords(m, caches, o)
  {
    var size, k := caches[o.0].objSize, o.1 / 8;
    assert o.1 !in caches && o.1 % 8 == 0 && size % 8 == 0;
    assert (o.1 + size) / 8 == k + size / 8;
    forall i | 0 <= i < size / 8
      ensures WordsAt(m', k, size / 8)[i] == WordsAt(m, k, size / 8)[i]
    {
      var w := k + i;
      assert Payload(caches, o.0, o.1, w);
      assert Ld(m', w) == Ld(m, w);
    }
  }

  /** Other objects than those in `but` are still live in the caches they were in. */
  ghost predicate StillLive(caches: map<nat, Cache>, caches': map<nat, Cache>, meta: nat, buckets: seq<nat>, but: set<nat>) {
    forall c :: Foreign(caches, meta, buckets, c) ==>
      c in caches' && caches'[c].objSize == caches[c].objSize && caches[c].live - but <= caches'[c].live
  }

  lemma ObjectsAfter(m: seq<Word>, m': seq<Word>, caches: map<nat, Cache>, caches': map<nat, Cache>, meta: nat, buckets: seq<nat>,
                     cs: seq<nat>, objects: seq<(nat, nat)>, words: Words, but: set<nat>)
    requires ObjectsOk(m, caches, meta, buckets, cs, objects, words) && PlainObjects(caches, meta, buckets)
    requires ForeignSame(m, m', caches, buckets, but) && StillLive(caches, caches', meta, buckets, but)
    requires forall o :: o in objects ==> o.1 !in but
    ensures ObjectsOk(m', caches', meta, buckets, cs, objects, words)
  {
    hide ForeignSame, PlainObjects, ObjectWords;
    forall o | o in objects
      ensures ObjectWords(m', caches', o) == words[o]
    {
      ObjectWordsKept(m, m', caches, caches', meta, buckets, o, but);
    }
  }

  lemma ObjectsKept(m: seq<Word>, m': seq<Word>, caches: map<nat, Cache>, caches': map<nat, Cache>, meta: nat, buckets: seq<nat>,
                    cs: seq<nat>, objects: seq<(nat, nat)>, words: Words)
    requires ObjectsOk(m, caches, meta, buckets, cs, objects, words) && PlainObjects(caches, meta, buckets)
    requires OnlyBuckets(caches, caches', buckets) && ForeignSame(m, m', caches, buckets, {})
    ensures ObjectsOk(m', caches', meta, buckets, cs, objects, words)
  {
    hide ForeignSame, PlainObjects, ObjectsOk;
    assert StillLive(caches, caches', meta, buckets, {});
    ObjectsAfter(m, m', caches, caches', meta, buckets, cs, objects, words, {});
  }

  lemma HeldObject(m: seq<Word>, caches: map<nat, Cache>, meta: nat, buckets: seq<nat>, held: Held, words: Words, i: nat)
    requires ObjectsOk(m, caches, meta, buckets, held.caches, held.objects, words) && i < |held.objects|
    ensures var o: (nat, nat) := held.objects[i];
      && Foreign(caches, meta, buckets, o.0) && o.1 in caches[o.0].live && o in words && words[o] == ObjectWords(m, caches, o)
      && |words[o]| == caches[o.0].objSize / 8 && o in held.objects
  {
    hide WordsAt;
    assert held.objects[i] in held.objects;
  }

  lemma HeldCache(m: seq<Word>, caches: map<nat, Cache>, meta: nat, buckets: seq<nat>, held: Held, words: Words, i: nat)
    requires ObjectsOk(m, caches, meta, buckets, held.caches, held.objects, words) && i < |held.caches|
    ensures Foreign(caches, meta, buckets, held.caches[i])
  {
    hide ObjectWords;
    assert held.caches[i] in held.caches;
  }

  lemma CacheGained(m: seq<Word>, caches: map<nat, Cache>, meta: nat, buckets: seq<nat>, held: Held, words: Words, c: nat)
    requires ObjectsOk(m, caches, meta, buckets, held.caches, held.objects, words) && Foreign(caches, meta, buckets, c)
    ensures ObjectsOk(m, caches, meta, buckets, held.caches + [c], held.objects, words)
  {
    hide ObjectWords;
  }

  lemma ObjectGained(m: seq<Word>, caches: map<nat, Cache>, meta: nat, buckets: seq<nat>, held: Held, words: Words, o: (nat, nat))
    requires ObjectsOk(m, caches, meta, buckets, held.caches, held.objects, words) && o !in held.objects
    requires Foreign(caches, meta, buckets, o.0) && o.1 in caches[o.0].live
    ensures ObjectsOk(m, caches, meta, buckets, held.caches, held.objects + [o], words[o := ObjectWords(m, caches, o)]) && o !in words
  {
    hide ObjectWords, Distinct;
    AddDistinct(held.objects, o);
  }

  /** The client forgets an object; no other object is at its address. */
  lemma ObjectLost(m: seq<Word>, caches: map<nat, Cache>, meta: nat, buckets: seq<nat>, held: Held, words: Words, i: nat)
    requires ObjectsOk(m, caches, meta, buckets, held.caches, held.objects, words) && PlainObjects(caches, meta, buckets) && i < |held.objects|
    ensures ObjectsOk(m, caches, meta, buckets, held.caches, Without(held.objects, i), words - {held.objects[i]})
    ensures forall o :: o in Without(held.objects, i) ==> o.1 != held.objects[i].1
  {
    hide ObjectWords;
    WithoutDistinct(held.objects, i);
    var gone: (nat, nat), rest := held.objects[i], Without(held.objects, i);
    assert gone in held.objects;
    assert forall o: (nat, nat) :: o in rest <==> o in held.objects && o != gone;
    assert forall o: (nat, nat) :: o in words - {gone} <==> o in rest;
  }

  lemma WordWritten(m: seq<Word>, caches: map<nat, Cache>, o: (nat, nat), w: nat, v: Word)
    requires o.0 in caches && w < caches[o.0].objSize / 8 && o.1 / 8 + w < |m|
    ensures ObjectWords(Put(m, o.1 / 8 + w, v), caches, o) == SetAt(ObjectWords(m, caches, o), w, v)
  {
    var was, now := ObjectWords(m, caches, o), ObjectWords(Put(m, o.1 / 8 + w, v), caches, o);
    forall i | 0 <= i < |was|
      ensures now[i] == SetAt(was, w, v)[i]
    {
      assert now[i] == Ld(Put(m, o.1 / 8 + w, v), o.1 / 8 + i) && was[i] == Ld(m, o.1 / 8 + i);
    }
  }

  lemma ObjectWritten(m: seq<Word>, m': seq<Word>, caches: map<nat, Cache>, meta: nat, buckets: seq<nat>, held: Held, words: Words,
                      i: nat, w: nat, v: Word)
    requires ObjectsOk(m, caches, meta, buckets, held.caches, held.objects, words) && PlainObjects(caches, meta, buckets) && i < |held.objects|
    requires var o: (nat, nat) := held.objects[i];
      && o in words && w < |words[o]| && o.1 / 8 + w < |m| && m' == Put(m, o.1 / 8 + w, v) && ForeignSame(m, m', caches, buckets, {o.1})
    ensures ObjectsOk(m', caches, meta, buckets, held.caches, held.objects, words[held.objects[i] := SetAt(words[held.objects[i]], w, v)])
  {
    hide ObjectWords, PlainObjects, ForeignSame, Put, SetAt;
    var o := held.objects[i];
    HeldObject(m, caches, meta, buckets, held, words, i);
    WordWritten(m, caches, o, w, v);
    forall p | p in held.objects && p != o
      ensures ObjectWords(m', caches, p) == words[p]
    {
      OtherAddress(caches, meta, buckets, o, p);
      ObjectWordsKept(m, m', caches, caches, meta, buckets, p, {o.1});
    }
  }

  lemma OtherAddress(caches: map<nat, Cache>, meta: nat, buckets: seq<nat>, o: (nat, nat), p: (nat, nat))
    requires PlainObjects(caches, meta, buckets) && p != o && Foreign(caches, meta, buckets, o.0) && Foreign(caches, meta, buckets, p.0)
    requires o.1 in caches[o.0].live && p.1 in caches[p.0].live
    ensures p.1 != o.1
  {
  }

  // Address spaces

  lemma HeldSpace(m: seq<Word>, roots: map<nat, nat>, spaces: seq<nat>, pages: Pages, i: nat)
    requires SpacesOk(m, roots, spaces, pages) && i < |spaces|
    ensures spaces[i] in roots && spaces[i] in pages && Means(m, roots[spaces[i]], pages[spaces[i]])
  {
    hide Means;
    assert spaces[i] in spaces;
  }

  lemma SpaceGained(m: seq<Word>, roots: map<nat, nat>, spaces: seq<nat>, pages: Pages, p: nat, page: nat)
    requires SpacesOk(m, roots, spaces, pages) && p !in roots && MapsNothing(m, page)
    ensures SpacesOk(m, roots[p := page], spaces + [p], pages[p := map[]]) && p !in pages
  {
    hide Distinct, Lookup;
    AddDistinct(spaces, p);
  }

  lemma SpaceLost(m: seq<Word>, roots: map<nat, nat>, spaces: seq<nat>, pages: Pages, i: nat)
    requires SpacesOk(m, roots, spaces, pages) && i < |spaces|
    ensures SpacesOk(m, roots - {spaces[i]}, Without(spaces, i), pages - {spaces[i]})
  {
    hide Distinct, Means, Without;
    WithoutDistinct(spaces, i);
  }

  lemma SpaceRepaged(m: seq<Word>, m': seq<Word>, nodes: map<nat, Node>, roots: map<nat, nat>, spaces: seq<nat>, pages: Pages, i: nat,
                     vpn: nat, e: Option<Word>)
    requires SpacesOk(m, roots, spaces, pages) && RootsAreTables(nodes, roots) && i < |spaces| && spaces[i] in roots && spaces[i] in pages
    requires Updated(Arm64, m, m', nodes, roots[spaces[i]], vpn, e)
    ensures var now := if e == None then Unmapped(pages[spaces[i]], vpn) else Mapped(pages[spaces[i]], vpn, e.value);
      SpacesOk(m', roots, spaces, pages[spaces[i] := now])
  {
    hide Means, Updated, OthersSame;
    var p := spaces[i];
    assert p in spaces;
    UpdatedMeans(m, m', nodes, roots[p], pages[p], vpn, e);
    forall q | q in spaces && q != p
      ensures Means(m', roots[q], pages[q])
    {
      OtherMeans(m, m', nodes, roots[p], roots[q], pages[q]);
    }
  }

  lemma OtherMeans(m: seq<Word>, m': seq<Word>, nodes: map<nat, Node>, root: nat, other: nat, pages: map<nat, Word>)
    requires OthersSame(m, m', nodes, root) && other != root && IsRoot(nodes, other) && Means(m, other, pages)
    ensures Means(m', other, pages)
  {
  }

  lemma NotMapped(m: seq<Word>, root: nat, pages: map<nat, Word>, vpn: nat)
    requires Means(m, root, pages) && vpn < VpnLimit(Arm64) && Lookup(Arm64, m, root, 0, vpn) == None
    ensures Unmapped(pages, vpn) == pages
  {
  }

  lemma SameBytes(m: seq<Word>, m': seq<Word>, blocks: map<nat, Word>, but: set<nat>, p: nat)
    requires BlocksSame(m, m', blocks, but) && HeadersAligned(blocks) && HEADER <= p && p - HEADER in blocks && p - HEADER !in but
    ensures BytesAt(m', p, Room(blocks[p - HEADER])) == BytesAt(m, p, Room(blocks[p - HEADER]))
  {
    hide End, BytesAt, Room, InBlock;
    RoomInBlock(p - HEADER, blocks[p - HEADER]);
    BytesKept(m, m', blocks, but, p - HEADER, p, Room(blocks[p - HEADER]));
  }

  lemma PtrsKept(m: seq<Word>, m': seq<Word>, blocks: map<nat, Word>, blocks': map<nat, Word>, roots: map<nat, nat>, roots': map<nat, nat>,
                 but: set<nat>, ptrs: seq<nat>, sizes: map<nat, Word>, data: Contents)
    requires PtrsOk(m, blocks, roots, ptrs, sizes, data) && HeadersAligned(blocks) && BlocksSame(m, m', blocks, but)
    requires forall p :: p in ptrs && HEADER <= p ==> p - HEADER !in but && p !in roots'
    requires forall h :: h in blocks && h !in but ==> h in blocks' && blocks'[h] == blocks[h]
    ensures PtrsOk(m', blocks', roots', ptrs, sizes, data)
  {
    hide BytesAt, Room, BlocksSame, HeadersAligned;
    forall p | p in ptrs
      ensures BytesAt(m', p, |data[p]|) == data[p]
    {
      SameBytes(m, m', blocks, but, p);
    }
  }

  /** Blocks may have been added; nothing else that the client can see has changed. */
  lemma ViewKept(m: seq<Word>, m': seq<Word>, blocks: map<nat, Word>, blocks': map<nat, Word>, roots: map<nat, nat>, nodes: map<nat, Node>,
                 caches: map<nat, Cache>, caches': map<nat, Cache>, meta: nat, buckets: seq<nat>, held: Held, known: Known)
    requires Ready(blocks, roots, nodes, caches, meta, buckets)
    requires PtrsOk(m, blocks, roots, held.ptrs, held.sizes, known.data) && SpacesOk(m, roots, held.spaces, known.pages)
    requires ObjectsOk(m, caches, meta, buckets, held.caches, held.objects, known.words)
    requires BlocksSame(m, m', blocks, {}) && SameMeaning(Arm64, m, m', nodes) && OnlyBuckets(caches, caches', buckets)
    requires ForeignSame(m, m', caches, buckets, {}) && forall h :: h in blocks ==> h in blocks' && blocks'[h] == blocks[h]
    ensures PtrsOk(m', blocks', roots, held.ptrs, held.sizes, known.data) && SpacesOk(m', roots, held.spaces, known.pages)
    ensures ObjectsOk(m', caches', meta, buckets, held.caches, held.objects, known.words)
  {
    hide SpacesOk, ObjectsOk, HeadersAligned, RootsHaveHeaders, RootsAreTables, PlainObjects, BlocksSame, SameMeaning, OnlyBuckets, ForeignSame, Room,
      BytesAt;
    PtrsKept(m, m', blocks, blocks', roots, roots, {}, held.ptrs, held.sizes, known.data);
    SpacesKept(m, m', nodes, roots, held.spaces, known.pages);
    ObjectsKept(m, m', caches, caches', meta, buckets, held.caches, held.objects, known.words);
  }

  /** One more pointer, with whatever bytes are there. */
  lemma PointerGained(m: seq<Word>, blocks: map<nat, Word>, roots: map<nat, nat>, held: Held, known: Known, p: nat, size: Word)
    requires PtrsOk(m, blocks, roots, held.ptrs, held.sizes, known.data)
    requires HEADER <= p && p - HEADER !in blocks && p !in roots
    ensures var next, now := Gain(held, p, size), Learn(known, p, BytesAt(m, p, Room(size)));
      && PtrsOk(m, blocks[p - HEADER := size], roots, next.ptrs, next.sizes, now.data)
      && Gains(held, known, next, now, p, size) && LastPtr(next) == p && next != held && p !in held.ptrs
  {
    hide BytesAt, Room, Distinct;
    var ptrs := held.ptrs + [p];
    NoBlockNoBytes(m, blocks, roots, held, known.data, p);
    AddDistinct(held.ptrs, p);
    assert ptrs[|held.ptrs|] == p && |ptrs| == |held.ptrs| + 1;
  }

  lemma PointerLost(m: seq<Word>, m': seq<Word>, blocks: map<nat, Word>, roots: map<nat, nat>, held: Held, known: Known, k: nat)
    requires PtrsOk(m, blocks, roots, held.ptrs, held.sizes, known.data) && HeadersAligned(blocks) && k < |held.ptrs|
    requires HEADER <= held.ptrs[k] && BlocksSame(m, m', blocks, BlockAt(held.ptrs[k]))
    ensures PtrsOk(m', blocks - BlockAt(held.ptrs[k]), roots, Lose(held, k).ptrs, Lose(held, k).sizes, Forget(known, held.ptrs[k]).data)
  {
    hide BytesAt, Room, BlocksSame, HeadersAligned, Without, Distinct;
    WithoutDistinct(held.ptrs, k);
    var gone, rest := held.ptrs[k], Without(held.ptrs, k);
    assert gone in held.ptrs;
    forall p | p in rest
      ensures p in held.ptrs && p != gone && BytesAt(m', p, |known.data[p]|) == known.data[p]
    {
      SameBytes(m, m', blocks, BlockAt(gone), p);
    }
  }

  lemma HeldPtr(m: seq<Word>, blocks: map<nat, Word>, roots: map<nat, nat>, held: Held, data: Contents, k: nat)
    requires PtrsOk(m, blocks, roots, held.ptrs, held.sizes, data) && k < |held.ptrs|
    ensures var p := held.ptrs[k];
      && HEADER <= p && p - HEADER in blocks && p !in roots && p in held.sizes && held.sizes[p] == blocks[p - HEADER]
      && p in held.ptrs && p in data && |data[p]| == Room(held.sizes[p]) && data[p] == BytesAt(m, p, Room(held.sizes[p]))
  {
    hide BytesAt, Room;
    assert held.ptrs[k] in held.ptrs;
  }

  lemma Prefix(m: seq<Word>, a: nat, n: nat, more: nat)
    requires n <= more
    ensures BytesAt(m, a, n) <= BytesAt(m, a, more)
  {
  }

  /** A copy that fits leaves no byte behind. */
  lemma RoomGrows(oldSize: Word, size: Word)
    requires oldSize < size && CopyFits(oldSize, size)
    ensures Room(oldSize) == oldSize <= Room(size)
  {
  }

  lemma PointerMoved(m: seq<Word>, m': seq<Word>, blocks: map<nat, Word>, roots: map<nat, nat>, held: Held, known: Known, k: nat, to: nat, size: Word)
    requires PtrsOk(m, blocks, roots, held.ptrs, held.sizes, known.data) && HeadersAligned(blocks) && RootsHaveHeaders(blocks, roots)
    requires k < |held.ptrs| && HEADER <= held.ptrs[k] && BlocksSame(m, m', blocks, BlockAt(held.ptrs[k])) && HEADER <= to && to - HEADER !in blocks
    requires var p := held.ptrs[k];
      && p - HEADER in blocks && blocks[p - HEADER] < size && CopyFits(blocks[p - HEADER], size)
      && BytesAt(m', to, blocks[p - HEADER]) == BytesAt(m, p, blocks[p - HEADER])
    ensures var next, now := Gain(Lose(held, k), to, size), Learn(Forget(known, held.ptrs[k]), to, BytesAt(m', to, Room(size)));
      && PtrsOk(m', blocks[to - HEADER := size] - BlockAt(held.ptrs[k]), roots, next.ptrs, next.sizes, now.data)
      && Reallocated(held, known, next, now, k, size)
  {
    hide BytesAt, Room, BlocksSame, HeadersAligned, CopyFits, PtrsOk, Gains, Gain, Lose;
    var p := held.ptrs[k];
    HeldPtr(m, blocks, roots, held, known.data, k);
    PointerLost(m, m', blocks, roots, held, known, k);
    PointerGained(m', blocks - BlockAt(p), roots, Lose(held, k), Forget(known, p), to, size);
    assert (blocks - BlockAt(p))[to - HEADER := size] == blocks[to - HEADER := size] - BlockAt(p);
    RoomGrows(blocks[p - HEADER], size);
    Prefix(m', to, blocks[p - HEADER], Room(size));
    NoBlockNoBytes(m, blocks, roots, held, known.data, to);
  }

  lemma NoBlockNoBytes(m: seq<Word>, blocks: map<nat, Word>, roots: map<nat, nat>, held: Held, data: Contents, p: nat)
    requires PtrsOk(m, blocks, roots, held.ptrs, held.sizes, data) && HEADER <= p && p - HEADER !in blocks
    ensures p !in data && p !in held.ptrs
  {
    hide BytesAt, Room;
  }

  lemma ByteWritten(m: seq<Word>, p: nat, n: nat, i: nat, b: nat)
    requires i < n && b < 256 && (p + i) / 8 < |m|
    ensures BytesAt(Put(m, (p + i) / 8, Patched(Ld(m, (p + i) / 8), p + i, b)), p, n) == SetAt(BytesAt(m, p, n), i, b)
  {
    hide ByteAt, Patched, Ld;
    PatchedBytes(m, p + i, b);
  }

  lemma PointerWritten(m: seq<Word>, m': seq<Word>, blocks: map<nat, Word>, roots: map<nat, nat>, held: Held, known: Known, k: nat, i: nat, b: nat)
    requires PtrsOk(m, blocks, roots, held.ptrs, held.sizes, known.data) && HeadersAligned(blocks) && k < |held.ptrs|
    requires var p := held.ptrs[k];
      && HEADER <= p && p in known.data && i < |known.data[p]| && b < 256 && BlocksSame(m, m', blocks, {p - HEADER}) && (p + i) / 8 < |m|
      && m' == Put(m, (p + i) / 8, Patched(Ld(m, (p + i) / 8), p + i, b))
    ensures PtrsOk(m', blocks, roots, held.ptrs, held.sizes, Learn(known, held.ptrs[k], SetAt(known.data[held.ptrs[k]], i, b)).data)
  {
    hide BytesAt, Room, BlocksSame, HeadersAligned, Patched, Put, Ld;
    var p := held.ptrs[k];
    ByteWritten(m, p, |known.data[p]|, i, b);
    forall q | q in held.ptrs && q != p
      ensures BytesAt(m', q, |known.data[q]|) == known.data[q]
    {
      SameBytes(m, m', blocks, {p - HEADER}, q);
    }
  }
}
