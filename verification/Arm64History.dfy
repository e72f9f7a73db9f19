/** Whole runs of the AArch64 page-table code: the page map after any history, and what a lifetime leaves behind. */
module Arm64History {
  import opened Machine
  import opened PageTree
  import opened Arm64Paging
  import opened TableMemory

  datatype PageOp = MapOp(va: Word, phys: Word, prot: nat) | UnmapOp(va: Word)

  /** The abstract page map: page number to leaf word. A failing operation leaves it alone. */
  ghost function Apply(pages: map<nat, Word>, op: PageOp, r: int): map<nat, Word> {
    if r != 0 then pages
    else match op
      case MapOp(va, phys, prot) => pages[Vpn(va) := LeafEntry(phys, prot)]
      case UnmapOp(va) => pages - {Vpn(va)}
  }

  ghost function Replay(pages: map<nat, Word>, ops: seq<PageOp>, rs: seq<int>): map<nat, Word>
    requires |ops| == |rs|
  {
    if ops == [] then pages
    else Apply(Replay(pages, ops[..|ops| - 1], rs[..|rs| - 1]), ops[|ops| - 1], rs[|rs| - 1])
  }

  /** Tree `root` in memory `m` is the page map `pages`. */
  ghost predicate Means(m: seq<Word>, root: nat, pages: map<nat, Word>) {
    forall v: nat {:trigger Lookup(Arm64, m, root, 0, v)} | v < VpnLimit(Arm64) ::
      Lookup(Arm64, m, root, 0, v) == if v in pages then Some(pages[v]) else None
  }

  /** Every tree but `root` translates as before. */
  ghost predicate OthersSame(a: seq<Word>, b: seq<Word>, nodes: map<nat, Node>, root: nat) {
    forall r, v: nat {:trigger Lookup(Arm64, b, r, 0, v)} | IsRoot(nodes, r) && r != root && v < VpnLimit(Arm64) ::
      Lookup(Arm64, b, r, 0, v) == Lookup(Arm64, a, r, 0, v)
  }

  lemma UpdatedMeans(a: seq<Word>, b: seq<Word>, nodes: map<nat, Node>, root: nat, pages: map<nat, Word>, vpn: nat, e: Option<Word>)
    requires IsRoot(nodes, root) && Means(a, root, pages) && Updated(Arm64, a, b, nodes, root, vpn, e)
    ensures Means(b, root, if e == None then pages - {vpn} else pages[vpn := e.value])
    ensures OthersSame(a, b, nodes, root)
  {
  }

  lemma SameMeans(a: seq<Word>, b: seq<Word>, nodes: map<nat, Node>, root: nat, pages: map<nat, Word>)
    requires IsRoot(nodes, root) && Means(a, root, pages) && SameMeaning(Arm64, a, b, nodes)
    ensures Means(b, root, pages) && OthersSame(a, b, nodes, root)
  {
  }

  lemma AddedTwice(root: nat, m: seq<Word>, n: map<nat, Node>, f: set<nat>, m': seq<Word>, n': map<nat, Node>, f': set<nat>,
                   m'': seq<Word>, n'': map<nat, Node>, f'': set<nat>)
    requires TablesAdded(root, m, n, f, m', n', f') && TablesAdded(root, m', n', f', m'', n'', f'')
    requires OthersSame(m, m', n, root) && OthersSame(m', m'', n', root)
    ensures TablesAdded(root, m, n, f, m'', n'', f'') && OthersSame(m, m'', n, root)
  {
    forall p, i | p !in n''.Keys && 0 <= i < 512
      ensures Entry(m'', p, i) == Entry(m, p, i)
    {
      assert p !in n'.Keys && Entry(m', p, i) == Entry(m, p, i);
    }
    forall r, v: nat | IsRoot(n, r) && r != root && v < VpnLimit(Arm64)
      ensures Lookup(Arm64, m'', r, 0, v) == Lookup(Arm64, m, r, 0, v)
    {
      assert IsRoot(n', r) && Lookup(Arm64, m', r, 0, v) == Lookup(Arm64, m, r, 0, v);
    }
  }

  /** One operation on tree `ttbr0`, as the two entry points perform it. */
  method Perform(s: AddressSpaces, ttbr0: Word, op: PageOp, ghost pages: map<nat, Word>) returns (r: int)
    requires s.Valid() && ttbr0 % PAGE_SIZE == 0 && IsRoot(s.t.nodes, ttbr0 / PAGE_SIZE)
    requires Means(s.t.ram.View(), ttbr0 / PAGE_SIZE, pages)
    modifies s.t.pmm`freeFrames, s.t.pmm`lastFreeIndex, s.t.pmm`free, s.t.pmm.bitmap, s.t.ram.cells, s.t`nodes
    ensures s.Valid() && IsRoot(s.t.nodes, ttbr0 / PAGE_SIZE)
    ensures Means(s.t.ram.View(), ttbr0 / PAGE_SIZE, Apply(pages, op, r))
    ensures op.UnmapOp? ==> (r == 0 <==> Vpn(op.va) in pages)
    ensures op.MapOp? && r != 0 ==> s.t.pmm.free == {}
    ensures OthersSame(old(s.t.ram.View()), s.t.ram.View(), old(s.t.nodes), ttbr0 / PAGE_SIZE)
    ensures TablesAdded(ttbr0 / PAGE_SIZE, old(s.t.ram.View()), old(s.t.nodes), old(s.t.pmm.free), s.t.ram.View(), s.t.nodes, s.t.pmm.free)
  {
    hide AddressSpaces.Valid, Lookup, Vpn, LeafEntry, SameMeaning, Updated, OthersSame, SameOutside;
    ghost var root, m, n := ttbr0 / PAGE_SIZE, s.t.ram.View(), s.t.nodes;
    match op
    case MapOp(va, phys, prot) =>
      r := s.MapPage(ttbr0, va, phys, prot);
      if r == 0 {
        UpdatedMeans(m, s.t.ram.View(), n, root, pages, Vpn(va), Some(LeafEntry(phys, prot)));
      } else {
        SameMeans(m, s.t.ram.View(), n, root, pages);
      }
    case UnmapOp(va) =>
      assert Vpn(va) in pages <==> Lookup(Arm64, m, root, 0, Vpn(va)).Some?;
      r := s.UnmapPage(ttbr0, va);
      if r == 0 {
        UpdatedMeans(m, s.t.ram.View(), n, root, pages, Vpn(va), None);
      } else {
        SameMeans(m, s.t.ram.View(), n, root, pages);
      }
  }

  /** Any history of map and unmap calls on one tree refines the same history on the abstract page map. */
  method RunHistory(s: AddressSpaces, ttbr0: Word, ops: seq<PageOp>, ghost pages: map<nat, Word>) returns (rs: seq<int>)
    requires s.Valid() && ttbr0 % PAGE_SIZE == 0 && IsRoot(s.t.nodes, ttbr0 / PAGE_SIZE)
    requires Means(s.t.ram.View(), ttbr0 / PAGE_SIZE, pages)
    modifies s.t.pmm`freeFrames, s.t.pmm`lastFreeIndex, s.t.pmm`free, s.t.pmm.bitmap, s.t.ram.cells, s.t`nodes
    ensures s.Valid() && IsRoot(s.t.nodes, ttbr0 / PAGE_SIZE) && |rs| == |ops|
    ensures Means(s.t.ram.View(), ttbr0 / PAGE_SIZE, Replay(pages, ops, rs))
    ensures forall k :: 0 <= k < |ops| && ops[k].UnmapOp? ==>
      (rs[k] == 0 <==> Vpn(ops[k].va) in Replay(pages, ops[..k], rs[..k]))
    ensures forall k :: 0 <= k < |ops| && ops[k].MapOp? && rs[k] != 0 ==> s.t.pmm.free == {}
    ensures OthersSame(old(s.t.ram.View()), s.t.ram.View(), old(s.t.nodes), ttbr0 / PAGE_SIZE)
    ensures TablesAdded(ttbr0 / PAGE_SIZE, old(s.t.ram.View()), old(s.t.nodes), old(s.t.pmm.free), s.t.ram.View(), s.t.nodes, s.t.pmm.free)
  {
    hide AddressSpaces.Valid, Lookup, Vpn, OthersSame, Means, IsRoot, Apply;
    rs := [];
    NothingAdded(s, ttbr0 / PAGE_SIZE);
    for i := 0 to |ops|
      invariant s.Valid() && IsRoot(s.t.nodes, ttbr0 / PAGE_SIZE) && |rs| == i
      invariant Means(s.t.ram.View(), ttbr0 / PAGE_SIZE, Replay(pages, ops[..i], rs))
      invariant forall k :: 0 <= k < i && ops[k].UnmapOp? ==>
        (rs[k] == 0 <==> Vpn(ops[k].va) in Replay(pages, ops[..k], rs[..k]))
      invariant forall k :: 0 <= k < i && ops[k].MapOp? && rs[k] != 0 ==> s.t.pmm.free == {}
      invariant OthersSame(old(s.t.ram.View()), s.t.ram.View(), old(s.t.nodes), ttbr0 / PAGE_SIZE)
      invariant TablesAdded(ttbr0 / PAGE_SIZE, old(s.t.ram.View()), old(s.t.nodes), old(s.t.pmm.free), s.t.ram.View(), s.t.nodes, s.t.pmm.free)
    {
      ghost var m, n, f, before := s.t.ram.View(), s.t.nodes, s.t.pmm.free, rs;
      var r := Perform(s, ttbr0, ops[i], Replay(pages, ops[..i], rs));
      AddedTwice(ttbr0 / PAGE_SIZE, old(s.t.ram.View()), old(s.t.nodes), old(s.t.pmm.free), m, n, f, s.t.ram.View(), s.t.nodes, s.t.pmm.free);
      rs := rs + [r];
      assert ops[..i + 1][..i] == ops[..i] && rs[..i] == before;
      assert forall k :: 0 <= k < i ==> rs[..k] == before[..k];
    }
    assert ops[..|ops|] == ops;
  }

  lemma NothingAdded(s: AddressSpaces, root: nat)
    requires s.Valid()
    ensures TablesAdded(root, s.t.ram.View(), s.t.nodes, s.t.pmm.free, s.t.ram.View(), s.t.nodes, s.t.pmm.free)
    ensures OthersSame(s.t.ram.View(), s.t.ram.View(), s.t.nodes, root)
  {
  }

  /** No tree of `nodes` translates a page differently in `b` than in `a`. */
  ghost predicate SamePages(a: seq<Word>, b: seq<Word>, nodes: map<nat, Node>) {
    forall r, v: nat {:trigger Lookup(Arm64, b, r, 0, v)} | IsRoot(nodes, r) && v < VpnLimit(Arm64) ::
      Lookup(Arm64, b, r, 0, v) == Lookup(Arm64, a, r, 0, v)
  }

  /** A tree added to the forest `n0`, grown, and removed again, leaves the same tables and free frames. */
  lemma TreeComesAndGoes(root: nat, m0: seq<Word>, n0: map<nat, Node>, f0: set<nat>, m1: seq<Word>,
                         m2: seq<Word>, n2: map<nat, Node>, f2: set<nat>)
    requires Forest(Arm64, m0, n0) && n0.Keys !! f0 && root in f0
    requires TablesAdded(root, m1, WithRoot(n0, root), f0 - {root}, m2, n2, f2)
    ensures WithoutTree(n2, root) == n0
    ensures f2 + (n2.Keys - n0.Keys) == f0
  {
    hide Forest, SameOutside, IsRoot;
    forall p | p in n0
      ensures n0[p].root != root
    {
      RootExists(Arm64, m0, n0, p);
      RootIsTable(n0, n0[p].root);
    }
  }

  lemma RootIsTable(nodes: map<nat, Node>, r: nat)
    requires IsRoot(nodes, r)
    ensures r in nodes
  {
  }

  lemma OthersKept(root: nat, m0: seq<Word>, n0: map<nat, Node>, m1: seq<Word>, m2: seq<Word>)
    requires root !in n0 && SameMeaning(Arm64, m0, m1, n0)
    requires OthersSame(m1, m2, WithRoot(n0, root), root)
    ensures SamePages(m0, m2, n0)
  {
    forall r, v: nat | IsRoot(n0, r) && v < VpnLimit(Arm64)
      ensures Lookup(Arm64, m2, r, 0, v) == Lookup(Arm64, m0, r, 0, v)
    {
      assert IsRoot(WithRoot(n0, root), r);
      assert Lookup(Arm64, m1, r, 0, v) == Lookup(Arm64, m0, r, 0, v);
    }
  }

  /** The frames given back by the end of a life were free before it, and each comes back once; there is at least the root. */
  ghost predicate FreedOnce(freed: seq<nat>, created: bool, free: set<nat>, nodes: map<nat, Node>) {
    && (created <==> freed != [])
    && (forall p :: p in freed ==> p in free && p !in nodes)
    && forall i, j :: 0 <= i < j < |freed| ==> freed[i] != freed[j]
  }

  lemma NoneFreed(free: set<nat>, nodes: map<nat, Node>)
    ensures FreedOnce([], false, free, nodes)
  {
  }

  lemma FreedTables(freed: seq<nat>, root: nat, m1: seq<Word>, n0: map<nat, Node>, f0: set<nat>, m2: seq<Word>, n2: map<nat, Node>, f2: set<nat>)
    requires EachOnce(freed, n2.Keys - n0.Keys) && root in f0 && root !in n0
    requires TablesAdded(root, m1, WithRoot(n0, root), f0 - {root}, m2, n2, f2)
    ensures FreedOnce(freed, true, f0, n0)
  {
    hide SameOutside, IsRoot;
    assert root in WithRoot(n0, root) && root in n2.Keys - n0.Keys;
  }

  /** Create an address space, run any history on it, destroy it: every frame and ASID is back, every other tree unchanged. */
  method Lifetime(s: AddressSpaces, ops: seq<PageOp>) returns (created: bool, ghost freed: seq<nat>)
    requires s.Valid()
    modifies s.t.pmm`freeFrames, s.t.pmm`lastFreeIndex, s.t.pmm`free, s.t.pmm.bitmap, s.t.ram.cells, s.asidUsed, s.t`nodes, s`asids
    ensures s.Valid()
    ensures s.t.pmm.free == old(s.t.pmm.free) && s.t.nodes == old(s.t.nodes) && s.asids == old(s.asids)
    ensures SamePages(old(s.t.ram.View()), s.t.ram.View(), old(s.t.nodes))
    ensures created <==> old(s.t.pmm.free) != {} && !AsidsExhausted(old(s.asids))
    ensures FreedOnce(freed, created, old(s.t.pmm.free), old(s.t.nodes))
  {
    hide AddressSpaces.Valid, Forest, Planted, SameMeaning, SamePages, OthersSame, TablesAdded, SameOutside, Means, MapsNothing, Blank, WithRoot,
      WithoutTree, FreedOnce, EachOnce, AsidsExhausted, IsRoot, Replay, Lookup;
    freed := [];
    ghost var m0, n0, f0, a0 := s.t.ram.View(), s.t.nodes, s.t.pmm.free, s.asids;
    NoneFreed(f0, n0);
    IsForest(s);
    var l0Phys, asid := s.NewTree();
    created := l0Phys != 0;
    if created {
      ghost var root, m1 := l0Phys / PAGE_SIZE, s.t.ram.View();
      RootPlanted(l0Phys, asid, n0, s.t.nodes, a0, s.asids, f0, s.t.pmm.free, m1);
      var rs := RunHistory(s, l0Phys, ops, map[]);
      ghost var m2, n2, f2 := s.t.ram.View(), s.t.nodes, s.t.pmm.free;
      TreeComesAndGoes(root, m0, n0, f0, m1, m2, n2, f2);
      OthersKept(root, m0, n0, m1, m2);
      freed := s.DestroyTree(l0Phys, asid);
      FreedTables(freed, root, m1, n0, f0, m2, n2, f2);
    } else {
      NothingIsPlanted(asid, n0, s.t.nodes, a0, s.asids, f0, s.t.pmm.free, s.t.ram.View());
      SameIsSamePages(m0, s.t.ram.View(), n0);
    }
  }

  lemma IsForest(s: AddressSpaces)
    requires s.Valid()
    ensures Forest(Arm64, s.t.ram.View(), s.t.nodes) && s.t.nodes.Keys !! s.t.pmm.free
    ensures forall r :: r in s.asids ==> IsRoot(s.t.nodes, r)
  {
    hide Forest, IsRoot;
  }

  lemma NothingIsPlanted(asid: int, nodes: map<nat, Node>, nodes': map<nat, Node>, asids: map<nat, nat>, asids': map<nat, nat>,
                         free: set<nat>, free': set<nat>, m: seq<Word>)
    requires Planted(0, asid, nodes, nodes', asids, asids', free, free', m)
    ensures asids' == asids && nodes' == nodes && free' == free
  {
  }

  /** What the rest of the new tree's life starts from. */
  lemma RootPlanted(l0Phys: Word, asid: int, nodes: map<nat, Node>, nodes': map<nat, Node>, asids: map<nat, nat>, asids': map<nat, nat>,
                    free: set<nat>, free': set<nat>, m: seq<Word>)
    requires l0Phys != 0 && Planted(l0Phys, asid, nodes, nodes', asids, asids', free, free', m)
    requires forall r :: r in asids ==> IsRoot(nodes, r)
    ensures var root := l0Phys / PAGE_SIZE;
      && l0Phys % PAGE_SIZE == 0 && root in free && root !in nodes && nodes' == WithRoot(nodes, root) && free' == free - {root}
      && 0 <= asid && asids' == asids[root := asid] && asids' - {root} == asids
      && Means(m, root, map[]) && IsRoot(nodes', root)
  {
    hide Lookup;
    NewRootFacts(m, nodes, l0Phys / PAGE_SIZE, asids, asid);
  }

  lemma NewRootFacts(m: seq<Word>, nodes: map<nat, Node>, root: nat, asids: map<nat, nat>, asid: nat)
    requires MapsNothing(m, root)
    requires root !in nodes && forall r :: r in asids ==> IsRoot(nodes, r)
    ensures Means(m, root, map[]) && IsRoot(WithRoot(nodes, root), root)
    ensures root !in asids && asids[root := asid] - {root} == asids
  {
  }

  lemma SameIsSamePages(a: seq<Word>, b: seq<Word>, nodes: map<nat, Node>)
    requires SameMeaning(Arm64, a, b, nodes)
    ensures SamePages(a, b, nodes)
  {
  }

  lemma OneMoreTable(nodes: map<nat, Node>, r: nat)
    requires r !in nodes
    ensures |WithRoot(nodes, r)| == |nodes| + 1
  {
    assert WithRoot(nodes, r).Keys == nodes.Keys + {r};
    assert |WithRoot(nodes, r)| == |WithRoot(nodes, r).Keys| && |nodes| == |nodes.Keys|;
  }

  /** A failing unmap that links tables: address 0 of an address space just created, with frames to spare. */
  method UnmapOfFreshSpace(s: AddressSpaces) returns (ttbr0: Word, r: int)
    requires s.Valid()
    modifies s.t.pmm`freeFrames, s.t.pmm`lastFreeIndex, s.t.pmm`free, s.t.pmm.bitmap, s.t.ram.cells, s.asidUsed, s.t`nodes, s`asids
    ensures s.Valid()
    ensures 4 <= |old(s.t.pmm.free)| && !AsidsExhausted(old(s.asids)) ==>
      ttbr0 != 0 && r == -1 && |s.t.nodes| == |old(s.t.nodes)| + 4
  {
    hide AddressSpaces.Valid, Lookup, Missing, SameMeaning, Updated, TablesAdded, SameOutside, AsidsExhausted;
    var asid;
    ttbr0, asid := s.NewTree();
    r := -1;
    if ttbr0 != 0 {
      OneMoreTable(old(s.t.nodes), ttbr0 / PAGE_SIZE);
      BlankMisses(s.t.ram.View(), ttbr0 / PAGE_SIZE, Vpn(0));
      r := s.UnmapPage(ttbr0, 0);
    }
  }
}
