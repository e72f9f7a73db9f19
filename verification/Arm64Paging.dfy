/** The four-level AArch64 page tables of `arch/arm64/paging.c`, over the physical frame allocator. */
module Arm64Paging {
  import opened Machine
  import opened PageTree
  import opened PhysFrame
  import opened TableMemory

  const PROT_WRITE := 2
  const PROT_EXEC := 4

  const ASID_POOL_SIZE := 256

  /** Page number of a virtual address: bits 12..47. */
  function Vpn(va: Word): (v: nat)
    ensures v < VpnLimit(Arm64)
  {
    PageNumber(Arm64, va)
  }

  /** `PTE_ADDR(x)`, that is `x & PTE_ADDR_MASK`: bits 12..47. */
  function PteAddr(x: Word): (a: Word)
    ensures a / PAGE_SIZE == EntryPage(Arm64, x) && a % PAGE_SIZE == 0
  {
    x / PAGE_SIZE % 0x10_0000_0000 * PAGE_SIZE
  }

  /** Attribute bits of a leaf: inner shareable (8, 9), access (10), not global (11), AP (6, 7), PXN (53), UXN (54). */
  function Attributes(prot: nat): Word {
    0x300 + 0x400 + 0x800
    + (if prot / PROT_WRITE % 2 == 1 then 0x40 else 0xC0)
    + (if prot / PROT_EXEC % 2 == 1 then 0x20_0000_0000_0000 else 0x60_0000_0000_0000)
  }

  /** The leaf word `arch_map_page` writes: `PTE_ADDR(phys) | PTE_TABLE | PTE_VALID | attrs`. */
  function LeafEntry(phys: Word, prot: nat): (e: Word)
    ensures IsValid(e) && EntryPage(Arm64, e) == phys / PAGE_SIZE % 0x10_0000_0000
  {
    PteAddr(phys) + 3 + Attributes(prot)
  }

  /** The low attribute field of a page descriptor (section D8.3 of the Arm ARM), bit by bit: bits 0 to 11. */
  predicate LowFields(low: nat, ap: nat) {
    && low % 4 == 3          // valid, page
    && low / 4 % 8 == 0      // AttrIndx: normal memory
    && low / 32 % 2 == 0     // NS
    && low / 64 % 4 == ap    // AP
    && low / 256 % 4 == 3    // SH: inner shareable
    && low / 1024 % 2 == 1   // AF
    && low / 2048 % 2 == 1   // nG
  }

  /** The high attribute field: bits 48 to 63, given as a number. */
  predicate HighFields(high: nat, uxn: nat) {
    && high % 32 == 0        // bits 48 to 52
    && high / 32 % 2 == 1    // PXN
    && high / 64 % 2 == uxn  // UXN
    && high / 128 == 0       // bits 55 to 63
  }

  /** AP for a user page: 1 is read and write, 3 is read only. UXN is 1 on a page user code may not execute. */
  predicate IsUserPage(e: Word, page: nat, prot: nat) {
    && LowFields(e % 0x1000, if prot / 2 % 2 == 1 then 1 else 3)
    && e / PAGE_SIZE % 0x10_0000_0000 == page
    && HighFields(e / 0x1_0000_0000_0000, if prot / 4 % 2 == 1 then 0 else 1)
  }

  lemma LowIs(low: nat, ap: nat)
    requires low < 0x1000 && ap < 4
    ensures LowFields(low, ap) <==> low == 3 + ap * 64 + 0x300 + 0x400 + 0x800
  {
    if LowFields(low, ap) {
      assert low == low % 4 + low / 4 % 8 * 4 + low / 32 % 2 * 32 + low / 64 % 4 * 64 + low / 256 % 4 * 256 + low / 1024 % 2 * 1024 + low / 2048 % 2 * 2048;
    }
  }

  lemma HighIs(high: nat, uxn: nat)
    requires uxn < 2
    ensures HighFields(high, uxn) <==> high == 32 + uxn * 64
  {
  }

  lemma ThreeFields(e: Word, low: nat, page: nat, high: nat)
    requires low < 0x1000 && page < 0x10_0000_0000
    ensures e == low + page * PAGE_SIZE + high * 0x1_0000_0000_0000 <==>
      e % 0x1000 == low && e / PAGE_SIZE % 0x10_0000_0000 == page && e / 0x1_0000_0000_0000 == high
  {
  }

  /** The leaf word is the one word whose fields say what was asked for: the frame, the write permission and the execute permission. */
  lemma LeafEntryExactly(e: Word, phys: Word, prot: nat)
    ensures e == LeafEntry(phys, prot) <==> IsUserPage(e, phys / PAGE_SIZE % 0x10_0000_0000, prot)
  {
    var ap := if prot / 2 % 2 == 1 then 1 else 3;
    var uxn := if prot / 4 % 2 == 1 then 0 else 1;
    var page := phys / PAGE_SIZE % 0x10_0000_0000;
    LowIs(e % 0x1000, ap);
    HighIs(e / 0x1_0000_0000_0000, uxn);
    ThreeFields(e, 3 + ap * 64 + 0x300 + 0x400 + 0x800, page, 32 + uxn * 64);
    hide LowFields, HighFields;
    assert LeafEntry(phys, prot) == 3 + ap * 64 + 0x300 + 0x400 + 0x800 + page * PAGE_SIZE + (32 + uxn * 64) * 0x1_0000_0000_0000;
  }

  /** The sequence lists each element of `s` once, and nothing else. */
  ghost predicate EachOnce(order: seq<nat>, s: set<nat>) {
    && (forall x :: x in order <==> x in s)
    && forall i, j :: 0 <= i < j < |order| ==> order[i] != order[j]
  }

  lemma NoneOnce()
    ensures EachOnce([], {})
  {
  }

  lemma OnceTogether(a: seq<nat>, s: set<nat>, b: seq<nat>, t: set<nat>)
    requires EachOnce(a, s) && EachOnce(b, t) && s !! t
    ensures EachOnce(a + b, s + t)
  {
    forall i, j | 0 <= i < j < |a + b|
      ensures (a + b)[i] != (a + b)[j]
    {
      if i < |a| <= j {
        assert (a + b)[i] in s && (a + b)[j] in t;
      }
    }
  }

  lemma OneMore(free: set<nat>, below: set<nat>, all: set<nat>, p: nat, freed: seq<nat>)
    requires all == below + {p} && p !in below && EachOnce(freed, below)
    ensures free + below + {p} == free + all
    ensures EachOnce(freed + [p], all)
  {
    OnceTogether(freed, below, [p], {p});
  }

  /** The tables reached through entry `i` of table `p`. */
  ghost function SlotTables(nodes: map<nat, Node>, p: nat, i: nat): set<nat> {
    FirstSubtrees(nodes, p, i + 1) - FirstSubtrees(nodes, p, i)
  }

  /** The loop of `free_table_recursive` has given back the tables under the first `i` entries of `p`, each once. */
  ghost predicate FreedUpTo(free0: set<nat>, free: set<nat>, nodes: map<nat, Node>, p: nat, i: nat, freed: seq<nat>) {
    && free == free0 + FirstSubtrees(nodes, p, i) && EachOnce(freed, FirstSubtrees(nodes, p, i))
  }

  lemma FreedNone(free: set<nat>, nodes: map<nat, Node>, p: nat)
    ensures FreedUpTo(free, free, nodes, p, 0, [])
  {
    NoneOnce();
    assert FirstSubtrees(nodes, p, 0) == {};
  }

  lemma SlotNotFree(free0: set<nat>, free: set<nat>, nodes: map<nat, Node>, p: nat, i: nat, freed: seq<nat>)
    requires i < 512 && Subtree(nodes, p) !! free0 && FreedUpTo(free0, free, nodes, p, i, freed)
    ensures SlotTables(nodes, p, i) !! free
  {
    SubtreePart(nodes, p, i);
  }

  lemma FreedAll(free0: set<nat>, free: set<nat>, nodes: map<nat, Node>, p: nat, freed: seq<nat>)
    requires FreedUpTo(free0, free, nodes, p, 512, freed)
    ensures free == free0 + FirstSubtrees(nodes, p, 512) && EachOnce(freed, FirstSubtrees(nodes, p, 512))
  {
  }

  lemma FreedOneMore(free0: set<nat>, free: set<nat>, nodes: map<nat, Node>, p: nat, i: nat, freed: seq<nat>, part: seq<nat>)
    requires i < 512 && FreedUpTo(free0, free, nodes, p, i, freed) && EachOnce(part, SlotTables(nodes, p, i))
    ensures FreedUpTo(free0, free + SlotTables(nodes, p, i), nodes, p, i + 1, freed + part)
  {
    SubtreePart(nodes, p, i);
    OnceTogether(freed, FirstSubtrees(nodes, p, i), part, SlotTables(nodes, p, i));
    assert FirstSubtrees(nodes, p, i) + SlotTables(nodes, p, i) == FirstSubtrees(nodes, p, i + 1);
  }

  lemma SlotSubtree(m: seq<Word>, nodes: map<nat, Node>, p: nat, i: nat)
    requires Forest(Arm64, m, nodes) && p in nodes && nodes[p].level < 3 && i < 512
    ensures var e := Entry(m, p, i);
      var c := EntryPage(Arm64, e);
      if IsValid(e) then
        && SlotTables(nodes, p, i) == Subtree(nodes, c)
        && c in nodes && nodes[c].level == nodes[p].level + 1
        && e / 2 % 2 == 1 && PteAddr(e) == c * PAGE_SIZE
      else SlotTables(nodes, p, i) == {}
  {
    NextSubtree(Arm64, m, nodes, p, i);
    assert LinksChild(Arm64, m, nodes, p, i);
  }

  /** ASIDs 1..255 are marked used exactly when a live root has them, and no two roots share one. */
  ghost predicate AsidTable(used: seq<bool>, asids: map<nat, nat>) {
    && |used| == ASID_POOL_SIZE
    && (forall r :: r in asids ==> 0 < asids[r] < ASID_POOL_SIZE)
    && (forall i :: 0 < i < ASID_POOL_SIZE ==> (used[i] <==> i in asids.Values))
    && forall r, s :: r in asids && s in asids && asids[r] == asids[s] ==> r == s
  }

  ghost predicate AsidsExhausted(asids: map<nat, nat>) {
    forall i :: 0 < i < ASID_POOL_SIZE ==> i in asids.Values
  }

  /** The tree at `r` translates no page. */
  ghost predicate MapsNothing(m: seq<Word>, r: nat) {
    forall v: nat :: Lookup(Arm64, m, r, 0, v) == None
  }

  /** Every entry of table `p` is zero. */
  ghost predicate Blank(m: seq<Word>, p: nat) {
    forall i :: 0 <= i < 512 ==> Entry(m, p, i) == 0
  }

  /** A free frame became a new tree with a new ASID; 0 changes nothing. */
  ghost predicate Planted(l0Phys: Word, asid: int, nodes: map<nat, Node>, nodes': map<nat, Node>, asids: map<nat, nat>, asids': map<nat, nat>,
                          free: set<nat>, free': set<nat>, m': seq<Word>) {
    var r := l0Phys / PAGE_SIZE;
    if l0Phys == 0 then asids' == asids && nodes' == nodes && free' == free
    else
      && l0Phys % PAGE_SIZE == 0 && r in free && r !in nodes && nodes' == WithRoot(nodes, r) && free' == free - {r}
      && 0 < asid < ASID_POOL_SIZE && asids' == asids[r := asid] && asid !in asids.Values
      && MapsNothing(m', r) && Blank(m', r)
  }

  lemma NothingPlanted(asid: int, nodes: map<nat, Node>, asids: map<nat, nat>, free: set<nat>, m: seq<Word>)
    ensures Planted(0, asid, nodes, nodes, asids, asids, free, free, m)
  {
  }

  lemma TreePlanted(l0Phys: Word, asid: int, nodes: map<nat, Node>, asids: map<nat, nat>, free: set<nat>, m: seq<Word>)
    requires l0Phys != 0 && l0Phys % PAGE_SIZE == 0 && l0Phys / PAGE_SIZE in free && l0Phys / PAGE_SIZE !in nodes
    requires 0 < asid < ASID_POOL_SIZE && asid !in asids.Values
    requires MapsNothing(m, l0Phys / PAGE_SIZE) && Blank(m, l0Phys / PAGE_SIZE)
    ensures Planted(l0Phys, asid, nodes, WithRoot(nodes, l0Phys / PAGE_SIZE), asids, asids[l0Phys / PAGE_SIZE := asid],
                    free, free - {l0Phys / PAGE_SIZE}, m)
  {
  }

  /** Clearing a free frame for a new root table. */
  lemma RootCleared(m: seq<Word>, nodes: map<nat, Node>, r: nat, free: set<nat>)
    requires Forest(Arm64, m, nodes) && r !in nodes && r in free && (r + 1) * PAGE_WORDS <= |m| && r * PAGE_SIZE < 0x1_0000_0000_0000
    ensures SameMeaning(Arm64, m, Zeroed(m, r), nodes) && SameOutside(m, Zeroed(m, r), free)
    ensures MapsNothing(Zeroed(m, r), r) && Blank(Zeroed(m, r), r)
    ensures Forest(Arm64, Zeroed(m, r), WithRoot(nodes, r))
    ensures forall q :: IsRoot(WithRoot(nodes, r), q) <==> q == r || IsRoot(nodes, q)
  {
    hide Forest, SameMeaning, SameOutside, Zeroed, IsRoot, WithRoot;
    ZeroedElsewhere(m, nodes, r);
    ZeroedMeaning(Arm64, m, nodes, r, free);
    NewRootForest(Arm64, m, nodes, r);
    RootAdded(Arm64, m, nodes, r);
  }

  lemma BlankMisses(m: seq<Word>, p: nat, vpn: nat)
    requires Blank(m, p)
    ensures Missing(Arm64, m, p, 0, vpn) == 3 && Lookup(Arm64, m, p, 0, vpn) == None
  {
    assert Entry(m, p, Index(Arm64, vpn, 0)) == 0;
  }

  lemma AsidTaken(used: seq<bool>, asids: map<nat, nat>, r: nat, asid: nat)
    requires AsidTable(used, asids) && r !in asids && 0 < asid < ASID_POOL_SIZE && !used[asid]
    ensures AsidTable(used[asid := true], asids[r := asid]) && asid !in asids.Values
  {
    var after := asids[r := asid];
    assert after[r] == asid;
    forall i | 0 < i < ASID_POOL_SIZE
      ensures i in after.Values <==> i == asid || i in asids.Values
    {
      if i in asids.Values {
        var s :| s in asids && asids[s] == i;
        assert after[s] == i;
      }
    }
  }

  lemma AsidGiven(used: seq<bool>, asids: map<nat, nat>, r: nat)
    requires AsidTable(used, asids) && r in asids
    ensures AsidTable(used[asids[r] := false], asids - {r})
  {
    var after := asids - {r};
    forall i | 0 < i < ASID_POOL_SIZE
      ensures i in after.Values <==> i != asids[r] && i in asids.Values
    {
      if i != asids[r] && i in asids.Values {
        var s :| s in asids && asids[s] == i;
        assert after[s] == i;
      }
    }
  }

  lemma NothingWritten(m: seq<Word>, nodes: map<nat, Node>, pages: set<nat>)
    ensures SameMeaning(Arm64, m, m, nodes) && SameOutside(m, m, pages)
  {
  }

  /** How many tables a walk links: all that are missing, or as many as there are frames. */
  function TablesLinked(missing: nat, frames: nat): nat {
    if missing <= frames then missing else frames
  }

  /** A walk for `vpn` links that many tables, so it links none exactly when none is missing or no frame is free. */
  ghost predicate LinksMissing(m: seq<Word>, root: nat, vpn: nat, free: set<nat>, nodes: map<nat, Node>, nodes': map<nat, Node>) {
    var missing := Missing(Arm64, m, root, 0, vpn);
    |nodes'| == |nodes| + TablesLinked(missing, |free|) && (nodes' == nodes <==> missing == 0 || free == {})
  }

  /** What `arch_map_page` of word `e` does: 0 exactly when frames suffice; -1 uses them all up but changes no translation. */
  ghost predicate Maps(r: int, root: nat, vpn: nat, e: Word, m: seq<Word>, nodes: map<nat, Node>, free: set<nat>,
                       m': seq<Word>, nodes': map<nat, Node>, free': set<nat>) {
    && (r == 0 || r == -1) && (r == -1 <==> |free| < Missing(Arm64, m, root, 0, vpn))
    && (r == 0 ==> Updated(Arm64, m, m', nodes, root, vpn, Some(e)))
    && (r == -1 ==> SameMeaning(Arm64, m, m', nodes) && free' == {})
    && TablesAdded(root, m, nodes, free, m', nodes', free') && LinksMissing(m, root, vpn, free, nodes, nodes')
  }

  /** What `arch_unmap_page` does: 0 exactly when the page was mapped. */
  ghost predicate Unmaps(r: int, root: nat, vpn: nat, m: seq<Word>, nodes: map<nat, Node>, free: set<nat>,
                         m': seq<Word>, nodes': map<nat, Node>, free': set<nat>) {
    && (r == 0 || r == -1) && (r == 0 <==> Lookup(Arm64, m, root, 0, vpn).Some?)
    && (r == 0 ==> Updated(Arm64, m, m', nodes, root, vpn, None))
    && (r == -1 ==> SameMeaning(Arm64, m, m', nodes))
    && TablesAdded(root, m, nodes, free, m', nodes', free') && LinksMissing(m, root, vpn, free, nodes, nodes')
  }

  lemma CountAdded(root: nat, m: seq<Word>, n: map<nat, Node>, f: set<nat>, m': seq<Word>, n': map<nat, Node>, f': set<nat>)
    requires TablesAdded(root, m, n, f, m', n', f') && n.Keys !! f
    ensures |n'| + |f'| == |n| + |f| && f' <= f && (n' == n <==> |f'| == |f|)
  {
    hide SameOutside, IsRoot;
    assert n'.Keys + f' == n.Keys + f && n'.Keys !! f';
    assert |n'.Keys + f'| == |n'.Keys| + |f'| && |n.Keys + f| == |n.Keys| + |f|;
    assert |n'| == |n'.Keys| && |n| == |n.Keys|;
    if |f'| == |f| {
      SameSize(f', f);
      assert n'.Keys == n.Keys;
    }
  }

  lemma SameSize(a: set<nat>, b: set<nat>)
    requires a <= b && |a| == |b|
    ensures a == b
  {
    assert b == a + (b - a);
  }

  class AddressSpaces {
    const t: TableMemory
    const asidUsed: array<bool>

    /** The ASID of each live root table. */
    ghost var asids: map<nat, nat>

    ghost predicate AsidsOk()
      reads `asids, asidUsed
    {
      AsidTable(asidUsed[..], asids)
    }

    ghost predicate Valid()
      reads this, t, t.pmm, t.pmm.bitmap, t.ram.cells, asidUsed
    {
      && t.fmt == Arm64 && t.Valid() && AsidsOk()
      && asidUsed as object != t.ram.cells as object && asidUsed as object != t.pmm.bitmap as object
      && forall r :: IsRoot(t.nodes, r) <==> r in asids
    }

    constructor (pmm: FrameAllocator, ram: Ram)
      requires pmm.Valid()
      requires ram.cells as object != pmm.bitmap as object
      requires (pmm.first + pmm.totalFrames) * PAGE_WORDS <= ram.cells.Length
      requires (pmm.first + pmm.totalFrames) * PAGE_SIZE <= 0x1_0000_0000_0000
      ensures Valid() && fresh(asidUsed) && fresh(t) && t.pmm == pmm && t.ram == ram
      ensures t.nodes == map[] && asids == map[]
    {
      t := new TableMemory(Arm64, pmm, ram);
      asidUsed := new bool[ASID_POOL_SIZE](_ => false);
      asids := map[];
    }

    /** `walk_create`: the leaf slot for `va`, linking the tables that are missing on the way. */
    method WalkCreate(tablePhys: Word, va: Word, level: nat) returns (pte: Option<nat>)
      requires t.fmt == Arm64 && t.Valid() && level <= 3 && tablePhys % PAGE_SIZE == 0 && tablePhys / PAGE_SIZE in t.nodes
      requires t.nodes[tablePhys / PAGE_SIZE].level == level
      requires t.nodes[tablePhys / PAGE_SIZE].prefix == Prefix(Arm64, Vpn(va), level)
      modifies t.pmm`freeFrames, t.pmm`lastFreeIndex, t.pmm`free, t.pmm.bitmap, t.ram.cells, t`nodes
      ensures t.Valid()
      ensures Grown(Arm64, old(t.nodes)[tablePhys / PAGE_SIZE].root, old(t.ram.View()), old(t.nodes), old(t.pmm.free), t.ram.View(), t.nodes, t.pmm.free)
      ensures var missing := Missing(Arm64, old(t.ram.View()), tablePhys / PAGE_SIZE, level, Vpn(va));
        && (pte.Some? <==> missing <= |old(t.pmm.free)|)
        && |t.pmm.free| == if pte.Some? then |old(t.pmm.free)| - missing else 0
      ensures pte.Some? ==>
        && CanStore(Arm64, t.ram.View(), t.nodes, pte.value / PAGE_WORDS, Vpn(va))
        && pte.value % PAGE_WORDS == Vpn(va) % 512
        && t.nodes[pte.value / PAGE_WORDS].root == old(t.nodes)[tablePhys / PAGE_SIZE].root
      ensures old(t.pmm.HintOk()) ==> t.pmm.HintOk()
      decreases 3 - level
    {
      hide LinksChild, Placed, LinkedFromParent, Represents, Grown, Lookup, Index, Prefix, LevelIndex, PageNumber, EntryPage, Ld, IsFree;
      var p := tablePhys / PAGE_SIZE;
      var idx := LevelIndex(Arm64, va, level);
      LevelIndexIsIndex(Arm64, va, level);
      if level == 3 {
        LastIndex(Arm64, va);
        GrownNot(Arm64, t.nodes[p].root, t.ram.View(), t.nodes, t.pmm.free);
        return Some(p * PAGE_WORDS + idx);
      }
      var childPhys := t.ChildTable(p, idx, Vpn(va));
      if childPhys == 0 {
        return None;
      }
      PrefixStep(Arm64, Vpn(va), level);
      ghost var m, n, f := t.ram.View(), t.nodes, t.pmm.free;
      pte := WalkCreate(childPhys, va, level + 1);
      GrownTwice(Arm64, old(t.nodes)[p].root, old(t.ram.View()), old(t.nodes), old(t.pmm.free), m, n, f, t.ram.View(), t.nodes, t.pmm.free);
    }

    /** The walk both entry points start with, and what the slot it returns holds. */
    method FindSlot(ttbr0: Word, va: Word) returns (pte: Option<nat>)
      requires Valid() && ttbr0 % PAGE_SIZE == 0 && IsRoot(t.nodes, ttbr0 / PAGE_SIZE)
      modifies t.pmm`freeFrames, t.pmm`lastFreeIndex, t.pmm`free, t.pmm.bitmap, t.ram.cells, t`nodes
      ensures Valid()
      ensures Grown(Arm64, ttbr0 / PAGE_SIZE, old(t.ram.View()), old(t.nodes), old(t.pmm.free), t.ram.View(), t.nodes, t.pmm.free)
      ensures pte.Some? <==> Missing(Arm64, old(t.ram.View()), ttbr0 / PAGE_SIZE, 0, Vpn(va)) <= |old(t.pmm.free)|
      ensures pte.None? ==> t.pmm.free == {}
      ensures LinksMissing(old(t.ram.View()), ttbr0 / PAGE_SIZE, Vpn(va), old(t.pmm.free), old(t.nodes), t.nodes)
      ensures Lookup(Arm64, old(t.ram.View()), ttbr0 / PAGE_SIZE, 0, Vpn(va)).Some? ==> pte.Some?
      ensures pte.Some? ==>
        && CanStore(Arm64, t.ram.View(), t.nodes, pte.value / PAGE_WORDS, Vpn(va))
        && pte.value % PAGE_WORDS == Vpn(va) % 512 && pte.value < t.ram.cells.Length
        && t.nodes[pte.value / PAGE_WORDS].root == ttbr0 / PAGE_SIZE
        && (IsValid(t.ram.View()[pte.value]) <==> Lookup(Arm64, old(t.ram.View()), ttbr0 / PAGE_SIZE, 0, Vpn(va)).Some?)
      ensures old(t.pmm.HintOk()) ==> t.pmm.HintOk()
    {
      hide LinksChild, Placed, LinkedFromParent, Represents, Lookup, IsFree, Grown, CanStore, Missing, SameMeaning,
        SameOutside, TablesAdded, PageNumber, Prefix, AsidsOk;
      ghost var root := ttbr0 / PAGE_SIZE;
      RootPlace(Arm64, t.ram.View(), t.nodes, root, Vpn(va));
      MappedHasTables(Arm64, t.ram.View(), root, 0, Vpn(va));
      pte := WalkCreate(ttbr0, va, 0);
      GrownFacts(Arm64, root, old(t.ram.View()), old(t.nodes), old(t.pmm.free), t.ram.View(), t.nodes, t.pmm.free);
      CountAdded(root, old(t.ram.View()), old(t.nodes), old(t.pmm.free), t.ram.View(), t.nodes, t.pmm.free);
      if pte.Some? {
        LeafOfWalk(Arm64, old(t.ram.View()), old(t.nodes), t.ram.View(), t.nodes, pte.value / PAGE_WORDS, Vpn(va));
      }
    }

    /** `arch_map_page`. */
    method MapPage(ttbr0: Word, va: Word, phys: Word, prot: nat) returns (r: int)
      requires Valid() && ttbr0 % PAGE_SIZE == 0 && IsRoot(t.nodes, ttbr0 / PAGE_SIZE)
      modifies t.pmm`freeFrames, t.pmm`lastFreeIndex, t.pmm`free, t.pmm.bitmap, t.ram.cells, t`nodes
      ensures Valid() && (old(t.pmm.HintOk()) ==> t.pmm.HintOk())
      ensures Maps(r, ttbr0 / PAGE_SIZE, Vpn(va), LeafEntry(phys, prot), old(t.ram.View()), old(t.nodes), old(t.pmm.free),
                   t.ram.View(), t.nodes, t.pmm.free)
    {
      hide Represents, Lookup, Grown, Updated, CanStore, Missing, SameMeaning, SameOutside, Stored, TablesAdded, PageNumber,
        LeafEntry, AsidsOk, Forest, IsRoot, LinksMissing;
      ghost var root := ttbr0 / PAGE_SIZE;
      var pte := FindSlot(ttbr0, va);
      ghost var m, n, f := t.ram.View(), t.nodes, t.pmm.free;
      GrownFacts(Arm64, root, old(t.ram.View()), old(t.nodes), old(t.pmm.free), m, n, f);
      if pte == None {
        return -1;
      }
      var e := LeafEntry(phys, prot);
      t.WriteLeaf(pte.value, e, Vpn(va));
      GrownThenUpdated(Arm64, old(t.ram.View()), old(t.nodes), old(t.pmm.free), m, n, f, t.ram.View(), root, Vpn(va), Some(e));
      return 0;
    }

    /** `arch_unmap_page`: fails on an unmapped page, although the walk may then have linked empty tables. */
    method UnmapPage(ttbr0: Word, va: Word) returns (r: int)
      requires Valid() && ttbr0 % PAGE_SIZE == 0 && IsRoot(t.nodes, ttbr0 / PAGE_SIZE)
      modifies t.pmm`freeFrames, t.pmm`lastFreeIndex, t.pmm`free, t.pmm.bitmap, t.ram.cells, t`nodes
      ensures Valid() && (old(t.pmm.HintOk()) ==> t.pmm.HintOk())
      ensures Unmaps(r, ttbr0 / PAGE_SIZE, Vpn(va), old(t.ram.View()), old(t.nodes), old(t.pmm.free), t.ram.View(), t.nodes, t.pmm.free)
    {
      hide Represents, Lookup, Grown, Updated, CanStore, Missing, SameMeaning, SameOutside, Stored, TablesAdded, PageNumber,
        AsidsOk, Forest, IsRoot, LinksMissing;
      ghost var root := ttbr0 / PAGE_SIZE;
      var pte := FindSlot(ttbr0, va);
      ghost var m, n, f := t.ram.View(), t.nodes, t.pmm.free;
      GrownFacts(Arm64, root, old(t.ram.View()), old(t.nodes), old(t.pmm.free), m, n, f);
      if pte == None {
        return -1;
      }
      var e := t.ram.Load(pte.value);
      if !IsValid(e) {
        return -1;
      }
      t.WriteLeaf(pte.value, 0, Vpn(va));
      GrownThenUpdated(Arm64, old(t.ram.View()), old(t.nodes), old(t.pmm.free), m, n, f, t.ram.View(), root, Vpn(va), None);
      return 0;
    }

    /** `asid_alloc`: the lowest unused ASID from 1, or -1. */
    method AsidAlloc() returns (asid: int)
      requires asidUsed.Length == ASID_POOL_SIZE
      modifies asidUsed
      ensures asid == -1 <==> forall i :: 0 < i < 256 ==> old(asidUsed[i])
      ensures asid == -1 ==> asidUsed[..] == old(asidUsed[..])
      ensures asid != -1 ==>
        && 0 < asid < 256 && !old(asidUsed[asid])
        && asidUsed[..] == old(asidUsed[..])[asid := true]
        && forall i :: 0 < i < asid ==> old(asidUsed[i])
    {
      for i := 1 to ASID_POOL_SIZE
        invariant asidUsed[..] == old(asidUsed[..])
        invariant forall k :: 0 < k < i ==> asidUsed[k]
      {
        if !asidUsed[i] {
          asidUsed[i] := true;
          return i;
        }
      }
      return -1;
    }

    /** `asid_free`. */
    method AsidFree(asid: nat)
      requires asid < asidUsed.Length
      modifies asidUsed
      ensures asidUsed[..] == old(asidUsed[..])[asid := false]
    {
      asidUsed[asid] := false;
    }

    /** The tables are a forest in memory, whichever frames are free. */
    ghost predicate TablesStand()
      reads t, t.pmm`bitmap, t.pmm`first, t.pmm`totalFrames, t.ram.cells
    {
      t.fmt == Arm64 && t.Backed() && t.AllInRange() && Forest(Arm64, t.ram.View(), t.nodes)
    }

    /** One turn of the loop of `free_table_recursive`: entry `i` of table `p`. */
    method FreeEntry(p: nat, i: nat, level: nat) returns (ghost freed: seq<nat>)
      requires t.pmm.Valid() && TablesStand()
      requires p in t.nodes && t.nodes[p].level == level < 3 && i < 512
      requires SlotTables(t.nodes, p, i) !! t.pmm.free
      modifies t.pmm`freeFrames, t.pmm`lastFreeIndex, t.pmm`free, t.pmm.bitmap
      ensures t.pmm.Valid()
      ensures t.pmm.free == old(t.pmm.free) + SlotTables(t.nodes, p, i)
      ensures EachOnce(freed, SlotTables(t.nodes, p, i))
      ensures old(t.pmm.HintOk()) ==> t.pmm.HintOk()
      decreases 3 - level, 0
    {
      hide Forest, Represents, IsFree, SlotTables, EntryPage, EachOnce;
      TableInMemory(p);
      SlotSubtree(t.ram.View(), t.nodes, p, i);
      var e := t.ram.Load(p * PAGE_WORDS + i);
      assert e == Entry(t.ram.View(), p, i);
      if IsValid(e) && e / 2 % 2 == 1 {
        freed := FreeTableRecursive(PteAddr(e), level + 1, EntryPage(Arm64, e));
      } else {
        freed := [];
        NoneOnce();
      }
    }

    lemma CellsApart()
      requires TablesStand()
      ensures t.ram.cells as object != t.pmm.bitmap as object
    {
      hide Forest;
    }

    lemma TableInMemory(p: nat)
      requires TablesStand() && p in t.nodes
      ensures (p + 1) * PAGE_WORDS <= t.ram.cells.Length
    {
      hide LinksChild, Placed, LinkedFromParent;
    }

    /** The loop of `free_table_recursive` over the entries of table `p`. */
    method FreeEntries(p: nat, level: nat) returns (ghost freed: seq<nat>)
      requires t.pmm.Valid() && TablesStand()
      requires p in t.nodes && t.nodes[p].level == level < 3
      requires Subtree(t.nodes, p) !! t.pmm.free
      modifies t.pmm`freeFrames, t.pmm`lastFreeIndex, t.pmm`free, t.pmm.bitmap
      ensures t.pmm.Valid()
      ensures t.pmm.free == old(t.pmm.free) + FirstSubtrees(t.nodes, p, 512)
      ensures EachOnce(freed, FirstSubtrees(t.nodes, p, 512))
      ensures old(t.pmm.HintOk()) ==> t.pmm.HintOk()
      decreases 3 - level, 1
    {
      hide FreedUpTo, EachOnce, FirstSubtrees, Subtree, SlotTables, FrameAllocator.Valid, FrameAllocator.HintOk, AddressSpaces.TablesStand;
      CellsApart();
      ghost var hintOk := t.pmm.HintOk();
      freed := [];
      FreedNone(t.pmm.free, t.nodes, p);
      for i := 0 to 512
        invariant t.pmm.Valid()
        invariant FreedUpTo(old(t.pmm.free), t.pmm.free, t.nodes, p, i, freed)
        invariant hintOk ==> t.pmm.HintOk()
      {
        ghost var free := t.pmm.free;
        SlotNotFree(old(t.pmm.free), free, t.nodes, p, i, freed);
        ghost var part := FreeEntry(p, i, level);
        FreedOneMore(old(t.pmm.free), free, t.nodes, p, i, freed, part);
        freed := freed + part;
      }
      FreedAll(old(t.pmm.free), t.pmm.free, t.nodes, p, freed);
    }

    /** `free_table_recursive` on table page `p`. `freed` records the frames in the order they are given back. */
    method FreeTableRecursive(tablePhys: Word, level: nat, ghost p: nat) returns (ghost freed: seq<nat>)
      requires t.pmm.Valid() && TablesStand()
      requires tablePhys == p * PAGE_SIZE && p in t.nodes && t.nodes[p].level == level <= 3
      requires Subtree(t.nodes, p) !! t.pmm.free
      modifies t.pmm`freeFrames, t.pmm`lastFreeIndex, t.pmm`free, t.pmm.bitmap
      ensures t.pmm.Valid()
      ensures t.pmm.free == old(t.pmm.free) + Subtree(t.nodes, p)
      ensures EachOnce(freed, Subtree(t.nodes, p))
      ensures old(t.pmm.HintOk()) ==> t.pmm.HintOk()
      decreases 3 - level, 2
    {
      assert Arm64.LeafLevel() == 3;
      assert t.pmm.InRange(p) && tablePhys / PAGE_SIZE == p;
      hide *;
      freed := [];
      NoneOnce();
      SubtreeSplit(Arm64, t.ram.View(), t.nodes, p);
      if level < 3 {
        freed := FreeEntries(tablePhys / PAGE_SIZE, level);
      }
      OneMore(old(t.pmm.free), FirstSubtrees(t.nodes, p, 512), Subtree(t.nodes, p), p, freed);
      t.FreeTablePage(tablePhys, p);
      freed := freed + [p];
    }

    /** The part of `arch_pagetable_create` after the root structure is allocated; 0 when a frame or an ASID is missing. */
    method NewTree() returns (l0Phys: Word, asid: int)
      requires Valid()
      modifies t.pmm`freeFrames, t.pmm`lastFreeIndex, t.pmm`free, t.pmm.bitmap, t.ram.cells, asidUsed, t`nodes, `asids
      ensures Valid() && l0Phys % PAGE_SIZE == 0
      ensures l0Phys == 0 <==> old(t.pmm.free) == {} || AsidsExhausted(old(asids))
      ensures SameMeaning(Arm64, old(t.ram.View()), t.ram.View(), old(t.nodes))
      ensures SameOutside(old(t.ram.View()), t.ram.View(), old(t.pmm.free))
      ensures Planted(l0Phys, asid, old(t.nodes), t.nodes, old(asids), asids, old(t.pmm.free), t.pmm.free, t.ram.View())
      ensures old(t.pmm.HintOk()) ==> t.pmm.HintOk()
    {
      hide Represents, IsFree, Lookup, FirstFrom, Forest, Zeroed, SameTables, SameOutside, SameMeaning, NoneBelow, AsidTable, AsidsExhausted,
        Planted, MapsNothing, Blank;
      ghost var m0, nodes0, asids0, free0 := t.ram.View(), t.nodes, asids, t.pmm.free;
      NothingWritten(m0, nodes0, free0);
      l0Phys := t.AllocTablePage();
      if l0Phys == 0 {
        NothingPlanted(-1, nodes0, asids0, free0, m0);
        return 0, -1;
      }
      ghost var r := l0Phys / PAGE_SIZE;
      FrameExists(r);
      RootCleared(m0, nodes0, r, free0);
      asid := TakeAsid(r);
      if asid < 0 {
        t.FreeTablePage(l0Phys, r);
        assert t.pmm.free == free0;
        NothingPlanted(-1, nodes0, asids0, free0, t.ram.View());
        return 0, -1;
      }
      TreePlanted(l0Phys, asid, nodes0, asids0, free0, t.ram.View());
      t.nodes := WithRoot(t.nodes, r);
    }

    /** `asid_alloc` for the new root table `r`. */
    method TakeAsid(ghost r: nat) returns (asid: int)
      requires AsidsOk() && r !in asids
      modifies asidUsed, `asids
      ensures AsidsOk() && (asid == -1 || 0 < asid < ASID_POOL_SIZE)
      ensures asid == -1 <==> AsidsExhausted(old(asids))
      ensures asid == -1 ==> asids == old(asids)
      ensures asid != -1 ==> asids == old(asids)[r := asid] && asid !in old(asids).Values
    {
      asid := AsidAlloc();
      if asid != -1 {
        AsidTaken(old(asidUsed[..]), asids, r, asid);
        asids := asids[r := asid];
      }
    }

    lemma FrameExists(r: nat)
      requires t.pmm.Valid() && t.Backed() && t.pmm.InRange(r)
      ensures (r + 1) * PAGE_WORDS <= t.ram.cells.Length && r * PAGE_SIZE < 0x1_0000_0000_0000
    {
    }

    /** `arch_pagetable_destroy`, up to the root structure. */
    method DestroyTree(ttbr0: Word, asid: nat) returns (ghost freed: seq<nat>)
      requires Valid() && ttbr0 % PAGE_SIZE == 0 && IsRoot(t.nodes, ttbr0 / PAGE_SIZE) && asid == asids[ttbr0 / PAGE_SIZE]
      modifies t.pmm`freeFrames, t.pmm`lastFreeIndex, t.pmm`free, t.pmm.bitmap, asidUsed, t`nodes, `asids
      ensures Valid() && t.ram.View() == old(t.ram.View())
      ensures t.nodes == WithoutTree(old(t.nodes), ttbr0 / PAGE_SIZE)
      ensures asids == old(asids) - {ttbr0 / PAGE_SIZE}
      ensures t.pmm.free == old(t.pmm.free) + (old(t.nodes).Keys - t.nodes.Keys)
      ensures EachOnce(freed, old(t.nodes).Keys - t.nodes.Keys)
      ensures old(t.pmm.HintOk()) ==> t.pmm.HintOk()
    {
      hide LinksChild, Placed, LinkedFromParent, Represents, IsFree, Lookup, Subtree, EachOnce, Forest, WithoutTree;
      ghost var r := ttbr0 / PAGE_SIZE;
      RootSubtree(Arm64, t.ram.View(), t.nodes, r);
      WithoutTreeForest(Arm64, t.ram.View(), t.nodes, r);
      AsidGiven(asidUsed[..], asids, r);
      RootRemoved(Arm64, t.ram.View(), t.nodes, r);
      freed := FreeTableRecursive(ttbr0, 0, r);
      AsidFree(asid);
      t.nodes := WithoutTree(t.nodes, r);
      asids := asids - {r};
    }
  }
}
