/** The three-level Sv39 page tables of `arch/riscv/paging.c`, and the hardware translation they must satisfy. */
module Sv39Paging {
  import opened Machine
  import opened PageTree
  import opened PhysFrame
  import opened TableMemory

  const PAGE_KERNEL_EXEC := 203  // V R X A D
  const PAGE_KERNEL_DATA := 199  // V R W A D
  const UART_FLAGS := 6          // R W

  /** Page number of a virtual address: bits 12..38. */
  function Vpn(va: Word): (v: nat)
    ensures v < VpnLimit(Sv39)
  {
    PageNumber(Sv39, va)
  }

  /** `pte_to_pa`: the address field, cut to 64 bits. */
  function PteToPa(e: Word): Word {
    EntryPage(Sv39, e) * PAGE_SIZE
  }

  /** `pa_to_pte_ppn(pa) | PTE_V | flags`. Flags above the ten flag bits are ored into the address field. */
  function MapEntry(pa: Word, flags: Word): (e: Word)
    ensures IsValid(e)
    ensures flags < 1024 ==> e == pa / PAGE_SIZE * 1024 + flags + (1 - flags % 2) && PteToPa(e) == pa - pa % PAGE_SIZE
  {
    MapWord(pa, flags);
    BitOr(pa / PAGE_SIZE * 1024 + 1, flags)
  }

  lemma MapWord(pa: Word, flags: Word)
    ensures var e := BitOr(pa / PAGE_SIZE * 1024 + 1, flags);
      && e < U64 && e % 2 == 1
      && (flags < 1024 ==> e == pa / PAGE_SIZE * 1024 + flags + (1 - flags % 2) && e / 1024 == pa / PAGE_SIZE)
  {
    var q := pa / PAGE_SIZE;
    assert q < 0x10_0000_0000_0000;
    OrOfPage(q, flags);
    if flags < 1024 {
      EntryOfSmallFlags(q, flags);
      LowTen(q, flags + (1 - flags % 2));
    }
  }

  lemma OrOfPage(q: nat, flags: Word)
    requires q < 0x10_0000_0000_0000
    ensures var e := BitOr(q * 1024 + 1, flags); e < U64 && e % 2 == 1
  {
    hide BitOr, Pow2;
    WordIs64Bits();
    BitOrFits(q * 1024 + 1, flags, 64);
    assert (q * 1024 + 1) % 2 == 1;
  }

  lemma EntryOfSmallFlags(q: nat, flags: nat)
    ensures flags < 1024 ==> BitOr(q * 1024 + 1, flags) == q * 1024 + flags + (1 - flags % 2)
  {
    hide BitOr, Pow2, Shifted;
    if flags < 1024 {
      WordIs64Bits();
      Shifted10(q);
      BitOrLow(q, 1, flags, 10);
      OrOne(flags);
    }
  }

  lemma OrOne(y: nat)
    ensures BitOr(1, y) == y + (1 - y % 2)
  {
    OrHalves(1, y);
  }

  predicate Readable(e: nat) { e / 2 % 2 == 1 }
  predicate Writable(e: nat) { e / 4 % 2 == 1 }
  predicate Executable(e: nat) { e / 8 % 2 == 1 }
  predicate UserPage(e: nat) { e / 16 % 2 == 1 }
  predicate Accessed(e: nat) { e / 64 % 2 == 1 }
  predicate Dirty(e: nat) { e / 128 % 2 == 1 }
  predicate UserAccessedDirty(e: nat) { UserPage(e) || Accessed(e) || Dirty(e) }

  /**
   Step 7 leaves a choice for a leaf whose accessed bit is clear, or whose dirty bit is clear on a store: the hardware sets the bits,
   or it raises a page fault.
   */
  datatype AdPolicy = Updates | Faults(store: bool)

  predicate AdOk(e: nat, ad: AdPolicy) {
    ad.Faults? ==> Accessed(e) && (ad.store ==> Dirty(e))
  }

  datatype Translation = PageFault | Physical(pa: nat, flags: nat)

  /** Bits 63..39 of an Sv39 address must all equal bit 38. */
  predicate Canonical(va: Word) {
    va < 0x40_0000_0000 || U64 - 0x40_0000_0000 <= va
  }

  /** VPN[2], VPN[1] and VPN[0] of an address: bits 38..30, 29..21 and 20..12. */
  function Slot(va: Word, level: nat): nat {
    if level == 0 then va / 0x4000_0000 % 512 else if level == 1 then va / 0x20_0000 % 512 else va / 0x1000 % 512
  }

  /** How many bytes a leaf at this level maps: 1 GB, 2 MB or 4 KB. */
  function Span(level: nat): (n: nat)
    ensures 0 < n
  {
    if level == 0 then 0x4000_0000 else if level == 1 then 0x20_0000 else 0x1000
  }

  /**
   Section 4.3.2 of the RISC-V privileged architecture 20211203, steps 2 to 8 without the permission checks of step 5, from the
   level-`level` table at page `a` (level 0 is the root, i = 2 - level). Reserved bits 63..54, reserved encodings and
   U, A or D in a pointer entry fault, as do misaligned superpages and, if `ad` says so, clear A and D bits.
   */
  function HardwareWalk(m: seq<Word>, a: nat, level: nat, va: Word, ad: AdPolicy): Translation
    requires level <= 2
    decreases 2 - level
  {
    var e := Ld(m, a * 512 + Slot(va, level));
    var ppn := e / 1024 % 0x1000_0000_0000;
    if e % 2 == 0 || (!Readable(e) && Writable(e)) || 0x40_0000_0000_0000 <= e then PageFault
    else if Readable(e) || Executable(e) then
      if ppn * 0x1000 % Span(level) != 0 || !AdOk(e, ad) then PageFault
      else Physical(ppn * 0x1000 + va % Span(level), e % 1024)
    else if UserAccessedDirty(e) || level == 2 then PageFault
    else HardwareWalk(m, ppn, level + 1, va, ad)
  }

  function HardwareTranslate(m: seq<Word>, root: nat, va: Word, ad: AdPolicy): Translation {
    if Canonical(va) then HardwareWalk(m, root, 0, va, ad) else PageFault
  }

  /** A leaf word the hardware accepts: no reserved bits, readable or executable, not writable without readable. */
  predicate LegalLeaf(e: Word) {
    && IsValid(e) && e < 0x40_0000_0000_0000
    && (Readable(e) || Executable(e)) && (Writable(e) ==> Readable(e))
  }

  /** What `vmm_virt_to_phys` returns: 0 for an unmapped page. */
  function SoftwareTranslate(m: seq<Word>, root: nat, va: Word): nat {
    match Lookup(Sv39, m, root, 0, Vpn(va))
    case None => 0
    case Some(e) => PteToPa(e) + va % PAGE_SIZE
  }

  lemma AddEven(x: nat, k: nat)
    ensures (k * 2 + x) % 2 == x % 2
  {
  }

  lemma FlagBit(q: nat, f: nat, d: nat)
    requires f < 1024 && (d == 2 || d == 4 || d == 8 || d == 16 || d == 64 || d == 128)
    ensures (q * 1024 + f) / d % 2 == f / d % 2
  {
    var k := if d == 2 then 256 else if d == 4 then 128 else if d == 8 then 64 else if d == 16 then 32 else if d == 64 then 8 else 4;
    assert (q * 1024 + f) / d == q * k * 2 + f / d;
    AddEven(f / d, q * k);
  }

  lemma LowTen(q: nat, f: nat)
    requires f < 1024
    ensures (q * 1024 + f) % 2 == f % 2 && (q * 1024 + f) % 1024 == f && (q * 1024 + f) / 1024 == q
  {
    AddEven(f, q * 512);
  }

  /** The flag bits of a word are those of its last ten bits. */
  lemma FlagBits(q: nat, f: nat)
    requires f < 1024
    ensures var e := q * 1024 + f;
      && e % 2 == f % 2 && e % 1024 == f && e / 1024 == q
      && (Readable(e) <==> Readable(f)) && (Writable(e) <==> Writable(f)) && (Executable(e) <==> Executable(f))
      && (Accessed(e) <==> Accessed(f)) && (Dirty(e) <==> Dirty(f)) && (UserAccessedDirty(e) <==> UserAccessedDirty(f))
  {
    LowTen(q, f);
    FlagBit(q, f, 2);
    FlagBit(q, f, 4);
    FlagBit(q, f, 8);
    FlagBit(q, f, 16);
    FlagBit(q, f, 64);
    FlagBit(q, f, 128);
  }

  lemma NoFlags()
    ensures !Readable(1) && !Writable(1) && !Executable(1) && !UserAccessedDirty(1)
  {
  }

  lemma SlotIsIndex(va: Word, level: nat)
    requires level <= 2
    ensures Slot(va, level) == Index(Sv39, Vpn(va), level) < 512
  {
    LevelIndexIsIndex(Sv39, va, level);
  }

  lemma VpnIsBits(va: Word)
    ensures Vpn(va) == va / 0x1000 % 0x800_0000
  {
  }

  lemma PointerStep(m: seq<Word>, p: nat, level: nat, va: Word, c: nat, ad: AdPolicy)
    requires level < 2 && c * PAGE_SIZE < 0x1_0000_0000_0000
    requires Ld(m, p * 512 + Slot(va, level)) == TableEntry(Sv39, c)
    ensures HardwareWalk(m, p, level, va, ad) == HardwareWalk(m, c, level + 1, va, ad)
  {
    hide Readable, Writable, Executable, UserAccessedDirty, Slot, Ld, Span;
    var e := Ld(m, p * 512 + Slot(va, level));
    FlagBits(c, 1);
    NoFlags();
    assert e == c * 1024 + 1 && c < 0x10_0000_0000;
    assert e < 0x40_0000_0000_0000;
    assert e / 1024 % 0x1000_0000_0000 == c;
  }

  lemma LeafStep(m: seq<Word>, p: nat, va: Word, ad: AdPolicy)
    ensures var e := Ld(m, p * 512 + Slot(va, 2));
      HardwareWalk(m, p, 2, va, ad) == if LegalLeaf(e) && AdOk(e, ad) then Physical(PteToPa(e) + va % PAGE_SIZE, e % 1024) else PageFault
  {
    hide Slot, Ld;
  }

  /** On every table the code can build, the hardware walk accepts exactly the mapped pages whose leaf word is legal. */
  lemma {:induction false} HardwareSeesLookup(m: seq<Word>, nodes: map<nat, Node>, p: nat, va: Word, ad: AdPolicy)
    requires Forest(Sv39, m, nodes) && p in nodes && nodes[p].level <= 2
    ensures HardwareWalk(m, p, nodes[p].level, va, ad) ==
      match Lookup(Sv39, m, p, nodes[p].level, Vpn(va))
      case None => PageFault
      case Some(e) => if LegalLeaf(e) && AdOk(e, ad) then Physical(PteToPa(e) + va % PAGE_SIZE, e % 1024) else PageFault
    decreases 2 - nodes[p].level
  {
    hide LegalLeaf, AdOk, PageNumber, Slot, Index, Span, Ld, PteToPa, Placed, LinkedFromParent, Readable, Writable, Executable, UserAccessedDirty;
    var level := nodes[p].level;
    SlotIsIndex(va, level);
    var i := Slot(va, level);
    var e := Entry(m, p, i);
    if level == 2 {
      LeafStep(m, p, va, ad);
      InvalidIsNotLegal(e);
    } else if IsValid(e) {
      assert LinksChild(Sv39, m, nodes, p, i);
      PointerStep(m, p, level, va, EntryPage(Sv39, e), ad);
      HardwareSeesLookup(m, nodes, EntryPage(Sv39, e), va, ad);
    }
  }

  lemma InvalidIsNotLegal(e: Word)
    ensures !IsValid(e) ==> !LegalLeaf(e)
  {
  }

  /**
   Software and hardware translation of `va` agree, 0 standing for a fault, in exactly these cases: the page is unmapped; the address
   is canonical and the hardware accepts the leaf; or the leaf is refused but names frame 0 and the offset is 0 too.
   */
  lemma SoftwareAgreesExactly(m: seq<Word>, nodes: map<nat, Node>, root: nat, va: Word, ad: AdPolicy)
    requires Forest(Sv39, m, nodes) && IsRoot(nodes, root)
    ensures
      var soft := SoftwareTranslate(m, root, va);
      var hard := match HardwareTranslate(m, root, va, ad) case PageFault => 0 case Physical(pa, _) => pa;
      soft == hard <==>
        match Lookup(Sv39, m, root, 0, Vpn(va))
        case None => true
        case Some(e) => (Canonical(va) && LegalLeaf(e) && AdOk(e, ad)) || (PteToPa(e) == 0 && va % PAGE_SIZE == 0)
  {
    hide LegalLeaf, AdOk;
    HardwareSeesLookup(m, nodes, root, va, ad);
  }

  lemma SameFlags(f: nat, g: nat)
    requires f / 2 == g / 2 && f / 4 == g / 4 && f / 8 == g / 8
    ensures Readable(f) == Readable(g) && Writable(f) == Writable(g) && Executable(f) == Executable(g)
  {
  }

  lemma AdOfMapEntry(pa: Word, flags: nat, ad: AdPolicy)
    requires flags < 1024
    ensures AdOk(MapEntry(pa, flags), ad) <==> AdOk(flags, ad)
  {
    hide Readable, Writable, Executable;
    var f := flags + (1 - flags % 2);
    FlagBits(pa / PAGE_SIZE, f);
    assert f / 64 == flags / 64 && f / 128 == flags / 128;
  }

  /** Which `vmm_map_page` arguments give a word the hardware accepts. */
  lemma LegalMapEntry(pa: Word, flags: nat)
    requires flags < 1024
    ensures LegalLeaf(MapEntry(pa, flags)) <==>
      pa < 0x100_0000_0000_0000 && (Readable(flags) || Executable(flags)) && (Writable(flags) ==> Readable(flags))
  {
    var q, f := pa / PAGE_SIZE, flags + (1 - flags % 2);
    FlagBits(q, f);
    assert f / 2 == flags / 2 && f / 4 == flags / 4 && f / 8 == flags / 8;
    assert MapEntry(pa, flags) == q * 1024 + f;
    assert q * 1024 + f < 0x40_0000_0000_0000 <==> q < 0x1000_0000_0000;
    hide Readable, Writable, Executable, MapEntry;
    assert Readable(f) == Readable(flags) && Writable(f) == Writable(flags) && Executable(f) == Executable(flags) by {
      SameFlags(f, flags);
    }
  }

  class KernelTables {
    const t: TableMemory

    ghost predicate Valid()
      reads this, t, t.pmm, t.pmm.bitmap, t.ram.cells
    {
      t.fmt == Sv39 && t.Valid()
    }

    constructor (pmm: FrameAllocator, ram: Ram)
      requires pmm.Valid()
      requires ram.cells as object != pmm.bitmap as object
      requires (pmm.first + pmm.totalFrames) * PAGE_WORDS <= ram.cells.Length
      requires (pmm.first + pmm.totalFrames) * PAGE_SIZE <= 0x1_0000_0000_0000
      ensures Valid() && fresh(t) && t.pmm == pmm && t.ram == ram && t.nodes == map[]
    {
      t := new TableMemory(Sv39, pmm, ram);
    }

    /** `vmm_walk` with `alloc` false: the leaf slot for `va`, if both tables above it exist. */
    method WalkOnly(root: nat, va: Word) returns (pte: Option<nat>)
      requires Valid() && IsRoot(t.nodes, root)
      ensures pte.Some? ==> pte.value < t.ram.cells.Length
      ensures Lookup(Sv39, t.ram.View(), root, 0, Vpn(va)) ==
        if pte.Some? && IsValid(t.ram.View()[pte.value]) then Some(t.ram.View()[pte.value]) else None
    {
      hide LevelIndex, PageNumber, Index, Prefix, Placed, LinkedFromParent, Represents, IsFree;
      LevelIndexIsIndex(Sv39, va, 0);
      LevelIndexIsIndex(Sv39, va, 1);
      LevelIndexIsIndex(Sv39, va, 2);
      var vpn2, vpn1, vpn0 := LevelIndex(Sv39, va, 0), LevelIndex(Sv39, va, 1), LevelIndex(Sv39, va, 2);
      var pte2 := t.ram.Load(root * PAGE_WORDS + vpn2);
      assert pte2 == Entry(t.ram.View(), root, vpn2);
      if !IsValid(pte2) {
        return None;
      }
      assert LinksChild(Sv39, t.ram.View(), t.nodes, root, vpn2);
      var l1 := PteToPa(pte2) / PAGE_SIZE;
      var pte1 := t.ram.Load(l1 * PAGE_WORDS + vpn1);
      assert pte1 == Entry(t.ram.View(), l1, vpn1);
      if !IsValid(pte1) {
        return None;
      }
      assert LinksChild(Sv39, t.ram.View(), t.nodes, l1, vpn1);
      var l0 := PteToPa(pte1) / PAGE_SIZE;
      return Some(l0 * PAGE_WORDS + vpn0);
    }

    /** `vmm_virt_to_phys`. */
    method VirtToPhys(root: nat, va: Word) returns (pa: nat)
      requires Valid() && IsRoot(t.nodes, root)
      ensures pa == SoftwareTranslate(t.ram.View(), root, va)
    {
      var pte := WalkOnly(root, va);
      if pte == None {
        return 0;
      }
      var e := t.ram.Load(pte.value);
      if !IsValid(e) {
        return 0;
      }
      return PteToPa(e) + va % PAGE_SIZE;
    }

    /** The lower half of `vmm_walk` with `alloc` true, from level-1 table `l1`. */
    method WalkLower(l1: nat, va: Word, ghost root: nat) returns (pte: Option<nat>)
      requires Valid() && l1 in t.nodes && t.nodes[l1].level == 1 && t.nodes[l1].root == root
      requires t.nodes[l1].prefix == Prefix(Sv39, Vpn(va), 1)
      modifies t.pmm`freeFrames, t.pmm`lastFreeIndex, t.pmm`free, t.pmm.bitmap, t.ram.cells, t`nodes
      ensures Valid()
      ensures Grown(Sv39, root, old(t.ram.View()), old(t.nodes), old(t.pmm.free), t.ram.View(), t.nodes, t.pmm.free)
      ensures pte.Some? <==> Missing(Sv39, old(t.ram.View()), l1, 1, Vpn(va)) <= |old(t.pmm.free)|
      ensures pte.None? ==> t.pmm.free == {}
      ensures pte.Some? ==>
        && CanStore(Sv39, t.ram.View(), t.nodes, pte.value / PAGE_WORDS, Vpn(va))
        && pte.value % PAGE_WORDS == Vpn(va) % 512
        && t.nodes[pte.value / PAGE_WORDS].root == root
    {
      hide LevelIndex, PageNumber, Index, Prefix, Placed, LinkedFromParent, Represents, IsFree, LinksChild, Grown, Lookup, Missing, EntryPage;
      LevelIndexIsIndex(Sv39, va, 1);
      LevelIndexIsIndex(Sv39, va, 2);
      LastIndex(Sv39, va);
      PrefixStep(Sv39, Vpn(va), 1);
      var vpn1, vpn0 := LevelIndex(Sv39, va, 1), LevelIndex(Sv39, va, 2);
      var l0 := t.ChildTable(l1, vpn1, Vpn(va));
      if l0 == 0 {
        return None;
      }
      LeafMissing(t.ram.View(), l0 / PAGE_SIZE, Vpn(va));
      return Some(l0 / PAGE_SIZE * PAGE_WORDS + vpn0);
    }

    /** `vmm_walk` with `alloc` true: the leaf slot for `va`, linking the tables that are missing. */
    method WalkAlloc(root: nat, va: Word) returns (pte: Option<nat>)
      requires Valid() && IsRoot(t.nodes, root)
      modifies t.pmm`freeFrames, t.pmm`lastFreeIndex, t.pmm`free, t.pmm.bitmap, t.ram.cells, t`nodes
      ensures Valid()
      ensures Grown(Sv39, root, old(t.ram.View()), old(t.nodes), old(t.pmm.free), t.ram.View(), t.nodes, t.pmm.free)
      ensures pte.Some? <==> Missing(Sv39, old(t.ram.View()), root, 0, Vpn(va)) <= |old(t.pmm.free)|
      ensures pte.None? ==> t.pmm.free == {}
      ensures pte.Some? ==>
        && CanStore(Sv39, t.ram.View(), t.nodes, pte.value / PAGE_WORDS, Vpn(va))
        && pte.value % PAGE_WORDS == Vpn(va) % 512
        && t.nodes[pte.value / PAGE_WORDS].root == root
    {
      hide LevelIndex, PageNumber, Index, Prefix, Placed, LinkedFromParent, Represents, IsFree, LinksChild, Grown, Lookup, Missing, EntryPage;
      LevelIndexIsIndex(Sv39, va, 0);
      RootPlace(Sv39, t.ram.View(), t.nodes, root, Vpn(va));
      PrefixStep(Sv39, Vpn(va), 0);
      var vpn2 := LevelIndex(Sv39, va, 0);
      ghost var m0, n0, f0 := t.ram.View(), t.nodes, t.pmm.free;
      var l1 := t.ChildTable(root, vpn2, Vpn(va));
      if l1 == 0 {
        return None;
      }
      ghost var m1, n1, f1 := t.ram.View(), t.nodes, t.pmm.free;
      pte := WalkLower(l1 / PAGE_SIZE, va, root);
      GrownTwice(Sv39, root, m0, n0, f0, m1, n1, f1, t.ram.View(), t.nodes, t.pmm.free);
    }

    /** `vmm_map_page`. */
    method MapPage(root: nat, va: Word, pa: Word, flags: Word) returns (ok: bool)
      requires Valid() && IsRoot(t.nodes, root)
      modifies t.pmm`freeFrames, t.pmm`lastFreeIndex, t.pmm`free, t.pmm.bitmap, t.ram.cells, t`nodes
      ensures Valid() && IsRoot(t.nodes, root)
      ensures ok <==>
        && va % PAGE_SIZE == 0 && pa % PAGE_SIZE == 0
        && Missing(Sv39, old(t.ram.View()), root, 0, Vpn(va)) <= |old(t.pmm.free)|
      ensures ok ==> Updated(Sv39, old(t.ram.View()), t.ram.View(), old(t.nodes), root, Vpn(va), Some(MapEntry(pa, flags)))
      ensures !ok ==> SameMeaning(Sv39, old(t.ram.View()), t.ram.View(), old(t.nodes))
      ensures !ok && va % PAGE_SIZE == 0 && pa % PAGE_SIZE == 0 ==> t.pmm.free == {}
      ensures t.pmm.free <= old(t.pmm.free)
      ensures va % PAGE_SIZE == 0 && pa % PAGE_SIZE == 0 ==>
        TablesAdded(root, old(t.ram.View()), old(t.nodes), old(t.pmm.free), t.ram.View(), t.nodes, t.pmm.free)
    {
      hide Represents, Lookup, Grown, Updated, CanStore, Missing, SameOutside, Stored, TablesAdded, PageNumber, MapEntry, Forest, IsRoot;
      if va % PAGE_SIZE != 0 || pa % PAGE_SIZE != 0 {
        return false;
      }
      var pte := WalkAlloc(root, va);
      ghost var m, n, f := t.ram.View(), t.nodes, t.pmm.free;
      GrownFacts(Sv39, root, old(t.ram.View()), old(t.nodes), old(t.pmm.free), m, n, f);
      if pte == None {
        return false;
      }
      var e := MapEntry(pa, flags);
      t.WriteLeaf(pte.value, e, Vpn(va));
      GrownThenUpdated(Sv39, old(t.ram.View()), old(t.nodes), old(t.pmm.free), m, n, f, t.ram.View(), root, Vpn(va), Some(e));
      return true;
    }

    /** One loop of `vmm_init`: identity mappings from page-aligned `start` up to `end`. */
    method MapIdentity(root: nat, start: Word, end: Word, flags: nat) returns (ok: bool)
      requires Valid() && IsRoot(t.nodes, root) && flags < 1024
      requires start % PAGE_SIZE == 0 && end <= CANONICAL_LOW
      modifies t.pmm`freeFrames, t.pmm`lastFreeIndex, t.pmm`free, t.pmm.bitmap, t.ram.cells, t`nodes
      ensures Valid() && IsRoot(t.nodes, root) && (!ok ==> t.pmm.free == {})
      ensures ok ==> RangeMapped(old(t.ram.View()), t.ram.View(), root, start / PAGE_SIZE, AlignUpPage(end) / PAGE_SIZE, flags)
    {
      hide Lookup, Updated, SameMeaning, TablesAdded, Forest, Represents, PageNumber, MapEntry, Missing, RangeMapped, AlignUpPage;
      ghost var from := start / PAGE_SIZE;
      var addr := start;
      NothingMapped(t.ram.View(), root, from, flags);
      while addr < end
        invariant Valid() && IsRoot(t.nodes, root)
        invariant start <= addr && addr % PAGE_SIZE == 0 && (addr == start || addr < end + PAGE_SIZE)
        invariant RangeMapped(old(t.ram.View()), t.ram.View(), root, from, addr / PAGE_SIZE, flags)
      {
        ghost var m, n := t.ram.View(), t.nodes;
        ok := MapPage(root, addr, addr, flags);
        if !ok {
          return false;
        }
        OneMoreMapped(old(t.ram.View()), m, t.ram.View(), n, root, from, addr, flags);
        addr := addr + PAGE_SIZE;
      }
      RangeDone(old(t.ram.View()), t.ram.View(), root, start, addr, end, flags);
      return true;
    }

    /** `vmm_init` up to installing the table; false stands for its panics. `root` is the page of `kernel_page_table`. */
    method VmmInit(root: nat, imageStart: Word, readonlyEnd: Word, ramEnd: Word) returns (ok: bool)
      requires Valid() && t.nodes == map[] && t.pmm.InRange(root) && root !in t.pmm.free
      requires imageStart % PAGE_SIZE == 0 && readonlyEnd <= CANONICAL_LOW && ramEnd <= CANONICAL_LOW
      modifies t.pmm`freeFrames, t.pmm`lastFreeIndex, t.pmm`free, t.pmm.bitmap, t.ram.cells, t`nodes
      ensures Valid() && (!ok ==> t.pmm.free == {})
      ensures ok ==> forall va: Word, ad ::
        HardwareTranslate(t.ram.View(), root, va, ad) == BootTranslate(va, imageStart, readonlyEnd, ramEnd, ad)
    {
      hide Lookup, Represents, HardwareTranslate, RangeMapped, BootTranslate, BootLeaf, LinksChild, Placed, LinkedFromParent;
      ghost var m0 := t.ram.View();
      t.ram.ZeroPage(root);
      NewRootForest(Sv39, m0, t.nodes, root);
      t.nodes := WithRoot(t.nodes, root);
      ghost var m1 := t.ram.View();
      ok := MapIdentity(root, imageStart, readonlyEnd, PAGE_KERNEL_EXEC);
      if !ok {
        return;
      }
      ghost var m2 := t.ram.View();
      ok := MapIdentity(root, AlignUpPage(readonlyEnd), ramEnd, PAGE_KERNEL_DATA);
      if !ok {
        return;
      }
      ghost var m3 := t.ram.View();
      ok := MapIdentity(root, 0x1000_0000, 0x1000_2000, UART_FLAGS);
      if !ok {
        return;
      }
      forall va: Word, ad
        ensures HardwareTranslate(t.ram.View(), root, va, ad) == BootTranslate(va, imageStart, readonlyEnd, ramEnd, ad)
      {
        BootLookup(m0, m1, m2, m3, t.ram.View(), root, Vpn(va), imageStart, readonlyEnd, ramEnd);
        BootTranslates(t.ram.View(), t.nodes, root, va, imageStart, readonlyEnd, ramEnd, ad);
      }
    }
  }

  lemma LeafMissing(m: seq<Word>, p: nat, vpn: nat)
    ensures Missing(Sv39, m, p, 2, vpn) == 0
  {
  }

  /** Addresses below this one are canonical. */
  const CANONICAL_LOW := 0x40_0000_0000

  /** From `m` to `m'`, pages `[from, to)` of tree `root` became identity mappings and no other page changed. */
  ghost predicate RangeMapped(m: seq<Word>, m': seq<Word>, root: nat, from: nat, to: nat, flags: nat)
    requires flags < 1024
  {
    forall v: nat {:trigger Lookup(Sv39, m', root, 0, v)} | v < VpnLimit(Sv39) ::
      Lookup(Sv39, m', root, 0, v)
      == if from <= v < to then Some(MapEntry(v * PAGE_SIZE, flags)) else Lookup(Sv39, m, root, 0, v)
  }

  lemma NothingMapped(m: seq<Word>, root: nat, from: nat, flags: nat)
    requires flags < 1024
    ensures RangeMapped(m, m, root, from, from, flags)
  {
  }

  lemma OneMoreMapped(m0: seq<Word>, m: seq<Word>, m': seq<Word>, nodes: map<nat, Node>, root: nat, from: nat, addr: Word, flags: nat)
    requires flags < 1024 && RangeMapped(m0, m, root, from, addr / PAGE_SIZE, flags) && from <= addr / PAGE_SIZE
    requires IsRoot(nodes, root) && addr % PAGE_SIZE == 0 && addr < CANONICAL_LOW
    requires Updated(Sv39, m, m', nodes, root, Vpn(addr), Some(MapEntry(addr, flags)))
    ensures RangeMapped(m0, m', root, from, (addr + PAGE_SIZE) / PAGE_SIZE, flags)
  {
    hide MapEntry, Lookup;
    var page := addr / PAGE_SIZE;
    assert Vpn(addr) == page && addr == page * PAGE_SIZE && (addr + PAGE_SIZE) / PAGE_SIZE == page + 1;
    forall v: nat | v < VpnLimit(Sv39)
      ensures Lookup(Sv39, m', root, 0, v)
              == if from <= v < page + 1 then Some(MapEntry(v * PAGE_SIZE, flags)) else Lookup(Sv39, m0, root, 0, v)
    {
      assert Lookup(Sv39, m, root, 0, v)
             == if from <= v < page then Some(MapEntry(v * PAGE_SIZE, flags)) else Lookup(Sv39, m0, root, 0, v);
    }
  }

  lemma RangeDone(m: seq<Word>, m': seq<Word>, root: nat, start: Word, addr: Word, end: Word, flags: nat)
    requires flags < 1024 && RangeMapped(m, m', root, start / PAGE_SIZE, addr / PAGE_SIZE, flags)
    requires start % PAGE_SIZE == 0 && addr % PAGE_SIZE == 0 && end <= CANONICAL_LOW
    requires end <= addr && (addr == start || addr < end + PAGE_SIZE)
    ensures RangeMapped(m, m', root, start / PAGE_SIZE, AlignUpPage(end) / PAGE_SIZE, flags)
  {
    hide MapEntry, Lookup;
    assert AlignUpPage(end) <= addr;
  }

  /**
   What every address means once `vmm_init` is done: flags 0x07 are V R W, 0xC7 are V R W A D, 0xCB are V R X A D. The UART pages have
   their accessed bit clear, so they are reachable only on hardware that sets the bit itself.
   */
  function BootTranslate(va: Word, imageStart: Word, readonlyEnd: Word, ramEnd: Word, ad: AdPolicy): Translation {
    if 0x1000_0000 <= va < 0x1000_2000 then if ad == Updates then Physical(va, 0x07) else PageFault
    else if AlignUpPage(readonlyEnd) <= va < AlignUpPage(ramEnd) then Physical(va, 0xC7)
    else if imageStart <= va < AlignUpPage(readonlyEnd) then Physical(va, 0xCB)
    else PageFault
  }

  lemma IdentityLeaf(va: Word, flags: nat, ad: AdPolicy)
    requires va < CANONICAL_LOW && (flags == UART_FLAGS || flags == PAGE_KERNEL_DATA || flags == PAGE_KERNEL_EXEC)
    ensures var e := MapEntry(va / PAGE_SIZE * PAGE_SIZE, flags);
      LegalLeaf(e) && PteToPa(e) + va % PAGE_SIZE == va && e % 1024 == flags + (1 - flags % 2)
      && (AdOk(e, ad) <==> flags != UART_FLAGS || ad == Updates)
  {
    AdOfMapEntry(va / PAGE_SIZE * PAGE_SIZE, flags, ad);
    LegalMapEntry(va / PAGE_SIZE * PAGE_SIZE, flags);
    LowTen(va / PAGE_SIZE, flags + (1 - flags % 2));
  }

  lemma PageBound(va: nat, bound: nat)
    requires bound % PAGE_SIZE == 0
    ensures va < bound <==> va / PAGE_SIZE < bound / PAGE_SIZE
  {
  }

  lemma UartEnd()
    ensures AlignUpPage(0x1000_2000) == 0x1000_2000
  {
  }

  /** The leaf word of page `v` once the three loops are done. */
  function BootLeaf(v: nat, imageStart: Word, readonlyEnd: Word, ramEnd: Word): Option<Word>
    requires v < VpnLimit(Sv39)
  {
    if 0x1_0000 <= v < 0x1_0002 then Some(MapEntry(v * PAGE_SIZE, UART_FLAGS))
    else if AlignUpPage(readonlyEnd) / PAGE_SIZE <= v < AlignUpPage(ramEnd) / PAGE_SIZE then Some(MapEntry(v * PAGE_SIZE, PAGE_KERNEL_DATA))
    else if imageStart / PAGE_SIZE <= v < AlignUpPage(readonlyEnd) / PAGE_SIZE then Some(MapEntry(v * PAGE_SIZE, PAGE_KERNEL_EXEC))
    else None
  }

  lemma BootLookup(m0: seq<Word>, m1: seq<Word>, m2: seq<Word>, m3: seq<Word>, m4: seq<Word>,
      root: nat, v: nat, imageStart: Word, readonlyEnd: Word, ramEnd: Word)
    requires v < VpnLimit(Sv39) && (root + 1) * PAGE_WORDS <= |m0| && m1 == Zeroed(m0, root)
    requires RangeMapped(m1, m2, root, imageStart / PAGE_SIZE, AlignUpPage(readonlyEnd) / PAGE_SIZE, PAGE_KERNEL_EXEC)
    requires RangeMapped(m2, m3, root, AlignUpPage(readonlyEnd) / PAGE_SIZE, AlignUpPage(ramEnd) / PAGE_SIZE, PAGE_KERNEL_DATA)
    requires RangeMapped(m3, m4, root, 0x1000_0000 / PAGE_SIZE, AlignUpPage(0x1000_2000) / PAGE_SIZE, UART_FLAGS)
    ensures Lookup(Sv39, m4, root, 0, v) == BootLeaf(v, imageStart, readonlyEnd, ramEnd)
  {
    hide MapEntry, Lookup, Zeroed, AlignUpPage;
    UartEnd();
    NewRootEmpty(Sv39, m0, root, v);
    var leaf4, leaf3, leaf2 := Lookup(Sv39, m4, root, 0, v), Lookup(Sv39, m3, root, 0, v), Lookup(Sv39, m2, root, 0, v);
  }

  lemma UnmappedFaults(m: seq<Word>, nodes: map<nat, Node>, root: nat, va: Word, ad: AdPolicy)
    requires Forest(Sv39, m, nodes) && IsRoot(nodes, root)
    requires Canonical(va) ==> Lookup(Sv39, m, root, 0, Vpn(va)) == None
    ensures HardwareTranslate(m, root, va, ad) == PageFault
  {
    HardwareSeesLookup(m, nodes, root, va, ad);
  }

  lemma IdentityTranslates(m: seq<Word>, nodes: map<nat, Node>, root: nat, va: Word, flags: nat, ad: AdPolicy)
    requires Forest(Sv39, m, nodes) && IsRoot(nodes, root) && va < CANONICAL_LOW
    requires flags == UART_FLAGS || flags == PAGE_KERNEL_DATA || flags == PAGE_KERNEL_EXEC
    requires Lookup(Sv39, m, root, 0, va / PAGE_SIZE) == Some(MapEntry(va / PAGE_SIZE * PAGE_SIZE, flags))
    ensures HardwareTranslate(m, root, va, ad) ==
      if flags != UART_FLAGS || ad == Updates then Physical(va, flags + (1 - flags % 2)) else PageFault
  {
    hide MapEntry, Lookup, LegalLeaf, AdOk, PteToPa, HardwareWalk, Forest;
    assert Vpn(va) == va / PAGE_SIZE;
    HardwareSeesLookup(m, nodes, root, va, ad);
    IdentityLeaf(va, flags, ad);
  }

  lemma BootLeafAt(va: Word, imageStart: Word, readonlyEnd: Word, ramEnd: Word)
    requires va < CANONICAL_LOW && imageStart % PAGE_SIZE == 0
    ensures va / PAGE_SIZE == Vpn(va)
    ensures BootLeaf(va / PAGE_SIZE, imageStart, readonlyEnd, ramEnd) ==
      if 0x1000_0000 <= va < 0x1000_2000 then Some(MapEntry(va / PAGE_SIZE * PAGE_SIZE, UART_FLAGS))
      else if AlignUpPage(readonlyEnd) <= va < AlignUpPage(ramEnd) then Some(MapEntry(va / PAGE_SIZE * PAGE_SIZE, PAGE_KERNEL_DATA))
      else if imageStart <= va < AlignUpPage(readonlyEnd) then Some(MapEntry(va / PAGE_SIZE * PAGE_SIZE, PAGE_KERNEL_EXEC))
      else None
  {
    hide MapEntry, AlignUpPage;
    PageBound(va, AlignUpPage(readonlyEnd));
    PageBound(va, AlignUpPage(ramEnd));
    PageBound(va, imageStart);
    PageBound(va, 0x1000_0000);
    PageBound(va, 0x1000_2000);
  }

  lemma NoBootLeafAbove(va: Word, imageStart: Word, readonlyEnd: Word, ramEnd: Word)
    requires Canonical(va) && CANONICAL_LOW <= va && readonlyEnd <= CANONICAL_LOW && ramEnd <= CANONICAL_LOW
    ensures BootLeaf(Vpn(va), imageStart, readonlyEnd, ramEnd) == None
  {
    AlignedBelow(readonlyEnd);
    AlignedBelow(ramEnd);
    hide AlignUpPage, MapEntry;
    assert CANONICAL_LOW / PAGE_SIZE <= Vpn(va);
  }

  lemma {:induction false} BootTranslates(m: seq<Word>, nodes: map<nat, Node>, root: nat, va: Word,
      imageStart: Word, readonlyEnd: Word, ramEnd: Word, ad: AdPolicy)
    requires Forest(Sv39, m, nodes) && IsRoot(nodes, root)
    requires imageStart % PAGE_SIZE == 0 && readonlyEnd <= CANONICAL_LOW && ramEnd <= CANONICAL_LOW
    requires Lookup(Sv39, m, root, 0, Vpn(va)) == BootLeaf(Vpn(va), imageStart, readonlyEnd, ramEnd)
    ensures HardwareTranslate(m, root, va, ad) == BootTranslate(va, imageStart, readonlyEnd, ramEnd, ad)
  {
    hide MapEntry, Lookup, HardwareTranslate, Forest, AlignUpPage, BootLeaf, PageNumber, IsRoot;
    if va < CANONICAL_LOW {
      BootLeafAt(va, imageStart, readonlyEnd, ramEnd);
      if 0x1000_0000 <= va < 0x1000_2000 {
        IdentityTranslates(m, nodes, root, va, UART_FLAGS, ad);
      } else if AlignUpPage(readonlyEnd) <= va < AlignUpPage(ramEnd) {
        IdentityTranslates(m, nodes, root, va, PAGE_KERNEL_DATA, ad);
      } else if imageStart <= va < AlignUpPage(readonlyEnd) {
        IdentityTranslates(m, nodes, root, va, PAGE_KERNEL_EXEC, ad);
      } else {
        UnmappedFaults(m, nodes, root, va, ad);
      }
    } else {
      AlignedBelow(readonlyEnd);
      AlignedBelow(ramEnd);
      if Canonical(va) {
        NoBootLeafAbove(va, imageStart, readonlyEnd, ramEnd);
      }
      UnmappedFaults(m, nodes, root, va, ad);
    }
  }

  lemma AlignedBelow(n: Word)
    requires n <= CANONICAL_LOW
    ensures AlignUpPage(n) <= CANONICAL_LOW
  {
  }

  /**
   After boot every translation is the identity, for the kernel only, and no page is both writable and executable: the image up to the
   end of its read-only part is readable and executable, the rest of RAM and the UART readable and writable, and nothing else is mapped.
   */
  lemma BootIsIdentityAndWxorX(va: Word, imageStart: Word, readonlyEnd: Word, ramEnd: Word, ad: AdPolicy)
    ensures var r := BootTranslate(va, imageStart, readonlyEnd, ramEnd, ad);
      var uart := 0x1000_0000 <= va < 0x1000_2000;
      var image := imageStart <= va < AlignUpPage(readonlyEnd) && !uart;
      var ram := AlignUpPage(readonlyEnd) <= va < AlignUpPage(ramEnd) && !uart;
      && (r.Physical? ==> r.pa == va && !UserPage(r.flags) && !(Writable(r.flags) && Executable(r.flags)))
      && (image ==> r.Physical? && Readable(r.flags) && Executable(r.flags) && !Writable(r.flags))
      && (ram ==> r.Physical? && Readable(r.flags) && Writable(r.flags) && !Executable(r.flags))
      && (uart && r.Physical? ==> Readable(r.flags) && Writable(r.flags) && !Executable(r.flags))
      && (uart ==> (r.Physical? <==> ad == Updates))
      && (!image && !ram && !uart ==> r == PageFault)
  {
  }

  /** Arguments of one `vmm_map_page` call. */
  datatype MapCall = MapCall(va: Word, pa: Word, flags: Word)

  /** A physical address and flags the architecture has an encoding for, with the A and D bits its hardware insists on. */
  predicate LegalCall(c: MapCall, ad: AdPolicy) {
    c.flags < 1024 && c.pa < 0x100_0000_0000_0000 && AdOk(c.flags, ad)
    && (Readable(c.flags) || Executable(c.flags)) && (Writable(c.flags) ==> Readable(c.flags))
  }

  ghost predicate LeavesLegal(m: seq<Word>, root: nat, ad: AdPolicy) {
    forall v: nat {:trigger Lookup(Sv39, m, root, 0, v)} | v < VpnLimit(Sv39) ::
      Lookup(Sv39, m, root, 0, v).Some? ==>
        LegalLeaf(Lookup(Sv39, m, root, 0, v).value) && AdOk(Lookup(Sv39, m, root, 0, v).value, ad)
  }

  /** One successful mapping: the page's addresses reach the frame at every offset, all other pages translate as before. */
  lemma MappingTranslates(m: seq<Word>, m': seq<Word>, nodes: map<nat, Node>, nodes': map<nat, Node>, root: nat, c: MapCall, va: Word, ad: AdPolicy)
    requires Forest(Sv39, m, nodes) && Forest(Sv39, m', nodes') && IsRoot(nodes, root) && IsRoot(nodes', root)
    requires LegalCall(c, ad) && c.pa % PAGE_SIZE == 0
    requires Updated(Sv39, m, m', nodes, root, Vpn(c.va), Some(MapEntry(c.pa, c.flags)))
    ensures HardwareTranslate(m', root, va, ad) ==
      if Canonical(va) && va / 0x1000 % 0x800_0000 == c.va / 0x1000 % 0x800_0000
      then Physical(c.pa + va % 0x1000, c.flags + (1 - c.flags % 2))
      else HardwareTranslate(m, root, va, ad)
    ensures LeavesLegal(m, root, ad) ==> LeavesLegal(m', root, ad)
  {
    hide Readable, Writable, Executable, AdOk, HardwareWalk, LegalLeaf, Lookup, PageNumber, Canonical, Forest, MapEntry;
    VpnIsBits(va);
    VpnIsBits(c.va);
    HardwareSeesLookup(m, nodes, root, va, ad);
    HardwareSeesLookup(m', nodes', root, va, ad);
    LegalMapEntry(c.pa, c.flags);
    AdOfMapEntry(c.pa, c.flags, ad);
    LowTen(c.pa / PAGE_SIZE, c.flags + (1 - c.flags % 2));
  }

  // Histories of mapping calls

  /** The abstract page map: a successful call records its leaf word, a failing one nothing. */
  ghost function Record(pages: map<nat, Word>, c: MapCall, ok: bool): map<nat, Word> {
    if ok then pages[Vpn(c.va) := MapEntry(c.pa, c.flags)] else pages
  }

  ghost function RecordAll(pages: map<nat, Word>, calls: seq<MapCall>, oks: seq<bool>): map<nat, Word>
    requires |calls| == |oks|
  {
    if calls == [] then pages
    else Record(RecordAll(pages, calls[..|calls| - 1], oks[..|oks| - 1]), calls[|calls| - 1], oks[|oks| - 1])
  }

  /** Tree `root` in memory `m` is the page map `pages`. */
  ghost predicate Means(m: seq<Word>, root: nat, pages: map<nat, Word>) {
    forall v: nat {:trigger Lookup(Sv39, m, root, 0, v)} | v < VpnLimit(Sv39) ::
      Lookup(Sv39, m, root, 0, v) == if v in pages then Some(pages[v]) else None
  }

  lemma UpdatedMeans(m: seq<Word>, m': seq<Word>, nodes: map<nat, Node>, root: nat, pages: map<nat, Word>, c: MapCall)
    requires IsRoot(nodes, root) && Means(m, root, pages)
    requires Updated(Sv39, m, m', nodes, root, Vpn(c.va), Some(MapEntry(c.pa, c.flags)))
    ensures Means(m', root, Record(pages, c, true))
  {
    hide MapEntry;
  }

  lemma SameMeans(m: seq<Word>, m': seq<Word>, nodes: map<nat, Node>, root: nat, pages: map<nat, Word>)
    requires IsRoot(nodes, root) && Means(m, root, pages) && SameMeaning(Sv39, m, m', nodes)
    ensures Means(m', root, pages)
  {
  }

  predicate Aligned(c: MapCall) {
    c.va % PAGE_SIZE == 0 && c.pa % PAGE_SIZE == 0
  }

  /**
   Any history of `vmm_map_page` calls on a zeroed root refines the same history on the abstract page map; a call fails exactly when it
   is misaligned or frames run out. If all calls were legal, the hardware and `vmm_virt_to_phys` read the tables alike.
   */
  method MapHistory(k: KernelTables, root: nat, calls: seq<MapCall>, ghost ad: AdPolicy) returns (oks: seq<bool>)
    requires k.Valid() && IsRoot(k.t.nodes, root) && Means(k.t.ram.View(), root, map[])
    modifies k.t.pmm`freeFrames, k.t.pmm`lastFreeIndex, k.t.pmm`free, k.t.pmm.bitmap, k.t.ram.cells, k.t`nodes
    ensures k.Valid() && IsRoot(k.t.nodes, root) && |oks| == |calls|
    ensures Means(k.t.ram.View(), root, RecordAll(map[], calls, oks))
    ensures forall i :: 0 <= i < |calls| ==> if oks[i] then Aligned(calls[i]) else !Aligned(calls[i]) || k.t.pmm.free == {}
    ensures (forall c :: c in calls ==> LegalCall(c, ad)) ==>
      forall va: Word :: Canonical(va) ==>
        SoftwareTranslate(k.t.ram.View(), root, va) ==
        match HardwareTranslate(k.t.ram.View(), root, va, ad) case PageFault => 0 case Physical(pa, _) => pa
  {
    hide Lookup, Updated, SameMeaning, Forest, Represents, PageNumber, MapEntry, Missing, LeavesLegal, LegalCall,
      SoftwareTranslate, HardwareTranslate, Canonical, Means, Record;
    NoLeaves(k.t.ram.View(), root, ad);
    oks := [];
    for i := 0 to |calls|
      invariant k.Valid() && IsRoot(k.t.nodes, root) && |oks| == i
      invariant Means(k.t.ram.View(), root, RecordAll(map[], calls[..i], oks))
      invariant forall j :: 0 <= j < i ==> if oks[j] then Aligned(calls[j]) else !Aligned(calls[j]) || k.t.pmm.free == {}
      invariant (forall c :: c in calls ==> LegalCall(c, ad)) ==> LeavesLegal(k.t.ram.View(), root, ad)
    {
      var c := calls[i];
      ghost var m, n, before := k.t.ram.View(), k.t.nodes, oks;
      var ok := k.MapPage(root, c.va, c.pa, c.flags);
      HistoryStep(m, k.t.ram.View(), n, k.t.nodes, root, RecordAll(map[], calls[..i], oks), c, ok, ad);
      oks := oks + [ok];
      assert calls[..i + 1][..i] == calls[..i] && oks[..i] == before;
    }
    assert calls[..|calls|] == calls;
    forall va: Word | (forall c :: c in calls ==> LegalCall(c, ad)) && Canonical(va)
      ensures SoftwareTranslate(k.t.ram.View(), root, va) ==
        match HardwareTranslate(k.t.ram.View(), root, va, ad) case PageFault => 0 case Physical(pa, _) => pa
    {
      LegalLeavesAgree(k.t.ram.View(), k.t.nodes, root, va, ad);
    }
  }

  lemma HistoryStep(m: seq<Word>, m': seq<Word>, nodes: map<nat, Node>, nodes': map<nat, Node>, root: nat, pages: map<nat, Word>,
                    c: MapCall, ok: bool, ad: AdPolicy)
    requires Forest(Sv39, m, nodes) && Forest(Sv39, m', nodes') && IsRoot(nodes, root) && IsRoot(nodes', root) && Means(m, root, pages)
    requires if ok then Aligned(c) && Updated(Sv39, m, m', nodes, root, Vpn(c.va), Some(MapEntry(c.pa, c.flags)))
             else SameMeaning(Sv39, m, m', nodes)
    ensures Means(m', root, Record(pages, c, ok))
    ensures LegalCall(c, ad) && LeavesLegal(m, root, ad) ==> LeavesLegal(m', root, ad)
  {
    hide Forest, Lookup, Updated, SameMeaning, PageNumber, MapEntry, LeavesLegal, LegalCall, HardwareTranslate, Means, IsRoot;
    if ok {
      UpdatedMeans(m, m', nodes, root, pages, c);
      if LegalCall(c, ad) {
        MappingTranslates(m, m', nodes, nodes', root, c, 0, ad);
      }
    } else {
      SameMeans(m, m', nodes, root, pages);
      SameLeaves(m, m', nodes, root, ad);
    }
  }

  /** What the calls say of `va`: the last one that succeeded on an address with the same bits 12..38 decides. */
  ghost function Answer(calls: seq<MapCall>, oks: seq<bool>, va: Word, ad: AdPolicy): Translation
    requires |calls| == |oks|
  {
    if calls == [] then PageFault
    else
      var c, last := calls[|calls| - 1], |calls| - 1;
      if !oks[last] || va / 0x1000 % 0x800_0000 != c.va / 0x1000 % 0x800_0000 then Answer(calls[..last], oks[..last], va, ad)
      else if LegalCall(c, ad) then Physical(c.pa + va % 0x1000, c.flags + (1 - c.flags % 2))
      else PageFault
  }

  /** The hardware reading of a page map. */
  ghost function Reading(pages: map<nat, Word>, va: Word, ad: AdPolicy): Translation {
    var v := va / 0x1000 % 0x800_0000;
    if v in pages && LegalLeaf(pages[v]) && AdOk(pages[v], ad) then Physical(PteToPa(pages[v]) + va % 0x1000, pages[v] % 1024) else PageFault
  }

  lemma CallReads(c: MapCall, ad: AdPolicy)
    requires c.flags < 1024 && c.pa % PAGE_SIZE == 0
    ensures var e := MapEntry(c.pa, c.flags);
      && (LegalCall(c, ad) <==> LegalLeaf(e) && AdOk(e, ad))
      && PteToPa(e) == c.pa && e % 1024 == c.flags + (1 - c.flags % 2)
  {
    hide Readable, Writable, Executable, AdOk, LegalLeaf, MapEntry;
    LegalMapEntry(c.pa, c.flags);
    AdOfMapEntry(c.pa, c.flags, ad);
    LowTen(c.pa / PAGE_SIZE, c.flags + (1 - c.flags % 2));
  }

  lemma {:induction false} RecordReads(calls: seq<MapCall>, oks: seq<bool>, va: Word, ad: AdPolicy)
    requires |calls| == |oks| && forall i :: 0 <= i < |calls| ==> calls[i].flags < 1024 && (oks[i] ==> Aligned(calls[i]))
    ensures Reading(RecordAll(map[], calls, oks), va, ad) == Answer(calls, oks, va, ad)
  {
    hide AdOk, LegalLeaf, LegalCall, MapEntry, PteToPa, PageNumber;
    if calls != [] {
      var last := |calls| - 1;
      RecordReads(calls[..last], oks[..last], va, ad);
      VpnIsBits(calls[last].va);
      if oks[last] {
        CallReads(calls[last], ad);
      }
    }
  }

  /** After any history of calls on a zeroed root, legal or not, the hardware translates every address as the calls say. */
  lemma HistoryTranslates(m: seq<Word>, nodes: map<nat, Node>, root: nat, calls: seq<MapCall>, oks: seq<bool>, va: Word, ad: AdPolicy)
    requires Forest(Sv39, m, nodes) && IsRoot(nodes, root) && |calls| == |oks| && Means(m, root, RecordAll(map[], calls, oks))
    requires forall i :: 0 <= i < |calls| ==> calls[i].flags < 1024 && (oks[i] ==> Aligned(calls[i]))
    ensures HardwareTranslate(m, root, va, ad) == if Canonical(va) then Answer(calls, oks, va, ad) else PageFault
  {
    hide Forest, Lookup, LegalLeaf, AdOk, HardwareWalk, PageNumber, Answer, RecordAll, PteToPa, Canonical;
    HardwareSeesLookup(m, nodes, root, va, ad);
    RecordReads(calls, oks, va, ad);
    VpnIsBits(va);
  }

  lemma NoLeaves(m: seq<Word>, root: nat, ad: AdPolicy)
    requires Means(m, root, map[])
    ensures LeavesLegal(m, root, ad)
  {
  }

  lemma SameLeaves(m: seq<Word>, m': seq<Word>, nodes: map<nat, Node>, root: nat, ad: AdPolicy)
    requires SameMeaning(Sv39, m, m', nodes) && IsRoot(nodes, root)
    ensures LeavesLegal(m, root, ad) ==> LeavesLegal(m', root, ad)
  {
  }

  lemma LegalLeavesAgree(m: seq<Word>, nodes: map<nat, Node>, root: nat, va: Word, ad: AdPolicy)
    requires Forest(Sv39, m, nodes) && IsRoot(nodes, root) && LeavesLegal(m, root, ad) && Canonical(va)
    ensures SoftwareTranslate(m, root, va) ==
      match HardwareTranslate(m, root, va, ad) case PageFault => 0 case Physical(pa, _) => pa
  {
    hide LegalLeaf, AdOk, Lookup;
    SoftwareAgreesExactly(m, nodes, root, va, ad);
  }
}
