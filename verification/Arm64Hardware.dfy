/**
 What the tables of `Arm64Paging` mean to the processor: the stage 1 walk for a 4 KB granule and 48-bit addresses (sections D8.2 to
 D8.4 of the Arm ARM, DDI 0487), written with the bit fields of the manual.
 */
module Arm64Hardware {
  import opened Machine
  import opened PageTree
  import opened TableMemory
  import opened Arm64Paging
  import opened Arm64History

  datatype Rights = Rights(userRead: bool, userWrite: bool, kernelWrite: bool, userExec: bool, kernelExec: bool)

  datatype Translation = Fault | Physical(pa: nat, rights: Rights)

  /** What the table descriptors passed so far forbid: APTable[0], APTable[1], UXNTable and PXNTable. */
  datatype Limits = Limits(noUser: bool, noWrite: bool, noUserExec: bool, noKernelExec: bool)

  const NoLimits := Limits(false, false, false, false)

  /** Bits 61, 62, 60 and 59 of a table descriptor. */
  function Tightened(up: Limits, e: Word): Limits {
    Limits(
      up.noUser || e / 0x2000_0000_0000_0000 % 2 == 1,
      up.noWrite || e / 0x4000_0000_0000_0000 % 2 == 1,
      up.noUserExec || e / 0x1000_0000_0000_0000 % 2 == 1,
      up.noKernelExec || e / 0x800_0000_0000_0000 % 2 == 1)
  }

  /** AP[1] is bit 6, AP[2] bit 7, PXN bit 53, UXN bit 54; a page user code can write is never executed by the kernel. */
  function LeafRights(e: Word, up: Limits): Rights {
    var user := e / 0x40 % 2 == 1 && !up.noUser;
    var write := e / 0x80 % 2 == 0 && !up.noWrite;
    Rights(user, user && write, write,
      e / 0x40_0000_0000_0000 % 2 == 0 && !up.noUserExec,
      e / 0x20_0000_0000_0000 % 2 == 0 && !up.noKernelExec && !(user && write))
  }

  /** A page or block of `size` bytes at the address field that ends at bit 47. The access flag, bit 10, must be set. */
  function Leaf(e: Word, size: nat, va: Word, up: Limits): Translation
    requires 0 < size
  {
    if e / 0x400 % 2 == 0 then Fault
    else Physical(e % 0x1_0000_0000_0000 / size * size + va % size, LeafRights(e, up))
  }

  /** Bits 47..39, 38..30, 29..21 and 20..12 of an address. */
  function Slot(va: Word, level: nat): nat {
    if level == 0 then va / 0x80_0000_0000 % 512
    else if level == 1 then va / 0x4000_0000 % 512
    else if level == 2 then va / 0x20_0000 % 512
    else va / 0x1000 % 512
  }

  /** The descriptor types are bits 1..0: 3 is a table, or at level 3 a page; 1 is a block at levels 1 and 2; all else faults. */
  function HardwareWalk(m: seq<Word>, table: nat, level: nat, va: Word, up: Limits): Translation
    requires level <= 3
    decreases 3 - level
  {
    var e := Ld(m, table * 512 + Slot(va, level));
    if e % 4 == 3 && level < 3 then HardwareWalk(m, e / 0x1000 % 0x10_0000_0000, level + 1, va, Tightened(up, e))
    else if e % 4 == 3 then Leaf(e, 0x1000, va, up)
    else if e % 4 == 1 && level == 1 then Leaf(e, 0x4000_0000, va, up)
    else if e % 4 == 1 && level == 2 then Leaf(e, 0x20_0000, va, up)
    else Fault
  }

  /** An address with any of the bits 63..48 set is not translated through TTBR0. */
  function HardwareTranslate(m: seq<Word>, root: nat, va: Word): Translation {
    if va < 0x1_0000_0000_0000 then HardwareWalk(m, root, 0, va, NoLimits) else Fault
  }

  /** A table descriptor is the one word with type 3, the table's address, and every other field, the limits among them, zero. */
  lemma TableEntryExactly(e: Word, p: nat)
    requires p < 0x10_0000_0000
    ensures e == TableEntry(Arm64, p) <==>
      e % 4 == 3 && e / 4 % 0x400 == 0 && e / 0x1000 % 0x10_0000_0000 == p && e / 0x1_0000_0000_0000 == 0
  {
    LowTwelve(e);
    ThreeFields(e, 3, p, 0);
  }

  lemma LowTwelve(e: Word)
    ensures e % 0x1000 == e % 4 + e / 4 % 0x400 * 4
  {
    assert e == e / 4 * 4 + e % 4;
    assert e / 4 == e / 4 / 0x400 * 0x400 + e / 4 % 0x400;
    assert e == e / 4 / 0x400 * 0x1000 + (e / 4 % 0x400 * 4 + e % 4);
  }

  lemma SlotIsIndex(va: Word, level: nat)
    requires level <= 3
    ensures Slot(va, level) == Index(Arm64, Vpn(va), level) < 512
  {
    LevelIndexIsIndex(Arm64, va, level);
  }

  lemma VpnIsBits(va: Word)
    ensures Vpn(va) == va / 0x1000 % 0x10_0000_0000
  {
  }

  lemma NothingForbidden(e: Word, up: Limits)
    requires e / 0x1_0000_0000_0000 == 0
    ensures Tightened(up, e) == up
  {
  }

  lemma TableStep(m: seq<Word>, p: nat, level: nat, va: Word, c: nat, up: Limits)
    requires level < 3 && c < 0x10_0000_0000 && Ld(m, p * 512 + Slot(va, level)) == TableEntry(Arm64, c)
    ensures HardwareWalk(m, p, level, va, up) == HardwareWalk(m, c, level + 1, va, up)
  {
    hide Slot, Ld, Tightened, Leaf, TableEntry;
    var e := Ld(m, p * 512 + Slot(va, level));
    TableEntryExactly(e, c);
    NothingForbidden(e, up);
    assert e % 4 == 3 && e / 0x1000 % 0x10_0000_0000 == c;
  }

  lemma InvalidStep(m: seq<Word>, p: nat, level: nat, va: Word, up: Limits)
    requires level <= 3 && Ld(m, p * 512 + Slot(va, level)) % 2 == 0
    ensures HardwareWalk(m, p, level, va, up) == Fault
  {
    hide Slot, Ld, Tightened, Leaf;
  }

  lemma LeafStep(m: seq<Word>, p: nat, va: Word, up: Limits)
    ensures var e := Ld(m, p * 512 + Slot(va, 3));
      HardwareWalk(m, p, 3, va, up) == if e % 4 == 3 then Leaf(e, 0x1000, va, up) else Fault
  {
    hide Slot, Ld, Tightened, Leaf;
  }

  /** On every forest the walk of the hardware ends at the word `Lookup` finds, with nothing forbidden on the way. */
  lemma {:induction false} HardwareSeesLookup(m: seq<Word>, nodes: map<nat, Node>, p: nat, va: Word, up: Limits)
    requires Forest(Arm64, m, nodes) && p in nodes && nodes[p].level <= 3
    ensures HardwareWalk(m, p, nodes[p].level, va, up) ==
      match Lookup(Arm64, m, p, nodes[p].level, Vpn(va))
      case None => Fault
      case Some(e) => if e % 4 == 3 then Leaf(e, 0x1000, va, up) else Fault
    decreases 3 - nodes[p].level
  {
    hide HardwareWalk, Slot, Index, Vpn, Leaf, Tightened, Ld, Placed, LinkedFromParent;
    var level := nodes[p].level;
    SlotIsIndex(va, level);
    var i := Slot(va, level);
    var e := Entry(m, p, i);
    if level == 3 {
      LeafStep(m, p, va, up);
      OddWord(e);
    } else if IsValid(e) {
      assert LinksChild(Arm64, m, nodes, p, i);
      TableStep(m, p, level, va, EntryPage(Arm64, e), up);
      HardwareSeesLookup(m, nodes, EntryPage(Arm64, e), va, up);
    } else {
      InvalidStep(m, p, level, va, up);
    }
  }

  lemma OddWord(e: Word)
    ensures e % 4 == 3 ==> IsValid(e)
  {
  }

  /** Translation of `va` when its page was last mapped with these arguments: bits 47..12 of the frame, the offset, and the rights asked for. */
  function UserPage(phys: Word, prot: nat, va: Word): Translation {
    var write := prot / 2 % 2 == 1;
    Physical(phys / 0x1000 % 0x10_0000_0000 * 0x1000 + va % 0x1000, Rights(true, write, write, prot / 4 % 2 == 1, false))
  }

  lemma LowTwo(h: nat, low: nat)
    ensures (h * 0x1000 + low) % 4 == low % 4
  {
    assert h * 0x1000 + low == h * 0x400 * 4 + low;
  }

  lemma LowBit(h: nat, low: nat, d: nat)
    requires d == 0x40 || d == 0x80 || d == 0x400
    ensures (h * 0x1000 + low) / d % 2 == low / d % 2
  {
    var k := if d == 0x40 then 32 else if d == 0x80 then 16 else 2;
    assert (h * 0x1000 + low) / d == h * k * 2 + low / d;
    EvenMore(low / d, h * k);
  }

  lemma EvenMore(x: nat, k: nat)
    ensures (k * 2 + x) % 2 == x % 2
  {
  }

  lemma LowBits(e: Word, ap: nat)
    requires LowFields(e % 0x1000, ap) && (ap == 1 || ap == 3)
    ensures e % 4 == 3 && e / 0x400 % 2 == 1
    ensures e / 0x40 % 2 == 1 && (e / 0x80 % 2 == 0 <==> ap == 1)
  {
    LowTwo(e / 0x1000, e % 0x1000);
    LowBit(e / 0x1000, e % 0x1000, 0x40);
    LowBit(e / 0x1000, e % 0x1000, 0x80);
    LowBit(e / 0x1000, e % 0x1000, 0x400);
    TwoBits(e % 0x1000, ap);
  }

  lemma TwoBits(low: nat, ap: nat)
    requires LowFields(low, ap) && ap < 4
    ensures low / 0x40 % 2 == ap % 2 && low / 0x80 % 2 == ap / 2
  {
    assert low / 64 % 4 == ap;
    hide LowFields;
    TwoOfFour(low / 64, ap);
    assert low / 0x80 == low / 64 / 2;
  }

  lemma TwoOfFour(x: nat, ap: nat)
    requires x % 4 == ap
    ensures x % 2 == ap % 2 && x / 2 % 2 == ap / 2
  {
    var q := x / 4;
    assert x == 2 * q * 2 + ap;
    assert x / 2 == q * 2 + ap / 2;
    EvenMore(ap, 2 * q);
    EvenMore(ap / 2, q);
  }

  lemma HighBits(e: Word, uxn: nat)
    requires HighFields(e / 0x1_0000_0000_0000, uxn)
    ensures e / 0x20_0000_0000_0000 % 2 == 1 && e / 0x40_0000_0000_0000 % 2 == uxn
  {
    assert e / 0x1_0000_0000_0000 / 32 == e / 0x20_0000_0000_0000;
    assert e / 0x1_0000_0000_0000 / 64 == e / 0x40_0000_0000_0000;
  }

  lemma AddressField(e: Word)
    ensures e % 0x1_0000_0000_0000 / 0x1000 == e / 0x1000 % 0x10_0000_0000
  {
  }

  lemma LeafOfEntry(phys: Word, prot: nat, va: Word)
    ensures var e := LeafEntry(phys, prot); e % 4 == 3 && Leaf(e, 0x1000, va, NoLimits) == UserPage(phys, prot, va)
  {
    var e := LeafEntry(phys, prot);
    LeafEntryExactly(e, phys, prot);
    hide LeafEntry, LowFields, HighFields;
    AddressField(e);
    LowBits(e, if prot / 2 % 2 == 1 then 1 else 3);
    HighBits(e, if prot / 4 % 2 == 1 then 0 else 1);
  }

  /** The hardware reads a page map: an address below 2^48 through the word of its page number, bits 12 and up. */
  lemma HardwareSeesMap(m: seq<Word>, nodes: map<nat, Node>, root: nat, va: Word)
    requires Forest(Arm64, m, nodes) && IsRoot(nodes, root)
    ensures HardwareTranslate(m, root, va) ==
      if va < 0x1_0000_0000_0000 then
        match Lookup(Arm64, m, root, 0, va / 0x1000)
        case None => Fault
        case Some(e) => if e % 4 == 3 then Leaf(e, 0x1000, va, NoLimits) else Fault
      else Fault
  {
    hide HardwareWalk, Lookup, Leaf, Forest, Vpn;
    VpnIsBits(va);
    if va < 0x1_0000_0000_0000 {
      assert va / 0x1000 < 0x10_0000_0000;
      HardwareSeesLookup(m, nodes, root, va, NoLimits);
    }
  }

  lemma PagesBelow(va: Word)
    requires va < 0x1_0000_0000_0000
    ensures va / 0x1000 < VpnLimit(Arm64)
  {
  }

  /**
   One `arch_map_page` call on tree `root`, as the hardware sees it: on 0 the addresses with the same bits 12..47 reach the frame with
   the rights asked for, and every other address of every tree translates as before; on -1 all do.
   */
  lemma MapTranslates(r: int, root: nat, at: Word, phys: Word, prot: nat, m: seq<Word>, nodes: map<nat, Node>, free: set<nat>,
                      m': seq<Word>, nodes': map<nat, Node>, free': set<nat>, tree: nat, va: Word)
    requires Forest(Arm64, m, nodes) && Forest(Arm64, m', nodes') && IsRoot(nodes, tree)
    requires Maps(r, root, Vpn(at), LeafEntry(phys, prot), m, nodes, free, m', nodes', free')
    ensures HardwareTranslate(m', tree, va) ==
      if r == 0 && tree == root && va / 0x1000 == at / 0x1000 % 0x10_0000_0000 then UserPage(phys, prot, va)
      else HardwareTranslate(m, tree, va)
  {
    hide Forest, Lookup, Leaf, LeafEntry, UserPage, HardwareTranslate, Vpn, LinksMissing, SameOutside, Missing;
    VpnIsBits(at);
    HardwareSeesMap(m, nodes, tree, va);
    HardwareSeesMap(m', nodes', tree, va);
    LeafOfEntry(phys, prot, va);
    if va < 0x1_0000_0000_0000 {
      PagesBelow(va);
    }
  }

  /** One `arch_unmap_page` call: on 0 the addresses with the same bits 12..47 fault, and all others translate as before. */
  lemma UnmapTranslates(r: int, root: nat, at: Word, m: seq<Word>, nodes: map<nat, Node>, free: set<nat>,
                        m': seq<Word>, nodes': map<nat, Node>, free': set<nat>, tree: nat, va: Word)
    requires Forest(Arm64, m, nodes) && Forest(Arm64, m', nodes') && IsRoot(nodes, tree)
    requires Unmaps(r, root, Vpn(at), m, nodes, free, m', nodes', free')
    ensures HardwareTranslate(m', tree, va) ==
      if r == 0 && tree == root && va / 0x1000 == at / 0x1000 % 0x10_0000_0000 then Fault
      else HardwareTranslate(m, tree, va)
  {
    hide Forest, Lookup, Leaf, HardwareTranslate, Vpn, LinksMissing, SameOutside, Missing;
    VpnIsBits(at);
    HardwareSeesMap(m, nodes, tree, va);
    HardwareSeesMap(m', nodes', tree, va);
    if va < 0x1_0000_0000_0000 {
      PagesBelow(va);
    }
  }

  /** What the calls say of `va`: the last one that succeeded on an address with the same bits 12..47 decides. */
  ghost function Answer(ops: seq<PageOp>, rs: seq<int>, va: Word): Translation
    requires |ops| == |rs|
  {
    if ops == [] then Fault
    else
      var op, last := ops[|ops| - 1], |ops| - 1;
      if rs[last] != 0 || va / 0x1000 != op.va / 0x1000 % 0x10_0000_0000 then Answer(ops[..last], rs[..last], va)
      else match op
        case MapOp(_, phys, prot) => UserPage(phys, prot, va)
        case UnmapOp(_) => Fault
  }

  /** The hardware reading of a page map. */
  ghost function Reading(pages: map<nat, Word>, va: Word): Translation {
    if va / 0x1000 in pages && pages[va / 0x1000] % 4 == 3 then Leaf(pages[va / 0x1000], 0x1000, va, NoLimits) else Fault
  }

  lemma {:induction false} ReplayReads(ops: seq<PageOp>, rs: seq<int>, va: Word)
    requires |ops| == |rs|
    ensures Reading(Replay(map[], ops, rs), va) == Answer(ops, rs, va)
  {
    hide Leaf, LeafEntry, UserPage, Vpn;
    if ops != [] {
      var last := |ops| - 1;
      ReplayReads(ops[..last], rs[..last], va);
      VpnIsBits(ops[last].va);
      if ops[last].MapOp? {
        LeafOfEntry(ops[last].phys, ops[last].prot, va);
      }
    }
  }

  /** After any history of calls on a new tree, the processor translates every address as the calls say. */
  lemma HistoryTranslates(m: seq<Word>, nodes: map<nat, Node>, root: nat, ops: seq<PageOp>, rs: seq<int>, va: Word)
    requires Forest(Arm64, m, nodes) && IsRoot(nodes, root) && |ops| == |rs| && Means(m, root, Replay(map[], ops, rs))
    ensures HardwareTranslate(m, root, va) == Answer(ops, rs, va)
    ensures 0x1_0000_0000_0000 <= va ==> HardwareTranslate(m, root, va) == Fault
  {
    hide Forest, Lookup, Leaf, HardwareTranslate, Answer, Replay;
    HardwareSeesMap(m, nodes, root, va);
    ReplayReads(ops, rs, va);
    if va < 0x1_0000_0000_0000 {
      PagesBelow(va);
    } else {
      NoAnswerAbove(ops, rs, va);
    }
  }

  lemma {:induction false} NoAnswerAbove(ops: seq<PageOp>, rs: seq<int>, va: Word)
    requires |ops| == |rs| && 0x1_0000_0000_0000 <= va
    ensures Answer(ops, rs, va) == Fault
  {
    if ops != [] {
      NoAnswerAbove(ops[..|ops| - 1], rs[..|ops| - 1], va);
    }
  }

  /** The pages a history leaves mapped, which are those `arch_unmap_page` succeeds on, are those the hardware translates. */
  lemma {:induction false} MappedExactly(ops: seq<PageOp>, rs: seq<int>, va: Word)
    requires |ops| == |rs|
    ensures Vpn(va) in Replay(map[], ops, rs) <==> Answer(ops, rs, va % 0x1_0000_0000_0000).Physical?
  {
    hide LeafEntry, Vpn;
    if ops != [] {
      var last := |ops| - 1;
      MappedExactly(ops[..last], rs[..last], va);
      VpnIsBits(ops[last].va);
      VpnIsBits(va);
      AddressField(va);
    }
  }
}
