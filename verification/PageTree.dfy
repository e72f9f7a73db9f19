/**
 Page tables as radix trees of 512-entry tables in physical memory, for both architectures:
 the four-level AArch64 tables and the three-level Sv39 tables. Every table frame carries a ghost
 position, and one local invariant over positions gives the forest shape and the meaning of walks.
 */
module PageTree {
  import opened Machine

  datatype Format = Arm64 | Sv39 {
    function LeafLevel(): nat {
      if Arm64? then 3 else 2
    }
  }

  /** 512 to the power `n`, for the exponents that occur. */
  function Pow512(n: nat): (r: nat)
    requires n <= 4
    ensures 0 < r
  {
    if n == 0 then 1 else if n == 1 then 512 else if n == 2 then 0x4_0000 else if n == 3 then 0x800_0000
    else 0x10_0000_0000
  }

  /** Index into the level-`level` table for page number `vpn`. */
  function Index(fmt: Format, vpn: nat, level: nat): (i: nat)
    requires level <= fmt.LeafLevel()
    ensures i < 512
  {
    vpn / Pow512(fmt.LeafLevel() - level) % 512
  }

  /** The part of `vpn` that has selected the level-`level` table. */
  function Prefix(fmt: Format, vpn: nat, level: nat): nat
    requires level <= fmt.LeafLevel()
  {
    vpn / Pow512(fmt.LeafLevel() + 1 - level)
  }

  /** Page numbers: bits 12..47 of an address (AArch64) or 12..38 (Sv39). */
  function VpnLimit(fmt: Format): nat {
    Pow512(fmt.LeafLevel() + 1)
  }

  /** Page number of a virtual address. */
  function PageNumber(fmt: Format, va: Word): (v: nat)
    ensures v < VpnLimit(fmt)
  {
    va / PAGE_SIZE % VpnLimit(fmt)
  }

  /** `(va >> shift) & 511`, where `shift` is 12 for the leaf level and 9 more for each level above. */
  function LevelIndex(fmt: Format, va: Word, level: nat): (i: nat)
    requires level <= fmt.LeafLevel()
    ensures i < 512
  {
    va / (PAGE_SIZE * Pow512(fmt.LeafLevel() - level)) % 512
  }

  lemma AddMultiple(x: nat, k: nat)
    ensures (k * 512 + x) % 512 == x % 512
  {
  }

  /** Bits above the page number do not reach the index. */
  lemma HighBits(fmt: Format, k: nat, w: nat, level: nat)
    requires level <= fmt.LeafLevel()
    ensures (k * VpnLimit(fmt) + w) / Pow512(fmt.LeafLevel() - level)
            == k * Pow512(level) * 512 + w / Pow512(fmt.LeafLevel() - level)
  {
    if fmt == Arm64 {
      assert VpnLimit(fmt) == 0x10_0000_0000;
    } else {
      assert VpnLimit(fmt) == 0x800_0000;
    }
  }

  lemma DivTwice(va: Word, n: nat)
    requires n <= 4
    ensures va / (PAGE_SIZE * Pow512(n)) == va / PAGE_SIZE / Pow512(n)
  {
  }

  /** The shift and mask of an address is the index of its page number. */
  lemma LevelIndexIsIndex(fmt: Format, va: Word, level: nat)
    requires level <= fmt.LeafLevel()
    ensures LevelIndex(fmt, va, level) == Index(fmt, PageNumber(fmt, va), level)
  {
    var v := va / PAGE_SIZE;
    var k, w := v / VpnLimit(fmt), v % VpnLimit(fmt);
    var unit := Pow512(fmt.LeafLevel() - level);
    DivTwice(va, fmt.LeafLevel() - level);
    HighBits(fmt, k, w, level);
    AddMultiple(w / unit, k * Pow512(level));
  }

  lemma LastIndex(fmt: Format, va: Word)
    ensures Index(fmt, PageNumber(fmt, va), fmt.LeafLevel()) == PageNumber(fmt, va) % 512
  {
  }

  /** Bit 0 of an entry, `PTE_VALID` and `PTE_V`. */
  predicate IsValid(e: Word) {
    e % 2 == 1
  }

  /** The table entry for the table at page `p`: `PTE_ADDR | PTE_TABLE | PTE_VALID`, or ppn and V. */
  function TableEntry(fmt: Format, p: nat): Word
    requires p * PAGE_SIZE < 0x1_0000_0000_0000
  {
    match fmt
    case Arm64 => p * PAGE_SIZE + 3
    case Sv39 => p * 1024 + 1
  }

  /** Page number of the address field: `(e & PTE_ADDR_MASK) >> 12`, or `e >> 10` cut to 64-bit addresses. */
  function EntryPage(fmt: Format, e: Word): nat {
    match fmt
    case Arm64 => e / PAGE_SIZE % 0x10_0000_0000
    case Sv39 => e / 1024 % 0x10_0000_0000_0000
  }

  lemma TableEntryRoundTrip(fmt: Format, p: nat)
    requires p * PAGE_SIZE < 0x1_0000_0000_0000
    ensures EntryPage(fmt, TableEntry(fmt, p)) == p && IsValid(TableEntry(fmt, p))
  {
  }

  /** The leaf word a walk for `vpn` finds from the level-`level` table `p`, when every word on the way is valid. */
  function Lookup(fmt: Format, m: seq<Word>, p: nat, level: nat, vpn: nat): (r: Option<Word>)
    requires level <= fmt.LeafLevel()
    decreases fmt.LeafLevel() - level
  {
    var e := Entry(m, p, Index(fmt, vpn, level));
    if !IsValid(e) then None
    else if level == fmt.LeafLevel() then Some(e)
    else Lookup(fmt, m, EntryPage(fmt, e), level + 1, vpn)
  }

  /** How many tables a walk for `vpn` finds missing from the level-`level` table `p` down. */
  function Missing(fmt: Format, m: seq<Word>, p: nat, level: nat, vpn: nat): nat
    requires level <= fmt.LeafLevel()
    decreases fmt.LeafLevel() - level
  {
    var e := Entry(m, p, Index(fmt, vpn, level));
    if level == fmt.LeafLevel() then 0
    else if IsValid(e) then Missing(fmt, m, EntryPage(fmt, e), level + 1, vpn)
    else fmt.LeafLevel() - level
  }

  /** Where a table sits: under which root, at which level, for which address prefix, linked from which table. */
  datatype Node = Node(root: nat, level: nat, prefix: nat, parent: nat)

  /** What is known of one table: `p` sits at `nodes[p]`, its parent entry points at it, its entries point to its children. */
  ghost predicate Placed(fmt: Format, nodes: map<nat, Node>, p: nat)
    requires p in nodes
  {
    var n := nodes[p];
    && n.level <= fmt.LeafLevel()
    && n.prefix < Pow512(n.level)
    && (n.level == 0 <==> n.root == p)
    && (n.level > 0 ==>
          && n.parent in nodes
          && nodes[n.parent].root == n.root
          && nodes[n.parent].level == n.level - 1
          && nodes[n.parent].prefix == n.prefix / 512)
  }

  ghost predicate LinkedFromParent(fmt: Format, m: seq<Word>, nodes: map<nat, Node>, p: nat)
    requires p in nodes && p * PAGE_SIZE < 0x1_0000_0000_0000
  {
    nodes[p].level > 0 ==> Entry(m, nodes[p].parent, nodes[p].prefix % 512) == TableEntry(fmt, p)
  }

  /** Entry `i` of table `p` is empty or links a table placed one level down at the next prefix. */
  ghost predicate LinksChild(fmt: Format, m: seq<Word>, nodes: map<nat, Node>, p: nat, i: nat)
    requires p in nodes
  {
    var e := Entry(m, p, i);
    IsValid(e) ==>
      var c := EntryPage(fmt, e);
      && c in nodes
      && c * PAGE_SIZE < 0x1_0000_0000_0000
      && e == TableEntry(fmt, c)
      && nodes[c] == Node(nodes[p].root, nodes[p].level + 1, nodes[p].prefix * 512 + i, p)
  }

  /** All tables in `nodes` form a forest in memory `m`. */
  ghost predicate Forest(fmt: Format, m: seq<Word>, nodes: map<nat, Node>) {
    && (forall p :: p in nodes ==> (p + 1) * PAGE_WORDS <= |m| && p * PAGE_SIZE < 0x1_0000_0000_0000)
    && (forall p :: p in nodes ==> Placed(fmt, nodes, p))
    && (forall p :: p in nodes ==> LinkedFromParent(fmt, m, nodes, p))
    && forall p, i :: p in nodes && nodes[p].level < fmt.LeafLevel() && 0 <= i < 512 ==>
         LinksChild(fmt, m, nodes, p, i)
  }

  /** `r` is the root table of one of the trees. */
  ghost predicate IsRoot(nodes: map<nat, Node>, r: nat) {
    r in nodes && nodes[r].level == 0
  }

  /** Two tables at the same place are the same table. */
  lemma {:induction false} PlaceIsUnique(fmt: Format, m: seq<Word>, nodes: map<nat, Node>, p: nat, q: nat)
    requires Forest(fmt, m, nodes) && p in nodes && q in nodes
    requires nodes[p].root == nodes[q].root && nodes[p].level == nodes[q].level && nodes[p].prefix == nodes[q].prefix
    ensures p == q
    decreases nodes[p].level
  {
    assert Placed(fmt, nodes, p) && Placed(fmt, nodes, q);
    if nodes[p].level > 0 {
      PlaceIsUnique(fmt, m, nodes, nodes[p].parent, nodes[q].parent);
      assert LinkedFromParent(fmt, m, nodes, p) && LinkedFromParent(fmt, m, nodes, q);
      TableEntryRoundTrip(fmt, p);
      TableEntryRoundTrip(fmt, q);
    }
  }

  /** Forest shape: a table is linked from at most one slot of all interior tables of all trees. */
  lemma OneParentSlot(fmt: Format, m: seq<Word>, nodes: map<nat, Node>, p: nat, i: nat, q: nat, j: nat)
    requires Forest(fmt, m, nodes) && p in nodes && q in nodes && i < 512 && j < 512
    requires nodes[p].level < fmt.LeafLevel() && nodes[q].level < fmt.LeafLevel()
    requires IsValid(Entry(m, p, i)) && IsValid(Entry(m, q, j))
    requires EntryPage(fmt, Entry(m, p, i)) == EntryPage(fmt, Entry(m, q, j))
    ensures p == q && i == j
  {
    assert LinksChild(fmt, m, nodes, p, i) && LinksChild(fmt, m, nodes, q, j);
  }

  lemma PrefixStep(fmt: Format, vpn: nat, level: nat)
    requires level < fmt.LeafLevel()
    ensures Prefix(fmt, vpn, level + 1) == Prefix(fmt, vpn, level) * 512 + Index(fmt, vpn, level)
    ensures Prefix(fmt, vpn, level + 1) / 512 == Prefix(fmt, vpn, level)
    ensures Prefix(fmt, vpn, level + 1) % 512 == Index(fmt, vpn, level)
  {
  }

  /** A table placed on the path of `vpn` is where the walk from the root arrives. */
  lemma {:induction false} WalkArrives(fmt: Format, m: seq<Word>, nodes: map<nat, Node>, p: nat, vpn: nat)
    requires Forest(fmt, m, nodes) && p in nodes && vpn < VpnLimit(fmt)
    requires nodes[p].level <= fmt.LeafLevel() && nodes[p].prefix == Prefix(fmt, vpn, nodes[p].level)
    ensures Lookup(fmt, m, nodes[p].root, 0, vpn) == Lookup(fmt, m, p, nodes[p].level, vpn)
    ensures IsRoot(nodes, nodes[p].root)
    decreases nodes[p].level
  {
    assert Placed(fmt, nodes, p);
    if nodes[p].level > 0 {
      var q := nodes[p].parent;
      PrefixStep(fmt, vpn, nodes[q].level);
      WalkArrives(fmt, m, nodes, q, vpn);
      assert LinkedFromParent(fmt, m, nodes, p);
      TableEntryRoundTrip(fmt, p);
    }
  }

  /** Memory `b` differs from `a` at most in pages outside `nodes`. */
  ghost predicate SameTables(a: seq<Word>, b: seq<Word>, nodes: map<nat, Node>) {
    && |a| == |b|
    && forall p, i {:trigger Entry(b, p, i)} :: p in nodes && 0 <= i < 512 ==> Entry(a, p, i) == Entry(b, p, i)
  }

  lemma ForestIsLocal(fmt: Format, a: seq<Word>, b: seq<Word>, nodes: map<nat, Node>)
    requires Forest(fmt, a, nodes) && SameTables(a, b, nodes)
    ensures Forest(fmt, b, nodes)
  {
    forall p | p in nodes
      ensures LinkedFromParent(fmt, b, nodes, p)
    {
      assert Placed(fmt, nodes, p) && LinkedFromParent(fmt, a, nodes, p);
    }
    forall p, i | p in nodes && nodes[p].level < fmt.LeafLevel() && 0 <= i < 512
      ensures LinksChild(fmt, b, nodes, p, i)
    {
      assert LinksChild(fmt, a, nodes, p, i);
      assert Entry(b, p, i) == Entry(a, p, i);
    }
  }

  lemma {:induction false} LookupIsLocal(fmt: Format, a: seq<Word>, b: seq<Word>, nodes: map<nat, Node>, p: nat, vpn: nat)
    requires Forest(fmt, a, nodes) && SameTables(a, b, nodes) && p in nodes
    ensures nodes[p].level <= fmt.LeafLevel()
    ensures Lookup(fmt, a, p, nodes[p].level, vpn) == Lookup(fmt, b, p, nodes[p].level, vpn)
    ensures Missing(fmt, a, p, nodes[p].level, vpn) == Missing(fmt, b, p, nodes[p].level, vpn)
    decreases fmt.LeafLevel() - nodes[p].level
  {
    assert Placed(fmt, nodes, p);
    var i := Index(fmt, vpn, nodes[p].level);
    assert Entry(b, p, i) == Entry(a, p, i);
    if nodes[p].level < fmt.LeafLevel() && IsValid(Entry(a, p, i)) {
      assert LinksChild(fmt, a, nodes, p, i);
      LookupIsLocal(fmt, a, b, nodes, EntryPage(fmt, Entry(a, p, i)), vpn);
    }
  }

  /** Memory after clearing page `c` and linking it as the table of entry `i` of table `p`. */
  ghost function Linked(fmt: Format, m: seq<Word>, p: nat, i: nat, c: nat): (r: seq<Word>)
    requires (c + 1) * PAGE_WORDS <= |m| && (p + 1) * PAGE_WORDS <= |m| && i < 512
    requires c * PAGE_SIZE < 0x1_0000_0000_0000
  {
    Zeroed(m, c)[p * PAGE_WORDS + i := TableEntry(fmt, c)]
  }

  ghost function WithChild(nodes: map<nat, Node>, p: nat, i: nat, c: nat): map<nat, Node>
    requires p in nodes
  {
    nodes[c := Node(nodes[p].root, nodes[p].level + 1, nodes[p].prefix * 512 + i, p)]
  }

  ghost predicate CanLink(fmt: Format, m: seq<Word>, nodes: map<nat, Node>, p: nat, i: nat, c: nat) {
    && Forest(fmt, m, nodes)
    && p in nodes && nodes[p].level < fmt.LeafLevel() && i < 512
    && !IsValid(Entry(m, p, i))
    && c !in nodes && (c + 1) * PAGE_WORDS <= |m| && c * PAGE_SIZE < 0x1_0000_0000_0000
  }

  lemma LinkedEntries(fmt: Format, m: seq<Word>, nodes: map<nat, Node>, p: nat, i: nat, c: nat)
    requires CanLink(fmt, m, nodes, p, i, c)
    ensures var r := Linked(fmt, m, p, i, c);
      && |r| == |m|
      && (forall q, j :: q in nodes && 0 <= j < 512 ==>
            Entry(r, q, j) == if q == p && j == i then TableEntry(fmt, c) else Entry(m, q, j))
      && forall j :: 0 <= j < 512 ==> Entry(r, c, j) == 0
  {
  }

  lemma LinkedForest(fmt: Format, m: seq<Word>, nodes: map<nat, Node>, p: nat, i: nat, c: nat)
    requires CanLink(fmt, m, nodes, p, i, c)
    ensures Forest(fmt, Linked(fmt, m, p, i, c), WithChild(nodes, p, i, c))
  {
    hide Entry, Linked, EntryPage, TableEntry;
    var r, all := Linked(fmt, m, p, i, c), WithChild(nodes, p, i, c);
    LinkedEntries(fmt, m, nodes, p, i, c);
    TableEntryRoundTrip(fmt, c);
    assert Placed(fmt, nodes, p);
    forall q | q in all
      ensures Placed(fmt, all, q) && LinkedFromParent(fmt, r, all, q)
    {
      if q != c {
        assert Placed(fmt, nodes, q) && LinkedFromParent(fmt, m, nodes, q);
        TableEntryRoundTrip(fmt, q);
      }
    }
    forall q, j | q in all && all[q].level < fmt.LeafLevel() && 0 <= j < 512
      ensures LinksChild(fmt, r, all, q, j)
    {
      LinkedChild(fmt, m, nodes, p, i, c, q, j);
    }
  }

  lemma LinkedChild(fmt: Format, m: seq<Word>, nodes: map<nat, Node>, p: nat, i: nat, c: nat, q: nat, j: nat)
    requires CanLink(fmt, m, nodes, p, i, c) && j < 512
    requires q == c || (q in nodes && nodes[q].level < fmt.LeafLevel())
    ensures LinksChild(fmt, Linked(fmt, m, p, i, c), WithChild(nodes, p, i, c), q, j)
  {
    LinkedEntries(fmt, m, nodes, p, i, c);
    TableEntryRoundTrip(fmt, c);
    if q != c {
      assert LinksChild(fmt, m, nodes, q, j);
    }
  }

  /** A new empty table changes no translation. */
  lemma {:induction false} LinkedLookup(fmt: Format, m: seq<Word>, nodes: map<nat, Node>, p: nat, i: nat, c: nat, q: nat, vpn: nat)
    requires CanLink(fmt, m, nodes, p, i, c) && q in nodes && nodes[q].level <= fmt.LeafLevel()
    ensures Lookup(fmt, Linked(fmt, m, p, i, c), q, nodes[q].level, vpn) == Lookup(fmt, m, q, nodes[q].level, vpn)
    decreases fmt.LeafLevel() - nodes[q].level
  {
    LinkedEntries(fmt, m, nodes, p, i, c);
    TableEntryRoundTrip(fmt, c);
    var j := Index(fmt, vpn, nodes[q].level);
    if nodes[q].level < fmt.LeafLevel() && IsValid(Entry(m, q, j)) {
      assert LinksChild(fmt, m, nodes, q, j);
      LinkedLookup(fmt, m, nodes, p, i, c, EntryPage(fmt, Entry(m, q, j)), vpn);
    }
  }

  /** Writing leaf word `i` of leaf table `t` changes the translation of one page of one tree. */
  ghost predicate CanStore(fmt: Format, m: seq<Word>, nodes: map<nat, Node>, t: nat, vpn: nat) {
    && Forest(fmt, m, nodes) && vpn < VpnLimit(fmt)
    && t in nodes && nodes[t].level == fmt.LeafLevel() && nodes[t].prefix == Prefix(fmt, vpn, fmt.LeafLevel())
  }

  ghost function Stored(m: seq<Word>, t: nat, i: nat, e: Word): (r: seq<Word>)
    requires (t + 1) * PAGE_WORDS <= |m| && i < 512
  {
    m[t * PAGE_WORDS + i := e]
  }

  lemma StoredForest(fmt: Format, m: seq<Word>, nodes: map<nat, Node>, t: nat, vpn: nat, e: Word)
    requires CanStore(fmt, m, nodes, t, vpn)
    ensures Forest(fmt, Stored(m, t, vpn % 512, e), nodes)
  {
    var r := Stored(m, t, vpn % 512, e);
    forall q | q in nodes
      ensures LinkedFromParent(fmt, r, nodes, q)
    {
      assert Placed(fmt, nodes, q) && LinkedFromParent(fmt, m, nodes, q);
    }
    forall q, j | q in nodes && nodes[q].level < fmt.LeafLevel() && 0 <= j < 512
      ensures LinksChild(fmt, r, nodes, q, j)
    {
      assert LinksChild(fmt, m, nodes, q, j);
      assert Entry(r, q, j) == Entry(m, q, j);
    }
  }

  lemma {:induction false} StoredLookupElsewhere(fmt: Format, m: seq<Word>, nodes: map<nat, Node>, t: nat, vpn: nat, e: Word, q: nat, other: nat)
    requires CanStore(fmt, m, nodes, t, vpn) && other < VpnLimit(fmt)
    requires q in nodes && nodes[q].level <= fmt.LeafLevel() && nodes[q].prefix == Prefix(fmt, other, nodes[q].level)
    requires nodes[q].root != nodes[t].root || other != vpn
    ensures Lookup(fmt, Stored(m, t, vpn % 512, e), q, nodes[q].level, other) == Lookup(fmt, m, q, nodes[q].level, other)
    decreases fmt.LeafLevel() - nodes[q].level
  {
    var r := Stored(m, t, vpn % 512, e);
    var j := Index(fmt, other, nodes[q].level);
    if nodes[q].level < fmt.LeafLevel() {
      assert Entry(r, q, j) == Entry(m, q, j);
      if IsValid(Entry(m, q, j)) {
        assert LinksChild(fmt, m, nodes, q, j);
        PrefixStep(fmt, other, nodes[q].level);
        StoredLookupElsewhere(fmt, m, nodes, t, vpn, e, EntryPage(fmt, Entry(m, q, j)), other);
      }
    } else {
      assert q == t ==> j != vpn % 512;
    }
  }

  /** Update of the abstract page map: page `vpn` of tree `root` gets `e` (or nothing, when `e` is not valid). */
  lemma StoredLookup(fmt: Format, m: seq<Word>, nodes: map<nat, Node>, t: nat, vpn: nat, e: Word, root: nat, other: nat)
    requires CanStore(fmt, m, nodes, t, vpn) && other < VpnLimit(fmt) && IsRoot(nodes, root)
    ensures Lookup(fmt, Stored(m, t, vpn % 512, e), root, 0, other) ==
            if root == nodes[t].root && other == vpn then (if IsValid(e) then Some(e) else None)
            else Lookup(fmt, m, root, 0, other)
  {
    StoredForest(fmt, m, nodes, t, vpn, e);
    assert Placed(fmt, nodes, root);
    if root == nodes[t].root && other == vpn {
      WalkArrives(fmt, Stored(m, t, vpn % 512, e), nodes, t, vpn);
    } else {
      StoredLookupElsewhere(fmt, m, nodes, t, vpn, e, root, other);
    }
  }

  /** Prefix `x` with its last `d` indices dropped. */
  ghost function Climb(x: nat, d: nat): nat {
    if d == 0 then x else Climb(x / 512, d - 1)
  }

  lemma ClimbOneMore(x: nat, d: nat)
    ensures Climb(x, d + 1) == Climb(x, d) / 512
  {
    if d > 0 {
      ClimbOneMore(x / 512, d - 1);
    }
  }

  /** Table `g` is `p` or lies below it. */
  ghost predicate Under(nodes: map<nat, Node>, g: nat, p: nat) {
    && g in nodes && p in nodes
    && nodes[g].root == nodes[p].root
    && nodes[p].level <= nodes[g].level
    && Climb(nodes[g].prefix, nodes[g].level - nodes[p].level) == nodes[p].prefix
  }

  /** Table `g` lies below `p` in one of the first `i` slots of `p`. */
  ghost predicate UnderFirst(nodes: map<nat, Node>, g: nat, p: nat, i: nat) {
    && Under(nodes, g, p)
    && nodes[p].level < nodes[g].level
    && Climb(nodes[g].prefix, nodes[g].level - nodes[p].level - 1) % 512 < i
  }

  ghost function Subtree(nodes: map<nat, Node>, p: nat): set<nat> {
    set g | g in nodes && Under(nodes, g, p)
  }

  ghost function FirstSubtrees(nodes: map<nat, Node>, p: nat, i: nat): set<nat> {
    set g | g in nodes && UnderFirst(nodes, g, p, i)
  }

  lemma SubtreeSplit(fmt: Format, m: seq<Word>, nodes: map<nat, Node>, p: nat)
    requires Forest(fmt, m, nodes) && p in nodes
    ensures Subtree(nodes, p) == FirstSubtrees(nodes, p, 512) + {p}
    ensures p !in FirstSubtrees(nodes, p, 512)
    ensures nodes[p].level == fmt.LeafLevel() ==> FirstSubtrees(nodes, p, 512) == {}
    ensures FirstSubtrees(nodes, p, 0) == {}
  {
    forall g | Under(nodes, g, p) && g != p
      ensures UnderFirst(nodes, g, p, 512) && nodes[p].level < fmt.LeafLevel()
    {
      assert Placed(fmt, nodes, g) && Placed(fmt, nodes, p);
      if nodes[g].level == nodes[p].level {
        PlaceIsUnique(fmt, m, nodes, g, p);
      }
    }
  }

  /** Every table below `p` lies in the subtree that one of the slots of `p` links. */
  lemma {:induction false} BelowIsInChild(fmt: Format, m: seq<Word>, nodes: map<nat, Node>, g: nat, p: nat)
    requires Forest(fmt, m, nodes) && Under(nodes, g, p) && nodes[p].level < nodes[g].level
    ensures var e := Entry(m, p, Climb(nodes[g].prefix, nodes[g].level - nodes[p].level - 1) % 512);
      IsValid(e) && Under(nodes, g, EntryPage(fmt, e))
    decreases nodes[g].level
  {
    var q := nodes[g].parent;
    var d := nodes[g].level - nodes[p].level - 1;
    assert Placed(fmt, nodes, g) && LinkedFromParent(fmt, m, nodes, g);
    if d == 0 {
      assert Climb(nodes[g].prefix, 1) == Climb(nodes[g].prefix / 512, 0);
      PlaceIsUnique(fmt, m, nodes, q, p);
      TableEntryRoundTrip(fmt, g);
    } else {
      BelowIsInChild(fmt, m, nodes, q, p);
      var i := Climb(nodes[q].prefix, d - 1) % 512;
      assert Placed(fmt, nodes, q);
      assert LinksChild(fmt, m, nodes, p, i);
    }
  }

  /** The subtrees of slots `0..i` are those of slots `0..i-1` and, disjointly, that of the table slot `i` links. */
  lemma NextSubtree(fmt: Format, m: seq<Word>, nodes: map<nat, Node>, p: nat, i: nat)
    requires Forest(fmt, m, nodes) && p in nodes && nodes[p].level < fmt.LeafLevel() && i < 512
    ensures var e := Entry(m, p, i);
      if IsValid(e) then
        var c := EntryPage(fmt, e);
        && c in nodes && nodes[c].level == nodes[p].level + 1
        && FirstSubtrees(nodes, p, i + 1) == FirstSubtrees(nodes, p, i) + Subtree(nodes, c)
        && FirstSubtrees(nodes, p, i) !! Subtree(nodes, c)
        && p !in Subtree(nodes, c)
      else FirstSubtrees(nodes, p, i + 1) == FirstSubtrees(nodes, p, i)
  {
    var e := Entry(m, p, i);
    assert LinksChild(fmt, m, nodes, p, i);
    forall g | UnderFirst(nodes, g, p, i + 1) && !UnderFirst(nodes, g, p, i)
      ensures IsValid(e) && Under(nodes, g, EntryPage(fmt, e))
    {
      BelowIsInChild(fmt, m, nodes, g, p);
    }
    if IsValid(e) {
      var c := EntryPage(fmt, e);
      forall g | Under(nodes, g, c)
        ensures UnderFirst(nodes, g, p, i + 1) && !UnderFirst(nodes, g, p, i)
      {
        ClimbOneMore(nodes[g].prefix, nodes[g].level - nodes[c].level);
      }
    }
  }

  lemma SubtreePart(nodes: map<nat, Node>, p: nat, i: nat)
    requires i < 512
    ensures FirstSubtrees(nodes, p, i) <= FirstSubtrees(nodes, p, i + 1) <= Subtree(nodes, p)
  {
  }

  /** The tables that remain when tree `root` is removed. */
  ghost function WithoutTree(nodes: map<nat, Node>, root: nat): map<nat, Node> {
    map p | p in nodes && nodes[p].root != root :: nodes[p]
  }

  lemma RootSubtree(fmt: Format, m: seq<Word>, nodes: map<nat, Node>, root: nat)
    requires Forest(fmt, m, nodes) && IsRoot(nodes, root)
    ensures Subtree(nodes, root) == set p | p in nodes && nodes[p].root == root
    ensures WithoutTree(nodes, root).Keys == nodes.Keys - Subtree(nodes, root)
  {
    assert Placed(fmt, nodes, root);
    forall g | g in nodes && nodes[g].root == root
      ensures Under(nodes, g, root)
    {
      ClimbToRoot(fmt, m, nodes, g);
    }
  }

  lemma {:induction false} ClimbToRoot(fmt: Format, m: seq<Word>, nodes: map<nat, Node>, g: nat)
    requires Forest(fmt, m, nodes) && g in nodes
    ensures Climb(nodes[g].prefix, nodes[g].level) == 0
    decreases nodes[g].level
  {
    assert Placed(fmt, nodes, g);
    if nodes[g].level > 0 {
      ClimbToRoot(fmt, m, nodes, nodes[g].parent);
    }
  }

  /** Removing a whole tree leaves a forest. */
  lemma WithoutTreeForest(fmt: Format, m: seq<Word>, nodes: map<nat, Node>, root: nat)
    requires Forest(fmt, m, nodes)
    ensures Forest(fmt, m, WithoutTree(nodes, root))
  {
    var rest := WithoutTree(nodes, root);
    forall p | p in rest
      ensures Placed(fmt, rest, p) && LinkedFromParent(fmt, m, rest, p)
    {
      assert Placed(fmt, nodes, p) && LinkedFromParent(fmt, m, nodes, p);
    }
    forall p, i | p in rest && rest[p].level < fmt.LeafLevel() && 0 <= i < 512
      ensures LinksChild(fmt, m, rest, p, i)
    {
      assert LinksChild(fmt, m, nodes, p, i);
    }
  }

  /** A cleared frame outside the forest can become the root of an empty tree. */
  ghost function WithRoot(nodes: map<nat, Node>, r: nat): map<nat, Node> {
    nodes[r := Node(r, 0, 0, r)]
  }

  lemma {:induction false} RootExists(fmt: Format, m: seq<Word>, nodes: map<nat, Node>, p: nat)
    requires Forest(fmt, m, nodes) && p in nodes
    ensures IsRoot(nodes, nodes[p].root)
    decreases nodes[p].level
  {
    assert Placed(fmt, nodes, p);
    if nodes[p].level > 0 {
      RootExists(fmt, m, nodes, nodes[p].parent);
    }
  }

  lemma ZeroedElsewhere(m: seq<Word>, nodes: map<nat, Node>, r: nat)
    requires r !in nodes && (r + 1) * PAGE_WORDS <= |m|
    ensures SameTables(m, Zeroed(m, r), nodes)
    ensures forall i :: 0 <= i < 512 ==> Entry(Zeroed(m, r), r, i) == 0
  {
  }

  lemma NewRootForest(fmt: Format, m: seq<Word>, nodes: map<nat, Node>, r: nat)
    requires Forest(fmt, m, nodes) && r !in nodes
    requires (r + 1) * PAGE_WORDS <= |m| && r * PAGE_SIZE < 0x1_0000_0000_0000
    ensures Forest(fmt, Zeroed(m, r), WithRoot(nodes, r))
  {
    var z, all := Zeroed(m, r), WithRoot(nodes, r);
    ZeroedElsewhere(m, nodes, r);
    ForestIsLocal(fmt, m, z, nodes);
    forall p | p in all
      ensures Placed(fmt, all, p) && LinkedFromParent(fmt, z, all, p)
    {
      if p != r {
        RootExists(fmt, m, nodes, p);
        assert Placed(fmt, nodes, p) && LinkedFromParent(fmt, z, nodes, p);
      }
    }
    forall p, i | p in all && all[p].level < fmt.LeafLevel() && 0 <= i < 512
      ensures LinksChild(fmt, z, all, p, i)
    {
      if p != r {
        assert LinksChild(fmt, z, nodes, p, i);
      } else {
        assert Entry(z, r, i) == 0;
      }
    }
  }

  lemma NewRootEmpty(fmt: Format, m: seq<Word>, r: nat, vpn: nat)
    requires (r + 1) * PAGE_WORDS <= |m|
    ensures Lookup(fmt, Zeroed(m, r), r, 0, vpn) == None
  {
    assert Entry(Zeroed(m, r), r, Index(fmt, vpn, 0)) == 0;
  }

  lemma RootAdded(fmt: Format, m: seq<Word>, nodes: map<nat, Node>, r: nat)
    requires Forest(fmt, m, nodes) && r !in nodes
    ensures forall q :: IsRoot(WithRoot(nodes, r), q) <==> q == r || IsRoot(nodes, q)
  {
  }

  lemma RootRemoved(fmt: Format, m: seq<Word>, nodes: map<nat, Node>, r: nat)
    requires Forest(fmt, m, nodes)
    ensures forall q :: IsRoot(WithoutTree(nodes, r), q) <==> q != r && IsRoot(nodes, q)
  {
    forall q | IsRoot(nodes, q)
      ensures nodes[q].root == q
    {
      assert Placed(fmt, nodes, q);
    }
  }
}
