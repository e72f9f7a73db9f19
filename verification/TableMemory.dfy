/** Page tables in physical memory, whatever their format: linking tables, writing leaves, and what each step changes. */
module TableMemory {
  import opened Machine
  import opened PageTree
  import opened PhysFrame

  /** No tree of `nodes` translates differently in `b` than in `a`. */
  ghost predicate SameMeaning(fmt: Format, a: seq<Word>, b: seq<Word>, nodes: map<nat, Node>) {
    forall r, v: nat {:trigger Lookup(fmt, b, r, 0, v)} :: IsRoot(nodes, r) ==>
      Lookup(fmt, b, r, 0, v) == Lookup(fmt, a, r, 0, v)
  }

  ghost predicate Extends(a: map<nat, Node>, b: map<nat, Node>) {
    forall p :: p in a ==> p in b && b[p] == a[p]
  }

  /** From memory, tables and free frames `m`, `n`, `f` to `m'`, `n'`, `f'` only empty tables were added, from free frames. */
  ghost predicate Grown(fmt: Format, root: nat, m: seq<Word>, n: map<nat, Node>, f: set<nat>, m': seq<Word>, n': map<nat, Node>, f': set<nat>) {
    && Extends(n, n') && n'.Keys <= n.Keys + f && f' == f - n'.Keys
    && (forall r :: IsRoot(n', r) ==> IsRoot(n, r))
    && (forall p :: p in n' ==> p in n || n'[p].root == root)
    && SameMeaning(fmt, m, m', n)
    && SameOutside(m, m', n'.Keys)
  }

  lemma GrownTwice(fmt: Format, root: nat, m: seq<Word>, n: map<nat, Node>, f: set<nat>, m': seq<Word>, n': map<nat, Node>, f': set<nat>,
                   m'': seq<Word>, n'': map<nat, Node>, f'': set<nat>)
    requires Grown(fmt, root, m, n, f, m', n', f') && Grown(fmt, root, m', n', f', m'', n'', f'')
    ensures Grown(fmt, root, m, n, f, m'', n'', f'')
  {
    forall r, v: nat | IsRoot(n, r)
      ensures Lookup(fmt, m'', r, 0, v) == Lookup(fmt, m, r, 0, v)
    {
      assert IsRoot(n', r);
      assert Lookup(fmt, m', r, 0, v) == Lookup(fmt, m, r, 0, v);
    }
    forall p, i | p !in n''.Keys && 0 <= i < 512
      ensures Entry(m'', p, i) == Entry(m, p, i)
    {
      assert p !in n'.Keys;
      assert Entry(m', p, i) == Entry(m, p, i);
    }
  }

  lemma GrownNot(fmt: Format, root: nat, m: seq<Word>, n: map<nat, Node>, f: set<nat>)
    requires n.Keys !! f
    ensures Grown(fmt, root, m, n, f, m, n, f)
  {
  }

  /** What linking a new empty table `c` does, seen from the walk for `vpn` that links it. */
  lemma LinkedGrown(fmt: Format, m: seq<Word>, nodes: map<nat, Node>, f: set<nat>, p: nat, i: nat, c: nat, vpn: nat)
    requires CanLink(fmt, m, nodes, p, i, c) && i == Index(fmt, vpn, nodes[p].level)
    requires nodes.Keys !! f && c in f
    ensures Grown(fmt, nodes[p].root, m, nodes, f, Linked(fmt, m, p, i, c), WithChild(nodes, p, i, c), f - {c})
    ensures Missing(fmt, m, p, nodes[p].level, vpn)
            == 1 + Missing(fmt, Linked(fmt, m, p, i, c), c, nodes[p].level + 1, vpn)
  {
    hide EntryPage, TableEntry, LinksChild, Placed, LinkedFromParent, Lookup, Index;
    var r := Linked(fmt, m, p, i, c);
    LinkedEntries(fmt, m, nodes, p, i, c);
    TableEntryRoundTrip(fmt, c);
    forall q, v: nat | IsRoot(nodes, q)
      ensures Lookup(fmt, r, q, 0, v) == Lookup(fmt, m, q, 0, v)
    {
      LinkedLookup(fmt, m, nodes, p, i, c, q, v);
    }
    assert Entry(r, c, Index(fmt, vpn, nodes[p].level + 1)) == 0;
  }

  lemma MissingAtEmpty(fmt: Format, m: seq<Word>, p: nat, level: nat, vpn: nat)
    requires level < fmt.LeafLevel() && !IsValid(Entry(m, p, Index(fmt, vpn, level)))
    ensures 0 < Missing(fmt, m, p, level, vpn)
  {
  }

  lemma GrownFacts(fmt: Format, root: nat, m: seq<Word>, n: map<nat, Node>, f: set<nat>, m': seq<Word>, n': map<nat, Node>, f': set<nat>)
    requires Grown(fmt, root, m, n, f, m', n', f')
    ensures TablesAdded(root, m, n, f, m', n', f') && SameMeaning(fmt, m, m', n)
    ensures forall r :: IsRoot(n, r) <==> IsRoot(n', r)
  {
  }

  lemma RootPlace(fmt: Format, m: seq<Word>, nodes: map<nat, Node>, r: nat, vpn: nat)
    requires Forest(fmt, m, nodes) && IsRoot(nodes, r) && vpn < VpnLimit(fmt)
    ensures nodes[r].root == r && nodes[r].prefix == Prefix(fmt, vpn, 0)
  {
    assert Placed(fmt, nodes, r);
  }

  /** Following a valid entry. */
  lemma FollowEntry(fmt: Format, m: seq<Word>, nodes: map<nat, Node>, p: nat, i: nat, vpn: nat)
    requires Forest(fmt, m, nodes) && p in nodes && nodes[p].level < fmt.LeafLevel() && i == Index(fmt, vpn, nodes[p].level)
    requires IsValid(Entry(m, p, i))
    ensures var e := Entry(m, p, i);
      var c := EntryPage(fmt, e);
      && c in nodes
      && nodes[c] == Node(nodes[p].root, nodes[p].level + 1, nodes[p].prefix * 512 + i, p)
      && Missing(fmt, m, p, nodes[p].level, vpn) == Missing(fmt, m, c, nodes[c].level, vpn)
  {
    assert LinksChild(fmt, m, nodes, p, i);
  }

  /** The page maps of all trees: page `vpn` of tree `root` now holds `e`, and every other page what it held. */
  ghost predicate Updated(fmt: Format, m: seq<Word>, m': seq<Word>, nodes: map<nat, Node>, root: nat, vpn: nat, e: Option<Word>) {
    forall r, v: nat {:trigger Lookup(fmt, m', r, 0, v)} :: IsRoot(nodes, r) && v < VpnLimit(fmt) ==>
      Lookup(fmt, m', r, 0, v) == if r == root && v == vpn then e else Lookup(fmt, m, r, 0, v)
  }

  lemma StoredUpdates(fmt: Format, m: seq<Word>, nodes: map<nat, Node>, t: nat, vpn: nat, e: Word)
    requires CanStore(fmt, m, nodes, t, vpn)
    ensures Updated(fmt, m, Stored(m, t, vpn % 512, e), nodes, nodes[t].root, vpn, if IsValid(e) then Some(e) else None)
    ensures SameOutside(m, Stored(m, t, vpn % 512, e), nodes.Keys)
  {
    forall r, v: nat | IsRoot(nodes, r) && v < VpnLimit(fmt)
      ensures Lookup(fmt, Stored(m, t, vpn % 512, e), r, 0, v)
              == if r == nodes[t].root && v == vpn then (if IsValid(e) then Some(e) else None) else Lookup(fmt, m, r, 0, v)
    {
      StoredLookup(fmt, m, nodes, t, vpn, e, r, v);
    }
  }

  /** Tables were only added, from free frames, and no page outside the tables was written. */
  ghost predicate TablesAdded(root: nat, m: seq<Word>, n: map<nat, Node>, f: set<nat>, m': seq<Word>, n': map<nat, Node>, f': set<nat>) {
    && Extends(n, n') && n'.Keys <= n.Keys + f && f' == f - n'.Keys
    && (forall r :: IsRoot(n', r) ==> IsRoot(n, r))
    && (forall p :: p in n' ==> p in n || n'[p].root == root)
    && SameOutside(m, m', n'.Keys)
  }

  /** A walk that grew the tables of memory `m0` to `m`, then a leaf write that turned `m` into `m'`. */
  lemma GrownThenUpdated(fmt: Format, m0: seq<Word>, n0: map<nat, Node>, f0: set<nat>, m: seq<Word>, n: map<nat, Node>, f: set<nat>,
                         m': seq<Word>, root: nat, vpn: nat, e: Option<Word>)
    requires Grown(fmt, root, m0, n0, f0, m, n, f) && Updated(fmt, m, m', n, root, vpn, e) && SameOutside(m, m', n.Keys)
    ensures Updated(fmt, m0, m', n0, root, vpn, e)
    ensures TablesAdded(root, m0, n0, f0, m', n, f)
  {
    forall r, v: nat | IsRoot(n0, r) && v < VpnLimit(fmt)
      ensures Lookup(fmt, m', r, 0, v) == if r == root && v == vpn then e else Lookup(fmt, m0, r, 0, v)
    {
      assert IsRoot(n, r);
      assert Lookup(fmt, m, r, 0, v) == Lookup(fmt, m0, r, 0, v);
    }
    forall p, i | p !in n.Keys && 0 <= i < 512
      ensures Entry(m', p, i) == Entry(m0, p, i)
    {
      assert Entry(m, p, i) == Entry(m0, p, i);
    }
  }

  lemma {:induction false} MappedHasTables(fmt: Format, m: seq<Word>, p: nat, level: nat, vpn: nat)
    requires level <= fmt.LeafLevel()
    ensures Lookup(fmt, m, p, level, vpn).Some? ==> Missing(fmt, m, p, level, vpn) == 0
    decreases fmt.LeafLevel() - level
  {
    var e := Entry(m, p, Index(fmt, vpn, level));
    if level < fmt.LeafLevel() && IsValid(e) {
      MappedHasTables(fmt, m, EntryPage(fmt, e), level + 1, vpn);
    }
  }

  /** The word in the leaf slot a walk returned is what the page map said before the walk. */
  lemma LeafOfWalk(fmt: Format, m0: seq<Word>, n0: map<nat, Node>, m: seq<Word>, n: map<nat, Node>, t: nat, vpn: nat)
    requires CanStore(fmt, m, n, t, vpn) && SameMeaning(fmt, m0, m, n0) && IsRoot(n0, n[t].root)
    ensures var e := Entry(m, t, vpn % 512);
      && Lookup(fmt, m0, n[t].root, 0, vpn) == (if IsValid(e) then Some(e) else None)
      && (t + 1) * PAGE_WORDS <= |m|
  {
    WalkArrives(fmt, m, n, t, vpn);
    assert Lookup(fmt, m, n[t].root, 0, vpn) == Lookup(fmt, m0, n[t].root, 0, vpn);
  }

  lemma ZeroedMeaning(fmt: Format, m: seq<Word>, nodes: map<nat, Node>, r: nat, free: set<nat>)
    requires Forest(fmt, m, nodes) && r !in nodes && (r + 1) * PAGE_WORDS <= |m| && r in free
    ensures SameMeaning(fmt, m, Zeroed(m, r), nodes) && SameOutside(m, Zeroed(m, r), free)
    ensures forall v :: Lookup(fmt, Zeroed(m, r), r, 0, v) == None
  {
    ZeroedElsewhere(m, nodes, r);
    forall q, v: nat | IsRoot(nodes, q)
      ensures Lookup(fmt, Zeroed(m, r), q, 0, v) == Lookup(fmt, m, q, 0, v)
    {
      LookupIsLocal(fmt, m, Zeroed(m, r), nodes, q, v);
    }
    forall v
      ensures Lookup(fmt, Zeroed(m, r), r, 0, v) == None
    {
      NewRootEmpty(fmt, m, r, v);
    }
  }

  /** Page tables of one format in memory, with the frames they come from. */
  class TableMemory {
    const fmt: Format
    const pmm: FrameAllocator
    const ram: Ram

    /** Where every table frame sits. */
    ghost var nodes: map<nat, Node>

    /** All memory the allocator hands out exists and has 48-bit addresses. */
    ghost predicate Backed()
      reads pmm`bitmap, pmm`first, pmm`totalFrames
    {
      && ram.cells as object != pmm.bitmap as object
      && (pmm.first + pmm.totalFrames) * PAGE_WORDS <= ram.cells.Length
      && (pmm.first + pmm.totalFrames) * PAGE_SIZE <= 0x1_0000_0000_0000
    }

    /** Every table lies in a frame the allocator manages. */
    ghost predicate AllInRange()
      reads `nodes, pmm`first, pmm`totalFrames
    {
      forall p :: p in nodes ==> pmm.InRange(p)
    }

    ghost predicate Valid()
      reads this, pmm, pmm.bitmap, ram.cells
    {
      && pmm.Valid() && Backed()
      && Forest(fmt, ram.View(), nodes)
      && AllInRange() && nodes.Keys !! pmm.free
    }

    constructor (fmt: Format, pmm: FrameAllocator, ram: Ram)
      requires pmm.Valid()
      requires ram.cells as object != pmm.bitmap as object
      requires (pmm.first + pmm.totalFrames) * PAGE_WORDS <= ram.cells.Length
      requires (pmm.first + pmm.totalFrames) * PAGE_SIZE <= 0x1_0000_0000_0000
      ensures Valid() && this.fmt == fmt && this.pmm == pmm && this.ram == ram && nodes == map[]
    {
      this.fmt, this.pmm, this.ram := fmt, pmm, ram;
      nodes := map[];
    }

    /** `alloc_table_page`: a free frame, cleared; 0 when none is left. */
    method AllocTablePage() returns (phys: Word)
      requires Valid()
      modifies pmm`freeFrames, pmm`lastFreeIndex, pmm`free, pmm.bitmap, ram.cells
      ensures Valid()
      ensures phys == 0 <==> old(pmm.free) == {}
      ensures phys == 0 ==> ram.View() == old(ram.View()) && pmm.free == old(pmm.free)
      ensures phys != 0 ==>
        && phys % PAGE_SIZE == 0 && phys / PAGE_SIZE in old(pmm.free) && pmm.InRange(phys / PAGE_SIZE)
        && pmm.free == old(pmm.free) - {phys / PAGE_SIZE}
        && ram.View() == Zeroed(old(ram.View()), phys / PAGE_SIZE)
        && SameTables(old(ram.View()), ram.View(), nodes)
      ensures old(pmm.HintOk()) ==> pmm.HintOk()
    {
      phys := pmm.AllocFrame();
      if phys != 0 {
        ram.ZeroPage(phys / PAGE_SIZE);
        ZeroedElsewhere(old(ram.View()), nodes, phys / PAGE_SIZE);
        ForestIsLocal(fmt, old(ram.View()), ram.View(), nodes);
      }
    }

    /** The body of `walk_create` when entry `i` of table `p` is empty. */
    method LinkNewTable(p: nat, i: nat) returns (phys: Word)
      requires Valid()
      requires p in nodes && nodes[p].level < fmt.LeafLevel() && i < 512 && !IsValid(Entry(ram.View(), p, i))
      modifies pmm`freeFrames, pmm`lastFreeIndex, pmm`free, pmm.bitmap, ram.cells, `nodes
      ensures Valid()
      ensures phys == 0 <==> old(pmm.free) == {}
      ensures phys == 0 ==> ram.View() == old(ram.View()) && pmm.free == old(pmm.free) && nodes == old(nodes)
      ensures phys != 0 ==>
        && phys % PAGE_SIZE == 0 && phys / PAGE_SIZE in old(pmm.free)
        && pmm.free == old(pmm.free) - {phys / PAGE_SIZE}
        && CanLink(fmt, old(ram.View()), old(nodes), p, i, phys / PAGE_SIZE)
        && ram.View() == Linked(fmt, old(ram.View()), p, i, phys / PAGE_SIZE)
        && nodes == WithChild(old(nodes), p, i, phys / PAGE_SIZE)
      ensures old(pmm.HintOk()) ==> pmm.HintOk()
    {
      hide Represents, SameTables, LinksChild, Placed, LinkedFromParent;
      phys := AllocTablePage();
      if phys != 0 {
        ghost var c := phys / PAGE_SIZE;
        assert CanLink(fmt, old(ram.View()), nodes, p, i, c);
        LinkedForest(fmt, old(ram.View()), nodes, p, i, c);
        assert phys == c * PAGE_SIZE;
        ram.Store(p * PAGE_WORDS + i, TableEntry(fmt, phys / PAGE_SIZE));
        assert ram.View() == Linked(fmt, old(ram.View()), p, i, c);
        nodes := WithChild(nodes, p, i, c);
      }
    }

    /** The first half of `walk_create`: the table entry `idx` of `p` links, linking a new one if it is empty. */
    method ChildTable(p: nat, idx: nat, ghost vpn: nat) returns (childPhys: Word)
      requires Valid() && p in nodes && nodes[p].level < fmt.LeafLevel() && idx == Index(fmt, vpn, nodes[p].level)
      modifies pmm`freeFrames, pmm`lastFreeIndex, pmm`free, pmm.bitmap, ram.cells, `nodes
      ensures Valid()
      ensures Grown(fmt, old(nodes)[p].root, old(ram.View()), old(nodes), old(pmm.free), ram.View(), nodes, pmm.free)
      ensures var missing := Missing(fmt, old(ram.View()), p, old(nodes)[p].level, vpn);
        if childPhys == 0 then 0 < missing && old(pmm.free) == {} && pmm.free == {}
        else
          var c := childPhys / PAGE_SIZE;
          && childPhys % PAGE_SIZE == 0 && c in nodes
          && nodes[c] == Node(old(nodes)[p].root, old(nodes)[p].level + 1, old(nodes)[p].prefix * 512 + idx, p)
          && |old(pmm.free)| - missing == |pmm.free| - Missing(fmt, ram.View(), c, nodes[c].level, vpn)
          && Missing(fmt, ram.View(), c, nodes[c].level, vpn) <= missing
      ensures old(pmm.HintOk()) ==> pmm.HintOk()
    {
      hide LinksChild, Placed, LinkedFromParent, Represents, Grown, Lookup, Linked, CanLink, Index, SameTables;
      hide Forest, Missing, EntryPage, Prefix, FirstFrom, NoneBelow, IsFree;
      ghost var m, n, f := ram.View(), nodes, pmm.free;
      assert n.Keys !! f;
      var e := ram.Load(p * PAGE_WORDS + idx);
      assert e == Entry(m, p, idx);
      if !IsValid(e) {
        childPhys := LinkNewTable(p, idx);
        if childPhys != 0 {
          LinkedGrown(fmt, m, n, f, p, idx, childPhys / PAGE_SIZE, vpn);
        } else {
          GrownNot(fmt, nodes[p].root, m, n, f);
          MissingAtEmpty(fmt, m, p, nodes[p].level, vpn);
        }
      } else {
        GrownNot(fmt, nodes[p].root, m, n, f);
        FollowEntry(fmt, m, n, p, idx, vpn);
        childPhys := EntryPage(fmt, e) * PAGE_SIZE;
      }
    }

    /** `*pte = e` on the slot a walk returned. */
    method WriteLeaf(pte: nat, e: Word, ghost vpn: nat)
      requires Valid() && CanStore(fmt, ram.View(), nodes, pte / PAGE_WORDS, vpn) && pte % PAGE_WORDS == vpn % 512
      modifies ram.cells
      ensures Valid()
      ensures ram.View() == Stored(old(ram.View()), pte / PAGE_WORDS, vpn % 512, e)
      ensures SameOutside(old(ram.View()), ram.View(), nodes.Keys)
      ensures Updated(fmt, old(ram.View()), ram.View(), nodes, nodes[pte / PAGE_WORDS].root, vpn, if IsValid(e) then Some(e) else None)
    {
      hide LinksChild, Placed, LinkedFromParent, Represents, Lookup, Prefix, IsFree;
      ghost var t := pte / PAGE_WORDS;
      ram.Store(pte, e);
      StoredForest(fmt, old(ram.View()), nodes, t, vpn, e);
      StoredUpdates(fmt, old(ram.View()), nodes, t, vpn, e);
    }

    /** `free_table_page`. */
    method FreeTablePage(phys: Word, ghost p: nat)
      requires pmm.Valid() && phys == p * PAGE_SIZE && pmm.InRange(p)
      modifies pmm`freeFrames, pmm`lastFreeIndex, pmm`free, pmm.bitmap
      ensures pmm.Valid() && pmm.free == old(pmm.free) + {p}
      ensures old(pmm.HintOk()) ==> pmm.HintOk()
    {
      pmm.FreeFrame(phys);
    }
  }
}
