/** One capability table (`base/ob/cap.c`): the probe for a free slot, grant, close and lookup on 4096 slots. */
module CapTable {
  import opened Machine

  const CAP_TABLE_MAX := 4096
  const CAP_INVALID := 0xFFFF_FFFF

  datatype Arch = ARM64 | RISCV

  /** A slot; an object is known by the number of its header, whose generation the entry remembers. */
  datatype CapEntry = Free | Cap(obj: nat, rights: bv32, generation: nat)

  /** Bit `k` of a rights word. */
  predicate RightSet(x: bv32, k: nat)
    requires k < 32
  {
    (x >> k) & 1 == 1
  }

  /** Every right that is required is among `rights`. */
  ghost predicate Allows(rights: bv32, required: bv32) {
    forall k :: 0 <= k < 32 && RightSet(required, k) ==> RightSet(rights, k)
  }

  /** The test of `object_grant` and `cap_lookup`, `(rights & required) == required`. */
  predicate Includes(rights: bv32, required: bv32) {
    rights & required == required
  }

  lemma IncludedRight(rights: bv32, required: bv32, k: nat)
    requires k < 32 && Includes(rights, required) && RightSet(required, k)
    ensures RightSet(rights, k)
  {
  }

  /** Right `k`, if required, is granted. */
  predicate RightOk(rights: bv32, required: bv32, k: nat)
    requires k < 32
  {
    RightSet(required, k) ==> RightSet(rights, k)
  }

  lemma EachRight(rights: bv32, required: bv32)
    requires forall k :: 0 <= k < 32 ==> RightOk(rights, required, k)
    ensures Includes(rights, required)
  {
    assert RightOk(rights, required, 0) && RightOk(rights, required, 1) && RightOk(rights, required, 2) && RightOk(rights, required, 3);
    assert RightOk(rights, required, 4) && RightOk(rights, required, 5) && RightOk(rights, required, 6) && RightOk(rights, required, 7);
    assert RightOk(rights, required, 8) && RightOk(rights, required, 9) && RightOk(rights, required, 10) && RightOk(rights, required, 11);
    assert RightOk(rights, required, 12) && RightOk(rights, required, 13) && RightOk(rights, required, 14) && RightOk(rights, required, 15);
    assert RightOk(rights, required, 16) && RightOk(rights, required, 17) && RightOk(rights, required, 18) && RightOk(rights, required, 19);
    assert RightOk(rights, required, 20) && RightOk(rights, required, 21) && RightOk(rights, required, 22) && RightOk(rights, required, 23);
    assert RightOk(rights, required, 24) && RightOk(rights, required, 25) && RightOk(rights, required, 26) && RightOk(rights, required, 27);
    assert RightOk(rights, required, 28) && RightOk(rights, required, 29) && RightOk(rights, required, 30) && RightOk(rights, required, 31);
  }

  /** The mask test succeeds exactly when each required right is granted. */
  lemma IncludesExactly(rights: bv32, required: bv32)
    ensures Includes(rights, required) <==> Allows(rights, required)
  {
    hide RightSet;
    if Includes(rights, required) {
      forall k | 0 <= k < 32 && RightSet(required, k)
        ensures RightSet(rights, k)
      {
        IncludedRight(rights, required, k);
      }
    }
    if Allows(rights, required) {
      EachRight(rights, required);
    }
  }

  /** Authority never grows: rights within those granted, granted within the type's defaults, are within the defaults. */
  lemma RightsShrink(defaults: bv32, granted: bv32, required: bv32)
    requires Allows(defaults, granted) && Allows(granted, required)
    ensures Allows(defaults, required)
  {
  }

  /** The slot the `i`-th turn of the probe looks at: a 32-bit sum, then the remainder. */
  function ProbeIndex(hint: nat, i: nat): (idx: nat)
    ensures idx < CAP_TABLE_MAX
  {
    (hint + i) % U32 % CAP_TABLE_MAX
  }

  /** The turn at which the probe looks at `slot`. */
  function ProbeTurn(hint: nat, slot: nat): (i: nat)
    ensures i < CAP_TABLE_MAX
  {
    (slot + CAP_TABLE_MAX - hint % CAP_TABLE_MAX) % CAP_TABLE_MAX
  }

  lemma WrapKeepsSlot(n: nat)
    requires n < U32 + CAP_TABLE_MAX
    ensures n % U32 % CAP_TABLE_MAX == n % CAP_TABLE_MAX
  {
    if U32 <= n {
      assert n == (n - U32) + 0x10_0000 * CAP_TABLE_MAX;
    }
  }

  /** The probe looks at each slot in exactly one turn, for every 32-bit hint, sums that wrap included. */
  lemma ProbeVisitsOnce(hint: nat, i: nat, slot: nat)
    requires hint < U32 && i < CAP_TABLE_MAX && slot < CAP_TABLE_MAX
    ensures ProbeIndex(hint, i) == slot <==> i == ProbeTurn(hint, slot)
  {
    WrapKeepsSlot(hint + i);
    var r := hint % CAP_TABLE_MAX;
    assert (hint + i) % CAP_TABLE_MAX == (r + i) % CAP_TABLE_MAX;
  }

  /** `slot` is the first free one from the hint's slot upwards, going round after slot 4095. */
  ghost predicate FirstFree(entries: seq<CapEntry>, hint: nat, slot: nat)
    requires |entries| == 4096
  {
    && slot < 4096 && entries[slot] == Free
    && forall j :: 0 <= j < 4096 && entries[j] == Free ==>
         if hint % 4096 <= slot then j < hint % 4096 || slot <= j else slot <= j < hint % 4096
  }

  /** Slots come in that order. */
  lemma TurnsGoUp(hint: nat, slot: nat, j: nat)
    requires hint < U32 && slot < CAP_TABLE_MAX && j < CAP_TABLE_MAX
    ensures ProbeTurn(hint, slot) <= ProbeTurn(hint, j) <==>
      if hint % 4096 <= slot then j < hint % 4096 || slot <= j else slot <= j < hint % 4096
  {
  }

  lemma FirstTurn(entries: seq<CapEntry>, hint: nat, slot: nat)
    requires |entries| == CAP_TABLE_MAX && hint < U32 && slot < CAP_TABLE_MAX && entries[slot] == Free
    requires forall j :: 0 <= j < ProbeTurn(hint, slot) ==> entries[ProbeIndex(hint, j)] != Free
    ensures FirstFree(entries, hint, slot)
  {
    forall j: nat | j < CAP_TABLE_MAX && entries[j] == Free
      ensures ProbeTurn(hint, slot) <= ProbeTurn(hint, j)
    {
      ProbeVisitsOnce(hint, ProbeTurn(hint, j), j);
    }
    forall j: nat | j < CAP_TABLE_MAX && entries[j] == Free
      ensures if hint % 4096 <= slot then j < hint % 4096 || slot <= j else slot <= j < hint % 4096
    {
      TurnsGoUp(hint, slot, j);
    }
  }

  /** What the locked section of `cap_lookup` answers for an entry, given the object's current generation. */
  datatype Answer = NoEntry | Stale | Denied | Granted(obj: nat)

  ghost function Ask(e: CapEntry, generation: nat, required: bv32): Answer {
    match e
    case Free => NoEntry
    case Cap(obj, rights, g) =>
      if generation != g then Stale else if !Allows(rights, required) then Denied else Granted(obj)
  }

  class CapabilityTable {
    const arch: Arch
    const entries: array<CapEntry>
    var nextFreeHint: nat

    ghost predicate Valid()
      reads this
    {
      entries.Length == CAP_TABLE_MAX && nextFreeHint < U32
    }

    /** `cap_table_create`. */
    constructor (arch: Arch)
      ensures Valid() && fresh(entries) && this.arch == arch
      ensures forall k :: 0 <= k < CAP_TABLE_MAX ==> entries[k] == Free
    {
      this.arch := arch;
      nextFreeHint := 0;
      entries := new CapEntry[CAP_TABLE_MAX](_ => Free);
    }

    /** `atomic_store_release` on the hint; on RISC-V the store writes zero whatever it is given. */
    method StoreHint(v: nat)
      requires Valid() && v < U32
      modifies `nextFreeHint
      ensures Valid() && nextFreeHint == if arch == RISCV then 0 else v
    {
      nextFreeHint := if arch == RISCV then 0 else v;
    }

    /** `object_grant`, up to the counter increment after the lock is released. */
    method Grant(obj: nat, rights: bv32, defaultRights: bv32, generation: nat) returns (slot: nat)
      requires Valid()
      modifies `nextFreeHint, entries
      ensures Valid()
      ensures slot == 0xFFFF_FFFF <==>
        !Allows(defaultRights, rights) || forall k :: 0 <= k < 4096 ==> old(entries[k]) != Free
      ensures slot == CAP_INVALID ==> entries[..] == old(entries[..]) && nextFreeHint == old(nextFreeHint)
      ensures slot != CAP_INVALID ==>
        && FirstFree(old(entries[..]), old(nextFreeHint), slot)
        && entries[..] == old(entries[..])[slot := Cap(obj, rights, generation)]
        && nextFreeHint == (if arch == RISCV then 0 else slot + 1)
    {
      hide Includes, Allows;
      IncludesExactly(defaultRights, rights);
      if !Includes(defaultRights, rights) {
        return CAP_INVALID;
      }
      slot := CAP_INVALID;
      var hint := nextFreeHint;
      for i := 0 to CAP_TABLE_MAX
        invariant entries[..] == old(entries[..]) && nextFreeHint == old(nextFreeHint)
        invariant forall j :: 0 <= j < i ==> entries[ProbeIndex(hint, j)] != Free
      {
        var idx := ProbeIndex(hint, i);
        if entries[idx] == Free {
          ProbeVisitsOnce(hint, i, idx);
          FirstTurn(entries[..], hint, idx);
          entries[idx] := Cap(obj, rights, generation);
          StoreHint(idx + 1);
          return idx;
        }
      }
      forall k | 0 <= k < CAP_TABLE_MAX
        ensures entries[k] != Free
      {
        ProbeVisitsOnce(hint, ProbeTurn(hint, k), k);
      }
    }

    /** `object_close`, up to the counter decrement: the object whose handle was closed. */
    method Close(handle: nat) returns (obj: Option<nat>)
      requires Valid()
      modifies entries
      ensures Valid()
      ensures obj == if handle < CAP_TABLE_MAX && old(entries[handle]).Cap? then Some(old(entries[handle]).obj) else None
      ensures entries[..] == if obj.Some? then old(entries[..])[handle := Free] else old(entries[..])
    {
      if handle >= CAP_TABLE_MAX {
        return None;
      }
      match entries[handle]
      case Free => return None;
      case Cap(o, _, _) =>
        entries[handle] := Free;
        return Some(o);
    }

    /** The locked section of `cap_lookup`; `generations` are those of the object headers. A stale entry is dropped. */
    method Lookup(handle: nat, required: bv32, generations: map<nat, nat>) returns (a: Answer)
      requires Valid()
      requires forall k :: 0 <= k < CAP_TABLE_MAX && entries[k].Cap? ==> entries[k].obj in generations
      modifies entries
      ensures Valid()
      ensures a == if handle < CAP_TABLE_MAX then AskAt(old(entries[..]), handle, required, generations) else NoEntry
      ensures entries[..] == if a == Stale then old(entries[..])[handle := Free] else old(entries[..])
    {
      hide Includes, Allows;
      if handle >= CAP_TABLE_MAX {
        return NoEntry;
      }
      match entries[handle]
      case Free => return NoEntry;
      case Cap(o, rights, g) =>
        if generations[o] != g {
          entries[handle] := Free;
          return Stale;
        }
        IncludesExactly(rights, required);
        if !Includes(rights, required) {
          return Denied;
        }
        return Granted(o);
    }
  }

  ghost function AskAt(entries: seq<CapEntry>, handle: nat, required: bv32, generations: map<nat, nat>): Answer
    requires handle < |entries|
  {
    match entries[handle]
    case Free => NoEntry
    case Cap(o, _, _) => if o in generations then Ask(entries[handle], generations[o], required) else NoEntry
  }

  // Histories of calls on one table, in the order in which their locked sections run

  /** What a slot holds, and the default rights of the object's type when it was granted. */
  datatype Slot = Empty | Holds(obj: nat, rights: bv32, generation: nat, defaults: bv32) {
    function Entry(): CapEntry {
      if Empty? then Free else Cap(obj, rights, generation)
    }
  }

  /** A call, with the slot that a grant got. A revocation is whatever moves an object on to its next generation. */
  datatype CapOp =
    | GrantOp(slot: nat, obj: nat, rights: bv32, defaults: bv32)
    | CloseOp(handle: nat)
    | LookupOp(handle: nat, required: bv32)
    | RevokeOp(obj: nat)

  datatype Caps = Caps(slots: seq<Slot>, generations: map<nat, nat>) {
    function Entries(): (e: seq<CapEntry>)
      ensures |e| == |slots|
    {
      seq(|slots|, k requires 0 <= k < |slots| => slots[k].Entry())
    }

    ghost function Answers(handle: nat, required: bv32): Answer {
      if handle < |slots| then AskAt(Entries(), handle, required, generations) else NoEntry
    }
  }

  ghost function Perform(c: Caps, op: CapOp): (r: Caps)
    ensures |r.slots| == |c.slots|
  {
    match op
    case GrantOp(slot, obj, rights, defaults) =>
      if slot < |c.slots| && c.slots[slot] == Empty && obj in c.generations && Allows(defaults, rights)
      then c.(slots := c.slots[slot := Holds(obj, rights, c.generations[obj], defaults)]) else c
    case CloseOp(handle) => if handle < |c.slots| then c.(slots := c.slots[handle := Empty]) else c
    case LookupOp(handle, required) =>
      if c.Answers(handle, required) == Stale then c.(slots := c.slots[handle := Empty]) else c
    case RevokeOp(obj) => if obj in c.generations then c.(generations := c.generations[obj := (c.generations[obj] + 1) % U32]) else c
  }

  ghost function PerformAll(c: Caps, ops: seq<CapOp>): (r: Caps)
    ensures |r.slots| == |c.slots|
  {
    if ops == [] then c else Perform(PerformAll(c, ops[..|ops| - 1]), ops[|ops| - 1])
  }

  /** Every slot's rights are within its defaults, and its object exists. */
  ghost predicate Authorised(c: Caps) {
    forall k :: 0 <= k < |c.slots| && c.slots[k].Holds? ==> Allows(c.slots[k].defaults, c.slots[k].rights) && c.slots[k].obj in c.generations
  }

  lemma StaysAuthorised(c: Caps, op: CapOp)
    requires Authorised(c)
    ensures Authorised(Perform(c, op)) && Perform(c, op).generations.Keys == c.generations.Keys
  {
    hide Allows;
  }

  /**
   A handle keeps resolving to the object it was granted for, for exactly the rights it was granted with, through any
   history that does not close it or revoke the object.
   */
  lemma {:induction false} HandleResolves(c: Caps, ops: seq<CapOp>, slot: nat, obj: nat, rights: bv32, defaults: bv32, required: bv32)
    requires slot < |c.slots| && obj in c.generations
    requires c.slots[slot] == Holds(obj, rights, c.generations[obj], defaults)
    requires forall k :: 0 <= k < |ops| ==> ops[k] != CloseOp(slot) && ops[k] != RevokeOp(obj)
    ensures var d := PerformAll(c, ops);
      && obj in d.generations && d.slots[slot] == Holds(obj, rights, d.generations[obj], defaults)
      && d.Answers(slot, required) == if Allows(rights, required) then Granted(obj) else Denied
  {
    hide Allows;
    if ops != [] {
      HandleResolves(c, ops[..|ops| - 1], slot, obj, rights, defaults, required);
    }
  }

  /** How often the history moves `obj` on to its next generation. */
  function Revocations(ops: seq<CapOp>, obj: nat): nat {
    if ops == [] then 0
    else Revocations(ops[..|ops| - 1], obj) + if ops[|ops| - 1] == RevokeOp(obj) then 1 else 0
  }

  /** The generation counter of 32 bits goes round. */
  lemma {:induction false} GenerationAfter(c: Caps, ops: seq<CapOp>, obj: nat)
    requires obj in c.generations && c.generations[obj] < U32
    ensures var d := PerformAll(c, ops);
      obj in d.generations && d.generations[obj] == (c.generations[obj] + Revocations(ops, obj)) % U32
  {
    if ops != [] {
      GenerationAfter(c, ops[..|ops| - 1], obj);
    }
  }

  lemma {:induction false} NotLookedUp(c: Caps, ops: seq<CapOp>, slot: nat)
    requires slot < |c.slots| && c.slots[slot].Holds?
    requires forall k :: 0 <= k < |ops| ==> ops[k] != CloseOp(slot) && !(ops[k].LookupOp? && ops[k].handle == slot)
    ensures PerformAll(c, ops).slots[slot] == c.slots[slot]
  {
    if ops != [] {
      NotLookedUp(c, ops[..|ops| - 1], slot);
    }
  }

  /**
   A revoked handle, exactly: while it is neither closed nor looked up, it is stale if and only if the object was revoked a number of
   times that 2^32 does not divide. So 2^32 revocations bring a forgotten handle back to life.
   */
  lemma {:induction false} RevokedExactly(c: Caps, ops: seq<CapOp>, slot: nat, required: bv32)
    requires slot < |c.slots| && c.slots[slot].Holds? && c.slots[slot].obj in c.generations
    requires c.slots[slot].generation == c.generations[c.slots[slot].obj] < U32
    requires forall k :: 0 <= k < |ops| ==> ops[k] != CloseOp(slot) && !(ops[k].LookupOp? && ops[k].handle == slot)
    ensures PerformAll(c, ops).Answers(slot, required) ==
      if Revocations(ops, c.slots[slot].obj) % U32 != 0 then Stale
      else if Allows(c.slots[slot].rights, required) then Granted(c.slots[slot].obj) else Denied
  {
    hide Allows, PerformAll, Revocations;
    NotLookedUp(c, ops, slot);
    GenerationAfter(c, ops, c.slots[slot].obj);
    RoundTrip(c.generations[c.slots[slot].obj], Revocations(ops, c.slots[slot].obj));
  }

  lemma RoundTrip(g: nat, n: nat)
    requires g < U32
    ensures (g + n) % U32 == g <==> n % U32 == 0
  {
  }

  /** A closed handle, or one dropped as stale, resolves to nothing until a grant reuses its slot. */
  lemma {:induction false} ClosedHandleIsDead(c: Caps, ops: seq<CapOp>, slot: nat, required: bv32)
    requires slot < |c.slots| && c.slots[slot] == Empty
    requires forall k :: 0 <= k < |ops| ==> !(ops[k].GrantOp? && ops[k].slot == slot)
    ensures PerformAll(c, ops).Answers(slot, required) == NoEntry && PerformAll(c, ops).slots[slot] == Empty
  {
    if ops != [] {
      ClosedHandleIsDead(c, ops[..|ops| - 1], slot, required);
    }
  }

  /** Turn `j` of the history granted what `slot` holds, and the handle was not closed since. */
  ghost predicate GrantedAt(ops: seq<CapOp>, j: nat, slot: nat, holds: Slot) {
    && holds.Holds? && j < |ops| && ops[j] == GrantOp(slot, holds.obj, holds.rights, holds.defaults)
    && Allows(holds.defaults, holds.rights)
    && forall k :: j < k < |ops| ==> ops[k] != CloseOp(slot)
  }

  lemma GrantedStill(ops: seq<CapOp>, j: nat, slot: nat, holds: Slot)
    requires ops != [] && GrantedAt(ops[..|ops| - 1], j, slot, holds) && ops[|ops| - 1] != CloseOp(slot)
    ensures GrantedAt(ops, j, slot, holds)
  {
    hide Allows;
  }

  /** On a table that started empty, whatever a slot holds was put there by a grant that the type's defaults allowed. */
  lemma {:induction false} ComesFromGrant(c: Caps, ops: seq<CapOp>, slot: nat) returns (j: nat)
    requires slot < |c.slots| && c.slots[slot] == Empty && PerformAll(c, ops).slots[slot].Holds?
    ensures GrantedAt(ops, j, slot, PerformAll(c, ops).slots[slot])
  {
    hide Allows;
    var before, last := ops[..|ops| - 1], ops[|ops| - 1];
    if PerformAll(c, before).slots[slot].Holds? {
      j := ComesFromGrant(c, before, slot);
      GrantedStill(ops, j, slot, PerformAll(c, ops).slots[slot]);
    } else {
      j := |ops| - 1;
    }
  }

  /** No history gives authority beyond the default rights at grant time: every granted lookup is within those of one earlier grant. */
  lemma AuthorityIsGranted(c: Caps, ops: seq<CapOp>, handle: nat, required: bv32, obj: nat) returns (j: nat)
    requires (forall k :: 0 <= k < |c.slots| ==> c.slots[k] == Empty) && PerformAll(c, ops).Answers(handle, required) == Granted(obj)
    ensures j < |ops| && ops[j].GrantOp? && ops[j].slot == handle && ops[j].obj == obj
    ensures Allows(ops[j].rights, required) && Allows(ops[j].defaults, required)
    ensures forall k :: j < k < |ops| ==> ops[k] != CloseOp(handle)
  {
    var d := PerformAll(c, ops);
    j := ComesFromGrant(c, ops, handle);
    RightsShrink(d.slots[handle].defaults, d.slots[handle].rights, required);
  }

  /** A call before it is made; a grant is told the default rights of the object's type. */
  datatype CapCall =
    | GrantCall(obj: nat, rights: bv32, defaults: bv32)
    | CloseCall(handle: nat)
    | LookupCall(handle: nat, required: bv32)
    | RevokeCall(obj: nat)

  datatype Reply = Handle(slot: nat) | Closed(obj: Option<nat>) | Found(answer: Answer) | Done

  /** `op` is what `call` did to `c`, and `reply` what it said. */
  ghost predicate Did(c: Caps, call: CapCall, op: CapOp, reply: Reply) {
    match call
    case GrantCall(obj, rights, defaults) =>
      && reply.Handle? && op == GrantOp(reply.slot, obj, rights, defaults)
      && (reply.slot == CAP_INVALID <==> !Allows(defaults, rights) || forall k :: 0 <= k < |c.slots| ==> c.slots[k].Holds?)
      && (reply.slot != CAP_INVALID ==> reply.slot < |c.slots| && c.slots[reply.slot] == Empty)
    case CloseCall(handle) =>
      && op == CloseOp(handle)
      && reply == Closed(if handle < |c.slots| && c.slots[handle].Holds? then Some(c.slots[handle].obj) else None)
    case LookupCall(handle, required) => op == LookupOp(handle, required) && reply == Found(c.Answers(handle, required))
    case RevokeCall(obj) => op == RevokeOp(obj) && reply == Done
  }

  ghost predicate Represents(entries: seq<CapEntry>, c: Caps) {
    |entries| == CAP_TABLE_MAX && entries == c.Entries()
  }

  lemma GrantDone(entries: seq<CapEntry>, entries': seq<CapEntry>, c: Caps, slot: nat, obj: nat, rights: bv32, defaults: bv32)
    requires Represents(entries, c) && obj in c.generations
    requires slot == CAP_INVALID <==> !Allows(defaults, rights) || forall k :: 0 <= k < CAP_TABLE_MAX ==> entries[k] != Free
    requires if slot == CAP_INVALID then entries' == entries
             else slot < CAP_TABLE_MAX && entries[slot] == Free && entries' == entries[slot := Cap(obj, rights, c.generations[obj])]
    ensures var op := GrantOp(slot, obj, rights, defaults);
      Represents(entries', Perform(c, op)) && Did(c, GrantCall(obj, rights, defaults), op, Handle(slot))
  {
    hide Allows;
    assert forall k :: 0 <= k < CAP_TABLE_MAX ==> (entries[k] == Free <==> c.slots[k] == Empty);
  }

  lemma CloseDone(entries: seq<CapEntry>, entries': seq<CapEntry>, c: Caps, handle: nat, obj: Option<nat>)
    requires Represents(entries, c)
    requires obj == if handle < CAP_TABLE_MAX && entries[handle].Cap? then Some(entries[handle].obj) else None
    requires entries' == if obj.Some? then entries[handle := Free] else entries
    ensures Represents(entries', Perform(c, CloseOp(handle))) && Did(c, CloseCall(handle), CloseOp(handle), Closed(obj))
  {
  }

  lemma LookupDone(entries: seq<CapEntry>, entries': seq<CapEntry>, c: Caps, handle: nat, required: bv32, a: Answer)
    requires Represents(entries, c)
    requires a == if handle < CAP_TABLE_MAX then AskAt(entries, handle, required, c.generations) else NoEntry
    requires entries' == if a == Stale then entries[handle := Free] else entries
    ensures Represents(entries', Perform(c, LookupOp(handle, required)))
    ensures Did(c, LookupCall(handle, required), LookupOp(handle, required), Found(a))
  {
    hide Allows;
  }

  lemma ObjectsExist(entries: seq<CapEntry>, c: Caps)
    requires Represents(entries, c) && Authorised(c)
    ensures forall k :: 0 <= k < CAP_TABLE_MAX && entries[k].Cap? ==> entries[k].obj in c.generations
  {
    hide Allows;
  }

  /** One call, on the table itself and on the abstract one. */
  method RunCall(t: CapabilityTable, call: CapCall, generations: map<nat, nat>, ghost c: Caps)
    returns (reply: Reply, generations': map<nat, nat>, ghost op: CapOp)
    requires t.Valid() && Represents(t.entries[..], c) && Authorised(c) && c.generations == generations
    requires call.GrantCall? ==> call.obj in generations
    modifies t`nextFreeHint, t.entries
    ensures t.Valid() && Did(c, call, op, reply)
    ensures Represents(t.entries[..], Perform(c, op)) && generations' == Perform(c, op).generations
  {
    hide Represents, Did, Authorised, Allows;
    ObjectsExist(t.entries[..], c);
    ghost var entries := t.entries[..];
    generations' := generations;
    match call {
      case GrantCall(obj, rights, defaults) =>
        var slot := t.Grant(obj, rights, defaults, generations[obj]);
        op, reply := GrantOp(slot, obj, rights, defaults), Handle(slot);
        GrantDone(entries, t.entries[..], c, slot, obj, rights, defaults);
      case CloseCall(handle) =>
        var obj := t.Close(handle);
        op, reply := CloseOp(handle), Closed(obj);
        CloseDone(entries, t.entries[..], c, handle, obj);
      case LookupCall(handle, required) =>
        var a := t.Lookup(handle, required, generations);
        op, reply := LookupOp(handle, required), Found(a);
        LookupDone(entries, t.entries[..], c, handle, required, a);
      case RevokeCall(obj) =>
        op, reply := RevokeOp(obj), Done;
        if obj in generations {
          generations' := generations[obj := (generations[obj] + 1) % U32];
        }
        RevokeDone(entries, c, obj);
    }
  }

  lemma RevokeDone(entries: seq<CapEntry>, c: Caps, obj: nat)
    requires Represents(entries, c)
    ensures Represents(entries, Perform(c, RevokeOp(obj))) && Did(c, RevokeCall(obj), RevokeOp(obj), Done)
  {
  }

  /**
   Any history of calls on a new table: each call does and says what the abstract table does. So a lookup is granted only for rights
   within the type's default rights when some earlier grant returned this handle, which has not been closed since.
   */
  method RunCalls(t: CapabilityTable, calls: seq<CapCall>, generations: map<nat, nat>) returns (replies: seq<Reply>, ghost ops: seq<CapOp>)
    requires t.Valid() && forall k :: 0 <= k < CAP_TABLE_MAX ==> t.entries[k] == Free
    requires forall call :: call in calls && call.GrantCall? ==> call.obj in generations
    modifies t`nextFreeHint, t.entries
    ensures t.Valid() && |replies| == |ops| == |calls|
    ensures Represents(t.entries[..], PerformAll(NewCaps(generations), ops))
    ensures forall i :: 0 <= i < |calls| ==> Did(PerformAll(NewCaps(generations), ops[..i]), calls[i], ops[i], replies[i])
    ensures forall i :: 0 <= i < |calls| && calls[i].LookupCall? && replies[i].Found? && replies[i].answer.Granted? ==>
      exists j :: Backs(calls, replies, j, i)
  {
    hide Represents, Did, Authorised, Allows, Perform, Backs;
    ghost var c := NewCaps(generations);
    NewIsEmpty(t.entries[..], generations);
    var now := generations;
    replies, ops := [], [];
    for i := 0 to |calls|
      invariant t.Valid() && |replies| == |ops| == i
      invariant Represents(t.entries[..], PerformAll(c, ops)) && now == PerformAll(c, ops).generations && now.Keys == generations.Keys
      invariant Authorised(PerformAll(c, ops))
      invariant forall n :: 0 <= n < i ==> Did(PerformAll(c, ops[..n]), calls[n], ops[n], replies[n])
    {
      ghost var before := ops;
      ghost var op;
      var reply;
      reply, now, op := RunCall(t, calls[i], now, PerformAll(c, ops));
      StaysAuthorised(PerformAll(c, ops), op);
      ops, replies := ops + [op], replies + [reply];
      assert ops[..i] == before && forall n :: 0 <= n < i ==> ops[..n] == before[..n];
    }
    forall i | 0 <= i < |calls| && calls[i].LookupCall? && replies[i].Found? && replies[i].answer.Granted?
      ensures exists j :: Backs(calls, replies, j, i)
    {
      LookupWasGranted(generations, calls, ops, replies, i);
    }
  }

  function NewCaps(generations: map<nat, nat>): Caps {
    Caps(seq(CAP_TABLE_MAX, _ => Empty), generations)
  }

  /** `grant` returned the handle of `lookup`, for this object, with the rights asked for, all within the type's defaults then. */
  ghost predicate GrantAllows(grant: CapCall, reply: Reply, lookup: CapCall, obj: nat) {
    && grant.GrantCall? && lookup.LookupCall? && grant.obj == obj && reply == Handle(lookup.handle)
    && Allows(grant.rights, lookup.required) && Allows(grant.defaults, lookup.required)
  }

  /** Call `j` granted what lookup `i` found, and its handle was not closed in between. */
  ghost predicate Backs(calls: seq<CapCall>, replies: seq<Reply>, j: nat, i: nat) {
    && j < i < |calls| == |replies| && calls[i].LookupCall? && replies[i].Found? && replies[i].answer.Granted?
    && GrantAllows(calls[j], replies[j], calls[i], replies[i].answer.obj)
    && forall k :: j < k < i ==> calls[k] != CloseCall(calls[i].handle)
  }

  lemma NewIsEmpty(entries: seq<CapEntry>, generations: map<nat, nat>)
    requires |entries| == CAP_TABLE_MAX && forall k :: 0 <= k < CAP_TABLE_MAX ==> entries[k] == Free
    ensures Represents(entries, NewCaps(generations)) && Authorised(NewCaps(generations))
  {
  }

  lemma LookupWasGranted(generations: map<nat, nat>, calls: seq<CapCall>, ops: seq<CapOp>, replies: seq<Reply>, i: nat)
    requires |replies| == |ops| == |calls| && i < |calls| && calls[i].LookupCall?
    requires forall n :: 0 <= n < |calls| ==> Did(PerformAll(NewCaps(generations), ops[..n]), calls[n], ops[n], replies[n])
    requires replies[i].Found? && replies[i].answer.Granted?
    ensures exists j :: Backs(calls, replies, j, i)
  {
    hide Allows, PerformAll;
    var c, handle := NewCaps(generations), calls[i].handle;
    assert Did(PerformAll(c, ops[..i]), calls[i], ops[i], replies[i]);
    var j := AuthorityIsGranted(c, ops[..i], handle, calls[i].required, replies[i].answer.obj);
    assert Did(PerformAll(c, ops[..j]), calls[j], ops[j], replies[j]);
    assert GrantAllows(calls[j], replies[j], calls[i], replies[i].answer.obj);
    forall k | j < k < i
      ensures calls[k] != CloseCall(handle)
    {
      assert Did(PerformAll(c, ops[..k]), calls[k], ops[k], replies[k]);
      assert ops[..i][k] == ops[k];
    }
    assert Backs(calls, replies, j, i);
  }
}
