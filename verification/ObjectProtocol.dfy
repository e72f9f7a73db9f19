/**
 The object manager and the capability tables as a concurrent protocol. Each section under a lock and each atomic
 counter update outside one is a step of a thread; the destroy check reads its two counters in two steps.
 */
module ObjectProtocol {
  import opened Machine

  type Tid = nat
  type Obj = nat

  /** The rights bits that are set. */
  type Rights = set<nat>

  /** Created: not yet in the id table. Published: in it. Removed: taken out of it. Freed: memory given back. */
  datatype Phase = Created | Published | Removed | Freed | Failed

  /** An object header. `bornDestroyed` is what the memory held in `destroyed` at creation, `marks` counts destructions. */
  datatype Object = Object(refcount: nat, handleCount: nat, generation: nat, id: nat, locked: bool, destroyed: bool,
                           bornDestroyed: bool, marks: nat, phase: Phase)

  datatype Slot = Empty | Entry(obj: Obj, rights: Rights, generation: nat)

  /** Where a thread is: between calls, or between two steps of a call on an object. */
  datatype Pc =
    | Idle
    | Publishing(o: Obj)   // object_create: header written, id table insertion pending
    | Granting(o: Obj)     // object_grant: slot filled and table unlocked, handle_count increment pending
    | Closing(o: Obj)      // object_close or a stale lookup: slot cleared, handle_count decrement pending
    | Checking(o: Obj)     // object_maybe_destroy entered, object lock not yet taken
    | Loaded(o: Obj)       // object lock held, refcount loaded as zero, handle_count load pending
    | Destroying(o: Obj)   // marked destroyed, removal from the id table pending
    | Freeing(o: Obj)      // removed, slab_free pending

  datatype Thread = Thread(pc: Pc, held: multiset<Obj>)

  /** All slots of all capability tables stand in one sequence. */
  datatype State = State(objs: seq<Object>, slots: seq<Slot>, threads: seq<Thread>, ids: map<nat, Obj>, nextId: nat)

  datatype Step =
    | Create(t: Tid, garbage: bool)
    | CreateFails(t: Tid)
    | Publish(t: Tid)
    | Ref(t: Tid, o: Obj)
    | Deref(t: Tid, o: Obj)
    | GrantFill(t: Tid, o: Obj, slot: nat, rights: Rights)
    | GrantCount(t: Tid)
    | Close(t: Tid, slot: nat)
    | Lookup(t: Tid, slot: nat, required: Rights)
    | CloseCount(t: Tid)
    | LockAndLoad(t: Tid)
    | Decide(t: Tid)
    | RemoveId(t: Tid)
    | FreeMemory(t: Tid)
    | Revoke(o: Obj)

  function Inc(n: nat): nat { (n + 1) % U32 }
  function Dec(n: nat): nat { (n + U32 - 1) % U32 }

  predicate AtPc(s: State, t: Tid, pc: Pc) {
    t < |s.threads| && s.threads[t].pc == pc
  }

  /** The object a thread in the middle of a call works on. */
  predicate Busy(s: State, t: Tid) {
    t < |s.threads| && s.threads[t].pc != Idle && s.threads[t].pc.o < |s.objs|
  }

  /** When a step can be taken. Callers of ref, deref and grant hold a reference. */
  predicate Enabled(s: State, step: Step) {
    match step
    case Create(t, _) => AtPc(s, t, Idle)
    case CreateFails(t) => Busy(s, t) && s.threads[t].pc.Publishing?
    case Publish(t) => Busy(s, t) && s.threads[t].pc.Publishing?
    case Ref(t, o) => AtPc(s, t, Idle) && o < |s.objs| && o in s.threads[t].held
    case Deref(t, o) => AtPc(s, t, Idle) && o < |s.objs| && o in s.threads[t].held
    case GrantFill(t, o, slot, _) =>
      AtPc(s, t, Idle) && o < |s.objs| && o in s.threads[t].held && slot < |s.slots| && s.slots[slot] == Empty
    case GrantCount(t) => Busy(s, t) && s.threads[t].pc.Granting?
    case Close(t, slot) => AtPc(s, t, Idle) && slot < |s.slots| && s.slots[slot].Entry? && s.slots[slot].obj < |s.objs|
    case Lookup(t, slot, _) => AtPc(s, t, Idle) && slot < |s.slots| && s.slots[slot].Entry? && s.slots[slot].obj < |s.objs|
    case CloseCount(t) => Busy(s, t) && s.threads[t].pc.Closing?
    case LockAndLoad(t) => Busy(s, t) && s.threads[t].pc.Checking? && !s.objs[s.threads[t].pc.o].locked
    case Decide(t) => Busy(s, t) && s.threads[t].pc.Loaded?
    case RemoveId(t) => Busy(s, t) && s.threads[t].pc.Destroying?
    case FreeMemory(t) => Busy(s, t) && s.threads[t].pc.Freeing?
    case Revoke(o) => o < |s.objs|
  }

  function Goto(s: State, t: Tid, pc: Pc): State
    requires t < |s.threads|
  {
    s.(threads := s.threads[t := s.threads[t].(pc := pc)])
  }

  function SetObj(s: State, o: Obj, obj: Object): State
    requires o < |s.objs|
  {
    s.(objs := s.objs[o := obj])
  }

  function Hold(s: State, t: Tid, held: multiset<Obj>): State
    requires t < |s.threads|
  {
    s.(threads := s.threads[t := s.threads[t].(held := held)])
  }

  /** The section of `cap_lookup` under the table lock, on a filled slot. */
  function LookupStep(s: State, t: Tid, slot: nat, required: Rights): State
    requires t < |s.threads| && slot < |s.slots| && s.slots[slot].Entry? && s.slots[slot].obj < |s.objs|
  {
    var e := s.slots[slot];
    var obj := s.objs[e.obj];
    if obj.generation != e.generation then Goto(s.(slots := s.slots[slot := Empty]), t, Closing(e.obj))
    else if !(required <= e.rights) then s
    else Hold(SetObj(s, e.obj, obj.(refcount := Inc(obj.refcount))), t, s.threads[t].held + multiset{e.obj})
  }

  function Apply(s: State, step: Step): State
    requires Enabled(s, step)
  {
    match step
    case Create(t, garbage) =>
      var o := |s.objs|;
      var born := Object(1, 0, 0, s.nextId, false, garbage, garbage, 0, Created);
      Hold(Goto(s.(objs := s.objs + [born], nextId := Inc(s.nextId)), t, Publishing(o)), t, s.threads[t].held + multiset{o})
    case CreateFails(t) =>
      var o := s.threads[t].pc.o;
      Hold(Goto(SetObj(s, o, s.objs[o].(phase := Failed)), t, Idle), t, s.threads[t].held - multiset{o})
    case Publish(t) =>
      var o := s.threads[t].pc.o;
      Goto(SetObj(s, o, s.objs[o].(phase := Published)), t, Idle).(ids := s.ids[s.objs[o].id := o])
    case Ref(t, o) =>
      Hold(SetObj(s, o, s.objs[o].(refcount := Inc(s.objs[o].refcount))), t, s.threads[t].held + multiset{o})
    case Deref(t, o) =>
      var s1 := Hold(SetObj(s, o, s.objs[o].(refcount := Dec(s.objs[o].refcount))), t, s.threads[t].held - multiset{o});
      if s.objs[o].refcount == 1 then Goto(s1, t, Checking(o)) else s1
    case GrantFill(t, o, slot, rights) =>
      Goto(s.(slots := s.slots[slot := Entry(o, rights, s.objs[o].generation)]), t, Granting(o))
    case GrantCount(t) =>
      var o := s.threads[t].pc.o;
      Goto(SetObj(s, o, s.objs[o].(handleCount := Inc(s.objs[o].handleCount))), t, Idle)
    case Close(t, slot) => Goto(s.(slots := s.slots[slot := Empty]), t, Closing(s.slots[slot].obj))
    case Lookup(t, slot, required) => LookupStep(s, t, slot, required)
    case CloseCount(t) =>
      var o := s.threads[t].pc.o;
      Goto(SetObj(s, o, s.objs[o].(handleCount := Dec(s.objs[o].handleCount))), t, Checking(o))
    case LockAndLoad(t) =>
      var o := s.threads[t].pc.o;
      if s.objs[o].refcount == 0 then Goto(SetObj(s, o, s.objs[o].(locked := true)), t, Loaded(o)) else Goto(s, t, Idle)
    case Decide(t) =>
      var o := s.threads[t].pc.o;
      var obj := s.objs[o].(locked := false);
      if obj.handleCount == 0 && !obj.destroyed
      then Goto(SetObj(s, o, obj.(destroyed := true, marks := obj.marks + 1)), t, Destroying(o))
      else Goto(SetObj(s, o, obj), t, Idle)
    case RemoveId(t) =>
      var o := s.threads[t].pc.o;
      Goto(SetObj(s, o, s.objs[o].(phase := Removed)), t, Freeing(o)).(ids := s.ids - {s.objs[o].id})
    case FreeMemory(t) =>
      var o := s.threads[t].pc.o;
      Goto(SetObj(s, o, s.objs[o].(phase := Freed)), t, Idle)
    case Revoke(o) => SetObj(s, o, s.objs[o].(generation := Inc(s.objs[o].generation)))
  }

  // Counting

  /** References to `o` held by all threads. */
  function Refs(ts: seq<Thread>, o: Obj): nat {
    if ts == [] then 0 else ts[|ts| - 1].held[o] + Refs(ts[..|ts| - 1], o)
  }

  /** Threads at `pc`. */
  function Count(ts: seq<Thread>, pc: Pc): nat {
    if ts == [] then 0 else (if ts[|ts| - 1].pc == pc then 1 else 0) + Count(ts[..|ts| - 1], pc)
  }

  /** Slots that name `o`. */
  function Entries(slots: seq<Slot>, o: Obj): nat {
    if slots == [] then 0
    else (if slots[|slots| - 1].Entry? && slots[|slots| - 1].obj == o then 1 else 0) + Entries(slots[..|slots| - 1], o)
  }

  lemma {:induction false} RefsUpdate(ts: seq<Thread>, t: Tid, th: Thread, o: Obj)
    requires t < |ts|
    ensures Refs(ts[t := th], o) == Refs(ts, o) - ts[t].held[o] + th.held[o]
    ensures ts[t].held[o] <= Refs(ts, o)
  {
    var n := |ts| - 1;
    if t == n {
      assert ts[t := th][..n] == ts[..n];
    } else {
      assert ts[t := th][..n] == ts[..n][t := th];
      RefsUpdate(ts[..n], t, th, o);
    }
  }

  lemma {:induction false} CountUpdate(ts: seq<Thread>, t: Tid, th: Thread, pc: Pc)
    requires t < |ts|
    ensures Count(ts[t := th], pc) == Count(ts, pc) - (if ts[t].pc == pc then 1 else 0) + (if th.pc == pc then 1 else 0)
    ensures ts[t].pc == pc ==> 0 < Count(ts, pc)
  {
    var n := |ts| - 1;
    if t == n {
      assert ts[t := th][..n] == ts[..n];
    } else {
      assert ts[t := th][..n] == ts[..n][t := th];
      CountUpdate(ts[..n], t, th, pc);
    }
  }

  lemma {:induction false} EntriesUpdate(slots: seq<Slot>, k: nat, e: Slot, o: Obj)
    requires k < |slots|
    ensures Entries(slots[k := e], o)
            == Entries(slots, o) - (if slots[k].Entry? && slots[k].obj == o then 1 else 0) + (if e.Entry? && e.obj == o then 1 else 0)
    ensures slots[k].Entry? && slots[k].obj == o ==> 0 < Entries(slots, o)
  {
    var n := |slots| - 1;
    if k == n {
      assert slots[k := e][..n] == slots[..n];
    } else {
      assert slots[k := e][..n] == slots[..n][k := e];
      EntriesUpdate(slots[..n], k, e, o);
    }
  }

  lemma {:induction false} CountAtMost(ts: seq<Thread>, pc: Pc)
    ensures Count(ts, pc) <= |ts|
  {
    if ts != [] {
      CountAtMost(ts[..|ts| - 1], pc);
    }
  }

  lemma {:induction false} EntriesAtMost(slots: seq<Slot>, o: Obj)
    ensures Entries(slots, o) <= |slots|
  {
    if slots != [] {
      EntriesAtMost(slots[..|slots| - 1], o);
    }
  }

  lemma {:induction false} SomeThreadAt(ts: seq<Thread>, pc: Pc) returns (t: Tid)
    requires 0 < Count(ts, pc)
    ensures t < |ts| && ts[t].pc == pc
  {
    var n := |ts| - 1;
    if ts[n].pc == pc {
      t := n;
    } else {
      t := SomeThreadAt(ts[..n], pc);
    }
  }

  // The invariant

  /** One object with everything that is counted about it. */
  datatype View = View(obj: Object, refs: nat, entries: nat, publishing: nat, granting: nat, closing: nat,
                       checking: nat, loaded: nat, destroying: nat, freeing: nat)

  function ViewOf(s: State, o: Obj): View
    requires o < |s.objs|
  {
    View(s.objs[o], Refs(s.threads, o), Entries(s.slots, o), Count(s.threads, Publishing(o)), Count(s.threads, Granting(o)),
         Count(s.threads, Closing(o)), Count(s.threads, Checking(o)), Count(s.threads, Loaded(o)),
         Count(s.threads, Destroying(o)), Count(s.threads, Freeing(o)))
  }

  /** The 32-bit counter `handle_count`: entries and closes in flight, less grants in flight. */
  function HandleCount(entries: nat, closing: nat, granting: nat): int {
    if granting <= entries + closing then entries + closing - granting else entries + closing - granting + U32
  }

  predicate Untouched(v: View) {
    v.entries == 0 && v.granting == 0 && v.closing == 0 && v.checking == 0 && v.loaded == 0 && v.destroying == 0 && v.freeing == 0
  }

  /** What every reachable state keeps for one object. */
  predicate ObjOk(v: View) {
    var obj := v.obj;
    && (obj.phase != Failed ==> obj.refcount == v.refs)
    && obj.handleCount == HandleCount(v.entries, v.closing, v.granting)
    && v.loaded <= 1 && (obj.locked <==> v.loaded == 1)
    && (if obj.bornDestroyed then obj.destroyed && obj.marks == 0 else obj.marks <= 1 && (obj.destroyed <==> obj.marks == 1))
    && (obj.marks == 1 ==> v.refs == 0 && v.entries == 0 && v.granting == 0 && v.closing == 0)
    && v.destroying == (if obj.phase == Published && obj.marks == 1 then 1 else 0)
    && v.freeing == (if obj.phase == Removed then 1 else 0)
    && v.publishing == (if obj.phase == Created then 1 else 0)
    && (match obj.phase
        case Created => v.refs == 1 && Untouched(v) && obj.marks == 0
        case Failed => v.refs == 0 && Untouched(v) && obj.marks == 0
        case Published => !obj.destroyed && v.refs == 0 && obj.handleCount == 0 ==> 0 < v.checking + v.loaded
        case _ => obj.marks == 1)
  }

  predicate ThreadOk(s: State, th: Thread) {
    && (th.pc != Idle ==> th.pc.o < |s.objs|)
    && (th.pc.Granting? || th.pc.Publishing? ==> th.pc.o in th.held)
    && forall o :: o in th.held ==> o < |s.objs|
  }

  predicate IdsOk(s: State) {
    && s.nextId == |s.objs| + 1
    && (forall o :: 0 <= o < |s.objs| ==> s.objs[o].id == o + 1)
    && (forall i :: i in s.ids ==> s.ids[i] < |s.objs| && s.objs[s.ids[i]].phase == Published && i == s.ids[i] + 1)
    && forall o :: 0 <= o < |s.objs| && s.objs[o].phase == Published ==> o + 1 in s.ids && s.ids[o + 1] == o
  }

  /** Threads and slots name existing objects. */
  predicate ShapeOk(s: State) {
    && (forall t :: 0 <= t < |s.threads| ==> ThreadOk(s, s.threads[t]))
    && forall k :: 0 <= k < |s.slots| ==> s.slots[k].Entry? ==> s.slots[k].obj < |s.objs|
  }

  predicate Inv(s: State) {
    && ShapeOk(s)
    && (forall o :: 0 <= o < |s.objs| ==> ObjOk(ViewOf(s, o)))
    && IdsOk(s)
  }

  /** No 32-bit counter can wrap unnoticed: slots and threads, references to one object, and object ids fit in 32 bits. */
  predicate Bounded(s: State) {
    && |s.slots| + |s.threads| < U32 && |s.objs| + 1 < U32
    && forall o :: 0 <= o < |s.objs| ==> Refs(s.threads, o) < U32
  }

  /**
   A destroy decision is torn: it rests on a reference count that was zero when loaded, but is no longer. The source's branch
   looks at the loaded value; this is that branch with the count read again.
   */
  predicate Torn(s: State, step: Step) {
    && Enabled(s, step) && step.Decide?
    && var obj := s.objs[s.threads[step.t].pc.o]; obj.handleCount == 0 && !obj.destroyed && obj.refcount != 0
  }

  lemma {:induction false} GrantersHold(s: State, ts: seq<Thread>, o: Obj)
    requires forall t :: 0 <= t < |ts| ==> ThreadOk(s, ts[t])
    ensures Count(ts, Granting(o)) + Count(ts, Publishing(o)) <= Refs(ts, o)
  {
    if ts != [] {
      var n := |ts| - 1;
      GrantersHold(s, ts[..n], o);
      assert ThreadOk(s, ts[n]);
    }
  }

  /** How the view of object `o` changes when thread `t` becomes `th` and the slots change to `slots`. */
  lemma ThreadMoves(s: State, t: Tid, th: Thread, o: Obj)
    requires t < |s.threads|
    ensures var was, ts := s.threads[t], s.threads[t := th];
      && Refs(ts, o) == Refs(s.threads, o) - was.held[o] + th.held[o]
      && was.held[o] <= Refs(s.threads, o)
      && (forall pc :: Count(ts, pc) == Count(s.threads, pc) - (if was.pc == pc then 1 else 0) + (if th.pc == pc then 1 else 0))
      && (forall pc :: was.pc == pc ==> 0 < Count(s.threads, pc))
  {
    RefsUpdate(s.threads, t, th, o);
    forall pc
      ensures Count(s.threads[t := th], pc)
              == Count(s.threads, pc) - (if s.threads[t].pc == pc then 1 else 0) + (if th.pc == pc then 1 else 0)
      ensures s.threads[t].pc == pc ==> 0 < Count(s.threads, pc)
    {
      CountUpdate(s.threads, t, th, pc);
    }
  }

  lemma Bounds(s: State, o: Obj)
    requires Inv(s) && Bounded(s)
    ensures Entries(s.slots, o) + Count(s.threads, Closing(o)) < U32 && Count(s.threads, Granting(o)) < U32
    ensures Count(s.threads, Granting(o)) + Count(s.threads, Publishing(o)) <= Refs(s.threads, o)
  {
    EntriesAtMost(s.slots, o);
    CountAtMost(s.threads, Closing(o));
    CountAtMost(s.threads, Granting(o));
    GrantersHold(s, s.threads, o);
  }

  predicate About(pc: Pc, o: Obj) {
    pc != Idle && pc.o == o
  }

  /** A step of thread `t` on other objects does not change the view of `o`. */
  lemma SameView(s: State, s': State, t: Tid, o: Obj)
    requires t < |s.threads| && o < |s.objs| && o < |s'.objs| && s'.objs[o] == s.objs[o]
    requires t < |s'.threads| && s'.threads == s.threads[t := s'.threads[t]] && Entries(s'.slots, o) == Entries(s.slots, o)
    requires s.threads[t].pc == s'.threads[t].pc || (!About(s.threads[t].pc, o) && !About(s'.threads[t].pc, o))
    requires s.threads[t].held[o] == s'.threads[t].held[o]
    ensures ViewOf(s', o) == ViewOf(s, o)
  {
    ThreadMoves(s, t, s'.threads[t], o);
  }

  /** The view of `o` after thread `t` moved from one step of a call on `o` to another. */
  lemma MovedView(s: State, s': State, t: Tid, o: Obj)
    requires t < |s.threads| && o < |s.objs| && o < |s'.objs| && t < |s'.threads| && s'.threads == s.threads[t := s'.threads[t]]
    ensures var v, v', was, now := ViewOf(s, o), ViewOf(s', o), s.threads[t], s'.threads[t];
      && v'.obj == s'.objs[o]
      && v'.refs == v.refs - was.held[o] + now.held[o] && was.held[o] <= v.refs
      && v'.entries == Entries(s'.slots, o)
      && v'.publishing == v.publishing - At(was, Publishing(o)) + At(now, Publishing(o)) && At(was, Publishing(o)) <= v.publishing
      && v'.granting == v.granting - At(was, Granting(o)) + At(now, Granting(o)) && At(was, Granting(o)) <= v.granting
      && v'.closing == v.closing - At(was, Closing(o)) + At(now, Closing(o)) && At(was, Closing(o)) <= v.closing
      && v'.checking == v.checking - At(was, Checking(o)) + At(now, Checking(o)) && At(was, Checking(o)) <= v.checking
      && v'.loaded == v.loaded - At(was, Loaded(o)) + At(now, Loaded(o)) && At(was, Loaded(o)) <= v.loaded
      && v'.destroying == v.destroying - At(was, Destroying(o)) + At(now, Destroying(o)) && At(was, Destroying(o)) <= v.destroying
      && v'.freeing == v.freeing - At(was, Freeing(o)) + At(now, Freeing(o)) && At(was, Freeing(o)) <= v.freeing
  {
    ThreadMoves(s, t, s'.threads[t], o);
  }

  function At(th: Thread, pc: Pc): nat {
    if th.pc == pc then 1 else 0
  }

  /** The object an enabled step works on. */
  function Target(s: State, step: Step): Obj
    requires Enabled(s, step)
  {
    match step
    case Create(_, _) => |s.objs|
    case Ref(_, o) => o
    case Deref(_, o) => o
    case GrantFill(_, o, _, _) => o
    case Close(_, slot) => s.slots[slot].obj
    case Lookup(_, slot, _) => s.slots[slot].obj
    case Revoke(o) => o
    case _ => s.threads[step.t].pc.o
  }

  /** A thread that holds a reference between calls is not the creator of the object. */
  lemma HolderSeesPublished(s: State, t: Tid, o: Obj)
    requires Inv(s) && AtPc(s, t, Idle) && o < |s.objs| && o in s.threads[t].held
    ensures s.objs[o].phase == Published && s.objs[o].marks == 0 && 0 < Refs(s.threads, o)
    ensures Count(s.threads, Granting(o)) < Refs(s.threads, o)
  {
    var gone := Thread(Idle, multiset{});
    ThreadMoves(s, t, gone, o);
    GrantersHold(s, s.threads[t := gone], o);
    assert ObjOk(ViewOf(s, o));
  }

  lemma RefOk(s: State, step: Step)
    requires Inv(s) && Bounded(s) && Enabled(s, step) && Bounded(Apply(s, step)) && step.Ref?
    ensures ObjOk(ViewOf(Apply(s, step), step.o))
  {
    hide Refs, Count, Entries;
    assert ObjOk(ViewOf(s, step.o));
    HolderSeesPublished(s, step.t, step.o);
    assert Refs(Apply(s, step).threads, step.o) < U32;
    MovedView(s, Apply(s, step), step.t, step.o);
  }

  lemma DerefOk(s: State, step: Step)
    requires Inv(s) && Bounded(s) && Enabled(s, step) && step.Deref?
    ensures ObjOk(ViewOf(Apply(s, step), step.o))
  {
    hide Refs, Count, Entries;
    assert ObjOk(ViewOf(s, step.o));
    HolderSeesPublished(s, step.t, step.o);
    MovedView(s, Apply(s, step), step.t, step.o);
  }

  lemma GrantCountOk(s: State, step: Step)
    requires Inv(s) && Bounded(s) && Enabled(s, step) && step.GrantCount?
    ensures ObjOk(ViewOf(Apply(s, step), Target(s, step)))
  {
    hide Refs, Count, Entries;
    var o := Target(s, step);
    assert ObjOk(ViewOf(s, o));
    Bounds(s, o);
    MovedView(s, Apply(s, step), step.t, o);
  }

  lemma CloseCountOk(s: State, step: Step)
    requires Inv(s) && Bounded(s) && Enabled(s, step) && step.CloseCount?
    ensures ObjOk(ViewOf(Apply(s, step), Target(s, step)))
  {
    hide Refs, Count, Entries;
    var o := Target(s, step);
    assert ObjOk(ViewOf(s, o));
    Bounds(s, o);
    MovedView(s, Apply(s, step), step.t, o);
  }

  lemma LockAndLoadOk(s: State, step: Step)
    requires Inv(s) && Bounded(s) && Enabled(s, step) && step.LockAndLoad?
    ensures ObjOk(ViewOf(Apply(s, step), Target(s, step)))
  {
    hide Refs, Count, Entries;
    var o := Target(s, step);
    assert ObjOk(ViewOf(s, o));
    MovedView(s, Apply(s, step), step.t, o);
  }

  lemma DecideOk(s: State, step: Step)
    requires Inv(s) && Bounded(s) && Enabled(s, step) && step.Decide? && !Torn(s, step)
    ensures ObjOk(ViewOf(Apply(s, step), Target(s, step)))
  {
    hide Refs, Count, Entries;
    var o := Target(s, step);
    assert ObjOk(ViewOf(s, o));
    Bounds(s, o);
    MovedView(s, Apply(s, step), step.t, o);
  }

  lemma FreeMemoryOk(s: State, step: Step)
    requires Inv(s) && Bounded(s) && Enabled(s, step) && step.FreeMemory?
    ensures ObjOk(ViewOf(Apply(s, step), Target(s, step)))
  {
    hide Refs, Count, Entries;
    var o := Target(s, step);
    assert ObjOk(ViewOf(s, o));
    assert ThreadOk(s, s.threads[step.t]);
    MovedView(s, Apply(s, step), step.t, o);
  }

  lemma PublishOk(s: State, step: Step)
    requires Inv(s) && Bounded(s) && Enabled(s, step) && step.Publish?
    ensures ObjOk(ViewOf(Apply(s, step), Target(s, step)))
  {
    hide Refs, Count, Entries;
    var o := Target(s, step);
    assert ObjOk(ViewOf(s, o));
    assert ThreadOk(s, s.threads[step.t]);
    MovedView(s, Apply(s, step), step.t, o);
  }

  lemma RemoveIdOk(s: State, step: Step)
    requires Inv(s) && Bounded(s) && Enabled(s, step) && step.RemoveId?
    ensures ObjOk(ViewOf(Apply(s, step), Target(s, step)))
  {
    hide Refs, Count, Entries;
    var o := Target(s, step);
    assert ObjOk(ViewOf(s, o));
    assert ThreadOk(s, s.threads[step.t]);
    MovedView(s, Apply(s, step), step.t, o);
  }

  lemma CreateFailsOk(s: State, step: Step)
    requires Inv(s) && Bounded(s) && Enabled(s, step) && step.CreateFails?
    ensures ObjOk(ViewOf(Apply(s, step), Target(s, step)))
  {
    hide Refs, Count, Entries;
    var o := Target(s, step);
    assert ObjOk(ViewOf(s, o));
    assert ThreadOk(s, s.threads[step.t]);
    MovedView(s, Apply(s, step), step.t, o);
  }

  lemma GrantFillOk(s: State, step: Step)
    requires Inv(s) && Bounded(s) && Enabled(s, step) && step.GrantFill?
    ensures ObjOk(ViewOf(Apply(s, step), step.o))
  {
    hide Refs, Count, Entries;
    assert ObjOk(ViewOf(s, step.o));
    HolderSeesPublished(s, step.t, step.o);
    EntriesUpdate(s.slots, step.slot, Entry(step.o, step.rights, s.objs[step.o].generation), step.o);
    MovedView(s, Apply(s, step), step.t, step.o);
  }

  lemma CloseOk(s: State, step: Step)
    requires Inv(s) && Bounded(s) && Enabled(s, step) && step.Close?
    ensures ObjOk(ViewOf(Apply(s, step), Target(s, step)))
  {
    hide Refs, Count, Entries;
    var o := Target(s, step);
    assert ObjOk(ViewOf(s, o));
    EntriesUpdate(s.slots, step.slot, Empty, o);
    MovedView(s, Apply(s, step), step.t, o);
  }

  lemma LookupStaleOk(s: State, step: Step)
    requires Inv(s) && Enabled(s, step) && step.Lookup?
    requires s.objs[s.slots[step.slot].obj].generation != s.slots[step.slot].generation
    ensures ObjOk(ViewOf(Apply(s, step), Target(s, step)))
  {
    hide Refs, Count, Entries;
    var o := Target(s, step);
    assert ObjOk(ViewOf(s, o));
    EntriesUpdate(s.slots, step.slot, Empty, o);
    MovedView(s, Apply(s, step), step.t, o);
  }

  /** Taking a reference through a table entry. */
  lemma TakenOk(v: View, v': View)
    requires ObjOk(v) && 0 < v.entries && v.refs + 1 < U32
    requires v' == v.(obj := v.obj.(refcount := Inc(v.obj.refcount)), refs := v.refs + 1)
    ensures ObjOk(v')
  {
  }

  lemma LookupRefOk(s: State, t: Tid, slot: nat, required: Rights, o: Obj)
    requires AtPc(s, t, Idle) && slot < |s.slots| && s.slots[slot].Entry? && s.slots[slot].obj == o < |s.objs|
    requires s.objs[o].generation == s.slots[slot].generation && required <= s.slots[slot].rights
    requires ObjOk(ViewOf(s, o)) && Refs(s.threads, o) + 1 < U32
    ensures ObjOk(ViewOf(LookupStep(s, t, slot, required), o))
  {
    hide Refs, Count, Entries, ObjOk;
    EntriesUpdate(s.slots, slot, Empty, o);
    MovedView(s, LookupStep(s, t, slot, required), t, o);
    TakenOk(ViewOf(s, o), ViewOf(LookupStep(s, t, slot, required), o));
  }

  lemma CreateOk(s: State, step: Step)
    requires Inv(s) && Bounded(s) && Enabled(s, step) && step.Create?
    ensures ObjOk(ViewOf(Apply(s, step), |s.objs|))
  {
    hide Refs, Count, Entries;
    var o, s' := |s.objs|, Apply(s, step);
    NothingKnows(s, o);
    MovedView(s.(objs := s'.objs), s', step.t, o);
  }

  /** No thread and no slot refers to an object that does not exist yet. */
  lemma NothingKnows(s: State, o: Obj)
    requires ShapeOk(s) && |s.objs| <= o
    ensures Refs(s.threads, o) == 0 && Entries(s.slots, o) == 0
    ensures Count(s.threads, Publishing(o)) == 0 && Count(s.threads, Granting(o)) == 0 && Count(s.threads, Closing(o)) == 0
    ensures Count(s.threads, Checking(o)) == 0 && Count(s.threads, Loaded(o)) == 0 && Count(s.threads, Destroying(o)) == 0
    ensures Count(s.threads, Freeing(o)) == 0
  {
    NoRefs(s, s.threads, o);
    NoEntries(s, s.slots, o);
    NoneAt(s, s.threads, Publishing(o));
    NoneAt(s, s.threads, Granting(o));
    NoneAt(s, s.threads, Closing(o));
    NoneAt(s, s.threads, Checking(o));
    NoneAt(s, s.threads, Loaded(o));
    NoneAt(s, s.threads, Destroying(o));
    NoneAt(s, s.threads, Freeing(o));
  }

  lemma {:induction false} NoneAt(s: State, ts: seq<Thread>, pc: Pc)
    requires pc != Idle && |s.objs| <= pc.o && forall t :: 0 <= t < |ts| ==> ThreadOk(s, ts[t])
    ensures Count(ts, pc) == 0
  {
    if ts != [] {
      NoneAt(s, ts[..|ts| - 1], pc);
      assert ThreadOk(s, ts[|ts| - 1]);
    }
  }

  lemma {:induction false} NoRefs(s: State, ts: seq<Thread>, o: Obj)
    requires |s.objs| <= o && forall t :: 0 <= t < |ts| ==> ThreadOk(s, ts[t])
    ensures Refs(ts, o) == 0
  {
    if ts != [] {
      NoRefs(s, ts[..|ts| - 1], o);
      assert ThreadOk(s, ts[|ts| - 1]);
    }
  }

  lemma {:induction false} NoEntries(s: State, slots: seq<Slot>, o: Obj)
    requires |s.objs| <= o && forall k :: 0 <= k < |slots| ==> slots[k].Entry? ==> slots[k].obj < |s.objs|
    ensures Entries(slots, o) == 0
  {
    if slots != [] {
      NoEntries(s, slots[..|slots| - 1], o);
    }
  }

  lemma TargetOk(s: State, step: Step)
    requires Inv(s) && Bounded(s) && Enabled(s, step) && Bounded(Apply(s, step)) && !Torn(s, step)
    ensures Target(s, step) < |Apply(s, step).objs| && ObjOk(ViewOf(Apply(s, step), Target(s, step)))
  {
    hide ObjOk, ViewOf, Bounded;
    match step
    case Create(_, _) => CreateOk(s, step);
    case CreateFails(_) => CreateFailsOk(s, step);
    case Publish(_) => PublishOk(s, step);
    case Ref(_, _) => RefOk(s, step);
    case Deref(_, _) => DerefOk(s, step);
    case GrantFill(_, _, _, _) => GrantFillOk(s, step);
    case GrantCount(_) => GrantCountOk(s, step);
    case Close(_, _) => CloseOk(s, step);
    case Lookup(_, _, _) => LookupOk(s, step);
    case CloseCount(_) => CloseCountOk(s, step);
    case LockAndLoad(_) => LockAndLoadOk(s, step);
    case Decide(_) => DecideOk(s, step);
    case RemoveId(_) => RemoveIdOk(s, step);
    case FreeMemory(_) => FreeMemoryOk(s, step);
    case Revoke(_) => RevokeOk(s, step);
  }

  lemma RevokeOk(s: State, step: Step)
    requires Inv(s) && Enabled(s, step) && step.Revoke?
    ensures ObjOk(ViewOf(Apply(s, step), step.o))
  {
    assert ObjOk(ViewOf(s, step.o));
  }

  /** A step touches one thread and, of the objects, only its target. */
  lemma StepTouches(s: State, step: Step, o: Obj)
    requires Enabled(s, step) && o < |s.objs| && o != Target(s, step) && !step.Revoke?
    ensures var s' := Apply(s, step);
      && o < |s'.objs| && s'.objs[o] == s.objs[o]
      && |s'.threads| == |s.threads| && s'.threads == s.threads[step.t := s'.threads[step.t]]
  {
    match step {
      case Create(_, _) =>
      case CreateFails(_) =>
      case Publish(_) =>
      case Ref(_, _) =>
      case Deref(_, _) =>
      case GrantFill(_, _, _, _) =>
      case GrantCount(_) =>
      case Close(_, _) =>
      case Lookup(_, _, _) =>
      case CloseCount(_) =>
      case LockAndLoad(_) =>
      case Decide(_) =>
      case RemoveId(_) =>
      case FreeMemory(_) =>
    }
  }

  /** And that thread stays with the target. */
  lemma StepIsLocal(s: State, step: Step, o: Obj)
    requires Enabled(s, step) && o < |s.objs| && o != Target(s, step) && !step.Revoke?
    ensures var s' := Apply(s, step);
      && o < |s'.objs| && s'.objs[o] == s.objs[o]
      && |s'.threads| == |s.threads| && s'.threads == s.threads[step.t := s'.threads[step.t]]
      && !About(s.threads[step.t].pc, o) && !About(s'.threads[step.t].pc, o)
      && s.threads[step.t].held[o] == s'.threads[step.t].held[o]
  {
    StepTouches(s, step, o);
    if step.Create? || step.Ref? || step.Deref? || step.GrantFill? || step.Close? || step.Lookup? {
      IdleStepIsLocal(s, step, o);
    } else {
      BusyStepIsLocal(s, step, o);
    }
  }

  lemma IdleStepIsLocal(s: State, step: Step, o: Obj)
    requires Enabled(s, step) && o < |s.objs| && o != Target(s, step)
    requires step.Create? || step.Ref? || step.Deref? || step.GrantFill? || step.Close? || step.Lookup?
    ensures var s' := Apply(s, step);
      && |s'.threads| == |s.threads| && !About(s.threads[step.t].pc, o) && !About(s'.threads[step.t].pc, o)
      && s.threads[step.t].held[o] == s'.threads[step.t].held[o]
  {
    match step {
      case Create(_, _) =>
      case Ref(_, _) =>
      case Deref(_, _) =>
      case GrantFill(_, _, _, _) =>
      case Close(_, _) =>
      case Lookup(_, _, _) =>
    }
  }

  lemma BusyStepIsLocal(s: State, step: Step, o: Obj)
    requires Enabled(s, step) && o < |s.objs| && o != Target(s, step) && !step.Revoke?
    requires !step.Create? && !step.Ref? && !step.Deref? && !step.GrantFill? && !step.Close? && !step.Lookup?
    ensures var s' := Apply(s, step);
      && |s'.threads| == |s.threads| && !About(s.threads[step.t].pc, o) && !About(s'.threads[step.t].pc, o)
      && s.threads[step.t].held[o] == s'.threads[step.t].held[o]
  {
    match step {
      case CreateFails(_) =>
      case Publish(_) =>
      case GrantCount(_) =>
      case CloseCount(_) =>
      case LockAndLoad(_) =>
      case Decide(_) =>
      case RemoveId(_) =>
      case FreeMemory(_) =>
    }
  }

  /** Slots of other objects are not touched. */
  lemma OtherEntries(s: State, step: Step, o: Obj)
    requires Enabled(s, step) && o != Target(s, step)
    ensures Entries(Apply(s, step).slots, o) == Entries(s.slots, o)
  {
    hide Entries;
    var s' := Apply(s, step);
    if step.GrantFill? || step.Close? || step.Lookup? {
      EntriesUpdate(s.slots, step.slot, s'.slots[step.slot], o);
      assert s'.slots == s.slots[step.slot := s'.slots[step.slot]];
    }
  }

  /** Objects a step is not about look as before. */
  lemma OtherOk(s: State, step: Step, o: Obj)
    requires Inv(s) && Enabled(s, step) && o < |s.objs| && o != Target(s, step)
    ensures o < |Apply(s, step).objs| && ObjOk(ViewOf(Apply(s, step), o))
  {
    assert ObjOk(ViewOf(s, o));
    if step.Revoke? {
      assert ViewOf(Apply(s, step), o) == ViewOf(s, o);
    } else {
      StepIsLocal(s, step, o);
      OtherEntries(s, step, o);
      hide *;
      SameView(s, Apply(s, step), step.t, o);
    }
  }

  lemma LookupHereOk(s: State, t: Tid, slot: nat, required: Rights, o: Obj, s': State)
    requires AtPc(s, t, Idle) && slot < |s.slots| && s.slots[slot].Entry? && s.slots[slot].obj == o < |s.objs|
    requires s.objs[o].generation == s.slots[slot].generation && s' == LookupStep(s, t, slot, required)
    requires ObjOk(ViewOf(s, o)) && Refs(s'.threads, o) < U32
    ensures |s'.objs| == |s.objs| && ObjOk(ViewOf(s', o))
  {
    hide Refs, Count, Entries, ObjOk, ViewOf;
    if required <= s.slots[slot].rights {
      RefsUpdate(s.threads, t, s'.threads[t], o);
      assert s'.threads == s.threads[t := s'.threads[t]];
      LookupRefOk(s, t, slot, required, o);
    } else {
      assert s' == s;
    }
  }

  lemma LookupOk(s: State, step: Step)
    requires Inv(s) && Enabled(s, step) && step.Lookup? && Bounded(Apply(s, step))
    ensures ObjOk(ViewOf(Apply(s, step), Target(s, step)))
  {
    hide Refs, Count, Entries, ObjOk, ViewOf, ThreadOk, IdsOk;
    var o, s' := s.slots[step.slot].obj, Apply(s, step);
    assert |s'.objs| == |s.objs|;
    hide LookupStep;
    if s.objs[o].generation != s.slots[step.slot].generation {
      LookupStaleOk(s, step);
    } else {
      LookupHereOk(s, step.t, step.slot, step.required, o, s');
    }
  }

  /** The phase of an object in the middle of creation or destruction. */
  lemma PhaseAtPc(s: State, t: Tid)
    requires Inv(s) && Busy(s, t)
    ensures var pc := s.threads[t].pc;
      && (pc.Publishing? ==> s.objs[pc.o].phase == Created)
      && (pc.Destroying? ==> s.objs[pc.o].phase == Published)
      && (pc.Freeing? ==> s.objs[pc.o].phase == Removed)
  {
    hide Refs, Count, Entries, ThreadOk, IdsOk;
    var pc := s.threads[t].pc;
    assert ObjOk(ViewOf(s, pc.o));
    CountUpdate(s.threads, t, s.threads[t], pc);
  }

  lemma IdsKept(s: State, step: Step)
    requires Inv(s) && Enabled(s, step) && Bounded(Apply(s, step))
    ensures IdsOk(Apply(s, step))
  {
    hide Refs, Count, Entries, ObjOk, ViewOf, ThreadOk;
    match step {
      case Create(_, _) => CreateIds(s, step);
      case CreateFails(t) => PhaseAtPc(s, t);
      case Publish(t) => PhaseAtPc(s, t);
      case RemoveId(t) => PhaseAtPc(s, t);
      case FreeMemory(t) => PhaseAtPc(s, t);
      case _ => SamePhases(s, step);
    }
  }

  lemma CreateIds(s: State, step: Step)
    requires Inv(s) && Enabled(s, step) && Bounded(Apply(s, step)) && step.Create?
    ensures IdsOk(Apply(s, step))
  {
    hide Refs, Count, Entries, ObjOk, ViewOf, ThreadOk;
  }

  lemma SamePhases(s: State, step: Step)
    requires Inv(s) && Enabled(s, step)
    requires !step.Create? && !step.CreateFails? && !step.Publish? && !step.RemoveId? && !step.FreeMemory?
    ensures IdsOk(Apply(s, step))
  {
    hide Refs, Count, Entries, ObjOk, ViewOf, ThreadOk;
    var s' := Apply(s, step);
    assert s'.ids == s.ids && s'.nextId == s.nextId && |s'.objs| == |s.objs|;
    assert forall o :: 0 <= o < |s.objs| ==> s'.objs[o].phase == s.objs[o].phase && s'.objs[o].id == s.objs[o].id;
  }

  lemma ThreadsKept(s: State, step: Step)
    requires ShapeOk(s) && Enabled(s, step)
    ensures ShapeOk(Apply(s, step))
  {
    hide ObjOk, IdsOk, ViewOf;
    var s' := Apply(s, step);
    assert |s.objs| <= |s'.objs| && |s'.threads| == |s.threads|;
    forall t | 0 <= t < |s'.threads|
      ensures ThreadOk(s', s'.threads[t])
    {
      assert ThreadOk(s, s.threads[t]);
      if step.Revoke? || t != step.t {
        assert s'.threads[t] == s.threads[t];
      } else {
        MoverKept(s, step);
      }
    }
    forall k | 0 <= k < |s'.slots| && s'.slots[k].Entry?
      ensures s'.slots[k].obj < |s'.objs|
    {
    }
  }

  lemma MoverKept(s: State, step: Step)
    requires Enabled(s, step) && !step.Revoke? && ThreadOk(s, s.threads[step.t])
    ensures |Apply(s, step).threads| == |s.threads| && ThreadOk(Apply(s, step), Apply(s, step).threads[step.t])
  {
    if step.Create? || step.Ref? || step.GrantFill? || step.Lookup? {
      TakerKept(s, step);
    } else {
      GiverKept(s, step);
    }
  }

  lemma TakerKept(s: State, step: Step)
    requires Enabled(s, step) && (step.Create? || step.Ref? || step.GrantFill? || step.Lookup?)
    requires ThreadOk(s, s.threads[step.t])
    ensures |Apply(s, step).threads| == |s.threads| && ThreadOk(Apply(s, step), Apply(s, step).threads[step.t])
  {
    match step {
      case Create(_, _) =>
      case Ref(_, _) =>
      case GrantFill(_, _, _, _) =>
      case Lookup(_, _, _) =>
    }
  }

  lemma GiverKept(s: State, step: Step)
    requires Enabled(s, step) && !step.Create? && !step.Ref? && !step.GrantFill? && !step.Lookup? && !step.Revoke?
    requires ThreadOk(s, s.threads[step.t])
    ensures |Apply(s, step).threads| == |s.threads| && ThreadOk(Apply(s, step), Apply(s, step).threads[step.t])
  {
    match step {
      case CreateFails(_) =>
      case Publish(_) =>
      case Deref(_, _) =>
      case GrantCount(_) =>
      case Close(_, _) =>
      case CloseCount(_) =>
      case LockAndLoad(_) =>
      case Decide(_) =>
      case RemoveId(_) =>
      case FreeMemory(_) =>
    }
  }

  /** Every step but a torn decision keeps the invariant. */
  lemma StepKeepsInv(s: State, step: Step)
    requires Inv(s) && Bounded(s) && Enabled(s, step) && Bounded(Apply(s, step)) && !Torn(s, step)
    ensures Inv(Apply(s, step))
  {
    hide Apply, Enabled, ObjOk, ViewOf, ThreadOk, IdsOk, Bounded, Torn, Target;
    var s' := Apply(s, step);
    ThreadsKept(s, step);
    IdsKept(s, step);
    TargetOk(s, step);
    forall o | 0 <= o < |s'.objs|
      ensures ObjOk(ViewOf(s', o))
    {
      if o != Target(s, step) {
        Grows(s, step, o);
        OtherOk(s, step, o);
      }
    }
  }

  lemma Grows(s: State, step: Step, o: Obj)
    requires Enabled(s, step) && o < |Apply(s, step).objs| && o != Target(s, step)
    ensures o < |s.objs|
  {
  }
}
