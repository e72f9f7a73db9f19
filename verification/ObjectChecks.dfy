/**
 The destroy check and the calls around it, seen from their counters: what each call does when it runs alone, and what must have
 happened when a check decides on a reference count that is no longer zero.
 */
module ObjectChecks {
  import opened Machine
  import opened ObjectProtocol
  import opened ObjectRuns

  // Reference counts in all runs, torn or not

  /** What even unsafe runs keep: the reference count of an object is the references held to it. */
  predicate CountOk(v: View) {
    && (v.obj.phase != Failed ==> v.obj.refcount == v.refs)
    && v.publishing == (if v.obj.phase == Created then 1 else 0)
    && (v.obj.phase == Created ==> v.refs == 1 && Untouched(v))
    && (v.obj.phase == Failed ==> v.refs == 0 && Untouched(v))
  }

  predicate CountsOk(s: State) {
    ShapeOk(s) && forall o :: 0 <= o < |s.objs| ==> CountOk(ViewOf(s, o))
  }

  /** A thread that holds a reference between calls is not the creator of the object. */
  lemma HolderSeesLive(s: State, t: Tid, o: Obj)
    requires CountsOk(s) && AtPc(s, t, Idle) && o < |s.objs| && o in s.threads[t].held
    ensures s.objs[o].phase != Created && s.objs[o].phase != Failed && 0 < Refs(s.threads, o)
  {
    var gone := Thread(Idle, multiset{});
    ThreadMoves(s, t, gone, o);
    GrantersHold(s, s.threads[t := gone], o);
    assert CountOk(ViewOf(s, o));
  }

  lemma IdleStepCounts(s: State, step: Step)
    requires CountsOk(s) && Enabled(s, step) && Bounded(Apply(s, step)) && (step.Ref? || step.Deref? || step.GrantFill?)
    ensures Target(s, step) < |Apply(s, step).objs| && CountOk(ViewOf(Apply(s, step), Target(s, step)))
  {
    hide Refs, Count, Entries;
    var o := Target(s, step);
    assert CountOk(ViewOf(s, o));
    HolderSeesLive(s, step.t, o);
    MovedView(s, Apply(s, step), step.t, o);
    assert Refs(Apply(s, step).threads, o) < U32;
  }

  lemma SlotStepCounts(s: State, step: Step)
    requires CountsOk(s) && Enabled(s, step) && Bounded(Apply(s, step)) && (step.Close? || step.Lookup?)
    ensures Target(s, step) < |Apply(s, step).objs| && CountOk(ViewOf(Apply(s, step), Target(s, step)))
  {
    hide Refs, Count, Entries;
    var o := Target(s, step);
    assert CountOk(ViewOf(s, o));
    EntriesUpdate(s.slots, step.slot, Empty, o);
    MovedView(s, Apply(s, step), step.t, o);
    assert Refs(Apply(s, step).threads, o) < U32;
  }

  lemma BirthStepCounts(s: State, step: Step)
    requires CountsOk(s) && Enabled(s, step) && (step.CreateFails? || step.Publish?)
    ensures Target(s, step) < |Apply(s, step).objs| && CountOk(ViewOf(Apply(s, step), Target(s, step)))
  {
    hide Refs, Count, Entries;
    var o := Target(s, step);
    assert CountOk(ViewOf(s, o));
    assert ThreadOk(s, s.threads[step.t]);
    MovedView(s, Apply(s, step), step.t, o);
  }

  lemma DeathStepCounts(s: State, step: Step)
    requires CountsOk(s) && Enabled(s, step) && (step.RemoveId? || step.FreeMemory?)
    ensures Target(s, step) < |Apply(s, step).objs| && CountOk(ViewOf(Apply(s, step), Target(s, step)))
  {
    hide Refs, Count, Entries;
    var o := Target(s, step);
    assert CountOk(ViewOf(s, o));
    assert ThreadOk(s, s.threads[step.t]);
    MovedView(s, Apply(s, step), step.t, o);
  }

  lemma CounterStepCounts(s: State, step: Step)
    requires CountsOk(s) && Enabled(s, step) && (step.GrantCount? || step.CloseCount? || step.LockAndLoad? || step.Decide?)
    ensures Target(s, step) < |Apply(s, step).objs| && CountOk(ViewOf(Apply(s, step), Target(s, step)))
  {
    hide Refs, Count, Entries;
    var o := Target(s, step);
    assert CountOk(ViewOf(s, o));
    assert ThreadOk(s, s.threads[step.t]);
    MovedView(s, Apply(s, step), step.t, o);
  }

  lemma CreateCounts(s: State, step: Step)
    requires CountsOk(s) && Enabled(s, step) && step.Create?
    ensures CountOk(ViewOf(Apply(s, step), |s.objs|))
  {
    hide Refs, Count, Entries;
    var o, s' := |s.objs|, Apply(s, step);
    NothingKnows(s, o);
    MovedView(s.(objs := s'.objs), s', step.t, o);
  }

  lemma TargetCounts(s: State, step: Step)
    requires CountsOk(s) && Enabled(s, step) && Bounded(Apply(s, step))
    ensures Target(s, step) < |Apply(s, step).objs| && CountOk(ViewOf(Apply(s, step), Target(s, step)))
  {
    hide CountOk, ViewOf, Bounded;
    if step.Create? {
      CreateCounts(s, step);
    } else if step.Ref? || step.Deref? || step.GrantFill? {
      IdleStepCounts(s, step);
    } else if step.Close? || step.Lookup? {
      SlotStepCounts(s, step);
    } else if step.Revoke? {
      assert CountOk(ViewOf(s, step.o));
      RevokeCounts(s, step);
    } else if step.CreateFails? || step.Publish? {
      BirthStepCounts(s, step);
    } else if step.RemoveId? || step.FreeMemory? {
      DeathStepCounts(s, step);
    } else {
      CounterStepCounts(s, step);
    }
  }

  lemma RevokeCounts(s: State, step: Step)
    requires Enabled(s, step) && step.Revoke? && CountOk(ViewOf(s, step.o))
    ensures CountOk(ViewOf(Apply(s, step), step.o))
  {
  }

  lemma OtherCounts(s: State, step: Step, o: Obj)
    requires CountsOk(s) && Enabled(s, step) && o < |s.objs| && o != Target(s, step)
    ensures o < |Apply(s, step).objs| && CountOk(ViewOf(Apply(s, step), o))
  {
    assert CountOk(ViewOf(s, o));
    if step.Revoke? {
      assert ViewOf(Apply(s, step), o) == ViewOf(s, o);
    } else {
      StepIsLocal(s, step, o);
      OtherEntries(s, step, o);
      hide *;
      SameView(s, Apply(s, step), step.t, o);
    }
  }

  lemma StepKeepsCounts(s: State, step: Step)
    requires CountsOk(s) && Enabled(s, step) && Bounded(Apply(s, step))
    ensures CountsOk(Apply(s, step))
  {
    hide Apply, Enabled, CountOk, ViewOf, ShapeOk, Bounded, Target;
    var s' := Apply(s, step);
    ThreadsKept(s, step);
    TargetCounts(s, step);
    forall o | 0 <= o < |s'.objs|
      ensures CountOk(ViewOf(s', o))
    {
      if o != Target(s, step) {
        Grows(s, step, o);
        OtherCounts(s, step, o);
      }
    }
  }

  // Torn decisions

  /** The states of a run from the start, each within 32 bits. */
  ghost predicate IsRun(threads: nat, slots: nat, steps: seq<Step>, states: seq<State>) {
    && |states| == |steps| + 1 && states[0] == Init(threads, slots) && (forall i :: 0 <= i <= |steps| ==> Bounded(states[i]))
    && forall i :: 0 <= i < |steps| ==> Enabled(states[i], steps[i]) && states[i + 1] == Apply(states[i], steps[i])
  }

  /** Every run that can be executed within 32 bits has such states, and ends in the last. */
  lemma StatesOfRun(threads: nat, slots: nat, steps: seq<Step>) returns (states: seq<State>)
    requires Exec(Init(threads, slots), steps).Some? && Within32Bits(Init(threads, slots), steps)
    ensures IsRun(threads, slots, steps, states) && states[|steps|] == Exec(Init(threads, slots), steps).value
  {
    states := StatesFrom(Init(threads, slots), steps);
  }

  lemma {:induction false} StatesFrom(s: State, steps: seq<Step>) returns (states: seq<State>)
    requires Exec(s, steps).Some? && Within32Bits(s, steps)
    ensures |states| == |steps| + 1 && states[0] == s && states[|steps|] == Exec(s, steps).value
    ensures forall i :: 0 <= i <= |steps| ==> Bounded(states[i])
    ensures forall i :: 0 <= i < |steps| ==> Enabled(states[i], steps[i]) && states[i + 1] == Apply(states[i], steps[i])
    decreases |steps|
  {
    hide Bounded, Enabled, Apply;
    if steps == [] {
      states := [s];
    } else {
      var rest := StatesFrom(Apply(s, steps[0]), steps[1..]);
      states := [s] + rest;
      forall i | 0 <= i < |steps|
        ensures Enabled(states[i], steps[i]) && states[i + 1] == Apply(states[i], steps[i])
      {
        if i > 0 {
          assert steps[i] == steps[1..][i - 1] && states[i] == rest[i - 1] && states[i + 1] == rest[i];
        }
      }
    }
  }

  lemma {:induction false} RunKeepsCounts(threads: nat, slots: nat, steps: seq<Step>, states: seq<State>, i: nat)
    requires IsRun(threads, slots, steps, states) && i <= |steps|
    ensures CountsOk(states[i])
  {
    if i > 0 {
      RunKeepsCounts(threads, slots, steps, states, i - 1);
      hide CountsOk, Bounded, Enabled, Apply;
      assert Bounded(states[i]);
      StepKeepsCounts(states[i - 1], steps[i - 1]);
    }
  }

  /** The step is one of thread `t`. */
  predicate StepOf(step: Step, t: Tid) {
    !step.Revoke? && step.t == t
  }

  /** Thread `t` comes to hold an object's lock only by loading a reference count of zero. */
  lemma EntersLoaded(s: State, step: Step, t: Tid, o: Obj)
    requires Enabled(s, step) && t < |Apply(s, step).threads| && Apply(s, step).threads[t].pc == Loaded(o)
    ensures t < |s.threads|
    ensures StepOf(step, t) ==> step == LockAndLoad(t) && s.threads[t].pc == Checking(o) && o < |s.objs| && s.objs[o].refcount == 0
    ensures StepOf(step, t) ==> o < |Apply(s, step).objs| && Apply(s, step).objs[o].refcount == 0
    ensures !StepOf(step, t) ==> s.threads[t].pc == Loaded(o)
  {
    match step {
      case Create(_, _) =>
      case CreateFails(_) =>
      case Publish(_) =>
      case Ref(_, _) =>
      case Deref(_, _) =>
      case GrantFill(_, _, _, _) =>
      case GrantCount(_) =>
      case Close(_, _) =>
      case Lookup(_, _, _) =>
      case CloseCount(_) =>
      case LockAndLoad(_) =>
      case Decide(_) =>
      case RemoveId(_) =>
      case FreeMemory(_) =>
      case Revoke(_) =>
    }
  }

  /** The load behind a decision: since then thread `t` has not moved. */
  lemma {:induction false} FindLoad(threads: nat, slots: nat, steps: seq<Step>, states: seq<State>, n: nat, t: Tid, o: Obj) returns (i: nat)
    requires IsRun(threads, slots, steps, states) && n <= |steps| && t < |states[n].threads| && states[n].threads[t].pc == Loaded(o)
    ensures i < n && steps[i] == LockAndLoad(t) && o < |states[i].objs| && states[i].objs[o].refcount == 0
    ensures AtPc(states[i], t, Checking(o)) && o < |states[i + 1].objs| && states[i + 1].objs[o].refcount == 0
    ensures forall k :: i < k < n ==> !StepOf(steps[k], t)
    ensures forall k :: i < k <= n ==> AtPc(states[k], t, Loaded(o))
  {
    hide Bounded, Enabled, Apply;
    if n == 0 {
      assert false;
    } else {
      EntersLoaded(states[n - 1], steps[n - 1], t, o);
      if StepOf(steps[n - 1], t) {
        i := n - 1;
      } else {
        i := FindLoad(threads, slots, steps, states, n - 1, t, o);
      }
    }
  }

  /** Thread `step.t` is answered by a table entry for `o`, of the current generation and with the rights it asks for. */
  predicate GrantedLookup(s: State, step: Step, o: Obj) {
    && step.Lookup? && step.slot < |s.slots| && s.slots[step.slot].Entry? && s.slots[step.slot].obj == o < |s.objs|
    && s.slots[step.slot].generation == s.objs[o].generation && step.required <= s.slots[step.slot].rights
  }

  /** While nobody holds a reference to `o`, only a granted lookup can take one. */
  lemma FirstReference(s: State, step: Step, o: Obj)
    requires CountsOk(s) && Enabled(s, step) && o < |s.objs| && s.objs[o].refcount == 0
    requires o < |Apply(s, step).objs| && Apply(s, step).objs[o].refcount != 0
    ensures GrantedLookup(s, step, o) && Apply(s, step).objs[o].refcount == 1
    ensures step.t < |s.threads| == |Apply(s, step).threads|
    ensures Apply(s, step).threads[step.t].held[o] == s.threads[step.t].held[o] + 1
  {
    hide Refs, Count, Entries;
    assert CountOk(ViewOf(s, o));
    if (step.Ref? || step.Deref?) && step.o == o {
      HolderSeesLive(s, step.t, o);
      assert false;
    }
  }

  lemma ObjectsStay(s: State, step: Step, o: Obj)
    requires Enabled(s, step) && o < |s.objs|
    ensures o < |Apply(s, step).objs|
  {
  }

  lemma {:induction false} FindReference(threads: nat, slots: nat, steps: seq<Step>, states: seq<State>, i: nat, n: nat, o: Obj) returns (j: nat)
    requires IsRun(threads, slots, steps, states) && i <= n <= |steps| && o < |states[i].objs| && states[i].objs[o].refcount == 0
    requires o < |states[n].objs| && states[n].objs[o].refcount != 0
    ensures i <= j < n && GrantedLookup(states[j], steps[j], o)
    ensures states[j].objs[o].refcount == 0 && o < |states[j + 1].objs| && states[j + 1].objs[o].refcount == 1
    ensures steps[j].t < |states[j].threads| == |states[j + 1].threads|
    ensures states[j + 1].threads[steps[j].t].held[o] == states[j].threads[steps[j].t].held[o] + 1
    decreases n - i
  {
    hide Bounded, Enabled, Apply, CountsOk;
    ObjectsStay(states[i], steps[i], o);
    if states[i + 1].objs[o].refcount == 0 {
      j := FindReference(threads, slots, steps, states, i + 1, n, o);
    } else {
      j := i;
      RunKeepsCounts(threads, slots, steps, states, i);
      FirstReference(states[i], steps[i], o);
    }
  }

  lemma LookupsAreIdle(s: State, step: Step)
    requires Enabled(s, step) && step.Lookup?
    ensures AtPc(s, step.t, Idle)
  {
  }

  /**
   In every run, safe or not: when a thread decides on an object whose reference count is not zero, the count was zero when that thread
   loaded it, the thread has not moved since, and in between another thread took the first new reference through a table entry.
   */
  lemma DecisionNeedsLookup(threads: nat, slots: nat, steps: seq<Step>, states: seq<State>, n: nat, t: Tid) returns (i: nat, j: nat)
    requires IsRun(threads, slots, steps, states) && n < |steps| && steps[n] == Decide(t)
    requires states[n].objs[states[n].threads[t].pc.o].refcount != 0
    ensures var o := states[n].threads[t].pc.o;
      && i < j < n && steps[i] == LockAndLoad(t) && AtPc(states[i], t, Checking(o)) && o < |states[i].objs| && states[i].objs[o].refcount == 0
      && (forall k :: i < k < n ==> !StepOf(steps[k], t))
      && GrantedLookup(states[j], steps[j], o) && steps[j].t != t
      && states[j].objs[o].refcount == 0 && o < |states[j + 1].objs| && states[j + 1].objs[o].refcount == 1
      && steps[j].t < |states[j].threads| == |states[j + 1].threads|
      && states[j + 1].threads[steps[j].t].held[o] == states[j].threads[steps[j].t].held[o] + 1
  {
    var o := states[n].threads[t].pc.o;
    assert states[n].threads[t].pc == Loaded(o) && o < |states[n].objs|;
    i := FindLoad(threads, slots, steps, states, n, t, o);
    j := FindReference(threads, slots, steps, states, i + 1, n, o);
    assert Enabled(states[j], steps[j]);
    LookupsAreIdle(states[j], steps[j]);
    assert AtPc(states[j], t, Loaded(o));
  }

  // Each call on its own

  /** Only object `o` and thread `t` may differ; slots and ids are the same. */
  predicate OnlyHere(s: State, s': State, t: Tid, o: Obj) {
    && |s'.objs| == |s.objs| && (forall p :: 0 <= p < |s.objs| && p != o ==> s'.objs[p] == s.objs[p])
    && |s'.threads| == |s.threads| && (forall u :: 0 <= u < |s.threads| && u != t ==> s'.threads[u] == s.threads[u])
    && s'.slots == s.slots && s'.ids == s.ids && s'.nextId == s.nextId
  }

  /** `object_create`: a new object with one reference, held by its creator, and no handle, filed under a new id. */
  lemma CreateAlone(s: State, t: Tid, garbage: bool)
    requires AtPc(s, t, Idle)
    ensures var r := Exec(s, [Create(t, garbage), Publish(t)]);
      r.Some? && var s', o := r.value, |s.objs|;
      && |s'.objs| == o + 1 && s'.objs[..o] == s.objs
      && s'.objs[o].refcount == 1 && s'.objs[o].handleCount == 0 && s'.objs[o].generation == 0 && !s'.objs[o].locked
      && s'.objs[o].destroyed == garbage && s'.objs[o].marks == 0 && s'.objs[o].phase == Published && s'.objs[o].id == s.nextId
      && s'.ids == s.ids[s.nextId := o] && s'.nextId == Inc(s.nextId) && s'.slots == s.slots
      && s'.threads == s.threads[t := Thread(Idle, s.threads[t].held + multiset{o})]
  {
    var s1 := Apply(s, Create(t, garbage));
    OneStep(s1, Publish(t));
    Then(s, Create(t, garbage), [Publish(t)]);
    assert [Create(t, garbage), Publish(t)] == [Create(t, garbage)] + [Publish(t)];
    assert s1.threads[t].pc == Publishing(|s.objs|);
  }

  /** `object_create` whose callback fails: only the id and the memory are spent, and nobody refers to the object. */
  lemma FailAlone(s: State, t: Tid, garbage: bool)
    requires AtPc(s, t, Idle)
    ensures var r := Exec(s, [Create(t, garbage), CreateFails(t)]);
      r.Some? && var s', o := r.value, |s.objs|;
      && |s'.objs| == o + 1 && s'.objs[..o] == s.objs && s'.objs[o].phase == Failed && s'.nextId == Inc(s.nextId)
      && s'.ids == s.ids && s'.slots == s.slots && s'.threads == s.threads
  {
    var s1 := Apply(s, Create(t, garbage));
    OneStep(s1, CreateFails(t));
    Then(s, Create(t, garbage), [CreateFails(t)]);
    assert [Create(t, garbage), CreateFails(t)] == [Create(t, garbage)] + [CreateFails(t)];
    assert s.threads[t].held + multiset{|s.objs|} - multiset{|s.objs|} == s.threads[t].held;
    assert Apply(s1, CreateFails(t)).threads[t] == s.threads[t];
  }

  /** A revocation moves the object on to its next generation, which makes every entry of the present one stale. */
  lemma RevokeAlone(s: State, o: Obj)
    requires o < |s.objs| && s.objs[o].generation < U32
    ensures Enabled(s, Revoke(o)) && var s' := Apply(s, Revoke(o));
      && s' == s.(objs := s'.objs) && |s'.objs| == |s.objs| && (forall p :: 0 <= p < |s.objs| && p != o ==> s'.objs[p] == s.objs[p])
      && s'.objs[o] == s.objs[o].(generation := if s.objs[o].generation + 1 < U32 then s.objs[o].generation + 1 else 0)
  {
  }

  lemma OneStep(s: State, step: Step)
    requires Enabled(s, step)
    ensures Exec(s, [step]) == Some(Apply(s, step))
  {
    assert [step] == [step] + [];
    Then(s, step, []);
  }

  /** The slot holds an existing object. */
  predicate Filled(s: State, slot: nat) {
    slot < |s.slots| && s.slots[slot].Entry? && s.slots[slot].obj < |s.objs|
  }

  /** `object_ref`: one more reference, held by the caller. */
  lemma RefAlone(s: State, t: Tid, o: Obj)
    requires AtPc(s, t, Idle) && o < |s.objs| && o in s.threads[t].held && s.objs[o].refcount + 1 < U32
    ensures Enabled(s, Ref(t, o)) && var s' := Apply(s, Ref(t, o));
      && OnlyHere(s, s', t, o) && s'.objs[o] == s.objs[o].(refcount := s.objs[o].refcount + 1)
      && s'.threads[t] == Thread(Idle, s.threads[t].held + multiset{o})
  {
  }

  /** `object_deref`: one reference less; whoever gives back the last one goes on to the destroy check. */
  lemma DerefAlone(s: State, t: Tid, o: Obj)
    requires AtPc(s, t, Idle) && o < |s.objs| && o in s.threads[t].held && 0 < s.objs[o].refcount < U32
    ensures Enabled(s, Deref(t, o)) && var s' := Apply(s, Deref(t, o));
      && OnlyHere(s, s', t, o) && s'.objs[o] == s.objs[o].(refcount := s.objs[o].refcount - 1)
      && s'.threads[t] == Thread(if s.objs[o].refcount == 1 then Checking(o) else Idle, s.threads[t].held - multiset{o})
  {
  }

  /** `object_grant` into a free slot: the slot holds the object with the rights and its current generation, one more handle. */
  lemma GrantAlone(s: State, t: Tid, o: Obj, slot: nat, rights: Rights)
    requires AtPc(s, t, Idle) && o < |s.objs| && o in s.threads[t].held && s.objs[o].handleCount + 1 < U32
    requires slot < |s.slots| && s.slots[slot] == Empty
    ensures var r := Exec(s, [GrantFill(t, o, slot, rights), GrantCount(t)]);
      r.Some? && var s' := r.value;
      && OnlyHere(s.(slots := s'.slots), s', t, o) && s'.slots == s.slots[slot := Entry(o, rights, s.objs[o].generation)]
      && s'.objs[o] == s.objs[o].(handleCount := s.objs[o].handleCount + 1) && s'.threads[t] == s.threads[t]
  {
    var s1 := Apply(s, GrantFill(t, o, slot, rights));
    OneStep(s1, GrantCount(t));
    Then(s, GrantFill(t, o, slot, rights), [GrantCount(t)]);
    assert [GrantFill(t, o, slot, rights), GrantCount(t)] == [GrantFill(t, o, slot, rights)] + [GrantCount(t)];
  }

  /**
   `cap_lookup` of a filled slot: a stale entry is dropped, its handle about to be counted down; an entry with too few rights changes
   nothing; any other gives the caller a reference.
   */
  lemma LookupAlone(s: State, t: Tid, slot: nat, required: Rights)
    requires AtPc(s, t, Idle) && Filled(s, slot) && s.objs[s.slots[slot].obj].refcount + 1 < U32
    ensures Enabled(s, Lookup(t, slot, required)) &&
      var e, s', o := s.slots[slot], Apply(s, Lookup(t, slot, required)), s.slots[slot].obj;
      if s.objs[o].generation != e.generation then
        && OnlyHere(s.(slots := s'.slots), s', t, o) && s'.slots == s.slots[slot := Empty] && s'.objs == s.objs
        && s'.threads[t] == Thread(Closing(o), s.threads[t].held)
      else if !(required <= e.rights) then s' == s
      else
        && OnlyHere(s, s', t, o) && s'.objs[o] == s.objs[o].(refcount := s.objs[o].refcount + 1)
        && s'.threads[t] == Thread(Idle, s.threads[t].held + multiset{o})
  {
  }

  /** `object_close` up to the destroy check it ends in: the slot is free and there is one handle less. */
  lemma CloseAlone(s: State, t: Tid, slot: nat)
    requires AtPc(s, t, Idle) && Filled(s, slot) && 0 < s.objs[s.slots[slot].obj].handleCount < U32
    ensures var r, o := Exec(s, [Close(t, slot), CloseCount(t)]), s.slots[slot].obj;
      r.Some? && var s' := r.value;
      && OnlyHere(s.(slots := s'.slots), s', t, o) && s'.slots == s.slots[slot := Empty]
      && s'.objs[o] == s.objs[o].(handleCount := s.objs[o].handleCount - 1)
      && s'.threads[t] == Thread(Checking(o), s.threads[t].held)
  {
    var s1 := Apply(s, Close(t, slot));
    OneStep(s1, CloseCount(t));
    Then(s, Close(t, slot), [CloseCount(t)]);
    assert [Close(t, slot), CloseCount(t)] == [Close(t, slot)] + [CloseCount(t)];
  }

  /** Both counters are zero and the object does not say it is destroyed. */
  predicate Dead(obj: Object) {
    obj.refcount == 0 && obj.handleCount == 0 && !obj.destroyed
  }

  /**
   The check of `object_maybe_destroy`, uninterrupted, in any state: it marks the object if and only if both counters are zero and it was
   not destroyed; the decision is then never torn. Otherwise the object is as it was and the thread is done.
   */
  lemma CheckAlone(s: State, t: Tid, o: Obj)
    requires AtPc(s, t, Checking(o)) && o < |s.objs| && !s.objs[o].locked
    ensures Enabled(s, LockAndLoad(t)) && var s1 := Apply(s, LockAndLoad(t));
      var s2 := if Enabled(s1, Decide(t)) then Apply(s1, Decide(t)) else s1;
      && (Enabled(s1, Decide(t)) <==> s.objs[o].refcount == 0) && !Torn(s1, Decide(t))
      && OnlyHere(s, s2, t, o)
      && (s2.objs[o].marks == s.objs[o].marks + 1 <==> Dead(s.objs[o]))
      && (if Dead(s.objs[o])
          then s2.objs[o] == s.objs[o].(destroyed := true, marks := s.objs[o].marks + 1) && s2.threads[t] == s.threads[t].(pc := Destroying(o))
          else s2.objs[o] == s.objs[o] && s2.threads[t] == s.threads[t].(pc := Idle))
  {
  }

  /** The end of `object_maybe_destroy` for the thread that marked the object. */
  lemma RemoveAlone(s: State, t: Tid, o: Obj)
    requires AtPc(s, t, Destroying(o)) && o < |s.objs|
    ensures var r := Exec(s, [RemoveId(t), FreeMemory(t)]);
      r.Some? && var s' := r.value;
      && OnlyHere(s.(ids := s'.ids), s', t, o) && s'.ids == s.ids - {s.objs[o].id}
      && s'.objs[o] == s.objs[o].(phase := Freed) && s'.threads[t] == s.threads[t].(pc := Idle)
  {
    OneStep(Apply(s, RemoveId(t)), FreeMemory(t));
    Then(s, RemoveId(t), [FreeMemory(t)]);
    assert [RemoveId(t), FreeMemory(t)] == [RemoveId(t)] + [FreeMemory(t)];
  }

  lemma HereTwice(s: State, s1: State, s2: State, t: Tid, o: Obj)
    requires OnlyHere(s, s1, t, o) && OnlyHere(s1.(ids := s2.ids), s2, t, o)
    ensures OnlyHere(s.(ids := s2.ids), s2, t, o)
  {
  }

  /** And all of `object_maybe_destroy` on a dead object: it is marked, leaves the id table and is freed. */
  lemma DestroyAlone(s: State, t: Tid, o: Obj)
    requires AtPc(s, t, Checking(o)) && o < |s.objs| && !s.objs[o].locked && Dead(s.objs[o])
    ensures var r := Exec(s, [LockAndLoad(t), Decide(t), RemoveId(t), FreeMemory(t)]);
      r.Some? && var s' := r.value;
      && OnlyHere(s.(ids := s'.ids), s', t, o) && s'.ids == s.ids - {s.objs[o].id}
      && s'.objs[o] == s.objs[o].(destroyed := true, marks := s.objs[o].marks + 1, phase := Freed)
      && s'.threads[t] == s.threads[t].(pc := Idle)
  {
    hide Enabled, Apply, OnlyHere, Torn;
    CheckAlone(s, t, o);
    var s1 := Apply(s, LockAndLoad(t));
    var s2 := Apply(s1, Decide(t));
    RemoveAlone(s2, t, o);
    HereTwice(s, s2, Exec(s2, [RemoveId(t), FreeMemory(t)]).value, t, o);
    Then(s1, Decide(t), [RemoveId(t), FreeMemory(t)]);
    Then(s, LockAndLoad(t), [Decide(t)] + [RemoveId(t), FreeMemory(t)]);
    assert [LockAndLoad(t), Decide(t), RemoveId(t), FreeMemory(t)] == [LockAndLoad(t)] + ([Decide(t)] + [RemoveId(t), FreeMemory(t)]);
  }
}
