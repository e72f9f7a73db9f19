/** Runs of the object protocol: what holds in every reachable state, and two runs that show where the limits are. */
module ObjectRuns {
  import opened Machine
  import opened ObjectProtocol

  function Init(threads: nat, slots: nat): State {
    State([], seq(slots, _ => Empty), seq(threads, _ => Thread(Idle, multiset{})), map[], 1)
  }

  /** The state after `steps`, when each of them can be taken. */
  function Exec(s: State, steps: seq<Step>): Option<State>
    decreases |steps|
  {
    if steps == [] then Some(s)
    else if !Enabled(s, steps[0]) then None
    else Exec(Apply(s, steps[0]), steps[1..])
  }

  /** No destroy decision of the run is torn, and no counter of the run outgrows 32 bits. */
  predicate Calm(s: State, steps: seq<Step>)
    decreases |steps|
  {
    && Bounded(s)
    && (steps != [] && Enabled(s, steps[0]) ==> !Torn(s, steps[0]) && Calm(Apply(s, steps[0]), steps[1..]))
  }

  lemma {:induction false} CalmKeepsInv(s: State, steps: seq<Step>)
    requires Inv(s) && Calm(s, steps) && Exec(s, steps).Some?
    ensures Inv(Exec(s, steps).value) && Bounded(Exec(s, steps).value)
    decreases |steps|
  {
    hide Inv, Bounded, Torn, Apply, Enabled;
    if steps != [] {
      CalmBounded(Apply(s, steps[0]), steps[1..]);
      CalmBounded(s, steps);
      StepKeepsInv(s, steps[0]);
      CalmKeepsInv(Apply(s, steps[0]), steps[1..]);
    }
  }

  lemma CalmBounded(s: State, steps: seq<Step>)
    requires Calm(s, steps)
    ensures Bounded(s)
  {
  }

  /** The invariant holds in every state a calm run can reach. */
  lemma Reachable(threads: nat, slots: nat, steps: seq<Step>)
    requires Calm(Init(threads, slots), steps) && Exec(Init(threads, slots), steps).Some?
    ensures Inv(Exec(Init(threads, slots), steps).value) && Bounded(Exec(Init(threads, slots), steps).value)
  {
    assert Inv(Init(threads, slots));
    CalmKeepsInv(Init(threads, slots), steps);
  }

  /** Nobody can reach `o`: no reference, no table entry, no grant or close in flight, both counters zero. */
  predicate Unreachable(s: State, o: Obj)
    requires o < |s.objs|
  {
    && s.objs[o].refcount == 0 && s.objs[o].handleCount == 0
    && (forall t :: 0 <= t < |s.threads| ==> o !in s.threads[t].held && s.threads[t].pc != Granting(o) && s.threads[t].pc != Closing(o))
    && forall k :: 0 <= k < |s.slots| ==> s.slots[k] == Empty || s.slots[k].obj != o
  }

  lemma NoneCounted(s: State, o: Obj)
    requires o < |s.objs|
    ensures Refs(s.threads, o) == 0 ==> forall t :: 0 <= t < |s.threads| ==> o !in s.threads[t].held
    ensures Count(s.threads, Granting(o)) == 0 ==> forall t :: 0 <= t < |s.threads| ==> s.threads[t].pc != Granting(o)
    ensures Count(s.threads, Closing(o)) == 0 ==> forall t :: 0 <= t < |s.threads| ==> s.threads[t].pc != Closing(o)
    ensures Entries(s.slots, o) == 0 ==> forall k :: 0 <= k < |s.slots| ==> s.slots[k] == Empty || s.slots[k].obj != o
  {
    hide Refs, Count, Entries;
    forall t | 0 <= t < |s.threads|
      ensures Refs(s.threads, o) == 0 ==> o !in s.threads[t].held
      ensures Count(s.threads, Granting(o)) == 0 ==> s.threads[t].pc != Granting(o)
      ensures Count(s.threads, Closing(o)) == 0 ==> s.threads[t].pc != Closing(o)
    {
      RefsUpdate(s.threads, t, s.threads[t], o);
      CountUpdate(s.threads, t, s.threads[t], Granting(o));
      CountUpdate(s.threads, t, s.threads[t], Closing(o));
    }
    forall k | 0 <= k < |s.slots|
      ensures Entries(s.slots, o) == 0 ==> s.slots[k] == Empty || s.slots[k].obj != o
    {
      EntriesUpdate(s.slots, k, s.slots[k], o);
    }
  }

  /** Safety: an object whose destruction has begun is unreachable, and its destruction has begun only once. */
  lemma DestroyedIsUnreachable(threads: nat, slots: nat, steps: seq<Step>, o: Obj)
    requires Calm(Init(threads, slots), steps) && Exec(Init(threads, slots), steps).Some?
    requires var s := Exec(Init(threads, slots), steps).value; o < |s.objs| && 0 < s.objs[o].marks
    ensures var s := Exec(Init(threads, slots), steps).value; s.objs[o].marks == 1 && Unreachable(s, o)
  {
    var s := Exec(Init(threads, slots), steps).value;
    Reachable(threads, slots, steps);
    assert ObjOk(ViewOf(s, o));
    NoneCounted(s, o);
  }

  /** Every object marked destroyed was marked once and is unreachable. */
  predicate SafeState(s: State) {
    forall o :: 0 <= o < |s.objs| && 0 < s.objs[o].marks ==> s.objs[o].marks == 1 && Unreachable(s, o)
  }

  predicate AlwaysSafe(s: State, steps: seq<Step>)
    decreases |steps|
  {
    SafeState(s) && (steps != [] && Enabled(s, steps[0]) ==> AlwaysSafe(Apply(s, steps[0]), steps[1..]))
  }

  predicate NeverTorn(s: State, steps: seq<Step>)
    decreases |steps|
  {
    steps != [] && Enabled(s, steps[0]) ==> !Torn(s, steps[0]) && NeverTorn(Apply(s, steps[0]), steps[1..])
  }

  predicate Within32Bits(s: State, steps: seq<Step>)
    decreases |steps|
  {
    Bounded(s) && (steps != [] && Enabled(s, steps[0]) ==> Within32Bits(Apply(s, steps[0]), steps[1..]))
  }

  lemma {:induction false} CalmIsNeverTorn(s: State, steps: seq<Step>)
    ensures Calm(s, steps) <==> Within32Bits(s, steps) && NeverTorn(s, steps)
    decreases |steps|
  {
    hide Bounded, Torn, Apply, Enabled;
    if steps != [] && Enabled(s, steps[0]) {
      CalmIsNeverTorn(Apply(s, steps[0]), steps[1..]);
    }
  }

  lemma InvIsSafe(s: State)
    requires Inv(s)
    ensures SafeState(s)
  {
    hide Refs, Count, Entries;
    forall o | 0 <= o < |s.objs| && 0 < s.objs[o].marks
      ensures s.objs[o].marks == 1 && Unreachable(s, o)
    {
      assert ObjOk(ViewOf(s, o));
      NoneCounted(s, o);
    }
  }

  lemma TornIsUnsafe(s: State, step: Step)
    requires Torn(s, step)
    ensures !SafeState(Apply(s, step))
  {
    var o := s.threads[step.t].pc.o;
    assert 0 < Apply(s, step).objs[o].marks && !Unreachable(Apply(s, step), o);
  }

  lemma {:induction false} SafeFrom(s: State, steps: seq<Step>)
    requires Inv(s) && Within32Bits(s, steps) && Exec(s, steps).Some?
    ensures AlwaysSafe(s, steps) <==> NeverTorn(s, steps)
    decreases |steps|
  {
    hide Inv, Bounded, Torn, Apply, Enabled, SafeState;
    InvIsSafe(s);
    if steps != [] {
      WithinBounded(Apply(s, steps[0]), steps[1..]);
      if Torn(s, steps[0]) {
        TornIsUnsafe(s, steps[0]);
      } else {
        StepKeepsInv(s, steps[0]);
        SafeFrom(Apply(s, steps[0]), steps[1..]);
      }
    }
  }

  lemma WithinBounded(s: State, steps: seq<Step>)
    requires Within32Bits(s, steps)
    ensures Bounded(s)
  {
  }

  /**
   Safety, exactly: a run marks no object that is reachable, and none twice, if and only if none of its destroy decisions is torn.
   */
  lemma SafeExactly(threads: nat, slots: nat, steps: seq<Step>)
    requires Within32Bits(Init(threads, slots), steps) && Exec(Init(threads, slots), steps).Some?
    ensures AlwaysSafe(Init(threads, slots), steps) <==> NeverTorn(Init(threads, slots), steps)
    ensures NeverTorn(Init(threads, slots), steps) <==> Calm(Init(threads, slots), steps)
  {
    assert Inv(Init(threads, slots));
    SafeFrom(Init(threads, slots), steps);
    CalmIsNeverTorn(Init(threads, slots), steps);
  }

  /** No step takes an object whose destruction has begun back: it stays marked. */
  lemma {:induction false} DestroyedForEver(s: State, steps: seq<Step>, o: Obj)
    requires Inv(s) && Calm(s, steps) && Exec(s, steps).Some? && o < |s.objs| && s.objs[o].marks == 1
    ensures o < |Exec(s, steps).value.objs| && Exec(s, steps).value.objs[o].marks == 1
    ensures Unreachable(Exec(s, steps).value, o)
    decreases |steps|
  {
    if steps == [] {
      assert ObjOk(ViewOf(s, o));
      NoneCounted(s, o);
    } else {
      var s' := Apply(s, steps[0]);
      assert o < |s'.objs| && s'.objs[o].marks == 1 by {
        MarksKept(s, steps[0], o);
      }
      hide Inv, Apply, Enabled, Unreachable, Torn, Bounded;
      CalmBounded(s', steps[1..]);
      CalmBounded(s, steps);
      StepKeepsInv(s, steps[0]);
      DestroyedForEver(s', steps[1..], o);
    }
  }

  lemma MarksKept(s: State, step: Step, o: Obj)
    requires Inv(s) && Enabled(s, step) && o < |s.objs| && s.objs[o].marks == 1
    ensures o < |Apply(s, step).objs| && Apply(s, step).objs[o].marks == 1
  {
    hide Refs, Count, Entries;
    assert ObjOk(ViewOf(s, o));
  }

  /** Destruction is not lost: a published object that nothing counts any more, not yet destroyed, has a check under way. */
  lemma DestructionIsDue(threads: nat, slots: nat, steps: seq<Step>, o: Obj) returns (t: Tid)
    requires Calm(Init(threads, slots), steps) && Exec(Init(threads, slots), steps).Some?
    requires var s := Exec(Init(threads, slots), steps).value;
      && o < |s.objs| && s.objs[o].phase == Published && !s.objs[o].destroyed
      && s.objs[o].refcount == 0 && s.objs[o].handleCount == 0
    ensures var s := Exec(Init(threads, slots), steps).value;
      t < |s.threads| && (s.threads[t].pc == Checking(o) || s.threads[t].pc == Loaded(o))
  {
    var s := Exec(Init(threads, slots), steps).value;
    Reachable(threads, slots, steps);
    assert ObjOk(ViewOf(s, o));
    if 0 < Count(s.threads, Checking(o)) {
      t := SomeThreadAt(s.threads, Checking(o));
    } else {
      t := SomeThreadAt(s.threads, Loaded(o));
    }
  }

  predicate Quiescent(s: State) {
    forall t :: 0 <= t < |s.threads| ==> s.threads[t].pc == Idle
  }

  lemma {:induction false} QuiescentCount(ts: seq<Thread>, pc: Pc)
    requires pc != Idle && forall t :: 0 <= t < |ts| ==> ts[t].pc == Idle
    ensures Count(ts, pc) == 0
  {
    if ts != [] {
      QuiescentCount(ts[..|ts| - 1], pc);
    }
  }

  /**
   With no call in progress, an object that was created is freed exactly when nothing refers to it and its memory did not
   already say `destroyed` when it was created; and the id table holds exactly the created objects that are not freed.
   */
  lemma QuiescentStates(threads: nat, slots: nat, steps: seq<Step>, o: Obj)
    requires Calm(Init(threads, slots), steps) && Exec(Init(threads, slots), steps).Some?
    requires var s := Exec(Init(threads, slots), steps).value; Quiescent(s) && o < |s.objs| && s.objs[o].phase != Failed
    ensures var s := Exec(Init(threads, slots), steps).value;
      && (s.objs[o].phase == Freed <==> Unreachable(s, o) && !s.objs[o].bornDestroyed)
      && (s.objs[o].phase == Freed || s.objs[o].phase == Published)
      && (s.objs[o].phase == Published <==> o + 1 in s.ids && s.ids[o + 1] == o)
  {
    var s := Exec(Init(threads, slots), steps).value;
    Reachable(threads, slots, steps);
    assert ObjOk(ViewOf(s, o));
    QuiescentCount(s.threads, Publishing(o));
    QuiescentCount(s.threads, Checking(o));
    QuiescentCount(s.threads, Loaded(o));
    QuiescentCount(s.threads, Destroying(o));
    QuiescentCount(s.threads, Freeing(o));
    NoneCounted(s, o);
  }

  lemma Then(s: State, step: Step, rest: seq<Step>)
    requires Enabled(s, step)
    ensures Exec(s, [step] + rest) == Exec(Apply(s, step), rest)
  {
    assert ([step] + rest)[1..] == rest;
  }

  /** An object with one table entry and no reference, whose last owner has entered the destroy check. */
  function AfterDeref(): State {
    State([Object(0, 1, 0, 1, false, false, false, 0, Published)], [Entry(0, {}, 0)],
          [Thread(Checking(0), multiset{}), Thread(Idle, multiset{})], map[1 := 0], 2)
  }

  /** Thread 0 creates an object, grants it a handle and drops its reference. */
  lemma ReachAfterDeref(rest: seq<Step>) returns (steps: seq<Step>)
    ensures Exec(Init(2, 1), steps) == Exec(AfterDeref(), rest)
  {
    var none: Rights := {};
    var s0 := Init(2, 1);
    assert s0.slots == [Empty] && s0.threads == [Thread(Idle, multiset{}), Thread(Idle, multiset{})];
    var s1 := Apply(s0, Create(0, false));
    var s2 := Apply(s1, Publish(0));
    var s3 := Apply(s2, GrantFill(0, 0, 0, none));
    var s4 := Apply(s3, GrantCount(0));
    var r4 := [Deref(0, 0)] + rest;
    var r3 := [GrantCount(0)] + r4;
    var r2 := [GrantFill(0, 0, 0, none)] + r3;
    var r1 := [Publish(0)] + r2;
    steps := [Create(0, false)] + r1;
    assert Apply(s4, Deref(0, 0)) == AfterDeref();
    Then(s4, Deref(0, 0), rest);
    Then(s3, GrantCount(0), r4);
    Then(s2, GrantFill(0, 0, 0, none), r3);
    Then(s1, Publish(0), r2);
    Then(s0, Create(0, false), r1);
  }

  /**
   A torn decision is wrong: a lookup and a close between the two loads let the check destroy an object that another thread holds a
   reference to.
   */
  lemma CheckCanBeFooled() returns (steps: seq<Step>)
    ensures Exec(Init(2, 1), steps).Some?
    ensures var s := Exec(Init(2, 1), steps).value;
      |s.objs| == 1 && s.objs[0].marks == 1 && s.objs[0].refcount == 1 && |s.threads| == 2 && 0 in s.threads[1].held
  {
    var s0 := AfterDeref();
    var s1 := Apply(s0, LockAndLoad(0));
    var s2 := Apply(s1, ObjectProtocol.Step.Lookup(1, 0, {}));
    var s3 := Apply(s2, Close(1, 0));
    var s4 := Apply(s3, CloseCount(1));
    var r4 := [Decide(0)];
    var r3 := [CloseCount(1)] + r4;
    var r2 := [Close(1, 0)] + r3;
    var r1 := [ObjectProtocol.Step.Lookup(1, 0, {})] + r2;
    Then(s4, Decide(0), []);
    assert r4 == [Decide(0)] + [];
    Then(s3, CloseCount(1), r4);
    Then(s2, Close(1, 0), r3);
    Then(s1, ObjectProtocol.Step.Lookup(1, 0, {}), r2);
    Then(s0, LockAndLoad(0), r1);
    steps := ReachAfterDeref([LockAndLoad(0)] + r1);
  }

  /** Even in calm runs a thread that has entered the check of an object can be left there until another has freed the object. */
  lemma CheckAfterFree() returns (steps: seq<Step>)
    ensures Exec(Init(2, 1), steps).Some?
    ensures var s := Exec(Init(2, 1), steps).value;
      |s.objs| == 1 && s.objs[0].phase == Freed && |s.threads| == 2 && s.threads[0].pc == Checking(0)
  {
    hide Enabled, Apply, Init;
    var rest := MarkThenFree();
    steps := CloseAfterDeref(rest);
  }

  /** The other thread has closed the last handle and marked the object. */
  function AfterMark(): State {
    State([Object(0, 0, 0, 1, false, true, false, 1, Published)], [Empty],
          [Thread(Checking(0), multiset{}), Thread(Destroying(0), multiset{})], map[1 := 0], 2)
  }

  lemma CloseAfterDeref(rest: seq<Step>) returns (steps: seq<Step>)
    ensures Exec(Init(2, 1), steps) == Exec(AfterMark(), rest)
  {
    var s0 := AfterDeref();
    var s1 := Apply(s0, Close(1, 0));
    var s2 := Apply(s1, CloseCount(1));
    var s3 := Apply(s2, LockAndLoad(1));
    var r3 := [Decide(1)] + rest;
    var r2 := [LockAndLoad(1)] + r3;
    var r1 := [CloseCount(1)] + r2;
    assert Apply(s3, Decide(1)) == AfterMark();
    Then(s3, Decide(1), rest);
    Then(s2, LockAndLoad(1), r3);
    Then(s1, CloseCount(1), r2);
    Then(s0, Close(1, 0), r1);
    steps := ReachAfterDeref([Close(1, 0)] + r1);
  }

  lemma MarkThenFree() returns (steps: seq<Step>)
    ensures Exec(AfterMark(), steps).Some?
    ensures var s := Exec(AfterMark(), steps).value;
      |s.objs| == 1 && s.objs[0].phase == Freed && |s.threads| == 2 && s.threads[0].pc == Checking(0)
  {
    var s1 := Apply(AfterMark(), RemoveId(1));
    assert [FreeMemory(1)] == [FreeMemory(1)] + [];
    Then(s1, FreeMemory(1), []);
    Then(AfterMark(), RemoveId(1), [FreeMemory(1)]);
    steps := [RemoveId(1)] + [FreeMemory(1)];
  }

  /** The late thread may even hold the freed object's lock, about to decide on its fields. */
  lemma LockAfterFree() returns (steps: seq<Step>)
    ensures Exec(Init(2, 1), steps).Some?
    ensures var s := Exec(Init(2, 1), steps).value;
      |s.objs| == 1 && s.objs[0].phase == Freed && |s.threads| == 2 && s.threads[0].pc == Loaded(0)
  {
    hide Init;
    var s1 := Apply(AfterMark(), LockAndLoad(0));
    var s2 := Apply(s1, RemoveId(1));
    var r2 := [FreeMemory(1)];
    var r1 := [RemoveId(1)] + r2;
    assert r2 == [FreeMemory(1)] + [];
    Then(s2, FreeMemory(1), []);
    Then(s1, RemoveId(1), r2);
    Then(AfterMark(), LockAndLoad(0), r1);
    steps := CloseAfterDeref([LockAndLoad(0)] + r1);
  }

  /** The threads in the destroy check of `o`: those at its door and the one that holds the object's lock. */
  function InCheck(s: State, o: Obj): nat {
    Count(s.threads, Checking(o)) + Count(s.threads, Loaded(o))
  }

  /** Once destruction has begun no further thread enters the check, so the late ones are those already in it. */
  lemma NoNewChecks(s: State, step: Step, o: Obj)
    requires Inv(s) && Bounded(s) && Enabled(s, step) && o < |s.objs| && s.objs[o].marks == 1
    ensures InCheck(Apply(s, step), o) <= InCheck(s, o)
  {
    hide Refs, Count, Entries;
    assert ObjOk(ViewOf(s, o));
    NoneCounted(s, o);
    if !step.Revoke? {
      var th := Apply(s, step).threads[step.t];
      assert Apply(s, step).threads == s.threads[step.t := th];
      CountUpdate(s.threads, step.t, th, Checking(o));
      CountUpdate(s.threads, step.t, th, Loaded(o));
    }
  }

  /** So in a calm run the threads in the check are never more than when destruction began. */
  lemma {:induction false} LateChecksOnlyShrink(s: State, steps: seq<Step>, o: Obj)
    requires Inv(s) && Calm(s, steps) && Exec(s, steps).Some? && o < |s.objs| && s.objs[o].marks == 1
    ensures InCheck(Exec(s, steps).value, o) <= InCheck(s, o)
    decreases |steps|
  {
    if steps != [] {
      NoNewChecks(s, steps[0], o);
      MarksKept(s, steps[0], o);
      CalmBounded(Apply(s, steps[0]), steps[1..]);
      CalmBounded(s, steps);
      StepKeepsInv(s, steps[0]);
      hide Inv, Apply, Enabled, Bounded, Torn, InCheck;
      LateChecksOnlyShrink(Apply(s, steps[0]), steps[1..], o);
    }
  }

  /** A thread's move from one place to another that is not about references keeps the counters within bounds. */
  lemma MoveKeepsBounds(s: State, s': State, t: Tid)
    requires Bounded(s) && t < |s.threads| && t < |s'.threads| && s'.threads == s.threads[t := s'.threads[t]]
    requires |s'.objs| == |s.objs| && s'.slots == s.slots && s'.threads[t].held == s.threads[t].held
    ensures Bounded(s')
  {
    forall o | 0 <= o < |s'.objs|
      ensures Refs(s'.threads, o) < U32
    {
      RefsUpdate(s.threads, t, s'.threads[t], o);
    }
  }

  /** A calm continuation that finishes the destruction of `o` and moves no thread that is in its check. */
  lemma FinishDestruction(s: State, o: Obj) returns (steps: seq<Step>)
    requires Inv(s) && Bounded(s) && o < |s.objs| && s.objs[o].marks == 1
    ensures Calm(s, steps) && Exec(s, steps).Some?
    ensures var s' := Exec(s, steps).value;
      o < |s'.objs| && s'.objs[o].phase == Freed && InCheck(s', o) == InCheck(s, o)
  {
    hide Refs, Count, Entries, ThreadOk, IdsOk;
    assert ObjOk(ViewOf(s, o));
    if s.objs[o].phase == Published {
      var t := SomeThreadAt(s.threads, Destroying(o));
      var s1 := Apply(s, RemoveId(t));
      CountUpdate(s.threads, t, s1.threads[t], Checking(o));
      CountUpdate(s.threads, t, s1.threads[t], Loaded(o));
      MoveKeepsBounds(s, s1, t);
      FreeNow(s1, t, o);
      steps := [RemoveId(t), FreeMemory(t)];
      assert steps == [RemoveId(t)] + [FreeMemory(t)];
      Then(s, RemoveId(t), [FreeMemory(t)]);
      assert steps[1..] == [FreeMemory(t)];
    } else if s.objs[o].phase == Removed {
      var t := SomeThreadAt(s.threads, Freeing(o));
      FreeNow(s, t, o);
      steps := [FreeMemory(t)];
    } else {
      steps := [];
    }
  }

  lemma FreeNow(s: State, t: Tid, o: Obj)
    requires Bounded(s) && AtPc(s, t, Freeing(o)) && o < |s.objs|
    ensures Calm(s, [FreeMemory(t)]) && Exec(s, [FreeMemory(t)]).Some?
    ensures var s' := Exec(s, [FreeMemory(t)]).value;
      o < |s'.objs| && s'.objs[o].phase == Freed && InCheck(s', o) == InCheck(s, o)
  {
    hide Bounded, Count;
    var s' := Apply(s, FreeMemory(t));
    assert [FreeMemory(t)] == [FreeMemory(t)] + [];
    Then(s, FreeMemory(t), []);
    assert [FreeMemory(t)][1..] == [];
    CountUpdate(s.threads, t, s'.threads[t], Checking(o));
    CountUpdate(s.threads, t, s'.threads[t], Loaded(o));
    MoveKeepsBounds(s, s', t);
  }

  /**
   Checks of freed memory, exactly: once the destruction of `o` has begun, some calm continuation leaves a thread in the check of the
   freed object, at its door or with its lock held, if and only if a thread is in the check already.
   */
  lemma LateCheckExactly(s: State, o: Obj)
    requires Inv(s) && Bounded(s) && o < |s.objs| && s.objs[o].marks == 1
    ensures (exists steps :: LeavesLateCheck(s, steps, o)) <==> 0 < InCheck(s, o)
  {
    hide Inv, Calm, Bounded, InCheck;
    forall steps | LeavesLateCheck(s, steps, o)
      ensures 0 < InCheck(s, o)
    {
      LateChecksOnlyShrink(s, steps, o);
    }
    if 0 < InCheck(s, o) {
      var steps := FinishDestruction(s, o);
      assert LeavesLateCheck(s, steps, o);
    }
  }

  predicate LeavesLateCheck(s: State, steps: seq<Step>, o: Obj) {
    && Calm(s, steps) && Exec(s, steps).Some?
    && var s' := Exec(s, steps).value; o < |s'.objs| && s'.objs[o].phase == Freed && 0 < InCheck(s', o)
  }

  /** Step `step` marks `o` destroyed. */
  predicate Marks(s: State, step: Step, o: Obj) {
    && Enabled(s, step) && step.Decide? && o < |s.objs| && s.threads[step.t].pc == Loaded(o)
    && s.objs[o].marks == 0 && Apply(s, step).objs[o].marks == 1
  }

  /** The thread that marks an object held its lock alone, so only threads at the door are left in the check. */
  lemma MarkingLeavesTheDoor(s: State, step: Step, o: Obj)
    requires Inv(s) && Marks(s, step, o)
    ensures Count(Apply(s, step).threads, Loaded(o)) == 0
    ensures InCheck(Apply(s, step), o) == Count(s.threads, Checking(o))
  {
    hide Refs, Count, Entries;
    assert ObjOk(ViewOf(s, o));
    var th := Apply(s, step).threads[step.t];
    assert Apply(s, step).threads == s.threads[step.t := th];
    CountUpdate(s.threads, step.t, th, Checking(o));
    CountUpdate(s.threads, step.t, th, Loaded(o));
  }

  /** Seen from the marking: a freed object can be checked exactly when another thread is at the door as it is marked. */
  lemma LateFromMarkingExactly(s: State, step: Step, o: Obj)
    requires Inv(s) && Bounded(s) && Marks(s, step, o) && !Torn(s, step) && Bounded(Apply(s, step))
    ensures (exists steps :: LeavesLateCheck(Apply(s, step), steps, o)) <==> 0 < Count(s.threads, Checking(o))
  {
    hide Inv, Bounded, Torn, InCheck, LeavesLateCheck, Count;
    MarkingLeavesTheDoor(s, step, o);
    StepKeepsInv(s, step);
    LateCheckExactly(Apply(s, step), o);
  }
}
