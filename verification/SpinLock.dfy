/** `spin_lock` and `spin_unlock` as a protocol over one lock word, with atomic exchange, load and store as steps. */
module SpinLock {

  /** Swap: about to exchange 1 into the word. Watch: the word was taken, polling it. Inside: the lock is held. */
  datatype Pc = Outside | Swap | Watch | Inside

  datatype State = State(locked: nat, pcs: seq<Pc>)

  /** Call: enter `spin_lock`. Move: the next instruction of a thread that is in `spin_lock` or `spin_unlock`. */
  datatype Step = Call(t: nat) | Move(t: nat)

  predicate Enabled(s: State, step: Step) {
    step.t < |s.pcs| && (step.Call? <==> s.pcs[step.t] == Outside)
  }

  /**
   Both loops have this shape: on AArch64 an exchange that finds the word taken polls it and then exchanges again; on
   RISC-V the first exchange and each one after a load of zero do the same.
   */
  function Apply(s: State, step: Step): State
    requires Enabled(s, step)
  {
    var t := step.t;
    match s.pcs[t]
    case Outside => s.(pcs := s.pcs[t := Swap])
    case Swap => State(1, s.pcs[t := if s.locked == 0 then Inside else Watch])
    case Watch => s.(pcs := s.pcs[t := if s.locked == 0 then Swap else Watch])
    case Inside => State(0, s.pcs[t := Outside])
  }

  function Exec(s: State, steps: seq<Step>): State
  {
    if steps == [] then s
    else
      var s' := Exec(s, steps[..|steps| - 1]);
      var step := steps[|steps| - 1];
      if Enabled(s', step) then Apply(s', step) else s'
  }

  function Init(threads: nat): State {
    State(0, seq(threads, _ => Outside))
  }

  /** The word is 1 exactly while some thread is inside, and then only one is. */
  predicate Inv(s: State) {
    && s.locked <= 1
    && (s.locked == 0 ==> forall t :: 0 <= t < |s.pcs| ==> s.pcs[t] != Inside)
    && (s.locked == 1 ==> exists t :: 0 <= t < |s.pcs| && s.pcs[t] == Inside)
    && forall t, u :: 0 <= t < |s.pcs| && 0 <= u < |s.pcs| && s.pcs[t] == Inside && s.pcs[u] == Inside ==> t == u
  }

  lemma StepKeepsInv(s: State, step: Step)
    requires Inv(s) && Enabled(s, step)
    ensures Inv(Apply(s, step))
  {
    var s' := Apply(s, step);
    if s.pcs[step.t] == Swap && s.locked == 0 {
      assert s'.pcs[step.t] == Inside;
    } else if s.locked == 1 && s.pcs[step.t] != Inside {
      var h :| 0 <= h < |s.pcs| && s.pcs[h] == Inside;
      assert s'.pcs[h] == Inside;
    }
  }

  /** Mutual exclusion in every run of any number of threads. */
  lemma {:induction false} MutualExclusion(threads: nat, steps: seq<Step>, t: nat, u: nat)
    requires var s := Exec(Init(threads), steps);
      t < |s.pcs| && u < |s.pcs| && s.pcs[t] == Inside && s.pcs[u] == Inside
    ensures t == u
  {
    Reachable(threads, steps);
  }

  lemma {:induction false} Reachable(threads: nat, steps: seq<Step>)
    ensures Inv(Exec(Init(threads), steps)) && |Exec(Init(threads), steps).pcs| == threads
  {
    if steps != [] {
      Reachable(threads, steps[..|steps| - 1]);
      var s := Exec(Init(threads), steps[..|steps| - 1]);
      if Enabled(s, steps[|steps| - 1]) {
        StepKeepsInv(s, steps[|steps| - 1]);
      }
    }
  }

  predicate Waiting(s: State, t: nat) {
    t < |s.pcs| && (s.pcs[t] == Swap || s.pcs[t] == Watch)
  }

  /** With two consecutive steps of its own at most, thread `t` gets inside, and the word is taken. */
  predicate GetsIn(s: State, t: nat) {
    && Enabled(s, Move(t))
    && var s1 := Apply(s, Move(t));
       if s.pcs[t] == Swap then s1 == State(1, s.pcs[t := Inside])
       else Enabled(s1, Move(t)) && Apply(s1, Move(t)) == State(1, s.pcs[t := Inside])
  }

  /** The lock is never stuck: when nobody is inside, a waiting thread gets in with two consecutive steps of its own at most. */
  lemma FreeLockCanBeTaken(threads: nat, steps: seq<Step>, t: nat)
    requires var s := Exec(Init(threads), steps);
      (forall u :: 0 <= u < |s.pcs| ==> s.pcs[u] != Inside) && Waiting(s, t)
    ensures GetsIn(Exec(Init(threads), steps), t)
  {
    Reachable(threads, steps);
    var s := Exec(Init(threads), steps);
    if s.pcs[t] == Watch {
      assert s.pcs[t := Swap][t := Inside] == s.pcs[t := Inside];
    }
  }

  /** While a thread is inside, the others can only wait: no step of theirs changes the word or lets anybody in or out. */
  lemma HeldLockIsKept(threads: nat, steps: seq<Step>, t: nat, step: Step)
    requires var s := Exec(Init(threads), steps);
      t < |s.pcs| && s.pcs[t] == Inside && Enabled(s, step) && step.t != t
    ensures var s, s' := Exec(Init(threads), steps), Apply(Exec(Init(threads), steps), step);
      && s.locked == s'.locked == 1 && Waiting(s', step.t)
      && |s'.pcs| == |s.pcs| && forall u :: 0 <= u < |s.pcs| && u != step.t ==> s'.pcs[u] == s.pcs[u]
  {
    Reachable(threads, steps);
  }

  /** A thread that calls `spin_lock` starts waiting, and nothing else happens. */
  lemma CallWaits(threads: nat, steps: seq<Step>, t: nat)
    requires var s := Exec(Init(threads), steps); t < |s.pcs| && s.pcs[t] == Outside
    ensures var s := Exec(Init(threads), steps);
      Enabled(s, Call(t)) && Waiting(Apply(s, Call(t)), t)
      && Apply(s, Call(t)).locked == s.locked && Apply(s, Call(t)).pcs == s.pcs[t := Apply(s, Call(t)).pcs[t]]
  {
  }

  /**
   `spin_unlock`, in every reachable state: the thread that is inside leaves, the word is 0, every other thread stays where it was, and
   each one that was waiting now gets in with two steps of its own at most.
   */
  lemma UnlockFrees(threads: nat, steps: seq<Step>, t: nat)
    requires var s := Exec(Init(threads), steps); t < |s.pcs| && s.pcs[t] == Inside
    ensures var s := Exec(Init(threads), steps);
      Enabled(s, Move(t)) &&
      var s' := Exec(Init(threads), steps + [Move(t)]);
      && s'.locked == 0 && s'.pcs == s.pcs[t := Outside]
      && forall u: nat :: Waiting(s, u) ==> GetsIn(s', u)
  {
    Reachable(threads, steps);
    var s, after := Exec(Init(threads), steps), steps + [Move(t)];
    assert after[..|after| - 1] == steps;
    var s' := Exec(Init(threads), after);
    assert s' == Apply(s, Move(t));
    forall u: nat | Waiting(s, u)
      ensures GetsIn(s', u)
    {
      assert s'.pcs[u] == s.pcs[u];
      FreeLockCanBeTaken(threads, after, u);
    }
  }
}
