/**
 Safety of the scheduler in every reachable state: no thread in two places, queues and
 counters in agreement, exited threads gone for good.
 */
module SchedSafety {
  import opened RunQueue
  import opened SchedModel
  import opened Wrappers

  /** Replacing one CPU by another that is as well separated from the rest. */
  lemma ReplaceCpu(s: Sched, c: nat, cpu: Cpu, state: map<Tid, ThreadState>)
    requires Inv(s) && c < |s.cpus| && CpuOk(cpu)
    requires forall d :: 0 <= d < |s.cpus| && d != c ==> Apart(cpu, s.cpus[d]) && Apart(s.cpus[d], cpu)
    ensures Inv(Sched(s.cpus[c := cpu], state))
  {
    hide CpuOk, Apart;
  }

  /** A CPU that lost queue entries, or its current thread, is still separated from the others. */
  lemma LessIsFine(s: Sched, c: nat, cpu: Cpu, state: map<Tid, ThreadState>)
    requires Inv(s) && c < |s.cpus| && CpuOk(cpu)
    requires forall t :: t in cpu.queue ==> t in s.cpus[c].queue
    requires cpu.idle == s.cpus[c].idle
    requires cpu.current == None || cpu.current == s.cpus[c].current || cpu.current == Some(cpu.idle)
             || cpu.current.value in s.cpus[c].queue
    ensures Inv(Sched(s.cpus[c := cpu], state))
  {
    forall d | 0 <= d < |s.cpus| && d != c ensures Apart(cpu, s.cpus[d]) && Apart(s.cpus[d], cpu) {
      assert Apart(s.cpus[c], s.cpus[d]) && Apart(s.cpus[d], s.cpus[c]);
    }
    ReplaceCpu(s, c, cpu, state);
  }

  lemma DispatchKeeps(s: Sched, c: nat)
    requires Inv(s) && c < |s.cpus|
    ensures Inv(DispatchOn(s, c))
  {
    hide FirstRunnable, RotatedPast, Inv, StateOf;
    assert CpuOk(s.cpus[c]) by { CpusOk(s, c); }
    var cpu := s.cpus[c];
    var i := FirstRunnable(s.state, cpu.queue);
    if i < |cpu.queue| {
      var t := cpu.queue[i];
      RotatedMembers(cpu.queue, i);
      LessIsFine(s, c, cpu.(queue := RotatedPast(cpu.queue, i), current := Some(t), inThread := true), s.state[t := ON_CPU]);
    } else {
      LessIsFine(s, c, cpu.(current := Some(cpu.idle), inThread := true), s.state[cpu.idle := ON_CPU]);
    }
  }

  lemma CpusOk(s: Sched, c: nat)
    requires Inv(s) && c < |s.cpus|
    ensures CpuOk(s.cpus[c])
  {
  }

  lemma DropKeeps(s: Sched, c: nat, t: Tid, state: map<Tid, ThreadState>)
    requires Inv(s) && c < |s.cpus|
    ensures Inv(Sched(s.cpus[c := Dropped(s.cpus[c], t)], state))
    ensures t !in Dropped(s.cpus[c], t).queue && CpuOk(Dropped(s.cpus[c], t))
  {
    hide Inv, Removed;
    CpusOk(s, c);
    RemovedMembers(s.cpus[c].queue, t);
    LessIsFine(s, c, Dropped(s.cpus[c], t), state);
  }

  lemma ExitKeeps(s: Sched, c: nat)
    requires Inv(s) && c < |s.cpus|
    ensures Inv(ExitOn(s, c))
  {
    hide Inv, Removed;
    var cpu := s.cpus[c];
    if cpu.current.Some? && cpu.current != Some(cpu.idle) {
      var t := cpu.current.value;
      CpusOk(s, c);
      RemovedMembers(cpu.queue, t);
      LessIsFine(s, c, Dropped(cpu, t).(current := None, inThread := false), s.state[t := EXIT]);
    }
  }

  /** Pushing a thread that is in no queue and not current elsewhere. */
  lemma PushKeeps(s: Sched, c: nat, t: Tid, state: map<Tid, ThreadState>)
    requires Inv(s) && c < |s.cpus|
    requires forall d :: 0 <= d < |s.cpus| ==>
               t !in s.cpus[d].queue && s.cpus[d].idle != t && (d != c ==> s.cpus[d].current != Some(t))
    ensures Inv(Sched(s.cpus[c := Pushed(s.cpus[c], t)], state))
  {
    var cpu := Pushed(s.cpus[c], t);
    CpusOk(s, c);
    PushedMembers(s.cpus[c].queue, t);
    forall d | 0 <= d < |s.cpus| && d != c ensures Apart(cpu, s.cpus[d]) && Apart(s.cpus[d], cpu) {
      assert Apart(s.cpus[c], s.cpus[d]) && Apart(s.cpus[d], s.cpus[c]);
    }
    ReplaceCpu(s, c, cpu, state);
  }

  lemma MigrateKeeps(s: Sched, src: nat, dst: nat, t: Tid)
    requires Inv(s) && src < |s.cpus| && dst < |s.cpus|
    requires t in s.cpus[src].queue && s.cpus[src].current != Some(t)
    ensures Inv(Migrate(s, src, dst, t))
  {
    hide Inv, Dropped, Pushed;
    var s1 := WithCpu(s, src, Dropped(s.cpus[src], t));
    DropKeeps(s, src, t, s.state);
    forall d | 0 <= d < |s.cpus|
      ensures t !in s1.cpus[d].queue && s1.cpus[d].idle != t && (d != dst ==> s1.cpus[d].current != Some(t))
    {
      QueuedOnlyHere(s, src, d, t);
      DroppedKeeps(s.cpus[src], t);
    }
    PushKeeps(s1, dst, t, s1.state);
  }

  lemma DroppedKeeps(cpu: Cpu, t: Tid)
    ensures Dropped(cpu, t).idle == cpu.idle && Dropped(cpu, t).current == cpu.current
    ensures Dropped(cpu, t).started == cpu.started && Dropped(cpu, t).inThread == cpu.inThread
  {
  }

  /** A queued thread is in no other queue, current on no other CPU, and nobody's idle thread. */
  lemma QueuedOnlyHere(s: Sched, c: nat, d: nat, t: Tid)
    requires Inv(s) && c < |s.cpus| && d < |s.cpus| && t in s.cpus[c].queue
    ensures s.cpus[d].idle != t
    ensures d != c ==> t !in s.cpus[d].queue && s.cpus[d].current != Some(t)
  {
    assert CpuOk(s.cpus[c]);
    if d != c {
      assert Apart(s.cpus[c], s.cpus[d]) && Apart(s.cpus[d], s.cpus[c]);
    }
  }

  lemma BalanceKeeps(s: Sched)
    requires Inv(s)
    ensures Inv(BalanceAll(s))
  {
    hide Inv, Migrate, FirstMigratable, Most, Least;
    var (maxLoad, src) := Most(s.cpus, |s.cpus|);
    var (minLoad, dst) := Least(s.cpus, |s.cpus|);
    if (maxLoad - minLoad) % (UINT32_MAX + 1) >= LOAD_BALANCE_THRESHOLD && |s.cpus| > 0 {
      var cpu := s.cpus[src];
      var i := FirstMigratable(s, cpu, cpu.queue);
      if i < |cpu.queue| {
        MigrateKeeps(s, src, dst, cpu.queue[i]);
      }
    }
  }

  /** Every step keeps the invariant. */
  lemma StepKeeps(s: Sched, step: Step)
    requires Inv(s) && Enabled(s, step)
    ensures Inv(Apply(s, step))
  {
    hide Inv, Migrate, BalanceAll, DispatchOn, ExitOn, Least, Dropped, Pushed, Holder;
    match step
    case Dispatch(c) => DispatchKeeps(s, c);
    case Yield(c) => YieldKeeps(s, c);
    case IdleYield(c) => IdleYieldKeeps(s, c);
    case Exit(c) => ExitKeeps(s, c);
    case Add(t, c) => PushKeeps(s, c, t, s.state[t := RUNNABLE]);
    case AddAuto(t) => PushKeeps(s, Least(s.cpus, |s.cpus|).1, t, s.state[t := RUNNABLE]);
    case Remove(t) =>
      var d := Holder(s.cpus, t, 0);
      if d < |s.cpus| {
        DropKeeps(s, d, t, s.state);
      }
    case Balance => BalanceKeeps(s);
    case SetState(t, st) => StateIsFree(s, s.state[t := st]);
  }

  lemma StateIsFree(s: Sched, state: map<Tid, ThreadState>)
    requires Inv(s)
    ensures Inv(s.(state := state))
  {
  }

  lemma YieldKeeps(s: Sched, c: nat)
    requires Inv(s) && c < |s.cpus|
    ensures Inv(YieldOn(s, c))
  {
    hide Inv;
    CpusOk(s, c);
    var cpu := s.cpus[c];
    if cpu.current.Some? && cpu.current != Some(cpu.idle) {
      LessIsFine(s, c, cpu.(inThread := false), s.state[cpu.current.value := RUNNABLE]);
    }
  }

  lemma IdleYieldKeeps(s: Sched, c: nat)
    requires Inv(s) && c < |s.cpus|
    ensures Inv(WithCpu(s, c, s.cpus[c].(inThread := false)))
  {
    hide Inv;
    CpusOk(s, c);
    LessIsFine(s, c, s.cpus[c].(inThread := false), s.state);
  }

  /** The invariant holds after every legal run. */
  lemma {:induction false} RunKeeps(s: Sched, steps: seq<Step>)
    requires Inv(s) && Legal(s, steps)
    ensures Inv(After(s, steps))
    decreases steps
  {
    hide Inv, Apply, Enabled;
    if steps != [] {
      StepKeeps(s, steps[0]);
      RunKeeps(Apply(s, steps[0]), steps[1..]);
    }
  }

  // The running thread is in its own CPU's queue

  /** Every current thread, except idle threads and those in `removed`, is in the queue of its CPU. */
  ghost predicate OwnQueue(s: Sched, removed: set<Tid>) {
    forall c :: 0 <= c < |s.cpus| ==> AtHome(s.cpus[c], removed)
  }

  ghost predicate AtHome(cpu: Cpu, removed: set<Tid>) {
    cpu.current.Some? && cpu.current != Some(cpu.idle) && cpu.current.value !in removed ==>
      cpu.current.value in cpu.queue
  }

  /** The threads a run removed with `sched_remove_thread`. */
  function RemovedBy(steps: seq<Step>): set<Tid> {
    if steps == [] then {}
    else (if steps[0].Remove? then {steps[0].t} else {}) + RemovedBy(steps[1..])
  }

  lemma DispatchAtHome(s: Sched, c: nat, removed: set<Tid>)
    requires Inv(s) && c < |s.cpus|
    ensures AtHome(DispatchOn(s, c).cpus[c], removed)
  {
    hide FirstRunnable, StateOf, RotatedPast;
    var i := FirstRunnable(s.state, s.cpus[c].queue);
    if i < |s.cpus[c].queue| {
      RotatedMembers(s.cpus[c].queue, i);
    }
  }

  lemma DropAtHome(cpu: Cpu, t: Tid, removed: set<Tid>)
    requires CpuOk(cpu) && AtHome(cpu, removed) && (t in removed || cpu.current != Some(t))
    ensures AtHome(Dropped(cpu, t), removed)
  {
    hide Removed;
    RemovedMembers(cpu.queue, t);
  }

  lemma MigrateAtHome(s: Sched, src: nat, dst: nat, t: Tid, removed: set<Tid>)
    requires Inv(s) && OwnQueue(s, removed) && src < |s.cpus| && dst < |s.cpus| && s.cpus[src].current != Some(t)
    ensures OwnQueue(Migrate(s, src, dst, t), removed)
  {
    hide Inv, Dropped;
    CpusOk(s, src);
    DropAtHome(s.cpus[src], t, removed);
  }

  lemma StepAtHome(s: Sched, step: Step, removed: set<Tid>)
    requires Inv(s) && Enabled(s, step) && OwnQueue(s, removed) && (step.Remove? ==> step.t in removed)
    ensures OwnQueue(Apply(s, step), removed)
  {
    hide Inv, Migrate, DispatchOn, Least, Most, Dropped, Holder, FirstMigratable, Outside;
    match step
    case Dispatch(c) =>
      DispatchAtHome(s, c, removed);
      DispatchOthers(s, c);
    case Exit(c) =>
    case Remove(t) =>
      var d := Holder(s.cpus, t, 0);
      if d < |s.cpus| {
        CpusOk(s, d);
        DropAtHome(s.cpus[d], t, removed);
      }
    case Balance =>
      var (maxLoad, src) := Most(s.cpus, |s.cpus|);
      var (minLoad, dst) := Least(s.cpus, |s.cpus|);
      if |s.cpus| > 0 {
        var cpu := s.cpus[src];
        var i := FirstMigratable(s, cpu, cpu.queue);
        if i < |cpu.queue| {
          MigrateAtHome(s, src, dst, cpu.queue[i], removed);
        }
      }
    case _ =>
  }

  lemma DispatchOthers(s: Sched, c: nat)
    requires c < |s.cpus|
    ensures |DispatchOn(s, c).cpus| == |s.cpus|
    ensures forall d :: 0 <= d < |s.cpus| && d != c ==> DispatchOn(s, c).cpus[d] == s.cpus[d]
  {
    hide FirstRunnable, StateOf, RotatedPast;
  }

  lemma {:induction false} RunAtHome(s: Sched, steps: seq<Step>, removed: set<Tid>)
    requires Inv(s) && Legal(s, steps) && OwnQueue(s, removed)
    ensures OwnQueue(After(s, steps), removed + RemovedBy(steps))
    decreases steps
  {
    hide Inv, Apply, Enabled;
    if steps != [] {
      var more := removed + (if steps[0].Remove? then {steps[0].t} else {});
      assert OwnQueue(s, more);
      StepKeeps(s, steps[0]);
      StepAtHome(s, steps[0], more);
      RunAtHome(Apply(s, steps[0]), steps[1..], more);
      assert removed + RemovedBy(steps) == more + RemovedBy(steps[1..]);
    } else {
      assert removed + RemovedBy(steps) == removed;
    }
  }

  // The boot state, and what every reachable state looks like

  /** After `sched_init_cpu` on every CPU: empty queues, nothing current, one idle thread each. */
  ghost predicate Init(s: Sched) {
    && (forall c :: 0 <= c < |s.cpus| ==>
          s.cpus[c].queue == [] && s.cpus[c].load == 0 && s.cpus[c].current == None && !s.cpus[c].inThread)
    && (forall c, d :: 0 <= c < d < |s.cpus| ==> s.cpus[c].idle != s.cpus[d].idle)
  }

  lemma InitIsSafe(s: Sched)
    requires Init(s)
    ensures Inv(s) && OwnQueue(s, {})
  {
  }

  /**
   In every reachable state: no thread is current on two CPUs, each thread is in at most one queue and at
   most once, `num_threads` is the queue length, and a current thread is in its own CPU's queue unless it
   is an idle thread or was removed with `sched_remove_thread`.
   */
  lemma ReachableIsSafe(s0: Sched, steps: seq<Step>, c: nat, d: nat)
    requires Init(s0) && Legal(s0, steps)
    requires c < |After(s0, steps).cpus| && d < |After(s0, steps).cpus|
    ensures var s := After(s0, steps);
            && s.cpus[c].load == |s.cpus[c].queue| && Distinct(s.cpus[c].queue)
            && (c != d ==> forall t :: t in s.cpus[c].queue ==> t !in s.cpus[d].queue)
            && (c != d && s.cpus[c].current.Some? ==> s.cpus[c].current != s.cpus[d].current)
            && (s.cpus[c].current.Some? ==>
                  var t := s.cpus[c].current.value;
                  t == s.cpus[c].idle || t in RemovedBy(steps) || t in s.cpus[c].queue)
  {
    hide Legal, After, RemovedBy;
    InitIsSafe(s0);
    RunKeeps(s0, steps);
    RunAtHome(s0, steps, {});
    var s := After(s0, steps);
    assert CpuOk(s.cpus[c]);
    assert c != d ==> Apart(s.cpus[c], s.cpus[d]);
    assert AtHome(s.cpus[c], {} + RemovedBy(steps));
  }

  // Exiting is final

  /** After `sched_exit` the thread is in no queue and current nowhere: searching the local queue was enough. */
  lemma ExitRemovesEverywhere(s: Sched, c: nat)
    requires Inv(s) && c < |s.cpus| && s.cpus[c].current.Some? && s.cpus[c].current != Some(s.cpus[c].idle)
    ensures Outside(ExitOn(s, c), s.cpus[c].current.value)
    ensures StateOf(ExitOn(s, c).state, s.cpus[c].current.value) == EXIT
  {
    hide Removed;
    var t, s' := s.cpus[c].current.value, ExitOn(s, c);
    RemovedMembers(s.cpus[c].queue, t);
    forall d | 0 <= d < |s.cpus| ensures t !in s'.cpus[d].queue && s'.cpus[d].current != Some(t) && s'.cpus[d].idle != t {
      if d != c {
        assert Apart(s.cpus[c], s.cpus[d]) && Apart(s.cpus[d], s.cpus[c]);
      }
    }
  }

  predicate Adds(step: Step, t: Tid) {
    (step.Add? || step.AddAuto?) && step.t == t
  }

  lemma StepStaysOutside(s: Sched, step: Step, t: Tid)
    requires Inv(s) && Outside(s, t) && !Adds(step, t)
    ensures Outside(Apply(s, step), t)
  {
    hide Inv, FirstRunnable, FirstMigratable, Least, Most, StateOf, Removed, Position;
    match step
    case Dispatch(c) =>
      if c < |s.cpus| {
        var i := FirstRunnable(s.state, s.cpus[c].queue);
        if i < |s.cpus[c].queue| {
          RotatedMembers(s.cpus[c].queue, i);
        }
      }
    case Exit(c) =>
      if c < |s.cpus| && s.cpus[c].current.Some? {
        RemovedSubset(s.cpus[c].queue, s.cpus[c].current.value);
      }
    case Remove(u) =>
      var d := Holder(s.cpus, u, 0);
      if d < |s.cpus| {
        RemovedSubset(s.cpus[d].queue, u);
      }
    case Balance =>
      var (maxLoad, src) := Most(s.cpus, |s.cpus|);
      if |s.cpus| > 0 {
        var cpu := s.cpus[src];
        var i := FirstMigratable(s, cpu, cpu.queue);
        if i < |cpu.queue| {
          RemovedSubset(cpu.queue, cpu.queue[i]);
        }
      }
    case _ =>
  }

  lemma RemovedSubset(q: seq<Tid>, t: Tid)
    ensures forall u :: u in Removed(q, t) ==> u in q
  {
    hide Position;
  }

  /** A thread in no queue stays undispatched until it is added again. */
  lemma {:induction false} OutsideForever(s: Sched, steps: seq<Step>, t: Tid)
    requires Inv(s) && Legal(s, steps) && Outside(s, t)
    requires forall i :: 0 <= i < |steps| ==> !Adds(steps[i], t)
    ensures Outside(After(s, steps), t)
    decreases steps
  {
    hide Inv, Apply, Enabled, Outside;
    if steps != [] {
      StepKeeps(s, steps[0]);
      assert !Adds(steps[0], t);
      StepStaysOutside(s, steps[0], t);
      OutsideForever(Apply(s, steps[0]), steps[1..], t);
    }
  }

  /** Hence an exited thread is never current again, whatever is scheduled later. */
  lemma ExitIsFinal(s: Sched, c: nat, later: seq<Step>)
    requires Inv(s) && Enabled(s, Exit(c)) && s.cpus[c].current.Some? && s.cpus[c].current != Some(s.cpus[c].idle)
    requires Legal(Apply(s, Exit(c)), later)
    requires forall i :: 0 <= i < |later| ==> !Adds(later[i], s.cpus[c].current.value)
    ensures Outside(After(Apply(s, Exit(c)), later), s.cpus[c].current.value)
  {
    hide Inv, Outside, Legal, After, ExitOn;
    StepKeeps(s, Exit(c));
    ExitRemovesEverywhere(s, c);
    OutsideForever(Apply(s, Exit(c)), later, s.cpus[c].current.value);
  }
}
