/**
 What thread states and queues record over whole runs: ON_CPU marks exactly the running
 threads, and threads enter and leave the queues only by being added, removed or exiting.
 */
module SchedStates {
  import opened RunQueue
  import opened SchedModel
  import opened SchedSafety
  import opened SchedLoad
  import opened Wrappers

  // ON_CPU

  /** Thread t has CPU c. */
  ghost predicate RunsOn(s: Sched, c: nat, t: Tid)
    requires c < |s.cpus|
  {
    s.cpus[c].inThread && s.cpus[c].current == Some(t)
  }

  ghost predicate Running(s: Sched, t: Tid) {
    exists c :: 0 <= c < |s.cpus| && RunsOn(s, c, t)
  }

  ghost predicate IsIdle(s: Sched, t: Tid) {
    exists c :: 0 <= c < |s.cpus| && s.cpus[c].idle == t
  }

  /** Every running thread is ON_CPU, and every thread that is ON_CPU runs or is an idle thread. */
  ghost predicate Marked(s: Sched) {
    && (forall c, t :: 0 <= c < |s.cpus| && RunsOn(s, c, t) ==> StateOf(s.state, t) == ON_CPU)
    && (forall t :: StateOf(s.state, t) == ON_CPU ==> Running(s, t) || IsIdle(s, t))
  }

  /** CPUs that differ at most in queues and loads. */
  ghost predicate SameThreads(s: Sched, s': Sched) {
    && |s'.cpus| == |s.cpus| && s'.state == s.state
    && forall c :: 0 <= c < |s.cpus| ==>
         && s'.cpus[c].current == s.cpus[c].current && s'.cpus[c].idle == s.cpus[c].idle
         && s'.cpus[c].inThread == s.cpus[c].inThread
  }

  lemma SameMarked(s: Sched, s': Sched)
    requires Marked(s) && SameThreads(s, s')
    ensures Marked(s')
  {
    hide StateOf;
    forall t | StateOf(s'.state, t) == ON_CPU ensures Running(s', t) || IsIdle(s', t) {
      if Running(s, t) {
        var c :| 0 <= c < |s.cpus| && RunsOn(s, c, t);
        assert RunsOn(s', c, t);
      } else {
        var c :| 0 <= c < |s.cpus| && s.cpus[c].idle == t;
        assert s'.cpus[c].idle == t;
      }
    }
    forall c, t | 0 <= c < |s'.cpus| && RunsOn(s', c, t) ensures StateOf(s'.state, t) == ON_CPU {
      assert RunsOn(s, c, t);
    }
  }

  /**
   One CPU changes hands: its thread t before, if it had one, is no longer ON_CPU or is an idle thread, and
   the thread it has now, if any, is ON_CPU. No other thread's state changes.
   */
  lemma HandOver(s: Sched, c: nat, cpu: Cpu, state: map<Tid, ThreadState>, changed: Tid)
    requires Inv(s) && Marked(s) && c < |s.cpus| && cpu.idle == s.cpus[c].idle
    requires forall u :: u != changed ==> StateOf(state, u) == StateOf(s.state, u)
    requires forall d :: 0 <= d < |s.cpus| && d != c ==> s.cpus[d].current != Some(changed)
    requires s.cpus[c].inThread && s.cpus[c].current.Some? && s.cpus[c].current != Some(cpu.idle) ==>
               s.cpus[c].current == Some(changed)
    requires cpu.inThread ==> cpu.current == Some(changed)
    requires StateOf(state, changed) == ON_CPU <==> cpu.inThread
    ensures Marked(Sched(s.cpus[c := cpu], state))
  {
    hide Inv, StateOf;
    var s' := Sched(s.cpus[c := cpu], state);
    forall d, t | 0 <= d < |s'.cpus| && RunsOn(s', d, t) ensures StateOf(state, t) == ON_CPU {
      assert d != c ==> RunsOn(s, d, t);
    }
    forall t | StateOf(state, t) == ON_CPU ensures Running(s', t) || IsIdle(s', t) {
      if t == changed {
        assert RunsOn(s', c, t);
      } else if Running(s, t) {
        var d :| 0 <= d < |s.cpus| && RunsOn(s, d, t);
        if d == c {
          assert s'.cpus[c].idle == t;
        } else {
          assert RunsOn(s', d, t);
        }
      } else {
        var d :| 0 <= d < |s.cpus| && s.cpus[d].idle == t;
        assert s'.cpus[d].idle == t;
      }
    }
  }

  /** A current thread is current on no other CPU and is no other CPU's idle thread. */
  lemma CurrentOnlyHere(s: Sched, c: nat, d: nat)
    requires Inv(s) && c < |s.cpus| && d < |s.cpus| && c != d && s.cpus[c].current.Some?
    ensures s.cpus[d].current != s.cpus[c].current
  {
    assert Apart(s.cpus[c], s.cpus[d]);
  }

  lemma DispatchMarked(s: Sched, c: nat)
    requires Inv(s) && Marked(s) && c < |s.cpus| && !s.cpus[c].inThread
    ensures Marked(DispatchOn(s, c))
  {
    hide Inv, Marked, FirstRunnable, RotatedPast;
    var cpu := s.cpus[c];
    var i := FirstRunnable(s.state, cpu.queue);
    var t := if i < |cpu.queue| then cpu.queue[i] else cpu.idle;
    var s' := DispatchOn(s, c);
    forall d | 0 <= d < |s.cpus| && d != c ensures s.cpus[d].current != Some(t) {
      if i < |cpu.queue| {
        QueuedOnlyHere(s, c, d, t);
      } else {
        IdleOnlyHere(s, c, d);
      }
    }
    HandOver(s, c, s'.cpus[c], s'.state, t);
  }

  lemma IdleOnlyHere(s: Sched, c: nat, d: nat)
    requires Inv(s) && c < |s.cpus| && d < |s.cpus| && c != d
    ensures s.cpus[d].current != Some(s.cpus[c].idle)
  {
    assert Apart(s.cpus[d], s.cpus[c]);
  }

  lemma LeaveMarked(s: Sched, c: nat)
    requires Inv(s) && Marked(s) && c < |s.cpus| && s.cpus[c].inThread
    ensures Marked(YieldOn(s, c)) && Marked(ExitOn(s, c))
    ensures s.cpus[c].current == Some(s.cpus[c].idle) ==> Marked(WithCpu(s, c, s.cpus[c].(inThread := false)))
  {
    hide Inv, Marked, Removed;
    var cpu := s.cpus[c];
    if cpu.current.Some? {
      var t := cpu.current.value;
      forall d | 0 <= d < |s.cpus| && d != c ensures s.cpus[d].current != Some(t) {
        CurrentOnlyHere(s, c, d);
      }
      if t != cpu.idle {
        HandOver(s, c, YieldOn(s, c).cpus[c], YieldOn(s, c).state, t);
        HandOver(s, c, ExitOn(s, c).cpus[c], ExitOn(s, c).state, t);
      } else {
        IdleLeaves(s, c);
      }
    }
  }

  lemma IdleLeaves(s: Sched, c: nat)
    requires Marked(s) && c < |s.cpus| && s.cpus[c].current == Some(s.cpus[c].idle)
    ensures Marked(WithCpu(s, c, s.cpus[c].(inThread := false)))
  {
    hide StateOf;
    var s' := WithCpu(s, c, s.cpus[c].(inThread := false));
    forall t | StateOf(s'.state, t) == ON_CPU ensures Running(s', t) || IsIdle(s', t) {
      if Running(s, t) {
        var d :| 0 <= d < |s.cpus| && RunsOn(s, d, t);
        assert if d == c then s'.cpus[c].idle == t else RunsOn(s', d, t);
      } else {
        var d :| 0 <= d < |s.cpus| && s.cpus[d].idle == t;
        assert s'.cpus[d].idle == t;
      }
    }
    forall d, t | 0 <= d < |s'.cpus| && RunsOn(s', d, t) ensures StateOf(s'.state, t) == ON_CPU {
      assert RunsOn(s, d, t);
    }
  }

  lemma AddMarked(s: Sched, t: Tid, c: nat)
    requires Marked(s) && Outside(s, t) && c < |s.cpus|
    ensures Marked(AddTo(s, t, c))
  {
    var s1 := s.(state := s.state[t := RUNNABLE]);
    forall u | StateOf(s1.state, u) == ON_CPU ensures Running(s1, u) || IsIdle(s1, u) {
      assert StateOf(s.state, u) == ON_CPU;
      if Running(s, u) {
        var d :| 0 <= d < |s.cpus| && RunsOn(s, d, u);
        assert RunsOn(s1, d, u);
      } else {
        var d :| 0 <= d < |s.cpus| && s.cpus[d].idle == u;
        assert s1.cpus[d].idle == u;
      }
    }
    forall d, u | 0 <= d < |s1.cpus| && RunsOn(s1, d, u) ensures StateOf(s1.state, u) == ON_CPU {
      assert RunsOn(s, d, u);
    }
    SameMarked(s1, AddTo(s, t, c));
  }

  lemma StepMarked(s: Sched, step: Step)
    requires Inv(s) && Marked(s) && Enabled(s, step) && !step.SetState?
    ensures Marked(Apply(s, step))
  {
    hide Inv, Marked, Most, Least, FirstMigratable, DispatchOn, ExitOn, YieldOn, AddTo, Holder, Outside, Removed, StateOf;
    match step
    case Dispatch(c) => DispatchMarked(s, c);
    case Yield(c) => LeaveMarked(s, c);
    case IdleYield(c) => LeaveMarked(s, c);
    case Exit(c) => LeaveMarked(s, c);
    case Add(t, c) => AddMarked(s, t, c);
    case AddAuto(t) => AddMarked(s, t, Least(s.cpus, |s.cpus|).1);
    case Remove(t) => SameMarked(s, Apply(s, step));
    case Balance => SameMarked(s, Apply(s, step));
  }

  /** While only the scheduler changes thread states, ON_CPU marks exactly the running threads and idle threads. */
  lemma {:induction false} RunMarked(s: Sched, steps: seq<Step>)
    requires Inv(s) && Marked(s) && Legal(s, steps) && forall i :: 0 <= i < |steps| ==> !steps[i].SetState?
    ensures Marked(After(s, steps))
    decreases steps
  {
    hide Inv, Marked, Apply, Enabled;
    if steps != [] {
      StepKeeps(s, steps[0]);
      StepMarked(s, steps[0]);
      RunMarked(Apply(s, steps[0]), steps[1..]);
    }
  }

  // Threads in the queues

  /** What a step takes out of the queues and puts into them. */
  ghost function Ledger(s: Sched, step: Step, queued: multiset<Tid>): multiset<Tid> {
    match step
    case Add(t, _) => queued + multiset{t}
    case AddAuto(t) => queued + multiset{t}
    case Remove(t) => queued - multiset{t}
    case Exit(c) =>
      if c < |s.cpus| && s.cpus[c].current.Some? && s.cpus[c].current != Some(s.cpus[c].idle)
      then queued - multiset{s.cpus[c].current.value} else queued
    case _ => queued
  }

  lemma {:induction false} NotInQueued(cpus: seq<Cpu>, t: Tid)
    requires forall c :: 0 <= c < |cpus| ==> t !in cpus[c].queue
    ensures Queued(cpus)[t] == 0
  {
    if cpus != [] {
      assert forall c :: 0 <= c < |cpus[1..]| ==> cpus[1..][c] == cpus[c + 1];
      NotInQueued(cpus[1..], t);
    }
  }

  /** Replacing one CPU's queue. */
  lemma QueueReplaced(cpus: seq<Cpu>, c: nat, cpu: Cpu)
    requires c < |cpus|
    ensures Queued(cpus[c := cpu]) + multiset(cpus[c].queue) == Queued(cpus) + multiset(cpu.queue)
  {
    hide Queued;
    forall t ensures Queued(cpus[c := cpu])[t] + multiset(cpus[c].queue)[t] == Queued(cpus)[t] + multiset(cpu.queue)[t] {
      ReplaceInQueued(cpus, c, cpu, t);
    }
  }

  lemma SameQueue(cpus: seq<Cpu>, c: nat, cpu: Cpu)
    requires c < |cpus| && multiset(cpu.queue) == multiset(cpus[c].queue)
    ensures Queued(cpus[c := cpu]) == Queued(cpus)
  {
    hide Queued;
    QueueReplaced(cpus, c, cpu);
    Cancel(Queued(cpus[c := cpu]), Queued(cpus), multiset(cpu.queue));
  }

  lemma Cancel<T>(a: multiset<T>, b: multiset<T>, c: multiset<T>)
    requires a + c == b + c
    ensures a == b
  {
    assert (a + c) - c == a && (b + c) - c == b;
  }

  /** Taking t out of the only queue that may hold it. */
  lemma QueueDropped(cpus: seq<Cpu>, c: nat, cpu: Cpu, t: Tid)
    requires c < |cpus| && cpu.queue == Removed(cpus[c].queue, t)
    requires forall d :: 0 <= d < |cpus| && d != c ==> t !in cpus[d].queue
    ensures Queued(cpus[c := cpu]) == Queued(cpus) - multiset{t}
  {
    hide Queued, Removed;
    if t in cpus[c].queue {
      RemovedMultiset(cpus[c].queue, t);
      QueueReplaced(cpus, c, cpu);
      Cancel(Queued(cpus[c := cpu]) + multiset{t}, Queued(cpus), multiset(cpu.queue));
    } else {
      RemovedNone(cpus[c].queue, t);
      SameQueue(cpus, c, cpu);
      NotInQueued(cpus, t);
    }
  }

  lemma QueuePushed(cpus: seq<Cpu>, c: nat, cpu: Cpu, t: Tid)
    requires c < |cpus| && cpu.queue == cpus[c].queue + [t]
    ensures Queued(cpus[c := cpu]) == Queued(cpus) + multiset{t}
  {
    hide Queued;
    QueueReplaced(cpus, c, cpu);
    Cancel(Queued(cpus[c := cpu]), Queued(cpus) + multiset{t}, multiset(cpus[c].queue));
  }

  lemma DispatchLedger(s: Sched, c: nat)
    requires c < |s.cpus|
    ensures Queued(DispatchOn(s, c).cpus) == Queued(s.cpus)
  {
    hide Queued, FirstRunnable, StateOf, RotatedPast;
    var i := FirstRunnable(s.state, s.cpus[c].queue);
    if i < |s.cpus[c].queue| {
      RotatedMembers(s.cpus[c].queue, i);
    }
    SameQueue(s.cpus, c, DispatchOn(s, c).cpus[c]);
  }

  lemma ExitLedger(s: Sched, c: nat)
    requires Inv(s) && c < |s.cpus|
    ensures Queued(ExitOn(s, c).cpus) == Ledger(s, Exit(c), Queued(s.cpus))
  {
    hide Inv, Queued, Removed;
    var cpu := s.cpus[c];
    if cpu.current.Some? && cpu.current != Some(cpu.idle) {
      var t := cpu.current.value;
      forall d | 0 <= d < |s.cpus| && d != c ensures t !in s.cpus[d].queue {
        NotQueuedElsewhere(s, c, d);
      }
      if t !in cpu.queue {
        RemovedNone(cpu.queue, t);
      }
      QueueDropped(s.cpus, c, ExitOn(s, c).cpus[c], t);
    }
  }

  lemma NotQueuedElsewhere(s: Sched, c: nat, d: nat)
    requires Inv(s) && c < |s.cpus| && d < |s.cpus| && c != d && s.cpus[c].current.Some?
    ensures s.cpus[c].current.value !in s.cpus[d].queue
  {
    assert Apart(s.cpus[c], s.cpus[d]);
  }

  lemma RemoveLedger(s: Sched, t: Tid)
    requires Inv(s)
    ensures Queued(RemoveFrom(s, t).cpus) == Queued(s.cpus) - multiset{t}
  {
    hide Inv, Queued, Removed, Holder;
    var d := Holder(s.cpus, t, 0);
    if d < |s.cpus| {
      forall e | 0 <= e < |s.cpus| && e != d ensures t !in s.cpus[e].queue {
        QueuedOnlyHere(s, d, e, t);
      }
      QueueDropped(s.cpus, d, Dropped(s.cpus[d], t), t);
    } else {
      NotInQueued(s.cpus, t);
    }
  }

  lemma BalanceLedger(s: Sched)
    requires SmallLoads(s)
    ensures Queued(BalanceAll(s).cpus) == Queued(s.cpus)
  {
    hide Queued, BalanceAll, Migrate, SmallLoads, Victim, Migratable;
    VictimIs(s);
    if Victim(s).Some? {
      var (src, dst, t) := Victim(s).value;
      MigrationKeepsThreads(s, src, dst, t);
    }
  }

  /** Threads enter the queues only when added and leave them only when removed or exiting; no step loses or doubles one. */
  lemma StepLedger(s: Sched, step: Step)
    requires Inv(s) && Enabled(s, step)
    ensures Queued(Apply(s, step).cpus) == Ledger(s, step, Queued(s.cpus))
  {
    hide Inv, Queued, BalanceAll, DispatchOn, ExitOn, RemoveFrom, Least, Outside, SmallLoads;
    match step
    case Dispatch(c) => DispatchLedger(s, c);
    case Yield(c) => SameQueue(s.cpus, c, s.cpus[c].(inThread := false));
    case IdleYield(c) => SameQueue(s.cpus, c, s.cpus[c].(inThread := false));
    case Exit(c) => ExitLedger(s, c);
    case Add(t, c) => QueuePushed(s.cpus, c, Pushed(s.cpus[c], t), t);
    case AddAuto(t) =>
      var c := Least(s.cpus, |s.cpus|).1;
      QueuePushed(s.cpus, c, Pushed(s.cpus[c], t), t);
    case Remove(t) => RemoveLedger(s, t);
    case Balance => BalanceLedger(s);
    case SetState(_, _) =>
  }

  ghost function LedgerOf(s: Sched, steps: seq<Step>, queued: multiset<Tid>): multiset<Tid>
    decreases steps
  {
    if steps == [] then queued
    else LedgerOf(Apply(s, steps[0]), steps[1..], Ledger(s, steps[0], queued))
  }

  /** Conservation over whole runs. */
  lemma {:induction false} RunLedger(s: Sched, steps: seq<Step>)
    requires Inv(s) && Legal(s, steps)
    ensures Queued(After(s, steps).cpus) == LedgerOf(s, steps, Queued(s.cpus))
    decreases steps
  {
    hide Inv, Queued, Apply, Enabled, Ledger;
    if steps != [] {
      StepKeeps(s, steps[0]);
      StepLedger(s, steps[0]);
      RunLedger(Apply(s, steps[0]), steps[1..]);
    }
  }
}
