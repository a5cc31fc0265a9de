/**
 Round-robin fairness: a runnable thread at position i of its queue is chosen within the
 next i + 1 selections on its CPU, whatever else happens in between.
 */
module SchedFair {
  import opened RunQueue
  import opened SchedModel
  import opened SchedSafety
  import opened Wrappers

  /** t is in the queue of CPU c and may be chosen. */
  ghost predicate Ready(s: Sched, c: nat, t: Tid) {
    c < |s.cpus| && t in s.cpus[c].queue && Runnable(s.state, t)
  }

  /** The step is a selection on CPU c that chooses t. */
  ghost predicate Chooses(s: Sched, step: Step, c: nat, t: Tid) {
    step == Dispatch(c) && c < |s.cpus| && Apply(s, step).cpus[c].current == Some(t)
  }

  /** Until it is chosen, t stays runnable in the queue of CPU c: it is not removed, migrated or blocked. */
  ghost predicate Waits(s: Sched, steps: seq<Step>, c: nat, t: Tid)
    decreases steps
  {
    Ready(s, c, t) && (steps != [] ==> Chooses(s, steps[0], c, t) || Waits(Apply(s, steps[0]), steps[1..], c, t))
  }

  ghost predicate Chosen(s: Sched, steps: seq<Step>, c: nat, t: Tid)
    decreases steps
  {
    steps != [] && (Chooses(s, steps[0], c, t) || Chosen(Apply(s, steps[0]), steps[1..], c, t))
  }

  /** How many selections CPU c makes. */
  function Selections(steps: seq<Step>, c: nat): nat {
    if steps == [] then 0 else (if steps[0] == Dispatch(c) then 1 else 0) + Selections(steps[1..], c)
  }

  function Place(s: Sched, c: nat, t: Tid): nat
    requires c < |s.cpus|
  {
    Position(s.cpus[c].queue, t)
  }

  lemma DispatchMovesUp(s: Sched, c: nat, t: Tid)
    requires Ready(s, c, t) && !Chooses(s, Dispatch(c), c, t)
    ensures |DispatchOn(s, c).cpus| == |s.cpus| && Place(DispatchOn(s, c), c, t) < Place(s, c, t)
  {
    hide FirstRunnable, Position, RotatedPast, StateOf;
    SelectLowersPosition(s.state, s.cpus[c].queue, t);
  }

  lemma DroppedPlace(cpu: Cpu, t: Tid, u: Tid)
    requires t in cpu.queue && t in Dropped(cpu, u).queue && Distinct(cpu.queue)
    ensures Position(Dropped(cpu, u).queue, t) <= Position(cpu.queue, t)
  {
    hide Position, Removed;
    if u in cpu.queue {
      RemovedMembers(cpu.queue, u);
      RemoveLowersPosition(cpu.queue, t, u);
    }
  }

  lemma PushedPlace(cpu: Cpu, t: Tid, u: Tid)
    requires t in cpu.queue
    ensures Position(Pushed(cpu, u).queue, t) == Position(cpu.queue, t)
  {
    PushKeepsPosition(cpu.queue, t, u);
  }

  lemma MigratePlace(s: Sched, src: nat, dst: nat, u: Tid, c: nat, t: Tid)
    requires Inv(s) && src < |s.cpus| && dst < |s.cpus| && c < |s.cpus| && u in s.cpus[src].queue
    requires t in s.cpus[c].queue && t in Migrate(s, src, dst, u).cpus[c].queue && src != dst
    ensures Place(Migrate(s, src, dst, u), c, t) <= Place(s, c, t)
  {
    hide Inv, Dropped, Pushed, Position;
    CpusOk(s, c);
    if c == src {
      DroppedPlace(s.cpus[c], t, u);
    } else if c == dst {
      PushedPlace(s.cpus[c], t, u);
    }
  }

  /** A step that is not a selection on c never moves t back. */
  lemma StepNotBack(s: Sched, step: Step, c: nat, t: Tid)
    requires Inv(s) && Enabled(s, step) && Ready(s, c, t) && Ready(Apply(s, step), c, t) && step != Dispatch(c)
    ensures Place(Apply(s, step), c, t) <= Place(s, c, t)
  {
    hide Inv, Migrate, Least, Most, Dropped, Pushed, FirstMigratable, Position, Outside, FirstRunnable, RotatedPast, StateOf;
    match step
    case Dispatch(d) => DispatchOthers(s, d);
    case Exit(d) =>
      CpusOk(s, c);
      if d == c && s.cpus[c].current.Some? && s.cpus[c].current != Some(s.cpus[c].idle) {
        DroppedPlace(s.cpus[c], t, s.cpus[c].current.value);
      }
    case Add(u, d) => PushedPlace(s.cpus[c], t, u);
    case AddAuto(u) => PushedPlace(s.cpus[c], t, u);
    case Remove(u) =>
      CpusOk(s, c);
      var d := Holder(s.cpus, u, 0);
      if d == c {
        DroppedPlace(s.cpus[c], t, u);
      }
    case Balance => BalancePlace(s, c, t);
    case _ =>
  }

  lemma BalancePlace(s: Sched, c: nat, t: Tid)
    requires Inv(s) && SmallLoads(s) && c < |s.cpus| && t in s.cpus[c].queue && t in BalanceAll(s).cpus[c].queue
    ensures Place(BalanceAll(s), c, t) <= Place(s, c, t)
  {
    hide Inv, Migrate, FirstMigratable, Position, Most, Least, SmallLoads;
    BalancePair(s);
    var (maxLoad, src) := Most(s.cpus, |s.cpus|);
    var (minLoad, dst) := Least(s.cpus, |s.cpus|);
    var cpu := s.cpus[src];
    var i := FirstMigratable(s, cpu, cpu.queue);
    if (maxLoad - minLoad) % (UINT32_MAX + 1) >= LOAD_BALANCE_THRESHOLD && cpu.queue != [] && cpu.load > 1 && i < |cpu.queue| {
      MigratePlace(s, src, dst, cpu.queue[i], c, t);
    }
  }

  /**
   Bounded waiting. In any legal run in which t stays runnable in the queue of CPU c until chosen, t is
   chosen by the time CPU c has made one more selection than there are threads ahead of t.
   */
  lemma {:induction false} BoundedWaiting(s: Sched, steps: seq<Step>, c: nat, t: Tid)
    requires Inv(s) && Legal(s, steps) && Waits(s, steps, c, t)
    requires Selections(steps, c) > Place(s, c, t)
    ensures Chosen(s, steps, c, t)
    decreases steps
  {
    hide Inv, Apply, Enabled, Ready, Chooses, Place;
    if !Chooses(s, steps[0], c, t) {
      var s1 := Apply(s, steps[0]);
      StepKeeps(s, steps[0]);
      NextPlace(s, steps[0], c, t);
      BoundedWaiting(s1, steps[1..], c, t);
    }
  }

  lemma NextPlace(s: Sched, step: Step, c: nat, t: Tid)
    requires Inv(s) && Enabled(s, step) && Ready(s, c, t) && Ready(Apply(s, step), c, t) && !Chooses(s, step, c, t)
    ensures Place(Apply(s, step), c, t) <= Place(s, c, t) - (if step == Dispatch(c) then 1 else 0)
  {
    hide Inv, Enabled, Place, DispatchOn, YieldOn, ExitOn, RemoveFrom, BalanceAll, AddTo, StateOf;
    if step == Dispatch(c) {
      DispatchMovesUp(s, c, t);
    } else {
      StepNotBack(s, step, c, t);
    }
  }
}
