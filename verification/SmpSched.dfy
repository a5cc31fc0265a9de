/**
 `kernel/sched/smp_sched.c` on its own data: per-CPU structures that own circular lists.
 Every operation is proved to take exactly the step of `SchedModel` with its name, so the
 theorems about runs of steps hold of runs of the code.
 */
module SmpSched {
  import opened RunQueue
  import opened SchedModel
  import opened SchedSafety
  import opened ThreadRing
  import opened Wrappers

  /** The scheduler part of `struct percpu`. */
  class Percpu {
    const ring: Ring            // run_queue and num_threads
    var current: Option<Tid>
    const idle: Tid
    var started: bool
    var inThread: bool

    ghost function Abs(): Cpu
      reads this, ring, ring.nodes
    {
      Cpu(ring.Contents(), ring.count, current, idle, started, inThread)
    }

    /** `sched_init_cpu`; whether the CPU has been started is set elsewhere. */
    constructor (idle: Tid, started: bool)
      ensures ring.Valid() && fresh(ring) && ring.nodes == []
      ensures current == None && this.idle == idle && this.started == started && !inThread
    {
      ring := new Ring();
      this.idle := idle;
      current, inThread := None, false;
      this.started := started;
    }
  }

  ghost function Rings(cpus: seq<Percpu>): set<Ring> {
    set c | 0 <= c < |cpus| :: cpus[c].ring
  }

  ghost function NodesOf(cpus: seq<Percpu>): set<Node>
    reads Rings(cpus)
  {
    set c, i | 0 <= c < |cpus| && 0 <= i < |cpus[c].ring.nodes| :: cpus[c].ring.nodes[i]
  }

  ghost predicate RingsValid(cpus: seq<Percpu>)
    reads Rings(cpus), NodesOf(cpus)
  {
    forall c :: 0 <= c < |cpus| ==> cpus[c].ring.Valid()
  }

  /** No two CPUs share a list or a node. */
  ghost predicate Owned(cpus: seq<Percpu>)
    reads Rings(cpus)
  {
    forall c, d :: 0 <= c < |cpus| && 0 <= d < |cpus| && c != d ==> Apart(cpus[c], cpus[d])
  }

  ghost predicate Apart(a: Percpu, b: Percpu)
    reads a.ring, b.ring
  {
    a != b && a.ring != b.ring && forall i :: 0 <= i < |a.ring.nodes| ==> a.ring.nodes[i] !in b.ring.nodes
  }

  ghost function AbsOf(cpus: seq<Percpu>): (s: seq<Cpu>)
    reads cpus, Rings(cpus), NodesOf(cpus)
    ensures |s| == |cpus| && forall c :: 0 <= c < |cpus| ==> s[c] == cpus[c].Abs()
  {
    seq(|cpus|, c requires 0 <= c < |cpus| reads cpus, Rings(cpus), NodesOf(cpus) => cpus[c].Abs())
  }

  /** Nothing that belongs to this CPU was written. */
  twostate predicate Untouched(cpu: Percpu)
    reads cpu, cpu.ring, cpu.ring.nodes
  {
    unchanged(cpu) && unchanged(cpu.ring) && unchanged(cpu.ring.nodes)
  }

  /** Only the CPU with index c, and the list it owns, was written. */
  twostate predicate OnlyAt(cpus: seq<Percpu>, c: nat)
    reads cpus, Rings(cpus), NodesOf(cpus)
  {
    forall d :: 0 <= d < |cpus| && d != c ==> Untouched(cpus[d])
  }

  /** The lists took in nothing but new nodes. */
  twostate predicate Grew(cpus: seq<Percpu>)
    reads Rings(cpus)
  {
    forall n :: n in NodesOf(cpus) ==> n in old(NodesOf(cpus)) || fresh(n)
  }

  twostate lemma OnlyAtAbs(cpus: seq<Percpu>, new c: nat)
    requires c < |cpus| && OnlyAt(cpus, c)
    ensures AbsOf(cpus) == old(AbsOf(cpus))[c := cpus[c].Abs()]
  {
  }

  /** The thread was put at the end of the list of CPU c, and the other lists have what they had. */
  twostate predicate Put(cpus: seq<Percpu>, c: int, t: Tid)
    reads cpus, Rings(cpus), NodesOf(cpus)
  {
    && 0 <= c < |cpus| && cpus[c].ring.Contents() == old(cpus[c].ring.Contents()) + [t]
    && forall d :: 0 <= d < |cpus| && d != c ==> cpus[d].ring.Contents() == old(cpus[d].ring.Contents())
  }

  twostate lemma PutThere(cpus: seq<Percpu>, new t: Tid, new c: nat)
    requires c < |cpus| && AbsOf(cpus) == old(AbsOf(cpus))[c := Pushed(old(AbsOf(cpus))[c], t)]
    ensures Put(cpus, c, t)
  {
    hide NodesOf, Rings;
    forall d | 0 <= d < |cpus| && d != c ensures cpus[d].ring.Contents() == old(cpus[d].ring.Contents()) {
      assert AbsOf(cpus)[d] == old(AbsOf(cpus))[d];
      assert AbsOf(cpus)[d] == cpus[d].Abs() && old(AbsOf(cpus))[d] == old(cpus[d].Abs());
    }
    assert AbsOf(cpus)[c] == cpus[c].Abs() && old(AbsOf(cpus))[c] == old(cpus[c].Abs());
  }

  twostate lemma NoneTouched(cpus: seq<Percpu>)
    requires forall c :: 0 <= c < |cpus| ==> Untouched(cpus[c])
    ensures AbsOf(cpus) == old(AbsOf(cpus)) && NodesOf(cpus) == old(NodesOf(cpus))
    ensures RingsValid(cpus) == old(RingsValid(cpus)) && Owned(cpus) == old(Owned(cpus))
  {
  }

  twostate lemma OnlyAtGrew(cpus: seq<Percpu>, new c: nat)
    requires c < |cpus| && OnlyAt(cpus, c)
    requires forall n :: n in cpus[c].ring.nodes ==> n in old(cpus[c].ring.nodes) || fresh(n)
    ensures Grew(cpus)
  {
    forall n | n in NodesOf(cpus) ensures n in old(NodesOf(cpus)) || fresh(n) {
      var d, i :| 0 <= d < |cpus| && 0 <= i < |cpus[d].ring.nodes| && cpus[d].ring.nodes[i] == n;
      assert d != c ==> Untouched(cpus[d]);
      assert n in cpus[d].ring.nodes;
      if n in old(cpus[d].ring.nodes) {
        var j :| 0 <= j < |old(cpus[d].ring.nodes)| && old(cpus[d].ring.nodes)[j] == n;
        assert old(cpus[d].ring.nodes[j]) in old(NodesOf(cpus));
      }
    }
  }

  /** The list of CPU c took in new nodes only. */
  twostate lemma OnlyAtValid(cpus: seq<Percpu>, new c: nat)
    requires c < |cpus| && OnlyAt(cpus, c) && old(RingsValid(cpus)) && old(Owned(cpus))
    requires cpus[c].ring.Valid()
    requires forall n :: n in cpus[c].ring.nodes ==> n in old(cpus[c].ring.nodes) || fresh(n)
    ensures RingsValid(cpus) && Owned(cpus) && Grew(cpus)
  {
    hide Grew, Linked;
    OnlyAtGrew(cpus, c);
  }

  // The steps of the model, cut where the code is cut

  lemma ExitParts(s: Sched, c: nat)
    requires c < |s.cpus|
    ensures var cpu := s.cpus[c];
            ExitOn(s, c) ==
              if cpu.current == None || cpu.current == Some(cpu.idle) then s
              else
                var t := cpu.current.value;
                var s1 := s.(state := s.state[t := EXIT]);
                var s2 := WithCpu(s1, c, Dropped(cpu, t));
                WithCpu(s2, c, s2.cpus[c].(current := None, inThread := false))
  {
    hide Dropped;
  }

  lemma DispatchParts(s: Sched, c: nat)
    requires c < |s.cpus|
    ensures var cpu := s.cpus[c];
            var i := FirstRunnable(s.state, cpu.queue);
            var t := if i < |cpu.queue| then cpu.queue[i] else cpu.idle;
            var s1 := if i < |cpu.queue| then WithCpu(s, c, cpu.(queue := RotatedPast(cpu.queue, i))) else s;
            var s2 := s1.(state := s.state[t := ON_CPU]);
            && |s2.cpus| == |s.cpus|
            && DispatchOn(s, c) == WithCpu(s2, c, s2.cpus[c].(current := Some(t), inThread := true))
  {
    hide FirstRunnable, RotatedPast;
  }

  lemma HolderNext(s: Sched, t: Tid, c: nat)
    requires c < |s.cpus|
    ensures t in s.cpus[c].queue ==> Holder(s.cpus, t, c) == c
    ensures t !in s.cpus[c].queue ==>
              Holder(s.cpus, t, c) == Holder(s.cpus, t, c + 1) && WithCpu(s, c, Dropped(s.cpus[c], t)) == s
  {
  }

  class Scheduler {
    const cpus: seq<Percpu>                 // percpus[0 .. ncpu]
    var state: map<Tid, ThreadState>        // the state field of every thread

    ghost predicate Valid()
      reads this, Rings(cpus), NodesOf(cpus)
    {
      cpus != [] && RingsValid(cpus) && Owned(cpus)
    }

    ghost function Abs(): Sched
      reads this, cpus, Rings(cpus), NodesOf(cpus)
    {
      Sched(AbsOf(cpus), state)
    }

    /** The state after `sched_init_cpu` on every CPU. */
    constructor (cpus: seq<Percpu>)
      requires cpus != []
      requires forall c :: 0 <= c < |cpus| ==>
                 cpus[c].ring.Valid() && cpus[c].ring.nodes == [] && cpus[c].current == None && !cpus[c].inThread
      requires forall c, d :: 0 <= c < d < |cpus| ==>
                 cpus[c] != cpus[d] && cpus[c].ring != cpus[d].ring && cpus[c].idle != cpus[d].idle
      ensures Valid() && this.cpus == cpus && Init(Abs())
    {
      this.cpus := cpus;
      state := map[];
    }

    /** `sched_add_thread`: the answer is false where the source panics. */
    method AddThread(thread: Option<Tid>, index: int) returns (ok: bool)
      requires Valid()
      modifies this, Rings(cpus), NodesOf(cpus)
      ensures Valid() && Grew(cpus) && ok == (thread.Some? && index < |cpus|)
      ensures Abs() == if !ok then old(Abs())
                       else Apply(old(Abs()), if index < 0 then AddAuto(thread.value) else Add(thread.value, index))
      ensures ok ==> Put(cpus, if index < 0 then Least(old(AbsOf(cpus)), |cpus|).1 else index, thread.value)
      ensures ok ==> state == old(state)[thread.value := RUNNABLE]
    {
      hide AbsOf, RingsValid, Owned, NodesOf, Rings, Least, Pushed, Put;
      if thread == None || index >= |cpus| {
        return false;
      }
      var target := index;
      if index < 0 {
        target := FindLeastLoaded();
        NoneTouched(cpus);
      }
      AddAt(thread.value, target);
      PutThere(cpus, thread.value, target);
      return true;
    }

    /** The thread becomes runnable and joins the list. */
    method AddAt(t: Tid, c: nat)
      requires Valid() && c < |cpus|
      modifies this, Rings(cpus), NodesOf(cpus)
      ensures Valid() && Grew(cpus) && state == old(state)[t := RUNNABLE]
      ensures AbsOf(cpus) == old(AbsOf(cpus))[c := Pushed(old(AbsOf(cpus))[c], t)]
    {
      hide AbsOf, RingsValid, Owned, NodesOf, Rings, Pushed;
      SetState(t, RUNNABLE);
      InFootprint(cpus, c);
      PushAt(t, c);
    }

    /** `runqueue_add_unlocked` on one of the CPUs. */
    method PushAt(t: Tid, c: nat)
      requires Valid() && c < |cpus|
      modifies cpus[c].ring, cpus[c].ring.nodes
      ensures Valid() && Grew(cpus) && Abs() == WithCpu(old(Abs()), c, Pushed(old(Abs()).cpus[c], t))
    {
      hide AbsOf, RingsValid, Owned, NodesOf, Rings;
      RingAt(cpus, c);
      Foreign(cpus, c);
      cpus[c].ring.Push(t);
      OnlyAtAbs(cpus, c);
      OnlyAtValid(cpus, c);
    }

    /** `sched_find_least_loaded`. */
    method FindLeastLoaded() returns (minCpu: nat)
      requires Valid()
      ensures minCpu == Least(Abs().cpus, |cpus|).1 < |cpus|
    {
      var minLoad := UINT32_MAX;
      minCpu := 0;
      for i := 0 to |cpus|
        invariant Least(AbsOf(cpus), i) == (minLoad, minCpu)
      {
        if cpus[i].started && cpus[i].ring.count < minLoad {
          minLoad := cpus[i].ring.count;
          minCpu := i;
        }
      }
    }

    /** `sched_remove_thread`; a null thread is ignored. */
    method RemoveThread(thread: Option<Tid>)
      requires Valid()
      modifies Rings(cpus), NodesOf(cpus)
      ensures Valid() && Grew(cpus) && Abs() == if thread == None then old(Abs()) else Apply(old(Abs()), Remove(thread.value))
    {
      hide AbsOf, RingsValid, Owned, NodesOf, Rings, Dropped, WithCpu, Holder;
      if thread == None {
        return;
      }
      var t := thread.value;
      var i := 0;
      while i < |cpus|
        invariant 0 <= i <= |cpus| && Valid() && Abs() == old(Abs()) && NodesOf(cpus) <= old(NodesOf(cpus))
        invariant Holder(old(Abs()).cpus, t, 0) == Holder(old(Abs()).cpus, t, i)
      {
        InFootprint(cpus, i);
        HolderNext(Abs(), t, i);
        var found := RemoveAt(t, i);
        if found {
          break;
        }
        i := i + 1;
      }
    }

    /** `sched_get_next`; None stands for the idle thread. */
    method GetNext(c: nat) returns (next: Option<Tid>)
      requires Valid() && c < |cpus|
      modifies cpus[c].ring
      ensures Valid() && Grew(cpus)
      ensures var s := old(Abs());
              var q := s.cpus[c].queue;
              var i := FirstRunnable(s.state, q);
              if i < |q| then next == Some(q[i]) && Abs() == WithCpu(s, c, s.cpus[c].(queue := RotatedPast(q, i)))
              else next == None && Abs() == s
    {
      hide AbsOf, RingsValid, Owned, NodesOf, Rings, FirstRunnable, RotatedPast, StateOf;
      RingAt(cpus, c);
      Foreign(cpus, c);
      next := cpus[c].ring.GetNext(state);
      OnlyAtAbs(cpus, c);
      OnlyAtValid(cpus, c);
    }

    /** `runqueue_remove_unlocked` on one of the CPUs. */
    method RemoveAt(t: Tid, c: nat) returns (found: bool)
      requires Valid() && c < |cpus|
      modifies cpus[c].ring, cpus[c].ring.nodes
      ensures Valid() && found == (t in old(Abs()).cpus[c].queue)
      ensures Abs() == WithCpu(old(Abs()), c, Dropped(old(Abs()).cpus[c], t))
      ensures NodesOf(cpus) <= old(NodesOf(cpus))
    {
      hide AbsOf, RingsValid, Owned, NodesOf, Rings, Removed;
      RingAt(cpus, c);
      Foreign(cpus, c);
      RemovedLength(cpus[c].ring.Contents(), t);
      found := cpus[c].ring.Remove(t);
      OnlyAtAbs(cpus, c);
      OnlyAtValid(cpus, c);
      FewerNodes(cpus, c);
    }

    /** Store `current_thread`, and pass the CPU to the thread or back to the scheduler loop. */
    method Switch(c: nat, current: Option<Tid>, inThread: bool)
      requires Valid() && c < |cpus|
      modifies cpus[c]
      ensures Valid() && Grew(cpus)
      ensures Abs() == WithCpu(old(Abs()), c, old(Abs()).cpus[c].(current := current, inThread := inThread))
    {
      hide AbsOf, RingsValid, Owned, NodesOf, Rings;
      RingAt(cpus, c);
      Foreign(cpus, c);
      cpus[c].current := current;
      cpus[c].inThread := inThread;
      OnlyAtAbs(cpus, c);
      OnlyAtValid(cpus, c);
    }

    method SetState(t: Tid, st: ThreadState)
      requires Valid()
      modifies this
      ensures Valid() && NodesOf(cpus) == old(NodesOf(cpus))
      ensures Abs() == Apply(old(Abs()), SchedModel.SetState(t, st))
    {
      hide AbsOf, RingsValid, Owned, NodesOf, Rings;
      state := state[t := st];
      NoneTouched(cpus);
    }

    /** One iteration of the loop of `sched_run`: `sched_get_next`, then the switch to the thread it found. */
    method Dispatch(c: nat)
      requires Valid() && c < |cpus|
      modifies this, cpus[c], cpus[c].ring
      ensures Valid() && Grew(cpus) && Abs() == Apply(old(Abs()), SchedModel.Dispatch(c))
    {
      hide AbsOf, RingsValid, Owned, NodesOf, Rings, FirstRunnable, RotatedPast, StateOf, WithCpu, DispatchOn;
      DispatchParts(Abs(), c);
      var next := GetNext(c);
      var t := if next.Some? then next.value else cpus[c].idle;
      SetState(t, ON_CPU);
      Switch(c, Some(t), true);
    }

    /** `sched_exit`. */
    method Exit(c: nat)
      requires Valid() && c < |cpus|
      modifies this, cpus[c], cpus[c].ring, cpus[c].ring.nodes
      ensures Valid() && Grew(cpus) && Abs() == Apply(old(Abs()), SchedModel.Exit(c))
    {
      hide AbsOf, RingsValid, Owned, NodesOf, Rings, Dropped, WithCpu, ExitOn;
      ExitParts(Abs(), c);
      var current := cpus[c].current;
      if current == None || current == Some(cpus[c].idle) {
        return;
      }
      SetState(current.value, EXIT);
      var _ := RemoveAt(current.value, c);
      Switch(c, None, false);
    }

    /** The search of `sched_balance` for a thread that may migrate. */
    method FindMigratable(c: nat) returns (r: Option<Tid>)
      requires Valid() && c < |cpus|
      ensures var s := Abs();
              var q := s.cpus[c].queue;
              var i := FirstMigratable(s, s.cpus[c], q);
              r == if i < |q| then Some(q[i]) else None
    {
      hide AbsOf, RingsValid, Owned, NodesOf, Rings, FirstMigratable, StateOf, Linked;
      RingAt(cpus, c);
      var ring := cpus[c].ring;
      ghost var s, q := Abs(), ring.Contents();
      if ring.head == null {
        return None;
      }
      var start := ring.head;
      var current := start;
      ghost var i := 0;
      while true
        invariant 0 <= i < |ring.nodes| && current == ring.nodes[i] && start == ring.nodes[0]
        invariant forall j :: 0 <= j < i ==> !Migratable(s, s.cpus[c], q[j])
        decreases |ring.nodes| - i
      {
        NextIs(ring.nodes, i);
        var t := current.data;
        if Some(t) != cpus[c].current && t != cpus[c].idle && Runnable(state, t) {
          FirstMigratableIs(s, s.cpus[c], q, i);
          return Some(t);
        }
        current := current.next;
        if current == start {
          FirstMigratableIs(s, s.cpus[c], q, |q|);
          return None;
        }
        i := i + 1;
      }
    }

    /** The scan of `sched_balance`. */
    method FindExtremes() returns (maxLoad: nat, maxCpu: nat, minLoad: nat, minCpu: nat)
      requires Valid()
      ensures (maxLoad, maxCpu) == Most(Abs().cpus, |cpus|) && (minLoad, minCpu) == Least(Abs().cpus, |cpus|)
    {
      maxLoad, minLoad := 0, UINT32_MAX;
      maxCpu, minCpu := 0, 0;
      for i := 0 to |cpus|
        invariant Most(AbsOf(cpus), i) == (maxLoad, maxCpu) && Least(AbsOf(cpus), i) == (minLoad, minCpu)
      {
        if cpus[i].started {
          var load := cpus[i].ring.count;
          if load > maxLoad {
            maxLoad := load;
            maxCpu := i;
          }
          if load < minLoad {
            minLoad := load;
            minCpu := i;
          }
        }
      }
    }

    /** `sched_balance`, with its unsigned 32-bit subtraction. */
    method Balance()
      requires Valid()
      modifies Rings(cpus), NodesOf(cpus)
      ensures Valid() && Grew(cpus) && Abs() == BalanceAll(old(Abs()))
    {
      hide AbsOf, RingsValid, Owned, NodesOf, Rings, Most, Least, SchedModel.MigrateFirst;
      var maxLoad, maxCpu, minLoad, minCpu := FindExtremes();
      NoneTouched(cpus);
      if (maxLoad - minLoad) % (UINT32_MAX + 1) < LOAD_BALANCE_THRESHOLD {
        return;
      }
      MigrateFirst(maxCpu, minCpu);
    }

    /** The second half of `sched_balance`. */
    method MigrateFirst(src: nat, dst: nat)
      requires Valid() && src < |cpus| && dst < |cpus|
      modifies Rings(cpus), NodesOf(cpus)
      ensures Valid() && Grew(cpus) && Abs() == SchedModel.MigrateFirst(old(Abs()), src, dst)
    {
      hide AbsOf, RingsValid, Owned, NodesOf, Rings, FirstMigratable, SchedModel.Migrate;
      EmptyIsNull(cpus, src);
      if cpus[src].ring.head != null && cpus[src].ring.count > 1 {
        var t := FindMigratable(src);
        NoneTouched(cpus);
        if t.Some? {
          Migrate(src, dst, t.value);
        }
      }
    }

    method Migrate(src: nat, dst: nat, t: Tid)
      requires Valid() && src < |cpus| && dst < |cpus|
      modifies Rings(cpus), NodesOf(cpus)
      ensures Valid() && Grew(cpus) && Abs() == SchedModel.Migrate(old(Abs()), src, dst, t)
    {
      hide AbsOf, RingsValid, Owned, NodesOf, Rings, Dropped, Pushed;
      InFootprint(cpus, src);
      var _ := RemoveAt(t, src);
      InFootprint(cpus, dst);
      PushAt(t, dst);
    }

    /** `idle_yield`. */
    method IdleYield(c: nat)
      requires Valid() && c < |cpus|
      modifies cpus[c]
      ensures Valid() && Grew(cpus)
      ensures Abs() == Apply(old(Abs()), SchedModel.IdleYield(c))
    {
      hide AbsOf, RingsValid, Owned, NodesOf, Rings;
      Switch(c, cpus[c].current, false);
    }

    /** One step, by the code. */
    method Take(step: Step)
      requires Valid() && Enabled(Abs(), step)
      modifies this, cpus, Rings(cpus), NodesOf(cpus)
      ensures Valid() && Grew(cpus)
      ensures Abs() == Apply(old(Abs()), step)
    {
      hide AbsOf, RingsValid, Owned, NodesOf, Rings, Most, Least, Outside, SmallLoads;
      hide DispatchOn, YieldOn, ExitOn, AddTo, RemoveFrom, BalanceAll, WithCpu;
      match step {
        case Dispatch(c) => InFootprint(cpus, c); Dispatch(c);
        case Yield(c) => Yield(c);
        case IdleYield(c) => IdleYield(c);
        case Exit(c) => InFootprint(cpus, c); Exit(c);
        case Add(t, c) => var _ := AddThread(Some(t), c);
        case AddAuto(t) => var _ := AddThread(Some(t), -1);
        case Remove(t) => RemoveThread(Some(t));
        case Balance => Balance();
        case SetState(t, st) => SetState(t, st);
      }
    }

    /** Any sequence of calls. */
    method Run(steps: seq<Step>)
      requires Valid() && Legal(Abs(), steps)
      modifies this, cpus, Rings(cpus), NodesOf(cpus)
      ensures Valid() && Grew(cpus)
      ensures Abs() == After(old(Abs()), steps)
      decreases steps
    {
      hide AbsOf, RingsValid, Owned, NodesOf, Rings, Apply, Enabled;
      if steps != [] {
        Take(steps[0]);
        Run(steps[1..]);
      }
    }

    /** `sched_yield`. */
    method Yield(c: nat)
      requires Valid() && c < |cpus|
      modifies this, cpus[c]
      ensures Valid() && Grew(cpus) && Abs() == Apply(old(Abs()), SchedModel.Yield(c))
    {
      hide AbsOf, RingsValid, Owned, NodesOf, Rings;
      var current := cpus[c].current;
      if current == None || current == Some(cpus[c].idle) {
        return;
      }
      SetState(current.value, RUNNABLE);
      Switch(c, current, false);
    }
  }

  lemma RingAt(cpus: seq<Percpu>, c: nat)
    requires RingsValid(cpus) && c < |cpus|
    ensures cpus[c].ring.Valid()
  {
  }

  twostate lemma FewerNodes(cpus: seq<Percpu>, new c: nat)
    requires c < |cpus| && OnlyAt(cpus, c)
    requires forall n :: n in cpus[c].ring.nodes ==> n in old(cpus[c].ring.nodes)
    ensures NodesOf(cpus) <= old(NodesOf(cpus))
  {
    forall n | n in NodesOf(cpus) ensures n in old(NodesOf(cpus)) {
      var d, i :| 0 <= d < |cpus| && 0 <= i < |cpus[d].ring.nodes| && cpus[d].ring.nodes[i] == n;
      assert d != c ==> Untouched(cpus[d]);
      assert n in old(cpus[d].ring.nodes);
    }
  }

  lemma EmptyIsNull(cpus: seq<Percpu>, c: nat)
    requires RingsValid(cpus) && c < |cpus|
    ensures cpus[c].ring.head == null <==> cpus[c].ring.Contents() == []
  {
    hide Linked;
    RingAt(cpus, c);
  }

  lemma InFootprint(cpus: seq<Percpu>, c: nat)
    requires c < |cpus|
    ensures cpus[c].ring in Rings(cpus)
    ensures forall i :: 0 <= i < |cpus[c].ring.nodes| ==> cpus[c].ring.nodes[i] in NodesOf(cpus)
  {
  }

  lemma Foreign(cpus: seq<Percpu>, c: nat)
    requires Owned(cpus) && c < |cpus|
    ensures forall d :: 0 <= d < |cpus| && d != c ==> Apart(cpus[d], cpus[c])
  {
  }
}
