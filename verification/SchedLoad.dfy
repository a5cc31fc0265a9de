/**
 Placement and load balancing: automatic placement keeps the loads within 1 of each
 other, and repeated balancing gets them there after finitely many migrations.
 */
module SchedLoad {
  import opened RunQueue
  import opened SchedModel
  import opened SchedSafety
  import opened Wrappers

  /** The loads of any two started CPUs differ by at most 1. */
  ghost predicate Balanced(s: Sched) {
    forall c, d :: 0 <= c < |s.cpus| && 0 <= d < |s.cpus| && s.cpus[c].started && s.cpus[d].started ==>
      s.cpus[c].load <= s.cpus[d].load + 1
  }

  // Automatic placement

  lemma AddAutoKeepsBalanced(s: Sched, t: Tid)
    requires Balanced(s) && SmallLoads(s) && s.cpus != []
    ensures Balanced(Apply(s, AddAuto(t)))
  {
    hide Least;
    LeastIs(s.cpus, |s.cpus|);
  }

  function AutoAdds(ts: seq<Tid>): seq<Step> {
    if ts == [] then [] else [AddAuto(ts[0])] + AutoAdds(ts[1..])
  }

  /** Starting from equal loads, or any loads within 1, placing any number of threads keeps them within 1. */
  lemma {:induction false} PlacementKeepsBalanced(s: Sched, ts: seq<Tid>)
    requires Balanced(s) && s.cpus != []
    requires forall c :: 0 <= c < |s.cpus| ==> s.cpus[c].load + |ts| < UINT32_MAX
    ensures Balanced(After(s, AutoAdds(ts)))
    decreases ts
  {
    hide Balanced;
    if ts != [] {
      AddAutoKeepsBalanced(s, ts[0]);
      assert AutoAdds(ts)[1..] == AutoAdds(ts[1..]);
      var s1 := Apply(s, AddAuto(ts[0]));
      PlacementKeepsBalanced(s1, ts[1..]);
    }
  }

  // What one call of sched_balance does

  /** All queued threads, with multiplicity. */
  ghost function Queued(cpus: seq<Cpu>): multiset<Tid> {
    if cpus == [] then multiset{} else multiset(cpus[0].queue) + Queued(cpus[1..])
  }

  function Square(n: nat): nat { n * n }

  function SumOfSquares(cpus: seq<Cpu>): nat {
    if cpus == [] then 0 else Square(cpus[0].load) + SumOfSquares(cpus[1..])
  }

  function TotalLoad(cpus: seq<Cpu>): nat {
    if cpus == [] then 0 else cpus[0].load + TotalLoad(cpus[1..])
  }

  /** Replacing one CPU changes the sums by the difference. */
  lemma {:induction false} ReplaceInSums(cpus: seq<Cpu>, c: nat, cpu: Cpu)
    requires c < |cpus|
    ensures SumOfSquares(cpus[c := cpu]) + Square(cpus[c].load) == SumOfSquares(cpus) + Square(cpu.load)
    ensures TotalLoad(cpus[c := cpu]) + cpus[c].load == TotalLoad(cpus) + cpu.load
  {
    hide Square;
    if c > 0 {
      ReplaceInSums(cpus[1..], c - 1, cpu);
      assert cpus[c := cpu][1..] == cpus[1..][c - 1 := cpu];
    } else {
      assert cpus[c := cpu][1..] == cpus[1..];
    }
  }

  lemma {:induction false} ReplaceInQueued(cpus: seq<Cpu>, c: nat, cpu: Cpu, t: Tid)
    requires c < |cpus|
    ensures Queued(cpus[c := cpu])[t] + multiset(cpus[c].queue)[t] == Queued(cpus)[t] + multiset(cpu.queue)[t]
  {
    if c > 0 {
      ReplaceInQueued(cpus[1..], c - 1, cpu, t);
      assert cpus[c := cpu][1..] == cpus[1..][c - 1 := cpu];
    } else {
      assert cpus[c := cpu][1..] == cpus[1..];
    }
  }

  lemma RemovedMultiset(q: seq<Tid>, t: Tid)
    requires t in q
    ensures multiset(q) == multiset(Removed(q, t)) + multiset{t}
  {
    var i := Position(q, t);
    assert q == q[..i] + [q[i]] + q[i + 1..];
  }

  /** A migration keeps the collection of queued threads. */
  lemma MigrationKeepsThreads(s: Sched, src: nat, dst: nat, t: Tid)
    requires src < |s.cpus| && dst < |s.cpus| && src != dst && t in s.cpus[src].queue
    ensures Queued(Migrate(s, src, dst, t).cpus) == Queued(s.cpus)
  {
    hide Removed, Queued;
    RemovedMultiset(s.cpus[src].queue, t);
    var s1 := WithCpu(s, src, Dropped(s.cpus[src], t));
    forall u ensures Queued(Migrate(s, src, dst, t).cpus)[u] == Queued(s.cpus)[u] {
      ReplaceInQueued(s.cpus, src, Dropped(s.cpus[src], t), u);
      ReplaceInQueued(s1.cpus, dst, Pushed(s1.cpus[dst], t), u);
    }
  }

  lemma SquareStep(a: nat, b: nat)
    requires a > 0
    ensures Square(a) - Square(a - 1) == 2 * a - 1 && Square(b + 1) - Square(b) == 2 * b + 1
  {
  }

  /** A migration keeps the total load and lowers the sum of the squared loads by 2 (max - min) - 2. */
  lemma MigrationEffect(s: Sched, src: nat, dst: nat, t: Tid)
    requires src < |s.cpus| && dst < |s.cpus| && src != dst && t in s.cpus[src].queue
    requires s.cpus[src].load >= s.cpus[dst].load + 2
    ensures var s' := Migrate(s, src, dst, t);
            && TotalLoad(s'.cpus) == TotalLoad(s.cpus)
            && SumOfSquares(s'.cpus) == SumOfSquares(s.cpus) - (2 * (s.cpus[src].load - s.cpus[dst].load) - 2)
  {
    hide Removed, SumOfSquares, TotalLoad, Square;
    var s1 := WithCpu(s, src, Dropped(s.cpus[src], t));
    ReplaceInSums(s.cpus, src, Dropped(s.cpus[src], t));
    ReplaceInSums(s1.cpus, dst, Pushed(s1.cpus[dst], t));
    SquareStep(s.cpus[src].load, s.cpus[dst].load);
  }

  /** Every queued thread that is not current on its CPU is runnable. */
  ghost predicate AllReady(s: Sched) {
    forall c, t :: 0 <= c < |s.cpus| && t in s.cpus[c].queue ==> MayRun(s, c, t)
  }

  ghost predicate MayRun(s: Sched, c: nat, t: Tid)
    requires c < |s.cpus|
  {
    Runnable(s.state, t) || s.cpus[c].current == Some(t)
  }

  /** A queue of at least two ready threads has one to give away. */
  lemma SomeMigratable(s: Sched, c: nat)
    requires Inv(s) && AllReady(s) && c < |s.cpus| && s.cpus[c].load >= 2
    ensures FirstMigratable(s, s.cpus[c], s.cpus[c].queue) < |s.cpus[c].queue|
  {
    hide FirstMigratable, StateOf;
    var q := s.cpus[c].queue;
    assert CpuOk(s.cpus[c]);
    assert q[0] in q && q[1] in q && q[0] != q[1];
    var j := if Some(q[0]) == s.cpus[c].current then 1 else 0;
    assert MayRun(s, c, q[j]);
    assert Migratable(s, s.cpus[c], q[j]);
  }

  /** The thread `sched_balance` moves, if it moves one. */
  function Victim(s: Sched): (r: Option<(nat, nat, Tid)>)
    ensures r.Some? ==> r.value.0 < |s.cpus| && r.value.1 < |s.cpus| && r.value.2 in s.cpus[r.value.0].queue
  {
    var (maxLoad, src) := Most(s.cpus, |s.cpus|);
    var (minLoad, dst) := Least(s.cpus, |s.cpus|);
    if (maxLoad - minLoad) % (UINT32_MAX + 1) < LOAD_BALANCE_THRESHOLD || |s.cpus| == 0 then None
    else
      var cpu := s.cpus[src];
      var i := FirstMigratable(s, cpu, cpu.queue);
      if cpu.queue != [] && cpu.load > 1 && i < |cpu.queue| then Some((src, dst, cpu.queue[i])) else None
  }

  lemma VictimIs(s: Sched)
    requires SmallLoads(s)
    ensures Victim(s).None? ==> BalanceAll(s) == s
    ensures Victim(s).Some? ==>
              var (src, dst, t) := Victim(s).value;
              && BalanceAll(s) == Migrate(s, src, dst, t) && src != dst
              && s.cpus[src].load >= s.cpus[dst].load + 2 && Migratable(s, s.cpus[src], t)
              && s.cpus[src].started && s.cpus[dst].started
  {
    hide Migrate, FirstMigratable, Most, Least, SmallLoads, Migratable;
    BalancePair(s);
  }

  /**
   `sched_balance` moves a thread exactly when two started CPUs differ by at least 2 and the first most
   loaded one has a runnable thread that is neither current nor idle.
   */
  lemma VictimIff(s: Sched)
    requires Inv(s) && SmallLoads(s) && s.cpus != []
    ensures var cpu := s.cpus[Most(s.cpus, |s.cpus|).1];
            Victim(s).Some? <==> !Balanced(s) && exists i :: 0 <= i < |cpu.queue| && Migratable(s, cpu, cpu.queue[i])
  {
    hide Inv, Migrate, FirstMigratable, Most, Least, Migratable;
    VictimIs(s);
    LeastIs(s.cpus, |s.cpus|);
    MostIs(s.cpus, |s.cpus|);
    var (load, src) := Most(s.cpus, |s.cpus|);
    CpusOk(s, src);
    if !Balanced(s) {
      var c, d :| 0 <= c < |s.cpus| && 0 <= d < |s.cpus| && s.cpus[c].started && s.cpus[d].started
                  && s.cpus[c].load > s.cpus[d].load + 1;
      assert load >= Least(s.cpus, |s.cpus|).0 + 2;
    }
  }

  lemma VictimIffUnbalanced(s: Sched)
    requires Inv(s) && SmallLoads(s) && AllReady(s)
    ensures Victim(s).Some? <==> !Balanced(s)
  {
    hide Inv, FirstMigratable, Most, Least, AllReady, Migratable;
    if s.cpus != [] {
      VictimIff(s);
      MostIs(s.cpus, |s.cpus|);
      var src := Most(s.cpus, |s.cpus|).1;
      if !Balanced(s) {
        SomeMigratable(s, src);
      }
    }
  }

  /** What one call of `sched_balance` does to the queued threads and to the loads. */
  lemma BalanceEffect(s: Sched)
    requires Inv(s) && SmallLoads(s) && AllReady(s)
    ensures Balanced(s) ==> BalanceAll(s) == s
    ensures !Balanced(s) ==> SumOfSquares(BalanceAll(s).cpus) + 2 <= SumOfSquares(s.cpus)
    ensures Queued(BalanceAll(s).cpus) == Queued(s.cpus) && TotalLoad(BalanceAll(s).cpus) == TotalLoad(s.cpus)
  {
    hide Inv, Migrate, BalanceAll, Queued, SumOfSquares, TotalLoad, SmallLoads, AllReady, Balanced, Victim, StateOf;
    VictimIs(s);
    VictimIffUnbalanced(s);
    if Victim(s).Some? {
      var (src, dst, t) := Victim(s).value;
      MigrationKeepsThreads(s, src, dst, t);
      MigrationEffect(s, src, dst, t);
    }
  }

  /** Nothing else about the state changes, and the next call starts from the same conditions. */
  lemma BalanceKeepsReady(s: Sched)
    requires Inv(s) && SmallLoads(s) && AllReady(s)
    ensures SmallLoads(BalanceAll(s)) && AllReady(BalanceAll(s)) && Inv(BalanceAll(s))
  {
    hide Inv, BalanceAll, Victim, StateOf, Removed;
    StepKeeps(s, Balance);
    VictimIs(s);
    if Victim(s).Some? {
      var (src, dst, t) := Victim(s).value;
      var s' := BalanceAll(s);
      RemovedSubset(s.cpus[src].queue, t);
      forall c, u | 0 <= c < |s.cpus| && u in s'.cpus[c].queue ensures MayRun(s', c, u) {
        if c == dst && u == t {
        } else {
          assert MayRun(s, c, u);
        }
      }
    }
  }

  function Rounds(s: Sched, n: nat): Sched
    decreases n
  {
    if n == 0 then s else Rounds(BalanceAll(s), n - 1)
  }

  /**
   Convergence: from any reachable loads, calling `sched_balance` at most half as often as the sum of the
   squared loads leaves every two started CPUs within 1 of each other, with the same queued threads.
   */
  lemma {:induction false} BalancingConverges(s: Sched, n: nat)
    requires Inv(s) && SmallLoads(s) && AllReady(s) && 2 * n >= SumOfSquares(s.cpus)
    ensures Balanced(Rounds(s, n)) && Queued(Rounds(s, n).cpus) == Queued(s.cpus)
    decreases n
  {
    hide Inv, BalanceAll, SmallLoads, AllReady, Queued, SumOfSquares, TotalLoad, Balanced;
    BalanceEffect(s);
    if n > 0 {
      BalanceKeepsReady(s);
      if Balanced(s) {
        BalancedStays(s, n);
      } else {
        BalancingConverges(BalanceAll(s), n - 1);
      }
    }
  }

  lemma {:induction false} BalancedStays(s: Sched, n: nat)
    requires Inv(s) && SmallLoads(s) && AllReady(s) && Balanced(s)
    ensures Rounds(s, n) == s
    decreases n
  {
    hide Inv, BalanceAll, SmallLoads, AllReady, Queued, SumOfSquares, TotalLoad, Balanced;
    if n > 0 {
      BalanceEffect(s);
      BalancedStays(s, n - 1);
    }
  }

  // Every reachable state meets the conditions, as long as nothing outside the scheduler changes a thread's state

  /** More than ready, and kept by every scheduler step: a queued thread is runnable, or is running. */
  ghost predicate AllSettled(s: Sched) {
    forall c, t :: 0 <= c < |s.cpus| && t in s.cpus[c].queue ==> Settled(s, c, t)
  }

  ghost predicate Settled(s: Sched, c: nat, t: Tid)
    requires c < |s.cpus|
  {
    Runnable(s.state, t) || (s.cpus[c].inThread && s.cpus[c].current == Some(t))
  }

  lemma SettledIsReady(s: Sched)
    requires AllSettled(s)
    ensures AllReady(s)
  {
    hide Runnable;
    forall c, t | 0 <= c < |s.cpus| && t in s.cpus[c].queue ensures MayRun(s, c, t) {
      assert Settled(s, c, t);
    }
  }

  lemma BalanceKeepsSettled(s: Sched)
    requires SmallLoads(s) && AllSettled(s)
    ensures AllSettled(BalanceAll(s))
  {
    hide BalanceAll, Victim, StateOf, Removed;
    VictimIs(s);
    if Victim(s).Some? {
      var (src, dst, t) := Victim(s).value;
      var s' := BalanceAll(s);
      RemovedSubset(s.cpus[src].queue, t);
      forall c, u | 0 <= c < |s.cpus| && u in s'.cpus[c].queue ensures Settled(s', c, u) {
        if c != dst || u != t {
          assert Settled(s, c, u);
        }
      }
    }
  }

  lemma DispatchReady(s: Sched, c: nat)
    requires Inv(s) && AllSettled(s) && c < |s.cpus| && !s.cpus[c].inThread
    ensures AllSettled(DispatchOn(s, c))
  {
    hide Inv, FirstRunnable, RotatedPast;
    var s', cpu := DispatchOn(s, c), s.cpus[c];
    var i := FirstRunnable(s.state, cpu.queue);
    if i < |cpu.queue| {
      RotatedMembers(cpu.queue, i);
    }
    forall d, u | 0 <= d < |s'.cpus| && u in s'.cpus[d].queue ensures Settled(s', d, u) {
      assert u in s.cpus[d].queue && Settled(s, d, u);
      QueuedOnlyHere(s, d, c, u);
    }
  }

  lemma ExitReady(s: Sched, c: nat)
    requires Inv(s) && AllSettled(s) && c < |s.cpus|
    ensures AllSettled(ExitOn(s, c))
  {
    hide Inv, Removed, Outside;
    var s', cpu := ExitOn(s, c), s.cpus[c];
    if cpu.current.Some? && cpu.current != Some(cpu.idle) {
      ExitRemovesEverywhere(s, c);
      RemovedSubset(cpu.queue, cpu.current.value);
      forall d, u | 0 <= d < |s'.cpus| && u in s'.cpus[d].queue ensures Settled(s', d, u) {
        assert u in s.cpus[d].queue && Settled(s, d, u);
        NotQueued(s', cpu.current.value, d);
      }
    }
  }

  lemma NotQueued(s: Sched, t: Tid, c: nat)
    requires Outside(s, t) && c < |s.cpus|
    ensures t !in s.cpus[c].queue
  {
  }

  lemma YieldReady(s: Sched, c: nat)
    requires Inv(s) && AllSettled(s) && c < |s.cpus|
    ensures AllSettled(YieldOn(s, c))
    ensures s.cpus[c].current == Some(s.cpus[c].idle) ==> AllSettled(WithCpu(s, c, s.cpus[c].(inThread := false)))
  {
    hide Inv;
    CpusOk(s, c);
  }

  lemma DropReady(s: Sched, c: nat, t: Tid)
    requires AllSettled(s) && c < |s.cpus|
    ensures AllSettled(WithCpu(s, c, Dropped(s.cpus[c], t)))
  {
    hide Removed, Runnable;
    var s' := WithCpu(s, c, Dropped(s.cpus[c], t));
    RemovedSubset(s.cpus[c].queue, t);
    forall d, u | 0 <= d < |s'.cpus| && u in s'.cpus[d].queue ensures Settled(s', d, u) {
      assert u in s.cpus[d].queue && Settled(s, d, u);
    }
  }

  lemma AddReady(s: Sched, t: Tid, c: nat)
    requires AllSettled(s) && c < |s.cpus|
    ensures AllSettled(AddTo(s, t, c))
  {
    var s' := AddTo(s, t, c);
    forall d, u | 0 <= d < |s'.cpus| && u in s'.cpus[d].queue ensures Settled(s', d, u) {
      assert u != t ==> u in s.cpus[d].queue && Settled(s, d, u);
    }
  }

  lemma StepReady(s: Sched, step: Step)
    requires Inv(s) && AllSettled(s) && Enabled(s, step) && !step.SetState?
    ensures AllSettled(Apply(s, step))
  {
    hide Inv, AllSettled, BalanceAll, DispatchOn, ExitOn, YieldOn, Least, Dropped, AddTo, Holder, Outside, SmallLoads;
    match step
    case Dispatch(c) => DispatchReady(s, c);
    case Yield(c) => YieldReady(s, c);
    case IdleYield(c) => YieldReady(s, c);
    case Exit(c) => ExitReady(s, c);
    case Add(t, c) => AddReady(s, t, c);
    case AddAuto(t) => AddReady(s, t, Least(s.cpus, |s.cpus|).1);
    case Remove(t) =>
      var d := Holder(s.cpus, t, 0);
      if d < |s.cpus| {
        DropReady(s, d, t);
      }
    case Balance => BalanceKeepsSettled(s);
  }

  lemma {:induction false} RunReady(s: Sched, steps: seq<Step>)
    requires Inv(s) && AllSettled(s) && Legal(s, steps) && forall i :: 0 <= i < |steps| ==> !steps[i].SetState?
    ensures AllSettled(After(s, steps)) && Inv(After(s, steps))
    decreases steps
  {
    hide Inv, AllSettled, Apply, Enabled;
    if steps != [] {
      StepKeeps(s, steps[0]);
      StepReady(s, steps[0]);
      RunReady(Apply(s, steps[0]), steps[1..]);
    }
  }

  /** From boot, after any legal run, repeated balancing evens out the load and loses no thread. */
  lemma ReachableConverges(s0: Sched, steps: seq<Step>, n: nat)
    requires Init(s0) && Legal(s0, steps) && forall i :: 0 <= i < |steps| ==> !steps[i].SetState?
    requires SmallLoads(After(s0, steps)) && 2 * n >= SumOfSquares(After(s0, steps).cpus)
    ensures var s := After(s0, steps);
            Balanced(Rounds(s, n)) && Queued(Rounds(s, n).cpus) == Queued(s.cpus)
  {
    hide Inv, Legal, After, Balanced, Queued, SumOfSquares, Rounds;
    InitIsSafe(s0);
    assert AllSettled(s0);
    RunReady(s0, steps);
    SettledIsReady(After(s0, steps));
    BalancingConverges(After(s0, steps), n);
  }
}
