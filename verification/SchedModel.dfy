/**
 The SMP scheduler of `kernel/sched/smp_sched.c` as a step system over values. Each step
 is one function of the source, taken as atomic; the context switch ends a step.
 `SmpSched` shows that the code on heap rings takes exactly these steps.
 */
module SchedModel {
  import opened RunQueue
  import opened Wrappers

  const UINT32_MAX: nat := 0xFFFF_FFFF
  const LOAD_BALANCE_THRESHOLD: nat := 2

  /** The scheduler part of `struct percpu`. */
  datatype Cpu = Cpu(
    queue: seq<Tid>,          // the run queue, read from its head
    load: nat,                // num_threads
    current: Option<Tid>,     // current_thread
    idle: Tid,                // idle_thread
    started: bool,
    inThread: bool)           // a thread, not the scheduler loop, has the CPU

  datatype Sched = Sched(cpus: seq<Cpu>, state: map<Tid, ThreadState>)

  datatype Step =
    | Dispatch(c: nat)
    | Yield(c: nat)
    | IdleYield(c: nat)
    | Exit(c: nat)
    | Add(t: Tid, c: nat)
    | AddAuto(t: Tid)
    | Remove(t: Tid)
    | Balance
    | SetState(t: Tid, st: ThreadState)

  function Pushed(cpu: Cpu, t: Tid): Cpu {
    cpu.(queue := cpu.queue + [t], load := cpu.load + 1)
  }

  function Dropped(cpu: Cpu, t: Tid): Cpu {
    if t in cpu.queue then
      cpu.(queue := Removed(cpu.queue, t), load := if cpu.load == 0 then 0 else cpu.load - 1)
    else cpu
  }

  function WithCpu(s: Sched, c: nat, cpu: Cpu): Sched
    requires c < |s.cpus|
  {
    s.(cpus := s.cpus[c := cpu])
  }

  /** One iteration of the loop of `sched_run`, through `sched_get_next`. */
  function DispatchOn(s: Sched, c: nat): Sched
    requires c < |s.cpus|
  {
    var cpu := s.cpus[c];
    var i := FirstRunnable(s.state, cpu.queue);
    if i < |cpu.queue| then
      var t := cpu.queue[i];
      Sched(s.cpus[c := cpu.(queue := RotatedPast(cpu.queue, i), current := Some(t), inThread := true)],
            s.state[t := ON_CPU])
    else
      Sched(s.cpus[c := cpu.(current := Some(cpu.idle), inThread := true)], s.state[cpu.idle := ON_CPU])
  }

  /** `sched_yield`: the thread stays in the queue and stays `current_thread`. */
  function YieldOn(s: Sched, c: nat): Sched
    requires c < |s.cpus|
  {
    var cpu := s.cpus[c];
    if cpu.current == None || cpu.current == Some(cpu.idle) then s
    else Sched(s.cpus[c := cpu.(inThread := false)], s.state[cpu.current.value := RUNNABLE])
  }

  /** `sched_exit`: only the local queue is searched. */
  function ExitOn(s: Sched, c: nat): Sched
    requires c < |s.cpus|
  {
    var cpu := s.cpus[c];
    if cpu.current == None || cpu.current == Some(cpu.idle) then s
    else
      var t := cpu.current.value;
      Sched(s.cpus[c := Dropped(cpu, t).(current := None, inThread := false)], s.state[t := EXIT])
  }

  function AddTo(s: Sched, t: Tid, c: nat): Sched
    requires c < |s.cpus|
  {
    Sched(s.cpus[c := Pushed(s.cpus[c], t)], s.state[t := RUNNABLE])
  }

  /** The first CPU, from index c on, whose queue holds t. */
  function Holder(cpus: seq<Cpu>, t: Tid, c: nat): (d: nat)
    requires c <= |cpus|
    ensures c <= d <= |cpus| && (d < |cpus| ==> t in cpus[d].queue)
    ensures forall i :: c <= i < d ==> t !in cpus[i].queue
    decreases |cpus| - c
  {
    if c == |cpus| || t in cpus[c].queue then c else Holder(cpus, t, c + 1)
  }

  /** `sched_remove_thread`: search every CPU, stop at the first queue that holds t. */
  function RemoveFrom(s: Sched, t: Tid): Sched {
    var d := Holder(s.cpus, t, 0);
    if d < |s.cpus| then WithCpu(s, d, Dropped(s.cpus[d], t)) else s
  }

  /** The scan of `sched_find_least_loaded` and `sched_balance` over the first n CPUs: (min_load, min_cpu). */
  function Least(cpus: seq<Cpu>, n: nat): (r: (nat, nat))
    requires n <= |cpus|
    ensures r.1 == 0 || r.1 < n
  {
    if n == 0 then (UINT32_MAX, 0)
    else
      var (load, c) := Least(cpus, n - 1);
      if cpus[n - 1].started && cpus[n - 1].load < load then (cpus[n - 1].load, n - 1) else (load, c)
  }

  /** (max_load, max_cpu). */
  function Most(cpus: seq<Cpu>, n: nat): (r: (nat, nat))
    requires n <= |cpus|
    ensures r.1 == 0 || r.1 < n
  {
    if n == 0 then (0, 0)
    else
      var (load, c) := Most(cpus, n - 1);
      if cpus[n - 1].started && cpus[n - 1].load > load then (cpus[n - 1].load, n - 1) else (load, c)
  }

  predicate Migratable(s: Sched, cpu: Cpu, t: Tid) {
    Some(t) != cpu.current && t != cpu.idle && Runnable(s.state, t)
  }

  /** The first migratable position, or the length if there is none. */
  function FirstMigratable(s: Sched, cpu: Cpu, q: seq<Tid>): (i: nat)
    ensures i <= |q| && (i < |q| ==> Migratable(s, cpu, q[i]))
    ensures forall j :: 0 <= j < i ==> !Migratable(s, cpu, q[j])
  {
    if q == [] || Migratable(s, cpu, q[0]) then 0 else 1 + FirstMigratable(s, cpu, q[1..])
  }

  lemma FirstMigratableIs(s: Sched, cpu: Cpu, q: seq<Tid>, i: nat)
    requires i <= |q| && (i < |q| ==> Migratable(s, cpu, q[i]))
    requires forall j :: 0 <= j < i ==> !Migratable(s, cpu, q[j])
    ensures FirstMigratable(s, cpu, q) == i
  {
    hide FirstMigratable, Migratable;
    var k := FirstMigratable(s, cpu, q);
    assert k < |q| ==> Migratable(s, cpu, q[k]);
    assert i < |q| ==> Migratable(s, cpu, q[i]);
  }

  /** Move t from the queue of one CPU to the end of another's. */
  function Migrate(s: Sched, src: nat, dst: nat, t: Tid): Sched
    requires src < |s.cpus| && dst < |s.cpus|
  {
    var s1 := WithCpu(s, src, Dropped(s.cpus[src], t));
    WithCpu(s1, dst, Pushed(s1.cpus[dst], t))
  }

  /** The second half of `sched_balance`: move the first thread that may move, if the source has more than one. */
  function MigrateFirst(s: Sched, src: nat, dst: nat): Sched
    requires src < |s.cpus| && dst < |s.cpus|
  {
    var cpu := s.cpus[src];
    var i := FirstMigratable(s, cpu, cpu.queue);
    if cpu.queue != [] && cpu.load > 1 && i < |cpu.queue| then Migrate(s, src, dst, cpu.queue[i]) else s
  }

  /** `sched_balance`, with its unsigned 32-bit subtraction. */
  function BalanceAll(s: Sched): Sched {
    var (maxLoad, src) := Most(s.cpus, |s.cpus|);
    var (minLoad, dst) := Least(s.cpus, |s.cpus|);
    if (maxLoad - minLoad) % (UINT32_MAX + 1) < LOAD_BALANCE_THRESHOLD || |s.cpus| == 0 then s
    else MigrateFirst(s, src, dst)
  }

  /** A step that names a CPU that does not exist does nothing. */
  function Apply(s: Sched, step: Step): Sched {
    match step
    case Dispatch(c) => if c < |s.cpus| then DispatchOn(s, c) else s
    case Yield(c) => if c < |s.cpus| then YieldOn(s, c) else s
    case IdleYield(c) => if c < |s.cpus| then WithCpu(s, c, s.cpus[c].(inThread := false)) else s
    case Exit(c) => if c < |s.cpus| then ExitOn(s, c) else s
    case Add(t, c) => if c < |s.cpus| then AddTo(s, t, c) else s
    case AddAuto(t) => if s.cpus != [] then AddTo(s, t, Least(s.cpus, |s.cpus|).1) else s
    case Remove(t) => RemoveFrom(s, t)
    case Balance => BalanceAll(s)
    case SetState(t, st) => s.(state := s.state[t := st])
  }

  /** t is in no queue, current nowhere, and no CPU's idle thread: what a caller of `sched_add_thread` hands over. */
  ghost predicate Outside(s: Sched, t: Tid) {
    forall c :: 0 <= c < |s.cpus| ==>
      t !in s.cpus[c].queue && s.cpus[c].current != Some(t) && s.cpus[c].idle != t
  }

  /** No thread counter has reached the largest unsigned 32-bit value. */
  ghost predicate SmallLoads(s: Sched) {
    forall c :: 0 <= c < |s.cpus| ==> s.cpus[c].load < UINT32_MAX
  }

  /** Who may take which step: scheduler code and thread code of one CPU alternate, and added threads are new. */
  ghost predicate Enabled(s: Sched, step: Step) {
    match step
    case Dispatch(c) => c < |s.cpus| && !s.cpus[c].inThread
    case Yield(c) => c < |s.cpus| && s.cpus[c].inThread
    case IdleYield(c) => c < |s.cpus| && s.cpus[c].inThread && s.cpus[c].current == Some(s.cpus[c].idle)
    case Exit(c) => c < |s.cpus| && s.cpus[c].inThread
    case Add(t, c) => c < |s.cpus| && Outside(s, t)
    case AddAuto(t) => s.cpus != [] && Outside(s, t) && SmallLoads(s)
    case Balance => SmallLoads(s)
    case _ => true
  }

  ghost predicate Legal(s: Sched, steps: seq<Step>)
    decreases steps
  {
    steps != [] ==> Enabled(s, steps[0]) && Legal(Apply(s, steps[0]), steps[1..])
  }

  function After(s: Sched, steps: seq<Step>): Sched
    decreases steps
  {
    if steps == [] then s else After(Apply(s, steps[0]), steps[1..])
  }

  // The safety invariant

  /** What holds of one CPU. */
  ghost predicate CpuOk(cpu: Cpu) {
    && cpu.load == |cpu.queue| && Distinct(cpu.queue)
    && cpu.idle !in cpu.queue
  }

  /** What holds between two different CPUs: no thread in both queues, current on both, or current on one and queued on the other. */
  ghost predicate Apart(a: Cpu, b: Cpu) {
    && (forall t :: t in a.queue ==> t !in b.queue)
    && a.idle != b.idle && a.idle !in b.queue
    && (a.current.Some? ==> a.current != b.current && a.current.value !in b.queue && a.current.value != b.idle)
  }

  ghost predicate Inv(s: Sched) {
    && (forall c :: 0 <= c < |s.cpus| ==> CpuOk(s.cpus[c]))
    && (forall c, d :: 0 <= c < |s.cpus| && 0 <= d < |s.cpus| && c != d ==> Apart(s.cpus[c], s.cpus[d]))
  }

  // What the scans find: the first CPU of least, and the first of greatest, load

  lemma {:induction false} LeastIs(cpus: seq<Cpu>, n: nat)
    requires n <= |cpus|
    ensures var (load, c) := Least(cpus, n);
            && load <= UINT32_MAX && (forall j :: 0 <= j < n && cpus[j].started ==> load <= cpus[j].load)
            && (load < UINT32_MAX ==> c < n && cpus[c].started && cpus[c].load == load)
            && (load == UINT32_MAX ==> c == 0)
            && (forall j :: 0 <= j < c && cpus[j].started ==> load < cpus[j].load)
  {
    if n > 0 {
      LeastIs(cpus, n - 1);
    }
  }

  lemma {:induction false} MostIs(cpus: seq<Cpu>, n: nat)
    requires n <= |cpus|
    ensures var (load, c) := Most(cpus, n);
            && (forall j :: 0 <= j < n && cpus[j].started ==> cpus[j].load <= load)
            && (load > 0 ==> c < n && cpus[c].started && cpus[c].load == load)
            && (forall j :: 0 <= j < c && cpus[j].started ==> cpus[j].load < load)
  {
    if n > 0 {
      MostIs(cpus, n - 1);
    }
  }

  /** When `sched_balance` goes past its threshold test, it has found a most and a least loaded CPU, at least 2 apart. */
  lemma BalancePair(s: Sched)
    requires SmallLoads(s)
    ensures var (maxLoad, src) := Most(s.cpus, |s.cpus|);
            var (minLoad, dst) := Least(s.cpus, |s.cpus|);
            (maxLoad - minLoad) % (UINT32_MAX + 1) >= LOAD_BALANCE_THRESHOLD && |s.cpus| > 0 ==>
              && src != dst && s.cpus[src].started && s.cpus[dst].started
              && s.cpus[src].load == maxLoad && s.cpus[dst].load == minLoad && maxLoad >= minLoad + 2
  {
    hide Least, Most;
    LeastIs(s.cpus, |s.cpus|);
    MostIs(s.cpus, |s.cpus|);
  }
}
