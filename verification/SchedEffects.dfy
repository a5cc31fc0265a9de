/**
 What each step of the scheduler does, said directly: which queue gains, loses or turns, which
 thread is current, which state changes, and that everything else stays as it was.
 */
module SchedEffects {
  import opened RunQueue
  import opened SchedModel
  import opened SchedSafety
  import opened SchedLoad
  import opened Wrappers

  /** CPUs other than c, and the number of CPUs, are as before. */
  ghost predicate OnlyCpu(s: Sched, s': Sched, c: nat) {
    |s'.cpus| == |s.cpus| && forall d :: 0 <= d < |s.cpus| && d != c ==> s'.cpus[d] == s.cpus[d]
  }

  /** Threads other than t are in the state they were in. */
  ghost predicate OnlyThread(s: Sched, s': Sched, t: Tid) {
    forall u :: u != t ==> StateOf(s'.state, u) == StateOf(s.state, u)
  }

  /** What identifies a CPU, and whether it is started. */
  ghost predicate SameCpu(a: Cpu, b: Cpu) {
    a.idle == b.idle && a.started == b.started
  }

  /** A thread added to a CPU is the last of that CPU's queue and runnable; nothing else changes. */
  lemma AddIs(s: Sched, t: Tid, c: nat)
    requires c < |s.cpus|
    ensures var s' := Apply(s, Add(t, c));
            && OnlyCpu(s, s', c) && OnlyThread(s, s', t) && StateOf(s'.state, t) == RUNNABLE
            && s'.cpus[c].queue == s.cpus[c].queue + [t] && s'.cpus[c].load == s.cpus[c].load + 1
            && SameCpu(s.cpus[c], s'.cpus[c])
            && s'.cpus[c].current == s.cpus[c].current && s'.cpus[c].inThread == s.cpus[c].inThread
  {
  }

  /** Automatic placement is adding to the first started CPU of least load. */
  lemma AddAutoIs(s: Sched, t: Tid, c: nat)
    requires SmallLoads(s) && c < |s.cpus| && s.cpus[c].started
    requires forall d :: 0 <= d < |s.cpus| && s.cpus[d].started ==>
               if d < c then s.cpus[c].load < s.cpus[d].load else s.cpus[c].load <= s.cpus[d].load
    ensures Apply(s, AddAuto(t)) == Apply(s, Add(t, c))
  {
    hide Least;
    LeastIs(s.cpus, |s.cpus|);
    var (load, m) := Least(s.cpus, |s.cpus|);
    assert load <= s.cpus[c].load;
    assert s.cpus[m].started && s.cpus[m].load == load;
    assert m >= c && m <= c;
  }

  /** With no CPU started, that is adding to CPU 0. */
  lemma {:induction false} AddAutoNone(s: Sched, t: Tid)
    requires s.cpus != [] && forall d :: 0 <= d < |s.cpus| ==> !s.cpus[d].started
    ensures Apply(s, AddAuto(t)) == Apply(s, Add(t, 0))
  {
    NoneStarted(s.cpus, |s.cpus|);
  }

  lemma {:induction false} NoneStarted(cpus: seq<Cpu>, n: nat)
    requires n <= |cpus| && forall d :: 0 <= d < |cpus| ==> !cpus[d].started
    ensures Least(cpus, n).1 == 0
  {
    if n > 0 {
      NoneStarted(cpus, n - 1);
    }
  }

  /**
   A selection: the first runnable thread of the queue gets the CPU and goes to the end of the queue, the
   threads behind it coming first; if there is none, the idle thread gets the CPU and the queue stays.
   */
  lemma DispatchIs(s: Sched, c: nat, i: nat)
    requires c < |s.cpus| && i <= |s.cpus[c].queue|
    requires forall j :: 0 <= j < i ==> StateOf(s.state, s.cpus[c].queue[j]) != RUNNABLE
    requires i < |s.cpus[c].queue| ==> StateOf(s.state, s.cpus[c].queue[i]) == RUNNABLE
    ensures var s', q := Apply(s, Dispatch(c)), s.cpus[c].queue;
            var t := if i < |q| then q[i] else s.cpus[c].idle;
            && OnlyCpu(s, s', c) && OnlyThread(s, s', t) && StateOf(s'.state, t) == ON_CPU
            && s'.cpus[c].current == Some(t) && s'.cpus[c].inThread
            && s'.cpus[c].queue == (if i < |q| then q[i + 1..] + q[..i] + [t] else q)
            && s'.cpus[c].load == s.cpus[c].load && SameCpu(s.cpus[c], s'.cpus[c])
  {
    hide FirstRunnable;
    var q := s.cpus[c].queue;
    FirstRunnableIs(s.state, q, i);
    if i < |q| {
      assert q[i + 1..] + q[..i + 1] == q[i + 1..] + q[..i] + [q[i]];
    }
  }

  /** Yielding: the thread is runnable again, and stays where it is in the queue and `current_thread`. */
  lemma YieldIs(s: Sched, c: nat)
    requires c < |s.cpus|
    ensures var s', cpu := Apply(s, Yield(c)), s.cpus[c];
            if cpu.current == None || cpu.current == Some(cpu.idle) then s' == s
            else
              var t := cpu.current.value;
              && OnlyCpu(s, s', c) && OnlyThread(s, s', t) && StateOf(s'.state, t) == RUNNABLE
              && s'.cpus[c].current == Some(t) && !s'.cpus[c].inThread
              && s'.cpus[c].queue == cpu.queue && s'.cpus[c].load == cpu.load && SameCpu(cpu, s'.cpus[c])
  {
  }

  /** The idle thread gives the CPU back, and nothing else happens. */
  lemma IdleYieldIs(s: Sched, c: nat)
    requires c < |s.cpus|
    ensures var s', cpu := Apply(s, IdleYield(c)), s.cpus[c];
            && OnlyCpu(s, s', c) && s'.state == s.state && !s'.cpus[c].inThread
            && s'.cpus[c].current == cpu.current && s'.cpus[c].queue == cpu.queue
            && s'.cpus[c].load == cpu.load && SameCpu(cpu, s'.cpus[c])
  {
  }

  /** q' is q without its entry t, in the same order. */
  ghost predicate Without(q: seq<Tid>, t: Tid, q': seq<Tid>) {
    if t in q then exists i :: 0 <= i < |q| && q[i] == t && q' == q[..i] + q[i + 1..] else q' == q
  }

  lemma RemovedIs(q: seq<Tid>, t: Tid)
    ensures Without(q, t, Removed(q, t))
  {
    hide Position;
  }

  /** Exiting: the thread leaves the queue and the CPU, and is in state EXIT. */
  lemma ExitIs(s: Sched, c: nat)
    requires Inv(s) && c < |s.cpus|
    ensures var s', cpu := Apply(s, Exit(c)), s.cpus[c];
            if cpu.current == None || cpu.current == Some(cpu.idle) then s' == s
            else
              var t := cpu.current.value;
              && OnlyCpu(s, s', c) && OnlyThread(s, s', t) && StateOf(s'.state, t) == EXIT
              && s'.cpus[c].current == None && !s'.cpus[c].inThread
              && Without(cpu.queue, t, s'.cpus[c].queue)
              && s'.cpus[c].load == |s'.cpus[c].queue| && SameCpu(cpu, s'.cpus[c])
  {
    hide Inv, Removed, Without;
    CpusOk(s, c);
    var cpu := s.cpus[c];
    if cpu.current.Some? {
      RemovedIs(cpu.queue, cpu.current.value);
      RemovedLength(cpu.queue, cpu.current.value);
      if cpu.current.value !in cpu.queue {
        NotThere(cpu.queue, cpu.current.value);
      }
    }
  }

  lemma NotThere(q: seq<Tid>, t: Tid)
    requires t !in q
    ensures Without(q, t, q)
  {
  }

  /** Removing: the thread leaves the one queue that holds it, keeping its state and, where it is current, the CPU. */
  lemma RemoveIs(s: Sched, t: Tid, c: nat)
    requires Inv(s) && c < |s.cpus| && t in s.cpus[c].queue
    ensures var s', cpu := Apply(s, Remove(t)), s.cpus[c];
            && OnlyCpu(s, s', c) && s'.state == s.state
            && Without(cpu.queue, t, s'.cpus[c].queue) && t !in s'.cpus[c].queue
            && s'.cpus[c].load == |s'.cpus[c].queue| && SameCpu(cpu, s'.cpus[c])
            && s'.cpus[c].current == cpu.current && s'.cpus[c].inThread == cpu.inThread
  {
    hide Inv, Removed, Without;
    CpusOk(s, c);
    var d := Holder(s.cpus, t, 0);
    QueuedOnlyHere(s, c, if d < |s.cpus| then d else c, t);
    assert d == c;
    RemovedIs(s.cpus[c].queue, t);
    RemovedLength(s.cpus[c].queue, t);
    RemovedMembers(s.cpus[c].queue, t);
  }

  lemma RemoveNothing(s: Sched, t: Tid)
    requires forall c :: 0 <= c < |s.cpus| ==> t !in s.cpus[c].queue
    ensures Apply(s, Remove(t)) == s
  {
  }

  /**
   Balancing, when the first most loaded started CPU has 2 or more threads than the first least loaded one and
   its first movable thread is at position i: that thread goes to the end of the other queue.
   */
  lemma BalanceIs(s: Sched, src: nat, dst: nat, i: nat)
    requires SmallLoads(s) && Inv(s) && src < |s.cpus| && dst < |s.cpus| && s.cpus[src].started && s.cpus[dst].started
    requires s.cpus[src].load >= s.cpus[dst].load + 2 && i < |s.cpus[src].queue|
    requires forall d :: 0 <= d < |s.cpus| && s.cpus[d].started ==>
               && (if d < src then s.cpus[d].load < s.cpus[src].load else s.cpus[d].load <= s.cpus[src].load)
               && (if d < dst then s.cpus[dst].load < s.cpus[d].load else s.cpus[dst].load <= s.cpus[d].load)
    requires Migratable(s, s.cpus[src], s.cpus[src].queue[i])
    requires forall j :: 0 <= j < i ==> !Migratable(s, s.cpus[src], s.cpus[src].queue[j])
    ensures var s', q := Apply(s, Balance), s.cpus[src].queue;
            && |s'.cpus| == |s.cpus| && s'.state == s.state
            && (forall d :: 0 <= d < |s.cpus| && d != src && d != dst ==> s'.cpus[d] == s.cpus[d])
            && s'.cpus[src] == s.cpus[src].(queue := q[..i] + q[i + 1..], load := s.cpus[src].load - 1)
            && s'.cpus[dst] == s.cpus[dst].(queue := s.cpus[dst].queue + [q[i]], load := s.cpus[dst].load + 1)
  {
    hide Inv, Most, Least, FirstMigratable, Migratable, Removed;
    Extremes(s, src, dst);
    var q := s.cpus[src].queue;
    FirstMigratableIs(s, s.cpus[src], q, i);
    CpusOk(s, src);
    FirstPlace(q, i);
    RemovedAt(q, q[i], i);
  }

  lemma Extremes(s: Sched, src: nat, dst: nat)
    requires SmallLoads(s) && src < |s.cpus| && dst < |s.cpus| && s.cpus[src].started && s.cpus[dst].started
    requires s.cpus[src].load >= s.cpus[dst].load + 2
    requires forall d :: 0 <= d < |s.cpus| && s.cpus[d].started ==>
               && (if d < src then s.cpus[d].load < s.cpus[src].load else s.cpus[d].load <= s.cpus[src].load)
               && (if d < dst then s.cpus[dst].load < s.cpus[d].load else s.cpus[dst].load <= s.cpus[d].load)
    ensures Most(s.cpus, |s.cpus|) == (s.cpus[src].load, src) && Least(s.cpus, |s.cpus|) == (s.cpus[dst].load, dst)
  {
    hide Least, Most;
    LeastIs(s.cpus, |s.cpus|);
    MostIs(s.cpus, |s.cpus|);
    var (least, m) := Least(s.cpus, |s.cpus|);
    var (most, n) := Most(s.cpus, |s.cpus|);
    assert least <= s.cpus[dst].load && most >= s.cpus[src].load;
    assert s.cpus[m].load == least && s.cpus[n].load == most;
    assert m >= dst && m <= dst && n >= src && n <= src;
  }

  lemma FirstPlace(q: seq<Tid>, i: nat)
    requires Distinct(q) && i < |q|
    ensures q[i] !in q[..i]
  {
  }

  /** Whatever is set is the state of that thread, and nothing else changes. */
  lemma SetStateIs(s: Sched, t: Tid, st: ThreadState)
    ensures var s' := Apply(s, SetState(t, st));
            s'.cpus == s.cpus && OnlyThread(s, s', t) && StateOf(s'.state, t) == st
  {
  }
}
