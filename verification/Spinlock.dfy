/**
 Spinlocks over nested interrupt disabling, `kernel/sync/spinlock.c` with `pushcli` and
 `popcli` of `kernel/sched/percpu.c`, as an interleaving of any number of CPUs over any
 number of locks. One step is one access to a lock word, or one `pushcli` or `popcli`,
 which touch only the CPU's own state.
 */
module Spinlock {
  import opened Wrappers

  // Interrupt state of one CPU

  datatype Irq = Irq(
    enabled: bool,      // FL_IF in the flags register
    ncli: int,
    intena: bool)

  function PushCli(i: Irq): Irq {
    Irq(false, i.ncli + 1, if i.ncli == 0 then i.enabled else i.intena)
  }

  /** None stands for either panic. */
  function PopCli(i: Irq): Option<Irq> {
    if i.enabled || i.ncli - 1 < 0 then None
    else Some(Irq(i.ncli - 1 == 0 && i.intena, i.ncli - 1, i.intena))
  }

  class Percpu {
    var enabled: bool
    var ncli: int
    var intena: bool

    function Abs(): Irq
      reads this
    {
      Irq(enabled, ncli, intena)
    }

    method Push()
      modifies this
      ensures Abs() == PushCli(old(Abs()))
    {
      var flags := enabled;
      enabled := false;
      if ncli == 0 {
        intena := flags;
      }
      ncli := ncli + 1;
    }

    /** False where the source panics. */
    method Pop() returns (ok: bool)
      modifies this
      ensures ok <==> PopCli(old(Abs())).Some?
      ensures ok ==> Some(Abs()) == PopCli(old(Abs()))
    {
      if enabled {
        return false;
      }
      ncli := ncli - 1;
      if ncli < 0 {
        return false;
      }
      if ncli == 0 && intena {
        enabled := true;
      }
      return true;
    }
  }

  // The interleaving

  type Lock = nat

  /** Where a CPU stands in `acquire_spinlock`, `release_spinlock` or `holding_spinlock`. */
  datatype Pc =
    | Outside                                            // in none of them
    | Spinning(l: Lock)                                  // interrupts off, about to exchange
    | Asking(l: Lock, releasing: bool)                   // in holding_spinlock, about to read the word
    | Answered(l: Lock, releasing: bool, locked: bool)   // about to leave holding_spinlock
    | Storing(l: Lock)                                   // about to clear the word
    | Leaving                                            // about to restore interrupts
    | Panic

  /** `held` records which locks the CPU has acquired and not yet released. */
  datatype Cpu = Cpu(irq: Irq, pc: Pc, held: set<Lock>)

  datatype System = System(cpus: seq<Cpu>, locked: map<Lock, bool>)

  datatype Step =
    | Acquire(c: nat, l: Lock)
    | Exchange(c: nat)
    | Release(c: nat, l: Lock)
    | Query(c: nat, l: Lock)
    | Read(c: nat)
    | Answer(c: nat)
    | Store(c: nat)
    | Leave(c: nat)
    | Interrupts(c: nat, on: bool)     // sti and cli elsewhere in the kernel

  predicate IsLocked(s: System, l: Lock) {
    l in s.locked && s.locked[l]
  }

  function At(s: System, c: nat, cpu: Cpu): System
    requires c < |s.cpus|
  {
    s.(cpus := s.cpus[c := cpu])
  }

  /** `popcli`, then on to the given place, or panic. */
  function PopTo(cpu: Cpu, pc: Pc): Cpu {
    match PopCli(cpu.irq)
    case Some(irq) => cpu.(irq := irq, pc := pc)
    case None => cpu.(pc := Panic)
  }

  /** What the step does; a step whose CPU stands elsewhere does nothing. */
  function Apply(s: System, step: Step): System {
    if step.c >= |s.cpus| then s
    else
      var c, cpu := step.c, s.cpus[step.c];
      match (step, cpu.pc)
      case (Acquire(_, l), Outside) => At(s, c, cpu.(irq := PushCli(cpu.irq), pc := Spinning(l)))
      case (Exchange(_), Spinning(l)) =>
        var s' := s.(locked := s.locked[l := true]);
        if IsLocked(s, l) then s' else At(s', c, cpu.(pc := Outside, held := cpu.held + {l}))
      case (Release(_, l), Outside) => At(s, c, cpu.(irq := PushCli(cpu.irq), pc := Asking(l, true)))
      case (Query(_, l), Outside) => At(s, c, cpu.(irq := PushCli(cpu.irq), pc := Asking(l, false)))
      case (Read(_), Asking(l, releasing)) => At(s, c, cpu.(pc := Answered(l, releasing, IsLocked(s, l))))
      case (Answer(_), Answered(l, releasing, locked)) =>
        At(s, c, PopTo(cpu, if !releasing then Outside else if locked then Storing(l) else Panic))
      case (Store(_), Storing(l)) =>
        At(s.(locked := s.locked[l := false]), c, cpu.(pc := Leaving, held := cpu.held - {l}))
      case (Leave(_), Leaving) => At(s, c, PopTo(cpu, Outside))
      case (Interrupts(_, on), Outside) => At(s, c, cpu.(irq := cpu.irq.(enabled := on)))
      case _ => s
  }

  /** The rules for callers: release only what you hold, and leave the interrupt flag alone while you hold a lock. */
  ghost predicate Enabled(s: System, step: Step) {
    && step.c < |s.cpus|
    && match step
       case Release(c, l) => l in s.cpus[c].held
       case Interrupts(c, _) => s.cpus[c].irq.ncli == 0
       case _ => true
  }

  ghost predicate Legal(s: System, steps: seq<Step>)
    decreases steps
  {
    steps != [] ==> Enabled(s, steps[0]) && Legal(Apply(s, steps[0]), steps[1..])
  }

  function After(s: System, steps: seq<Step>): System
    decreases steps
  {
    if steps == [] then s else After(Apply(s, steps[0]), steps[1..])
  }

  // The invariant

  /** How many `pushcli` calls inside the current operation are not yet undone, beyond one for each held lock. */
  function Pending(pc: Pc): nat {
    if pc.Spinning? || pc.Asking? || pc.Answered? || pc.Leaving? then 1 else 0
  }

  ghost predicate CpuOk(cpu: Cpu) {
    && cpu.pc != Panic
    && cpu.irq.ncli == |cpu.held| + Pending(cpu.pc)
    && (cpu.irq.ncli > 0 ==> !cpu.irq.enabled)
    && (cpu.pc.Asking? && cpu.pc.releasing ==> cpu.pc.l in cpu.held)
    && (cpu.pc.Answered? && cpu.pc.releasing ==> cpu.pc.l in cpu.held && cpu.pc.locked)
    && (cpu.pc.Storing? ==> cpu.pc.l in cpu.held)
  }

  /** No lock is held by both. */
  ghost predicate Exclusive(a: Cpu, b: Cpu) {
    a.held !! b.held
  }

  ghost predicate Inv(s: System) {
    && (forall c :: 0 <= c < |s.cpus| ==> CpuOk(s.cpus[c]))
    && (forall c, d :: 0 <= c < |s.cpus| && 0 <= d < |s.cpus| && c != d ==> Exclusive(s.cpus[c], s.cpus[d]))
    && (forall c, l :: 0 <= c < |s.cpus| && l in s.cpus[c].held ==> IsLocked(s, l))
    && (forall l :: IsLocked(s, l) ==> exists c :: 0 <= c < |s.cpus| && l in s.cpus[c].held)
  }

  lemma CpuAt(s: System, c: nat)
    requires Inv(s) && c < |s.cpus|
    ensures CpuOk(s.cpus[c])
    ensures forall l :: l in s.cpus[c].held ==> IsLocked(s, l)
  {
  }

  /** A CPU that moves on with the same locks. */
  lemma SameHeld(s: System, c: nat, cpu: Cpu)
    requires Inv(s) && c < |s.cpus| && CpuOk(cpu) && cpu.held == s.cpus[c].held
    ensures Inv(At(s, c, cpu))
  {
    hide CpuOk;
    var s' := At(s, c, cpu);
    forall e, d | 0 <= e < |s.cpus| && 0 <= d < |s.cpus| && e != d ensures Exclusive(s'.cpus[e], s'.cpus[d]) {
      assert Exclusive(s.cpus[e], s.cpus[d]) && Exclusive(s.cpus[d], s.cpus[e]);
    }
    forall d, k | 0 <= d < |s.cpus| && k in s'.cpus[d].held ensures IsLocked(s', k) {
      assert k in s.cpus[d].held ==> IsLocked(s, k);
    }
    forall l | IsLocked(s', l) ensures exists d :: 0 <= d < |s'.cpus| && l in s'.cpus[d].held {
      assert IsLocked(s, l);
      var d :| 0 <= d < |s.cpus| && l in s.cpus[d].held;
      assert l in s'.cpus[d].held;
    }
  }

  /** The exchange that found the word clear. */
  lemma Taken(s: System, c: nat, cpu: Cpu, l: Lock)
    requires Inv(s) && c < |s.cpus| && CpuOk(cpu) && cpu.held == s.cpus[c].held + {l} && !IsLocked(s, l)
    ensures Inv(At(s.(locked := s.locked[l := true]), c, cpu))
  {
    hide CpuOk;
    var s' := At(s.(locked := s.locked[l := true]), c, cpu);
    forall e, d | 0 <= e < |s.cpus| && 0 <= d < |s.cpus| && e != d ensures Exclusive(s'.cpus[e], s'.cpus[d]) {
      assert Exclusive(s.cpus[e], s.cpus[d]) && Exclusive(s.cpus[d], s.cpus[e]);
    }
    forall d, k | 0 <= d < |s.cpus| && k in s'.cpus[d].held ensures IsLocked(s', k) {
      assert k in s.cpus[d].held ==> IsLocked(s, k);
    }
    forall k | IsLocked(s', k) ensures exists d :: 0 <= d < |s'.cpus| && k in s'.cpus[d].held {
      if k == l {
        assert l in s'.cpus[c].held;
      } else {
        assert IsLocked(s, k);
        var d :| 0 <= d < |s.cpus| && k in s.cpus[d].held;
        assert k in s'.cpus[d].held;
      }
    }
  }

  /** The exchange that found the word set. */
  lemma Missed(s: System, l: Lock)
    requires Inv(s) && IsLocked(s, l)
    ensures Inv(s.(locked := s.locked[l := true]))
  {
    hide CpuOk;
    assert s.(locked := s.locked[l := true]).locked == s.locked;
  }

  /** The store that clears the word. */
  lemma GivenUp(s: System, c: nat, cpu: Cpu, l: Lock)
    requires Inv(s) && c < |s.cpus| && CpuOk(cpu) && l in s.cpus[c].held && cpu.held == s.cpus[c].held - {l}
    ensures Inv(At(s.(locked := s.locked[l := false]), c, cpu))
  {
    hide CpuOk;
    var s' := At(s.(locked := s.locked[l := false]), c, cpu);
    forall e, d | 0 <= e < |s.cpus| && 0 <= d < |s.cpus| && e != d ensures Exclusive(s'.cpus[e], s'.cpus[d]) {
      assert Exclusive(s.cpus[e], s.cpus[d]) && Exclusive(s.cpus[d], s.cpus[e]);
    }
    forall d | 0 <= d < |s.cpus| && d != c ensures l !in s.cpus[d].held {
      assert Exclusive(s.cpus[c], s.cpus[d]);
    }
    forall d, k | 0 <= d < |s.cpus| && k in s'.cpus[d].held ensures IsLocked(s', k) {
      assert k in s.cpus[d].held ==> IsLocked(s, k);
    }
    forall k | IsLocked(s', k) ensures exists d :: 0 <= d < |s'.cpus| && k in s'.cpus[d].held {
      assert IsLocked(s, k);
      var d :| 0 <= d < |s.cpus| && k in s.cpus[d].held;
      assert k in s'.cpus[d].held;
    }
  }

  /** A step that writes no lock word. */
  lemma LocalStep(s: System, step: Step)
    requires Enabled(s, step) && !step.Exchange? && !step.Store? && CpuOk(s.cpus[step.c])
    requires forall l :: l in s.cpus[step.c].held ==> IsLocked(s, l)
    ensures |Apply(s, step).cpus| == |s.cpus|
    ensures var cpu := Apply(s, step).cpus[step.c];
            CpuOk(cpu) && cpu.held == s.cpus[step.c].held && Apply(s, step) == At(s, step.c, cpu)
  {
    hide IsLocked;
    assert At(s, step.c, s.cpus[step.c]).cpus == s.cpus;
  }

  lemma ExchangeKeeps(s: System, c: nat)
    requires Inv(s) && c < |s.cpus|
    ensures Inv(Apply(s, Exchange(c)))
  {
    hide Inv, IsLocked;
    var cpu, s' := s.cpus[c], Apply(s, Exchange(c));
    CpuAt(s, c);
    if cpu.pc.Spinning? {
      var l := cpu.pc.l;
      if IsLocked(s, l) {
        Missed(s, l);
      } else {
        assert l !in cpu.held;
        Taken(s, c, s'.cpus[c], l);
      }
    }
  }

  lemma StoreKeeps(s: System, c: nat)
    requires Inv(s) && c < |s.cpus|
    ensures Inv(Apply(s, Store(c)))
  {
    hide Inv, IsLocked;
    CpuAt(s, c);
    if s.cpus[c].pc.Storing? {
      GivenUp(s, c, Apply(s, Store(c)).cpus[c], s.cpus[c].pc.l);
    }
  }

  /** Every step keeps the invariant: in particular neither panic of `popcli`, nor that of `release_spinlock`, is reached. */
  lemma StepKeeps(s: System, step: Step)
    requires Inv(s) && Enabled(s, step)
    ensures Inv(Apply(s, step))
  {
    hide Inv, Apply, CpuOk, IsLocked;
    match step
    case Exchange(c) => ExchangeKeeps(s, c);
    case Store(c) => StoreKeeps(s, c);
    case _ =>
      CpuAt(s, step.c);
      LocalStep(s, step);
      SameHeld(s, step.c, Apply(s, step).cpus[step.c]);
  }

  /** Whatever the interleaving, the invariant holds after every legal run. */
  lemma {:induction false} RunKeeps(s: System, steps: seq<Step>)
    requires Inv(s) && Legal(s, steps)
    ensures Inv(After(s, steps))
    decreases steps
  {
    hide Inv, Apply, Enabled;
    if steps != [] {
      StepKeeps(s, steps[0]);
      RunKeeps(Apply(s, steps[0]), steps[1..]);
    }
  }

  /** Every CPU outside the lock code with no lock, every word clear. */
  ghost predicate Init(s: System) {
    && (forall c :: 0 <= c < |s.cpus| ==> s.cpus[c].pc == Outside && s.cpus[c].irq.ncli == 0 && s.cpus[c].held == {})
    && (forall l :: !IsLocked(s, l))
  }

  /**
   In every reachable state: at most one CPU holds a lock, its word is set exactly while some CPU holds it,
   no CPU has panicked, and a CPU that holds a lock or is inside the lock code has interrupts off.
   */
  lemma ReachableIsSafe(s0: System, steps: seq<Step>, c: nat, d: nat, l: Lock)
    requires Init(s0) && Legal(s0, steps)
    requires var n := |After(s0, steps).cpus|; c < n && d < n
    ensures var s := After(s0, steps);
            && (c != d && l in s.cpus[c].held ==> l !in s.cpus[d].held)
            && (IsLocked(s, l) <==> exists e :: 0 <= e < |s.cpus| && l in s.cpus[e].held)
            && s.cpus[c].pc != Panic
            && (s.cpus[c].held != {} || s.cpus[c].pc != Outside || s.cpus[c].irq.ncli > 0 ==> !s.cpus[c].irq.enabled)
  {
    hide Legal, After;
    RunKeeps(s0, steps);
    var s := After(s0, steps);
    assert CpuOk(s.cpus[c]);
    assert c != d ==> Exclusive(s.cpus[c], s.cpus[d]);
    if l in s.cpus[c].held || s.cpus[c].held != {} {
      NonEmpty(s.cpus[c].held);
    }
  }

  lemma NonEmpty(a: set<Lock>)
    requires a != {}
    ensures |a| > 0
  {
  }

  // The interrupt flag comes back

  function IrqOf(s: System, c: nat): Irq
    requires c < |s.cpus|
  {
    s.cpus[c].irq
  }

  lemma StepIrq(s: System, step: Step, c: nat)
    requires Inv(s) && Enabled(s, step) && c < |s.cpus|
    ensures |Apply(s, step).cpus| == |s.cpus|
    ensures var i, i' := IrqOf(s, c), IrqOf(Apply(s, step), c);
            && (i.ncli == 0 && i'.ncli > 0 ==> i'.intena == i.enabled)
            && (i.ncli > 0 && i'.ncli > 0 ==> i'.intena == i.intena)
            && (i.ncli > 0 && i'.ncli <= 0 ==> i'.ncli == 0 && i'.enabled == i.intena)
  {
    hide Inv;
    CpuAt(s, c);
    CpuAt(s, step.c);
  }

  /** The nesting depth of CPU c is positive after every step but the last, and 0 after the last. */
  ghost predicate EndsAtZero(s: System, steps: seq<Step>, c: nat)
    requires c < |s.cpus|
    decreases steps
  {
    && steps != []
    && var s' := Apply(s, steps[0]);
       && |s'.cpus| == |s.cpus|
       && if |steps| == 1 then IrqOf(s', c).ncli == 0 else IrqOf(s', c).ncli > 0 && EndsAtZero(s', steps[1..], c)
  }

  lemma {:induction false} SectionEnds(s: System, steps: seq<Step>, c: nat)
    requires Inv(s) && Legal(s, steps) && c < |s.cpus| && IrqOf(s, c).ncli > 0 && EndsAtZero(s, steps, c)
    ensures |After(s, steps).cpus| == |s.cpus| && IrqOf(After(s, steps), c).enabled == IrqOf(s, c).intena
    decreases steps
  {
    hide Inv, Apply, Enabled, IrqOf;
    var s' := Apply(s, steps[0]);
    StepIrq(s, steps[0], c);
    StepKeeps(s, steps[0]);
    if |steps| > 1 {
      SectionEnds(s', steps[1..], c);
    }
  }

  /**
   Between leaving depth 0 and next coming back to it, whatever locks are taken and released on the way and
   whatever other CPUs do, the interrupt flag of the CPU is what the first `pushcli` saw.
   */
  lemma FlagRestored(s: System, steps: seq<Step>, c: nat)
    requires Inv(s) && Legal(s, steps) && c < |s.cpus| && IrqOf(s, c).ncli == 0
    requires |steps| > 1 && EndsAtZero(s, steps, c)
    ensures |After(s, steps).cpus| == |s.cpus| && IrqOf(After(s, steps), c).enabled == IrqOf(s, c).enabled
  {
    hide Inv, Apply, Enabled, IrqOf;
    StepIrq(s, steps[0], c);
    StepKeeps(s, steps[0]);
    SectionEnds(Apply(s, steps[0]), steps[1..], c);
  }

  // What a whole operation does: first when no other CPU comes between its steps

  /** Nothing but CPU c, and lock word l, differs. */
  ghost predicate OnlyHere(s: System, s': System, c: nat, l: Lock) {
    && |s'.cpus| == |s.cpus|
    && (forall d :: 0 <= d < |s.cpus| && d != c ==> s'.cpus[d] == s.cpus[d])
    && (forall k :: k != l ==> IsLocked(s', k) == IsLocked(s, k))
  }

  /** `pushcli` turns interrupts off and counts; `popcli` undoes exactly that. */
  lemma PushPop(i: Irq)
    requires i.ncli >= 0 && (i.ncli > 0 ==> !i.enabled)
    ensures var j := PushCli(i);
            && !j.enabled && j.ncli == i.ncli + 1 && (i.ncli == 0 ==> j.intena == i.enabled)
            && PopCli(j).Some? && PopCli(j).value.enabled == i.enabled && PopCli(j).value.ncli == i.ncli
            && (i.ncli > 0 ==> PopCli(j).value == i)
  {
  }

  /** The two steps of `acquire_spinlock` that finds the lock free. */
  function AcquireAll(s: System, c: nat, l: Lock): System {
    Apply(Apply(s, Acquire(c, l)), Exchange(c))
  }

  /** The five steps of `release_spinlock`. */
  function ReleaseAll(s: System, c: nat, l: Lock): System {
    Apply(Apply(Apply(Apply(Apply(s, Release(c, l)), Read(c)), Answer(c)), Store(c)), Leave(c))
  }

  /** Acquiring a free lock: the caller returns with the lock, its word set and interrupts off, one level deeper. */
  lemma AcquireIs(s: System, c: nat, l: Lock)
    requires Inv(s) && c < |s.cpus| && s.cpus[c].pc == Outside && !IsLocked(s, l)
    ensures var s' := AcquireAll(s, c, l);
            && OnlyHere(s, s', c, l) && IsLocked(s', l)
            && s'.cpus[c].pc == Outside && s'.cpus[c].held == s.cpus[c].held + {l} && l !in s.cpus[c].held
            && s'.cpus[c].irq.ncli == s.cpus[c].irq.ncli + 1 && !s'.cpus[c].irq.enabled
            && (s.cpus[c].irq.ncli == 0 ==> s'.cpus[c].irq.intena == s.cpus[c].irq.enabled)
  {
    hide Inv;
    CpuAt(s, c);
  }

  /** Acquiring a taken lock: the caller has not got it, and is still in the loop with interrupts off. */
  lemma AcquireSpins(s: System, c: nat, l: Lock)
    requires c < |s.cpus| && s.cpus[c].pc == Outside && IsLocked(s, l)
    ensures var s' := AcquireAll(s, c, l);
            && OnlyHere(s, s', c, l) && IsLocked(s', l)
            && s'.cpus[c].pc == Spinning(l) && s'.cpus[c].held == s.cpus[c].held && !s'.cpus[c].irq.enabled
            && Apply(s', Exchange(c)) == s'
  {
    var s' := AcquireAll(s, c, l);
    assert s'.locked == s.locked && s'.locked[l := true] == s'.locked;
  }

  /**
   Releasing a lock one holds: the caller returns without the lock, its word clear, one level less deep, with
   interrupts as the outermost `pushcli` found them if that was the last level.
   */
  lemma ReleaseIs(s: System, c: nat, l: Lock)
    requires Inv(s) && c < |s.cpus| && s.cpus[c].pc == Outside && l in s.cpus[c].held
    ensures var s' := ReleaseAll(s, c, l);
            && OnlyHere(s, s', c, l) && !IsLocked(s', l)
            && s'.cpus[c].pc == Outside && s'.cpus[c].held == s.cpus[c].held - {l}
            && s'.cpus[c].irq.ncli == s.cpus[c].irq.ncli - 1
            && s'.cpus[c].irq.enabled == (s.cpus[c].irq.ncli == 1 && s.cpus[c].irq.intena)
  {
    hide Inv;
    CpuAt(s, c);
    HolderTest(s, c, l);
    NonEmpty(s.cpus[c].held);
  }

  /** As far as the test: the word is set, so the holder goes on to clear it, with its interrupt state as before. */
  lemma HolderTest(s: System, c: nat, l: Lock)
    requires Inv(s) && c < |s.cpus| && s.cpus[c].pc == Outside && l in s.cpus[c].held
    ensures Apply(Apply(Apply(s, Release(c, l)), Read(c)), Answer(c)) == At(s, c, s.cpus[c].(pc := Storing(l)))
  {
    hide Inv;
    CpuAt(s, c);
    NonEmpty(s.cpus[c].held);
    var s1 := Apply(s, Release(c, l));
    assert s1.cpus[c].pc == Asking(l, true) && s1.locked == s.locked;
  }

  /** `acquire_spinlock` and then `release_spinlock` leave the words, the locks held and the interrupt flag as they were. */
  lemma AcquireRelease(s: System, c: nat, l: Lock)
    requires Inv(s) && c < |s.cpus| && s.cpus[c].pc == Outside && !IsLocked(s, l)
    ensures var s' := ReleaseAll(AcquireAll(s, c, l), c, l);
            && OnlyHere(s, s', c, l) && !IsLocked(s', l)
            && s'.cpus[c].pc == Outside && s'.cpus[c].held == s.cpus[c].held
            && s'.cpus[c].irq.ncli == s.cpus[c].irq.ncli && s'.cpus[c].irq.enabled == s.cpus[c].irq.enabled
  {
    hide Inv, AcquireAll, ReleaseAll, CpuOk;
    AcquireIs(s, c, l);
    AcquireKeeps(s, c, l);
    ReleaseIs(AcquireAll(s, c, l), c, l);
    OffWhenNested(s, c);
  }

  lemma AcquireKeeps(s: System, c: nat, l: Lock)
    requires Inv(s) && c < |s.cpus|
    ensures Inv(AcquireAll(s, c, l))
  {
    hide Inv, CpuOk, IsLocked;
    StepKeeps(s, Acquire(c, l));
    ExchangeKeeps(Apply(s, Acquire(c, l)), c);
  }

  lemma OffWhenNested(s: System, c: nat)
    requires Inv(s) && c < |s.cpus|
    ensures s.cpus[c].irq.ncli >= 0 && (s.cpus[c].irq.ncli > 0 ==> !s.cpus[c].irq.enabled)
  {
  }

  /** `holding_spinlock`: the caller is told whether the word is set, and nothing has changed when it returns. */
  lemma QueryIs(s: System, c: nat, l: Lock)
    requires Inv(s) && c < |s.cpus| && s.cpus[c].pc == Outside
    ensures var s1 := Apply(Apply(s, Query(c, l)), Read(c));
            var s' := Apply(s1, Answer(c));
            && |s1.cpus| == |s.cpus| && s1.cpus[c].pc == Answered(l, false, IsLocked(s, l))
            && OnlyHere(s, s', c, l) && IsLocked(s', l) == IsLocked(s, l)
            && s'.cpus[c].pc == Outside && s'.cpus[c].held == s.cpus[c].held
            && s'.cpus[c].irq.ncli == s.cpus[c].irq.ncli && s'.cpus[c].irq.enabled == s.cpus[c].irq.enabled
  {
    hide Inv;
    CpuAt(s, c);
    var s0 := Apply(s, Query(c, l));
    assert s0.cpus[c].pc == Asking(l, false) && s0.locked == s.locked;
  }

  // ... then with the steps of other CPUs in any number between its own

  function Own(steps: seq<Step>, c: nat): seq<Step> {
    if steps == [] then []
    else if steps[0].c == c then [steps[0]] + Own(steps[1..], c)
    else Own(steps[1..], c)
  }

  /** A step of CPU c other than an exchange or a query comes out the same in every state in which CPU c is the same. */
  lemma SameStep(s: System, t: System, step: Step)
    requires Inv(s) && Inv(t) && step.c < |s.cpus| && step.c < |t.cpus| && s.cpus[step.c] == t.cpus[step.c]
    requires !step.Exchange? && !step.Query? && (s.cpus[step.c].pc.Asking? ==> s.cpus[step.c].pc.releasing)
    ensures |Apply(s, step).cpus| == |s.cpus| && |Apply(t, step).cpus| == |t.cpus|
    ensures Apply(s, step).cpus[step.c] == Apply(t, step).cpus[step.c]
    ensures var pc := Apply(s, step).cpus[step.c].pc; pc.Asking? ==> pc.releasing
  {
    hide Inv, IsLocked;
    CpuAt(s, step.c);
    CpuAt(t, step.c);
  }

  /** A CPU is not touched by the steps of the others. */
  lemma OtherStep(s: System, step: Step, c: nat)
    requires c < |s.cpus| && step.c != c
    ensures |Apply(s, step).cpus| == |s.cpus| && Apply(s, step).cpus[c] == s.cpus[c]
  {
  }

  /**
   As long as CPU c neither exchanges nor queries, it ends up the same whatever the other CPUs do between its
   steps: in any state t in which it starts the same, its own steps alone take it to the same place.
   */
  lemma {:induction false} OthersDoNotMatter(s: System, t: System, steps: seq<Step>, c: nat)
    requires Inv(s) && Inv(t) && Legal(s, steps) && c < |s.cpus| && c < |t.cpus| && s.cpus[c] == t.cpus[c]
    requires forall i :: 0 <= i < |steps| && steps[i].c == c ==> !steps[i].Exchange? && !steps[i].Query?
    requires s.cpus[c].pc.Asking? ==> s.cpus[c].pc.releasing
    ensures |After(s, steps).cpus| == |s.cpus| && |After(t, Own(steps, c)).cpus| == |t.cpus|
    ensures After(s, steps).cpus[c] == After(t, Own(steps, c)).cpus[c]
    decreases steps
  {
    hide Inv, Apply;
    if steps != [] {
      var step := steps[0];
      StepKeeps(s, step);
      if step.c == c {
        SameStep(s, t, step);
        StepKeeps(t, step);
        OthersDoNotMatter(Apply(s, step), Apply(t, step), steps[1..], c);
        assert Own(steps, c)[0] == step && Own(steps, c)[1..] == Own(steps[1..], c);
      } else {
        OtherStep(s, step, c);
        OthersDoNotMatter(Apply(s, step), t, steps[1..], c);
      }
    }
  }

  /** Releasing a lock one holds, whatever the other CPUs do meanwhile. */
  lemma ReleaseAmidOthers(s: System, steps: seq<Step>, c: nat, l: Lock)
    requires Inv(s) && Legal(s, steps) && c < |s.cpus| && s.cpus[c].pc == Outside && l in s.cpus[c].held
    requires Own(steps, c) == [Release(c, l), Read(c), Answer(c), Store(c), Leave(c)]
    ensures |After(s, steps).cpus| == |s.cpus|
    ensures var cpu, cpu' := s.cpus[c], After(s, steps).cpus[c];
            && cpu'.pc == Outside && cpu'.held == cpu.held - {l} && cpu'.irq.ncli == cpu.irq.ncli - 1
            && cpu'.irq.enabled == (cpu.irq.ncli == 1 && cpu.irq.intena)
  {
    hide Inv, Apply, Legal, IsLocked;
    forall i | 0 <= i < |steps| && steps[i].c == c ensures !steps[i].Exchange? && !steps[i].Query? {
      OwnHas(steps, c, i);
    }
    OthersDoNotMatter(s, s, steps, c);
    FiveSteps(s, c, l);
    ReleaseIs(s, c, l);
  }

  lemma AfterFirst(s: System, step: Step, rest: seq<Step>)
    ensures After(s, [step] + rest) == After(Apply(s, step), rest)
  {
    assert ([step] + rest)[1..] == rest;
  }

  lemma FiveSteps(s: System, c: nat, l: Lock)
    ensures After(s, [Release(c, l), Read(c), Answer(c), Store(c), Leave(c)]) == ReleaseAll(s, c, l)
  {
    hide Apply, After;
    var s1 := Apply(s, Release(c, l));
    var s2 := Apply(s1, Read(c));
    var s3 := Apply(s2, Answer(c));
    var s4 := Apply(s3, Store(c));
    AfterFirst(s, Release(c, l), [Read(c), Answer(c), Store(c), Leave(c)]);
    AfterFirst(s1, Read(c), [Answer(c), Store(c), Leave(c)]);
    AfterFirst(s2, Answer(c), [Store(c), Leave(c)]);
    AfterFirst(s3, Store(c), [Leave(c)]);
    AfterOne(s4, Leave(c));
    assert [Store(c)] + [Leave(c)] == [Store(c), Leave(c)];
    assert [Answer(c)] + [Store(c), Leave(c)] == [Answer(c), Store(c), Leave(c)];
    assert [Read(c)] + [Answer(c), Store(c), Leave(c)] == [Read(c), Answer(c), Store(c), Leave(c)];
    assert [Release(c, l)] + [Read(c), Answer(c), Store(c), Leave(c)]
        == [Release(c, l), Read(c), Answer(c), Store(c), Leave(c)];
  }

  lemma AfterOne(s: System, step: Step)
    ensures After(s, [step]) == Apply(s, step)
  {
  }

  lemma {:induction false} OwnHas(steps: seq<Step>, c: nat, i: nat)
    requires i < |steps| && steps[i].c == c
    ensures steps[i] in Own(steps, c)
  {
    if i > 0 {
      OwnHas(steps[1..], c, i - 1);
    }
  }

  /**
   Waiting for a lock amid the others: the CPU either has the lock, its word set and the call over, or has gained
   nothing and is still in the loop; its interrupt state has not moved.
   */
  lemma {:induction false} SpinAmidOthers(s: System, steps: seq<Step>, c: nat, l: Lock)
    requires Inv(s) && Legal(s, steps) && c < |s.cpus| && s.cpus[c].pc == Spinning(l)
    requires forall i :: 0 <= i < |steps| && steps[i].c == c ==> steps[i].Exchange?
    ensures var s' := After(s, steps);
            && |s'.cpus| == |s.cpus| && s'.cpus[c].irq == s.cpus[c].irq && !s.cpus[c].irq.enabled
            && (|| (s'.cpus[c].pc == Spinning(l) && s'.cpus[c].held == s.cpus[c].held)
                || (s'.cpus[c].pc == Outside && s'.cpus[c].held == s.cpus[c].held + {l} && IsLocked(s', l)))
    decreases steps
  {
    hide Inv, IsLocked, Apply;
    CpuAt(s, c);
    if steps != [] {
      var s1 := Apply(s, steps[0]);
      StepKeeps(s, steps[0]);
      SpinStep(s, steps[0], c, l);
      if s1.cpus[c].pc == Spinning(l) {
        SpinAmidOthers(s1, steps[1..], c, l);
      } else {
        StaysOut(s1, steps[1..], c, l);
      }
    }
  }

  lemma SpinStep(s: System, step: Step, c: nat, l: Lock)
    requires c < |s.cpus| && s.cpus[c].pc == Spinning(l) && (step.c == c ==> step.Exchange?)
    ensures var s' := Apply(s, step);
            && |s'.cpus| == |s.cpus|
            && (s'.cpus[c] == s.cpus[c] || s'.cpus[c] == s.cpus[c].(pc := Outside, held := s.cpus[c].held + {l}))
  {
  }

  lemma {:induction false} StaysOut(s: System, steps: seq<Step>, c: nat, l: Lock)
    requires Inv(s) && Legal(s, steps) && c < |s.cpus| && s.cpus[c].pc == Outside && l in s.cpus[c].held
    requires forall i :: 0 <= i < |steps| && steps[i].c == c ==> steps[i].Exchange?
    ensures var s' := After(s, steps); |s'.cpus| == |s.cpus| && s'.cpus[c] == s.cpus[c] && IsLocked(s', l)
    decreases steps
  {
    hide Inv, IsLocked;
    CpuAt(s, c);
    if steps != [] {
      StepKeeps(s, steps[0]);
      StaysOut(Apply(s, steps[0]), steps[1..], c, l);
    }
  }

  // What the code does not protect against

  /** Acquiring a lock one already holds never succeeds: nobody else may release it. */
  lemma {:induction false} SelfDeadlock(s: System, steps: seq<Step>, c: nat, l: Lock)
    requires Inv(s) && Legal(s, steps) && c < |s.cpus| && s.cpus[c].pc == Spinning(l) && l in s.cpus[c].held
    ensures var s' := After(s, steps);
            |s'.cpus| == |s.cpus| && s'.cpus[c].pc == Spinning(l) && l in s'.cpus[c].held
    decreases steps
  {
    hide Inv;
    if steps != [] {
      StepKeeps(s, steps[0]);
      CpuAt(s, c);
      SelfDeadlock(Apply(s, steps[0]), steps[1..], c, l);
    }
  }

  /** As far as the test of `holding_spinlock`: only whether the word is set decides. */
  lemma StrayTest(s: System, c: nat, l: Lock)
    requires Inv(s) && c < |s.cpus| && s.cpus[c].pc == Outside
    ensures var s' := Apply(Apply(Apply(s, Release(c, l)), Read(c)), Answer(c));
            && |s'.cpus| == |s.cpus| && s'.locked == s.locked
            && (forall d :: 0 <= d < |s.cpus| && d != c ==> s'.cpus[d] == s.cpus[d])
            && s'.cpus[c].pc == (if IsLocked(s, l) then Storing(l) else Panic)
            && s'.cpus[c].irq.ncli == s.cpus[c].irq.ncli && s'.cpus[c].held == s.cpus[c].held
            && (s.cpus[c].irq.ncli > 0 ==> !s'.cpus[c].irq.enabled)
  {
    hide Inv;
    CpuAt(s, c);
    var s1 := Apply(s, Release(c, l));
    assert s1.cpus[c].pc == Asking(l, true) && s1.locked == s.locked;
  }

  /**
   A release by a CPU that does not hold the lock. The call returns exactly if the word was set and the CPU
   holds some other lock; otherwise it panics. Either way the word ends clear: when it was set, the panic
   comes only after the store.
   */
  lemma StrayReleaseIs(s: System, c: nat, l: Lock)
    requires Inv(s) && c < |s.cpus| && s.cpus[c].pc == Outside && l !in s.cpus[c].held
    ensures var s' := ReleaseAll(s, c, l);
            && |s'.cpus| == |s.cpus|
            && s'.cpus[c].pc == (if IsLocked(s, l) && s.cpus[c].held != {} then Outside else Panic)
            && !IsLocked(s', l) && (forall k :: k != l ==> IsLocked(s', k) == IsLocked(s, k))
            && s'.cpus[c].held == s.cpus[c].held
            && forall d :: 0 <= d < |s.cpus| && d != c ==> s'.cpus[d] == s.cpus[d]
  {
    hide Inv;
    CpuAt(s, c);
    StrayTest(s, c, l);
    if s.cpus[c].held != {} {
      NonEmpty(s.cpus[c].held);
    }
  }

  /**
   `holding_spinlock` tells whether the lock is taken, not by whom: after a stray release of a lock that d
   holds, whether it returned or panicked, any other CPU outside the lock code can take the lock while d
   still has it.
   */
  lemma StrayRelease(s: System, c: nat, d: nat, e: nat, l: Lock)
    requires Inv(s) && c < |s.cpus| && d < |s.cpus| && e < |s.cpus| && c != d && d != e
    requires s.cpus[c].pc == Outside && l in s.cpus[d].held && s.cpus[e].pc == Outside
    requires e == c ==> s.cpus[c].held != {}
    ensures var s' := Apply(Apply(ReleaseAll(s, c, l), Acquire(e, l)), Exchange(e));
            |s'.cpus| == |s.cpus| && l in s'.cpus[e].held && l in s'.cpus[d].held && s'.cpus[e].pc == Outside
  {
    hide Inv, ReleaseAll;
    HeldElsewhere(s, c, d, l);
    StrayReleaseIs(s, c, l);
  }

  lemma HeldElsewhere(s: System, c: nat, d: nat, l: Lock)
    requires Inv(s) && c < |s.cpus| && d < |s.cpus| && c != d && l in s.cpus[d].held
    ensures l !in s.cpus[c].held && IsLocked(s, l)
  {
    assert Exclusive(s.cpus[c], s.cpus[d]);
  }
}
