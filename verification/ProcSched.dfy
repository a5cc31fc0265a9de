/**
 The single-CPU scheduler of `kernel/sched/scheduler.c`: `get_next_thread` walks the ring
 of processes and, within each, the ring of threads.
 */
module ProcSched {
  import opened Bits
  import opened RunQueue
  import opened ThreadRing
  import opened Wrappers

  const ROUNDS_PER_PROC: nat := 5

  /** `struct proc`: its address, and its thread list read from the head. */
  datatype Proc = Proc(id: nat, threads: seq<Tid>)

  /** The thread found, or which panic. */
  datatype Outcome = Found(t: Tid) | NoProcs | EmptyProc | NoThread

  function Ids(procs: seq<Proc>): (ids: seq<nat>)
    ensures |ids| == |procs| && forall i :: 0 <= i < |procs| ==> ids[i] == procs[i].id
  {
    seq(|procs|, i requires 0 <= i < |procs| => procs[i].id)
  }

  /** `shift_thread_list` and `shift_proc_list`. */
  function Shifted<T>(ring: seq<T>): (r: seq<T>)
    requires ring != []
    ensures |r| == |ring| && r[|r| - 1] == ring[0] && forall i :: 0 <= i < |r| - 1 ==> r[i] == ring[i + 1]
  {
    RotatedPast(ring, 0)
  }

  /** How many shifts until the head is x again: the loops compare entries, not nodes. */
  function Lap(ring: seq<nat>, x: nat): (n: nat)
    requires ring != []
    ensures 1 <= n <= |ring|
    ensures x in ring ==> (n < |ring| ==> ring[n] == x) && (n == |ring| ==> ring[0] == x)
    ensures forall i :: 1 <= i < n ==> ring[i] != x
  {
    var n := 1 + Position(ring[1..], x);
    assert forall i :: 1 <= i < n ==> ring[i] == ring[1..][i - 1] && ring[1..][i - 1] in ring[1..][..n - 1];
    n
  }

  lemma LapShifted(ring: seq<nat>, x: nat)
    requires ring != [] && x in ring
    ensures Lap(ring, x) == 1 <==> Shifted(ring)[0] == x
    ensures Lap(ring, x) > 1 ==> Lap(Shifted(ring), x) == Lap(ring, x) - 1
  {
    hide Lap;
    var n, r := Lap(ring, x), Shifted(ring);
    if n == 1 {
      return;
    }
    assert r[n - 1] == x && forall i :: 1 <= i < n - 1 ==> r[i] == ring[i + 1] != x;
    var m := Lap(r, x);
    assert x in r;
    assert m >= n - 1 && m <= n - 1;
  }

  lemma IdsShifted(procs: seq<Proc>)
    requires procs != []
    ensures Ids(Shifted(procs)) == Shifted(Ids(procs))
    ensures forall x :: x in Ids(procs) ==> x in Ids(Shifted(procs))
  {
    assert Ids(Shifted(procs)) == Shifted(Ids(procs));
    RotatedMembers(Ids(procs), 0);
  }

  lemma IdsUpdated(procs: seq<Proc>, p: Proc)
    requires procs != [] && p.id == procs[0].id
    ensures Ids(procs[0 := p]) == Ids(procs)
  {
  }

  // What get_next_thread computes

  /** The inner loop: the process with its list shifted past what was looked at, and the thread found. */
  function ScanThreads(state: map<Tid, ThreadState>, p: Proc): (Proc, Option<Tid>)
    requires p.threads != []
  {
    var n := Lap(p.threads, p.threads[0]);
    var i := FirstRunnable(state, p.threads[..n]);
    if i < n then (p.(threads := RotatedPast(p.threads, i)), Some(p.threads[i]))
    else (p.(threads := RotatedPast(p.threads, n - 1)), None)
  }

  /** The outer loop, with `left` processes to look at. */
  function Scan(state: map<Tid, ThreadState>, procs: seq<Proc>, left: nat): (seq<Proc>, Outcome)
    requires procs != [] && left > 0
    decreases left
  {
    if procs[0].threads == [] then (procs, EmptyProc)
    else
      var (p, r) := ScanThreads(state, procs[0]);
      if r.Some? then (procs[0 := p], Found(r.value))
      else
        var next := Shifted(procs[0 := p]);
        if left == 1 then (next, NoThread) else Scan(state, next, left - 1)
  }

  /** The quantum test. */
  function StartOf(procs: seq<Proc>, rounds: nat): seq<Proc>
    requires procs != []
  {
    if rounds >= ROUNDS_PER_PROC then Shifted(procs) else procs
  }

  /** `get_next_thread`: the first process is noted before the quantum test may shift past it. */
  function Select(state: map<Tid, ThreadState>, procs: seq<Proc>, rounds: nat): (seq<Proc>, Outcome) {
    if procs == [] then (procs, NoProcs)
    else
      var start := StartOf(procs, rounds);
      Scan(state, start, Lap(Ids(start), procs[0].id))
  }

  // The code, on circular lists

  function Rotated<T>(ring: seq<T>, k: nat): (r: seq<T>)
    requires k <= |ring|
    ensures |r| == |ring| && (k < |ring| ==> r[0] == ring[k])
  {
    ring[k..] + ring[..k]
  }

  ghost function NodesOf(rings: seq<Ring>): set<Node>
    reads rings
  {
    set i, j | 0 <= i < |rings| && 0 <= j < |rings[i].nodes| :: rings[i].nodes[j]
  }

  ghost predicate AllValid(rings: seq<Ring>)
    reads rings, NodesOf(rings)
  {
    forall i :: 0 <= i < |rings| ==> rings[i].Valid()
  }

  ghost predicate Below(ids: seq<nat>, n: nat) {
    forall i :: 0 <= i < |ids| ==> ids[i] < n
  }

  /** The processes with the given numbers, each with its thread list. */
  ghost function ProcsOf(ids: seq<nat>, rings: seq<Ring>): (procs: seq<Proc>)
    requires Below(ids, |rings|)
    reads rings, NodesOf(rings)
    ensures |procs| == |ids|
    ensures forall i :: 0 <= i < |ids| ==> procs[i] == Proc(ids[i], rings[ids[i]].Contents())
  {
    seq(|ids|, i requires 0 <= i < |ids| reads rings, NodesOf(rings) => Proc(ids[i], rings[ids[i]].Contents()))
  }

  class Scheduler {
    const list: Ring                     // proc_list, holding process numbers
    const rings: seq<Ring>               // the thread list of each process
    var rounds: nat                      // current_proc_rounds
    var state: map<Tid, ThreadState>

    ghost predicate Valid()
      reads list, list.nodes, rings, NodesOf(rings)
    {
      && list.Valid() && AllValid(rings) && list !in rings && Distinct(rings)
      && Distinct(list.Contents()) && Below(list.Contents(), |rings|)
    }

    /** The processes in list order. */
    ghost function Procs(): seq<Proc>
      requires Valid()
      reads list, list.nodes, rings, NodesOf(rings)
    {
      ProcsOf(list.Contents(), rings)
    }

    constructor (list: Ring, rings: seq<Ring>, state: map<Tid, ThreadState>)
      requires list.Valid() && AllValid(rings) && list !in rings && Distinct(rings)
      requires Distinct(list.Contents()) && Below(list.Contents(), |rings|)
      ensures Valid() && this.list == list && this.rings == rings && this.state == state && rounds == 0
    {
      this.list, this.rings, this.state := list, rings, state;
      rounds := 0;
    }

    /** Start a new quantum. */
    method ClearRounds()
      requires Valid()
      modifies this`rounds
      ensures Valid() && Procs() == old(Procs()) && rounds == 0
    {
      hide AllValid, Linked, ProcsOf, Distinct, Below;
      rounds := 0;
      SameRings(rings, list.Contents());
    }

    /** `shift_proc_list`. */
    method ShiftProcs()
      requires Valid() && list.head != null
      modifies list
      ensures Valid() && list.head != null && old(Procs()) != [] && Procs() == Shifted(old(Procs()))
    {
      hide AllValid, RotatedPast, Linked, ProcsOf, Below, Distinct;
      ghost var ids := list.Contents();
      list.Shift();
      SameRings(rings, ids);
      ShiftedProcs(ids, rings);
    }

    /** The inner loop of `get_next_thread`, on the process at the head of the list. */
    method LookAt() returns (t: Option<Tid>)
      requires Valid() && list.head != null && Procs()[0].threads != []
      modifies rings
      ensures Valid() && list.head != null
      ensures var (p, r) := ScanThreads(state, old(Procs())[0]); Procs() == old(Procs())[0 := p] && t == r
    {
      hide AllValid, Linked, ScanThreads, ProcsOf, Below;
      HeadProc(this);
      var id := list.Peek();
      t := ScanRing(rings[id], state);
      OneRing(rings, list.Contents(), id);
      KeepsId(state, Proc(id, old(rings[id].Contents())));
    }

    /** The do-while over one thread list. */
    static method ScanRing(ring: Ring, state: map<Tid, ThreadState>) returns (t: Option<Tid>)
      requires ring.Valid() && ring.Contents() != []
      modifies ring
      ensures ring.Valid() && forall x :: x in ring.nodes <==> x in old(ring.nodes)
      ensures Scanned(state, old(ring.Contents()), ring.Contents(), t)
    {
      hide Lap, FirstRunnable, Position, StateOf, Linked, RotatedPast, Rotated, Data, Runnable, Scanned;
      ghost var q := ring.Contents();
      EmptyRing(ring);
      var first := ring.Peek();
      ghost var n, i := Lap(q, first), 0;
      RotatedAt(q, 0);
      while true
        invariant ring.Valid() && ring.head != null && forall x :: x in ring.nodes <==> x in old(ring.nodes)
        invariant 0 <= i < n <= |q| && ring.Contents() == Rotated(q, i)
        invariant forall j :: 0 <= j < i ==> !Runnable(state, q[j])
        decreases n - i
      {
        RotatedAt(q, i);
        var current := ring.Peek();
        ring.Shift();
        if Runnable(state, current) {
          ScannedAt(state, q, i);
          return Some(current);
        }
        i := i + 1;
        var head := ring.Peek();
        if head == first {
          ScannedNone(state, q, i);
          return None;
        }
      }
    }

    /** One iteration of the outer loop: the outcome, or None to go on. */
    method NextProc(first: nat, ghost left: nat) returns (r: Option<Outcome>)
      requires Valid() && list.head != null && Procs() != [] && AtLap(Procs(), first, left)
      modifies this`rounds, list, rings
      ensures Valid() && list.head != null && (rounds == 0 || rounds == old(rounds)) && Procs() != []
      ensures r == None ==> left > 1 && AtLap(Procs(), first, left - 1)
      ensures Scan(state, old(Procs()), left) ==
                if r.Some? then (Procs(), r.value) else Scan(state, Procs(), left - 1)
    {
      hide Lap, Shifted, ScanThreads, Ids, AllValid, Linked, Data, Distinct, Below, ProcsOf, AtLap;
      ghost var procs := Procs();
      HeadProc(this);
      var ring := rings[list.Peek()];
      EmptyRing(ring);
      if ring.head == null {
        return Some(EmptyProc);
      }
      LapNext(state, procs, first, left);
      var t := LookAt();
      if t.Some? {
        return Some(Found(t.value));
      }
      ClearRounds();
      ShiftProcs();
      HeadProc(this);
      return if list.Peek() == first then Some(NoThread) else None;
    }

    /** `get_next_thread`. */
    method GetNextThread() returns (r: Outcome)
      requires Valid()
      modifies this`rounds, list, rings
      ensures Valid() && (Procs(), r) == Select(state, old(Procs()), old(rounds))
      ensures rounds == 0 || rounds == old(rounds)
    {
      hide Lap, Shifted, Scan, Ids, AllValid, Linked, Data, Distinct, Below, ProcsOf, AtLap;
      EmptyList(this);
      if list.head == null {
        return NoProcs;
      }
      HeadProc(this);
      var first := list.Peek();
      LapFirst(Procs());
      if rounds >= ROUNDS_PER_PROC {
        ClearRounds();
        ShiftProcs();
      }
      ghost var start, left := Procs(), Lap(Ids(Procs()), first);
      while true
        invariant Valid() && list.head != null && Procs() != [] && state == old(state)
        invariant left >= 1 && AtLap(Procs(), first, left)
        invariant Scan(state, start, Lap(Ids(start), first)) == Scan(state, Procs(), left)
        invariant rounds == 0 || rounds == old(rounds)
        decreases left
      {
        var done := NextProc(first, left);
        if done.Some? {
          return done.value;
        }
        left := left - 1;
      }
    }
  }

  /** It takes `left` shifts until the process numbered first is at the head again. */
  ghost predicate AtLap(procs: seq<Proc>, first: nat, left: nat) {
    procs != [] && left >= 1 && first in Ids(procs) && left == Lap(Ids(procs), first)
  }

  lemma LapFirst(procs: seq<Proc>)
    requires procs != []
    ensures AtLap(procs, procs[0].id, Lap(Ids(procs), procs[0].id))
    ensures AtLap(Shifted(procs), procs[0].id, Lap(Ids(Shifted(procs)), procs[0].id))
  {
    hide Lap, Shifted;
    assert Ids(procs)[0] == procs[0].id;
    IdsShifted(procs);
  }

  /** After the head process was looked at and passed. */
  lemma LapNext(state: map<Tid, ThreadState>, procs: seq<Proc>, first: nat, left: nat)
    requires AtLap(procs, first, left) && procs[0].threads != []
    ensures var next := Shifted(procs[0 := ScanThreads(state, procs[0]).0]);
            if next[0].id == first then left == 1 else left > 1 && AtLap(next, first, left - 1)
  {
    hide Lap, Shifted, ScanThreads;
    var p := ScanThreads(state, procs[0]).0;
    KeepsId(state, procs[0]);
    IdsUpdated(procs, p);
    IdsShifted(procs[0 := p]);
    LapShifted(Ids(procs), first);
  }

  lemma RingAt(rings: seq<Ring>, i: nat)
    requires AllValid(rings) && i < |rings|
    ensures rings[i].Valid()
  {
  }

  lemma EmptyRing(ring: Ring)
    requires ring.Valid()
    ensures ring.head == null <==> ring.Contents() == []
  {
    hide Linked;
  }

  lemma EmptyList(s: Scheduler)
    requires s.Valid()
    ensures s.list.head == null <==> s.Procs() == []
  {
    hide Linked, AllValid;
  }

  lemma KeepsId(state: map<Tid, ThreadState>, p: Proc)
    requires p.threads != []
    ensures ScanThreads(state, p).0.id == p.id
  {
    hide Lap, FirstRunnable, RotatedPast;
  }

  /** Shifting a rotated list. */
  lemma RotatedAt(q: seq<Tid>, i: nat)
    requires i < |q|
    ensures Rotated(q, 0) == q && Rotated(q, i) != [] && Rotated(q, i)[0] == q[i]
    ensures RotatedPast(Rotated(q, i), 0) == Rotated(q, i + 1) == RotatedPast(q, i)
    ensures Rotated(q, i + 1)[0] == if i + 1 < |q| then q[i + 1] else q[0]
  {
  }

  lemma HeadProc(s: Scheduler)
    requires s.Valid() && s.list.head != null
    ensures var ids := s.list.Contents();
            && ids != [] && ids[0] < |s.rings| && s.Procs() != []
            && s.Procs()[0] == Proc(ids[0], s.rings[ids[0]].Contents()) && s.rings[ids[0]].Valid()
  {
    hide Linked, AllValid;
    EmptyRing(s.list);
    RingAt(s.rings, s.list.Contents()[0]);
  }

  /** What the inner loop does to a thread list q. */
  ghost predicate Scanned(state: map<Tid, ThreadState>, q: seq<Tid>, q': seq<Tid>, t: Option<Tid>) {
    q != [] && forall id: nat :: ScanThreads(state, Proc(id, q)) == (Proc(id, q'), t)
  }

  lemma ScannedAt(state: map<Tid, ThreadState>, q: seq<Tid>, i: nat)
    requires q != [] && i < Lap(q, q[0]) && Runnable(state, q[i]) && forall j :: 0 <= j < i ==> !Runnable(state, q[j])
    ensures Scanned(state, q, RotatedPast(q, i), Some(q[i]))
  {
    hide Lap, FirstRunnable, Runnable, RotatedPast;
    FirstRunnableIs(state, q[..Lap(q, q[0])], i);
  }

  lemma ScannedNone(state: map<Tid, ThreadState>, q: seq<Tid>, i: nat)
    requires q != [] && i == Lap(q, q[0]) && forall j :: 0 <= j < i ==> !Runnable(state, q[j])
    ensures Scanned(state, q, RotatedPast(q, i - 1), None)
  {
    hide Lap, FirstRunnable, Runnable, RotatedPast;
    FirstRunnableIs(state, q[..i], i);
  }

  lemma ShiftedProcs(ids: seq<nat>, rings: seq<Ring>)
    requires ids != [] && Below(ids, |rings|)
    ensures Below(RotatedPast(ids, 0), |rings|) && (Distinct(ids) ==> Distinct(RotatedPast(ids, 0)))
    ensures ProcsOf(ids, rings) != [] && ProcsOf(RotatedPast(ids, 0), rings) == Shifted(ProcsOf(ids, rings))
  {
  }

  /** Nothing that belongs to a thread list was written. */
  twostate predicate Untouched(ring: Ring)
    reads ring, ring.nodes
  {
    unchanged(ring) && unchanged(ring.nodes)
  }

  twostate lemma SameRings(rings: seq<Ring>, new ids: seq<nat>)
    requires Below(ids, |rings|) && forall i :: 0 <= i < |rings| ==> Untouched(rings[i])
    ensures AllValid(rings) == old(AllValid(rings)) && ProcsOf(ids, rings) == old(ProcsOf(ids, rings))
  {
    hide Linked;
  }

  /** Changing the thread list of one process changes that process only. */
  twostate lemma OneRing(rings: seq<Ring>, new ids: seq<nat>, new id: nat)
    requires Below(ids, |rings|) && Distinct(ids) && ids != [] && ids[0] == id && id < |rings|
    requires old(AllValid(rings)) && rings[id].Valid()
    requires forall i :: 0 <= i < |rings| && i != id ==> Untouched(rings[i])
    ensures AllValid(rings)
    ensures ProcsOf(ids, rings) == old(ProcsOf(ids, rings))[0 := Proc(id, rings[id].Contents())]
    ensures old(ProcsOf(ids, rings))[0] == Proc(id, old(rings[id].Contents()))
  {
    hide Linked;
  }

  // What the selection means

  /** No process, and no thread of a process, is listed twice. */
  ghost predicate WellFormed(procs: seq<Proc>) {
    Distinct(Ids(procs)) && AllOk(procs)
  }

  ghost predicate AllOk(procs: seq<Proc>) {
    forall i :: 0 <= i < |procs| ==> ProcOk(procs[i])
  }

  ghost predicate ProcOk(p: Proc) {
    Distinct(p.threads)
  }

  predicate HasReady(state: map<Tid, ThreadState>, p: Proc) {
    FirstRunnable(state, p.threads) < |p.threads|
  }

  /** The walk over the processes ends here. */
  predicate Stops(state: map<Tid, ThreadState>, p: Proc) {
    p.threads == [] || HasReady(state, p)
  }

  /** The first process at which the walk ends, or the length if there is none. */
  function FirstStop(state: map<Tid, ThreadState>, procs: seq<Proc>): (k: nat)
    ensures k <= |procs| && (k < |procs| ==> Stops(state, procs[k]))
    ensures forall j :: 0 <= j < k ==> !Stops(state, procs[j])
  {
    if procs == [] || Stops(state, procs[0]) then 0 else 1 + FirstStop(state, procs[1..])
  }

  /** A process whose first runnable thread has had its turn. */
  function Advanced(state: map<Tid, ThreadState>, p: Proc): Proc
    requires HasReady(state, p)
  {
    p.(threads := RotatedPast(p.threads, FirstRunnable(state, p.threads)))
  }

  /** A walk that ends at the head: a panic over an empty process, or the first runnable thread. */
  function AtHead(state: map<Tid, ThreadState>, procs: seq<Proc>): (seq<Proc>, Outcome)
    requires procs != [] && Stops(state, procs[0])
  {
    if procs[0].threads == [] then (procs, EmptyProc)
    else
      (procs[0 := Advanced(state, procs[0])], Found(procs[0].threads[FirstRunnable(state, procs[0].threads)]))
  }

  lemma ScanThreadsIs(state: map<Tid, ThreadState>, p: Proc)
    requires ProcOk(p) && p.threads != []
    ensures ScanThreads(state, p) ==
              if HasReady(state, p) then (Advanced(state, p), Some(p.threads[FirstRunnable(state, p.threads)]))
              else (p, None)
  {
    hide Lap, FirstRunnable, StateOf;
    var n := Lap(p.threads, p.threads[0]);
    assert p.threads[..n] == p.threads;
    assert !HasReady(state, p) ==> RotatedPast(p.threads, n - 1) == p.threads;
  }

  /** The outer loop goes to the first process that ends it, or comes back to where it was. */
  lemma {:induction false} ScanIs(state: map<Tid, ThreadState>, procs: seq<Proc>, left: nat)
    requires 0 < left <= |procs| && AllOk(procs)
    ensures var k := FirstStop(state, procs[..left]);
            Scan(state, procs, left) ==
              if k < left then AtHead(state, Rotated(procs, k)) else (Rotated(procs, left), NoThread)
    decreases left
  {
    hide ScanThreads, FirstRunnable, FirstStop, StateOf, HasReady, Advanced, Distinct, Shifted, Rotated;
    FirstStopNext(state, procs, left);
    RotatedNext(procs, 0);
    if procs[0].threads != [] {
      ScanThreadsIs(state, procs[0]);
    }
    if !Stops(state, procs[0]) {
      assert procs[0 := procs[0]] == procs;
      if left > 1 {
        ScanIs(state, Shifted(procs), left - 1);
        RotatedNext(procs, FirstStop(state, Shifted(procs)[..left - 1]));
      }
    }
  }

  lemma RotatedNext<T>(ring: seq<T>, k: nat)
    requires k < |ring|
    ensures Rotated(Shifted(ring), k) == Rotated(ring, k + 1) && Rotated(ring, 0) == ring
    ensures k == 0 ==> Rotated(ring, 1) == Shifted(ring)
  {
  }

  lemma FirstStopNext(state: map<Tid, ThreadState>, procs: seq<Proc>, left: nat)
    requires 0 < left <= |procs|
    ensures FirstStop(state, procs[..left]) ==
              if Stops(state, procs[0]) then 0 else 1 + FirstStop(state, Shifted(procs)[..left - 1])
  {
    hide Stops;
    assert procs[..left][1..] == Shifted(procs)[..left - 1];
  }

  /** The processes one call looks at. */
  function Looked(procs: seq<Proc>, rounds: nat): seq<Proc> {
    if rounds >= 5 && |procs| > 1 then procs[1..] else procs
  }

  /**
   `get_next_thread` goes, in ring order, to the first process that has a runnable thread or no thread at
   all: it chooses the first runnable thread there, or panics. If no process it looks at is such, it panics
   with every list back at its starting position. It looks at every process unless the quantum test shifted
   first: then it misses the one that was at the head.
   */
  lemma SelectIs(state: map<Tid, ThreadState>, procs: seq<Proc>, rounds: nat)
    requires WellFormed(procs) && procs != []
    ensures var looked := Looked(procs, rounds);
            var k := FirstStop(state, looked);
            Select(state, procs, rounds) ==
              if k < |looked| then AtHead(state, Rotated(procs, k + |procs| - |looked|)) else (procs, NoThread)
  {
    hide Scan, Lap, FirstRunnable, FirstStop, StateOf, Stops, AtHead, ProcOk, AllOk, Rotated, Shifted, Ids;
    var start, left := StartOf(procs, rounds), Lap(Ids(StartOf(procs, rounds)), procs[0].id);
    StartIs(procs, rounds);
    ScanIs(state, start, left);
    var k := FirstStop(state, Looked(procs, rounds));
    if k < left {
      StartAt(procs, rounds, k);
    }
  }

  lemma StartIs(procs: seq<Proc>, rounds: nat)
    requires WellFormed(procs) && procs != []
    ensures var start := StartOf(procs, rounds);
            var left := Lap(Ids(start), procs[0].id);
            && |start| == |procs| && left == |Looked(procs, rounds)| && start[..left] == Looked(procs, rounds)
            && Rotated(start, left) == procs && AllOk(start)
  {
    hide Lap, ProcOk, Ids, Rotated, Shifted, RotatedPast, Distinct;
    IdsShifted(procs);
    LapIs(Ids(procs), rounds);
    ShiftedParts(procs);
  }

  lemma ShiftedParts<T>(ring: seq<T>)
    requires ring != []
    ensures if |ring| == 1 then Shifted(ring) == ring else Shifted(ring)[..|ring| - 1] == ring[1..]
    ensures Rotated(Shifted(ring), |ring| - 1) == ring && Rotated(ring, |ring|) == ring
    ensures Rotated(Shifted(ring), |ring|) == Shifted(ring)
    ensures ring[..|ring|] == ring
  {
  }

  lemma StartAt(procs: seq<Proc>, rounds: nat, k: nat)
    requires procs != [] && k < |Looked(procs, rounds)|
    ensures StartOf(procs, rounds)[k] == Looked(procs, rounds)[k]
    ensures Rotated(StartOf(procs, rounds), k) == Rotated(procs, k + |procs| - |Looked(procs, rounds)|)
  {
    hide Rotated, Shifted;
    RotatedNext(procs, k);
    if |procs| == 1 {
      assert Shifted(procs) == procs;
    }
  }

  lemma LapIs(ids: seq<nat>, rounds: nat)
    requires ids != [] && Distinct(ids)
    ensures Lap(ids, ids[0]) == |ids|
    ensures |ids| > 1 ==> Lap(Shifted(ids), ids[0]) == |ids| - 1
  {
    hide Lap;
    assert ids[0] in Shifted(ids) by { assert Shifted(ids)[|ids| - 1] == ids[0]; }
    assert forall i :: 0 <= i < |ids| - 1 ==> Shifted(ids)[i] == ids[i + 1] != ids[0];
  }

  /** When no process is empty: a thread is found exactly if some process looked at has a runnable one, and it is runnable. */
  lemma FoundIff(state: map<Tid, ThreadState>, procs: seq<Proc>, rounds: nat)
    requires WellFormed(procs) && procs != [] && forall i :: 0 <= i < |procs| ==> procs[i].threads != []
    ensures var r := Select(state, procs, rounds).1;
            && (r.Found? <==> exists i :: 0 <= i < |Looked(procs, rounds)| && SomeRunnable(state, Looked(procs, rounds)[i].threads))
            && (if r.Found? then Runnable(state, r.t) else r == NoThread)
  {
    hide Select, FirstRunnable, StateOf, Rotated, SomeRunnable, HasReady, Advanced, WellFormed, Runnable, RotatedPast;
    SelectIs(state, procs, rounds);
    var looked := Looked(procs, rounds);
    forall i | 0 <= i < |looked| ensures Stops(state, looked[i]) <==> SomeRunnable(state, looked[i].threads) {
      ReadyIff(state, looked[i]);
    }
    var k := FirstStop(state, looked);
    if k < |looked| {
      ChosenRunnable(state, looked[k]);
    }
  }

  lemma ChosenRunnable(state: map<Tid, ThreadState>, p: Proc)
    requires HasReady(state, p)
    ensures Runnable(state, p.threads[FirstRunnable(state, p.threads)])
  {
    hide FirstRunnable;
  }

  // Whole runs of the scheduler loop

  /** The outcomes of successive calls, given the thread states each call sees. */
  function Outcomes(states: seq<map<Tid, ThreadState>>, procs: seq<Proc>): (r: seq<Outcome>)
    ensures |r| == |states|
    decreases states
  {
    if states == [] then []
    else
      var (next, r) := Select(states[0], procs, 0);
      [r] + Outcomes(states[1..], next)
  }

  /** While the head process has a runnable thread, it keeps the head and only its own list turns. */
  lemma HeadStays(state: map<Tid, ThreadState>, procs: seq<Proc>)
    requires WellFormed(procs) && procs != [] && HasReady(state, procs[0])
    ensures Select(state, procs, 0) ==
              (procs[0 := Advanced(state, procs[0])], Found(procs[0].threads[FirstRunnable(state, procs[0].threads)]))
    ensures WellFormed(procs[0 := Advanced(state, procs[0])])
    ensures forall t :: t in Advanced(state, procs[0]).threads <==> t in procs[0].threads
  {
    hide Select, Rotated, FirstRunnable, StateOf, RotatedPast;
    SelectIs(state, procs, 0);
    assert FirstStop(state, procs) == 0;
    RotatedNext(procs, 0);
    RotatedMembers(procs[0].threads, FirstRunnable(state, procs[0].threads));
    IdsUpdated(procs, Advanced(state, procs[0]));
  }

  /**
   The quantum never takes effect: `current_proc_rounds` stays 0, so as long as the head process has a
   runnable thread at every call, no thread of another process is ever chosen.
   */
  lemma {:induction false} HeadKeepsTheCpu(states: seq<map<Tid, ThreadState>>, procs: seq<Proc>, i: nat)
    requires WellFormed(procs) && procs != [] && i < |states|
    requires forall j :: 0 <= j < |states| ==> SomeRunnable(states[j], procs[0].threads)
    ensures Outcomes(states, procs)[i].Found? && Outcomes(states, procs)[i].t in procs[0].threads
    decreases states
  {
    hide Select, FirstRunnable, StateOf, RotatedPast, WellFormed, Advanced, SomeRunnable;
    ReadyIff(states[0], procs[0]);
    HeadStays(states[0], procs);
    if i > 0 {
      var next := procs[0 := Advanced(states[0], procs[0])];
      forall j | 0 <= j < |states[1..]| ensures SomeRunnable(states[1..][j], next[0].threads) {
        SameMembers(states[j + 1], procs[0].threads, next[0].threads);
      }
      HeadKeepsTheCpu(states[1..], next, i - 1);
    }
  }

  ghost predicate SomeRunnable(state: map<Tid, ThreadState>, threads: seq<Tid>) {
    exists t :: t in threads && Runnable(state, t)
  }

  lemma ReadyIff(state: map<Tid, ThreadState>, p: Proc)
    ensures HasReady(state, p) <==> SomeRunnable(state, p.threads)
  {
    hide FirstRunnable, StateOf;
    if SomeRunnable(state, p.threads) {
      var t :| t in p.threads && Runnable(state, t);
      var i :| 0 <= i < |p.threads| && p.threads[i] == t;
      assert Runnable(state, p.threads[i]);
    }
  }

  lemma SameMembers(state: map<Tid, ThreadState>, a: seq<Tid>, b: seq<Tid>)
    requires SomeRunnable(state, a) && forall t :: t in b <==> t in a
    ensures SomeRunnable(state, b)
  {
  }

  /** A process whose threads are all runnable gives them turns in strict rotation. */
  lemma {:induction false} StrictRotation(state: map<Tid, ThreadState>, n: nat, procs: seq<Proc>, i: nat)
    requires WellFormed(procs) && procs != [] && procs[0].threads != [] && i < n
    requires forall t :: t in procs[0].threads ==> Runnable(state, t)
    ensures Outcomes(seq(n, _ => state), procs)[i] == Found(procs[0].threads[i % |procs[0].threads|])
    decreases n
  {
    hide Select, StateOf, WellFormed, Runnable, RotatedPast;
    var p := procs[0];
    assert p.threads[0] in p.threads;
    FirstRunnableIs(state, p.threads, 0);
    HeadStays(state, procs);
    NextInRing(p.threads, i);
    if i > 0 {
      assert seq(n, _ => state)[1..] == seq(n - 1, _ => state);
      StrictRotation(state, n - 1, procs[0 := Advanced(state, p)], i - 1);
    }
  }

  lemma NextInRing<T>(ring: seq<T>, i: nat)
    requires ring != []
    ensures |RotatedPast(ring, 0)| == |ring|
    ensures ring[i % |ring|] == if i == 0 then ring[0] else RotatedPast(ring, 0)[(i - 1) % |ring|]
  {
    if i > 0 {
      NextMod(i - 1, |ring|);
    }
  }

  lemma NextMod(i: nat, n: nat)
    requires n > 0
    ensures (i + 1) % n == if i % n == n - 1 then 0 else i % n + 1
  {
    var q, r := i / n, i % n;
    if r == n - 1 {
      assert i + 1 == (q + 1) * n;
      DivModUnique(i + 1, n, q + 1, 0);
    } else {
      DivModUnique(i + 1, n, q, r + 1);
    }
  }
}
