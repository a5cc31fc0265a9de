/**
 The run queue of one CPU as a sequence read from its head: what pushing, removing and
 selecting do to it. `ThreadRing` shows that the circular list implements these.
 */
module RunQueue {

  /** A thread, identified by the address of its `struct thread`. */
  type Tid = nat

  /** `enum sched_states`. */
  datatype ThreadState = NEW | RUNNABLE | ON_CPU | WAIT | EXIT | UNUSED

  function StateOf(state: map<Tid, ThreadState>, t: Tid): ThreadState {
    if t in state then state[t] else NEW
  }

  predicate Runnable(state: map<Tid, ThreadState>, t: Tid) {
    StateOf(state, t) == RUNNABLE
  }

  /** The first position of t, or the length if there is none. */
  function Position(q: seq<Tid>, t: Tid): (i: nat)
    ensures i <= |q| && (i < |q| <==> t in q)
    ensures i < |q| ==> q[i] == t
    ensures t !in q[..i]
  {
    if q == [] || q[0] == t then 0 else 1 + Position(q[1..], t)
  }

  function RemoveAt<T>(q: seq<T>, i: nat): seq<T>
    requires i < |q|
  {
    q[..i] + q[i + 1..]
  }

  /** Deleting the first occurrence of t. */
  function Removed(q: seq<Tid>, t: Tid): seq<Tid> {
    var i := Position(q, t);
    if i < |q| then RemoveAt(q, i) else q
  }

  /** The first position of a runnable thread, or the length if there is none. */
  function FirstRunnable(state: map<Tid, ThreadState>, q: seq<Tid>): (i: nat)
    ensures i <= |q| && (i < |q| ==> Runnable(state, q[i]))
    ensures forall j :: 0 <= j < i ==> !Runnable(state, q[j])
  {
    if q == [] || Runnable(state, q[0]) then 0 else 1 + FirstRunnable(state, q[1..])
  }

  /** The queue read from just past position i. */
  function RotatedPast<T>(q: seq<T>, i: nat): seq<T>
    requires i < |q|
  {
    q[i + 1..] + q[..i + 1]
  }

  ghost predicate Distinct<T>(q: seq<T>) {
    forall i, j :: 0 <= i < j < |q| ==> q[i] != q[j]
  }

  lemma RemovedMembers(q: seq<Tid>, t: Tid)
    requires Distinct(q)
    ensures Distinct(Removed(q, t))
    ensures forall u :: u in Removed(q, t) <==> u in q && u != t
    ensures |Removed(q, t)| == if t in q then |q| - 1 else |q|
  {
    var i := Position(q, t);
    var r := Removed(q, t);
    if i < |q| {
      forall u | u in q && u != t ensures u in r {
        var j :| 0 <= j < |q| && q[j] == u;
        assert r[if j < i then j else j - 1] == u;
      }
    }
  }

  lemma RotatedMembers<T>(q: seq<T>, i: nat)
    requires i < |q|
    ensures Distinct(q) ==> Distinct(RotatedPast(q, i))
    ensures |RotatedPast(q, i)| == |q|
    ensures forall u :: u in RotatedPast(q, i) <==> u in q
    ensures multiset(RotatedPast(q, i)) == multiset(q)
  {
    assert q == q[..i + 1] + q[i + 1..];
    var r := RotatedPast(q, i);
    forall u | u in q ensures u in r {
      var j :| 0 <= j < |q| && q[j] == u;
      assert r[if j <= i then |q| - i - 1 + j else j - i - 1] == u;
    }
  }

  lemma PushedMembers(q: seq<Tid>, t: Tid)
    requires Distinct(q) && t !in q
    ensures Distinct(q + [t])
    ensures forall u :: u in q + [t] <==> u in q || u == t
  {
  }

  // What each operation does to the position of a waiting thread

  lemma {:induction false} PositionIs(q: seq<Tid>, t: Tid, i: nat)
    requires i < |q| && q[i] == t && t !in q[..i]
    ensures Position(q, t) == i
  {
    var k := Position(q, t);
    assert t in q;
    assert forall j :: 0 <= j < i ==> q[j] in q[..i];
    assert forall j :: 0 <= j < k ==> q[j] in q[..k];
  }

  lemma PushKeepsPosition(q: seq<Tid>, t: Tid, u: Tid)
    requires t in q
    ensures Position(q + [u], t) == Position(q, t)
  {
    var i := Position(q, t);
    assert (q + [u])[..i] == q[..i];
    PositionIs(q + [u], t, i);
  }

  lemma RemoveLowersPosition(q: seq<Tid>, t: Tid, u: Tid)
    requires t in q && u != t
    ensures t in Removed(q, u) && Position(Removed(q, u), t) <= Position(q, t)
  {
    var i, k, r := Position(q, t), Position(q, u), Removed(q, u);
    if k < |q| {
      var i' := if k < i then i - 1 else i;
      assert r[i'] == t;
      forall j | 0 <= j < i' ensures r[j] != t {
        assert r[j] == q[if j < k then j else j + 1];
        assert q[if j < k then j else j + 1] in q[..i];
      }
      PositionIs(r, t, i');
    }
  }

  lemma RotateLowersPosition(q: seq<Tid>, t: Tid, k: nat)
    requires t in q && k < Position(q, t)
    ensures Position(RotatedPast(q, k), t) == Position(q, t) - k - 1
  {
    hide Position;
    var i, r := Position(q, t), RotatedPast(q, k);
    var tail := q[k + 1..];
    assert r[..i - k - 1] == tail[..i - k - 1] == q[..i][k + 1..];
    assert r[i - k - 1] == tail[i - k - 1] == t;
    PositionIs(r, t, i - k - 1);
  }

  /** Selecting another thread moves a runnable waiting thread strictly forward. */
  lemma SelectLowersPosition(state: map<Tid, ThreadState>, q: seq<Tid>, t: Tid)
    requires t in q && Runnable(state, t)
    ensures FirstRunnable(state, q) <= Position(q, t) < |q|
    ensures FirstRunnable(state, q) < Position(q, t) ==>
              Position(RotatedPast(q, FirstRunnable(state, q)), t) < Position(q, t)
  {
    hide Position, FirstRunnable, StateOf, RotatedPast;
    var i, k := Position(q, t), FirstRunnable(state, q);
    assert Runnable(state, q[i]);
    if k < i {
      RotateLowersPosition(q, t, k);
    }
  }

  // Recognising the results of the scans

  lemma RemovedNone(q: seq<Tid>, t: Tid)
    requires t !in q
    ensures Removed(q, t) == q
  {
  }

  lemma RemovedLength(q: seq<Tid>, t: Tid)
    ensures |Removed(q, t)| == if t in q then |q| - 1 else |q|
  {
    hide Position;
  }

  lemma RemovedAt(q: seq<Tid>, t: Tid, i: nat)
    requires i < |q| && q[i] == t && t !in q[..i]
    ensures Removed(q, t) == RemoveAt(q, i)
  {
    PositionIs(q, t, i);
  }

  lemma FirstRunnableIs(state: map<Tid, ThreadState>, q: seq<Tid>, i: nat)
    requires i <= |q| && (forall j :: 0 <= j < i ==> !Runnable(state, q[j])) && (i < |q| ==> Runnable(state, q[i]))
    ensures FirstRunnable(state, q) == i
  {
    hide FirstRunnable, StateOf, Runnable;
    var k := FirstRunnable(state, q);
    assert k < |q| ==> Runnable(state, q[k]);
    assert i < |q| ==> Runnable(state, q[i]);
  }

  lemma FirstRunnableNone(state: map<Tid, ThreadState>, q: seq<Tid>)
    ensures q == [] ==> FirstRunnable(state, q) == 0
  {
  }
}
