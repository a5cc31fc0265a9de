/**
 The circular doubly linked run queue of `kernel/sched/threads.c` and
 `kernel/sched/smp_sched.c`, on heap nodes. Each method is proved to do to the
 sequence read from the head what `RunQueue` says.
 */
module ThreadRing {
  import opened RunQueue
  import opened Wrappers

  /** `struct thread_node`. */
  class Node {
    var data: Tid
    var next: Node
    var prev: Node

    /** A ring of one. */
    constructor (data: Tid)
      ensures this.data == data && next == this && prev == this
    {
      this.data := data;
      next := this;
      prev := this;
    }
  }

  /** a is followed by b. */
  ghost predicate Joined(a: Node, b: Node)
    reads a, b
  {
    a.next == b && b.prev == a
  }

  /** The nodes form one ring in this order; `next` and `prev` are mutually inverse along it. */
  ghost predicate Linked(nodes: seq<Node>)
    reads nodes
  {
    && Distinct(nodes)
    && (forall i :: 0 <= i < |nodes| - 1 ==> Joined(nodes[i], nodes[i + 1]))
    && (nodes != [] ==> Joined(nodes[|nodes| - 1], nodes[0]))
  }

  ghost function Data(nodes: seq<Node>): (s: seq<Tid>)
    reads nodes
    ensures |s| == |nodes|
    ensures forall i :: 0 <= i < |nodes| ==> s[i] == nodes[i].data
  {
    seq(|nodes|, i requires 0 <= i < |nodes| reads nodes => nodes[i].data)
  }

  /** Reading the ring from another node. */
  lemma LinkedRotated(nodes: seq<Node>, k: nat)
    requires Linked(nodes) && k < |nodes|
    ensures Linked(RotatedPast(nodes, k)) && Data(RotatedPast(nodes, k)) == RotatedPast(Data(nodes), k)
  {
    var n, r := |nodes|, RotatedPast(nodes, k);
    RotatedMembers(nodes, k);
    forall i | 0 <= i < n - 1 ensures Joined(r[i], r[i + 1]) {
      if i < n - k - 2 {
        assert r[i] == nodes[i + k + 1] && r[i + 1] == nodes[i + k + 2];
      } else if i == n - k - 2 {
        assert r[i] == nodes[n - 1] && r[i + 1] == nodes[0];
      } else {
        assert r[i] == nodes[i - (n - k - 1)] && r[i + 1] == nodes[i - (n - k - 1) + 1];
      }
    }
    if k < n - 1 {
      assert r[n - 1] == nodes[k] && r[0] == nodes[k + 1];
    } else {
      assert r == nodes;
    }
  }

  lemma RingEnds(nodes: seq<Node>)
    requires Linked(nodes)
    ensures Distinct(nodes) && (nodes != [] ==> Joined(nodes[|nodes| - 1], nodes[0]))
  {
  }

  lemma DataOfOne(node: Node)
    requires node.next == node && node.prev == node
    ensures Linked([node]) && Data([]) == [] && Data([node]) == [node.data]
  {
  }

  /** Putting a new node between the last and the first. */
  twostate lemma LinkedPushed(nodes: seq<Node>, new node: Node)
    requires old(Linked(nodes)) && nodes != [] && node !in nodes
    requires Joined(nodes[|nodes| - 1], node) && Joined(node, nodes[0])
    requires forall i :: 0 <= i < |nodes| ==> nodes[i].data == old(nodes[i].data)
    requires forall i :: 0 <= i < |nodes| - 1 ==> nodes[i].next == old(nodes[i].next)
    requires forall i :: 0 < i < |nodes| ==> nodes[i].prev == old(nodes[i].prev)
    ensures Linked(nodes + [node]) && Data(nodes + [node]) == old(Data(nodes)) + [node.data]
  {
    var more := nodes + [node];
    forall i | 0 <= i < |more| - 1 ensures Joined(more[i], more[i + 1]) {
      if i < |nodes| - 1 {
        assert old(Joined(nodes[i], nodes[i + 1]));
      }
    }
  }

  function Following(i: nat, n: nat): (j: nat)
    requires i < n
    ensures j < n
  {
    if i == n - 1 then 0 else i + 1
  }

  function Preceding(i: nat, n: nat): (j: nat)
    requires i < n
    ensures j < n
  {
    if i == 0 then n - 1 else i - 1
  }

  /** Taking a node out from between its neighbours. */
  twostate lemma LinkedRemoved(nodes: seq<Node>, new a: nat, new i: nat, new b: nat)
    requires old(Linked(nodes)) && i < |nodes| && |nodes| > 1
    requires a == Preceding(i, |nodes|) && b == Following(i, |nodes|) && Joined(nodes[a], nodes[b])
    requires forall j :: 0 <= j < |nodes| - 1 && j != i && j + 1 != i ==> nodes[j].next == old(nodes[j].next)
    requires forall j :: 0 < j < |nodes| && j != i && j - 1 != i ==> nodes[j].prev == old(nodes[j].prev)
    requires 0 < i < |nodes| - 1 ==> nodes[|nodes| - 1].next == old(nodes[|nodes| - 1].next) && nodes[0].prev == old(nodes[0].prev)
    ensures Linked(RemoveAt(nodes, i))
  {
    var n, rest := |nodes|, RemoveAt(nodes, i);
    forall j | 0 <= j < n - 2 ensures Joined(rest[j], rest[j + 1]) {
      if j + 1 < i {
        assert old(Joined(nodes[j], nodes[j + 1]));
      } else if j >= i {
        assert old(Joined(nodes[j + 1], nodes[j + 2]));
      }
    }
    assert old(Joined(nodes[n - 1], nodes[0]));
  }

  twostate lemma DataRemoved(nodes: seq<Node>, new i: nat)
    requires i < |nodes| && forall j :: 0 <= j < |nodes| ==> nodes[j].data == old(nodes[j].data)
    ensures Data(RemoveAt(nodes, i)) == RemoveAt(old(Data(nodes)), i)
  {
  }

  class Ring {
    var head: Node?        // run_queue
    var count: nat         // num_threads
    ghost var nodes: seq<Node>

    ghost predicate Valid()
      reads this, nodes
    {
      && Linked(nodes)
      && head == (if nodes == [] then null else nodes[0])
      && count == |nodes|
    }

    /** The threads of the queue, read from its head. */
    ghost function Contents(): seq<Tid>
      reads this, nodes
    {
      Data(nodes)
    }

    constructor ()
      ensures Valid() && nodes == []
    {
      head, count, nodes := null, 0, [];
    }

    /** `push_thread_list` and `runqueue_add_unlocked`: append just before the head. */
    method Push(t: Tid)
      requires Valid()
      modifies this, nodes
      ensures Valid() && nodes != [] && fresh(nodes[|nodes| - 1]) && nodes[..|nodes| - 1] == old(nodes)
      ensures Contents() == old(Contents()) + [t]
    {
      hide Data, Linked;
      RingEnds(nodes);
      var node := new Node(t);
      if head != null {
        node.next := head;
        node.prev := head.prev;
        head.prev.next := node;
        head.prev := node;
        LinkedPushed(nodes, node);
      } else {
        head := node;
        DataOfOne(node);
        assert nodes + [node] == [node];
      }
      nodes := nodes + [node];
      count := count + 1;
    }

    /** `runqueue_remove_unlocked`: delete the first node that holds t. */
    method Remove(t: Tid) returns (found: bool)
      requires Valid()
      modifies this, nodes
      ensures Valid() && forall x :: x in nodes ==> x in old(nodes)
      ensures found <==> t in old(Contents())
      ensures Contents() == Removed(old(Contents()), t)
      ensures !found ==> unchanged(this) && unchanged(nodes)
    {
      hide Linked, Removed, Position;
      ghost var q := Contents();
      if head == null {
        RemovedNone(q, t);
        return false;
      }
      var start := head;
      var current := start;
      ghost var i := 0;
      while true
        invariant unchanged(this)
        invariant unchanged(nodes)
        invariant 0 <= i < |nodes| && current == nodes[i] && start == nodes[0]
        invariant t !in q[..i]
        decreases |nodes| - i
      {
        NextIs(nodes, i);
        if current.data == t {
          RemovedAt(q, t, i);
          Unlink(current, i);
          return true;
        }
        assert q[..i + 1] == q[..i] + [q[i]];
        current := current.next;
        if current == start {
          assert q[..i + 1] == q;
          RemovedNone(q, t);
          return false;
        }
        i := i + 1;
      }
    }

    /** The unlinking branch of `runqueue_remove_unlocked`. */
    method Unlink(current: Node, ghost i: nat)
      requires Valid() && i < |nodes| && current == nodes[i]
      modifies this, nodes
      ensures Valid() && nodes == RemoveAt(old(nodes), i)
      ensures Contents() == RemoveAt(old(Contents()), i)
    {
      hide Linked, Data;
      if current.next == current {
        RingOfOne(nodes, i);
        DataOfNone();
        head, nodes := null, [];
      } else {
        RingOfMore(nodes, i);
        Bypass(current, i);
        nodes := RemoveAt(nodes, i);
      }
      count := count - 1;
    }

    /** Let the neighbours of a node that is not alone point past it. */
    method Bypass(current: Node, ghost i: nat)
      requires Valid() && |nodes| > 1 && i < |nodes| && current == nodes[i]
      modifies this`head, nodes
      ensures var rest := RemoveAt(nodes, i);
              Linked(rest) && head == rest[0] && Data(rest) == RemoveAt(old(Contents()), i)
    {
      hide Data, Linked;
      RingEnds(nodes);
      NextIs(nodes, i);
      PrevIs(nodes, i);
      ghost var a, b := Preceding(i, |nodes|), Following(i, |nodes|);
      current.prev.next := current.next;
      current.next.prev := current.prev;
      if head == current {
        head := current.next;
      }
      LinkedRemoved(nodes, a, i, b);
      DataRemoved(nodes, i);
    }

    /** `peek_thread_list` and `peek_proc_list`. */
    function Peek(): (t: Tid)
      requires Valid() && head != null
      reads this, head, nodes
      ensures nodes != [] && t == Contents()[0]
    {
      head.data
    }

    /** `shift_thread_list` and `shift_proc_list`. */
    method Shift()
      requires Valid() && head != null
      modifies this
      ensures Valid() && head != null && (forall x :: x in nodes <==> x in old(nodes))
      ensures old(nodes) != [] && nodes == RotatedPast(old(nodes), 0)
      ensures Contents() == RotatedPast(old(Contents()), 0)
    {
      hide Linked, RotatedPast;
      NextIs(nodes, 0);
      LinkedRotated(nodes, 0);
      RotatedMembers(nodes, 0);
      RotatedHead(nodes, 0);
      head := head.next;
      nodes := RotatedPast(nodes, 0);
    }

    /** `runqueue_get_next`: the first runnable thread; the head moves just past it. */
    method GetNext(state: map<Tid, ThreadState>) returns (r: Option<Tid>)
      requires Valid()
      modifies this
      ensures Valid() && |nodes| == |old(nodes)| && forall x :: x in nodes <==> x in old(nodes)
      ensures var q := old(Contents());
              var i := FirstRunnable(state, q);
              if i < |q| then r == Some(q[i]) && Contents() == RotatedPast(q, i)
              else r == None && Contents() == q
    {
      hide Linked, FirstRunnable, StateOf, RotatedPast;
      ghost var q := Contents();
      FirstRunnableNone(state, q);
      if head == null {
        return None;
      }
      var start := head;
      var current := start;
      ghost var i := 0;
      while true
        invariant unchanged(this)
        invariant 0 <= i < |nodes| && current == nodes[i] && start == nodes[0]
        invariant forall j :: 0 <= j < i ==> !Runnable(state, q[j])
        decreases |nodes| - i
      {
        NextIs(nodes, i);
        var t := current.data;
        if Runnable(state, t) {
          FirstRunnableIs(state, q, i);
          LinkedRotated(nodes, i);
          RotatedMembers(nodes, i);
          RotatedHead(nodes, i);
          head := current.next;
          nodes := RotatedPast(nodes, i);
          return Some(t);
        }
        current := current.next;
        if current == start {
          FirstRunnableIs(state, q, |q|);
          return None;
        }
        i := i + 1;
      }
    }
  }

  lemma NextIs(nodes: seq<Node>, i: nat)
    requires Linked(nodes) && i < |nodes|
    ensures nodes[i].next == nodes[Following(i, |nodes|)]
    ensures nodes[i].next == nodes[0] <==> i == |nodes| - 1
  {
    assert i < |nodes| - 1 ==> Joined(nodes[i], nodes[i + 1]);
  }

  lemma PrevIs(nodes: seq<Node>, i: nat)
    requires Linked(nodes) && i < |nodes|
    ensures nodes[i].prev == nodes[Preceding(i, |nodes|)]
  {
    assert i > 0 ==> Joined(nodes[i - 1], nodes[i]);
  }

  lemma RingOfOne(nodes: seq<Node>, i: nat)
    requires Linked(nodes) && i < |nodes| && nodes[i].next == nodes[i]
    ensures |nodes| == 1 && RemoveAt(nodes, i) == [] && RemoveAt(Data(nodes), i) == []
  {
    NextIs(nodes, i);
  }

  lemma RingOfMore(nodes: seq<Node>, i: nat)
    requires Linked(nodes) && i < |nodes| && nodes[i].next != nodes[i]
    ensures |nodes| > 1
  {
    NextIs(nodes, i);
  }

  lemma DataOfNone()
    ensures Linked([]) && Data([]) == []
  {
  }

  lemma RotatedHead<T>(nodes: seq<T>, i: nat)
    requires i < |nodes|
    ensures RotatedPast(nodes, i) != [] && RotatedPast(nodes, i)[0] == nodes[Following(i, |nodes|)]
  {
  }
}
