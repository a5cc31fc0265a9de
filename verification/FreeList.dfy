/**
 The free list of `kernel/kalloc/kalloc.c`: a linked list whose links are word 0 of
 the free pages themselves. `FreeOk` relates it to a stack of distinct frames.
 */
module FreeList {
  import opened Bits
  import opened PageEntry
  import opened PageTree

  const PHYSTOP: nat := 0x800_0000

  /** Frames that `kfree` accepts: from the end of the kernel image up to PHYSTOP. */
  predicate InPool(f: nat, kend: nat) {
    kend <= f * PGSIZE < PHYSTOP
  }

  /** The link stored for position i: the address of the next free page, 0 at the end. */
  function Link(free: seq<nat>, i: nat): nat {
    if i < |free| then free[i] * PGSIZE else 0
  }

  ghost predicate FreeOk(mem: Memory, kend: nat, head: nat, free: seq<nat>) {
    && head == Link(free, 0)
    && (forall i :: 0 <= i < |free| ==> InPool(free[i], kend) && free[i] < |mem|)
    && (forall i :: 0 <= i < |free| ==> mem[free[i]][0] == Link(free, i + 1))
    && (forall i, j :: 0 <= i < j < |free| ==> free[i] != free[j])
  }

  /** Writing pages that are not free leaves the list alone. */
  lemma WriteUsed(mem: Memory, mem': Memory, kend: nat, head: nat, free: seq<nat>)
    requires FreeOk(mem, kend, head, free)
    requires |mem'| == |mem| && forall f :: f in free && f < |mem| ==> mem'[f] == mem[f]
    ensures FreeOk(mem', kend, head, free)
  {
  }

  /** What the head of the list says. */
  lemma Head(mem: Memory, kend: nat, head: nat, free: seq<nat>)
    requires FreeOk(mem, kend, head, free) && kend > 0
    ensures head == 0 <==> free == []
    ensures free != [] ==> head == free[0] * PGSIZE && head / PGSIZE == free[0] < |mem| && InPool(free[0], kend)
    ensures free != [] ==> free[0] !in free[1..]
  {
  }

  /** Overwriting the first free page and advancing the head pops it. */
  lemma Pop(mem: Memory, mem': Memory, kend: nat, head: nat, free: seq<nat>)
    requires FreeOk(mem, kend, head, free) && free != []
    requires |mem'| == |mem| && forall f :: 0 <= f < |mem| && f != free[0] ==> mem'[f] == mem[f]
    ensures FreeOk(mem', kend, mem[free[0]][0], free[1..])
  {
    var rest := free[1..];
    forall i | 0 <= i < |rest| ensures mem'[rest[i]][0] == Link(rest, i + 1) {
      assert rest[i] == free[i + 1];
    }
  }

  lemma LinkAfterPush(free: seq<nat>, f: nat, i: nat)
    ensures Link([f] + free, i + 1) == Link(free, i)
  {
  }

  lemma LinkFirst(free: seq<nat>, f: nat)
    ensures Link([f] + free, 0) == f * PGSIZE
  {
  }

  /** Storing the old head in word 0 of a page and making it the head pushes it. */
  lemma Push(mem: Memory, mem': Memory, kend: nat, head: nat, free: seq<nat>, f: nat)
    requires FreeOk(mem, kend, head, free)
    requires f < |mem| && InPool(f, kend) && f !in free
    requires |mem'| == |mem| && forall g :: 0 <= g < |mem| && g != f ==> mem'[g] == mem[g]
    requires mem'[f][0] == head
    ensures FreeOk(mem', kend, f * PGSIZE, [f] + free)
  {
    hide InPool, Link;
    var more := [f] + free;
    forall i | 0 <= i < |more|
      ensures InPool(more[i], kend) && more[i] < |mem| && mem'[more[i]][0] == Link(more, i + 1)
    {
      LinkAfterPush(free, f, i);
      if i > 0 {
        assert more[i] == free[i - 1] && more[i] in free;
        assert mem[free[i - 1]][0] == Link(free, i);
      }
    }
    LinkFirst(free, f);
  }

  /** After freeing a free page again, no sequence of distinct pages is the list: following the links comes back to it. */
  lemma NotAList(mem: Memory, mem': Memory, kend: nat, head: nat, free: seq<nat>, f: nat, list: seq<nat>)
    requires FreeOk(mem, kend, head, free) && f in free && kend > 0
    requires |mem'| == |mem| && forall g :: 0 <= g < |mem| && g != f ==> mem'[g] == mem[g]
    requires f < |mem| && mem'[f][0] == head
    ensures !FreeOk(mem', kend, f * PGSIZE, list)
  {
    if FreeOk(mem', kend, f * PGSIZE, list) {
      var i :| 0 <= i < |free| && free[i] == f;
      Follow(mem, mem', kend, head, free, f, list, i);
      assert false;
    }
  }

  lemma {:induction false} Follow(mem: Memory, mem': Memory, kend: nat, head: nat, free: seq<nat>, f: nat,
                                  list: seq<nat>, i: nat)
    requires FreeOk(mem, kend, head, free) && kend > 0 && FreeOk(mem', kend, f * PGSIZE, list)
    requires |mem'| == |mem| && forall g :: 0 <= g < |mem| && g != f ==> mem'[g] == mem[g]
    requires i < |free| && f !in free[..i] && f < |mem| && mem'[f][0] == head && f > 0
    ensures |list| > i + 1 && list[0] == f && list[i + 1] == free[i]
    decreases i
  {
    LinkedTo(free, i, kend, list);
    LinkedTo([f], 0, f, list);
    if i > 0 {
      Follow(mem, mem', kend, head, free, f, list, i - 1);
      assert free[i - 1] in free[..i];
      assert free[i - 1] == list[i] && mem'[list[i]][0] == mem[free[i - 1]][0];
    }
  }

  /** The stored address of a page tells that there is a next page, and which. */
  lemma LinkedTo(free: seq<nat>, i: nat, kend: nat, list: seq<nat>)
    requires i < |free| && free[i] * PGSIZE >= kend > 0
    ensures forall j: nat :: Link(list, j) == free[i] * PGSIZE ==> j < |list| && list[j] == free[i]
  {
  }

  ghost function Frames(free: seq<nat>): set<nat> {
    set f | f in free
  }

  lemma FramesPop(free: seq<nat>)
    requires free != []
    ensures Frames(free) == Frames(free[1..]) + {free[0]}
  {
  }

  /** A list of distinct elements has as many elements as its set. */
  lemma {:induction false} DistinctCount(free: seq<nat>)
    requires forall i, j :: 0 <= i < j < |free| ==> free[i] != free[j]
    ensures |Frames(free)| == |free|
  {
    if free != [] {
      DistinctCount(free[1..]);
      FramesPop(free);
    }
  }
}
