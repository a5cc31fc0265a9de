/**
 Every run: a client that performs any sequence of operations on the kernel's memory,
 freeing and writing only pages that it holds. The kernel uses its pages through their own
 mappings, so a run is followed up to the first operation that takes such a mapping away.
 */
module MemoryClient {
  import opened Bits
  import opened PageEntry
  import opened PageTree
  import opened Addressing
  import opened Wrappers
  import opened FreeList
  import opened Walks
  import opened Ranges
  import opened KernelMemory

  /** One operation. `Free` and `Store` pick one of the pages the client holds. */
  datatype Op =
    | Alloc
    | Free(which: nat)
    | Store(which: nat, index: nat, word: u64)
    | MapOne(va: u64, pa: u64, flags: nat)
    | MapRange(va: u64, pa: u64, size: u64, flags: nat)
    | Mmio(pa: u64, size: u64)
    | UnmapOne(va: u64)
    | UnmapRange(va: u64, size: u64)

  /** The pages whose mapping an operation removes, known before it is performed. */
  ghost function Removes(k: Kernel, op: Op): set<nat>
    reads k
  {
    match op
    case UnmapOne(va) => {Vpn(va)}
    case UnmapRange(va, size) => Keys(va, SpanPages(va, size))
    case MapRange(va, pa, size, _) =>
      if k.StopsAt(va, pa, size) < SpanPages(va, size) then Keys(va, k.StopsAt(va, pa, size)) else {}
    case Mmio(pa, size) =>
      if k.StopsAt(pa, pa, size) < SpanPages(pa, size) then Keys(pa, k.StopsAt(pa, pa, size)) else {}
    case _ => {}
  }

  /** The pages an operation leaves mapped read-only, known before it is performed. */
  ghost function Protects(k: Kernel, op: Op): set<nat>
    reads k
  {
    match op
    case MapOne(va, pa, flags) =>
      if And(flags, PTE_W) == 0 && Missing(k.tree, Vpn(va)) <= |k.free| && !Conflict(k.Map(), Vpn(va), pa)
      then {Vpn(va)} else {}
    case MapRange(va, pa, size, flags) =>
      if And(flags, PTE_W) == 0 && k.StopsAt(va, pa, size) >= SpanPages(va, size)
      then Keys(va, SpanPages(va, size)) else {}
    case _ => {}
  }

  ghost predicate Holds(held: set<nat>, mine: seq<nat>) {
    && held == Frames(mine)
    && forall i, j :: 0 <= i < j < |mine| ==> mine[i] != mine[j]
  }

  /** What every operation keeps. */
  twostate predicate Kept(k: Kernel)
    reads k
  {
    && k.Owned() == old(k.Owned())
    && KeepsTables(old(k.tree), k.tree)
    && |k.tree.Keys| + |k.free| + |k.held| == old(|k.tree.Keys| + |k.free| + |k.held|)
  }

  /** A property of the pool survived an operation exactly if the operation took away no page of the pool. */
  ghost predicate Survives(before: bool, after: bool, taken: set<nat>, pool: set<nat>) {
    before ==> (after <==> taken !! pool)
  }

  // What an operation does

  /** What the client and the kernel have between operations. */
  datatype View = View(
    mem: Memory,
    freelist: u64,
    free: seq<nat>,
    tree: map<Path, nat>,
    held: set<nat>,
    space: map<nat, Leaf>,
    mine: seq<nat>)

  ghost function ViewOf(k: Kernel, mine: seq<nat>): View
    reads k
  {
    View(k.mem, k.freelist, k.free, k.tree, k.held, k.Map(), mine)
  }

  /** The first free page changes hands and is filled with junk; with no free page nothing happens. */
  ghost predicate Allocated(b: View, a: View) {
    if b.free == [] then a == b
    else
      var f := b.free[0];
      && a.mine == [f] + b.mine && a.free == b.free[1..] && a.held == b.held + {f}
      && a.tree == b.tree && a.space == b.space
      && f < |b.mem| && a.mem == b.mem[f := JunkPage()] && a.freelist == b.mem[f][0]
  }

  /** The page picked becomes the first free page, its first word the old list head. */
  ghost predicate Freed(b: View, which: nat, a: View) {
    if b.mine == [] then a == b
    else
      var i := which % |b.mine|;
      var f := b.mine[i];
      && a.mine == b.mine[..i] + b.mine[i + 1..] && a.free == [f] + b.free && a.held == b.held - {f}
      && a.tree == b.tree && a.space == b.space
      && f < |b.mem| && a.mem == b.mem[f := FreePage(b.freelist)] && a.freelist == f * PGSIZE
  }

  /** One word of the page picked. */
  ghost predicate Stored(b: View, which: nat, index: nat, word: u64, a: View) {
    if b.mine == [] || index >= ENTRIES then a == b
    else
      var f := b.mine[which % |b.mine|];
      f < |b.mem| && a == b.(mem := b.mem[f := b.mem[f][index := word]])
  }

  /** The page is mapped, unless it is mapped elsewhere already or the tables it lacks cannot all be had. */
  ghost predicate MappedOne(b: View, va: nat, pa: nat, flags: nat, a: View) {
    var v, missing := Vpn(va), Missing(b.tree, Vpn(va));
    && a.mine == b.mine && a.held == b.held
    && a.space == (if missing <= |b.free| && !Conflict(b.space, v, pa) then b.space[v := LeafFor(pa, flags)] else b.space)
    && Grown(b.tree, b.free, v, Min(missing, |b.free|), a.tree, a.free)
  }

  /** Every page of the range is mapped; or, if one of them cannot be, those before it are left unmapped. */
  ghost predicate MappedRange(b: View, va: nat, pa: nat, size: nat, flags: nat, a: View) {
    var n := SpanPages(va, size);
    var at := FirstBlocked(b.space, b.tree, |b.free|, va, pa, n);
    && a.mine == b.mine && a.held == b.held && KeepsTables(b.tree, a.tree)
    && if at == n then Installed(b.space, va, pa, flags, n, a.space) else a.space == b.space - Keys(va, at)
  }

  /** The pages are no longer mapped; nothing else but the entries changes. */
  ghost predicate Unmapped(b: View, pages: set<nat>, a: View) {
    a == b.(mem := a.mem, space := b.space - pages)
  }

  /** One operation, from one view to the next. */
  ghost predicate Effect(b: View, op: Op, a: View) {
    match op
    case Alloc => Allocated(b, a)
    case Free(which) => Freed(b, which, a)
    case Store(which, index, word) => Stored(b, which, index, word, a)
    case MapOne(va, pa, flags) => MappedOne(b, va, pa, flags, a)
    case MapRange(va, pa, size, flags) => MappedRange(b, va, pa, size, flags, a)
    case Mmio(pa, size) => MappedRange(b, pa, pa, size, Or(PTE_W, PTE_PCD), a)
    case UnmapOne(va) => Unmapped(b, {Vpn(va)}, a)
    case UnmapRange(va, size) => Unmapped(b, Keys(va, SpanPages(va, size)), a)
  }

  lemma DropOne(mine: seq<nat>, held: set<nat>, i: nat)
    requires Holds(held, mine) && i < |mine|
    ensures mine[i] in held && Holds(held - {mine[i]}, mine[..i] + mine[i + 1..])
    ensures |held - {mine[i]}| == |held| - 1
  {
    var rest := mine[..i] + mine[i + 1..];
    forall f ensures f in held - {mine[i]} <==> f in Frames(rest) {
      if f in held && f != mine[i] {
        var j :| 0 <= j < |mine| && mine[j] == f;
        assert rest[if j < i then j else j - 1] == f;
      }
    }
  }

  lemma AddOne(mine: seq<nat>, held: set<nat>, f: nat)
    requires Holds(held, mine) && f !in held
    ensures Holds(held + {f}, [f] + mine) && |held + {f}| == |held| + 1
  {
    FramesPop([f] + mine);
    assert mine == ([f] + mine)[1..];
  }

  lemma PageNumber(f: nat)
    ensures (f * PGSIZE) / PGSIZE == f
  {
  }

  /** Allocating; nothing changes when the pool is empty. */
  method StepAlloc(k: Kernel, mine: seq<nat>) returns (mine': seq<nat>)
    requires k.Valid() && Holds(k.held, mine)
    modifies k
    ensures k.Valid() && Holds(k.held, mine') && Kept(k) && k.Map() == old(k.Map())
    ensures old(k.free) == [] ==> mine' == mine && k.free == []
    ensures old(k.free) != [] ==> mine' == [old(k.free)[0]] + mine && k.free == old(k.free)[1..]
    ensures Allocated(old(ViewOf(k, mine)), ViewOf(k, mine'))
  {
    hide TreeOk, FreeOk, Space, Separate, OwnedFrames, Holds, KeepsTables, KallocV, Usable, JunkPage, InPool;
    mine' := mine;
    KeepsSelf(k.Map(), k.tree);
    FreeList.Head(k.mem, k.kend, k.freelist, k.free);
    var r := k.Kalloc();
    if r != 0 {
      PageNumber(old(k.free)[0]);
      mine' := [r / PGSIZE] + mine;
      AddOne(mine, old(k.held), r / PGSIZE);
    }
  }

  /** Freeing a held page, which never panics. */
  method StepFree(k: Kernel, which: nat, mine: seq<nat>) returns (mine': seq<nat>)
    requires k.Valid() && Holds(k.held, mine)
    modifies k
    ensures k.Valid() && Holds(k.held, mine') && Kept(k) && k.Map() == old(k.Map())
    ensures mine != [] ==> k.free == [mine[which % |mine|]] + old(k.free)
    ensures Freed(old(ViewOf(k, mine)), which, ViewOf(k, mine'))
  {
    hide TreeOk, FreeOk, Space, OwnedFrames, Holds, KeepsTables, KfreeV, Reaches;
    mine' := mine;
    KeepsSelf(k.Map(), k.tree);
    if mine != [] {
      var i := which % |mine|;
      DropOne(mine, k.held, i);
      var ok := k.Kfree(mine[i] * PGSIZE);
      mine' := mine[..i] + mine[i + 1..];
    }
  }

  method StepStore(k: Kernel, which: nat, index: nat, word: u64, mine: seq<nat>)
    requires k.Valid() && Holds(k.held, mine)
    modifies k
    ensures k.Valid() && k.held == old(k.held) && Kept(k) && k.Map() == old(k.Map())
    ensures Stored(old(ViewOf(k, mine)), which, index, word, ViewOf(k, mine))
  {
    hide TreeOk, FreeOk, Space, Separate, OwnedFrames, Holds, KeepsTables, StoreV, Usable;
    KeepsSelf(k.Map(), k.tree);
    if mine != [] && index < ENTRIES {
      DropOne(mine, k.held, which % |mine|);
      k.Store(mine[which % |mine|], index, word);
    }
  }

  lemma IdentityKept(space0: map<nat, Leaf>, space: map<nat, Leaf>, frames: set<nat>)
    requires KeepsFrames(space0, space) && Identity(space0, frames)
    ensures Identity(space, frames)
  {
  }

  lemma UsableIsIdentity(space: map<nat, Leaf>, frames: set<nat>)
    requires Usable(space, frames)
    ensures Identity(space, frames)
  {
    forall f | f in frames ensures f in space && space[f].frame == f {
      assert Reaches(space, f);
    }
  }

  /** Mapping one page: the frames stay identity-mapped, and stay usable unless one of them was mapped read-only. */
  method StepMapOne(k: Kernel, op: Op, ghost mine: seq<nat>) returns (lost: set<nat>)
    requires k.Valid() && op.MapOne?
    modifies k
    ensures k.Valid() && k.held == old(k.held) && Kept(k)
    ensures lost == old(Protects(k, op))
    ensures MappedOne(old(ViewOf(k, mine)), op.va, op.pa, op.flags, ViewOf(k, mine))
    ensures old(k.Mapped()) ==> k.Mapped()
    ensures Survives(old(k.Ready()), k.Ready(), lost, k.Owned())
  {
    hide TreeOk, FreeOk, Space, Separate, OwnedFrames, KeepsTables, KeepsFrames, Identity, Grown, Missing, Conflict,
         Vpn, MapPageV, Usable, And;
    ghost var space0, frames := k.Map(), k.Owned();
    var va, pa, flags := op.va, op.pa, op.flags;
    var ok := k.MapPage(va, pa, flags);
    lost := if ok && And(flags, PTE_W) == 0 then {Vpn(va)} else {};
    if Identity(space0, frames) {
      IdentityKept(space0, k.Map(), frames);
    }
    if Usable(space0, frames) && ok {
      UsableAfterMap(space0, frames, Vpn(va), LeafFor(pa, flags));
    }
  }

  /**
   Mapping a range: the frames stay identity-mapped exactly unless the call fails after mapping one of them,
   and stay usable exactly unless it does that or succeeds in mapping one of them read-only.
   */
  method StepMapRange(k: Kernel, op: Op, ghost mine: seq<nat>) returns (removed: set<nat>, lost: set<nat>)
    requires k.Valid() && op.MapRange?
    modifies k
    ensures k.Valid() && k.held == old(k.held) && Kept(k)
    ensures removed == old(Removes(k, op)) && lost == removed + old(Protects(k, op))
    ensures MappedRange(old(ViewOf(k, mine)), op.va, op.pa, op.size, op.flags, ViewOf(k, mine))
    ensures Survives(old(k.Mapped()), k.Mapped(), removed, k.Owned())
    ensures Survives(old(k.Ready()), k.Ready(), lost, k.Owned())
  {
    hide TreeOk, FreeOk, Space, Separate, OwnedFrames, KeepsTables, KeepsFrames, Identity, Installed, Keys, SpanPages,
         HasTables, FirstBlocked, MapRunV, Usable, And, RoundDown;
    ghost var space0, frames := k.Map(), k.Owned();
    var va, pa, size, flags := op.va, op.pa, op.size, op.flags;
    StopsInside(space0, k.tree, |k.free|, va, pa, SpanPages(va, size));
    var ok, at := k.MapPages(va, pa, size, flags);
    removed := if ok then {} else Keys(va, at);
    lost := if ok && And(flags, PTE_W) != 0 then {} else Keys(va, at);
    if Identity(space0, frames) {
      if ok {
        IdentityKept(space0, k.Map(), frames);
      } else {
        IdentityAfterRemoval(space0, frames, removed);
      }
    }
  }

  lemma StopsInside(space: map<nat, Leaf>, tree: map<Path, nat>, nfree: nat, va: nat, pa: nat, n: nat)
    ensures FirstBlocked(space, tree, nfree, va, pa, n) <= n
  {
    hide FirstBlocked, Blocked;
    FirstBlockedMeans(space, tree, nfree, va, pa, n);
  }

  /** The same for `map_mmio`, which maps writable. */
  method StepMmio(k: Kernel, op: Op, ghost mine: seq<nat>) returns (removed: set<nat>)
    requires k.Valid() && op.Mmio?
    modifies k
    ensures k.Valid() && k.held == old(k.held) && Kept(k)
    ensures removed == old(Removes(k, op))
    ensures MappedRange(old(ViewOf(k, mine)), op.pa, op.pa, op.size, Or(PTE_W, PTE_PCD), ViewOf(k, mine))
    ensures Survives(old(k.Mapped()), k.Mapped(), removed, k.Owned())
    ensures Survives(old(k.Ready()), k.Ready(), removed, k.Owned())
  {
    hide TreeOk, FreeOk, Space, Separate, OwnedFrames, KeepsTables, KeepsFrames, Identity, Keys, SpanPages,
         FirstBlocked, Usable, PhysOf, Vpn;
    ghost var space0, frames := k.Map(), k.Owned();
    var pa, size := op.pa, op.size;
    StopsInside(space0, k.tree, |k.free|, pa, pa, SpanPages(pa, size));
    var r, ok, at := k.MapMmio(pa, size);
    removed := if ok then {} else Keys(pa, at);
    if Identity(space0, frames) {
      if ok {
        IdentityKept(space0, k.Map(), frames);
      } else {
        IdentityAfterRemoval(space0, frames, removed);
      }
    }
  }

  /** Unmapping breaks the identity mapping of the pool exactly when it removes a page of the pool. */
  method StepUnmap(k: Kernel, va: u64, ghost mine: seq<nat>)
    requires k.Valid()
    modifies k
    ensures k.Valid() && k.held == old(k.held) && Kept(k)
    ensures Unmapped(old(ViewOf(k, mine)), {Vpn(va)}, ViewOf(k, mine))
    ensures Survives(old(k.Mapped()), k.Mapped(), {Vpn(va)}, k.Owned())
    ensures Survives(old(k.Ready()), k.Ready(), {Vpn(va)}, k.Owned())
  {
    hide TreeOk, FreeOk, Space, Separate, OwnedFrames, KeepsTables, Identity, Vpn, InPool, Usable, UnmapPageV;
    ghost var space0, frames := k.Map(), k.Owned();
    KeepsSelf(k.Map(), k.tree);
    k.UnmapPage(va);
    if Identity(space0, frames) {
      IdentityAfterRemoval(space0, frames, {Vpn(va)});
    }
    if Usable(space0, frames) {
      UsableAfterRemoval(space0, frames, {Vpn(va)});
    }
  }

  method StepUnmapRange(k: Kernel, va: u64, size: u64, ghost mine: seq<nat>)
    requires k.Valid()
    modifies k
    ensures k.Valid() && k.held == old(k.held) && Kept(k)
    ensures Unmapped(old(ViewOf(k, mine)), Keys(va, SpanPages(va, size)), ViewOf(k, mine))
    ensures Survives(old(k.Mapped()), k.Mapped(), Keys(va, SpanPages(va, size)), k.Owned())
    ensures Survives(old(k.Ready()), k.Ready(), Keys(va, SpanPages(va, size)), k.Owned())
  {
    hide TreeOk, FreeOk, Space, Separate, OwnedFrames, KeepsTables, Identity, Keys, SpanPages, InPool, Usable,
         UnmapRunV, RoundDown;
    ghost var space0, frames := k.Map(), k.Owned();
    KeepsSelf(k.Map(), k.tree);
    k.UnmapPages(va, size);
    if Identity(space0, frames) {
      IdentityAfterRemoval(space0, frames, Keys(va, SpanPages(va, size)));
    }
  }

  /**
   One operation, on a kernel whose pages are usable. `removed` and `lost` are the pages it unmapped, and those
   it unmapped or left read-only. As long as none of these is a page the kernel accounts for, the invariant, the
   tables and the balance of pages are kept; and that is exactly when every such page is still usable.
   */
  method Step(k: Kernel, op: Op, mine: seq<nat>) returns (mine': seq<nat>, removed: set<nat>, lost: set<nat>)
    requires k.Valid() && k.Ready() && Holds(k.held, mine)
    modifies k
    ensures removed == old(Removes(k, op)) && lost == removed + old(Protects(k, op))
    ensures k.Mapped() <==> removed !! k.Owned()
    ensures k.Ready() <==> lost !! k.Owned()
    ensures k.Owned() == old(k.Owned())
    ensures k.Ready() ==> k.Valid() && Holds(k.held, mine') && Kept(k)
    ensures k.Ready() ==> Effect(old(ViewOf(k, mine)), op, ViewOf(k, mine'))
    ensures op.Alloc? && old(k.free) != [] ==> mine' == [old(k.free)[0]] + mine && k.free == old(k.free)[1..]
    ensures op.Free? && mine != [] ==> k.free == [mine[op.which % |mine|]] + old(k.free)
  {
    hide TreeOk, FreeOk, Space, Separate, OwnedFrames, KeepsTables, Identity, Usable, Keys, SpanPages, Vpn, Holds,
         FirstBlocked, Missing, Conflict, And, Or, ViewOf, Allocated, Freed, Stored, MappedOne, MappedRange, Unmapped;
    mine', removed, lost := mine, {}, {};
    UsableIsIdentity(k.Map(), k.Owned());
    if op.Alloc? {
      mine' := StepAlloc(k, mine);
    } else if op.Free? {
      mine' := StepFree(k, op.which, mine);
    } else if op.Store? {
      StepStore(k, op.which, op.index, op.word, mine);
    } else if op.UnmapOne? {
      removed := {Vpn(op.va)};
      lost := removed;
      StepUnmap(k, op.va, mine);
    } else if op.UnmapRange? {
      removed := Keys(op.va, SpanPages(op.va, op.size));
      lost := removed;
      StepUnmapRange(k, op.va, op.size, mine);
    } else if op.MapOne? {
      lost := StepMapOne(k, op, mine);
    } else if op.MapRange? {
      removed, lost := StepMapRange(k, op, mine);
    } else {
      removed := StepMmio(k, op, mine);
      lost := removed;
    }
  }

  /**
   Every run, from a kernel whose pages are usable, up to the first operation that takes one of them away:
   unmaps it, maps it read-only, or fails after mapping it. `done` operations were performed, and `removed` and
   `lost` belong to the last. If that did not happen, free pages, tables and held pages are pairwise disjoint and
   add up to the same frames, no table has moved, and all of them are still usable. `trace` has the view before
   the run and after each operation: each follows from the one before by the effect of its operation.
   */
  method Run(k: Kernel, ops: seq<Op>, start: seq<nat>, pool: set<nat>)
    returns (mine: seq<nat>, done: nat, removed: set<nat>, lost: set<nat>, ghost trace: seq<View>)
    requires k.Valid() && k.Ready() && Holds(k.held, start) && pool == k.Owned()
    modifies k
    ensures done <= |ops| && (done < |ops| ==> !(lost !! pool)) && removed <= lost
    ensures k.Owned() == pool
    ensures k.Mapped() <==> removed !! pool
    ensures k.Ready() <==> lost !! pool
    ensures k.Ready() ==> k.Valid() && Holds(k.held, mine) && Kept(k) && Separate(k.free, k.tree, k.held)
    ensures |trace| == done + 1 && trace[0] == old(ViewOf(k, start)) && trace[done] == ViewOf(k, mine)
    ensures forall i :: 0 <= i < done && (i < done - 1 || k.Ready()) ==> Effect(trace[i], ops[i], trace[i + 1])
  {
    hide TreeOk, FreeOk, Space, Separate, OwnedFrames, KeepsTables, Identity, Usable, Holds, Removes, Protects, Effect,
         ViewOf;
    mine, done, removed, lost := start, 0, {}, {};
    trace := [ViewOf(k, start)];
    KeepsSelf(k.Map(), k.tree);
    UsableIsIdentity(k.Map(), k.Owned());
    while done < |ops| && lost !! pool
      invariant 0 <= done <= |ops| && removed <= lost && k.Owned() == pool
      invariant k.Mapped() <==> removed !! pool
      invariant k.Ready() <==> lost !! pool
      invariant k.Ready() ==> k.Valid() && Holds(k.held, mine) && Kept(k)
      invariant |trace| == done + 1 && trace[0] == old(ViewOf(k, start)) && trace[done] == ViewOf(k, mine)
      invariant forall i :: 0 <= i < done && (i < done - 1 || k.Ready()) ==> Effect(trace[i], ops[i], trace[i + 1])
      decreases |ops| - done
    {
      ghost var before := k.tree;
      mine, removed, lost := Step(k, ops[done], mine);
      trace := trace + [ViewOf(k, mine)];
      if k.Ready() {
        KeepsTablesTwice(old(k.tree), before, k.tree);
      }
      done := done + 1;
    }
  }

  /** `trace` is a run of `ops`, as `Run` reports it. */
  ghost predicate RunOf(trace: seq<View>, ops: seq<Op>) {
    |trace| == |ops| + 1 && forall i :: 0 <= i < |ops| ==> Effect(trace[i], ops[i], trace[i + 1])
  }

  /** Allocating n times with n pages free hands out the first n pages of the list, in its order. */
  lemma {:induction false} AllocsInOrder(trace: seq<View>, ops: seq<Op>, n: nat)
    requires RunOf(trace, ops) && n <= |ops| && (forall i :: 0 <= i < n ==> ops[i] == Alloc) && n <= |trace[0].free|
    ensures var b, a := trace[0], trace[n];
            && a.free == b.free[n..] && |a.mine| == n + |b.mine| && a.mine[n..] == b.mine
            && forall i :: 0 <= i < n ==> a.mine[n - 1 - i] == b.free[i]
  {
    if n > 0 {
      AllocsInOrder(trace, ops, n - 1);
      var m, a := trace[n - 1], trace[n];
      assert Effect(m, ops[n - 1], a);
      assert Allocated(m, a);
    }
  }

  /** Freeing the page just allocated brings the free list, the held pages and the address space back. */
  lemma AllocThenFree(trace: seq<View>)
    requires RunOf(trace, [Alloc, Free(0)]) && trace[0].free != [] && trace[0].free[0] !in trace[0].held
    ensures var b, a := trace[0], trace[2];
            && a.free == b.free && a.mine == b.mine && a.held == b.held && a.tree == b.tree && a.space == b.space
            && a.freelist == b.free[0] * PGSIZE && |a.mem| == |b.mem|
            && forall f :: 0 <= f < |b.mem| && f != b.free[0] ==> a.mem[f] == b.mem[f]
  {
    hide JunkPage, FreePage;
    var b, m, a := trace[0], trace[1], trace[2];
    assert Effect(b, [Alloc, Free(0)][0], m) && Effect(m, [Alloc, Free(0)][1], a);
    assert Allocated(b, m) && Freed(m, 0, a);
    assert 0 % |m.mine| == 0;
  }

  // Why the run stops there, and a call that loses a mapping

  lemma MappedHasTables(mem: Memory, root: nat, tree: map<Path, nat>, v: nat)
    requires TreeOk(mem, root, tree) && v in Space(mem, root)
    ensures Missing(tree, v) == 0 && v < FRAMES
  {
    hide Index, LeafOf, TreeOk;
    LookupIsTree(mem, root, tree, v);
    TreeIsClosed(mem, root, tree);
    MissingIsSuffix(tree, v, 3);
  }

  /**
   Unmapping the first free page and mapping its address to a table goes through, and afterwards the code of
   `kalloc`, which uses that address, reads its next list head from the table and overwrites the table. The
   conclusions about runs do not hold past an operation that takes a page of the pool away.
   */
  method Misdirect(k: Kernel, t: nat) returns (p: nat)
    requires k.Valid() && k.Ready() && k.free != [] && t in k.tree.Values && t != k.free[0]
    modifies k
    ensures p == old(k.free)[0] && k.free == old(k.free) && k.freelist == p * PGSIZE && !k.Ready()
    ensures t < |k.mem| && t in k.tree.Values
    ensures LoadV(k.mem, k.root, k.freelist) == Some(k.mem[t][0])
    ensures StoreV(k.mem, k.root, k.freelist, JUNK) == Some(k.mem[t := k.mem[t][0 := JUNK]])
  {
    hide TreeOk, FreeOk, Space, OwnedFrames, Grown, Missing, Conflict, Vpn, MapPageV, UnmapPageV, Reaches,
         KeepsFrames, LeafFor, LoadV, StoreV, KeepsTables;
    FreeList.Head(k.mem, k.kend, k.freelist, k.free);
    p := k.freelist / PGSIZE;
    OwnedHas(k.free, k.tree, k.held, p);
    PoolFrame(k.mem, k.root, k.tree, p);
    TableFrame(k.mem, k.root, k.tree, t);
    MappedHasTables(k.mem, k.root, k.tree, p);
    k.UnmapPage(p * PGSIZE);
    NoConflict(k.Map(), p, t * PGSIZE);
    ghost var free1, tree1 := k.free, k.tree;
    var ok := k.MapPage(p * PGSIZE, t * PGSIZE, PTE_W);
    GrownByNone(tree1, free1, p, k.tree, k.free);
    FreeList.Head(k.mem, k.kend, k.freelist, k.free);
    LeafIs(t);
    Redirected(k.mem, k.root, k.tree, p, t);
    assert !Reaches(k.Map(), p) by { NotReached(k.Map(), p, t); }
  }

  lemma PoolFrame(mem: Memory, root: nat, tree: map<Path, nat>, p: nat)
    requires Reaches(Space(mem, root), p)
    ensures p in Space(mem, root) && p < FRAMES && Vpn(p * PGSIZE) == p && p * PGSIZE < WORD_LIMIT
  {
    hide Lookup;
    WordIs(p, 0);
  }

  lemma TableFrame(mem: Memory, root: nat, tree: map<Path, nat>, t: nat)
    requires TreeOk(mem, root, tree) && t in tree.Values && |mem| <= FRAMES
    ensures t < |mem| && t * PGSIZE < WORD_LIMIT
  {
    hide InteriorOk, Large;
  }

  lemma NoConflict(space: map<nat, Leaf>, p: nat, pa: nat)
    requires p !in space
    ensures !Conflict(space, p, pa)
  {
  }

  lemma GrownByNone(tree0: map<Path, nat>, free0: seq<nat>, v: nat, tree: map<Path, nat>, free: seq<nat>)
    requires Grown(tree0, free0, v, 0, tree, free)
    ensures free == free0 && tree == tree0
  {
    assert NewPaths(tree0, v, 0) == {};
  }

  lemma LeafIs(t: nat)
    requires t < FRAMES
    ensures LeafFor(t * PGSIZE, PTE_W).frame == t && LeafFor(t * PGSIZE, PTE_W).rw
  {
    assert (t * PGSIZE) / PGSIZE == t;
    assert And(PTE_W, PTE_W) != 0;
  }

  lemma NotReached(space: map<nat, Leaf>, p: nat, t: nat)
    requires p in space && space[p].frame == t && t != p
    ensures !Reaches(space, p)
  {
  }

  /** An access to an address whose page maps elsewhere goes elsewhere. */
  lemma Redirected(mem: Memory, root: nat, tree: map<Path, nat>, p: nat, t: nat)
    requires TreeOk(mem, root, tree) && p in Space(mem, root) && p < FRAMES && t < |mem|
    requires Space(mem, root)[p].frame == t && Space(mem, root)[p].rw
    ensures LoadV(mem, root, p * PGSIZE) == Some(mem[t][0])
    ensures StoreV(mem, root, p * PGSIZE, JUNK) == Some(mem[t := mem[t][0 := JUNK]])
  {
    hide Lookup, Vpn, TreeOk, CanWrite;
    WordIs(p, 0);
    WritableByLeaf(mem, root, tree, p);
  }

  /**
   A failed `map_pages` is not harmless: two pages are mapped to frames 5 and 9, then both are asked to map to
   frames 5 and 6. The call fails on the second page, and its rollback removes the mapping of the first.
   */
  method FailedMapLoses(k: Kernel, va: u64, flags: nat)
    requires k.Valid() && va % PGSIZE == 0 && va + 3 * PGSIZE <= WORD_LIMIT && |k.free| >= 6
    requires Key(va, 0) !in k.Map() && Key(va, 1) !in k.Map()
    modifies k
    ensures k.Valid() && k.Map() == old(k.Map())[Key(va, 1) := LeafFor(9 * PGSIZE, flags)]
  {
    hide TreeOk, FreeOk, Space, Separate, OwnedFrames, Grown, Missing, Conflict, Vpn, MapPageV, MapRunV, Usable,
         KeepsFrames, KeepsTables, LeafFor, Keys, Key, FirstBlocked, Blocked, SpanPages, Installed, HasTables, And,
         RoundDown;
    KeyIsVpn(va, 0, va);
    KeyIsVpn(va, 1, va + PGSIZE);
    KeysDistinct(va, 0, 1);
    NoConflict(k.Map(), Key(va, 0), 5 * PGSIZE);
    ghost var n0 := |k.free|;
    TreeIsClosed(k.mem, k.root, k.tree);
    ghost var tree0, free0 := k.tree, k.free;
    var ok := k.MapPage(va, 5 * PGSIZE, flags);
    GrownLeaves(tree0, free0, Key(va, 0), k.tree, k.free);
    NoConflict(k.Map(), Key(va, 1), 9 * PGSIZE);
    ok := k.MapPage(va + PGSIZE, 9 * PGSIZE, flags);
    TwoPages(k.mem, k.root, k.tree, |k.free|, va, flags);
    var at;
    ok, at := k.MapPages(va, 5 * PGSIZE, 2 * PGSIZE, flags);
    KeysNone(va, k.Map());
    KeysNext(va, 0);
  }

  lemma GrownLeaves(tree0: map<Path, nat>, free0: seq<nat>, v: nat, tree: map<Path, nat>, free: seq<nat>)
    requires |free0| >= 3 && Grown(tree0, free0, v, Min(Missing(tree0, v), |free0|), tree, free)
    ensures |free| >= |free0| - 3
  {
    hide NewPaths, PathOf;
  }

  /** With pages 0 and 1 of the range mapped to frames 5 and 9, mapping it to frames 5 and 6 stops at page 1. */
  lemma TwoPages(mem: Memory, root: nat, tree: map<Path, nat>, nfree: nat, va: nat, flags: nat)
    requires TreeOk(mem, root, tree) && va % PGSIZE == 0 && va + 3 * PGSIZE <= WORD_LIMIT
    requires var space := Space(mem, root);
             && Key(va, 0) in space && space[Key(va, 0)] == LeafFor(5 * PGSIZE, flags)
             && Key(va, 1) in space && space[Key(va, 1)] == LeafFor(9 * PGSIZE, flags)
    ensures SpanPages(va, 2 * PGSIZE) == 2
    ensures FirstBlocked(Space(mem, root), tree, nfree, va, 5 * PGSIZE, 2) == 1
  {
    hide TreeOk, Space, Key, Blocked, RoundUp, LeafFor, SpanPages;
    var space := Space(mem, root);
    TwoPagesSpan(va);
    MappedHasTables(mem, root, tree, Key(va, 0));
    TreeIsClosed(mem, root, tree);
    FirstFits(space, tree, nfree, va, flags, 0);
    SecondRefused(space, tree, nfree, va, flags, 1);
    FirstBlockedIs(space, tree, nfree, va, 5 * PGSIZE, 2, 1);
  }

  lemma TwoPagesSpan(va: nat)
    requires va % PGSIZE == 0 && va + 3 * PGSIZE <= WORD_LIMIT
    ensures SpanPages(va, 2 * PGSIZE) == 2
  {
    hide RoundUp;
    RoundUpIs(va + 2 * PGSIZE);
  }

  lemma FirstFits(space: map<nat, Leaf>, tree: map<Path, nat>, nfree: nat, va: nat, flags: nat, k: nat)
    requires Closed(tree) && k == 0 && Missing(tree, Key(va, k)) == 0
    requires Key(va, k) in space && space[Key(va, k)] == LeafFor(5 * PGSIZE, flags)
    ensures !Blocked(space, tree, nfree, va, 5 * PGSIZE, k)
  {
    hide And, Key, PathSet, Missing, Closed, PathsUpTo;
    MissingCount(tree, Key(va, k));
    NoPathsYet(va, k);
    PathsUpToNext(tree.Keys, va, k);
    assert PaAt(5 * PGSIZE, k) == 5 * PGSIZE;
  }

  lemma SecondRefused(space: map<nat, Leaf>, tree: map<Path, nat>, nfree: nat, va: nat, flags: nat, k: nat)
    requires k == 1 && Key(va, k) in space && space[Key(va, k)] == LeafFor(9 * PGSIZE, flags)
    ensures Blocked(space, tree, nfree, va, 5 * PGSIZE, k)
  {
    hide And, Key, TablesFor;
    assert PaAt(5 * PGSIZE, k) == 6 * PGSIZE;
  }

  lemma NoPathsYet(va: nat, k: nat)
    requires k == 0
    ensures PathsUpTo(va, k) == {}
  {
  }
}
