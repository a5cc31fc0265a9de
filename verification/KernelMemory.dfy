/**
 `kernel/kalloc/kalloc.c` and `kernel/paging/paging.c` over one physical memory.
 The free list and the page tables live in the same pages; `Valid` says that they
 never overlap, and every method says what it does to the address space.
 */
module KernelMemory {
  import opened Bits
  import opened PageEntry
  import opened PageTree
  import opened Addressing
  import opened Wrappers
  import opened FreeList
  import opened Walks
  import opened Ranges

  function Min(a: nat, b: nat): nat {
    if a < b then a else b
  }

  /** Every frame some part of the kernel accounts for. */
  ghost function OwnedFrames(free: seq<nat>, tree: map<Path, nat>, held: set<nat>): set<nat> {
    Frames(free) + tree.Values + held
  }

  /** Free pages, table pages and pages held by clients are pairwise disjoint. */
  ghost predicate Separate(free: seq<nat>, tree: map<Path, nat>, held: set<nat>) {
    && (forall f :: f in free ==> f !in tree.Values && f !in held)
    && (forall f :: f in held ==> f !in tree.Values)
  }

  lemma SeparateAfterPop(free: seq<nat>, tree: map<Path, nat>, held: set<nat>)
    requires Separate(free, tree, held) && free != [] && free[0] !in free[1..]
    ensures free[0] !in tree.Values && free[0] !in held
    ensures Separate(free[1..], tree, held + {free[0]})
  {
    assert free[0] in free;
    assert forall f :: f in free[1..] ==> f in free;
  }

  lemma SeparateAfterPush(free: seq<nat>, tree: map<Path, nat>, held: set<nat>, f: nat)
    requires Separate(free, tree, held) && f !in tree.Values
    ensures Separate([f] + free, tree, held - {f})
  {
  }

  /** Writes to table pages and held pages do not touch free pages. */
  lemma UsedByTables(mem: Memory, mem': Memory, free: seq<nat>, tree: map<Path, nat>, held: set<nat>, f: nat, tbl: nat)
    requires Separate(free, tree, held) && f in held && tbl in tree.Values
    requires |mem'| == |mem| && forall g :: 0 <= g < |mem| && g != f && g != tbl ==> mem'[g] == mem[g]
    ensures forall g :: g in free && g < |mem| ==> mem'[g] == mem[g]
  {
  }

  lemma OwnedAfterAlloc(free: seq<nat>, tree: map<Path, nat>, held: set<nat>)
    requires free != []
    ensures OwnedFrames(free[1..], tree, held + {free[0]}) == OwnedFrames(free, tree, held)
  {
    hide Frames;
    FramesPop(free);
  }

  lemma OwnedAfterFree(free: seq<nat>, tree: map<Path, nat>, held: set<nat>, f: nat)
    ensures f in held ==> OwnedFrames([f] + free, tree, held - {f}) == OwnedFrames(free, tree, held)
  {
    FramesPop([f] + free);
  }

  lemma OwnedHas(free: seq<nat>, tree: map<Path, nat>, held: set<nat>, f: nat)
    requires f in free || f in tree.Values || f in held
    ensures f in OwnedFrames(free, tree, held)
  {
  }

  lemma KallocNone(mem: Memory, root: nat)
    ensures KallocV(mem, root, 0) == Some((mem, 0, 0))
  {
  }

  lemma InsertValue(tree: map<Path, nat>, c: Path, f: nat)
    requires c !in tree
    ensures tree[c := f].Values == tree.Values + {f} && |tree[c := f].Keys| == |tree.Keys| + 1
  {
    var tree' := tree[c := f];
    assert tree'.Keys == tree.Keys + {c};
    assert forall p :: p in tree ==> tree'[p] == tree[p];
    assert tree'[c] == f;
  }

  /** A held page becomes a table. */
  lemma SeparateAfterLink(free: seq<nat>, tree: map<Path, nat>, held: set<nat>, c: Path, f: nat)
    requires Separate(free, tree, held) && c !in tree && f in held
    ensures Separate(free, tree[c := f], held - {f})
  {
    InsertValue(tree, c, f);
  }

  /** The first free page becomes a table: nothing is lost. */
  lemma OwnedAfterLink(free: seq<nat>, tree: map<Path, nat>, held: set<nat>, c: Path)
    requires free != [] && c !in tree
    ensures OwnedFrames(free[1..], tree[c := free[0]], held) == OwnedFrames(free, tree, held)
    ensures |tree[c := free[0]].Keys| == |tree.Keys| + 1
  {
    hide Frames;
    InsertValue(tree, c, free[0]);
    FramesPop(free);
  }

  /** The missing-table branch of `walk`, by address. */
  lemma LinkByAddress(mem: Memory, root: nat, kend: nat, head: u64, free: seq<nat>, tree: map<Path, nat>,
                      held: set<nat>, tbl: nat, index: nat)
    requires TreeOk(mem, root, tree) && FreeOk(mem, kend, head, free) && Separate(free, tree, held)
    requires kend > 0 && tbl in tree.Values && tbl < |mem| && index < ENTRIES
    ensures Usable(Space(mem, root), OwnedFrames(free, tree, held)) ==>
              if free == [] then LinkV(mem, root, head, tbl, index) == Some((mem, head, 0))
              else
                var f := free[0];
                && f < |mem| && Encode(InitEntry(f * PGSIZE)) < WORD_LIMIT
                && LinkV(mem, root, head, tbl, index) ==
                     Some((mem[f := ZeroPage()][tbl := mem[tbl][index := Encode(InitEntry(f * PGSIZE))]],
                           mem[f][0], f * PGSIZE))
  {
    hide TreeOk, Space, FreeOk, OwnedFrames, Encode, InitEntry, Reaches, KallocV, StoreV, FillV;
    FreeList.Head(mem, kend, head, free);
    KallocNone(mem, root);
    if Usable(Space(mem, root), OwnedFrames(free, tree, held)) && free != [] {
      var f := free[0];
      OwnedHas(free, tree, held, f);
      OwnedHas(free, tree, held, tbl);
      InitWord(f * PGSIZE);
      LinkIs(mem, root, tree, f, tbl, index);
    }
  }

  // The tables along one walk

  /** The walk for v stands at the table in frame tbl at depth d, having linked the first k missing tables. */
  ghost predicate AtDepth(tree0: map<Path, nat>, free0: seq<nat>, v: nat, d: nat, k: nat,
                          tree: map<Path, nat>, free: seq<nat>, tbl: nat)
    requires d <= 3
  {
    && Closed(tree0) && Grown(tree0, free0, v, k, tree, free)
    && k == (if d + Missing(tree0, v) <= 3 then 0 else d + Missing(tree0, v) - 3)
    && PathOf(v, d) in tree && tree[PathOf(v, d)] == tbl
  }

  lemma AtRoot(mem: Memory, root: nat, tree: map<Path, nat>, free: seq<nat>, v: nat)
    requires TreeOk(mem, root, tree)
    ensures AtDepth(tree, free, v, 0, 0, tree, free, root)
  {
    hide TreeOk, Grown, Closed, Missing;
    TreeIsClosed(mem, root, tree);
    GrownNone(tree, free, v);
    PathRoot(mem, root, tree, v);
  }

  lemma AtTable(tree0: map<Path, nat>, free0: seq<nat>, v: nat, d: nat, k: nat, tree: map<Path, nat>, free: seq<nat>,
                tbl: nat)
    requires d < 3 && AtDepth(tree0, free0, v, d, k, tree, free, tbl)
    ensures PathOf(v, d) in tree && tree[PathOf(v, d)] == tbl && Depth(PathOf(v, d)) == d
    ensures PathOf(v, d + 1) == Child(PathOf(v, d), Index(v, 3 - d)) && Index(v, 3 - d) < ENTRIES
  {
    hide Grown, Closed, Missing, Index;
    PathStep(v, d);
  }

  /** The next table was missing and could not be had. */
  lemma NoTable(tree0: map<Path, nat>, free0: seq<nat>, v: nat, d: nat, k: nat, tree: map<Path, nat>, free: seq<nat>,
                tbl: nat, alloc: bool)
    requires d < 3 && AtDepth(tree0, free0, v, d, k, tree, free, tbl) && PathOf(v, d + 1) !in tree
    requires if alloc then free == [] else tree == tree0 && free == free0
    ensures PathOf(v, 3) !in tree
    ensures Grown(tree0, free0, v, if alloc then Min(Missing(tree0, v), |free0|) else 0, tree, free)
  {
    hide Grown, Closed, Missing, PathOf;
    GrownLength(tree0, free0, v, k, tree, free);
    GrownReach(tree0, free0, v, k, tree, free, d + 1);
    GrownReach(tree0, free0, v, k, tree, free, 3);
    GrownNone(tree, free, v);
  }

  /** The next table was there, or was linked. */
  lemma NextTable(tree0: map<Path, nat>, free0: seq<nat>, v: nat, d: nat, k: nat, tree: map<Path, nat>, free: seq<nat>,
                  tbl: nat, tree': map<Path, nat>, free': seq<nat>, next: nat)
    requires d < 3 && AtDepth(tree0, free0, v, d, k, tree, free, tbl)
    requires PathOf(v, d + 1) in tree' && tree'[PathOf(v, d + 1)] == next
    requires if PathOf(v, d + 1) in tree then tree' == tree && free' == free
             else free != [] && free' == free[1..] && tree' == tree[PathOf(v, d + 1) := free[0]]
    ensures AtDepth(tree0, free0, v, d + 1, if PathOf(v, d + 1) in tree then k else k + 1, tree', free', next)
  {
    hide Grown, Closed, Missing, PathOf;
    GrownReach(tree0, free0, v, k, tree, free, d + 1);
    if PathOf(v, d + 1) !in tree {
      GrownStep(tree0, free0, v, k, tree, free);
    }
  }

  lemma AtLeaf(tree0: map<Path, nat>, free0: seq<nat>, v: nat, k: nat, tree: map<Path, nat>, free: seq<nat>, tbl: nat,
               alloc: bool)
    requires AtDepth(tree0, free0, v, 3, k, tree, free, tbl) && (!alloc ==> tree == tree0 && free == free0)
    ensures PathOf(v, 3) in tree && tree[PathOf(v, 3)] == tbl
    ensures Grown(tree0, free0, v, if alloc then Min(Missing(tree0, v), |free0|) else 0, tree, free)
  {
    hide Grown, Closed, Missing, PathOf;
    GrownLength(tree0, free0, v, k, tree, free);
    GrownReach(tree0, free0, v, k, tree, free, 3);
    GrownNone(tree, free, v);
  }

  /** One level of `walk`, by address. */
  lemma WalkByAddress(mem: Memory, root: nat, head: u64, free: seq<nat>, tree: map<Path, nat>, held: set<nat>,
                      tbl: nat, va: nat, level: nat, alloc: bool)
    requires tbl in tree.Values && tbl < |mem| && level > 0 && And(Shr(va, 12 + level * 9), 0x1FF) < ENTRIES
    ensures Usable(Space(mem, root), OwnedFrames(free, tree, held)) ==>
              var index := And(Shr(va, 12 + level * 9), 0x1FF);
              WalkV(mem, root, head, tbl, va, level, alloc) ==
                if Decode(mem[tbl][index]).p
                then WalkV(mem, root, head, Decode(mem[tbl][index]).address, va, level - 1, alloc)
                else if !alloc then Some((mem, head, Null))
                else
                  match LinkV(mem, root, head, tbl, index)
                  case None => None
                  case Some((m, next, r)) =>
                    if r == 0 then Some((m, next, Null)) else WalkV(m, root, next, r / PGSIZE, va, level - 1, alloc)
  {
    hide Space, OwnedFrames, LinkV, LoadV, Decode, And, Shr, Reaches, Word;
    if Usable(Space(mem, root), OwnedFrames(free, tree, held)) {
      OwnedHas(free, tree, held, tbl);
      LoadIs(mem, root, tbl, And(Shr(va, 12 + level * 9), 0x1FF));
    }
  }

  lemma WalkEnds(mem: Memory, root: nat, head: u64, tbl: nat, va: nat, alloc: bool)
    ensures WalkV(mem, root, head, tbl, va, 0, alloc) == Some((mem, head, Slot(tbl, And(Shr(va, 12), 0x1FF))))
  {
    hide And, Shr;
  }

  lemma SameLeaf(pa: nat, page: nat, flags: nat)
    requires page == pa - pa % PGSIZE
    ensures page % PGSIZE == 0 && LeafFor(page, flags) == LeafFor(pa, flags)
  {
    hide And;
    assert page / PGSIZE == pa / PGSIZE;
  }

  lemma MapPageAfterWalk(mem: Memory, root: nat, head: u64, va: nat, pa: nat, flags: nat,
                         m: Memory, next: u64, pte: Pte)
    requires WalkV(mem, root, head, root, RoundDown(va), 3, true) == Some((m, next, pte))
    ensures MapPageV(mem, root, head, va, pa, flags) ==
              if pte.Null? then Some((m, next, false))
              else
                match MapEntryV(m, root, pte.frame, pte.index, RoundDown(pa), flags)
                case None => None
                case Some((m', ok)) => Some((m', next, ok))
  {
    hide WalkV, MapEntryV, RoundDown;
  }

  lemma LoadByAddress(mem: Memory, root: nat, free: seq<nat>, tree: map<Path, nat>, held: set<nat>, f: nat, i: nat)
    requires Usable(Space(mem, root), OwnedFrames(free, tree, held)) && f in tree.Values && f < |mem| && i < ENTRIES
    ensures LoadV(mem, root, Word(f, i)) == Some(mem[f][i])
  {
    hide Space, OwnedFrames, LoadV, Reaches;
    OwnedHas(free, tree, held, f);
    LoadIs(mem, root, f, i);
  }

  /** The second half of `map_page`, by address. */
  lemma EntryByAddress(mem: Memory, root: nat, pte: Pte, page: nat, flags: nat)
    requires pte.Slot? && pte.frame < |mem| && pte.index < ENTRIES
    requires LoadV(mem, root, Word(pte.frame, pte.index)) == Some(mem[pte.frame][pte.index])
    ensures var e := Decode(mem[pte.frame][pte.index]);
            e.p && Shl(e.address, 12) != page ==>
              MapEntryV(mem, root, pte.frame, pte.index, page, flags) == Some((mem, false))
  {
    hide LoadV, StoreV, Decode, Encode, FlaggedEntry, Shl, Word;
  }

  lemma EntryStored(mem: Memory, root: nat, pte: Pte, page: nat, flags: nat, w: u64, m: Memory)
    requires pte.Slot? && pte.frame < |mem| && pte.index < ENTRIES && w == Encode(FlaggedEntry(page, flags))
    requires LoadV(mem, root, Word(pte.frame, pte.index)) == Some(mem[pte.frame][pte.index])
    requires var e := Decode(mem[pte.frame][pte.index]); !(e.p && Shl(e.address, 12) != page)
    requires StoreV(mem, root, Word(pte.frame, pte.index), w) == Some(m)
    ensures MapEntryV(mem, root, pte.frame, pte.index, page, flags) == Some((m, true))
  {
    hide LoadV, StoreV, Decode, Encode, FlaggedEntry, Shl, Word;
  }

  /** `unmap_page`, by address, after its walk. */
  lemma UnmapByAddress(mem: Memory, root: nat, head: u64, free: seq<nat>, tree: map<Path, nat>, held: set<nat>,
                       va: nat, pte: Pte)
    requires WalkV(mem, root, head, root, RoundDown(va), 3, false) == Some((mem, head, pte))
    requires pte.Slot? ==> pte.frame in tree.Values && pte.frame < |mem| && pte.index < ENTRIES
    ensures Usable(Space(mem, root), OwnedFrames(free, tree, held)) ==>
              UnmapPageV(mem, root, head, va) ==
                if pte.Null? || !Decode(mem[pte.frame][pte.index]).p then Some(mem)
                else StoreV(mem, root, Word(pte.frame, pte.index), 0)
  {
    hide Space, OwnedFrames, LoadV, StoreV, Decode, WalkV, RoundDown, Reaches, Word;
    if Usable(Space(mem, root), OwnedFrames(free, tree, held)) && pte.Slot? {
      OwnedHas(free, tree, held, pte.frame);
      LoadIs(mem, root, pte.frame, pte.index);
    }
  }

  // When the pages of the kernel stay usable

  lemma UsableAfterMap(space: map<nat, Leaf>, frames: set<nat>, v: nat, leaf: Leaf)
    requires Usable(space, frames) && KeepsFrames(space, space[v := leaf])
    ensures Usable(space[v := leaf], frames) <==> v !in frames || leaf.rw
  {
    var space' := space[v := leaf];
    if v in frames {
      assert Reaches(space, v);
      assert Usable(space', frames) ==> Reaches(space', v);
    }
    if v !in frames || leaf.rw {
      forall f | f in frames ensures Reaches(space', f) {
        assert Reaches(space, f);
      }
    }
  }

  lemma UsableAfterSelf(space: map<nat, Leaf>, frames: set<nat>, addr: nat)
    ensures Usable(space, frames) ==> Usable(space[Vpn(addr) := LeafFor(addr, PTE_W)], frames)
  {
    assert And(PTE_W, PTE_W) != 0;
    hide And;
    var space' := space[Vpn(addr) := LeafFor(addr, PTE_W)];
    if Usable(space, frames) {
      forall f | f in frames ensures Reaches(space', f) {
        assert Reaches(space, f);
      }
    }
  }

  lemma UsableAfterRemoval(space: map<nat, Leaf>, frames: set<nat>, keys: set<nat>)
    requires Usable(space, frames)
    ensures Usable(space - keys, frames) <==> keys !! frames
  {
    if keys !! frames {
      forall f | f in frames ensures Reaches(space - keys, f) {
        assert Reaches(space, f);
      }
    } else {
      var f :| f in keys && f in frames;
      assert !Reaches(space - keys, f);
    }
  }

  /** Mapping these pages with these flags leaves the given frames usable. */
  ghost predicate MayTouch(flags: nat, keys: set<nat>, frames: set<nat>) {
    And(flags, PTE_W) != 0 || keys !! frames
  }

  lemma KeysNone(va: nat, space: map<nat, Leaf>)
    ensures Keys(va, 0) == {} && space - Keys(va, 0) == space
  {
  }

  lemma KeysNext(va: nat, k: nat)
    ensures Keys(va, k + 1) == Keys(va, k) + {Key(va, k)}
  {
    hide Key;
  }

  lemma StaysUsable(space: map<nat, Leaf>, frames: set<nat>, va: nat, k: nat, flags: nat, pa: nat)
    requires KeepsFrames(space, space[Key(va, k) := LeafFor(pa, flags)])
    ensures Usable(space, frames) && MayTouch(flags, Keys(va, k + 1), frames) ==>
              Usable(space[Key(va, k) := LeafFor(pa, flags)], frames)
    ensures MayTouch(flags, Keys(va, k + 1), frames) ==> MayTouch(flags, Keys(va, k), frames)
  {
    hide Usable, Key, Keys, And;
    KeysNext(va, k);
    if Usable(space, frames) {
      UsableAfterMap(space, frames, Key(va, k), LeafFor(pa, flags));
    }
  }

  /** A range mapped completely: usable frames stay so exactly if it was mapped writable or missed them all. */
  lemma UsableAfterInstall(space0: map<nat, Leaf>, space: map<nat, Leaf>, frames: set<nat>,
                           va: nat, pa: nat, flags: nat, n: nat)
    requires Installed(space0, va, pa, flags, n, space) && KeepsFrames(space0, space)
    ensures Usable(space0, frames) ==> (Usable(space, frames) <==> MayTouch(flags, Keys(va, n), frames))
  {
    hide And, Key, PaAt;
    if Usable(space0, frames) {
      forall f | f in frames ensures Reaches(space, f) <==> f !in Keys(va, n) || And(flags, PTE_W) != 0 {
        assert Reaches(space0, f);
      }
      if !MayTouch(flags, Keys(va, n), frames) {
        var f :| f in Keys(va, n) && f in frames;
        assert !Reaches(space, f);
      }
    }
  }

  lemma MapRunStep(mem: Memory, root: nat, head: u64, first: nat, pa: nat, flags: nat, k: nat, n: nat)
    requires k < n
    ensures MapRunV(mem, root, head, first, pa, flags, k, n) ==
              match MapPageV(mem, root, head, first + k * PGSIZE, (pa + k * PGSIZE) % WORD_LIMIT, flags)
              case None => None
              case Some((m, next, true)) => MapRunV(m, root, next, first, pa, flags, k + 1, n)
              case Some((m, next, false)) => UndoneV(m, root, next, first, k)
  {
    hide MapPageV, UnmapRunV;
  }

  /** As long as nothing was lost, all pages are usable and the rest of the loop, by address, is still ahead. */
  ghost predicate OnTrack<T>(safe: bool, usable: bool, whole: T, rest: T) {
    safe ==> usable && whole == rest
  }

  lemma MapRunEnds(mem: Memory, root: nat, head: u64, first: nat, pa: nat, flags: nat, n: nat)
    ensures MapRunV(mem, root, head, first, pa, flags, n, n) == Some((mem, head, true))
  {
  }

  lemma PaAtIs(pa: nat, k: nat)
    requires pa < WORD_LIMIT
    ensures PaAt(pa, k) == (RoundDown(pa) + k * PGSIZE) % WORD_LIMIT
  {
    hide RoundDown;
    RoundDownIs(pa);
    var x := pa / PGSIZE + k;
    assert RoundDown(pa) + k * PGSIZE == x * PGSIZE;
    var q, r := x / WORD_PAGES, x % WORD_PAGES;
    DivModUnique(x * PGSIZE, WORD_LIMIT, q, r * PGSIZE);
  }

  lemma {:induction false} SameTables(base: nat, pa: nat, k: nat)
    requires base / PGSIZE == pa / PGSIZE
    ensures Key(base, k) == Key(pa, k) && PaAt(base, k) == PaAt(pa, k) && PathsUpTo(base, k) == PathsUpTo(pa, k)
    decreases k
  {
    hide PathSet;
    if k > 0 {
      SameTables(base, pa, k - 1);
    }
  }

  lemma SameBlocked(space: map<nat, Leaf>, tree: map<Path, nat>, nfree: nat, pa: nat, base: nat, k: nat)
    requires base / PGSIZE == pa / PGSIZE
    ensures Blocked(space, tree, nfree, base, base, k) == Blocked(space, tree, nfree, pa, pa, k)
  {
    hide Conflict, Key, PaAt, PathsUpTo;
    SameTables(base, pa, k);
    SameTables(base, pa, k + 1);
  }

  /** Only the page of an address matters. */
  lemma {:induction false} SameStop(space: map<nat, Leaf>, tree: map<Path, nat>, nfree: nat, pa: nat, base: nat, n: nat)
    requires base / PGSIZE == pa / PGSIZE
    ensures FirstBlocked(space, tree, nfree, base, base, n) == FirstBlocked(space, tree, nfree, pa, pa, n)
    decreases n
  {
    hide Blocked;
    if n > 0 {
      SameStop(space, tree, nfree, pa, base, n - 1);
      SameBlocked(space, tree, nfree, pa, base, n - 1);
    }
  }

  lemma MmioFlags()
    ensures And(Or(PTE_W, PTE_PCD), PTE_W) != 0
  {
    assert Or(PTE_W, PTE_PCD) == 0x12;
  }

  /** The state in which a call of `map_pages` began. */
  datatype Start = Start(space: map<nat, Leaf>, tree: map<Path, nat>, nfree: nat, mem: Memory, head: u64,
                         ready: bool, owned: set<nat>)

  /** Its arguments, and how many pages it visits. */
  datatype Range = Range(va: nat, pa: nat, flags: nat, n: nat)

  /** One iteration of `map_pages`, by address. */
  lemma TrackStep(s: Start, r: Range, k: nat, root: nat, mem1: Memory, head1: u64, mem2: Memory, head2: u64,
                  done: bool, usable1: bool, usable2: bool)
    requires k < r.n && r.pa < WORD_LIMIT
    requires OnTrack(s.ready && MayTouch(r.flags, Keys(r.va, k), s.owned), usable1,
                     MapRunV(s.mem, root, s.head, RoundDown(r.va), RoundDown(r.pa), r.flags, 0, r.n),
                     MapRunV(mem1, root, head1, RoundDown(r.va), RoundDown(r.pa), r.flags, k, r.n))
    requires usable1 ==> MapPageV(mem1, root, head1, RoundDown(r.va) + k * PGSIZE, PaAt(r.pa, k), r.flags)
                         == Some((mem2, head2, done))
    requires done ==> (usable1 && MayTouch(r.flags, Keys(r.va, k + 1), s.owned) ==> usable2)
    requires !done ==> usable1 == usable2
    ensures done ==>
              OnTrack(s.ready && MayTouch(r.flags, Keys(r.va, k + 1), s.owned), usable2,
                      MapRunV(s.mem, root, s.head, RoundDown(r.va), RoundDown(r.pa), r.flags, 0, r.n),
                      MapRunV(mem2, root, head2, RoundDown(r.va), RoundDown(r.pa), r.flags, k + 1, r.n))
    ensures !done ==>
              OnTrack(s.ready && MayTouch(r.flags, Keys(r.va, k), s.owned), usable2,
                      MapRunV(s.mem, root, s.head, RoundDown(r.va), RoundDown(r.pa), r.flags, 0, r.n),
                      UndoneV(mem2, root, head2, RoundDown(r.va), k))
  {
    hide MapRunV, MapPageV, UndoneV, RoundDown, PaAt, Keys, Key, And;
    MapRunStep(mem1, root, head1, RoundDown(r.va), RoundDown(r.pa), r.flags, k, r.n);
    PaAtIs(r.pa, k);
    KeysNext(r.va, k);
  }

  /** The outcome of a failed `map_pages` after its rollback, by address. */
  ghost function UndoneV(mem: Memory, root: nat, head: u64, first: nat, k: nat): Option<(Memory, u64, bool)> {
    match UnmapRunV(mem, root, head, first, k)
    case None => None
    case Some(m) => Some((m, head, false))
  }

  /** What the loop of `map_pages` never changes. */
  ghost predicate Continues(s: Start, t: Start) {
    && |t.tree.Keys| + t.nfree == |s.tree.Keys| + s.nfree && t.owned == s.owned
    && KeepsFrames(s.space, t.space) && KeepsTables(s.tree, t.tree)
  }

  /** The state t of the loop of `map_pages` after k pages. */
  ghost predicate MidwayAt(s: Start, r: Range, k: nat, root: nat, t: Start) {
    && Progress(s.space, s.tree, s.nfree, r.va, r.pa, r.flags, k, t.space, t.tree, t.nfree)
    && Continues(s, t)
    && OnTrack(s.ready && MayTouch(r.flags, Keys(r.va, k), s.owned), t.ready,
               MapRunV(s.mem, root, s.head, RoundDown(r.va), RoundDown(r.pa), r.flags, 0, r.n),
               MapRunV(t.mem, root, t.head, RoundDown(r.va), RoundDown(r.pa), r.flags, k, r.n))
  }

  /** The state t when page k could not be mapped, before the rollback. */
  ghost predicate StuckAt(s: Start, r: Range, k: nat, root: nat, t: Start) {
    && Installed(s.space, r.va, r.pa, r.flags, k, t.space)
    && FirstBlocked(s.space, s.tree, s.nfree, r.va, r.pa, r.n) == k
    && Continues(s, t)
    && OnTrack(s.ready && MayTouch(r.flags, Keys(r.va, k), s.owned), t.ready,
               MapRunV(s.mem, root, s.head, RoundDown(r.va), RoundDown(r.pa), r.flags, 0, r.n),
               UndoneV(t.mem, root, t.head, RoundDown(r.va), k))
  }

  lemma NotStarted(s: Start, r: Range, root: nat)
    requires Closed(s.tree)
    ensures s.ready == Usable(s.space, s.owned) ==> MidwayAt(s, r, 0, root, s)
  {
    hide Closed, Progress, Keys, KeepsFrames, KeepsTables, Usable, MapRunV, RoundDown;
    ProgressNone(s.space, s.tree, s.nfree, r.va, r.pa, r.flags);
    KeepsSelf(s.space, s.tree);
  }

  lemma AllMapped(s: Start, r: Range, root: nat, t: Start)
    requires MidwayAt(s, r, r.n, root, t)
    requires s.ready == Usable(s.space, s.owned) && t.ready == Usable(t.space, t.owned)
    ensures Continues(s, t) && FirstBlocked(s.space, s.tree, s.nfree, r.va, r.pa, r.n) == r.n
    ensures Installed(s.space, r.va, r.pa, r.flags, r.n, t.space) && HasTables(s.tree, r.va, r.n, t.tree)
    ensures s.ready ==> (t.ready <==> MayTouch(r.flags, Keys(r.va, r.n), s.owned))
    ensures s.ready && t.ready ==>
              MapRunV(s.mem, root, s.head, RoundDown(r.va), RoundDown(r.pa), r.flags, 0, r.n)
              == Some((t.mem, t.head, true))
  {
    hide Progress, Keys, KeepsFrames, KeepsTables, Usable, MapRunV, RoundDown, Installed, HasTables, FirstBlocked,
         MayTouch;
    Finished(s.space, s.tree, s.nfree, r.va, r.pa, r.flags, r.n, t.space, t.tree, t.nfree);
    FirstBlockedIs(s.space, s.tree, s.nfree, r.va, r.pa, r.n, r.n);
    MapRunEnds(t.mem, root, t.head, RoundDown(r.va), RoundDown(r.pa), r.flags, r.n);
    UsableAfterInstall(s.space, t.space, s.owned, r.va, r.pa, r.flags, r.n);
  }

  /** One iteration of `map_pages`, from state t with free list free to state u, given what `map_page` did. */
  lemma NextPage(s: Start, r: Range, k: nat, root: nat, t: Start, free: seq<nat>, done: bool, u: Start, free': seq<nat>)
    requires MidwayAt(s, r, k, root, t) && k < r.n && r.pa < WORD_LIMIT && t.nfree == |free| && u.nfree == |free'|
    requires t.ready == Usable(t.space, t.owned) && u.ready == Usable(u.space, u.owned)
    requires done <==> Missing(t.tree, Key(r.va, k)) <= |free| && !Conflict(t.space, Key(r.va, k), PaAt(r.pa, k))
    requires u.space == if done then t.space[Key(r.va, k) := LeafFor(PaAt(r.pa, k), r.flags)] else t.space
    requires done ==> Grown(t.tree, free, Key(r.va, k), Missing(t.tree, Key(r.va, k)), u.tree, free')
    requires Continues(t, u)
    requires t.ready ==> MapPageV(t.mem, root, t.head, RoundDown(r.va) + k * PGSIZE, PaAt(r.pa, k), r.flags)
                         == Some((u.mem, u.head, done))
    ensures if done then MidwayAt(s, r, k + 1, root, u) else StuckAt(s, r, k, root, u)
  {
    hide Key, Grown, Missing, Conflict, LeafFor, RoundDown, PaAt, Progress, Keys, UndoneV, MayTouch,
         KeepsFrames, KeepsTables, Installed, Unblocked, Blocked, FirstBlocked, Usable, MapPageV, MapRunV, OnTrack;
    ProgressStops(s.space, s.tree, s.nfree, r.va, r.pa, r.flags, k, t.space, t.tree, free, done);
    KeepsTablesTwice(s.tree, t.tree, u.tree);
    KeepsFramesTwice(s.space, t.space, u.space);
    if done {
      ProgressStep(s.space, s.tree, s.nfree, r.va, r.pa, r.flags, k, t.space, t.tree, free, u.tree, free');
      StaysUsable(t.space, t.owned, r.va, k, r.flags, PaAt(r.pa, k));
    } else {
      Finished(s.space, s.tree, s.nfree, r.va, r.pa, r.flags, k, t.space, t.tree, |free|);
      FirstBlockedIs(s.space, s.tree, s.nfree, r.va, r.pa, r.n, k);
    }
    TrackStep(s, r, k, root, t.mem, t.head, u.mem, u.head, done, t.ready, u.ready);
  }

  class Kernel {
    const root: nat        // frame of the top-level table, as held in CR3
    const kend: nat        // the linker symbol `end`
    var mem: Memory
    var freelist: u64      // kmem.freelist
    ghost var free: seq<nat>          // frames on the free list, head first
    ghost var tree: map<Path, nat>    // frames holding page tables, by position
    ghost var held: set<nat>          // frames returned by kalloc and not freed since

    ghost predicate Valid()
      reads this
    {
      && 0 < kend && PHYSTOP <= |mem| * PGSIZE && |mem| <= FRAMES
      && FreeOk(mem, kend, freelist, free)
      && TreeOk(mem, root, tree)
      && Separate(free, tree, held)
      && (forall f :: f in held ==> InPool(f, kend))
    }

    /** The address space that the hardware sees. */
    ghost function Map(): map<nat, Leaf>
      reads this
    {
      Space(mem, root)
    }

    ghost function Owned(): set<nat>
      reads this
    {
      OwnedFrames(free, tree, held)
    }

    /** Every page the kernel accounts for can be used through its physical address. */
    ghost predicate Ready()
      reads this
    {
      Usable(Map(), Owned())
    }

    /** Every page the kernel accounts for is mapped to itself. */
    ghost predicate Mapped()
      reads this
    {
      Identity(Map(), Owned())
    }

    /** The state handed over by the boot code: page tables, and no free page yet. */
    constructor (mem: Memory, root: nat, kend: nat, ghost tree: map<Path, nat>)
      requires 0 < kend && PHYSTOP <= |mem| * PGSIZE && |mem| <= FRAMES && TreeOk(mem, root, tree)
      ensures Valid() && this.mem == mem && this.root == root && this.kend == kend
      ensures free == [] && held == {} && this.tree == tree
    {
      this.mem, this.root, this.kend := mem, root, kend;
      freelist := 0;
      free, held, this.tree := [], {}, tree;
    }

    /**
     `kfree`. The result is false when it panics. Nothing checks whether the page is free already or holds
     a table; the state stays valid exactly when it is neither.
     */
    method Kfree(pa: u64) returns (ok: bool)
      requires Valid()
      modifies this
      ensures ok <==> pa % PGSIZE == 0 && kend <= pa < PHYSTOP
      ensures !ok ==> unchanged(this)
      ensures ok ==> freelist == pa && mem == old(mem)[pa / PGSIZE := FreePage(old(freelist))]
      ensures tree == old(tree) && |mem| == old(|mem|)
      ensures ok ==> (Valid() <==> pa / PGSIZE !in old(free) && pa / PGSIZE !in tree.Values)
      ensures Valid() ==> Map() == old(Map())
      ensures ok && Valid() ==> free == [pa / PGSIZE] + old(free) && held == old(held) - {pa / PGSIZE}
      ensures ok && pa / PGSIZE in old(held) ==> Valid() && Owned() == old(Owned())
      ensures ok && Valid() && old(Reaches(Map(), pa / PGSIZE)) ==>
                KfreeV(old(mem), root, old(freelist), pa) == Some((mem, freelist))
    {
      hide TreeOk, Space, FreeOk, OwnedFrames, KfreeV;
      if pa % PGSIZE != 0 || pa < kend || pa >= PHYSTOP {
        return false;
      }
      var f := pa / PGSIZE;
      ghost var before, head := mem, freelist;
      mem := mem[f := ZeroPage()];
      mem := mem[f := mem[f][0 := freelist]];
      freelist := pa;
      if f in free {
        NotAList(before, mem, kend, head, free, f, free);
      } else if f in tree.Values {
        free := [f] + free;
      } else {
        FreeList.Push(before, mem, kend, head, free, f);
        WriteElsewhere(before, mem, root, tree);
        SeparateAfterPush(free, tree, held, f);
        OwnedAfterFree(free, tree, held, f);
        if Reaches(Space(before, root), f) {
          KfreeIs(before, root, tree, head, f);
        }
        free, held := [f] + free, held - {f};
      }
      return true;
    }

    /** `kalloc`. The result is 0 when there is no free page. */
    method Kalloc() returns (r: u64)
      requires Valid()
      modifies this
      ensures Valid() && tree == old(tree) && Map() == old(Map()) && |mem| == old(|mem|)
      ensures Owned() == old(Owned())
      ensures r == 0 <==> old(free) == []
      ensures r == 0 ==> unchanged(this)
      ensures r != 0 ==> r == old(free)[0] * PGSIZE && free == old(free)[1..]
      ensures r != 0 ==> held == old(held) + {r / PGSIZE} && r / PGSIZE !in old(held) + old(tree).Values
      ensures r != 0 ==> mem == old(mem)[r / PGSIZE := JunkPage()] && freelist == old(mem)[r / PGSIZE][0]
      ensures old(Ready()) ==> KallocV(old(mem), root, old(freelist)) == Some((mem, freelist, r))
    {
      hide TreeOk, Space, FreeOk, Separate, OwnedFrames, KallocV, Reaches;
      KallocNone(mem, root);
      FreeList.Head(mem, kend, freelist, free);
      r := freelist;
      if r != 0 {
        var f := r / PGSIZE;
        ghost var before := mem;
        freelist := mem[f][0];
        mem := mem[f := JunkPage()];
        FreeList.Pop(before, mem, kend, r, free);
        SeparateAfterPop(free, tree, held);
        OwnedAfterAlloc(free, tree, held);
        if Usable(Space(before, root), OwnedFrames(free, tree, held)) {
          OwnedHas(free, tree, held, f);
          KallocIs(before, root, tree, f);
        }
        WriteElsewhere(before, mem, root, tree);
        free, held := free[1..], held + {f};
      }
    }

    /** A client stores a word in a page it holds. */
    method Store(f: nat, index: nat, word: u64)
      requires Valid() && f in held && index < ENTRIES
      modifies this`mem
      ensures Valid() && Map() == old(Map()) && mem == old(mem)[f := old(mem)[f][index := word]]
      ensures old(Ready()) ==> StoreV(old(mem), root, Word(f, index), word) == Some(mem)
    {
      hide TreeOk, Space, FreeOk, OwnedFrames, StoreV, Reaches, Word;
      ghost var before := mem;
      OwnedHas(free, tree, held, f);
      if Ready() {
        StoreIs(before, root, tree, f, index, word);
      }
      mem := mem[f := mem[f][index := word]];
      FreeList.WriteUsed(before, mem, kend, freelist, free);
      WriteElsewhere(before, mem, root, tree);
    }

    /** `count_pages`: the loop terminates and counts the free pages. */
    method CountPages() returns (n: nat)
      requires Valid()
      ensures n == |free|
    {
      var r := freelist;
      n := 0;
      while r != 0
        invariant n <= |free| && r == Link(free, n)
        decreases |free| - n
      {
        assert r / PGSIZE == free[n];
        n := n + 1;
        r := mem[r / PGSIZE][0];
      }
    }

    /** The missing-table branch of `walk`: take a page, clear it and link it. 0 when there is none. */
    method AddTable(ghost p: Path, tbl: nat, index: nat) returns (r: u64)
      requires Valid()
      requires p in tree && tree[p] == tbl && Depth(p) < 3 && index < ENTRIES && Child(p, index) !in tree
      modifies this
      ensures Valid() && held == old(held) && Map() == old(Map()) && |mem| == old(|mem|)
      ensures r == 0 <==> old(free) == []
      ensures r == 0 ==> unchanged(this)
      ensures r != 0 ==> r == old(free)[0] * PGSIZE && free == old(free)[1..]
      ensures r != 0 ==> tree == old(tree)[Child(p, index) := r / PGSIZE]
      ensures |tree.Keys| + |free| == old(|tree.Keys| + |free|) && Owned() == old(Owned())
      ensures old(Ready()) ==> LinkV(old(mem), root, old(freelist), tbl, index) == Some((mem, freelist, r))
    {
      hide TreeOk, Space, FreeOk, Separate, Present, FrameOf, Writable, User, Large, Encode, Decode, InitEntry,
           OwnedFrames, LinkV, KallocV, Reaches;
      TableFrames(mem, root, tree, p, p);
      LinkByAddress(mem, root, kend, freelist, free, tree, held, tbl, index);
      r := Kalloc();
      if r != 0 {
        var f := r / PGSIZE;
        ghost var before := mem;
        InitWord(r);
        SeparateAfterLink(free, tree, held, Child(p, index), f);
        mem := mem[f := ZeroPage()];
        var w := Encode(InitEntry(r));
        mem := mem[tbl := mem[tbl][index := w]];
        assert mem == old(mem)[f := ZeroPage()][tbl := old(mem)[tbl][index := w]];
        LinkKeepsTree(before, mem, root, tree, p, index, f, w);
        LinkKeepsSpace(before, mem, root, tree, p, index, f, w);
        UsedByTables(before, mem, free, tree, held, f, tbl);
        FreeList.WriteUsed(before, mem, kend, freelist, free);
        OwnedAfterLink(old(free), tree, old(held), Child(p, index));
        held, tree := held - {f}, tree[Child(p, index) := f];
      }
    }

    /** One level of `walk`: the child table under an entry, added if it is missing and asked for. */
    method Descend(ghost p: Path, tbl: nat, index: nat, ghost va: nat, ghost level: nat, alloc: bool)
      returns (next: Option<nat>)
      requires Valid() && p in tree && tree[p] == tbl && Depth(p) < 3 && index < ENTRIES
      requires level > 0 && index == And(Shr(va, 12 + level * 9), 0x1FF)
      modifies this
      ensures Valid() && held == old(held) && Map() == old(Map()) && |mem| == old(|mem|)
      ensures |tree.Keys| + |free| == old(|tree.Keys| + |free|) && Owned() == old(Owned())
      ensures next.Some? ==> Child(p, index) in tree && tree[Child(p, index)] == next.value
      ensures next == None <==> Child(p, index) !in old(tree) && (!alloc || old(free) == [])
      ensures next == None || Child(p, index) in old(tree) ==> unchanged(this)
      ensures next.Some? && Child(p, index) !in old(tree) ==>
                free == old(free)[1..] && tree == old(tree)[Child(p, index) := old(free)[0]]
      ensures old(Ready()) ==>
                WalkV(old(mem), root, old(freelist), tbl, va, level, alloc) ==
                  if next == None then Some((mem, freelist, Null))
                  else WalkV(mem, root, freelist, next.value, va, level - 1, alloc)
    {
      hide TreeOk, Space, FreeOk, Separate, OwnedFrames, Decode, And, Shr, Usable, WalkV, LinkV, LoadV;
      StepDown(mem, root, tree, p, index);
      WalkByAddress(mem, root, freelist, free, tree, held, tbl, va, level, alloc);
      var entry := Decode(mem[tbl][index]);
      if entry.p {
        return Some(entry.address);
      }
      if !alloc {
        return None;
      }
      var r := AddTable(p, tbl, index);
      return if r == 0 then None else Some(r / PGSIZE);
    }

    /**
     `walk`: the entry for va in its last-level table, linking missing tables if asked to.
     When the pool runs dry midway, every page taken is already linked and no translation changed.
     */
    method Walk(va: u64, alloc: bool) returns (pte: Pte)
      requires Valid()
      modifies this
      ensures Valid() && held == old(held) && Map() == old(Map()) && |mem| == old(|mem|)
      ensures Grown(old(tree), old(free), Vpn(va),
                    if alloc then Min(Missing(old(tree), Vpn(va)), |old(free)|) else 0, tree, free)
      ensures |tree.Keys| + |free| == old(|tree.Keys| + |free|) && Owned() == old(Owned())
      ensures !alloc ==> unchanged(this)
      ensures pte == if PathOf(Vpn(va), 3) in tree then Slot(tree[PathOf(Vpn(va), 3)], Index(Vpn(va), 0)) else Null
      ensures old(Ready()) ==>
                Ready() && WalkV(old(mem), root, old(freelist), root, va, 3, alloc) == Some((mem, freelist, pte))
    {
      hide TreeOk, Space, FreeOk, Separate, OwnedFrames, Grown, Closed, Index, And, Shr, Vpn, PathOf, Missing,
           Usable, WalkV, AtDepth;
      ghost var v, tree0, free0, k := Vpn(va), tree, free, 0;
      TreeIsClosed(mem, root, tree);
      AtRoot(mem, root, tree, free, v);
      var tbl := root;
      for level := 3 downto 0
        invariant Valid() && held == old(held) && Map() == old(Map()) && |mem| == old(|mem|)
        invariant |tree.Keys| + |free| == old(|tree.Keys| + |free|) && Owned() == old(Owned())
        invariant AtDepth(tree0, free0, v, 3 - level, k, tree, free, tbl)
        invariant !alloc ==> unchanged(this)
        invariant old(Ready()) ==>
                    && Ready()
                    && WalkV(old(mem), root, old(freelist), root, va, 3, alloc)
                         == WalkV(mem, root, freelist, tbl, va, level, alloc)
      {
        ghost var p, tree1, free1 := PathOf(v, 2 - level), tree, free;
        LevelIndex(va, level + 1);
        var index := And(Shr(va, 12 + (level + 1) * 9), 0x1FF);
        AtTable(tree0, free0, v, 2 - level, k, tree, free, tbl);
        var next := Descend(p, tbl, index, va, level + 1, alloc);
        if next == None {
          NoTable(tree0, free0, v, 2 - level, k, tree, free, tbl, alloc);
          return Null;
        }
        NextTable(tree0, free0, v, 2 - level, k, tree1, free1, tbl, tree, free, next.value);
        tbl := next.value;
        k := if Child(p, index) in tree1 then k else k + 1;
      }
      LevelIndex(va, 0);
      AtLeaf(tree0, free0, v, k, tree, free, tbl, alloc);
      WalkEnds(mem, root, freelist, tbl, va, alloc);
      pte := Slot(tbl, And(Shr(va, 12), 0x1FF));
    }

    /** Store a last-level entry. */
    method SetEntry(ghost v: nat, pte: Pte, w: u64)
      requires Valid() && v < FRAMES && PathOf(v, 3) in tree && !Large(w)
      requires pte == Slot(tree[PathOf(v, 3)], Index(v, 0))
      modifies this`mem
      ensures Valid() && |mem| == old(|mem|)
      ensures Map() == if LeafOf(w).Some? then old(Map())[v := LeafOf(w).value] else old(Map()) - {v}
      ensures old(Ready()) ==> StoreV(old(mem), root, Word(pte.frame, pte.index), w) == Some(mem)
    {
      hide TreeOk, Space, FreeOk, Separate, PathOf, Index, Large, LeafOf, Lookup, OwnedFrames, StoreV, Reaches, Word;
      ghost var before := mem;
      TableFrames(mem, root, tree, PathOf(v, 3), PathOf(v, 3));
      OwnedHas(free, tree, held, pte.frame);
      if Ready() {
        StoreIs(mem, root, tree, pte.frame, pte.index, w);
      }
      mem := mem[pte.frame := mem[pte.frame][pte.index := w]];
      WriteLeaf(before, mem, root, tree, v, w);
      WriteLeafSpace(before, mem, root, v, LeafOf(w));
      TablesAreUsed(before, mem, free, tree, held, pte.frame);
      FreeList.WriteUsed(before, mem, kend, freelist, free);
    }

    /** `map_page`. False for the source's -1. */
    method MapPage(va: u64, pa: u64, flags: nat) returns (ok: bool)
      requires Valid()
      modifies this
      ensures Valid() && held == old(held) && |mem| == old(|mem|)
      ensures ok <==> Missing(old(tree), Vpn(va)) <= |old(free)| && !Conflict(old(Map()), Vpn(va), pa)
      ensures Map() == if ok then old(Map())[Vpn(va) := LeafFor(pa, flags)] else old(Map())
      ensures KeepsFrames(old(Map()), Map()) && KeepsTables(old(tree), tree)
      ensures |tree.Keys| + |free| == old(|tree.Keys| + |free|) && Owned() == old(Owned())
      ensures Grown(old(tree), old(free), Vpn(va), Min(Missing(old(tree), Vpn(va)), |old(free)|), tree, free)
      ensures old(Ready()) ==> MapPageV(old(mem), root, old(freelist), va, pa, flags) == Some((mem, freelist, ok))
    {
      hide TreeOk, Space, FreeOk, Separate, Grown, PathOf, Index, Large, Present, FrameOf, LeafOf, Lookup, Missing,
           Encode, Decode, Shl, RoundDown, FlaggedEntry, LeafFor, OwnedFrames,
           Vpn, KeepsTables, Usable, MapPageV, MapEntryV, WalkV, StoreV, LoadV, Word;
      RoundDownIs(va);
      RoundDownIs(pa);
      var pageVa, pagePa := RoundDown(va), RoundDown(pa);
      SameVpn(va, pageVa);
      ghost var v, tree0, free0 := Vpn(va), tree, free;
      TreeIsClosed(mem, root, tree);
      var pte := Walk(pageVa, true);
      ghost var k := Min(Missing(tree0, v), |free0|);
      GrownReach(tree0, free0, v, k, tree, free, 3);
      GrownKeepsTables(tree0, free0, v, k, tree, free);
      KeepsSelf(Map(), tree);
      if Ready() {
        MapPageAfterWalk(old(mem), root, old(freelist), va, pa, flags, mem, freelist, pte);
      }
      if pte.Null? {
        return false;
      }
      ok := MapEntry(v, pte, pagePa, flags);
      SameLeaf(pa, pagePa, flags);
    }

    /** The second half of `map_page`. */
    method MapEntry(ghost v: nat, pte: Pte, page: u64, flags: nat) returns (ok: bool)
      requires Valid() && v < FRAMES && PathOf(v, 3) in tree && page % PGSIZE == 0
      requires pte == Slot(tree[PathOf(v, 3)], Index(v, 0))
      modifies this`mem
      ensures Valid() && |mem| == old(|mem|)
      ensures ok <==> !Conflict(old(Map()), v, page)
      ensures Map() == if ok then old(Map())[v := LeafFor(page, flags)] else old(Map())
      ensures KeepsFrames(old(Map()), Map())
      ensures old(Ready()) ==> MapEntryV(old(mem), root, pte.frame, pte.index, page, flags) == Some((mem, ok))
    {
      hide TreeOk, Space, FreeOk, Separate, PathOf, Index, Large, LeafOf, Lookup, Encode, Decode, Shl, FlaggedEntry,
           LeafFor, OwnedFrames, Usable, MapEntryV, StoreV, LoadV, Word;
      LookupAt(mem, root, tree, v);
      if Ready() {
        LoadByAddress(mem, root, free, tree, held, pte.frame, pte.index);
        EntryByAddress(mem, root, pte, page, flags);
      }
      var entry := Decode(mem[pte.frame][pte.index]);
      ShlMultiplies(entry.address, 12);
      PowersOfTwo();
      KeepsSelf(Map(), tree);
      if entry.p && Shl(entry.address, 12) != page {
        return false;
      }
      entry := FlaggedEntry(page, flags);
      FlaggedLeaf(page, page, flags);
      SpaceFrames(mem, root);
      NoRedirect(Map(), v, page, flags);
      ghost var before, ready := mem, Ready();
      SetEntry(v, pte, Encode(entry));
      if ready {
        EntryStored(before, root, pte, page, flags, Encode(entry), mem);
      }
      return true;
    }

    /** `unmap_page` removes exactly one page number. */
    method UnmapPage(va: u64)
      requires Valid()
      modifies this
      ensures Valid() && unchanged(`free, `tree, `held, `freelist) && |mem| == old(|mem|)
      ensures Map() == old(Map()) - {Vpn(va)}
      ensures old(Ready()) ==> UnmapPageV(old(mem), root, old(freelist), va) == Some(mem)
    {
      hide TreeOk, Space, FreeOk, Separate, Grown, PathOf, Index, Lookup, Missing, Decode, RoundDown, Large, Vpn,
           LeafOf, OwnedFrames, Usable, UnmapPageV, WalkV, StoreV;
      RoundDownIs(va);
      var pageVa := RoundDown(va);
      ghost var v := Vpn(va);
      SameVpn(va, pageVa);
      LookupAt(mem, root, tree, v);
      var pte := Walk(pageVa, false);
      if Ready() {
        UnmapByAddress(mem, root, freelist, free, tree, held, va, pte);
      }
      if pte.Null? {
        assert Map() == old(Map()) - {v};
        return;
      }
      var entry := Decode(mem[pte.frame][pte.index]);
      if !entry.p {
        assert Map() == old(Map()) - {v};
        return;
      }
      LeafOfZero();
      ZeroWord();
      SetEntry(v, pte, 0);
    }

    /** The loop shared by `unmap_pages` and the rollback of `map_pages`. */
    method UnmapRun(va: u64, first: u64, limit: u64, ghost n: nat)
      requires Valid()
      requires first == va - va % PGSIZE
      requires if limit <= first then n == 0 else limit == first + n * PGSIZE
      modifies this
      ensures Valid() && unchanged(`free, `tree, `held, `freelist) && |mem| == old(|mem|)
      ensures Map() == old(Map()) - Keys(va, n)
      ensures old(Ready()) ==> (Ready() <==> Keys(va, n) !! Owned())
      ensures old(Ready()) && Ready() ==> UnmapRunV(old(mem), root, old(freelist), first, n) == Some(mem)
    {
      hide TreeOk, Space, FreeOk, Separate, Key, Vpn, Keys, OwnedFrames, Usable, UnmapPageV;
      var addr := first;
      ghost var k := 0;
      KeysNone(va, Map());
      while addr < limit
        invariant k <= n && addr == first + k * PGSIZE
        invariant Valid() && unchanged(`free, `tree, `held, `freelist) && |mem| == old(|mem|)
        invariant Map() == old(Map()) - Keys(va, k)
        invariant old(Ready()) && Keys(va, k) !! Owned() ==>
                    Ready() && UnmapRunV(old(mem), root, old(freelist), first, k) == Some(mem)
        decreases n - k
      {
        KeyIsVpn(va, k, addr);
        KeysNext(va, k);
        UnmapPage(addr);
        if old(Ready()) {
          UsableAfterRemoval(old(Map()), Owned(), Keys(va, k + 1));
        }
        assert old(Map()) - Keys(va, k) - {Key(va, k)} == old(Map()) - Keys(va, k + 1);
        addr := addr + PGSIZE;
        k := k + 1;
      }
      if old(Ready()) {
        UsableAfterRemoval(old(Map()), Owned(), Keys(va, n));
      }
    }

    /** `unmap_pages`. */
    method UnmapPages(va: u64, size: u64)
      requires Valid()
      modifies this
      ensures Valid() && unchanged(`free, `tree, `held, `freelist) && |mem| == old(|mem|)
      ensures Map() == old(Map()) - Keys(va, SpanPages(va, size))
      ensures old(Ready()) ==> (Ready() <==> Keys(va, SpanPages(va, size)) !! Owned())
      ensures old(Ready()) && Ready() ==>
                UnmapRunV(old(mem), root, old(freelist), RoundDown(va), SpanPages(va, size)) == Some(mem)
    {
      hide TreeOk, Space, FreeOk, Separate, Key, Keys, RoundDown, RoundUp, SpanPages, OwnedFrames, Usable, UnmapRunV;
      RoundDownIs(va);
      SpanIs(va, size);
      UnmapRun(va, RoundDown(va), RoundUp((va + size) % WORD_LIMIT), SpanPages(va, size));
    }

    /** The page at which `map_pages` will stop: the first blocked one, or the number of pages. */
    ghost function StopsAt(va: nat, pa: nat, size: nat): nat
      reads this
    {
      FirstBlocked(Map(), tree, |free|, va, pa, SpanPages(va, size))
    }

    /**
     `map_pages`. `at` is how many pages were mapped before it stopped, which is known before the call; a
     failed call leaves the address space as it was exactly when none of those pages was mapped before.
     */
    method MapPages(va: u64, pa: u64, size: u64, flags: nat) returns (ok: bool, at: nat)
      requires Valid()
      modifies this
      ensures Valid() && held == old(held) && |mem| == old(|mem|)
      ensures |tree.Keys| + |free| == old(|tree.Keys| + |free|) && Owned() == old(Owned()) && KeepsTables(old(tree), tree)
      ensures at == old(StopsAt(va, pa, size)) && (ok <==> at == SpanPages(va, size))
      ensures ok ==> Installed(old(Map()), va, pa, flags, at, Map()) && KeepsFrames(old(Map()), Map())
      ensures ok ==> HasTables(old(tree), va, at, tree)
      ensures !ok ==> Map() == old(Map()) - Keys(va, at)
      ensures !ok ==> (Map() == old(Map()) <==> Keys(va, at) !! old(Map()).Keys)
      ensures old(Ready()) ==> (Ready() <==> Keys(va, at) !! Owned() || (ok && And(flags, PTE_W) != 0))
      ensures old(Ready()) && Ready() ==>
                MapRunV(old(mem), root, old(freelist), RoundDown(va), RoundDown(pa), flags, 0, SpanPages(va, size))
                == Some((mem, freelist, ok))
    {
      hide TreeOk, Space, FreeOk, Separate, Closed, Blocked, And, RoundDown, RoundUp, PaAt, OwnedFrames, SpanPages,
           Keys, KeepsFrames, KeepsTables, Installed, HasTables, FirstBlocked, Usable, MapRunV, MidwayAt;
      RoundDownIs(va);
      RoundDownIs(pa);
      SpanIs(va, size);
      var vaStart := RoundDown(va);
      var vaEnd := RoundUp((va + size) % WORD_LIMIT);
      var paCur := RoundDown(pa);
      ghost var s := Now();
      ghost var r := Range(va, pa, flags, SpanPages(va, size));
      var addr := vaStart;
      var k := 0;
      PaAtStart(pa);
      TreeIsClosed(mem, root, tree);
      NotStarted(s, r, root);
      while addr < vaEnd
        invariant 0 <= k <= r.n && addr == vaStart + k * PGSIZE && paCur == PaAt(pa, k)
        invariant Valid() && held == old(held) && |mem| == old(|mem|) && Midway(s, r, k)
        decreases r.n - k
      {
        var done := MapNext(addr, paCur, flags, k, s, r);
        if !done {
          RollBackTo(va, vaStart, addr, k, s, r);
          return false, k;
        }
        PaAtNext(pa, k);
        paCur := (paCur + PGSIZE) % WORD_LIMIT;
        addr := addr + PGSIZE;
        k := k + 1;
      }
      AllMapped(s, r, root, Now());
      return true, k;
    }

    /** The state of the loop of `map_pages` after k pages. */
    ghost predicate Midway(s: Start, r: Range, k: nat)
      reads this
    {
      MidwayAt(s, r, k, root, Now())
    }

    /** When page k could not be mapped, before the rollback. */
    ghost predicate Stuck(s: Start, r: Range, k: nat)
      reads this
    {
      StuckAt(s, r, k, root, Now())
    }

    ghost function Now(): Start
      reads this
    {
      Start(Map(), tree, |free|, mem, freelist, Ready(), Owned())
    }

    /** The body of the loop of `map_pages`. */
    method MapNext(addr: u64, paCur: u64, flags: nat, ghost k: nat, ghost s: Start, ghost r: Range) returns (done: bool)
      requires Valid() && Midway(s, r, k) && k < r.n && flags == r.flags && r.pa < WORD_LIMIT && r.va < WORD_LIMIT
      requires addr == RoundDown(r.va) + k * PGSIZE && paCur == PaAt(r.pa, k)
      modifies this
      ensures Valid() && held == old(held) && |mem| == old(|mem|)
      ensures if done then Midway(s, r, k + 1) else Stuck(s, r, k)
    {
      hide TreeOk, Space, FreeOk, Separate, Key, Vpn, Grown, Missing, Conflict, RoundDown, PaAt, OwnedFrames,
           LeafFor, KeepsFrames, KeepsTables, Usable, MapPageV, MidwayAt, StuckAt;
      ghost var before, free1 := Now(), free;
      RoundDownIs(r.va);
      KeyIsVpn(r.va, k, addr);
      done := MapPage(addr, paCur, flags);
      NextPage(s, r, k, root, before, free1, done, Now(), free);
    }

    /** The rollback of `map_pages`. */
    method RollBackTo(va: u64, first: u64, limit: u64, ghost k: nat, ghost s: Start, ghost r: Range)
      requires Valid() && Stuck(s, r, k) && va == r.va && first == RoundDown(va) && limit == first + k * PGSIZE
      requires s.ready == Usable(s.space, s.owned)
      modifies this
      ensures Valid() && held == old(held) && |mem| == old(|mem|) && Owned() == s.owned
      ensures |tree.Keys| + |free| == |s.tree.Keys| + s.nfree && KeepsTables(s.tree, tree)
      ensures Map() == s.space - Keys(va, k) && (Map() == s.space <==> Keys(va, k) !! s.space.Keys)
      ensures s.ready ==> (Ready() <==> Keys(va, k) !! Owned())
      ensures s.ready && Ready() ==>
                MapRunV(s.mem, root, s.head, RoundDown(r.va), RoundDown(r.pa), r.flags, 0, r.n)
                == Some((mem, freelist, false))
    {
      hide TreeOk, Space, FreeOk, Separate, And, RoundDown, OwnedFrames, Keys, KeepsFrames, KeepsTables, Installed,
           FirstBlocked, Usable, MapRunV, UnmapRunV;
      RoundDownIs(va);
      ghost var space1 := Map();
      UnmapRun(va, first, limit, k);
      RemovalIsVisible(s.space, Keys(va, k));
      RollBack(s.space, r.va, r.pa, r.flags, k, space1);
      if s.ready {
        UsableAfterRemoval(s.space, s.owned, Keys(va, k));
      }
    }

    /**
     `map_mmio`. On success every byte of the range translates to itself, writable and uncached.
     (An entry holds 36 bits of frame number, hence "itself" modulo 2^48.)
     */
    method MapMmio(pa: u64, size: u64) returns (r: nat, ok: bool, at: nat)
      requires Valid()
      modifies this
      ensures Valid() && held == old(held) && |mem| == old(|mem|)
      ensures |tree.Keys| + |free| == old(|tree.Keys| + |free|) && Owned() == old(Owned()) && KeepsTables(old(tree), tree)
      ensures r == if ok then pa else 0
      ensures at == old(StopsAt(pa, pa, size)) && (ok <==> at == SpanPages(pa, size))
      ensures ok ==> Installed(old(Map()), pa, pa, Or(PTE_W, PTE_PCD), at, Map()) && KeepsFrames(old(Map()), Map())
      ensures ok && pa + size + PGSIZE <= WORD_LIMIT ==>
                forall x :: pa <= x < pa + size ==>
                  PhysOf(Map(), x) == x % 0x1_0000_0000_0000 && Vpn(x) in Map() && Uncached(Map()[Vpn(x)])
      ensures !ok ==> Map() == old(Map()) - Keys(pa, at)
      ensures old(Ready()) ==> (Ready() <==> ok || Keys(pa, at) !! Owned())
      ensures old(Ready()) && Ready() ==>
                MapRunV(old(mem), root, old(freelist), RoundDown(pa), RoundDown(pa), Or(PTE_W, PTE_PCD), 0,
                        SpanPages(pa, size)) == Some((mem, freelist, ok))
    {
      hide TreeOk, Space, FreeOk, Separate, Key, Vpn, Installed, OwnedFrames, PathsUpTo, SpanPages, RoundDown,
           Keys, PhysOf, Uncached, KeepsFrames, KeepsTables, HasTables, FirstBlocked, Usable, MapRunV, Or, And;
      RoundDownIs(pa);
      var base := RoundDown(pa);
      RoundDownIs(base);
      var mapSize := (size + (pa - base)) % WORD_LIMIT;
      MmioSpan(pa, size, base);
      SamePages(pa, base, size);
      SameStop(Map(), tree, |free|, pa, base, SpanPages(pa, size));
      MmioFlags();
      ok, at := MapPages(base, base, mapSize, Or(PTE_W, PTE_PCD));
      SameKeys(pa, base, at);
      if ok {
        SameInstalled(old(Map()), Map(), pa, base, Or(PTE_W, PTE_PCD), at);
      }
      if ok && pa + size + PGSIZE <= WORD_LIMIT {
        MmioBytes(old(Map()), Map(), pa, base, size, mapSize);
      }
      r := if ok then pa else 0;
    }

    /** One page of `kinit`, the first n having been freed. */
    method KinitPage(p: u64, ghost first: nat, ghost n: nat, ghost free0: seq<nat>, ghost held0: set<nat>) returns (ok: bool)
      requires Valid() && p == (first + n) * PGSIZE
      requires free == Descending(first, n) + free0 && held == held0 - Frames(Descending(first, n))
      requires kend <= p < PHYSTOP ==> first + n !in free0 && first + n !in tree.Values
      modifies this
      ensures Valid() && tree == old(tree) && Map() == old(Map()) && |mem| == old(|mem|)
      ensures ok <==> kend <= p < PHYSTOP
      ensures var m := if ok then n + 1 else n;
              free == Descending(first, m) + free0 && held == held0 - Frames(Descending(first, m))
    {
      hide TreeOk, Space, FreeOk, Separate, Descending, Frames, OwnedFrames, KfreeV, Reaches, FreePage;
      assert p / PGSIZE == first + n && p % PGSIZE == 0;
      DescendingMembers(first, n);
      DescendingNext(first, n);
      ok := Kfree(p);
    }

    /**
     `kinit`: free the pages p of the range with p + PGSIZE < stop, in ascending order.
     The result is false when `kfree` panics, after n pages.
     */
    method Kinit(start: u64, stop: u64) returns (ok: bool, ghost n: nat)
      requires Valid()
      requires forall f :: RoundUp(start) <= f * PGSIZE < PHYSTOP && f * PGSIZE + PGSIZE < stop ==>
                 f !in free && f !in tree.Values
      modifies this
      ensures Valid() && tree == old(tree) && Map() == old(Map()) && |mem| == old(|mem|)
      ensures ok <==> var count := PageCount(RoundUp(start), stop);
                      && !Endless(stop)
                      && (count == 0 || (kend <= RoundUp(start) && RoundUp(start) + (count - 1) * PGSIZE < PHYSTOP))
      ensures ok ==> n == PageCount(RoundUp(start), stop)
      ensures free == Descending(RoundUp(start) / PGSIZE, n) + old(free)
      ensures held == old(held) - Frames(Descending(RoundUp(start) / PGSIZE, n))
    {
      hide TreeOk, Space, FreeOk, Separate, RoundUp, Descending, Frames, PageCount, Endless;
      RoundUpAligned(start);
      var p := RoundUp(start);
      ghost var first := p / PGSIZE;
      n := 0;
      DescendingNone(first);
      while (p + PGSIZE) % WORD_LIMIT < stop
        invariant p == (first + n) * PGSIZE && p < WORD_LIMIT
        invariant Valid() && tree == old(tree) && Map() == old(Map()) && |mem| == old(|mem|)
        invariant n > 0 ==> kend <= first * PGSIZE && p < PHYSTOP + PGSIZE && p < stop
        invariant free == Descending(first, n) + old(free)
        invariant held == old(held) - Frames(Descending(first, n))
        decreases WORD_LIMIT - p
      {
        KinitNext(first, n, p, stop);
        var done := KinitPage(p, first, n, old(free), old(held));
        if !done {
          KinitPanics(first * PGSIZE, stop, n, kend);
          return false, n;
        }
        p := p + PGSIZE;
        n := n + 1;
      }
      KinitEnds(first * PGSIZE, stop, n);
      return true, n;
    }

    /** The loop body of `kvminit`: map one page to itself, replacing whatever was there. */
    method InitPage(addr: u64) returns (ok: bool)
      requires Valid() && addr % PGSIZE == 0
      modifies this
      ensures Valid() && held == old(held) && |mem| == old(|mem|)
      ensures ok <==> Missing(old(tree), Vpn(addr)) <= |old(free)|
      ensures Map() == if ok then old(Map())[Vpn(addr) := LeafFor(addr, PTE_W)] else old(Map())
      ensures ok ==> Grown(old(tree), old(free), Vpn(addr), Missing(old(tree), Vpn(addr)), tree, free)
      ensures |tree.Keys| + |free| == old(|tree.Keys| + |free|) && Owned() == old(Owned())
      ensures old(Ready()) ==> Ready() && InitPageV(old(mem), root, old(freelist), addr) == Some((mem, freelist, ok))
    {
      hide TreeOk, Space, FreeOk, Separate, Vpn, Closed, Grown, Missing, LeafFor, OwnedFrames, Encode, InitEntry,
           Large, LeafOf, PathOf, Index, Usable, WalkV, StoreV, Word;
      ghost var tree0, free0, v := tree, free, Vpn(addr);
      TreeIsClosed(mem, root, tree);
      var pte := Walk(addr, true);
      GrownReach(tree0, free0, v, Min(Missing(tree0, v), |free0|), tree, free, 3);
      if pte.Null? {
        return false;
      }
      InitLeaf(addr);
      ghost var space := Map();
      SetEntry(v, pte, Encode(InitEntry(addr)));
      UsableAfterSelf(space, Owned(), addr);
      return true;
    }

    /**
     `kvminit`, from its rounded first address: map the pages p with p + PGSIZE < stop to themselves,
     replacing whatever was there. The result is false when the source never returns: a walk fails and it
     spins, or the address wraps before it reaches stop.
     */
    method SelfMap(first: u64, stop: u64) returns (ok: bool)
      requires Valid() && first % PGSIZE == 0
      modifies this
      ensures Valid() && held == old(held) && |mem| == old(|mem|)
      ensures |tree.Keys| + |free| == old(|tree.Keys| + |free|) && Owned() == old(Owned()) && (old(Ready()) ==> Ready())
      ensures ok <==> !Endless(stop) &&
                      TablesFor(old(tree), first, PageCount(first, stop)) <= old(|tree.Keys| + |free|)
      ensures ok ==> Installed(old(Map()), first, first, PTE_W, PageCount(first, stop), Map())
      ensures ok ==> HasTables(old(tree), first, PageCount(first, stop), tree)
    {
      hide TreeOk, Space, FreeOk, Separate, Key, Vpn, Closed, Grown, Missing, Installed, LeafFor, PaAt,
           OwnedFrames, PageCount, PathsUpTo, SelfMapped, TablesFor, HasTables, Usable, InitPageV;
      if Endless(stop) {
        return false;
      }
      ghost var count, space0, tree0, total := PageCount(first, stop), Map(), tree, |tree.Keys| + |free|;
      var addr := first;
      ghost var k := 0;
      TreeIsClosed(mem, root, tree);
      SelfMappedNone(space0, tree0, |free|, first);
      PaAtStart(first);
      SelfMapPage(first, stop, k, addr);
      while (addr + PGSIZE) % WORD_LIMIT < stop
        invariant k <= count && addr == PaAt(first, k)
        invariant k < count <==> (addr + PGSIZE) % WORD_LIMIT < stop
        invariant Valid() && held == old(held) && |mem| == old(|mem|) && Owned() == old(Owned())
        invariant old(Ready()) ==> Ready()
        invariant SelfMapped(space0, tree0, total, first, k, Map(), tree, |free|) && |tree.Keys| + |free| == total
        decreases count - k
      {
        SelfMapPage(first, stop, k, addr);
        ghost var space1, tree1, free1 := Map(), tree, free;
        var done := InitPage(addr);
        SelfMappedStep(space0, tree0, total, first, k, count, space1, tree1, free1, done, tree, free);
        if !done {
          return false;
        }
        PaAtNext(first, k);
        addr := (addr + PGSIZE) % WORD_LIMIT;
        k := k + 1;
        SelfMapPage(first, stop, k, addr);
      }
      SelfMappedFits(space0, tree0, total, first, k, Map(), tree, |free|);
      return true;
    }

    /** `kvminit`. */
    method Kvminit(start: u64, stop: u64) returns (ok: bool)
      requires Valid()
      modifies this
      ensures Valid() && held == old(held) && |mem| == old(|mem|)
      ensures |tree.Keys| + |free| == old(|tree.Keys| + |free|) && Owned() == old(Owned()) && (old(Ready()) ==> Ready())
      ensures var first := RoundUp(start);
              var count := PageCount(first, stop);
              && (ok <==> !Endless(stop) && TablesFor(old(tree), first, count) <= old(|tree.Keys| + |free|))
              && (ok ==> Installed(old(Map()), first, first, PTE_W, count, Map()))
              && (ok ==> HasTables(old(tree), first, count, tree))
    {
      hide TreeOk, Space, FreeOk, Separate, Installed, RoundUp, OwnedFrames, PageCount, PathsUpTo,
           TablesFor, HasTables, Usable;
      RoundUpAligned(start);
      ok := SelfMap(RoundUp(start), stop);
    }

    /** `va_to_pa`: frame plus offset for a mapped page, 0 otherwise. */
    method VaToPa(va: u64) returns (pa: nat)
      requires Valid()
      modifies this
      ensures unchanged(this)
      ensures pa == if Vpn(va) in Map() then Map()[Vpn(va)].frame * PGSIZE + va % PGSIZE else 0
      ensures Ready() ==> VaToPaV(mem, root, freelist, va) == Some(pa)
    {
      hide TreeOk, Space, FreeOk, Separate, Grown, PathOf, Index, LeafOf, Lookup, Missing, Decode, Shl, And, Or,
           OwnedFrames, Usable, WalkV, LoadV, Word;
      LookupAt(mem, root, tree, Vpn(va));
      var pte := Walk(va, false);
      if Ready() && pte.Slot? {
        LoadByAddress(mem, root, free, tree, held, pte.frame, pte.index);
      }
      if pte.Null? {
        return 0;
      }
      var entry := Decode(mem[pte.frame][pte.index]);
      if !entry.p {
        return 0;
      }
      JoinOffset(entry.address, va);
      return Or(Shl(entry.address, 12), And(va, PGSIZE - 1));
    }
  }

  /** An entry cannot hold a frame number beyond 36 bits. */
  lemma SpaceFrames(mem: Memory, root: nat)
    ensures forall v :: v in Space(mem, root) ==> Space(mem, root)[v].frame < FRAMES
  {
    hide Resolve, FrameOf, BitAt, Index, PathOf;
    forall w: nat ensures FrameOf(w) < FRAMES {
      FrameReads(w);
    }
  }

  lemma SameVpn(va: nat, page: nat)
    requires page == va - va % PGSIZE
    ensures Vpn(page) == Vpn(va)
  {
    assert page / PGSIZE == va / PGSIZE;
  }

  lemma PaAtStart(pa: nat)
    requires pa < WORD_LIMIT
    ensures PaAt(pa, 0) == pa - pa % PGSIZE
  {
  }

  lemma KeepsSelf(space: map<nat, Leaf>, tree: map<Path, nat>)
    ensures KeepsFrames(space, space) && KeepsTables(tree, tree)
  {
  }

  lemma Finished(space0: map<nat, Leaf>, tree0: map<Path, nat>, nfree0: nat, va: nat, pa: nat, flags: nat, k: nat,
                 space: map<nat, Leaf>, tree: map<Path, nat>, nfree: nat)
    requires Progress(space0, tree0, nfree0, va, pa, flags, k, space, tree, nfree)
    ensures Installed(space0, va, pa, flags, k, space) && HasTables(tree0, va, k, tree)
    ensures Unblocked(space0, tree0, nfree0, va, pa, k)
  {
    hide Installed, PathsUpTo, Unblocked, Closed;
  }

  lemma PaAtNext(pa: nat, k: nat)
    ensures PaAt(pa, k + 1) == (PaAt(pa, k) + PGSIZE) % WORD_LIMIT
  {
  }

  lemma SpanIs(va: nat, size: nat)
    ensures var first, last, n := va - va % PGSIZE, RoundUp((va + size) % WORD_LIMIT), SpanPages(va, size);
            last < WORD_LIMIT && if last <= first then n == 0 else last == first + n * PGSIZE
  {
    hide RoundUp;
    var last := RoundUp((va + size) % WORD_LIMIT);
    RoundUpAligned((va + size) % WORD_LIMIT);
    WholePages(va, last);
  }

  lemma WholePages(va: nat, last: nat)
    requires last % PGSIZE == 0
    ensures va - va % PGSIZE < last ==>
              last == va - va % PGSIZE + ((last - (va - va % PGSIZE)) / PGSIZE) * PGSIZE
  {
    var a, b := va / PGSIZE, last / PGSIZE;
    assert va - va % PGSIZE == a * PGSIZE && last == b * PGSIZE;
  }

  /** An uncached, writable, supervisor-only mapping. */
  predicate Uncached(leaf: Leaf) {
    leaf.rw && leaf.pcd && !leaf.us && !leaf.pwt
  }

  lemma MmioLeaf(x: nat)
    ensures Uncached(LeafFor(x, Or(PTE_W, PTE_PCD)))
  {
    assert Or(PTE_W, PTE_PCD) == 0x12;
  }

  /** The range that `map_mmio` maps: every byte of it translates to itself, uncached. */
  lemma MmioBytes(space0: map<nat, Leaf>, space: map<nat, Leaf>, pa: nat, base: nat, size: nat, mapSize: nat)
    requires Installed(space0, base, base, Or(PTE_W, PTE_PCD), SpanPages(base, mapSize), space)
    requires base == pa - pa % PGSIZE && mapSize == size + (pa - base) && pa + size + PGSIZE <= WORD_LIMIT
    ensures forall x :: pa <= x < pa + size ==>
              PhysOf(space, x) == x % 0x1_0000_0000_0000 && Vpn(x) in space && Uncached(space[Vpn(x)])
  {
    hide Installed, SpanPages, PhysOf, Vpn, LeafFor, Or;
    forall x | pa <= x < pa + size
      ensures PhysOf(space, x) == x % 0x1_0000_0000_0000 && Vpn(x) in space && Uncached(space[Vpn(x)])
    {
      IdentityRange(space0, base, mapSize, Or(PTE_W, PTE_PCD), space, x);
      MmioLeaf(x);
    }
  }

  lemma MmioSpan(pa: nat, size: nat, base: nat)
    requires base <= pa
    ensures pa + size + PGSIZE <= WORD_LIMIT ==> (size + (pa - base)) % WORD_LIMIT == size + (pa - base)
  {
  }

  lemma SamePages(pa: nat, base: nat, size: nat)
    requires base == pa - pa % PGSIZE
    ensures base / PGSIZE == pa / PGSIZE
    ensures SpanPages(base, (size + (pa - base)) % WORD_LIMIT) == SpanPages(pa, size)
  {
    hide RoundUp;
    assert (base + (size + (pa - base)) % WORD_LIMIT) % WORD_LIMIT == (pa + size) % WORD_LIMIT;
  }

  lemma SameKeys(pa: nat, base: nat, k: nat)
    requires base / PGSIZE == pa / PGSIZE
    ensures Keys(base, k) == Keys(pa, k)
  {
    assert forall j: nat :: Key(base, j) == Key(pa, j);
  }

  lemma SameInstalled(space0: map<nat, Leaf>, space: map<nat, Leaf>, pa: nat, base: nat, flags: nat, k: nat)
    requires base / PGSIZE == pa / PGSIZE && Installed(space0, base, base, flags, k, space)
    ensures Installed(space0, pa, pa, flags, k, space)
  {
    hide LeafFor, Keys;
    SameKeys(pa, base, k);
    forall j | 0 <= j < k ensures Key(pa, j) in space && space[Key(pa, j)] == LeafFor(PaAt(pa, j), flags) {
      assert Key(base, j) == Key(pa, j) && PaAt(base, j) == PaAt(pa, j);
    }
  }

  /** Frames first .. first+n-1, last pushed first. */
  function Descending(first: nat, n: nat): seq<nat> {
    seq(n, i requires 0 <= i < n => first + n - 1 - i)
  }

  lemma DescendingNone(first: nat)
    ensures Descending(first, 0) == [] && Frames(Descending(first, 0)) == {}
  {
  }

  lemma DescendingMembers(first: nat, n: nat)
    ensures forall f :: f in Descending(first, n) <==> first <= f < first + n
    ensures |Descending(first, n)| == n
  {
    var s := Descending(first, n);
    forall f | first <= f < first + n ensures f in s {
      assert s[first + n - 1 - f] == f;
    }
  }

  lemma DescendingNext(first: nat, n: nat)
    ensures Descending(first, n + 1) == [first + n] + Descending(first, n)
    ensures Frames(Descending(first, n + 1)) == Frames(Descending(first, n)) + {first + n}
  {
    assert Descending(first, n + 1) == [first + n] + Descending(first, n);
  }

  /** The loop of `kinit` stopped by a panic at page n. */
  lemma KinitNext(first: nat, n: nat, p: nat, stop: nat)
    requires p == (first + n) * PGSIZE && p < WORD_LIMIT && (p + PGSIZE) % WORD_LIMIT < stop < WORD_LIMIT
    ensures p % PGSIZE == 0 && p / PGSIZE == first + n && p + PGSIZE == (first + (n + 1)) * PGSIZE
    ensures p < PHYSTOP ==> p + PGSIZE < stop
    ensures n == 0 ==> p == first * PGSIZE
  {
  }

  lemma KinitPanics(first: nat, stop: nat, n: nat, kend: nat)
    requires first % PGSIZE == 0 && first < WORD_LIMIT && stop < WORD_LIMIT
    requires first + n * PGSIZE < WORD_LIMIT && (first + n * PGSIZE + PGSIZE) % WORD_LIMIT < stop
    requires !(kend <= first + n * PGSIZE < PHYSTOP)
    requires n > 0 ==> kend <= first && first + n * PGSIZE < PHYSTOP + PGSIZE
    ensures var count := PageCount(first, stop);
            !Endless(stop) ==> count > 0 && !(kend <= first && first + (count - 1) * PGSIZE < PHYSTOP)
  {
    if !Endless(stop) {
      if first + PGSIZE == WORD_LIMIT {
        assert first + (PageCount(first, stop) - 1) * PGSIZE >= PHYSTOP;
      } else {
        assert n < PagesBelow(first, stop);
      }
    }
  }

  lemma KinitEnds(first: nat, stop: nat, n: nat)
    requires first % PGSIZE == 0 && first + n * PGSIZE < WORD_LIMIT && stop < WORD_LIMIT
    requires (first + n * PGSIZE + PGSIZE) % WORD_LIMIT >= stop
    requires n > 0 ==> first + n * PGSIZE < PHYSTOP + PGSIZE && first + n * PGSIZE < stop
    ensures !Endless(stop) && n == PageCount(first, stop)
  {
  }

  lemma SelfMapPage(first: nat, stop: nat, k: nat, addr: nat)
    requires first % PGSIZE == 0 && first < WORD_LIMIT && addr == PaAt(first, k) && !Endless(stop)
    requires k <= PageCount(first, stop)
    ensures k < PageCount(first, stop) <==> (addr + PGSIZE) % WORD_LIMIT < stop
    ensures addr % PGSIZE == 0 && Vpn(addr) == Key(first, k)
  {
    hide PageCount;
    PageCountIs(first, stop, k);
    var x := first / PGSIZE + k;
    ModMod(x);
    assert first + k * PGSIZE == x * PGSIZE;
    DivModUnique(x * PGSIZE, WORD_LIMIT, x / WORD_PAGES, (x % WORD_PAGES) * PGSIZE);
  }

  /** What `init_entry` installs. */
  lemma InitLeaf(addr: nat)
    ensures var w := Encode(InitEntry(addr));
            w < WORD_LIMIT && !Large(w) && LeafOf(w) == Some(LeafFor(addr, PTE_W))
  {
    hide Encode, BitAt, FrameOf;
    InitWord(addr);
    FrameReads(addr);
    assert And(PTE_W, PTE_W) != 0 && And(PTE_W, PTE_U) == 0 && And(PTE_W, PTE_PWT) == 0 && And(PTE_W, PTE_PCD) == 0;
  }

  lemma FlaggedLeaf(pa: nat, pagePa: nat, flags: nat)
    requires pagePa == pa - pa % PGSIZE
    ensures var w := Encode(FlaggedEntry(pagePa, flags));
            w < WORD_LIMIT && !Large(w) && LeafOf(w) == Some(LeafFor(pa, flags))
  {
    hide Encode, Decode, BitAt, FrameOf, And;
    FlaggedWord(pagePa, flags);
    FrameReads(pagePa);
    assert pagePa / PGSIZE == pa / PGSIZE;
  }

  /** The address space at v, as decoded from the last-level entry. */
  lemma LookupAt(mem: Memory, root: nat, tree: map<Path, nat>, v: nat)
    requires TreeOk(mem, root, tree) && v < FRAMES
    ensures PathOf(v, 3) in tree ==> tree[PathOf(v, 3)] < |mem|
    ensures v in Space(mem, root) <==> PathOf(v, 3) in tree && Decode(mem[tree[PathOf(v, 3)]][Index(v, 0)]).p
    ensures v in Space(mem, root) ==>
              Space(mem, root)[v].frame == Decode(mem[tree[PathOf(v, 3)]][Index(v, 0)]).address
  {
    hide Decode, Index, Lookup;
    LookupIsTree(mem, root, tree, v);
  }

  lemma TablesAreUsed(mem: Memory, mem': Memory, free: seq<nat>, tree: map<Path, nat>, held: set<nat>, tbl: nat)
    requires Separate(free, tree, held) && tbl in tree.Values
    requires |mem'| == |mem| && forall g :: 0 <= g < |mem| && g != tbl ==> mem'[g] == mem[g]
    ensures forall g :: g in free && g < |mem| ==> mem'[g] == mem[g]
  {
  }

  lemma PathRoot(mem: Memory, root: nat, tree: map<Path, nat>, v: nat)
    requires TreeOk(mem, root, tree)
    ensures PathOf(v, 0) in tree && tree[PathOf(v, 0)] == root
  {
  }

  lemma PathStep(v: nat, d: nat)
    requires d <= 2
    ensures PathOf(v, d + 1) == Child(PathOf(v, d), Index(v, 3 - d)) && Depth(PathOf(v, d)) == d
  {
  }

  /** What one step of the walk reads. */
  lemma StepDown(mem: Memory, root: nat, tree: map<Path, nat>, p: Path, i: nat)
    requires TreeOk(mem, root, tree) && p in tree && Depth(p) < 3 && i < ENTRIES
    ensures tree[p] < |mem|
    ensures Decode(mem[tree[p]][i]).p <==> Child(p, i) in tree
    ensures Child(p, i) in tree ==> Decode(mem[tree[p]][i]).address == tree[Child(p, i)]
  {
    hide FrameOf, BitAt;
    assert InteriorOk(mem, tree, p, i);
  }
}
