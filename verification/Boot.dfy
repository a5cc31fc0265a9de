/**
 The boot order of `kernel/main.c` on top of the tables of `x86_64/boot/boot.asm`: when it
 gets through, and that every page the kernel then accounts for is usable.
 */
module Boot {
  import opened Bits
  import opened PageEntry
  import opened PageTree
  import opened Addressing
  import opened Wrappers
  import opened FreeList
  import opened Walks
  import opened Ranges
  import opened KernelMemory

  const INIT_PHYSTOP: nat := 0x20_0000

  // The boot tables

  ghost function Table3(): Path { Child(Root, 0) }
  ghost function Table2(): Path { Child(Table3(), 0) }
  ghost function Table1(i: nat): Path { Child(Table2(), i) }

  /** One table per level, in the four pages from p4 on. */
  ghost function BootTree(p4: nat): map<Path, nat> {
    map[Root := p4, Table3() := p4 + 1, Table2() := p4 + 2, Table1(0) := p4 + 3]
  }

  /** A boot entry, the address with bits 0 and 1 set, is the entry `init_entry` would write. */
  lemma BootWord(f: nat)
    requires f < FRAMES
    ensures Or(f * PGSIZE, 0x3) == Encode(InitEntry(f * PGSIZE)) < WORD_LIMIT
  {
    hide And, Or, Shl, Pow2, Encode, OrFlags, FrameOf;
    var e := InitEntry(f * PGSIZE);
    PowersOfTwo();
    OrCommutes(f * PGSIZE, 0x3);
    OrDisjoint(0x3, f, 12);
    ShlMultiplies(f, 12);
    FrameReads(f * PGSIZE);
    EncodeIsSum(e);
    BootFlags(e.Flags());
  }

  lemma BootFlags(flags: seq<bool>)
    requires flags == [true, true, false, false, false, false, false, false]
    ensures OrFlags(flags, 8) == 3
  {
    hide OrFlags, Pow2;
    PowersOfTwo();
    OrFlagsNone(flags);
    OrFlagsStep(flags, 0);
    OrFlagsStep(flags, 1);
    OrFlagsStep(flags, 2);
    OrFlagsStep(flags, 3);
    OrFlagsStep(flags, 4);
    OrFlagsStep(flags, 5);
    OrFlagsStep(flags, 6);
    OrFlagsStep(flags, 7);
  }

  lemma OrFlagsNone(flags: seq<bool>)
    ensures OrFlags(flags, 0) == 0
  {
  }

  function BootEntry(f: nat): nat {
    Encode(InitEntry(f * PGSIZE))
  }

  /** A page with one entry, at index 0. */
  ghost function OneEntry(w: nat): seq<nat> {
    [w] + seq(ENTRIES - 1, _ => 0)
  }

  /** The contents of the four boot tables. */
  ghost predicate BootPages(mem: Memory, p4: nat) {
    && p4 + 4 <= |mem|
    && mem[p4] == OneEntry(BootEntry(p4 + 1))
    && mem[p4 + 1] == OneEntry(BootEntry(p4 + 2))
    && mem[p4 + 2] == OneEntry(BootEntry(p4 + 3))
    && IdentityTable(mem[p4 + 3])
  }

  ghost predicate IdentityTable(table: Page) {
    forall i :: 0 <= i < ENTRIES ==> table[i] == BootEntry(i)
  }

  /** `page_tables_setup`: fill four consecutive pages of the zeroed .bss section. */
  method BuildTables(ram: Memory, p4: nat) returns (mem: Memory)
    requires p4 + 4 <= |ram| <= FRAMES && forall f :: p4 <= f < p4 + 4 ==> ram[f] == ZeroPage()
    ensures |mem| == |ram| && BootPages(mem, p4)
    ensures forall f :: 0 <= f < |ram| && !(p4 <= f < p4 + 4) ==> mem[f] == ram[f]
  {
    hide Or, Encode, InitEntry;
    BootWord(p4 + 1);
    BootWord(p4 + 2);
    BootWord(p4 + 3);
    mem := ram;
    mem := mem[p4 := mem[p4][0 := Or((p4 + 1) * PGSIZE, 0x3)]];
    mem := mem[p4 + 1 := mem[p4 + 1][0 := Or((p4 + 2) * PGSIZE, 0x3)]];
    mem := mem[p4 + 2 := mem[p4 + 2][0 := Or((p4 + 3) * PGSIZE, 0x3)]];
    var table := mem[p4 + 3];
    var ecx := 0;
    while ecx < 512
      invariant 0 <= ecx <= 512
      invariant forall i :: 0 <= i < ecx ==> table[i] == BootEntry(i)
    {
      BootWord(ecx);
      table := table[ecx := Or(0x1000 * ecx, 0x3)];
      ecx := ecx + 1;
    }
    mem := mem[p4 + 3 := table];
  }

  /** The boot tables are a well-formed tree ... */
  lemma BootTreeOk(mem: Memory, p4: nat)
    requires BootPages(mem, p4) && |mem| <= FRAMES
    ensures TreeOk(mem, p4, BootTree(p4))
  {
    hide InteriorOk, BootPages, Large;
    var tree := BootTree(p4);
    BootDepths(p4);
    assert p4 + 4 <= |mem| by { BootEntries(mem, p4); }
    forall p, i | p in tree && Depth(p) < 3 && 0 <= i < ENTRIES ensures InteriorOk(mem, tree, p, i) {
      BootInterior(mem, p4, p, i);
    }
    BootEntries(mem, p4);
  }

  lemma BootDepths(p4: nat)
    ensures var tree := BootTree(p4);
            forall p :: p in tree <==> p == Root || p == Table3() || p == Table2() || p == Table1(0)
    ensures Depth(Root) == 0 && Depth(Table3()) == 1 && Depth(Table2()) == 2 && Depth(Table1(0)) == 3
  {
  }

  /** An interior boot table has one entry, at index 0. */
  lemma BootInterior(mem: Memory, p4: nat, p: Path, i: nat)
    requires BootPages(mem, p4) && |mem| <= FRAMES && p in BootTree(p4) && Depth(p) < 3 && i < ENTRIES
    ensures BootTree(p4)[p] < |mem| && InteriorOk(mem, BootTree(p4), p, i)
  {
    hide Present, Writable, User, Large, FrameOf, BootEntry;
    ZeroIsAbsent();
    BootEntryIs(p4 + 1);
    BootEntryIs(p4 + 2);
    BootEntryIs(p4 + 3);
  }

  lemma BootEntryIs(f: nat)
    requires f < FRAMES
    ensures IsBootEntry(f)
  {
    hide Encode, InitEntry, BitAt, FrameOf;
    InitWord(f * PGSIZE);
    assert (f * PGSIZE) / PGSIZE == f;
    SmallRemainder(f, FRAMES);
  }

  lemma ZeroIsAbsent()
    ensures !Present(0)
  {
    ZeroWord();
  }

  ghost predicate NoLarge(table: Page) {
    forall i :: 0 <= i < ENTRIES ==> !Large(table[i])
  }

  lemma BootEntries(mem: Memory, p4: nat)
    requires BootPages(mem, p4)
    ensures p4 + 4 <= |mem| && NoLarge(mem[p4 + 3])
  {
    hide Large, BootEntry, Present, Writable, User, FrameOf;
    var table := mem[p4 + 3];
    forall i | 0 <= i < ENTRIES ensures !Large(table[i]) {
      BootEntryIs(i);
    }
  }

  ghost predicate IsBootEntry(f: nat) {
    var w := BootEntry(f);
    Present(w) && Writable(w) && !User(w) && !Large(w) && FrameOf(w) == f
  }

  /** ... that maps pages 0 to 511 to themselves and nothing else. */
  lemma BootSpace(mem: Memory, p4: nat)
    requires BootPages(mem, p4) && |mem| <= FRAMES
    ensures Installed(map[], 0, 0, PTE_W, 512, Space(mem, p4))
  {
    hide Encode, InitEntry, LeafOf, TreeOk, Lookup, PathOf, Index, LeafFor;
    BootTreeOk(mem, p4);
    var space := Space(mem, p4);
    forall j | 0 <= j < 512 ensures Key(0, j) in space && space[Key(0, j)] == LeafFor(PaAt(0, j), PTE_W) {
      LookupIsTree(mem, p4, BootTree(p4), j);
      LowPath(j);
      InitLeaf(j * PGSIZE);
    }
    forall u | u in space ensures u in Keys(0, 512) {
      LookupIsTree(mem, p4, BootTree(p4), u);
      LowPath(u);
      assert u == Key(0, u);
    }
  }

  /** The pages under the first last-level table are the first 512. */
  lemma LowPath(v: nat)
    requires v < FRAMES
    ensures PathOf(v, 3) == Table1(0) <==> v < 512
    ensures v < 512 ==> Index(v, 0) == v
  {
    Digits(v);
    SmallIndices(v);
    hide Index;
    assert PathOf(v, 1) == Child(Root, Index(v, 3));
    assert PathOf(v, 2) == Child(PathOf(v, 1), Index(v, 2));
    assert PathOf(v, 3) == Child(PathOf(v, 2), Index(v, 1));
  }

  lemma SmallIndices(v: nat)
    ensures v < 512 ==> Index(v, 0) == v && Index(v, 1) == 0 && Index(v, 2) == 0 && Index(v, 3) == 0
  {
  }

  // How many tables the boot call of `kvminit` needs

  const BOOT_PAGES: nat := 32255   // PageCount(INIT_PHYSTOP, PHYSTOP)

  ghost function LeafTables(n: nat): set<Path> {
    set i | 1 <= i < n :: Table1(i)
  }

  lemma {:induction false} LeafTableCount(n: nat)
    requires n >= 1
    ensures |LeafTables(n)| == n - 1
  {
    if n > 1 {
      LeafTableCount(n - 1);
      assert LeafTables(n) == LeafTables(n - 1) + {Table1(n - 1)};
    } else {
      assert LeafTables(n) == {};
    }
  }

  /** Pages 512 to 32767 all lie under the boot tables of the two upper levels. */
  lemma HighPath(v: nat)
    requires 512 <= v < 0x8000
    ensures PathOf(v, 1) == Table3() && PathOf(v, 2) == Table2() && PathOf(v, 3) == Table1(v / 512)
    ensures 1 <= v / 512 < 64
  {
    assert Index(v, 3) == 0 && Index(v, 2) == 0 && Index(v, 1) == v / 512;
    hide Index;
    assert PathOf(v, 1) == Child(Root, Index(v, 3));
    assert PathOf(v, 2) == Child(PathOf(v, 1), Index(v, 2));
    assert PathOf(v, 3) == Child(PathOf(v, 2), Index(v, 1));
  }

  lemma {:induction false} BootPathsUpper(k: nat)
    requires k <= BOOT_PAGES
    ensures PathsUpTo(INIT_PHYSTOP, k) <= {Table3(), Table2()} + LeafTables(64)
  {
    hide PathSet, LeafTables, Table2, Table3, Key;
    if k > 0 {
      BootPathsUpper(k - 1);
      BootKey(k - 1);
      HighPathSet(512 + (k - 1));
    }
  }

  lemma BootKey(k: nat)
    requires k < BOOT_PAGES
    ensures Key(INIT_PHYSTOP, k) == 512 + k
  {
  }

  lemma HighPathSet(v: nat)
    requires 512 <= v < 0x8000
    ensures PathSet(v) <= {Table3(), Table2()} + LeafTables(64)
  {
    hide PathOf, Table2, Table3;
    HighPath(v);
  }

  lemma {:induction false} PathsInclude(va: nat, k: nat, j: nat)
    requires j < k
    ensures PathSet(Key(va, j)) <= PathsUpTo(va, k)
    decreases k
  {
    hide PathSet, Key;
    if j < k - 1 {
      PathsInclude(va, k - 1, j);
    }
  }

  lemma BootPathsLower(k: nat)
    requires k == BOOT_PAGES
    ensures LeafTables(64) <= PathsUpTo(INIT_PHYSTOP, k)
  {
    hide PathOf, Table1, PathsUpTo;
    forall i | 1 <= i < 64 ensures Table1(i) in PathsUpTo(INIT_PHYSTOP, k) {
      var j := (i - 1) * 512;
      PathsInclude(INIT_PHYSTOP, k, j);
      assert Key(INIT_PHYSTOP, j) == i * 512;
      HighPath(i * 512);
    }
  }

  /** The boot call needs 63 new tables: one for each 2 MiB region of [2 MiB, 128 MiB). */
  lemma BootTables(p4: nat, k: nat)
    requires k == BOOT_PAGES
    ensures TablesFor(BootTree(p4), INIT_PHYSTOP, k) == 4 + 63
  {
    hide PathsUpTo;
    var keys, paths := BootTree(p4).Keys, PathsUpTo(INIT_PHYSTOP, k);
    BootPathsUpper(k);
    BootPathsLower(k);
    LeafTableCount(64);
    BootKeyCount(p4);
    assert keys + paths == keys + LeafTables(64);
    assert keys !! LeafTables(64);
  }

  lemma BootKeyCount(p4: nat)
    ensures |BootTree(p4).Keys| == 4
    ensures BootTree(p4).Keys == {Root, Table3(), Table2(), Table1(0)}
    ensures BootTree(p4).Values == {p4, p4 + 1, p4 + 2, p4 + 3}
  {
    var t := BootTree(p4);
    assert t.Keys == {Root, Table3(), Table2(), Table1(0)};
    assert t[Root] == p4 && t[Table3()] == p4 + 1 && t[Table2()] == p4 + 2 && t[Table1(0)] == p4 + 3;
  }

  // The boot sequence

  /** Frames lo .. hi-1. */
  ghost function FrameRange(lo: nat, hi: nat): set<nat> {
    if hi <= lo then {} else Frames(Descending(lo, hi - lo))
  }

  lemma InFrameRange(lo: nat, hi: nat)
    ensures forall f :: f in FrameRange(lo, hi) <==> lo <= f < hi
  {
    if lo < hi {
      DescendingMembers(lo, hi - lo);
    }
  }

  /** The boot tables, and every page of the pool except the last one of each region. */
  ghost function PoolFrames(p4: nat, first: nat): set<nat> {
    FrameRange(p4, p4 + 4) + FrameRange(first, 511) + FrameRange(512, 32767)
  }

  lemma UsableRange(space0: map<nat, Leaf>, base: nat, n: nat, space: map<nat, Leaf>, f: nat)
    requires Installed(space0, base, base, PTE_W, n, space) && base / PGSIZE + n <= FRAMES
    ensures base / PGSIZE <= f < base / PGSIZE + n ==> Reaches(space, f)
    ensures f < base / PGSIZE && f in space0 ==> f in space && space[f] == space0[f]
  {
    hide LeafFor, PaAt;
    if base / PGSIZE <= f < base / PGSIZE + n {
      var j := f - base / PGSIZE;
      assert Key(base, j) == f;
      LeafFrame(base, j, PTE_W);
      WritableLeaf(PaAt(base, j));
    } else if f < base / PGSIZE && f in space0 {
      assert f !in Keys(base, n);
    }
  }

  lemma WritableLeaf(pa: nat)
    ensures LeafFor(pa, PTE_W).rw
  {
    assert And(PTE_W, PTE_W) != 0;
  }

  /** After boot and `kvminit`, every page below the last one of the memory is mapped to itself, writable. */
  lemma BootUsable(space0: map<nat, Leaf>, space: map<nat, Leaf>)
    requires Installed(map[], 0, 0, PTE_W, 512, space0)
    requires Installed(space0, INIT_PHYSTOP, INIT_PHYSTOP, PTE_W, BOOT_PAGES, space)
    ensures Usable(space, FrameRange(0, 32767))
  {
    hide Installed, FrameRange;
    InFrameRange(0, 32767);
    forall f | f in FrameRange(0, 32767) ensures Reaches(space, f) {
      UsableRange(map[], 0, 512, space0, f);
      UsableRange(space0, INIT_PHYSTOP, BOOT_PAGES, space, f);
    }
  }

  /** Pages freed by `kinit` join the owned frames. */
  lemma OwnedAfterKinit(first: nat, n: nat, free: seq<nat>, tree: map<Path, nat>, held: set<nat>)
    ensures Frames(Descending(first, n)) == FrameRange(first, first + n)
    ensures OwnedFrames(Descending(first, n) + free, tree, held - Frames(Descending(first, n)))
            == OwnedFrames(free, tree, held) + FrameRange(first, first + n)
  {
    InFrameRange(first, first + n);
    assert Frames(Descending(first, n) + free) == Frames(Descending(first, n)) + Frames(free);
    if n == 0 {
      DescendingNone(first);
    }
  }

  lemma BootCounts(kend: nat)
    requires 0 < kend <= PHYSTOP
    ensures var first := RoundUp(kend) / PGSIZE;
            && RoundUp(kend) == first * PGSIZE && kend <= RoundUp(kend) && first <= 32768
            && PageCount(RoundUp(kend), INIT_PHYSTOP) == if first < 511 then 511 - first else 0
    ensures RoundUp(INIT_PHYSTOP) == INIT_PHYSTOP && PageCount(INIT_PHYSTOP, PHYSTOP) == BOOT_PAGES
  {
    hide RoundUp;
    RoundUpIs(kend);
    RoundUpIs(INIT_PHYSTOP);
  }

  /** The boot tables and `kinit(KEND, 2 MiB)`. */
  method EarlyPool(ram: Memory, p4: nat, kend: nat) returns (k: Kernel)
    requires PHYSTOP <= |ram| * PGSIZE && |ram| <= FRAMES
    requires 0 < p4 && (p4 + 4) * PGSIZE <= kend <= PHYSTOP
    requires forall f :: p4 <= f < p4 + 4 ==> ram[f] == ZeroPage()
    ensures fresh(k) && k.Valid() && k.kend == kend && k.held == {} && k.tree == BootTree(p4)
    ensures Installed(map[], 0, 0, PTE_W, 512, k.Map())
    ensures k.Owned() == FrameRange(p4, p4 + 4) + FrameRange(RoundUp(kend) / PGSIZE, 511)
    ensures |k.free| == PageCount(RoundUp(kend), INIT_PHYSTOP)
  {
    hide TreeOk, Space, FreeOk, Separate, Installed, RoundUp, PageCount, Frames, Descending,
         BootTree, BootPages, OwnedFrames, InPool, FrameRange;
    BootCounts(kend);
    ghost var first := RoundUp(kend) / PGSIZE;
    var mem := BuildTables(ram, p4);
    BootTreeOk(mem, p4);
    BootSpace(mem, p4);
    BootKeyCount(p4);
    k := new Kernel(mem, p4, kend, BootTree(p4));
    var ok, n := k.Kinit(kend, INIT_PHYSTOP);
    FirstPool(p4, first, n, k.free, k.tree, k.held);
  }

  /**
   `kinit(KEND, 2 MiB)`, `kvminit(2 MiB, 128 MiB)`, `kinit(2 MiB, 128 MiB)`. The boot gets past `kvminit`
   exactly when 63 pages are left between the kernel and 2 MiB; then every free page and every table
   page is mapped to itself and writable, so the kernel can use it by its physical address.
   */
  method BootMemory(ram: Memory, p4: nat, kend: nat) returns (k: Kernel, ok: bool)
    requires PHYSTOP <= |ram| * PGSIZE && |ram| <= FRAMES
    requires 0 < p4 && (p4 + 4) * PGSIZE <= kend <= PHYSTOP
    requires forall f :: p4 <= f < p4 + 4 ==> ram[f] == ZeroPage()
    ensures fresh(k) && k.Valid() && k.kend == kend && k.held == {}
    ensures ok <==> RoundUp(kend) + 64 * PGSIZE <= INIT_PHYSTOP
    ensures ok ==> |k.tree.Keys| == 4 + 63
    ensures ok ==> k.Owned() == PoolFrames(p4, RoundUp(kend) / PGSIZE) && k.Ready()
  {
    hide TreeOk, Space, FreeOk, Separate, Installed, RoundUp, PageCount, PathsUpTo, Frames, Descending,
         BootTree, Usable, OwnedFrames, InPool, FrameRange;
    BootCounts(kend);
    ghost var first := RoundUp(kend) / PGSIZE;
    k := EarlyPool(ram, p4, kend);
    ghost var space0 := k.Map();
    BootKeyCount(p4);
    BootTables(p4, BOOT_PAGES);
    ok := k.Kvminit(INIT_PHYSTOP, PHYSTOP);
    if ok {
      BootUsable(space0, k.Map());
      NotPooled(k.free, k.tree, k.held, p4, first);
      ghost var free1 := k.free;
      var ok2, n2 := k.Kinit(INIT_PHYSTOP, PHYSTOP);
      OwnedAfterKinit(512, n2, free1, k.tree, {});
      PoolUsable(k.Map(), p4, first);
    }
  }

  lemma FirstPool(p4: nat, first: nat, n: nat, free: seq<nat>, tree: map<Path, nat>, held: set<nat>)
    requires free == Descending(first, n) && tree == BootTree(p4) && held == {}
    requires n == if first < 511 then 511 - first else 0
    ensures OwnedFrames(free, tree, held) == FrameRange(p4, p4 + 4) + FrameRange(first, 511)
    ensures |free| == n
  {
    hide BootTree, FrameRange;
    BootKeyCount(p4);
    InFrameRange(p4, p4 + 4);
    InFrameRange(first, 511);
    DescendingMembers(first, n);
    hide Descending;
    assert tree.Values == FrameRange(p4, p4 + 4);
    assert Frames(free) == FrameRange(first, 511);
  }

  lemma NotPooled(free: seq<nat>, tree: map<Path, nat>, held: set<nat>, p4: nat, first: nat)
    requires OwnedFrames(free, tree, held) == FrameRange(p4, p4 + 4) + FrameRange(first, 511)
    requires p4 + 4 <= 512
    ensures forall f :: 512 <= f ==> f !in free && f !in tree.Values
  {
    hide FrameRange;
    InFrameRange(p4, p4 + 4);
    InFrameRange(first, 511);
    forall f | 512 <= f ensures f !in free && f !in tree.Values {
      assert f !in OwnedFrames(free, tree, held);
    }
  }

  lemma PoolUsable(space: map<nat, Leaf>, p4: nat, first: nat)
    requires Usable(space, FrameRange(0, 32767)) && p4 + 4 <= 512
    ensures Usable(space, PoolFrames(p4, first))
  {
    hide FrameRange, Reaches;
    InFrameRange(0, 32767);
    InFrameRange(p4, p4 + 4);
    InFrameRange(first, 511);
    InFrameRange(512, 32767);
  }
}
