/**
 How the kernel reaches its own pages. `kalloc`, `kfree` and `walk` use physical addresses as
 pointers, so every access goes through the page tables they maintain. Here each of them is
 written as the sequence of loads and stores by virtual address that the source performs, any of
 which may fault; while the pages involved are usable, that is, mapped to themselves and
 writable, no access faults and each one reaches the frame of its address.
 */
module Addressing {
  import opened Bits
  import opened PageEntry
  import opened PageTree
  import opened Wrappers

  /** A pointer to a page-table entry. */
  datatype Pte = Null | Slot(frame: nat, index: nat)

  const JUNK: u64 := 0x0505_0505_0505_0505

  function JunkPage(): Page {
    seq(ENTRIES, _ => JUNK)
  }

  /** Byte b of a word, in memory order. */
  function ByteOf(w: nat, b: nat): nat {
    Shr(w, 8 * b) % 256
  }

  /** Every byte of a page from `kalloc` is 5, every byte of a cleared page is 0. */
  lemma FilledBytes(i: nat, b: nat)
    requires i < ENTRIES && b < 8
    ensures ByteOf(JunkPage()[i], b) == 5 && ByteOf(ZeroPage()[i], b) == 0
  {
    hide ByteOf;
    JunkBytes(b);
    ByteShift(0, b);
  }

  lemma JunkBytes(b: nat)
    requires b < 8
    ensures ByteOf(JUNK, b) == 5
  {
    hide ByteOf;
    ByteShift(JUNK, b);
    assert JUNK / 0x100 == 0x05_0505_0505_0505;
    assert JUNK / 0x1_0000 == 0x0505_0505_0505;
    assert JUNK / 0x100_0000 == 0x05_0505_0505;
    assert JUNK / 0x1_0000_0000 == 0x0505_0505;
    assert JUNK / 0x100_0000_0000 == 0x05_0505;
    assert JUNK / 0x1_0000_0000_0000 == 0x0505;
    assert JUNK / 0x100_0000_0000_0000 == 0x05;
  }

  lemma ByteShift(w: nat, b: nat)
    requires b < 8
    ensures ByteOf(w, b) == if b == 0 then w % 0x100 else if b == 1 then (w / 0x100) % 0x100
                            else if b == 2 then (w / 0x1_0000) % 0x100 else if b == 3 then (w / 0x100_0000) % 0x100
                            else if b == 4 then (w / 0x1_0000_0000) % 0x100
                            else if b == 5 then (w / 0x100_0000_0000) % 0x100
                            else if b == 6 then (w / 0x1_0000_0000_0000) % 0x100 else (w / 0x100_0000_0000_0000) % 0x100
  {
    hide Shr, Pow2;
    BytePowers();
    ShrDivides(w, 8 * b);
  }

  lemma BytePowers()
    ensures Pow2(0) == 1 && Pow2(8) == 0x100 && Pow2(16) == 0x1_0000 && Pow2(24) == 0x100_0000
    ensures Pow2(32) == 0x1_0000_0000 && Pow2(40) == 0x100_0000_0000 && Pow2(48) == 0x1_0000_0000_0000
    ensures Pow2(56) == 0x100_0000_0000_0000
  {
    hide Pow2;
    PowersOfTwo();
    Pow2Adds(8, 8);
    Pow2Adds(16, 8);
    Pow2Adds(24, 8);
    Pow2Adds(32, 8);
    Pow2Adds(48, 8);
  }

  /** Page f is mapped to itself and writable. */
  ghost predicate Reaches(space: map<nat, Leaf>, f: nat) {
    f in space && space[f].frame == f && space[f].rw
  }

  ghost predicate Usable(space: map<nat, Leaf>, frames: set<nat>) {
    forall f :: f in frames ==> Reaches(space, f)
  }

  /** The address of word i of frame f. */
  function Word(f: nat, i: nat): nat {
    f * PGSIZE + 8 * i
  }

  /** A load of one word; None for a page fault. */
  ghost function LoadV(mem: Memory, root: nat, addr: nat): Option<u64> {
    match Lookup(mem, root, Vpn(addr))
    case None => None
    case Some(leaf) => if leaf.frame < |mem| then Some(mem[leaf.frame][addr % PGSIZE / 8]) else None
  }

  /** A store of one word. Supervisor writes respect the write bit at every level, because CR0.WP is set. */
  ghost function StoreV(mem: Memory, root: nat, addr: nat, w: u64): Option<Memory> {
    match Lookup(mem, root, Vpn(addr))
    case None => None
    case Some(leaf) =>
      if CanWrite(mem, root, Vpn(addr)) && leaf.frame < |mem|
      then Some(mem[leaf.frame := mem[leaf.frame][addr % PGSIZE / 8 := w]]) else None
  }

  /** `memset` of the first n words of the page of frame f. */
  ghost function FillV(mem: Memory, root: nat, f: nat, w: u64, n: nat): Option<Memory>
    decreases n
  {
    if n == 0 then Some(mem)
    else
      match FillV(mem, root, f, w, n - 1)
      case None => None
      case Some(m) => StoreV(m, root, Word(f, n - 1), w)
  }

  lemma WordIs(f: nat, i: nat)
    requires f < FRAMES && i < ENTRIES
    ensures Vpn(Word(f, i)) == f && Word(f, i) % PGSIZE / 8 == i
  {
    DivModUnique(Word(f, i), PGSIZE, f, 8 * i);
    SmallRemainder(f, FRAMES);
  }

  lemma LoadIs(mem: Memory, root: nat, f: nat, i: nat)
    requires Reaches(Space(mem, root), f) && f < |mem| && i < ENTRIES
    ensures LoadV(mem, root, Word(f, i)) == Some(mem[f][i])
  {
    hide Lookup, Word, Vpn;
    WordIs(f, i);
  }

  lemma StoreIs(mem: Memory, root: nat, tree: map<Path, nat>, f: nat, i: nat, w: u64)
    requires TreeOk(mem, root, tree) && Reaches(Space(mem, root), f) && f < |mem| && i < ENTRIES
    ensures StoreV(mem, root, Word(f, i), w) == Some(mem[f := mem[f][i := w]])
  {
    hide Lookup, Word, Vpn, TreeOk, CanWrite;
    WordIs(f, i);
    WritableByLeaf(mem, root, tree, f);
  }

  /** A page whose first n words are w. */
  function Filled(page: Page, w: u64, n: nat): Page
    requires n <= ENTRIES
  {
    seq(n, _ => w) + page[n..]
  }

  /** Filling a page that holds no table does not disturb the translations it uses. */
  lemma {:induction false} FillIs(mem: Memory, root: nat, tree: map<Path, nat>, f: nat, w: u64, n: nat)
    requires TreeOk(mem, root, tree) && Reaches(Space(mem, root), f) && f < |mem| && f !in tree.Values && n <= ENTRIES
    ensures FillV(mem, root, f, w, n) == Some(mem[f := Filled(mem[f], w, n)])
    decreases n
  {
    hide TreeOk, Space, StoreV, Word, Reaches;
    if n == 0 {
      assert Filled(mem[f], w, 0) == mem[f];
      assert mem[f := mem[f]] == mem;
    } else {
      FillIs(mem, root, tree, f, w, n - 1);
      var m := mem[f := Filled(mem[f], w, n - 1)];
      WriteElsewhere(mem, m, root, tree);
      StoreIs(m, root, tree, f, n - 1, w);
      assert Filled(mem[f], w, n - 1)[n - 1 := w] == Filled(mem[f], w, n);
      assert m[f := Filled(mem[f], w, n)] == mem[f := Filled(mem[f], w, n)];
    }
  }

  lemma FillPageIs(mem: Memory, root: nat, tree: map<Path, nat>, f: nat, w: u64)
    requires TreeOk(mem, root, tree) && Reaches(Space(mem, root), f) && f < |mem| && f !in tree.Values
    ensures FillV(mem, root, f, w, ENTRIES) == Some(mem[f := seq(ENTRIES, _ => w)])
    ensures TreeOk(mem[f := seq(ENTRIES, _ => w)], root, tree)
    ensures Space(mem[f := seq(ENTRIES, _ => w)], root) == Space(mem, root)
  {
    hide TreeOk, Space, FillV, Reaches;
    FillIs(mem, root, tree, f, w, ENTRIES);
    assert Filled(mem[f], w, ENTRIES) == seq(ENTRIES, _ => w);
    WriteElsewhere(mem, mem[f := seq(ENTRIES, _ => w)], root, tree);
  }

  // The functions of the source, access by access

  /** `kalloc`: memory, list head and result. */
  ghost function KallocV(mem: Memory, root: nat, head: u64): Option<(Memory, u64, u64)> {
    if head == 0 then Some((mem, head, 0))
    else
      match LoadV(mem, root, head)
      case None => None
      case Some(next) =>
        match FillV(mem, root, head / PGSIZE, JUNK, ENTRIES)
        case None => None
        case Some(m) => Some((m, next, head))
  }

  lemma KallocIs(mem: Memory, root: nat, tree: map<Path, nat>, f: nat)
    requires TreeOk(mem, root, tree) && Reaches(Space(mem, root), f) && f < |mem| && f !in tree.Values
    requires 0 < f * PGSIZE < WORD_LIMIT
    ensures KallocV(mem, root, f * PGSIZE) == Some((mem[f := JunkPage()], mem[f][0], f * PGSIZE))
  {
    hide TreeOk, Space, LoadV, FillV, Reaches;
    LoadIs(mem, root, f, 0);
    FillPageIs(mem, root, tree, f, JUNK);
  }

  /** `kfree` of an address that passes its test: memory and list head. */
  ghost function KfreeV(mem: Memory, root: nat, head: u64, pa: u64): Option<(Memory, u64)> {
    match FillV(mem, root, pa / PGSIZE, 0, ENTRIES)
    case None => None
    case Some(m) =>
      match StoreV(m, root, pa, head)
      case None => None
      case Some(m') => Some((m', pa))
  }

  /** A free page: its first word links to the next one. */
  function FreePage(head: u64): Page {
    ZeroPage()[0 := head]
  }

  lemma KfreeIs(mem: Memory, root: nat, tree: map<Path, nat>, head: u64, f: nat)
    requires TreeOk(mem, root, tree) && Reaches(Space(mem, root), f) && f < |mem| && f !in tree.Values
    requires f * PGSIZE < WORD_LIMIT
    ensures KfreeV(mem, root, head, f * PGSIZE) == Some((mem[f := FreePage(head)], f * PGSIZE))
  {
    hide TreeOk, Space, StoreV, FillV, Reaches;
    FillPageIs(mem, root, tree, f, 0);
    var m := mem[f := ZeroPage()];
    StoreIs(m, root, tree, f, 0, head);
    assert m[f := FreePage(head)] == mem[f := FreePage(head)];
  }

  /** The missing-table branch of `walk`: allocate, clear, link; the result is 0 when there is no page. */
  ghost function LinkV(mem: Memory, root: nat, head: u64, tbl: nat, index: nat): Option<(Memory, u64, u64)> {
    match KallocV(mem, root, head)
    case None => None
    case Some((m, next, r)) =>
      if r == 0 then Some((m, next, 0))
      else
        match FillV(m, root, r / PGSIZE, 0, ENTRIES)
        case None => None
        case Some(m1) =>
          if Encode(InitEntry(r)) >= WORD_LIMIT then None
          else
            match StoreV(m1, root, Word(tbl, index), Encode(InitEntry(r)))
            case None => None
            case Some(m2) => Some((m2, next, r))
  }

  lemma LinkIs(mem: Memory, root: nat, tree: map<Path, nat>, f: nat, tbl: nat, index: nat)
    requires TreeOk(mem, root, tree) && Reaches(Space(mem, root), f) && f < |mem| && f !in tree.Values
    requires 0 < f * PGSIZE < WORD_LIMIT
    requires tbl in tree.Values && tbl < |mem| && Reaches(Space(mem, root), tbl) && index < ENTRIES
    requires Encode(InitEntry(f * PGSIZE)) < WORD_LIMIT
    ensures LinkV(mem, root, f * PGSIZE, tbl, index) ==
              Some((mem[f := ZeroPage()][tbl := mem[tbl][index := Encode(InitEntry(f * PGSIZE))]],
                    mem[f][0], f * PGSIZE))
  {
    hide TreeOk, Space, StoreV, FillV, Reaches, KallocV, Encode, InitEntry;
    var w := Encode(InitEntry(f * PGSIZE));
    KallocIs(mem, root, tree, f);
    var m := mem[f := JunkPage()];
    WriteElsewhere(mem, m, root, tree);
    FillPageIs(m, root, tree, f, 0);
    var m1 := m[f := ZeroPage()];
    assert m1 == mem[f := ZeroPage()];
    StoreIs(m1, root, tree, tbl, index, w);
  }

  /** `walk` from the table in frame tbl at the given level on: memory, list head and the entry found. */
  ghost function WalkV(mem: Memory, root: nat, head: u64, tbl: nat, va: nat, level: nat, alloc: bool)
    : Option<(Memory, u64, Pte)>
    decreases level
  {
    var index := And(Shr(va, 12 + level * 9), 0x1FF);
    if level == 0 then Some((mem, head, Slot(tbl, index)))
    else
      match LoadV(mem, root, Word(tbl, index))
      case None => None
      case Some(w) =>
        if Decode(w).p then WalkV(mem, root, head, Decode(w).address, va, level - 1, alloc)
        else if !alloc then Some((mem, head, Null))
        else
          match LinkV(mem, root, head, tbl, index)
          case None => None
          case Some((m, next, r)) =>
            if r == 0 then Some((m, next, Null)) else WalkV(m, root, next, r / PGSIZE, va, level - 1, alloc)
  }

  /** The second half of `map_page`, on the entry that the walk found. */
  ghost function MapEntryV(mem: Memory, root: nat, t: nat, i: nat, page: nat, flags: nat): Option<(Memory, bool)> {
    match LoadV(mem, root, Word(t, i))
    case None => None
    case Some(w) =>
      if Decode(w).p && Shl(Decode(w).address, 12) != page then Some((mem, false))
      else if Encode(FlaggedEntry(page, flags)) >= WORD_LIMIT then None
      else
        match StoreV(mem, root, Word(t, i), Encode(FlaggedEntry(page, flags)))
        case None => None
        case Some(m) => Some((m, true))
  }

  /** `map_page`: memory, list head and whether it succeeded. */
  ghost function MapPageV(mem: Memory, root: nat, head: u64, va: nat, pa: nat, flags: nat): Option<(Memory, u64, bool)> {
    match WalkV(mem, root, head, root, RoundDown(va), 3, true)
    case None => None
    case Some((m, next, Null)) => Some((m, next, false))
    case Some((m, next, Slot(t, i))) =>
      match MapEntryV(m, root, t, i, RoundDown(pa), flags)
      case None => None
      case Some((m', ok)) => Some((m', next, ok))
  }

  /** The loop body of `kvminit`: memory, list head and whether the walk found an entry. */
  ghost function InitPageV(mem: Memory, root: nat, head: u64, addr: nat): Option<(Memory, u64, bool)> {
    match WalkV(mem, root, head, root, addr, 3, true)
    case None => None
    case Some((m, next, Null)) => Some((m, next, false))
    case Some((m, next, Slot(t, i))) =>
      if Encode(InitEntry(addr)) >= WORD_LIMIT then None
      else
        match StoreV(m, root, Word(t, i), Encode(InitEntry(addr)))
        case None => None
        case Some(m') => Some((m', next, true))
  }

  /** `unmap_page`. */
  ghost function UnmapPageV(mem: Memory, root: nat, head: u64, va: nat): Option<Memory> {
    match WalkV(mem, root, head, root, RoundDown(va), 3, false)
    case None => None
    case Some((m, _, Null)) => Some(m)
    case Some((m, _, Slot(t, i))) =>
      match LoadV(m, root, Word(t, i))
      case None => None
      case Some(w) => if Decode(w).p then StoreV(m, root, Word(t, i), 0) else Some(m)
  }

  /** `va_to_pa`. */
  ghost function VaToPaV(mem: Memory, root: nat, head: u64, va: nat): Option<nat> {
    match WalkV(mem, root, head, root, va, 3, false)
    case None => None
    case Some((_, _, Null)) => Some(0)
    case Some((m, _, Slot(t, i))) =>
      match LoadV(m, root, Word(t, i))
      case None => None
      case Some(w) => Some(if Decode(w).p then Or(Shl(Decode(w).address, 12), And(va, PGSIZE - 1)) else 0)
  }

  /** The first n calls of the loop of `unmap_pages`, from the page of address first. */
  ghost function UnmapRunV(mem: Memory, root: nat, head: u64, first: nat, n: nat): Option<Memory>
    decreases n
  {
    if n == 0 then Some(mem)
    else
      match UnmapRunV(mem, root, head, first, n - 1)
      case None => None
      case Some(m) =>
        UnmapPageV(m, root, head, first + (n - 1) * PGSIZE)
  }

  /** The loop of `map_pages` from page k of n on, with its rollback. */
  ghost function MapRunV(mem: Memory, root: nat, head: u64, first: nat, pa: nat, flags: nat, k: nat, n: nat)
    : Option<(Memory, u64, bool)>
    decreases n - k
  {
    if k >= n then Some((mem, head, true))
    else
      match MapPageV(mem, root, head, first + k * PGSIZE, (pa + k * PGSIZE) % WORD_LIMIT, flags)
      case None => None
      case Some((m, next, true)) => MapRunV(m, root, next, first, pa, flags, k + 1, n)
      case Some((m, next, false)) =>
        match UnmapRunV(m, root, next, first, k)
        case None => None
        case Some(m') => Some((m', next, false))
  }
}
