/**
 The 4-level radix tree of page tables, seen two ways. `Resolve` and `Lookup` follow
 entries through raw memory as the hardware walk does (Intel SDM Volume 3A, section
 4.5). `TreeOk` relates that memory to a map from table positions to the frames that
 hold the tables. The lemmas say how each kind of memory write moves both views.
 */
module PageTree {
  import opened Bits
  import opened PageEntry
  import opened Wrappers

  /** One page of physical memory: 512 words. */
  type Page = s: seq<u64> | |s| == ENTRIES witness seq(ENTRIES, _ => 0)
  type Memory = seq<Page>

  /** A position in the radix tree: the indices followed from the root. */
  datatype Path = Root | Child(parent: Path, index: nat)

  function Depth(p: Path): nat {
    match p
    case Root => 0
    case Child(q, _) => Depth(q) + 1
  }

  /** The virtual page number of an address: its bits 12 to 47. */
  function Vpn(va: nat): (v: nat)
    ensures v < FRAMES
  {
    (va / PGSIZE) % FRAMES
  }

  /** The table index of a page number at a level, 3 being the root table's. */
  function Index(v: nat, level: nat): (i: nat)
    ensures i < ENTRIES
  {
    if level == 0 then v % 512
    else if level == 1 then (v / 0x200) % 512
    else if level == 2 then (v / 0x4_0000) % 512
    else (v / 0x800_0000) % 512
  }

  /** The first n steps of the walk for page number v. */
  function PathOf(v: nat, n: nat): (p: Path)
    requires n <= 4
    ensures Depth(p) == n
  {
    if n == 0 then Root else Child(PathOf(v, n - 1), Index(v, 4 - n))
  }

  /** What a mapped page translates to. */
  datatype Leaf = Leaf(frame: nat, rw: bool, us: bool, pwt: bool, pcd: bool)

  function LeafOf(w: nat): Option<Leaf> {
    var e := Decode(w);
    if e.p then Some(Leaf(e.address, e.rw, e.us, e.pwt, e.pcd)) else None
  }

  /** The frame that the entries along p lead to, read from memory. */
  function Resolve(mem: Memory, root: nat, p: Path): Option<nat> {
    match p
    case Root => Some(root)
    case Child(q, i) =>
      match Resolve(mem, root, q)
      case None => None
      case Some(f) =>
        if f < |mem| && i < ENTRIES && Present(mem[f][i]) then Some(FrameOf(mem[f][i])) else None
  }

  /** The hardware translation of page number v. */
  function Lookup(mem: Memory, root: nat, v: nat): Option<Leaf> {
    match Resolve(mem, root, PathOf(v, 3))
    case None => None
    case Some(f) => if f < |mem| then LeafOf(mem[f][Index(v, 0)]) else None
  }

  /** The address space: every mapped page number and what it translates to. */
  ghost function Space(mem: Memory, root: nat): map<nat, Leaf> {
    map v | 0 <= v < FRAMES && Lookup(mem, root, v).Some? :: Lookup(mem, root, v).value
  }

  // Page numbers and paths

  lemma IndicesDetermine(v: nat, w: nat)
    requires v < FRAMES && w < FRAMES
    requires forall l :: 0 <= l < 4 ==> Index(v, l) == Index(w, l)
    ensures v == w
  {
    Digits(v);
    Digits(w);
    assert Index(v, 0) == Index(w, 0) && Index(v, 1) == Index(w, 1);
    assert Index(v, 2) == Index(w, 2) && Index(v, 3) == Index(w, 3);
  }

  lemma Digits(v: nat)
    requires v < FRAMES
    ensures v == Index(v, 0) + 0x200 * Index(v, 1) + 0x4_0000 * Index(v, 2) + 0x800_0000 * Index(v, 3)
  {
    var a := v / 0x200;
    var b := a / 0x200;
    assert v / 0x4_0000 == b && v / 0x800_0000 == b / 0x200;
  }

  /** Different page numbers have different paths. */
  lemma PathsDiffer(v: nat, w: nat)
    requires v < FRAMES && w < FRAMES
    requires PathOf(v, 3) == PathOf(w, 3) && Index(v, 0) == Index(w, 0)
    ensures v == w
  {
    hide Index;
    assert PathOf(v, 2) == PathOf(w, 2) && PathOf(v, 1) == PathOf(w, 1);
    assert Index(v, 1) == Index(w, 1) && Index(v, 2) == Index(w, 2) && Index(v, 3) == Index(w, 3);
    IndicesDetermine(v, w);
  }

  /** The index computed by `walk` is the digit of the page number. */
  lemma LevelIndex(va: nat, level: nat)
    requires level <= 3
    ensures And(Shr(va, 12 + level * 9), 0x1FF) == Index(Vpn(va), level)
  {
    hide And, Shr, Pow2;
    PowersOfTwo();
    FieldAt(va, 12 + level * 9, 9);
    VpnDigit(va, level);
  }

  lemma VpnDigit(va: nat, level: nat)
    requires level <= 3
    ensures level == 0 ==> Index(Vpn(va), 0) == (va / 0x1000) % 512
    ensures level == 1 ==> Index(Vpn(va), 1) == (va / 0x20_0000) % 512
    ensures level == 2 ==> Index(Vpn(va), 2) == (va / 0x4000_0000) % 512
    ensures level == 3 ==> Index(Vpn(va), 3) == (va / 0x80_0000_0000) % 512
  {
    var x := va / PGSIZE;
    if level == 0 {
      DigitBelow(x, 1, 0x800_0000);
    } else if level == 1 {
      assert va / 0x20_0000 == x / 0x200;
      DigitBelow(x, 0x200, 0x4_0000);
    } else if level == 2 {
      assert va / 0x4000_0000 == x / 0x4_0000;
      DigitBelow(x, 0x4_0000, 0x200);
    } else {
      assert va / 0x80_0000_0000 == x / 0x800_0000;
      DigitBelow(x, 0x800_0000, 1);
    }
  }

  /** Dropping everything from bit 36 up does not change a 9-bit digit below it. */
  lemma DigitBelow(x: nat, d: nat, e: nat)
    requires d > 0 && d * e * 512 == FRAMES
    ensures ((x % FRAMES) / d) % 512 == (x / d) % 512
  {
    var q, r := x / FRAMES, x % FRAMES;
    var m, s := q * e, r / d;
    assert x == q * (d * e * 512) + r;
    assert q * (d * e * 512) == (512 * m) * d by {
      assert d * e * 512 == d * (e * 512);
      assert q * (d * (e * 512)) == (q * (e * 512)) * d;
    }
    assert r == s * d + r % d;
    assert (512 * m + s) * d == (512 * m) * d + s * d;
    DivModUnique(x, d, 512 * m + s, r % d);
  }

  // The tree invariant

  /** Entry i of the interior table at p: present exactly when the child table exists, and then pointing to it. */
  ghost predicate InteriorOk(mem: Memory, tree: map<Path, nat>, p: Path, i: nat)
    requires p in tree && tree[p] < |mem| && i < ENTRIES
  {
    var w := mem[tree[p]][i];
    && (Present(w) <==> Child(p, i) in tree)
    && (Present(w) ==> FrameOf(w) == tree[Child(p, i)] && Writable(w) && !User(w) && !Large(w))
  }

  /**
   `tree` maps every existing table's position to its frame. Distinct positions have distinct
   frames, so each table but the root is pointed to by exactly one present entry, at its own level.
   */
  ghost predicate TreeOk(mem: Memory, root: nat, tree: map<Path, nat>) {
    && Root in tree && tree[Root] == root
    && (forall p :: p in tree ==> Depth(p) <= 3 && tree[p] < |mem|)
    && (forall p :: p in tree && p.Child? ==> p.parent in tree && p.index < ENTRIES)
    && (forall p, q :: p in tree && q in tree && tree[p] == tree[q] ==> p == q)
    && (forall p, i :: p in tree && Depth(p) < 3 && 0 <= i < ENTRIES ==> InteriorOk(mem, tree, p, i))
    && (forall p, i :: p in tree && Depth(p) == 3 && 0 <= i < ENTRIES ==> !Large(mem[tree[p]][i]))
  }

  /**
   A table other than the root is pointed to by exactly one entry of the upper three levels, the one at its own
   index in its own parent, one level up. Nothing points to the root.
   */
  lemma OnePointer(mem: Memory, root: nat, tree: map<Path, nat>, p: Path, q: Path, i: nat)
    requires TreeOk(mem, root, tree) && p in tree && q in tree && Depth(q) < 3 && i < ENTRIES
    ensures tree[q] < |mem|
    ensures Present(mem[tree[q]][i]) && FrameOf(mem[tree[q]][i]) == tree[p] <==>
              p.Child? && q == p.parent && i == p.index
    ensures p.Child? ==> p.parent in tree && Depth(p.parent) + 1 == Depth(p) && p.index < ENTRIES
  {
    hide Present, FrameOf, Writable, User, Large;
    assert InteriorOk(mem, tree, q, i);
  }

  /** Following entries through memory reaches exactly the tables of the tree. */
  lemma {:induction false} ResolveIsTree(mem: Memory, root: nat, tree: map<Path, nat>, p: Path)
    requires TreeOk(mem, root, tree) && Depth(p) <= 3
    ensures Resolve(mem, root, p) == if p in tree then Some(tree[p]) else None
  {
    hide Present, FrameOf, Writable, User, Large;
    match p
    case Root =>
    case Child(q, i) =>
      ResolveIsTree(mem, root, tree, q);
      if q in tree && i < ENTRIES {
        assert InteriorOk(mem, tree, q, i);
      }
  }

  /** Hence the translation of v, read from the last-level table. */
  lemma LookupIsTree(mem: Memory, root: nat, tree: map<Path, nat>, v: nat)
    requires TreeOk(mem, root, tree)
    ensures Lookup(mem, root, v) ==
            if PathOf(v, 3) in tree then LeafOf(mem[tree[PathOf(v, 3)]][Index(v, 0)]) else None
  {
    hide LeafOf, Index;
    ResolveIsTree(mem, root, tree, PathOf(v, 3));
  }

  /** Every entry along p, as the hardware checks for an access, is present and has the given bit set. */
  ghost predicate BitAlong(mem: Memory, root: nat, p: Path, bit: nat) {
    match p
    case Root => true
    case Child(q, i) =>
      && BitAlong(mem, root, q, bit)
      && Resolve(mem, root, p).Some?
      && BitAt(mem[Resolve(mem, root, q).value][i], bit)
  }

  /** User mode may access page v: the user bit is set at all four levels. */
  ghost predicate UserCanAccess(mem: Memory, root: nat, v: nat) {
    BitAlong(mem, root, PathOf(v, 4), 2)
  }

  /** Page v may be written: the write bit is set at all four levels. */
  ghost predicate CanWrite(mem: Memory, root: nat, v: nat) {
    BitAlong(mem, root, PathOf(v, 4), 1)
  }

  /** No page is ever accessible to user mode, whatever `map_page` was asked for: tables are linked supervisor-only. */
  lemma NeverUser(mem: Memory, root: nat, tree: map<Path, nat>, v: nat)
    requires TreeOk(mem, root, tree)
    ensures !UserCanAccess(mem, root, v)
  {
    hide FrameOf, BitAt, Index;
    var i := Index(v, 3);
    assert InteriorOk(mem, tree, Root, i);
    assert PathOf(v, 1) == Child(Root, i);
    ResolveStep(mem, root, Root, i);
    assert !BitAlong(mem, root, PathOf(v, 1), 2);
    assert PathOf(v, 2).parent == PathOf(v, 1);
    assert PathOf(v, 3).parent == PathOf(v, 2);
    assert PathOf(v, 4).parent == PathOf(v, 3);
    assert !BitAlong(mem, root, PathOf(v, 2), 2);
    assert !BitAlong(mem, root, PathOf(v, 3), 2);
  }

  /** A page is writable exactly when its last-level entry says so. */
  lemma WritableByLeaf(mem: Memory, root: nat, tree: map<Path, nat>, v: nat)
    requires TreeOk(mem, root, tree) && v < FRAMES
    ensures CanWrite(mem, root, v) <==> v in Space(mem, root) && Space(mem, root)[v].rw
  {
    hide FrameOf, BitAt, Index, Resolve;
    var t := PathOf(v, 3);
    LookupIsTree(mem, root, tree, v);
    ResolveIsTree(mem, root, tree, t);
    TableWritable(mem, root, tree, t);
    assert PathOf(v, 4) == Child(t, Index(v, 0));
    ResolveStep(mem, root, t, Index(v, 0));
  }

  lemma ResolveStep(mem: Memory, root: nat, q: Path, i: nat)
    requires i < ENTRIES
    ensures Resolve(mem, root, Child(q, i)).Some? <==>
              Resolve(mem, root, q).Some? && Resolve(mem, root, q).value < |mem| && Present(mem[Resolve(mem, root, q).value][i])
  {
    hide FrameOf, BitAt;
  }

  lemma {:induction false} TableWritable(mem: Memory, root: nat, tree: map<Path, nat>, p: Path)
    requires TreeOk(mem, root, tree) && Depth(p) <= 3
    ensures BitAlong(mem, root, p, 1) <==> p in tree
  {
    hide FrameOf, BitAt;
    match p
    case Root =>
    case Child(q, i) =>
      TableWritable(mem, root, tree, q);
      ResolveIsTree(mem, root, tree, q);
      ResolveIsTree(mem, root, tree, p);
      if q in tree && i < ENTRIES {
        assert InteriorOk(mem, tree, q, i);
      }
  }

  /** Two memories agree on the pages of the tree. */
  ghost predicate SameTables(mem: Memory, mem': Memory, tree: map<Path, nat>) {
    |mem'| == |mem| && forall p :: p in tree && tree[p] < |mem| ==> mem'[tree[p]] == mem[tree[p]]
  }

  lemma SpaceFromLookup(mem: Memory, mem': Memory, root: nat)
    requires forall v :: 0 <= v < FRAMES ==> Lookup(mem', root, v) == Lookup(mem, root, v)
    ensures Space(mem', root) == Space(mem, root)
  {
    hide Lookup;
  }

  /** Writing pages that hold no table changes no translation. */
  lemma WriteElsewhere(mem: Memory, mem': Memory, root: nat, tree: map<Path, nat>)
    requires TreeOk(mem, root, tree) && SameTables(mem, mem', tree)
    ensures TreeOk(mem', root, tree) && Space(mem', root) == Space(mem, root)
  {
    hide Present, FrameOf, Writable, User, Large, LeafOf, Index, Lookup;
    forall p, i | p in tree && Depth(p) < 3 && 0 <= i < ENTRIES ensures InteriorOk(mem', tree, p, i) {
      assert InteriorOk(mem, tree, p, i);
    }
    forall v | 0 <= v < FRAMES ensures Lookup(mem', root, v) == Lookup(mem, root, v) {
      LookupIsTree(mem, root, tree, v);
      LookupIsTree(mem', root, tree, v);
    }
    SpaceFromLookup(mem, mem', root);
  }

  function ZeroPage(): Page {
    seq(ENTRIES, _ => 0)
  }

  /** Memory and tree when an empty table in frame f is linked under the missing entry i of the table at p. */
  ghost predicate Links(mem: Memory, mem': Memory, tree: map<Path, nat>, p: Path, i: nat, f: nat, w: u64) {
    && p in tree && tree[p] < |mem| && Depth(p) < 3 && i < ENTRIES && Child(p, i) !in tree
    && f < |mem| && f !in tree.Values
    && Present(w) && FrameOf(w) == f && Writable(w) && !User(w) && !Large(w)
    && mem' == mem[f := ZeroPage()][tree[p] := mem[tree[p]][i := w]]
  }

  /** Linking an empty table extends the tree by one position ... */
  lemma LinkKeepsTree(mem: Memory, mem': Memory, root: nat, tree: map<Path, nat>, p: Path, i: nat, f: nat, w: u64)
    requires TreeOk(mem, root, tree) && Links(mem, mem', tree, p, i, f, w)
    ensures TreeOk(mem', root, tree[Child(p, i) := f])
  {
    hide Present, FrameOf, Writable, User, Large;
    var c := Child(p, i);
    var tree' := tree[c := f];
    ZeroWord();
    assert mem'[f] == ZeroPage();
    forall q, j | q in tree' && Depth(q) < 3 && 0 <= j < ENTRIES ensures InteriorOk(mem', tree', q, j) {
      if q != c {
        assert InteriorOk(mem, tree, q, j);
      } else {
        assert Child(c, j) !in tree;
      }
    }
  }

  /** ... and changes no translation. */
  lemma LinkKeepsSpace(mem: Memory, mem': Memory, root: nat, tree: map<Path, nat>, p: Path, i: nat, f: nat, w: u64)
    requires TreeOk(mem, root, tree) && Links(mem, mem', tree, p, i, f, w)
    ensures Space(mem', root) == Space(mem, root)
  {
    hide Present, FrameOf, Writable, User, Large, LeafOf, Index, Lookup, TreeOk;
    LinkKeepsTree(mem, mem', root, tree, p, i, f, w);
    forall v | 0 <= v < FRAMES ensures Lookup(mem', root, v) == Lookup(mem, root, v) {
      LookupIsTree(mem, root, tree, v);
      LookupIsTree(mem', root, tree[Child(p, i) := f], v);
      LeafOfZero();
      TableFrames(mem, root, tree, p, PathOf(v, 3));
    }
    SpaceFromLookup(mem, mem', root);
  }

  lemma TableFrames(mem: Memory, root: nat, tree: map<Path, nat>, p: Path, q: Path)
    requires TreeOk(mem, root, tree) && p in tree
    ensures q in tree ==> tree[q] < |mem| && tree[q] in tree.Values && (tree[q] == tree[p] ==> q == p)
  {
    hide Present, FrameOf, Writable, User, Large, InteriorOk;
  }

  lemma LeafOfZero()
    ensures LeafOf(0) == None
  {
    ZeroWord();
  }

  /** Writing one last-level entry changes the translation of exactly one page number. */
  lemma WriteLeaf(mem: Memory, mem': Memory, root: nat, tree: map<Path, nat>, v: nat, w: u64)
    requires TreeOk(mem, root, tree) && v < FRAMES && PathOf(v, 3) in tree && !Large(w)
    requires var f := tree[PathOf(v, 3)]; f < |mem| && mem' == mem[f := mem[f][Index(v, 0) := w]]
    ensures TreeOk(mem', root, tree)
    ensures Lookup(mem', root, v) == LeafOf(w)
    ensures forall u :: 0 <= u < FRAMES && u != v ==> Lookup(mem', root, u) == Lookup(mem, root, u)
  {
    hide Present, FrameOf, Writable, User, Large, LeafOf, Index, Lookup;
    var t := PathOf(v, 3);
    forall q, j | q in tree && Depth(q) < 3 && 0 <= j < ENTRIES ensures InteriorOk(mem', tree, q, j) {
      assert q != t && InteriorOk(mem, tree, q, j);
    }
    assert TreeOk(mem', root, tree);
    LookupIsTree(mem', root, tree, v);
    forall u | 0 <= u < FRAMES && u != v ensures Lookup(mem', root, u) == Lookup(mem, root, u) {
      LookupIsTree(mem, root, tree, u);
      LookupIsTree(mem', root, tree, u);
      if PathOf(u, 3) == t && Index(u, 0) == Index(v, 0) {
        PathsDiffer(u, v);
      }
    }
  }

  /** The address space after writing one last-level entry. */
  lemma WriteLeafSpace(mem: Memory, mem': Memory, root: nat, v: nat, leaf: Option<Leaf>)
    requires v < FRAMES && Lookup(mem', root, v) == leaf
    requires forall u :: 0 <= u < FRAMES && u != v ==> Lookup(mem', root, u) == Lookup(mem, root, u)
    ensures Space(mem', root) == if leaf.Some? then Space(mem, root)[v := leaf.value] else Space(mem, root) - {v}
  {
    hide Lookup;
  }
}
