/**
 Ranges of consecutive pages: which page numbers `map_pages` visits, what the address
 space is after installing a prefix of them, and which tables they need.
 */
module Ranges {
  import opened Bits
  import opened PageEntry
  import opened PageTree
  import opened Wrappers
  import opened Walks

  /** The page number of page k of the range that starts in the page of va. */
  function Key(va: nat, k: nat): (v: nat)
    ensures v < FRAMES
  {
    (va / PGSIZE + k) % FRAMES
  }

  function Keys(va: nat, k: nat): set<nat> {
    set j | 0 <= j < k :: Key(va, j)
  }

  const WORD_PAGES: nat := 0x10_0000_0000_0000   // pages in a 64-bit address range

  /** The physical address of page k of the source range, in 64-bit arithmetic. */
  function PaAt(pa: nat, k: nat): (r: nat)
    ensures r % PGSIZE == 0 && r < WORD_LIMIT
  {
    ((pa / PGSIZE + k) % WORD_PAGES) * PGSIZE
  }

  /** What `map_page` installs for pa and flags. */
  function LeafFor(pa: nat, flags: nat): Leaf {
    Leaf((pa / PGSIZE) % FRAMES, And(flags, PTE_W) != 0, And(flags, PTE_U) != 0,
         And(flags, PTE_PWT) != 0, And(flags, PTE_PCD) != 0)
  }

  /** The frame of the address and bits 1 to 4 of the flags, in the order writable, user, write-through, uncached. */
  lemma LeafBits(pa: nat, flags: nat)
    ensures LeafFor(pa, flags) == Leaf((pa / 0x1000) % FRAMES, (flags / 2) % 2 == 1, (flags / 4) % 2 == 1,
                                       (flags / 8) % 2 == 1, (flags / 16) % 2 == 1)
  {
    hide And;
    FlagTests(flags);
  }

  /** `map_page` refuses to redirect v: it is mapped, and not to the page of pa. */
  ghost predicate Conflict(space: map<nat, Leaf>, v: nat, pa: nat) {
    v in space && space[v].frame * PGSIZE != pa - pa % PGSIZE
  }

  lemma KeyIsVpn(va: nat, k: nat, addr: nat)
    requires addr == va - va % PGSIZE + k * PGSIZE
    ensures Vpn(addr) == Key(va, k)
  {
    assert addr / PGSIZE == va / PGSIZE + k;
  }

  /** Page k of the source range is frame k of it. */
  lemma LeafFrame(pa: nat, k: nat, flags: nat)
    ensures LeafFor(PaAt(pa, k), flags).frame == Key(pa, k)
  {
    hide And;
    var x := pa / PGSIZE + k;
    ModMod(x);
    assert PaAt(pa, k) / PGSIZE == x % WORD_PAGES;
  }

  lemma ModMod(x: nat)
    ensures (x % WORD_PAGES) % FRAMES == x % FRAMES
  {
    var q, r := x / WORD_PAGES, x % WORD_PAGES;
    var s, t := r / FRAMES, r % FRAMES;
    assert x == (0x1_0000 * q + s) * FRAMES + t;
    DivModUnique(x, FRAMES, 0x1_0000 * q + s, t);
  }

  /** `space` is `space0` with pages 0 .. k-1 of the range mapped, and nothing else changed. */
  ghost predicate Installed(space0: map<nat, Leaf>, va: nat, pa: nat, flags: nat, k: nat, space: map<nat, Leaf>) {
    && (forall j :: 0 <= j < k ==> Key(va, j) in space && space[Key(va, j)] == LeafFor(PaAt(pa, j), flags))
    && (forall u :: u !in Keys(va, k) ==> (u in space <==> u in space0) && (u in space ==> space[u] == space0[u]))
  }

  /** Every page mapped before is still mapped, to the same frame. */
  ghost predicate KeepsFrames(space0: map<nat, Leaf>, space: map<nat, Leaf>) {
    forall u :: u in space0 ==> u in space && space[u].frame == space0[u].frame
  }

  lemma KeepsFramesTwice(a: map<nat, Leaf>, b: map<nat, Leaf>, c: map<nat, Leaf>)
    requires KeepsFrames(a, b) && KeepsFrames(b, c)
    ensures KeepsFrames(a, c)
  {
  }

  /** The pages of these frames are mapped to themselves. */
  ghost predicate Identity(space: map<nat, Leaf>, frames: set<nat>) {
    forall f :: f in frames ==> f in space && space[f].frame == f
  }

  lemma NoRedirect(space: map<nat, Leaf>, v: nat, pa: nat, flags: nat)
    requires !Conflict(space, v, pa)
    ensures KeepsFrames(space, space[v := LeafFor(pa, flags)]) || (v in space && space[v].frame >= FRAMES)
  {
    hide And;
    if v in space && space[v].frame < FRAMES {
      assert pa / PGSIZE == space[v].frame;
    }
  }

  /** Removing pages breaks identity exactly when one of them was among the frames. */
  lemma IdentityAfterRemoval(space: map<nat, Leaf>, frames: set<nat>, keys: set<nat>)
    requires Identity(space, frames)
    ensures Identity(space - keys, frames) <==> keys !! frames
  {
    if keys !! frames {
    } else {
      var f :| f in keys && f in frames;
      assert f !in space - keys;
    }
  }

  /**
   Installing one more page. Should the range be so long that its page number was visited
   before, the refusal to redirect, or mapping a range to itself, means that it already had this very frame.
   */
  lemma InstallNext(space0: map<nat, Leaf>, va: nat, pa: nat, flags: nat, k: nat, space: map<nat, Leaf>)
    requires Installed(space0, va, pa, flags, k, space)
    requires va == pa || !Conflict(space, Key(va, k), PaAt(pa, k))
    ensures Installed(space0, va, pa, flags, k + 1, space[Key(va, k) := LeafFor(PaAt(pa, k), flags)])
  {
    hide Key, And, PaAt;
    var leaf := LeafFor(PaAt(pa, k), flags);
    var space' := space[Key(va, k) := leaf];
    forall j | 0 <= j < k + 1 ensures Key(va, j) in space' && space'[Key(va, j)] == LeafFor(PaAt(pa, j), flags) {
      if j < k && Key(va, j) == Key(va, k) {
        SameFrame(PaAt(pa, j), PaAt(pa, k), flags);
        LeafFrame(pa, j, flags);
        LeafFrame(pa, k, flags);
      }
    }
    assert Keys(va, k + 1) == Keys(va, k) + {Key(va, k)};
  }

  lemma SameFrame(pa: nat, pb: nat, flags: nat)
    ensures LeafFor(pa, flags).frame * PGSIZE == pb - pb % PGSIZE ==> LeafFor(pa, flags) == LeafFor(pb, flags)
  {
    hide And;
    var f := LeafFor(pa, flags).frame;
    if f * PGSIZE == pb - pb % PGSIZE {
      assert pb / PGSIZE == f;
    }
  }

  /** Unmapping the installed prefix leaves the original space without the visited page numbers. */
  lemma RollBack(space0: map<nat, Leaf>, va: nat, pa: nat, flags: nat, k: nat, space: map<nat, Leaf>)
    requires Installed(space0, va, pa, flags, k, space)
    ensures space - Keys(va, k) == space0 - Keys(va, k)
  {
    hide Key, LeafFor;
  }

  /** Removing keys changes a map exactly when one of them was there. */
  lemma RemovalIsVisible(space: map<nat, Leaf>, keys: set<nat>)
    ensures space - keys == space <==> keys !! space.Keys
  {
    if space - keys == space {
      forall u | u in keys ensures u !in space {
        assert u !in space - keys;
      }
    }
  }

  /** In a range of at most 2^36 pages no page number repeats. */
  lemma KeysDistinct(va: nat, j: nat, k: nat)
    requires j < k < FRAMES
    ensures Key(va, j) != Key(va, k)
  {
  }

  // The tables a range needs

  /** The positions of the three tables below the root on the path of v. */
  ghost function PathSet(v: nat): set<Path> {
    {PathOf(v, 1), PathOf(v, 2), PathOf(v, 3)}
  }

  ghost function PathsUpTo(va: nat, k: nat): set<Path> {
    if k == 0 then {} else PathsUpTo(va, k - 1) + PathSet(Key(va, k - 1))
  }

  /** How many tables there are once every page of the range has its own. */
  ghost function TablesFor(tree: map<Path, nat>, va: nat, k: nat): nat {
    |tree.Keys + PathsUpTo(va, k)|
  }

  /** The tables are those of tree0 and those the first k pages of the range need, no others. */
  ghost predicate HasTables(tree0: map<Path, nat>, va: nat, k: nat, tree: map<Path, nat>) {
    tree.Keys == tree0.Keys + PathsUpTo(va, k)
  }

  /** A full walk adds exactly the missing positions of its path. */
  lemma GrownKeys(tree0: map<Path, nat>, free0: seq<nat>, v: nat, tree: map<Path, nat>, free: seq<nat>)
    requires Closed(tree0) && Grown(tree0, free0, v, Missing(tree0, v), tree, free)
    ensures tree.Keys == tree0.Keys + PathSet(v)
  {
    hide Index;
    var m := Missing(tree0, v);
    MissingIsSuffix(tree0, v, 1);
    MissingIsSuffix(tree0, v, 2);
    MissingIsSuffix(tree0, v, 3);
    forall d | 1 <= d <= 3 ensures PathOf(v, d) in tree {
      if d >= 4 - m {
        assert PathOf(v, d) in NewPaths(tree0, v, m);
      }
    }
    forall p | p in NewPaths(tree0, v, m) ensures p in PathSet(v) {
    }
  }

  /** The number of missing tables, as a difference of sizes. */
  lemma MissingCount(tree: map<Path, nat>, v: nat)
    requires Closed(tree)
    ensures |tree.Keys + PathSet(v)| == |tree.Keys| + Missing(tree, v)
  {
    hide Index;
    MissingIsSuffix(tree, v, 1);
    MissingIsSuffix(tree, v, 2);
    MissingIsSuffix(tree, v, 3);
    var a, b, c := PathOf(v, 1), PathOf(v, 2), PathOf(v, 3);
    assert Depth(a) == 1 && Depth(b) == 2 && Depth(c) == 3;
    var keys := tree.Keys;
    var k1 := keys + {a};
    var k2 := k1 + {b};
    var k3 := k2 + {c};
    assert keys + PathSet(v) == k3;
    assert a in keys ==> k1 == keys;
    assert b in keys ==> k2 == k1;
    assert c in keys ==> k3 == k2;
  }

  /** A walk stays closed. */
  lemma GrownClosed(tree0: map<Path, nat>, free0: seq<nat>, v: nat, tree: map<Path, nat>, free: seq<nat>)
    requires Closed(tree0) && Grown(tree0, free0, v, Missing(tree0, v), tree, free)
    ensures Closed(tree)
  {
    GrownKeys(tree0, free0, v, tree, free);
    assert PathOf(v, 1).parent == Root;
    assert PathOf(v, 2).parent == PathOf(v, 1);
    assert PathOf(v, 3).parent == PathOf(v, 2);
  }

  /**
   Page k of the range would redirect a mapping. From page 2^36 on every page number was visited before, and
   maps to the low 36 bits of its source frame: it is redirected unless the source address fits in 48 bits.
   */
  ghost predicate Refused(space: map<nat, Leaf>, va: nat, pa: nat, k: nat) {
    if k < FRAMES then Conflict(space, Key(va, k), PaAt(pa, k)) else PaAt(pa, k) >= FRAMES * PGSIZE
  }

  /** Page k of the range cannot be mapped: it would redirect a mapping, or the tables needed so far exceed the pool. */
  ghost predicate Blocked(space: map<nat, Leaf>, tree: map<Path, nat>, nfree: nat, va: nat, pa: nat, k: nat) {
    || Refused(space, va, pa, k)
    || TablesFor(tree, va, k + 1) > |tree.Keys| + nfree
  }

  /** After k pages, `map_page` fails on page k exactly when the initial state blocks it. */
  lemma BlockedNow(space0: map<nat, Leaf>, tree0: map<Path, nat>, nfree0: nat, va: nat, pa: nat, flags: nat, k: nat,
                   space: map<nat, Leaf>, tree: map<Path, nat>, nfree: nat)
    requires Installed(space0, va, pa, flags, k, space)
    requires Closed(tree) && tree.Keys == tree0.Keys + PathsUpTo(va, k) && |tree.Keys| + nfree == |tree0.Keys| + nfree0
    ensures Blocked(space0, tree0, nfree0, va, pa, k)
            <==> Missing(tree, Key(va, k)) > nfree || Conflict(space, Key(va, k), PaAt(pa, k))
  {
    hide Refused, Conflict, Installed, PathSet, Missing, Closed, Key, Keys, PaAt, PathsUpTo;
    MissingCount(tree, Key(va, k));
    RefusedNow(space0, va, pa, flags, k, space);
    PathsUpToNext(tree0.Keys, va, k);
  }

  lemma RefusedNow(space0: map<nat, Leaf>, va: nat, pa: nat, flags: nat, k: nat, space: map<nat, Leaf>)
    requires Installed(space0, va, pa, flags, k, space)
    ensures Refused(space0, va, pa, k) <==> Conflict(space, Key(va, k), PaAt(pa, k))
  {
    hide Conflict, Installed, Key, Keys, PaAt;
    if k < FRAMES {
      NotVisited(va, k);
      ConflictSame(space0, va, pa, flags, k, space);
    } else {
      ConflictAgain(space0, va, pa, flags, k, space);
    }
  }

  lemma ConflictAgain(space0: map<nat, Leaf>, va: nat, pa: nat, flags: nat, k: nat, space: map<nat, Leaf>)
    requires Installed(space0, va, pa, flags, k, space) && k >= FRAMES
    ensures Conflict(space, Key(va, k), PaAt(pa, k)) <==> PaAt(pa, k) >= FRAMES * PGSIZE
  {
    hide LeafFor, Key, PaAt, Keys;
    var j := k - FRAMES;
    KeyPeriod(va, k);
    KeyPeriod(pa, k);
    LeafFrame(pa, j, flags);
    assert space[Key(va, j)] == LeafFor(PaAt(pa, j), flags);
    WholeFrame(pa, k);
  }

  /** Page numbers repeat after 2^36 pages. */
  lemma KeyPeriod(va: nat, k: nat)
    requires k >= FRAMES
    ensures Key(va, k - FRAMES) == Key(va, k)
  {
    var x := va / PGSIZE + k - FRAMES;
    DivModUnique(x + FRAMES, FRAMES, x / FRAMES + 1, x % FRAMES);
  }

  lemma WholeFrame(pa: nat, k: nat)
    ensures Key(pa, k) * PGSIZE == PaAt(pa, k) <==> PaAt(pa, k) < FRAMES * PGSIZE
    ensures PaAt(pa, k) - PaAt(pa, k) % PGSIZE == PaAt(pa, k)
  {
    ModMod(pa / PGSIZE + k);
    var r := (pa / PGSIZE + k) % WORD_PAGES;
    if r < FRAMES {
      SmallRemainder(r, FRAMES);
    }
  }

  lemma PathsUpToNext(keys: set<Path>, va: nat, k: nat)
    ensures keys + PathsUpTo(va, k + 1) == keys + PathsUpTo(va, k) + PathSet(Key(va, k))
  {
    hide PathSet, Key;
  }

  lemma NotVisited(va: nat, k: nat)
    requires k < FRAMES
    ensures Key(va, k) !in Keys(va, k)
  {
    forall j | 0 <= j < k ensures Key(va, j) != Key(va, k) {
      KeysDistinct(va, j, k);
    }
  }

  lemma ConflictSame(space0: map<nat, Leaf>, va: nat, pa: nat, flags: nat, k: nat, space: map<nat, Leaf>)
    requires Installed(space0, va, pa, flags, k, space) && Key(va, k) !in Keys(va, k)
    ensures Conflict(space, Key(va, k), PaAt(pa, k)) <==> Conflict(space0, Key(va, k), PaAt(pa, k))
  {
    hide Key, PaAt, LeafFor;
  }

  /** No page before page k is blocked. */
  ghost predicate Unblocked(space: map<nat, Leaf>, tree: map<Path, nat>, nfree: nat, va: nat, pa: nat, k: nat) {
    forall j :: 0 <= j < k ==> !Blocked(space, tree, nfree, va, pa, j)
  }

  /** The first blocked page of a range of n pages, or n: what a caller can tell before the call. */
  ghost function FirstBlocked(space: map<nat, Leaf>, tree: map<Path, nat>, nfree: nat, va: nat, pa: nat, n: nat): nat
    decreases n
  {
    if n == 0 then 0
    else
      var k := FirstBlocked(space, tree, nfree, va, pa, n - 1);
      if k < n - 1 || Blocked(space, tree, nfree, va, pa, n - 1) then k else n
  }

  lemma {:induction false} FirstBlockedIs(space: map<nat, Leaf>, tree: map<Path, nat>, nfree: nat,
                                          va: nat, pa: nat, n: nat, k: nat)
    requires k <= n && Unblocked(space, tree, nfree, va, pa, k)
    requires k < n ==> Blocked(space, tree, nfree, va, pa, k)
    ensures FirstBlocked(space, tree, nfree, va, pa, n) == k
    decreases n
  {
    hide Blocked;
    if n > 0 {
      FirstBlockedIs(space, tree, nfree, va, pa, n - 1, if k < n then k else n - 1);
    }
  }

  /** It is blocked, unless it is n, and no page before it is. */
  lemma {:induction false} FirstBlockedMeans(space: map<nat, Leaf>, tree: map<Path, nat>, nfree: nat,
                                             va: nat, pa: nat, n: nat)
    ensures var k := FirstBlocked(space, tree, nfree, va, pa, n);
            && k <= n && Unblocked(space, tree, nfree, va, pa, k)
            && (k < n ==> Blocked(space, tree, nfree, va, pa, k))
    decreases n
  {
    hide Blocked;
    if n > 0 {
      FirstBlockedMeans(space, tree, nfree, va, pa, n - 1);
    }
  }

  /** The state of `map_pages` after mapping pages 0 .. k-1. */
  ghost predicate Progress(space0: map<nat, Leaf>, tree0: map<Path, nat>, nfree0: nat, va: nat, pa: nat, flags: nat,
                           k: nat, space: map<nat, Leaf>, tree: map<Path, nat>, nfree: nat) {
    && Installed(space0, va, pa, flags, k, space)
    && Closed(tree) && tree.Keys == tree0.Keys + PathsUpTo(va, k) && |tree.Keys| + nfree == |tree0.Keys| + nfree0
    && Unblocked(space0, tree0, nfree0, va, pa, k)
  }

  lemma ProgressNone(space: map<nat, Leaf>, tree: map<Path, nat>, nfree: nat, va: nat, pa: nat, flags: nat)
    requires Closed(tree)
    ensures Progress(space, tree, nfree, va, pa, flags, 0, space, tree, nfree)
  {
    hide Closed, Blocked;
  }

  /** `map_page` fails on page k exactly when it is the first blocked one. */
  lemma ProgressStops(space0: map<nat, Leaf>, tree0: map<Path, nat>, nfree0: nat, va: nat, pa: nat, flags: nat, k: nat,
                      space: map<nat, Leaf>, tree: map<Path, nat>, free: seq<nat>, done: bool)
    requires Progress(space0, tree0, nfree0, va, pa, flags, k, space, tree, |free|)
    requires done <==> Missing(tree, Key(va, k)) <= |free| && !Conflict(space, Key(va, k), PaAt(pa, k))
    ensures done <==> !Blocked(space0, tree0, nfree0, va, pa, k)
    ensures done ==> Unblocked(space0, tree0, nfree0, va, pa, k + 1)
  {
    hide Conflict, Installed, Missing, Closed, Key, PaAt, PathsUpTo, Blocked;
    BlockedNow(space0, tree0, nfree0, va, pa, flags, k, space, tree, |free|);
  }

  /** One successful iteration of `map_pages`, given what `map_page` did. */
  lemma ProgressStep(space0: map<nat, Leaf>, tree0: map<Path, nat>, nfree0: nat, va: nat, pa: nat, flags: nat, k: nat,
                     space: map<nat, Leaf>, tree: map<Path, nat>, free: seq<nat>,
                     tree': map<Path, nat>, free': seq<nat>)
    requires Progress(space0, tree0, nfree0, va, pa, flags, k, space, tree, |free|)
    requires Unblocked(space0, tree0, nfree0, va, pa, k + 1)
    requires !Conflict(space, Key(va, k), PaAt(pa, k))
    requires Grown(tree, free, Key(va, k), Missing(tree, Key(va, k)), tree', free')
    requires |tree'.Keys| + |free'| == |tree.Keys| + |free|
    ensures Progress(space0, tree0, nfree0, va, pa, flags, k + 1,
                     space[Key(va, k) := LeafFor(PaAt(pa, k), flags)], tree', |free'|)
  {
    hide Conflict, Installed, PathSet, Missing, Closed, Key, PaAt, PathsUpTo, Grown, Unblocked, LeafFor;
    var v := Key(va, k);
    InstallNext(space0, va, pa, flags, k, space);
    TablesNext(tree0, va, k, tree, free, tree', free');
  }

  /** A full walk for page k adds the tables page k needs. */
  lemma TablesNext(tree0: map<Path, nat>, va: nat, k: nat, tree: map<Path, nat>, free: seq<nat>,
                   tree': map<Path, nat>, free': seq<nat>)
    requires Closed(tree) && tree.Keys == tree0.Keys + PathsUpTo(va, k)
    requires Grown(tree, free, Key(va, k), Missing(tree, Key(va, k)), tree', free')
    ensures Closed(tree') && tree'.Keys == tree0.Keys + PathsUpTo(va, k + 1)
  {
    hide PathSet, Missing, Closed, Key, PathsUpTo, Grown;
    var v := Key(va, k);
    GrownKeys(tree, free, v, tree', free');
    GrownClosed(tree, free, v, tree', free');
    PathsUpToNext(tree0.Keys, va, k);
  }

  /** The state of `kvminit` after mapping pages 0 .. k-1 to themselves. */
  ghost predicate SelfMapped(space0: map<nat, Leaf>, tree0: map<Path, nat>, total: nat, va: nat, k: nat,
                             space: map<nat, Leaf>, tree: map<Path, nat>, nfree: nat) {
    && Installed(space0, va, va, PTE_W, k, space)
    && Closed(tree) && tree.Keys == tree0.Keys + PathsUpTo(va, k) && |tree.Keys| + nfree == total
  }

  lemma SelfMappedNone(space: map<nat, Leaf>, tree: map<Path, nat>, nfree: nat, va: nat)
    requires Closed(tree)
    ensures SelfMapped(space, tree, |tree.Keys| + nfree, va, 0, space, tree, nfree)
  {
    hide Closed;
  }

  /** One iteration of `kvminit`. If its walk fails, the whole range needs more tables than there are pages. */
  lemma SelfMappedStep(space0: map<nat, Leaf>, tree0: map<Path, nat>, total: nat, va: nat, k: nat, n: nat,
                       space: map<nat, Leaf>, tree: map<Path, nat>, free: seq<nat>,
                       done: bool, tree': map<Path, nat>, free': seq<nat>)
    requires SelfMapped(space0, tree0, total, va, k, space, tree, |free|) && k < n
    requires done <==> Missing(tree, Key(va, k)) <= |free|
    requires done ==> Grown(tree, free, Key(va, k), Missing(tree, Key(va, k)), tree', free')
    requires |tree'.Keys| + |free'| == |tree.Keys| + |free|
    ensures !done ==> TablesFor(tree0, va, n) > total
    ensures done ==> SelfMapped(space0, tree0, total, va, k + 1,
                                space[Key(va, k) := LeafFor(PaAt(va, k), PTE_W)], tree', |free'|)
  {
    hide Installed, PathSet, Missing, Closed, Key, Keys, PaAt, PathsUpTo, Grown, LeafFor;
    var v := Key(va, k);
    MissingCount(tree, v);
    PathsUpToNext(tree0.Keys, va, k);
    if done {
      TablesNext(tree0, va, k, tree, free, tree', free');
      InstallNext(space0, va, va, PTE_W, k, space);
    } else {
      TooFewPages(tree0, va, k + 1, n, total);
    }
  }

  /** A completed `kvminit` fitted into the pool. */
  lemma SelfMappedFits(space0: map<nat, Leaf>, tree0: map<Path, nat>, total: nat, va: nat, k: nat,
                       space: map<nat, Leaf>, tree: map<Path, nat>, nfree: nat)
    requires SelfMapped(space0, tree0, total, va, k, space, tree, nfree)
    ensures Installed(space0, va, va, PTE_W, k, space) && HasTables(tree0, va, k, tree)
    ensures TablesFor(tree0, va, k) <= total
  {
    hide Installed, PathsUpTo, Closed;
  }

  lemma {:induction false} TooFewPages(tree: map<Path, nat>, va: nat, k: nat, n: nat, total: nat)
    requires k <= n && TablesFor(tree, va, k) > total
    ensures TablesFor(tree, va, n) > total
    decreases n - k
  {
    hide PathSet, Key;
    if k < n {
      var a, b := tree.Keys + PathsUpTo(va, k), tree.Keys + PathsUpTo(va, k + 1);
      assert a <= b;
      SubsetSize(a, b);
      TooFewPages(tree, va, k + 1, n, total);
    }
  }

  lemma SubsetSize(a: set<Path>, b: set<Path>)
    requires a <= b
    ensures |a| <= |b|
  {
    assert b == a + (b - a);
  }

  // The span of a byte range

  /** How many pages the loop of `map_pages` visits, all additions being in 64 bits. */
  function SpanPages(va: nat, size: nat): nat {
    var first, last := va - va % PGSIZE, RoundUp((va + size) % WORD_LIMIT);
    if last <= first then 0 else (last - first) / PGSIZE
  }

  /** Byte o of the range lies in one of the visited pages. */
  ghost predicate Covered(va: nat, size: nat, o: nat) {
    var page, first := ((va + o) % WORD_LIMIT) / PGSIZE, va / PGSIZE;
    first <= page < first + SpanPages(va, size)
  }

  /** Every byte of a range is visited when the range, rounded up to pages, stays inside 64 bits. */
  lemma SpanCovers(va: nat, size: nat, o: nat)
    requires va + size + PGSIZE <= WORD_LIMIT && o < size
    ensures Covered(va, size, o)
  {
    hide RoundUp;
    RoundUpIs(va + size);
  }

  /** And only then: otherwise the round-up wraps, at most one page is visited, and some byte is missed. */
  lemma SpanMisses(va: nat, size: nat) returns (o: nat)
    requires va < WORD_LIMIT && size < WORD_LIMIT && va + size + PGSIZE > WORD_LIMIT && size > 0
    ensures o < size && !Covered(va, size, o)
  {
    hide RoundUp;
    RoundUpWraps(va, size);
    if SpanPages(va, size) == 0 {
      o := 0;
    } else if va < PGSIZE {
      o := PGSIZE;
    } else {
      o := WORD_LIMIT - va;
    }
  }

  lemma RoundUpWraps(va: nat, size: nat)
    requires va < WORD_LIMIT && size < WORD_LIMIT && va + size + PGSIZE > WORD_LIMIT
    ensures SpanPages(va, size) <= 1
    ensures SpanPages(va, size) == 1 ==> va + size > WORD_LIMIT
  {
    hide RoundDown;
    var x := (va + size) % WORD_LIMIT;
    if x + PGSIZE > WORD_LIMIT {
      assert (x + PGSIZE - 1) % WORD_LIMIT == x + PGSIZE - 1 - WORD_LIMIT;
      RoundDownIs(x + PGSIZE - 1 - WORD_LIMIT);
    } else {
      RoundDownIs(x + PGSIZE - 1);
    }
  }

  // The bound shared by `kinit` and `kvminit`

  /** How many pages p, from a page-aligned first address up, have p + PGSIZE < stop. */
  function PagesBelow(first: nat, stop: nat): nat {
    if stop <= first + PGSIZE then 0 else (stop - first - 1) / PGSIZE
  }

  /**
   How many pages the loops visit whose test adds a page to a 64-bit address. Starting at the very last page
   the sum is 0, and they go on from address 0. If stop is less than a page below 2^64 they never end.
   */
  function PageCount(first: nat, stop: nat): nat {
    if first + PGSIZE == WORD_LIMIT then (if stop == 0 then 0 else 1 + PagesBelow(0, stop)) else PagesBelow(first, stop)
  }

  predicate Endless(stop: nat) {
    stop + PGSIZE > WORD_LIMIT
  }

  lemma PageCountIs(first: nat, stop: nat, k: nat)
    requires first % PGSIZE == 0 && first < WORD_LIMIT && !Endless(stop) && k <= PageCount(first, stop)
    ensures k < PageCount(first, stop) <==> (first + k * PGSIZE + PGSIZE) % WORD_LIMIT < stop
  {
    if first + PGSIZE == WORD_LIMIT {
      if k <= WORD_PAGES {
        assert first + k * PGSIZE + PGSIZE == WORD_LIMIT + k * PGSIZE;
      }
    } else {
      assert first + k * PGSIZE + PGSIZE < WORD_LIMIT;
    }
  }

  /** The byte at address x translates to itself, modulo the 48 bits an entry can address. */
  function PhysOf(space: map<nat, Leaf>, va: nat): nat {
    if Vpn(va) in space then space[Vpn(va)].frame * PGSIZE + va % PGSIZE else 0
  }

  /** A range mapped to itself: every byte of it translates to itself. */
  lemma IdentityRange(space0: map<nat, Leaf>, base: nat, size: nat, flags: nat, space: map<nat, Leaf>, x: nat)
    requires Installed(space0, base, base, flags, SpanPages(base, size), space)
    requires base + size + PGSIZE <= WORD_LIMIT && base <= x < base + size
    ensures PhysOf(space, x) == x % 0x1_0000_0000_0000
    ensures Vpn(x) in space && space[Vpn(x)] == LeafFor(x, flags)
  {
    hide And, RoundUp, SpanPages;
    SpanCovers(base, size, x - base);
    var k := x / PGSIZE - base / PGSIZE;
    assert Key(base, k) == Vpn(x);
    LeafFrame(base, k, flags);
    assert x % 0x1_0000_0000_0000 == ((x / PGSIZE) % FRAMES) * PGSIZE + x % PGSIZE by {
      SplitAddress(x);
    }
  }

  lemma SplitAddress(x: nat)
    ensures x % 0x1_0000_0000_0000 == ((x / PGSIZE) % FRAMES) * PGSIZE + x % PGSIZE
  {
    var p, o := x / PGSIZE, x % PGSIZE;
    var q, f := p / FRAMES, p % FRAMES;
    assert x == q * 0x1_0000_0000_0000 + (f * PGSIZE + o);
    DivModUnique(x, 0x1_0000_0000_0000, q, f * PGSIZE + o);
  }
}
