/**
 What a page-table walk may do to the tree and the free list: link the first k
 missing tables of one path, taking their pages in order from the free list.
 */
module Walks {
  import opened PageEntry
  import opened PageTree
  import opened FreeList

  /** How many of the three tables below the root are missing for page number v. */
  ghost function Missing(tree: map<Path, nat>, v: nat): (m: nat)
    ensures m <= 3
  {
    if PathOf(v, 1) !in tree then 3
    else if PathOf(v, 2) !in tree then 2
    else if PathOf(v, 3) !in tree then 1
    else 0
  }

  /** The positions of the first k missing tables. */
  ghost function NewPaths(tree: map<Path, nat>, v: nat, k: nat): set<Path>
    requires k <= Missing(tree, v)
  {
    set d | 4 - Missing(tree, v) <= d < 4 - Missing(tree, v) + k :: PathOf(v, d)
  }

  /** (tree, free) is (tree0, free0) after linking the first k missing tables for v. */
  ghost predicate Grown(tree0: map<Path, nat>, free0: seq<nat>, v: nat, k: nat, tree: map<Path, nat>, free: seq<nat>) {
    && k <= Missing(tree0, v) && k <= |free0|
    && free == free0[k..]
    && tree.Keys == tree0.Keys + NewPaths(tree0, v, k)
    && (forall p :: p in tree0 ==> tree[p] == tree0[p])
    && (forall j :: 0 <= j < k ==> tree[PathOf(v, 4 - Missing(tree0, v) + j)] == free0[j])
  }

  /** Every table is still at its position, in the same frame. */
  ghost predicate KeepsTables(tree0: map<Path, nat>, tree: map<Path, nat>) {
    forall p :: p in tree0 ==> p in tree && tree[p] == tree0[p]
  }

  lemma KeepsTablesTwice(a: map<Path, nat>, b: map<Path, nat>, c: map<Path, nat>)
    requires KeepsTables(a, b) && KeepsTables(b, c)
    ensures KeepsTables(a, c)
  {
  }

  lemma GrownKeepsTables(tree0: map<Path, nat>, free0: seq<nat>, v: nat, k: nat, tree: map<Path, nat>, free: seq<nat>)
    requires Grown(tree0, free0, v, k, tree, free)
    ensures KeepsTables(tree0, tree)
  {
    hide NewPaths, Missing;
  }

  /** Tables exist from the root down without gaps. */
  ghost predicate Closed(tree: map<Path, nat>) {
    && Root in tree
    && forall p :: p in tree && p.Child? ==> p.parent in tree
  }

  lemma TreeIsClosed(mem: Memory, root: nat, tree: map<Path, nat>)
    requires TreeOk(mem, root, tree)
    ensures Closed(tree)
  {
    hide InteriorOk, Large;
  }

  /** The tables that exist are exactly those above the missing ones. */
  lemma MissingIsSuffix(tree: map<Path, nat>, v: nat, d: nat)
    requires Closed(tree) && d <= 3
    ensures PathOf(v, d) in tree <==> d <= 3 - Missing(tree, v)
  {
    hide Index;
    assert PathOf(v, 0) == Root;
    assert PathOf(v, 1).parent == PathOf(v, 0);
    assert PathOf(v, 2).parent == PathOf(v, 1);
    assert PathOf(v, 3).parent == PathOf(v, 2);
  }

  lemma GrownNone(tree: map<Path, nat>, free: seq<nat>, v: nat)
    ensures Grown(tree, free, v, 0, tree, free)
  {
  }

  lemma GrownLength(tree0: map<Path, nat>, free0: seq<nat>, v: nat, k: nat, tree: map<Path, nat>, free: seq<nat>)
    requires Grown(tree0, free0, v, k, tree, free)
    ensures |free| == |free0| - k && k <= Missing(tree0, v)
  {
  }

  /** After linking k tables, the walk can go down to depth 3 - missing + k and no further. */
  lemma GrownReach(tree0: map<Path, nat>, free0: seq<nat>, v: nat, k: nat, tree: map<Path, nat>, free: seq<nat>, d: nat)
    requires Closed(tree0) && Grown(tree0, free0, v, k, tree, free) && d <= 3
    ensures PathOf(v, d) in tree <==> d <= 3 - Missing(tree0, v) + k
  {
    hide Index;
    MissingIsSuffix(tree0, v, d);
    if PathOf(v, d) in NewPaths(tree0, v, k) {
      var e :| 4 - Missing(tree0, v) <= e < 4 - Missing(tree0, v) + k && PathOf(v, e) == PathOf(v, d);
      assert Depth(PathOf(v, e)) == Depth(PathOf(v, d));
    }
  }

  /** Linking the next missing table. */
  lemma GrownStep(tree0: map<Path, nat>, free0: seq<nat>, v: nat, k: nat, tree: map<Path, nat>, free: seq<nat>)
    requires Closed(tree0) && Grown(tree0, free0, v, k, tree, free)
    requires k < Missing(tree0, v) && free != []
    ensures PathOf(v, 4 - Missing(tree0, v) + k) !in tree
    ensures Grown(tree0, free0, v, k + 1, tree[PathOf(v, 4 - Missing(tree0, v) + k) := free[0]], free[1..])
  {
    hide Index, Missing;
    var d := 4 - Missing(tree0, v) + k;
    GrownReach(tree0, free0, v, k, tree, free, d);
    var tree' := tree[PathOf(v, d) := free[0]];
    assert NewPaths(tree0, v, k + 1) == NewPaths(tree0, v, k) + {PathOf(v, d)};
    MissingIsSuffix(tree0, v, d);
    forall j | 0 <= j < k + 1 ensures tree'[PathOf(v, 4 - Missing(tree0, v) + j)] == free0[j] {
      assert Depth(PathOf(v, 4 - Missing(tree0, v) + j)) == 4 - Missing(tree0, v) + j;
    }
  }
}
