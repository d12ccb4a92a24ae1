/** Extent trees of any depth: the walk from the inode's root to a leaf finds what a linear search of all the leaf
    extents would find. */
module Ext4Tree {
  import opened Common
  import opened Ext4Extents

  const MAGIC: nat := 0xF30A
  const LAST: nat := 0xFFFF_FFFF

  datatype Index = Index(block: nat, leafHi: nat, leafLo: nat)
  {
    function Child(): nat { leafHi * TWO_32 + leafLo }
  }

  /** A child's block number, kept in two parts of 16 and 32 bits, is read back exactly below 2^48. */
  lemma ChildReads(block: nat, phys: nat)
    ensures Index(block, phys / 0x1_0000_0000 % 0x1_0000, phys % 0x1_0000_0000).Child() == phys <==> phys < TWO_48
  {
  }

  /** A header and the entries behind it, which are extents at depth 0 and indices above. */
  datatype Node = Node(magic: nat, depth: nat, indices: seq<Index>, extents: seq<Extent>)

  /** What reading a disk block as a node gives. */
  type Disk = nat -> Node

  function ChildAt(d: Disk, n: Node, i: nat): Node
    requires i < |n.indices|
  {
    d(n.indices[i].Child())
  }

  /** Depth falls on the way down, except that a block with a bad magic number may sit anywhere. */
  ghost predicate Levels(d: Disk, n: Node)
    decreases n.depth
  {
    n.magic == MAGIC && n.depth > 0 ==> forall i :: 0 <= i < |n.indices| ==>
      var c := ChildAt(d, n, i); c.magic == MAGIC ==> c.depth < n.depth && Levels(d, c)
  }

  /** Where the range of index `i` ends, if the node's own range ends at `hi`. */
  function Next(n: Node, i: nat, hi: nat): nat
  {
    if i + 1 < |n.indices| then n.indices[i + 1].block else hi
  }

  ghost predicate IndexFits(n: Node, i: nat, lo: nat, hi: nat)
    requires i < |n.indices|
  {
    lo <= n.indices[i].block <= Next(n, i, hi) <= hi
  }

  /** Everything below a node lies in [lo, hi), and the indices share the range out among their children. */
  ghost predicate Ranged(d: Disk, n: Node, lo: nat, hi: nat)
    requires Levels(d, n)
    decreases n.depth
  {
    n.magic == MAGIC ==>
      if n.depth == 0 then forall e :: e in n.extents ==> lo <= e.block && e.block + e.len <= hi
      else
        && (forall i :: 0 <= i < |n.indices| ==> IndexFits(n, i, lo, hi))
        && (forall i :: 0 <= i < |n.indices| ==>
              var c := ChildAt(d, n, i); c.magic == MAGIC ==> Ranged(d, c, n.indices[i].block, Next(n, i, hi)))
  }

  /** All extents below a node, from left to right. */
  ghost function Leaves(d: Disk, n: Node): seq<Extent>
    requires Levels(d, n)
    decreases n.depth, |n.indices| + 1
  {
    if n.magic != MAGIC then [] else if n.depth == 0 then n.extents else LeavesFrom(d, n, 0)
  }

  ghost function LeavesFrom(d: Disk, n: Node, k: nat): seq<Extent>
    requires Levels(d, n) && n.magic == MAGIC && n.depth > 0 && k <= |n.indices|
    decreases n.depth, |n.indices| - k
  {
    if k == |n.indices| then []
    else
      var c := ChildAt(d, n, k);
      (if c.magic == MAGIC then Leaves(d, c) else []) + LeavesFrom(d, n, k + 1)
  }

  // ---- the walk ------------------------------------------------------------------------------------------

  predicate Chosen(n: Node, i: nat, l: nat)
    requires i < |n.indices|
  {
    n.indices[i].block <= l < Next(n, i, LAST)
  }

  /** The first index that covers `l`, if there is one. */
  method SearchIndex(n: Node, l: nat) returns (i: nat)
    ensures i <= |n.indices| && (i < |n.indices| ==> Chosen(n, i, l))
    ensures forall j :: 0 <= j < i ==> !Chosen(n, j, l)
  {
    i := 0;
    while i < |n.indices|
      invariant i <= |n.indices| && forall j :: 0 <= j < i ==> !Chosen(n, j, l)
    {
      if n.indices[i].block <= l < Next(n, i, LAST) { return; }
      i := i + 1;
    }
  }

  /** The first extent that covers `l`. */
  method SearchLeaf(n: Node, l: nat) returns (r: nat)
    ensures r == GetBlock(n.extents, l)
  {
    var i := 0;
    while i < |n.extents|
      invariant i <= |n.extents| && GetBlock(n.extents, l) == GetBlock(n.extents[i..], l)
    {
      var e := n.extents[i];
      if e.Covers(l) { return e.Start() + (l - e.block); }
      i := i + 1;
    }
    return 0;
  }

  /** Walks down from the inode's root. 0 stands for a hole, and for an inode without extents or with a bad root. */
  method ExtentGetBlock(d: Disk, usesExtents: bool, root: Node, l: nat) returns (r: nat)
    requires Levels(d, root) && l < TWO_32
    ensures !usesExtents || root.magic != 0xF30A ==> r == 0
    ensures usesExtents && Ranged(d, root, 0, 0xFFFF_FFFF) ==> r == GetBlock(Leaves(d, root), l)
  {
    if !usesExtents || root.magic != MAGIC { return 0; }
    var n := root;
    ghost var lo: nat, hi: nat := 0, LAST;
    while n.depth > 0
      invariant n.magic == MAGIC && Levels(d, n)
      invariant Ranged(d, root, 0, LAST) ==> Ranged(d, n, lo, hi) && hi <= LAST
      invariant Ranged(d, root, 0, LAST) ==> GetBlock(Leaves(d, root), l) == GetBlock(Leaves(d, n), l)
      decreases n.depth
    {
      var i := SearchIndex(n, l);
      if Ranged(d, root, 0, LAST) { DescendStep(d, n, lo, hi, l, i); }
      if i == |n.indices| { return 0; }
      var c := ChildAt(d, n, i);
      if c.magic != MAGIC { return 0; }
      lo, hi := n.indices[i].block, Next(n, i, hi);
      n := c;
    }
    r := SearchLeaf(n, l);
  }

  // ---- why it is right -----------------------------------------------------------------------------------

  ghost predicate Misses(es: seq<Extent>, l: nat)
  {
    forall e :: e in es ==> !e.Covers(l)
  }

  /** Extents that do not cover a block do not change its lookup. */
  lemma {:induction false} SkipBoth(a: seq<Extent>, b: seq<Extent>, l: nat)
    ensures Misses(a, l) ==> GetBlock(a + b, l) == GetBlock(b, l)
    ensures Misses(b, l) ==> GetBlock(a + b, l) == GetBlock(a, l)
  {
    if a == [] {
      assert a + b == b;
      MissesAll(b, l);
    } else {
      assert (a + b)[1..] == a[1..] + b && a[0] in a;
      SkipBoth(a[1..], b, l);
    }
  }

  lemma {:induction false} MissesAll(es: seq<Extent>, l: nat)
    ensures Misses(es, l) ==> GetBlock(es, l) == 0
  {
    if es != [] {
      assert es[0] in es;
      MissesAll(es[1..], l);
    }
  }

  lemma {:induction false} LeavesRanged(d: Disk, n: Node, lo: nat, hi: nat)
    requires Levels(d, n) && Ranged(d, n, lo, hi)
    ensures forall e :: e in Leaves(d, n) ==> lo <= e.block && e.block + e.len <= hi
    decreases n.depth, |n.indices| + 1
  {
    if n.magic == MAGIC && n.depth > 0 { LeavesFromRanged(d, n, lo, hi, 0); }
  }

  lemma {:induction false} LeavesFromRanged(d: Disk, n: Node, lo: nat, hi: nat, k: nat)
    requires Levels(d, n) && Ranged(d, n, lo, hi) && n.magic == MAGIC && n.depth > 0 && k <= |n.indices|
    ensures forall e :: e in LeavesFrom(d, n, k) ==>
              lo <= e.block && e.block + e.len <= hi && (k < |n.indices| ==> n.indices[k].block <= e.block)
    decreases n.depth, |n.indices| - k
  {
    if k < |n.indices| {
      var c := ChildAt(d, n, k);
      assert IndexFits(n, k, lo, hi);
      if c.magic == MAGIC { LeavesRanged(d, c, n.indices[k].block, Next(n, k, hi)); }
      LeavesFromRanged(d, n, lo, hi, k + 1);
    }
  }

  /** The part of the leaves from index `k` on that can hold `l` is the chosen child's. */
  lemma {:induction false} ChosenFrom(d: Disk, n: Node, lo: nat, hi: nat, l: nat, i: nat, k: nat)
    requires Levels(d, n) && Ranged(d, n, lo, hi) && n.magic == MAGIC && n.depth > 0 && hi <= LAST
    requires k <= i <= |n.indices| && (i < |n.indices| ==> Chosen(n, i, l))
    requires forall j :: 0 <= j < i ==> !Chosen(n, j, l)
    ensures GetBlock(LeavesFrom(d, n, k), l)
            == if i < |n.indices| && ChildAt(d, n, i).magic == MAGIC
                then GetBlock(Leaves(d, ChildAt(d, n, i)), l) else 0
    decreases i - k
  {
    if k < |n.indices| {
      var c := ChildAt(d, n, k);
      var mine, rest := if c.magic == MAGIC then Leaves(d, c) else [], LeavesFrom(d, n, k + 1);
      assert IndexFits(n, k, lo, hi);
      if c.magic == MAGIC { LeavesRanged(d, c, n.indices[k].block, Next(n, k, hi)); }
      LeavesFromRanged(d, n, lo, hi, k + 1);
      SkipBoth(mine, rest, l);
      if k < i {
        assert !Chosen(n, k, l);
        assert Misses(mine, l);
        ChosenFrom(d, n, lo, hi, l, i, k + 1);
      } else {
        assert Misses(rest, l);
      }
    }
  }

  lemma DescendStep(d: Disk, n: Node, lo: nat, hi: nat, l: nat, i: nat)
    requires Levels(d, n) && Ranged(d, n, lo, hi) && n.magic == MAGIC && n.depth > 0 && hi <= LAST
    requires i <= |n.indices| && (i < |n.indices| ==> Chosen(n, i, l))
    requires forall j :: 0 <= j < i ==> !Chosen(n, j, l)
    ensures GetBlock(Leaves(d, n), l)
            == if i < |n.indices| && ChildAt(d, n, i).magic == MAGIC
                then GetBlock(Leaves(d, ChildAt(d, n, i)), l) else 0
    ensures i < |n.indices| && ChildAt(d, n, i).magic == MAGIC ==>
              Ranged(d, ChildAt(d, n, i), n.indices[i].block, Next(n, i, hi)) && Next(n, i, hi) <= LAST
  {
    ChosenFrom(d, n, lo, hi, l, i, 0);
    assert i < |n.indices| ==> IndexFits(n, i, lo, hi);
  }
}
