/** FAT32 cluster chains (the section "FAT Data Structure" of the Microsoft FAT32 File System Specification 1.03):
    files as lists linked through the table. */
module Fat32 {

  const MASK: nat := 0x1000_0000
  const END: nat := 0x0FFF_FFF8
  const END_MARK: nat := 0x0FFF_FFFF
  const PER_SECTOR: nat := 128

  type Table = seq<nat>

  /** The entry of a cluster: its low 28 bits. */
  function Next(t: Table, c: nat): nat
    requires c < |t|
  {
    t[c] % MASK
  }

  // ---- chains --------------------------------------------------------------------------------------------

  ghost predicate Link(t: Table, cs: seq<nat>, i: nat)
    requires i < |cs|
  {
    2 <= cs[i] < |t| && if i + 1 < |cs| then Next(t, cs[i]) == cs[i + 1] else Next(t, cs[i]) >= 0x0FFF_FFF8
  }

  /** The clusters of a file, in order, up to one with an end mark. */
  ghost predicate IsChain(t: Table, cs: seq<nat>)
  {
    cs != [] && |t| <= END && forall i :: 0 <= i < |cs| ==> Link(t, cs, i)
  }

  /** A chain never comes back to a cluster. */
  lemma {:induction false} ChainDistinct(t: Table, cs: seq<nat>, i: nat, j: nat)
    requires IsChain(t, cs) && i < j < |cs|
    ensures cs[i] != cs[j]
    decreases |cs| - j
  {
    assert Link(t, cs, i) && Link(t, cs, j);
    if j + 1 < |cs| {
      ChainDistinct(t, cs, i + 1, j + 1);
    } else {
      assert Link(t, cs, i + 1);
    }
  }

  ghost predicate Disjoint(cs: seq<nat>, ds: seq<nat>)
  {
    forall x :: x in cs ==> x !in ds
  }

  lemma ChainUsed(t: Table, cs: seq<nat>, x: nat)
    requires IsChain(t, cs) && x in cs
    ensures 2 <= x < |t| && Next(t, x) != 0
  {
    var i :| 0 <= i < |cs| && cs[i] == x;
    assert Link(t, cs, i);
    assert i + 1 < |cs| ==> Link(t, cs, i + 1);
  }

  /** A change outside a chain's clusters leaves the chain alone. */
  lemma ChainKept(t: Table, u: Table, cs: seq<nat>)
    requires IsChain(t, cs) && |u| == |t| && forall x :: x in cs && x < |t| ==> u[x] == t[x]
    ensures IsChain(u, cs)
  {
    forall i | 0 <= i < |cs| ensures Link(u, cs, i) {
      assert Link(t, cs, i) && cs[i] in cs;
    }
  }

  // ---- extending -----------------------------------------------------------------------------------------

  /** Linking the last cluster of a chain to `c`, which has an end mark. */
  function Extended(t: Table, last: nat, c: nat): Table
    requires last < |t| && c < |t|
  {
    t[c := END_MARK][last := c % MASK]
  }

  /** The chain gains the cluster at its end. */
  lemma ExtendChain(t: Table, cs: seq<nat>, c: nat)
    requires IsChain(t, cs) && 2 <= c < |t| && Next(t, c) == 0
    ensures 2 <= cs[|cs| - 1] < |t| && IsChain(Extended(t, cs[|cs| - 1], c), cs + [c])
  {
    var n, ds := |cs| - 1, cs + [c];
    assert Link(t, cs, n);
    var u := Extended(t, cs[n], c);
    forall i | 0 <= i < |ds| ensures Link(u, ds, i) {
      if i <= n {
        assert Link(t, cs, i);
        assert cs[i] in cs;
        ChainUsed(t, cs, cs[i]);
        if i < n { ChainDistinct(t, cs, i, n); }
      }
    }
  }

  /** Every other chain stays as it is, and stays apart. */
  lemma ExtendOther(t: Table, cs: seq<nat>, c: nat, ds: seq<nat>)
    requires IsChain(t, cs) && IsChain(t, ds) && Disjoint(cs, ds) && 2 <= c < |t| && Next(t, c) == 0
    ensures 2 <= cs[|cs| - 1] < |t| && IsChain(Extended(t, cs[|cs| - 1], c), ds)
    ensures Disjoint(cs + [c], ds) && Disjoint(ds, cs + [c])
  {
    assert Link(t, cs, |cs| - 1) && cs[|cs| - 1] in cs;
    if c in ds { ChainUsed(t, ds, c); }
    ChainKept(t, Extended(t, cs[|cs| - 1], c), ds);
  }

  /** With no cluster left the code links to 0: the chain stays a chain exactly if it got one. */
  lemma ExtendKeeps(t: Table, cs: seq<nat>, c: nat)
    requires IsChain(t, cs) && (c == 0 || (2 <= c < |t| && Next(t, c) == 0))
    ensures 2 <= cs[|cs| - 1] < |t|
    ensures var last := cs[|cs| - 1];
            var u := if c == 0 then t[last := 0] else Extended(t, last, c);
            (exists ds :: IsChain(u, ds) && ds[0] == cs[0]) <==> c != 0
  {
    assert Link(t, cs, |cs| - 1);
    if c != 0 {
      ExtendChain(t, cs, c);
      assert (cs + [c])[0] == cs[0];
    } else {
      var u := t[cs[|cs| - 1] := 0];
      forall ds | IsChain(u, ds) ensures ds[0] != cs[0] { Broken(t, cs, ds, 0); }
    }
  }

  lemma {:induction false} Broken(t: Table, cs: seq<nat>, ds: seq<nat>, i: nat)
    requires IsChain(t, cs) && i < |cs| && cs[|cs| - 1] < |t| && IsChain(t[cs[|cs| - 1] := 0], ds) && i < |ds|
    ensures ds[i] != cs[i]
    decreases |cs| - i
  {
    assert Link(t, cs, i) && Link(t[cs[|cs| - 1] := 0], ds, i);
    assert i + 1 < |ds| ==> Link(t[cs[|cs| - 1] := 0], ds, i + 1);
    if i + 1 < |cs| {
      ChainDistinct(t, cs, i, |cs| - 1);
      assert Link(t, cs, i + 1);
      if i + 1 < |ds| { Broken(t, cs, ds, i + 1); }
    }
  }

  // ---- freeing -------------------------------------------------------------------------------------------

  /** The table with the clusters of a list free. */
  ghost predicate Cleared(t: Table, u: Table, cs: seq<nat>)
  {
    |u| == |t| && forall x :: 0 <= x < |t| ==> u[x] == if x in cs then 0 else t[x]
  }

  lemma FreeOther(t: Table, u: Table, cs: seq<nat>, ds: seq<nat>)
    requires IsChain(t, ds) && Disjoint(cs, ds) && Cleared(t, u, cs)
    ensures IsChain(u, ds)
  {
    ChainKept(t, u, ds);
  }

  // ---- counting ------------------------------------------------------------------------------------------

  /** The free entries among the first `n`. */
  function Free(t: Table, n: nat): nat
    requires n <= |t|
  {
    if n == 0 then 0 else Free(t, n - 1) + if Next(t, n - 1) == 0 then 1 else 0
  }

  function FreeAll(t: Table): nat { Free(t, |t|) }

  lemma {:induction false} FreeUpdate(t: Table, n: nat, c: nat, v: nat)
    requires c < |t| && n <= |t|
    ensures Free(t[c := v], n)
            == Free(t, n) + if c < n then (if v % MASK == 0 then 1 else 0) - (if Next(t, c) == 0 then 1 else 0) else 0
  {
    if n > 0 { FreeUpdate(t, n - 1, c, v); }
  }

  lemma {:induction false} FreeNone(t: Table, n: nat)
    requires n <= |t|
    ensures Free(t, n) == 0 <==> forall c :: 0 <= c < n ==> Next(t, c) != 0
  {
    if n > 0 { FreeNone(t, n - 1); }
  }

  // ---- files ---------------------------------------------------------------------------------------------

  /** Every entry is free, an end mark, or a cluster of the table. */
  ghost predicate InRange(t: Table)
  {
    |t| <= END && forall x :: 0 <= x < |t| ==> Next(t, x) < |t| || Next(t, x) >= END
  }

  lemma RangeKept(t: Table, c: nat, v: nat)
    requires InRange(t) && c < |t| && (v % MASK < |t| || v % MASK >= END)
    ensures InRange(t[c := v])
  {
    var u := t[c := v];
    forall x | 0 <= x < |u| ensures Next(u, x) < |u| || Next(u, x) >= END { assert x != c ==>
        Next(u, x) == Next(t, x); }
  }

  /** The reserved entries are in use, and the chains are chains and share no cluster. A deleted file has no
      chain. */
  ghost predicate Files(t: Table, files: seq<seq<nat>>)
  {
    && InRange(t) && 2 <= |t| && Next(t, 0) != 0 && Next(t, 1) != 0
    && (forall k :: 0 <= k < |files| && files[k] != [] ==> IsChain(t, files[k]))
    && (forall k, l :: 0 <= k < |files| && 0 <= l < |files| && k != l ==> Disjoint(files[k], files[l]))
  }

  function Total(files: seq<seq<nat>>): nat
  {
    if files == [] then 0 else |files[0]| + Total(files[1..])
  }

  lemma {:induction false} TotalUpdate(files: seq<seq<nat>>, k: nat, cs: seq<nat>)
    requires k < |files|
    ensures Total(files[k := cs]) == Total(files) - |files[k]| + |cs|
  {
    if k > 0 {
      assert files[k := cs][1..] == files[1..][k - 1 := cs];
      TotalUpdate(files[1..], k - 1, cs);
    }
  }

  lemma FilesExtend(t: Table, files: seq<seq<nat>>, k: nat, c: nat)
    requires Files(t, files) && k < |files| && files[k] != [] && c < |t| && Next(t, c) == 0
    ensures var cs := files[k]; 2 <= cs[|cs| - 1] < |t| && Files(Extended(t, cs[|cs| - 1], c), files[k := cs + [c]])
  {
    var cs := files[k];
    ExtendChain(t, cs, c);
    var u, fs := Extended(t, cs[|cs| - 1], c), files[k := cs + [c]];
    RangeKept(t, c, END_MARK);
    RangeKept(t[c := END_MARK], cs[|cs| - 1], c % MASK);
    forall l | 0 <= l < |fs| && fs[l] != [] ensures IsChain(u, fs[l]) {
      if l != k { ExtendOther(t, cs, c, files[l]); }
    }
    forall m, l | 0 <= m < |fs| && 0 <= l < |fs| && m != l ensures Disjoint(fs[m], fs[l]) {
      if m == k && files[l] != [] { ExtendOther(t, cs, c, files[l]); }
      if l == k && files[m] != [] { ExtendOther(t, cs, c, files[m]); }
    }
  }

  lemma FilesNew(t: Table, files: seq<seq<nat>>, c: nat)
    requires Files(t, files) && c < |t| && Next(t, c) == 0
    ensures Files(t[c := END_MARK], files + [[c]])
  {
    var u, fs := t[c := END_MARK], files + [[c]];
    RangeKept(t, c, END_MARK);
    forall l | 0 <= l < |files| && files[l] != [] ensures IsChain(u, files[l]) && c !in files[l] {
      if c in files[l] { ChainUsed(t, files[l], c); }
      ChainKept(t, u, files[l]);
    }
    forall i | 0 <= i < 1 ensures Link(u, [c], i) { }
  }

  lemma FilesFree(t: Table, u: Table, files: seq<seq<nat>>, k: nat)
    requires Files(t, files) && k < |files| && files[k] != [] && Cleared(t, u, files[k]) && InRange(u)
    ensures Files(u, files[k := []])
  {
    forall l | 0 <= l < |files| && l != k && files[l] != [] ensures IsChain(u, files[l]) {
      FreeOther(t, u, files[k], files[l]);
    }
    if 0 in files[k] { ChainUsed(t, files[k], 0); }
    if 1 in files[k] { ChainUsed(t, files[k], 1); }
  }

  /** File `k` now has at least `steps + 1` clusters, its old ones first; the others are as they were. */
  ghost predicate Grown(files: seq<seq<nat>>, files': seq<seq<nat>>, k: nat, steps: nat)
    requires k < |files|
  {
    && |files'| == |files| && files[k] <= files'[k] && steps < |files'[k]|
    && |files'[k]| == (if steps < |files[k]| then |files[k]| else steps + 1)
    && forall l :: 0 <= l < |files| && l != k ==> files'[l] == files[l]
  }

  lemma {:induction false} FreeBound(t: Table, n: nat)
    requires n <= |t|
    ensures Free(t, n) <= n
  {
    if n > 0 { FreeBound(t, n - 1); }
  }

  /** Entries are unchanged or free. */
  ghost predicate OnlyFreed(t: Table, u: Table)
  {
    |u| == |t| && forall x :: 0 <= x < |t| ==> u[x] == t[x] || u[x] == 0
  }

  /** One turn: an entry in use becomes free, or a free one was met, whose link is 0. */
  lemma FreeStep(t: Table, u: Table, c: nat)
    requires OnlyFreed(t, u) && InRange(u) && c < |u|
    ensures OnlyFreed(t, u[c := 0]) && InRange(u[c := 0])
    ensures |u| >= Free(u[c := 0], |u|) >= Free(u, |u|) && (Free(u[c := 0], |u|) == Free(u, |u|) ==> Next(u, c) == 0)
  {
    FreeUpdate(u, |u|, c, 0);
    FreeBound(u[c := 0], |u|);
    RangeKept(u, c, 0);
  }

  /** Freeing a chain has reached its cluster number `i`. */
  ghost predicate Progress(t: Table, u: Table, cs: seq<nat>, i: nat, c: nat)
  {
    && i <= |cs| && (if i < |cs| then c == cs[i] else c >= END) && Cleared(t, u, cs[..i])
    && FreeAll(u) == FreeAll(t) + i
  }

  lemma ChainStep(t: Table, u: Table, cs: seq<nat>, i: nat)
    requires IsChain(t, cs) && i < |cs| && Cleared(t, u, cs[..i]) && FreeAll(u) == FreeAll(t) + i
    ensures cs[i] < |t| && Progress(t, u[cs[i] := 0], cs, i + 1, Next(u, cs[i]))
  {
    assert Link(t, cs, i);
    forall j | 0 <= j < i ensures cs[j] != cs[i] { ChainDistinct(t, cs, j, i); }
    assert cs[..i + 1] == cs[..i] + [cs[i]];
    assert u[cs[i]] == t[cs[i]] && cs[i] in cs;
    ChainUsed(t, cs, cs[i]);
    FreeUpdate(u, |u|, cs[i], 0);
  }

  lemma ChainEnd(t: Table, u: Table, cs: seq<nat>, i: nat, c: nat)
    requires IsChain(t, cs) && Progress(t, u, cs, i, c) && (c >= END || c == 0)
    ensures Cleared(t, u, cs) && FreeAll(u) == FreeAll(t) + |cs|
  {
    assert i < |cs| ==> Link(t, cs, i);
    assert cs[..|cs|] == cs;
  }

  class Fat {
    const sectors: nat
    const table: array<nat>

    ghost predicate Valid()
      reads this, table
    {
      table.Length == sectors * 128
    }

    constructor (sectors: nat)
      ensures Valid() && fresh(table) && this.sectors == sectors
    {
      this.sectors := sectors;
      table := new nat[sectors * PER_SECTOR](_ => 0);
    }

    method GetNextCluster(c: nat) returns (next: nat)
      requires c < table.Length
      ensures next == Next(table[..], c)
    {
      next := table[c] % MASK;
    }

    method SetNextCluster(c: nat, next: nat)
      requires c < table.Length
      modifies table
      ensures table[..] == old(table[..])[c := next % 0x1000_0000]
    {
      table[c] := next % MASK;
    }

    /** The first free entry gets an end mark; 0 when there is none. Since 0 stands for failure, a table whose reserved
        entry 0 is free makes the call fail with that entry taken. */
    method AllocateCluster() returns (c: nat)
      requires Valid()
      modifies table
      ensures FreeAll(old(table[..])) == 0 ==> c == 0 && table[..] == old(table[..])
      ensures FreeAll(old(table[..])) > 0 ==>
                && c < table.Length && Next(old(table[..]), c) == 0 && table[..] == old(table[..])[c := 0x0FFF_FFFF]
                && forall x :: 0 <= x < c ==> Next(old(table[..]), x) != 0
      ensures c != 0 <==> FreeAll(old(table[..])) > 0 && table.Length > 0 && Next(old(table[..]), 0) != 0
    {
      FreeNone(table[..], table.Length);
      for i := 0 to sectors
        invariant table[..] == old(table[..])
        invariant forall x :: 0 <= x < i * PER_SECTOR ==> Next(table[..], x) != 0
      {
        for j := 0 to PER_SECTOR
          invariant table[..] == old(table[..])
          invariant forall x :: 0 <= x < i * PER_SECTOR + j ==> Next(table[..], x) != 0
        {
          if table[i * PER_SECTOR + j] % MASK == 0 {
            c := i * PER_SECTOR + j;
            assert Next(table[..], c) == 0;
            table[c] := END_MARK;
            return;
          }
        }
      }
      return 0;
    }

    /** One step of the walk in a write: past the last cluster the chain is extended. */
    method StepOrExtend(current: nat, ghost files: seq<seq<nat>>, ghost k: nat, ghost i: nat)
        returns (next: nat, ghost files': seq<seq<nat>>)
      requires Valid() && Files(table[..], files) && k < |files| && i < |files[k]| && current == files[k][i]
      requires i + 1 == |files[k]| ==> FreeAll(table[..]) > 0
      modifies table
      ensures Files(table[..], files') && |files'| == |files| && i + 1 < |files'[k]| && next == files'[k][i + 1]
      ensures if i + 1 < |files[k]| then files' == files && table[..] == old(table[..])
              else files' == files[k := files[k] + [next]] && next !in files[k]
      ensures FreeAll(table[..]) + Total(files') == old(FreeAll(table[..])) + Total(files)
    {
      ghost var t, cs := table[..], files[k];
      assert Link(t, cs, i);
      assert i + 1 < |cs| ==> Link(t, cs, i + 1);
      files' := files;
      next := GetNextCluster(current);
      if next >= END {
        next := AllocateCluster();
        if next in cs { ChainUsed(t, cs, next); }
        FilesExtend(t, files, k, next);
        SetNextCluster(current, next);
        FreeUpdate(t, |t|, next, END_MARK);
        FreeUpdate(t[next := END_MARK], |t|, current, next);
        TotalUpdate(files, k, cs + [next]);
        files' := files[k := cs + [next]];
      }
    }

    /** The walk to cluster number `steps` of a file, as every write begins: the chain is extended by fresh clusters
        as far as needed and no other chain changes. */
    method WalkTo(first: nat, steps: nat, ghost files: seq<seq<nat>>, ghost k: nat)
        returns (current: nat, ghost files': seq<seq<nat>>)
      requires Valid() && Files(table[..], files) && k < |files| && files[k] != [] && first == files[k][0]
      requires steps < |files[k]| + FreeAll(table[..])
      modifies table
      ensures Files(table[..], files') && Grown(files, files', k, steps) && current == files'[k][steps]
      ensures FreeAll(table[..]) + Total(files') == old(FreeAll(table[..])) + Total(files)
    {
      current, files' := first, files;
      for i := 0 to steps
        invariant Files(table[..], files') && Grown(files, files', k, i) && current == files'[k][i]
        invariant FreeAll(table[..]) + Total(files') == old(FreeAll(table[..])) + Total(files)
        invariant FreeAll(table[..]) + |files'[k]| == old(FreeAll(table[..])) + |files[k]|
      {
        ghost var before := files';
        current, files' := StepOrExtend(current, files', k, i);
        TotalUpdate(before, k, files'[k]);
      }
    }

    /** Frees from a cluster on, whatever the table holds: it ends on every table whose entries stay inside it, since
        each turn but the last uses up an entry in use. A chain is freed exactly. */
    method FreeClusterChain(cluster: nat, ghost cs: seq<nat>)
      requires Valid() && InRange(table[..]) && (cluster < table.Length || cluster >= END)
      modifies table
      ensures OnlyFreed(old(table[..]), table[..]) && InRange(table[..])
      ensures IsChain(old(table[..]), cs) && cs[0] == cluster ==>
                Cleared(old(table[..]), table[..], cs) && FreeAll(table[..]) == FreeAll(old(table[..])) + |cs|
    {
      ghost var t, chain := table[..], IsChain(table[..], cs) && cs[0] == cluster;
      assert chain ==> Link(t, cs, 0);
      if cluster < 2 { return; }
      var c: nat := cluster;
      ghost var i: nat := 0;
      while c < END && c != 0
        invariant (c < table.Length || c >= END) && InRange(table[..]) && OnlyFreed(t, table[..])
        invariant chain ==> Progress(t, table[..], cs, i, c)
        decreases table.Length - FreeAll(table[..]), if c < END && c != 0 then 1 else 0
      {
        ghost var u := table[..];
        FreeStep(t, u, c);
        if chain { ChainStep(t, u, cs, i); }
        var next := GetNextCluster(c);
        table[c] := 0;
        assert table[..] == u[c := 0];
        c := next;
        i := i + 1;
      }
      if chain { ChainEnd(t, table[..], cs, i, c); }
    }
  }

  // ---- runs ----------------------------------------------------------------------------------------------

  /** A new file, a write that reaches cluster number `steps`, a deletion. */
  datatype Op = Create | Grow(k: nat, steps: nat) | Delete(k: nat)

  /** The number of free clusters, and how many clusters each file has. */
  datatype Space = Space(free: nat, lengths: seq<nat>)

  /** There are clusters for what the file does not have yet. A creation needs none: it fails cleanly. */
  predicate HasRoom(s: Space, op: Op)
  {
    op.Grow? && op.k < |s.lengths| && s.lengths[op.k] > 0 ==> op.steps < s.lengths[op.k] + s.free
  }

  /** The room is needed: no way of giving file `k` its clusters, with every cluster free or in one file as before and
      the other files as long as they were, does without it. */
  lemma RoomNeeded(t: Table, files: seq<seq<nat>>, k: nat, steps: nat, t': Table, files': seq<seq<nat>>)
    requires k < |files| == |files'| && files[k] != [] && |files'[k]| >= steps + 1
    requires files' == files[k := files'[k]]
    requires FreeAll(t') + Total(files') == FreeAll(t) + Total(files)
    ensures HasRoom(SpaceOf(t, files), Grow(k, steps))
  {
    TotalUpdate(files, k, files'[k]);
  }

  function After(s: Space, op: Op): Space
    requires HasRoom(s, op)
  {
    match op
    case Create => if s.free == 0 then s else Space(s.free - 1, s.lengths + [1])
    case Grow(k, steps) =>
      if k < |s.lengths| && 0 < s.lengths[k] <= steps then
        Space(s.free - (steps + 1 - s.lengths[k]), s.lengths[k := steps + 1])
      else s
    case Delete(k) => if k < |s.lengths| then Space(s.free + s.lengths[k], s.lengths[k := 0]) else s
  }

  /** Every step of the run finds the clusters it needs, counting those freed before. */
  predicate CanRun(s: Space, ops: seq<Op>)
    decreases |ops|
  {
    ops == [] || (HasRoom(s, ops[0]) && CanRun(After(s, ops[0]), ops[1..]))
  }

  function RunSpace(s: Space, ops: seq<Op>): Space
    requires CanRun(s, ops)
    decreases |ops|
  {
    if ops == [] then s else RunSpace(After(s, ops[0]), ops[1..])
  }

  ghost function Lengths(files: seq<seq<nat>>): seq<nat>
  {
    seq(|files|, k requires 0 <= k < |files| => |files[k]|)
  }

  ghost function SpaceOf(t: Table, files: seq<seq<nat>>): Space
  {
    Space(FreeAll(t), Lengths(files))
  }

  /** The first clusters, 0 for a deleted file, as the directory entries hold them. */
  ghost predicate Heads(firsts: seq<nat>, files: seq<seq<nat>>)
  {
    |firsts| == |files| && forall k :: 0 <= k < |files| ==> firsts[k] == if files[k] == [] then 0 else files[k][0]
  }

  /** What became of the files: each kept its clusters and perhaps gained some, or was deleted for good; and one that no
      operation names is as it was. */
  ghost predicate Evolved(files: seq<seq<nat>>, files': seq<seq<nat>>, ops: seq<Op>)
  {
    |files| <= |files'| && forall k :: 0 <= k < |files| ==> Became(files[k], files'[k], ops, k)
  }

  ghost predicate Became(cs: seq<nat>, cs': seq<nat>, ops: seq<Op>, k: nat)
  {
    && (Delete(k) in ops || cs == [] ==> cs' == [])
    && (Delete(k) !in ops ==> cs <= cs')
    && (Delete(k) !in ops && (forall steps :: Grow(k, steps) !in ops) ==> cs' == cs)
  }

  lemma EvolvedTrans(a: seq<seq<nat>>, b: seq<seq<nat>>, c: seq<seq<nat>>, ops: seq<Op>, op: Op)
    requires Evolved(a, b, ops) && Evolved(b, c, [op])
    ensures Evolved(a, c, ops + [op])
  {
    forall k | 0 <= k < |a| ensures Became(a[k], c[k], ops + [op], k) {
      assert Became(a[k], b[k], ops, k) && Became(b[k], c[k], [op], k);
    }
  }

  /** What one operation does to the files. */
  ghost predicate Effect(files: seq<seq<nat>>, files': seq<seq<nat>>, op: Op)
  {
    match op
    case Create => files <= files'
    case Grow(k, _) =>
      && |files'| == |files|
      && forall l :: 0 <= l < |files| ==>
           if l == k then files[l] <= files'[l] && (files[l] == [] ==> files'[l] == []) else files'[l] == files[l]
    case Delete(k) =>
      |files'| == |files| && forall l :: 0 <= l < |files| ==> files'[l] == if l == k then [] else files[l]
  }

  lemma EffectEvolved(files: seq<seq<nat>>, files': seq<seq<nat>>, op: Op)
    requires Effect(files, files', op)
    ensures Evolved(files, files', [op])
  {
    assert op in [op];
    forall k | 0 <= k < |files| ensures Became(files[k], files'[k], [op], k) {
      assert op.Grow? && op.k == k ==> Grow(k, op.steps) in [op];
    }
  }

  /** What an operation leaves behind, on the table and on the files. */
  ghost predicate Performed(t: Table, files: seq<seq<nat>>, op: Op, t': Table, firsts': seq<nat>, files': seq<seq<nat>>)
  {
    && Files(t', files') && Heads(firsts', files') && Effect(files, files', op)
    && HasRoom(SpaceOf(t, files), op) && SpaceOf(t', files') == After(SpaceOf(t, files), op)
    && FreeAll(t') + Total(files') == FreeAll(t) + Total(files)
  }

  lemma HeadUsed(t: Table, files: seq<seq<nat>>, firsts: seq<nat>, k: nat)
    requires Files(t, files) && Heads(firsts, files) && k < |files|
    ensures firsts[k] != 0 <==> files[k] != []
    ensures firsts[k] < |t|
  {
    assert files[k] != [] ==> IsChain(t, files[k]) && Link(t, files[k], 0);
  }

  method CreateFile(f: Fat, firsts: seq<nat>, ghost files: seq<seq<nat>>)
      returns (firsts': seq<nat>, ghost files': seq<seq<nat>>)
    requires f.Valid() && Files(f.table[..], files) && Heads(firsts, files)
    modifies f.table
    ensures Performed(old(f.table[..]), files, Create, f.table[..], firsts', files')
  {
    ghost var t := f.table[..];
    firsts', files' := firsts, files;
    var c := f.AllocateCluster();
    if c != 0 {
      FilesNew(t, files, c);
      FreeUpdate(t, |t|, c, END_MARK);
      TotalCat(files, [c]);
      firsts', files' := firsts + [c], files + [[c]];
      assert Lengths(files') == Lengths(files) + [1];
    }
  }

  method GrowFile(f: Fat, k: nat, steps: nat, firsts: seq<nat>, ghost files: seq<seq<nat>>)
      returns (ghost files': seq<seq<nat>>)
    requires f.Valid() && Files(f.table[..], files) && Heads(firsts, files)
    requires HasRoom(SpaceOf(f.table[..], files), Grow(k, steps))
    modifies f.table
    ensures Performed(old(f.table[..]), files, Grow(k, steps), f.table[..], firsts, files')
  {
    ghost var t := f.table[..];
    files' := files;
    if k < |firsts| {
      HeadUsed(t, files, firsts, k);
      if firsts[k] != 0 {
        var current;
        current, files' := f.WalkTo(firsts[k], steps, files, k);
        TotalGrown(files, files', k);
        assert Lengths(files') == Lengths(files)[k := |files'[k]|];
        assert steps < |files[k]| ==> Lengths(files)[k := |files[k]|] == Lengths(files);
      }
    }
  }

  method DeleteFile(f: Fat, k: nat, firsts: seq<nat>, ghost files: seq<seq<nat>>)
      returns (firsts': seq<nat>, ghost files': seq<seq<nat>>)
    requires f.Valid() && Files(f.table[..], files) && Heads(firsts, files)
    modifies f.table
    ensures Performed(old(f.table[..]), files, Delete(k), f.table[..], firsts', files')
  {
    ghost var t := f.table[..];
    firsts', files' := firsts, files;
    if k < |firsts| {
      HeadUsed(t, files, firsts, k);
      if firsts[k] != 0 {
        f.FreeClusterChain(firsts[k], files[k]);
        FilesFree(t, f.table[..], files, k);
        TotalUpdate(files, k, []);
        firsts', files' := firsts[k := 0], files[k := []];
      }
      assert Lengths(files') == Lengths(files)[k := 0];
    }
  }

  method Perform(f: Fat, op: Op, firsts: seq<nat>, ghost files: seq<seq<nat>>)
      returns (firsts': seq<nat>, ghost files': seq<seq<nat>>)
    requires f.Valid() && Files(f.table[..], files) && Heads(firsts, files) && HasRoom(SpaceOf(f.table[..], files), op)
    modifies f.table
    ensures Performed(old(f.table[..]), files, op, f.table[..], firsts', files')
  {
    firsts' := firsts;
    match op {
      case Create => firsts', files' := CreateFile(f, firsts, files);
      case Grow(k, steps) => files' := GrowFile(f, k, steps, firsts, files);
      case Delete(k) => firsts', files' := DeleteFile(f, k, firsts, files);
    }
  }

  lemma {:induction false} TotalCat(files: seq<seq<nat>>, cs: seq<nat>)
    ensures Total(files + [cs]) == Total(files) + |cs|
  {
    if files == [] {
      assert [cs][1..] == [] && files + [cs] == [cs];
    } else {
      assert (files + [cs])[1..] == files[1..] + [cs];
      TotalCat(files[1..], cs);
    }
  }

  lemma TotalGrown(files: seq<seq<nat>>, files': seq<seq<nat>>, k: nat)
    requires k < |files| == |files'| && forall l :: 0 <= l < |files| && l != k ==> files'[l] == files[l]
    ensures Total(files') == Total(files) - |files[k]| + |files'[k]|
  {
    assert files' == files[k := files'[k]];
    TotalUpdate(files, k, files'[k]);
  }

  /** Every run of creations, writes and deletions in which each write finds the clusters it still needs keeps the
      files' chains free of cycles and apart, gives each file exactly the clusters it asked for, touches no file it
      does not name, and neither loses nor invents a cluster. */
  method Run(f: Fat, ops: seq<Op>, firsts: seq<nat>, ghost files: seq<seq<nat>>)
      returns (firsts': seq<nat>, ghost files': seq<seq<nat>>)
    requires f.Valid() && Files(f.table[..], files) && Heads(firsts, files) && CanRun(SpaceOf(f.table[..], files), ops)
    modifies f.table
    ensures Files(f.table[..], files') && Heads(firsts', files') && Evolved(files, files', ops)
    ensures SpaceOf(f.table[..], files') == RunSpace(SpaceOf(old(f.table[..]), files), ops)
    ensures FreeAll(f.table[..]) + Total(files') == old(FreeAll(f.table[..])) + Total(files)
  {
    firsts', files' := firsts, files;
    ghost var s := SpaceOf(f.table[..], files);
    for i := 0 to |ops|
      invariant Files(f.table[..], files') && Heads(firsts', files') && Evolved(files, files', ops[..i])
      invariant CanRun(SpaceOf(f.table[..], files'), ops[i..])
      invariant RunSpace(SpaceOf(f.table[..], files'), ops[i..]) == RunSpace(s, ops)
      invariant FreeAll(f.table[..]) + Total(files') == old(FreeAll(f.table[..])) + Total(files)
    {
      ghost var before := files';
      assert ops[i..][1..] == ops[i + 1..];
      firsts', files' := Perform(f, ops[i], firsts', files');
      EffectEvolved(before, files', ops[i]);
      EvolvedTrans(files, before, files', ops[..i], ops[i]);
      assert ops[..i] + [ops[i]] == ops[..i + 1];
    }
    assert ops[..|ops|] == ops && ops[|ops|..] == [];
  }
}
