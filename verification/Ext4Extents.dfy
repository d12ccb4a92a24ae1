/** Extents held in the inode itself (depth 0): lookup, and adding one block. */
module Ext4Extents {
  import opened Common

  /** `len` logical blocks from `block` on, at consecutive physical blocks; the physical start is stored in
      two parts of 16 and 32 bits. */
  datatype Extent = Extent(block: nat, len: nat, startHi: nat, startLo: nat)
  {
    function Start(): nat { startHi * TWO_32 + startLo }

    /** The 32-bit comparison of the lookup: the end wraps. */
    predicate Covers(l: nat) { block <= l < (block + len) % TWO_32 }
  }

  function MakeExtent(l: nat, len: nat, phys: nat): Extent
  {
    Extent(l, len, phys / TWO_32 % TWO_16, phys % TWO_32)
  }

  /** Storing a physical block and reading it back loses nothing exactly below 2^48. */
  lemma StoredStart(l: nat, len: nat, phys: nat)
    ensures MakeExtent(l, len, phys).Start() == phys <==> phys < TWO_48
  {
  }

  /** What a lookup of `l` in a list of extents returns; 0 stands for a hole. */
  function GetBlock(es: seq<Extent>, l: nat): nat
  {
    if es == [] then 0
    else if es[0].Covers(l) then es[0].Start() + (l - es[0].block)
    else GetBlock(es[1..], l)
  }

  /** Non-empty extents that do not wrap and do not start at block 0. */
  ghost predicate WellFormed(es: seq<Extent>)
  {
    forall e :: e in es ==> e.len > 0 && e.block + e.len < TWO_32 && e.Start() > 0
  }

  function Blocks(es: seq<Extent>): nat
  {
    if es == [] then 0 else es[0].len + Blocks(es[1..])
  }

  lemma {:induction false} GetBlockAppend(es: seq<Extent>, e: Extent, l: nat)
    requires WellFormed(es)
    ensures GetBlock(es + [e], l)
            == if GetBlock(es, l) != 0 then GetBlock(es, l) else if e.Covers(l) then e.Start() + (l - e.block) else 0
    ensures Blocks(es + [e]) == Blocks(es) + e.len
  {
    if es == [] {
      assert [e][1..] == [] && es + [e] == [e];
    } else {
      assert (es + [e])[1..] == es[1..] + [e] && es[0] in es;
      GetBlockAppend(es[1..], e, l);
    }
  }

  // ---- adding a block -----------------------------------------------------------------------------------

  /** The inode's extent list and its capacity. */
  datatype Inode = Inode(extents: seq<Extent>, max: nat, size: nat)

  /** The logical block continues the last extent. */
  predicate Continues(n: Inode, l: nat)
  {
    n.extents != [] && var last := n.extents[|n.extents| - 1]; l == (last.block + last.len) % TWO_32
  }

  /** The physical block does too, and the extent may grow. */
  predicate Merges(n: Inode, b: nat)
    requires n.extents != []
  {
    var last := n.extents[|n.extents| - 1];
    b == last.Start() + last.len && last.len < 32768
  }

  /** The inode with physical block `b` at logical block `l`. */
  function AddBlock(n: Inode, l: nat, b: nat): Inode
  {
    var k := |n.extents|;
    if Continues(n, l) && Merges(n, b) then
      n.(extents := n.extents[..k - 1] + [n.extents[k - 1].(len := n.extents[k - 1].len + 1)])
    else
      n.(extents := n.extents + [MakeExtent(l, 1, b)])
  }

  lemma GrowLast(front: seq<Extent>, last: Extent, l: nat, b: nat, m: nat)
    requires WellFormed(front) && last.len > 0 && last.block + last.len < TWO_32 && last.Start() > 0
    requires GetBlock(front + [last], l) == 0 && l == last.block + last.len && b == last.Start() + last.len
    requires l + 1 < TWO_32
    ensures var grown := last.(len := last.len + 1);
            && grown.Start() == last.Start()
            && GetBlock(front + [grown], m) == (if m == l then b else GetBlock(front + [last], m))
            && Blocks(front + [grown]) == Blocks(front + [last]) + 1
  {
    var grown := last.(len := last.len + 1);
    GetBlockAppend(front, last, m);
    GetBlockAppend(front, grown, m);
    GetBlockAppend(front, last, l);
    assert grown.Covers(m) <==> last.Covers(m) || m == l;
  }

  lemma AppendNew(es: seq<Extent>, l: nat, b: nat, m: nat)
    requires WellFormed(es) && GetBlock(es, l) == 0 && 0 < b < TWO_48 && l + 1 < TWO_32
    ensures WellFormed(es + [MakeExtent(l, 1, b)])
    ensures GetBlock(es + [MakeExtent(l, 1, b)], m) == if m == l then b else GetBlock(es, m)
    ensures Blocks(es + [MakeExtent(l, 1, b)]) == Blocks(es) + 1
  {
    StoredStart(l, 1, b);
    GetBlockAppend(es, MakeExtent(l, 1, b), m);
  }

  /** Adding a block is an update of the lookup at that logical block and nowhere else. */
  lemma AddBlockIsUpdate(n: Inode, l: nat, b: nat, m: nat)
    requires WellFormed(n.extents) && GetBlock(n.extents, l) == 0 && 0 < b < TWO_48 && l + 1 < TWO_32
    ensures WellFormed(AddBlock(n, l, b).extents)
    ensures GetBlock(AddBlock(n, l, b).extents, m) == if m == l then b else GetBlock(n.extents, m)
    ensures Blocks(AddBlock(n, l, b).extents) == Blocks(n.extents) + 1
  {
    var es, k := n.extents, |n.extents|;
    if Continues(n, l) && Merges(n, b) {
      assert es == es[..k - 1] + [es[k - 1]] && es[k - 1] in es;
      GrowLast(es[..k - 1], es[k - 1], l, b, m);
    } else {
      AppendNew(es, l, b, m);
    }
  }
}
