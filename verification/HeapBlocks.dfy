/** Lists of heap blocks: first-fit allocation with splitting, and coalescing. */
module HeapBlocks {

  const HEADER: nat := 24

  // ---- block lists --------------------------------------------------------------------------------------

  /** A heap block: its header at `addr` and `size` payload bytes after it. */
  datatype Block = Block(addr: nat, size: nat, free: bool)
  {
    function Payload(): nat { addr + HEADER }
    function End(): nat { addr + HEADER + size }
  }

  /** In address order, pairwise disjoint, inside `[lo, hi)`. */
  ghost predicate Ordered(bs: seq<Block>, lo: nat, hi: nat)
  {
    && (forall i :: 0 <= i < |bs| ==> lo <= bs[i].addr && bs[i].End() <= hi)
    && (forall i, j :: 0 <= i < j < |bs| ==> Before(bs, i, j))
  }

  ghost predicate Before(bs: seq<Block>, i: nat, j: nat)
    requires i < |bs| && j < |bs|
  {
    bs[i].End() <= bs[j].addr
  }

  /** No two neighbours are both free. */
  ghost predicate Coalesced(bs: seq<Block>)
  {
    forall i :: 0 <= i < |bs| - 1 ==> Apart(bs, i)
  }

  ghost predicate Apart(bs: seq<Block>, i: nat)
    requires i + 1 < |bs|
  {
    !bs[i].free || !bs[i + 1].free
  }

  /** Header and payload bytes of all blocks. */
  function Bytes(bs: seq<Block>): nat
  {
    if bs == [] then 0 else HEADER + bs[0].size + Bytes(bs[1..])
  }

  /** The blocks in use, in address order. */
  function Live(bs: seq<Block>): seq<Block>
  {
    if bs == [] then [] else if bs[0].free then Live(bs[1..]) else [bs[0]] + Live(bs[1..])
  }

  lemma {:induction false} BytesConcat(a: seq<Block>, b: seq<Block>)
    ensures Bytes(a + b) == Bytes(a) + Bytes(b)
  {
    if a == [] {
      assert a + b == b;
    } else {
      assert (a + b)[1..] == a[1..] + b;
      BytesConcat(a[1..], b);
    }
  }

  lemma {:induction false} LiveConcat(a: seq<Block>, b: seq<Block>)
    ensures Live(a + b) == Live(a) + Live(b)
  {
    if a == [] {
      assert a + b == b;
    } else {
      assert (a + b)[1..] == a[1..] + b;
      LiveConcat(a[1..], b);
    }
  }

  lemma Splice(a: seq<Block>, b: Block, d: seq<Block>)
    ensures Live(a + [b] + d) == Live(a) + (if b.free then [] else [b]) + Live(d)
    ensures Bytes(a + [b] + d) == Bytes(a) + HEADER + b.size + Bytes(d)
  {
    LiveConcat(a + [b], d);
    LiveConcat(a, [b]);
    BytesConcat(a + [b], d);
    BytesConcat(a, [b]);
    One(b);
  }

  lemma One(b: Block)
    ensures Live([b]) == (if b.free then [] else [b]) && Bytes([b]) == HEADER + b.size
  {
    assert [b][1..] == [];
  }

  // ---- allocation ---------------------------------------------------------------------------------------

  predicate Fits(b: Block, size: nat)
  {
    b.free && b.size >= size
  }

  /** A free block is split when more than a header and 16 bytes would be left over. */
  predicate Splits(b: Block, size: nat)
  {
    b.size > size + HEADER + 16
  }

  /** The block handed out. */
  function Given(b: Block, size: nat): Block
  {
    Block(b.addr, if Splits(b, size) then size else b.size, false)
  }

  function Remainder(b: Block, size: nat): Block
    requires Splits(b, size)
  {
    Block(b.addr + HEADER + size, b.size - size - HEADER, true)
  }

  function Insert(bs: seq<Block>, k: nat, b: Block): seq<Block>
    requires k <= |bs|
  {
    bs[..k] + [b] + bs[k..]
  }

  function Take(bs: seq<Block>, k: nat, size: nat): seq<Block>
    requires k < |bs| && Fits(bs[k], size)
  {
    var used := bs[k := Given(bs[k], size)];
    if Splits(bs[k], size) then Insert(used, k + 1, Remainder(bs[k], size)) else used
  }

  lemma ShrinkOrdered(bs: seq<Block>, k: nat, b: Block, lo: nat, hi: nat)
    requires k < |bs| && Ordered(bs, lo, hi) && b.addr == bs[k].addr && b.End() <= bs[k].End()
    ensures Ordered(bs[k := b], lo, hi)
  {
    var t := bs[k := b];
    forall i, j | 0 <= i < j < |bs| ensures Before(t, i, j) { assert Before(bs, i, j); }
  }

  lemma InsertOrdered(bs: seq<Block>, k: nat, b: Block, lo: nat, hi: nat)
    requires 1 <= k <= |bs| && Ordered(bs, lo, hi) && bs[k - 1].End() <= b.addr && b.End() <= hi
    requires k < |bs| ==> b.End() <= bs[k].addr
    ensures Ordered(Insert(bs, k, b), lo, hi)
  {
    var t := Insert(bs, k, b);
    assert lo <= bs[k - 1].addr;
    forall i, j | 0 <= i < j < |t| ensures Before(t, i, j) {
      if i != k && j != k {
        assert Before(bs, if i < k then i else i - 1, if j < k then j else j - 1);
      } else if j == k {
        if i < k - 1 { assert Before(bs, i, k - 1); }
      } else {
        if j - 1 > k { assert Before(bs, k, j - 1); }
      }
    }
  }

  /** What is left over behind it is one free block, up to where the old one ended. */
  lemma TakeRest(bs: seq<Block>, k: nat, size: nat)
    requires k < |bs| && Fits(bs[k], size)
    ensures var t := Take(bs, k, size);
            && t[..k] == bs[..k] && t[k].addr == bs[k].addr
            && if bs[k].size - size > 40
               then && |t| == |bs| + 1 && t[k + 2..] == bs[k + 1..] && t[k + 1].free
                    && t[k].End() == t[k + 1].addr && t[k + 1].End() == bs[k].End()
               else |t| == |bs| && t[k + 1..] == bs[k + 1..] && t[k].End() == bs[k].End()
  {
  }

  lemma TakeOrdered(bs: seq<Block>, k: nat, size: nat, lo: nat, hi: nat)
    requires k < |bs| && Fits(bs[k], size) && Ordered(bs, lo, hi)
    ensures Ordered(Take(bs, k, size), lo, hi)
  {
    var used := bs[k := Given(bs[k], size)];
    ShrinkOrdered(bs, k, Given(bs[k], size), lo, hi);
    if Splits(bs[k], size) {
      if k + 1 < |bs| { assert Before(bs, k, k + 1); }
      InsertOrdered(used, k + 1, Remainder(bs[k], size), lo, hi);
    }
  }

  lemma TakeCoalesced(bs: seq<Block>, k: nat, size: nat)
    requires k < |bs| && Fits(bs[k], size) && Coalesced(bs)
    ensures Coalesced(Take(bs, k, size))
  {
    var t := Take(bs, k, size);
    var c := |t| - |bs|;
    forall i | 0 <= i < |t| - 1 ensures Apart(t, i) {
      if i + 1 < k { assert Apart(bs, i); }
      if i > k { assert i - c + 1 < |bs| && Apart(bs, i - c); }
    }
  }

  /** Allocation adds one block to the live ones and keeps all others and the number of bytes covered. The block has the
      size asked for if more than 40 bytes would be left over, and else is the whole free block. */
  lemma TakeLive(bs: seq<Block>, k: nat, size: nat)
    requires k < |bs| && Fits(bs[k], size)
    ensures Given(bs[k], size).addr == bs[k].addr && !Given(bs[k], size).free
    ensures Given(bs[k], size).size == if bs[k].size - size > 40 then size else bs[k].size
    ensures Live(bs) == Live(bs[..k]) + Live(bs[k + 1..])
    ensures Live(Take(bs, k, size)) == Live(bs[..k]) + [Given(bs[k], size)] + Live(bs[k + 1..])
    ensures Bytes(Take(bs, k, size)) == Bytes(bs)
  {
    var g := Given(bs[k], size);
    var used := bs[k := g];
    UpdateLive(bs, k, g);
    if Splits(bs[k], size) {
      InsertFree(used, k + 1, Remainder(bs[k], size));
    }
  }

  lemma UpdateLive(bs: seq<Block>, k: nat, b: Block)
    requires k < |bs| && bs[k].free && !b.free
    ensures Live(bs) == Live(bs[..k]) + Live(bs[k + 1..])
    ensures Live(bs[k := b]) == Live(bs[..k]) + [b] + Live(bs[k + 1..])
    ensures Bytes(bs[k := b]) == Bytes(bs) - bs[k].size + b.size
  {
    assert bs == bs[..k] + [bs[k]] + bs[k + 1..];
    assert bs[k := b] == bs[..k] + [b] + bs[k + 1..];
    Splice(bs[..k], bs[k], bs[k + 1..]);
    Splice(bs[..k], b, bs[k + 1..]);
    assert Live(bs[..k]) + [] == Live(bs[..k]);
  }

  lemma InsertFree(bs: seq<Block>, k: nat, b: Block)
    requires k <= |bs| && b.free
    ensures Live(Insert(bs, k, b)) == Live(bs) && Bytes(Insert(bs, k, b)) == Bytes(bs) + HEADER + b.size
  {
    Splice(bs[..k], b, bs[k..]);
    LiveConcat(bs[..k], bs[k..]);
    BytesConcat(bs[..k], bs[k..]);
    assert bs == bs[..k] + bs[k..];
    assert Live(bs[..k]) + [] == Live(bs[..k]);
  }

  // ---- coalescing ---------------------------------------------------------------------------------------

  function Joined(a: Block, b: Block): Block
  {
    Block(a.addr, a.size + HEADER + b.size, true)
  }

  function MergeAt(bs: seq<Block>, k: nat): seq<Block>
    requires k + 1 < |bs|
  {
    bs[..k] + [Joined(bs[k], bs[k + 1])] + bs[k + 2..]
  }

  /** Every maximal run of free blocks joined into one, from left to right. */
  function Merge(bs: seq<Block>): seq<Block>
    decreases |bs|
  {
    if |bs| < 2 then bs
    else if bs[0].free && bs[1].free then Merge([Joined(bs[0], bs[1])] + bs[2..])
    else [bs[0]] + Merge(bs[1..])
  }

  lemma MergeAtOrdered(bs: seq<Block>, k: nat, lo: nat, hi: nat)
    requires k + 1 < |bs| && Ordered(bs, lo, hi)
    ensures Ordered(MergeAt(bs, k), lo, hi)
  {
    var m := MergeAt(bs, k);
    assert Before(bs, k, k + 1);
    forall i, j | 0 <= i < j < |m| ensures Before(m, i, j) {
      assert Before(bs, if i <= k then i else i + 1, if j <= k then j else j + 1);
      if i == k { assert Before(bs, k + 1, j + 1); }
    }
  }

  lemma TailOrdered(bs: seq<Block>, lo: nat, hi: nat)
    requires bs != [] && Ordered(bs, lo, hi)
    ensures Ordered(bs[1..], bs[0].End(), hi)
  {
    var rest := bs[1..];
    forall i | 0 <= i < |rest| ensures bs[0].End() <= rest[i].addr { assert Before(bs, 0, i + 1); }
    forall i, j | 0 <= i < j < |rest| ensures Before(rest, i, j) { assert Before(bs, i + 1, j + 1); }
  }

  lemma ConsOrdered(b: Block, bs: seq<Block>, lo: nat, hi: nat)
    requires lo <= b.addr && b.End() <= hi && Ordered(bs, b.End(), hi)
    ensures Ordered([b] + bs, lo, hi)
  {
    var all := [b] + bs;
    forall i, j | 0 <= i < j < |all| ensures Before(all, i, j) {
      if i > 0 { assert Before(bs, i - 1, j - 1); }
    }
  }

  lemma {:induction false} MergeOrdered(bs: seq<Block>, lo: nat, hi: nat)
    requires Ordered(bs, lo, hi)
    ensures Ordered(Merge(bs), lo, hi)
    ensures bs != [] ==> Merge(bs) != [] && Merge(bs)[0].addr == bs[0].addr
    decreases |bs|
  {
    if |bs| >= 2 {
      if bs[0].free && bs[1].free {
        MergeAtOrdered(bs, 0, lo, hi);
        assert MergeAt(bs, 0) == [Joined(bs[0], bs[1])] + bs[2..];
        MergeOrdered(MergeAt(bs, 0), lo, hi);
      } else {
        TailOrdered(bs, lo, hi);
        MergeOrdered(bs[1..], bs[0].End(), hi);
        ConsOrdered(bs[0], Merge(bs[1..]), lo, hi);
      }
    }
  }

  /** Coalescing leaves no two free neighbours, and the live blocks and the bytes covered as they were. */
  lemma {:induction false} MergeCoalesces(bs: seq<Block>)
    ensures Coalesced(Merge(bs)) && Live(Merge(bs)) == Live(bs) && Bytes(Merge(bs)) == Bytes(bs)
    ensures bs != [] ==> Merge(bs) != [] && Merge(bs)[0].free == bs[0].free
    decreases |bs|
  {
    if |bs| >= 2 {
      if bs[0].free && bs[1].free {
        var next := [Joined(bs[0], bs[1])] + bs[2..];
        MergeCoalesces(next);
        assert next[1..] == bs[2..] && bs[1..][1..] == bs[2..];
      } else {
        MergeCoalesces(bs[1..]);
        var m := Merge(bs[1..]);
        var all := [bs[0]] + m;
        assert all[1..] == m;
        forall i | 0 <= i < |all| - 1 ensures Apart(all, i) {
          if i > 0 { assert Apart(m, i - 1); }
        }
      }
    }
  }

  lemma {:induction false} MergeFixed(bs: seq<Block>)
    requires Coalesced(bs)
    ensures Merge(bs) == bs
  {
    if |bs| >= 2 {
      assert Apart(bs, 0);
      var rest := bs[1..];
      forall i | 0 <= i < |rest| - 1 ensures Apart(rest, i) { assert Apart(bs, i + 1); }
      MergeFixed(rest);
    }
  }

  lemma MergeTwo(a: Block, b: Block, rest: seq<Block>)
    ensures Merge([a, b] + rest)
            == if a.free && b.free then Merge([Joined(a, b)] + rest) else [a] + Merge([b] + rest)
  {
    var bs := [a, b] + rest;
    assert bs[1..] == [b] + rest && bs[2..] == rest;
  }

  /** Joining one pair of free neighbours first makes no difference to coalescing. */
  lemma {:induction false} MergeAfterMergeAt(bs: seq<Block>, k: nat)
    requires k + 1 < |bs| && bs[k].free && bs[k + 1].free
    ensures Merge(MergeAt(bs, k)) == Merge(bs)
    decreases |bs|
  {
    var a, b, rest := bs[0], bs[1], bs[2..];
    assert bs == [a, b] + rest;
    if k == 0 {
      assert MergeAt(bs, 0) == [Joined(a, b)] + rest;
      MergeTwo(a, b, rest);
    } else if k == 1 {
      assert MergeAt(bs, 1) == [a, Joined(b, rest[0])] + rest[1..];
      MergeAfterSecond(a, b, rest);
    } else {
      var c := if a.free && b.free then Joined(a, b) else b;
      var next := [c] + rest;
      assert next[k - 1] == bs[k] && next[k] == bs[k + 1];
      MergeAfterMergeAt(next, k - 1);
      MergeAfterLater(a, b, rest, k - 2);
      MergeTwo(a, b, rest);
    }
  }

  lemma MergeAtCons(c: Block, rest: seq<Block>, k: nat)
    requires k + 1 < |rest|
    ensures MergeAt([c] + rest, k + 1) == [c] + MergeAt(rest, k)
  {
    assert ([c] + rest)[..k + 1] == [c] + rest[..k];
  }

  lemma MergeAfterLater(a: Block, b: Block, rest: seq<Block>, k: nat)
    requires k + 1 < |rest|
    ensures Merge(MergeAt([a, b] + rest, k + 2))
            == if a.free && b.free then Merge(MergeAt([Joined(a, b)] + rest, k + 1))
               else [a] + Merge(MergeAt([b] + rest, k + 1))
  {
    var tail := MergeAt(rest, k);
    MergeAtCons(b, rest, k);
    MergeAtCons(a, [b] + rest, k + 1);
    assert [a] + ([b] + rest) == [a, b] + rest && [a] + ([b] + tail) == [a, b] + tail;
    MergeAtCons(Joined(a, b), rest, k);
    MergeTwo(a, b, tail);
  }

  lemma MergeAfterSecond(a: Block, b: Block, rest: seq<Block>)
    requires rest != [] && b.free && rest[0].free
    ensures Merge([a, Joined(b, rest[0])] + rest[1..]) == Merge([a, b] + rest)
  {
    var c, d := rest[0], rest[1..];
    MergeTwo(a, Joined(b, c), d);
    MergeTwo(a, b, rest);
    assert [Joined(a, b)] + rest == [Joined(a, b), c] + d && [b] + rest == [b, c] + d;
    if a.free {
      MergeTwo(Joined(a, b), c, d);
      assert Joined(a, Joined(b, c)) == Joined(Joined(a, b), c);
    } else {
      MergeTwo(b, c, d);
    }
  }

  lemma MergeAtLive(bs: seq<Block>, k: nat)
    requires k + 1 < |bs| && bs[k].free && bs[k + 1].free
    ensures Live(MergeAt(bs, k)) == Live(bs)
  {
    MergeCoalesces(bs);
    MergeCoalesces(MergeAt(bs, k));
    MergeAfterMergeAt(bs, k);
  }

  /** Freeing removes one block from the live ones and keeps all others and the bytes covered. */
  lemma FreeLive(bs: seq<Block>, k: nat)
    requires k < |bs| && !bs[k].free
    ensures var bs' := Merge(bs[k := bs[k].(free := true)]);
            && Live(bs) == Live(bs[..k]) + [bs[k]] + Live(bs[k + 1..])
            && Live(bs') == Live(bs[..k]) + Live(bs[k + 1..])
            && Bytes(bs') == Bytes(bs) && Coalesced(bs')
  {
    var m := bs[k := bs[k].(free := true)];
    MergeCoalesces(m);
    UpdateLive(m, k, bs[k]);
    assert m[k := bs[k]] == bs && m[..k] == bs[..k] && m[k + 1..] == bs[k + 1..];
  }

  /** Freeing a block just allocated from a free one gives back the very same heap. */
  lemma FreeUndoesTake(bs: seq<Block>, k: nat, size: nat)
    requires k < |bs| && Fits(bs[k], size) && Coalesced(bs)
    ensures var t := Take(bs, k, size);
            k < |t| && Merge(t[k := t[k].(free := true)]) == bs
  {
    var t := Take(bs, k, size);
    var f := t[k := t[k].(free := true)];
    if Splits(bs[k], size) {
      MergeAfterMergeAt(f, k);
      assert MergeAt(f, k) == bs;
    } else {
      assert f == bs;
    }
    MergeFixed(bs);
  }
}
