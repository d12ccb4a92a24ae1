/** Block allocation with the journal on: the allocator reads bitmaps and free counts from the disk, where it does not
    see its own logged changes until they are committed. */
module Ext4Pending {
  import opened Common
  import opened Bits
  import opened Bytes
  import opened Ext4Extents
  import opened Ext4Journal

  /** Where a group's bitmap is, and its free count: a 16-bit number in a descriptor block. */
  datatype Group = Group(bitmap: nat, desc: nat, countAt: nat)

  datatype Place = Place(group: nat, bit: nat)

  // ---- bits of a byte ------------------------------------------------------------------------------------

  /** An `n`-bit number with bit `k`, which is clear, set. */
  function SetBit(b: nat, k: nat, n: nat): (r: nat)
    requires k < n && b < Pow2(n) && !Bit(b, k)
    ensures r < Pow2(n)
  {
    if k == 0 then b + 1 else 2 * SetBit(b / 2, k - 1, n - 1) + b % 2
  }

  /** Every other bit stays. */
  lemma {:induction false} SetBitAt(b: nat, k: nat, n: nat, i: nat)
    requires k < n && b < Pow2(n) && !Bit(b, k)
    ensures Bit(SetBit(b, k, n), i) <==> Bit(b, i) || i == k
    decreases k
  {
    var r := SetBit(b, k, n);
    if k == 0 {
      assert r / 2 == b / 2;
    } else {
      assert r / 2 == SetBit(b / 2, k - 1, n - 1) && r % 2 == b % 2;
      if i > 0 { SetBitAt(b / 2, k - 1, n - 1, i - 1); }
    }
  }

  lemma ByteBits()
    ensures Pow2(8) == 256
  {
    assert Pow2(4) == 16;
  }

  predicate BitAt(bm: Block, i: nat)
    requires i / 8 < |bm|
  {
    Bit(bm[i / 8], i % 8)
  }

  function Marked(bm: Block, i: nat): (r: Block)
    requires i / 8 < |bm| && !BitAt(bm, i)
    ensures |r| == |bm|
  {
    ByteBits();
    bm[i / 8 := SetBit(bm[i / 8], i % 8, 8)]
  }

  /** Only bit `i` changes. */
  lemma MarkedAt(bm: Block, i: nat)
    requires i / 8 < |bm| && !BitAt(bm, i)
    ensures OneMore(bm, Marked(bm, i), i)
  {
    var r := Marked(bm, i);
    ByteBits();
    forall k: nat | k / 8 < |bm| ensures BitAt(r, k) <==> BitAt(bm, k) || k == i {
      SetBitAt(bm[i / 8], i % 8, 8, k % 8);
      if k / 8 == i / 8 && k % 8 == i % 8 { assert k == i; }
    }
  }

  /** The new bitmap has bit `i`, and otherwise the bits of the old one. */
  ghost predicate OneMore(bm: Block, new': Block, i: nat)
  {
    |new'| == |bm| && forall k: nat :: k / 8 < |bm| ==> (BitAt(new', k) <==> BitAt(bm, k) || k == i)
  }

  // ---- the search ----------------------------------------------------------------------------------------

  /** The groups of a volume, how many blocks each has, and the block size. */
  datatype Volume = Volume(groups: seq<Group>, perGroup: nat, blockSize: nat)

  ghost predicate Readable(d: Disk, v: Volume, g: nat)
    requires g < |v.groups|
  {
    var x := v.groups[g];
    && x.bitmap in d && |d[x.bitmap]| == v.blockSize && v.perGroup <= 8 * v.blockSize
    && x.desc in d && |d[x.desc]| == v.blockSize && x.countAt + 2 <= v.blockSize
  }

  ghost predicate AllReadable(d: Disk, v: Volume)
  {
    forall g :: 0 <= g < |v.groups| ==> Readable(d, v, g)
  }

  function FirstClear(bm: Block, perGroup: nat, i: nat): (k: nat)
    requires i <= perGroup <= 8 * |bm|
    ensures i <= k <= perGroup && (k < perGroup ==> !BitAt(bm, k))
    ensures forall j: nat :: i <= j < k ==> BitAt(bm, j)
    decreases perGroup - i
  {
    if i == perGroup || !BitAt(bm, i) then i else FirstClear(bm, perGroup, i + 1)
  }

  /** The first clear bit in the first group that claims a free block and has one. */
  ghost function Scan(d: Disk, v: Volume, g: nat): (r: Option<Place>)
    requires g <= |v.groups| && AllReadable(d, v)
    ensures r.Some? ==> r.value.group < |v.groups| && r.value.bit < v.perGroup && Readable(d, v, r.value.group)
    ensures r.Some? ==> !BitAt(d[v.groups[r.value.group].bitmap], r.value.bit)
    decreases |v.groups| - g
  {
    if g == |v.groups| then None
    else
      assert Readable(d, v, g);
      var k := if Dec16(d[v.groups[g].desc], v.groups[g].countAt) > 0
          then FirstClear(d[v.groups[g].bitmap], v.perGroup, 0) else v.perGroup;
      if k < v.perGroup then Some(Place(g, k)) else Scan(d, v, g + 1)
  }

  /** The group claims a free block and its bitmap has one. */
  ghost predicate HasFree(d: Disk, v: Volume, g: nat)
    requires g < |v.groups| && Readable(d, v, g)
  {
    && Dec16(d[v.groups[g].desc], v.groups[g].countAt) > 0
    && exists k: nat :: k < v.perGroup && !BitAt(d[v.groups[g].bitmap], k)
  }

  /** The search finds the lowest clear bit of the first group that claims a free block and has one, and nothing
      exactly if there is no such group. */
  lemma {:induction false} ScanExact(d: Disk, v: Volume, g: nat)
    requires g <= |v.groups| && AllReadable(d, v)
    ensures Scan(d, v, g).None? <==> forall h :: g <= h < |v.groups| ==> !HasFree(d, v, h)
    ensures Scan(d, v, g).Some? ==>
              var p := Scan(d, v, g).value;
              && g <= p.group && HasFree(d, v, p.group) && (forall h :: g <= h < p.group ==> !HasFree(d, v, h))
              && forall k: nat :: k < p.bit ==> BitAt(d[v.groups[p.group].bitmap], k)
    decreases |v.groups| - g
  {
    if g < |v.groups| {
      assert Readable(d, v, g);
      var k := FirstClear(d[v.groups[g].bitmap], v.perGroup, 0);
      if HasFree(d, v, g) { assert k < v.perGroup; } else { ScanExact(d, v, g + 1); }
    }
  }

  /** The two disks hold the same bitmaps and descriptors. */
  ghost predicate SameBlocks(d: Disk, e: Disk, v: Volume)
  {
    forall g :: 0 <= g < |v.groups| ==> SameAt(d, e, v.groups[g].bitmap) && SameAt(d, e, v.groups[g].desc)
  }

  lemma {:induction false} ScanSame(d: Disk, e: Disk, v: Volume, g: nat)
    requires g <= |v.groups| && AllReadable(d, v) && SameBlocks(d, e, v)
    ensures AllReadable(e, v) && Scan(e, v, g) == Scan(d, v, g)
    decreases |v.groups| - g
  {
    forall h | 0 <= h < |v.groups| ensures Readable(e, v, h) {
      assert Readable(d, v, h) && SameAt(d, e, v.groups[h].bitmap) && SameAt(d, e, v.groups[h].desc);
    }
    if g < |v.groups| {
      assert Readable(d, v, g) && SameAt(d, e, v.groups[g].bitmap) && SameAt(d, e, v.groups[g].desc);
      ScanSame(d, e, v, g + 1);
    }
  }

  method FindClear(bm: Block, perGroup: nat) returns (k: nat)
    requires perGroup <= 8 * |bm|
    ensures k == FirstClear(bm, perGroup, 0)
  {
    k := 0;
    while k < perGroup
      invariant k <= perGroup && FirstClear(bm, perGroup, 0) == FirstClear(bm, perGroup, k)
    {
      if !BitAt(bm, k) { return; }
      k := k + 1;
    }
  }

  method Find(d: Disk, v: Volume) returns (r: Option<Place>)
    requires AllReadable(d, v)
    ensures r == Scan(d, v, 0)
  {
    for g := 0 to |v.groups|
      invariant Scan(d, v, 0) == Scan(d, v, g)
    {
      assert Readable(d, v, g);
      if Dec16(d[v.groups[g].desc], v.groups[g].countAt) > 0 {
        var k := FindClear(d[v.groups[g].bitmap], v.perGroup);
        if k < v.perGroup { return Some(Place(g, k)); }
      }
    }
    return None;
  }

  // ---- allocating ----------------------------------------------------------------------------------------

  /** Bitmaps and descriptors are different blocks, outside the log. */
  ghost predicate Placed(j: Journal, v: Volume)
  {
    && (forall g :: 0 <= g < |v.groups| ==> !InLog(j.file, v.groups[g].bitmap) && !InLog(j.file, v.groups[g].desc))
    && (forall g, h :: 0 <= g < |v.groups| && 0 <= h < |v.groups| ==> v.groups[g].bitmap != v.groups[h].desc)
  }

  /** Nothing pending concerns a bitmap or a descriptor. */
  ghost predicate Untouched(pending: seq<Write>, v: Volume)
  {
    forall w, g :: w in pending && 0 <= g < |v.groups| ==> w.block != v.groups[g].bitmap && w.block != v.groups[g].desc
  }

  lemma UntouchedSame(d: Disk, pending: seq<Write>, v: Volume)
    requires Untouched(pending, v)
    ensures SameBlocks(Apply(d, pending), d, v)
  {
    forall g | 0 <= g < |v.groups|
      ensures SameAt(Apply(d, pending), d, v.groups[g].bitmap) && SameAt(Apply(d, pending), d, v.groups[g].desc)
    {
      ApplyAt(d, d, pending, v.groups[g].bitmap);
      ApplyAt(d, d, pending, v.groups[g].desc);
    }
  }

  /** `p` is marked in the bitmap as this disk holds it. */
  ghost predicate MarkedOn(d: Disk, v: Volume, p: Place)
  {
    p.group < |v.groups| && var b := v.groups[p.group].bitmap; b in d && p.bit / 8 < |d[b]| && BitAt(d[b], p.bit)
  }

  lemma ReadableUpdate(e: Disk, v: Volume, w: Write)
    requires AllReadable(e, v)
    requires |w.data| == v.blockSize
    ensures AllReadable(e[w.block := w.data], v)
  {
    var u := e[w.block := w.data];
    forall g | 0 <= g < |v.groups| ensures Readable(u, v, g) { assert Readable(e, v, g); }
  }

  lemma ReadableHome(j: Journal, d: Disk, e: Disk, v: Volume)
    requires Placed(j, v) && SameHome(j.file, d, e) && AllReadable(e, v)
    ensures AllReadable(d, v) && SameBlocks(d, e, v)
  {
    forall g | 0 <= g < |v.groups|
      ensures SameAt(d, e, v.groups[g].bitmap) && SameAt(d, e, v.groups[g].desc) && Readable(d, v, g)
    {
      assert Readable(e, v, g);
      assert SameAt(d, e, v.groups[g].bitmap) && SameAt(d, e, v.groups[g].desc);
    }
  }

  /** Bitmaps and descriptors are where they should be, on the disk and with the pending writes. */
  ghost predicate Ready(j: Journal, v: Volume)
    reads j
  {
    && j.Valid() && Placed(j, v)
    && AllReadable(j.disk, v) && AllReadable(j.Current(), v)
  }

  /** Logs one of these blocks. */
  method LogOne(j: Journal, w: Write, ghost v: Volume)
    requires Ready(j, v) && !InLog(j.file, w.block)
    requires |w.data| == v.blockSize
    modifies j
    ensures Ready(j, v)
    ensures SameHome(j.file, j.Current(), old(j.Current())[w.block := w.data])
    ensures |old(j.trans)| < MAX_TRANS ==> j.disk == old(j.disk) && |j.trans| == |old(j.trans)| + 1
    ensures |old(j.trans)| >= MAX_TRANS ==> SameHome(j.file, j.disk, old(j.Current())) && |j.trans| == 1
  {
    ghost var c := j.Current();
    ReadableUpdate(c, v, w);
    j.LogBlock(w);
    ReadableHome(j, j.Current(), c[w.block := w.data], v);
    if |old(j.trans)| >= MAX_TRANS { ReadableHome(j, j.disk, c, v); }
  }

  /** Logs a bitmap and a descriptor. With 15 writes pending the first of the two fills the transaction and the second
      commits it. */
  method LogPair(j: Journal, w: Write, x: Write, ghost v: Volume)
    requires Ready(j, v)
    requires !InLog(j.file, w.block) && !InLog(j.file, x.block) && w.block != x.block
    requires |w.data| == v.blockSize && |x.data| == v.blockSize
    modifies j
    ensures Ready(j, v) && w.block in j.Current() && j.Current()[w.block] == w.data
    ensures x.block in j.Current() && j.Current()[x.block] == x.data
    ensures SameHome(j.file, j.Current(), old(j.Current())[w.block := w.data][x.block := x.data])
    ensures |old(j.trans)| == MAX_TRANS - 1 ==> w.block in j.disk && j.disk[w.block] == w.data
    ensures |old(j.trans)| < MAX_TRANS - 1 ==> j.disk == old(j.disk)
    ensures |old(j.trans)| >= MAX_TRANS ==> SameHome(j.file, j.disk, old(j.Current()))
  {
    ghost var c := j.Current();
    LogOne(j, w, v);
    ghost var e := j.Current();
    assert SameAt(e, c[w.block := w.data], w.block);
    LogOne(j, x, v);
    assert SameAt(j.Current(), e[x.block := x.data], w.block) && SameAt(j.Current(), e[x.block := x.data], x.block);
    SameHomeUpdate(j.file, e, c[w.block := w.data], x);
    SameHomeTrans(j.file, j.Current(), e[x.block := x.data], c[w.block := w.data][x.block := x.data]);
    assert |old(j.trans)| == MAX_TRANS - 1 ==> SameAt(j.disk, e, w.block);
  }

  /** The descriptor block with the group's 16-bit count down by one, and every other byte as it was. */
  ghost predicate CountedDown(b: Block, new': Block, at: nat)
    requires at + 2 <= |b|
  {
    && |new'| == |b| && Dec16(new', at) == Dec16(b, at) - 1
    && forall i :: 0 <= i < |b| && i != at && i != at + 1 ==> new'[i] == b[i]
  }

  lemma LowerCount(b: Block, at: nat)
    requires at + 2 <= |b| && Dec16(b, at) > 0
    ensures CountedDown(b, Overlay(b, at, Enc16(Dec16(b, at) - 1)), at)
  {
    var c := Enc16(Dec16(b, at) - 1);
    var r := Overlay(b, at, c);
    assert r[at..at + 2] == c;
    RoundTrip16(Dec16(b, at) - 1, r, at);
  }

  /** With everything pending written, the bitmap of the group has one more bit than on the disk `d`, and its
      descriptor counts one free block less. */
  ghost predicate Taken(d: Disk, e: Disk, v: Volume, p: Place)
    requires p.group < |v.groups| && Readable(d, v, p.group)
  {
    var g := v.groups[p.group];
    && g.bitmap in e && OneMore(d[g.bitmap], e[g.bitmap], p.bit)
    && g.desc in e && CountedDown(d[g.desc], e[g.desc], g.countAt)
  }

  /** Outside the log, every block but the group's two is as it was. */
  ghost predicate OthersSame(file: seq<Extent>, d: Disk, e: Disk, g: Group)
  {
    forall p: nat :: !InLog(file, p) && p != g.bitmap && p != g.desc ==> SameAt(e, d, p)
  }

  lemma OthersAfter(file: seq<Extent>, d: Disk, e: Disk, g: Group, b: Block, c: Block)
    requires SameHome(file, e, d[g.bitmap := b][g.desc := c])
    ensures OthersSame(file, d, e, g)
  {
    forall p: nat | !InLog(file, p) && p != g.bitmap && p != g.desc ensures SameAt(e, d, p) {
      assert SameAt(e, d[g.bitmap := b][g.desc := c], p);
    }
  }

  /** Takes the block the disk shows as free and logs the change. */
  method Allocate(j: Journal, v: Volume) returns (r: Option<Place>)
    requires Ready(j, v)
    modifies j
    ensures Ready(j, v) && r == Scan(old(j.disk), v, 0)
    ensures r.None? ==> j.disk == old(j.disk) && j.trans == old(j.trans)
    ensures r.Some? ==> Taken(old(j.disk), j.Current(), v, r.value) && MarkedOn(j.Current(), v, r.value)
    ensures r.Some? ==> OthersSame(j.file, old(j.Current()), j.Current(), v.groups[r.value.group])
    ensures r.Some? && |old(j.trans)| == MAX_TRANS - 1 ==> MarkedOn(j.disk, v, r.value)
    ensures |old(j.trans)| < MAX_TRANS - 1 ==> j.disk == old(j.disk)
    ensures r.Some? && |old(j.trans)| >= MAX_TRANS ==> SameHome(j.file, j.disk, old(j.Current()))
  {
    r := Find(j.disk, v);
    if r.Some? {
      var g := v.groups[r.value.group];
      assert Readable(j.disk, v, r.value.group);
      ScanExact(j.disk, v, 0);
      var w := Write(g.bitmap, Marked(j.disk[g.bitmap], r.value.bit));
      var x := Write(g.desc, Overlay(j.disk[g.desc], g.countAt, Enc16(Dec16(j.disk[g.desc], g.countAt) - 1)));
      MarkedAt(j.disk[g.bitmap], r.value.bit);
      LowerCount(j.disk[g.desc], g.countAt);
      ghost var c := j.Current();
      LogPair(j, w, x, v);
      OthersAfter(j.file, c, j.Current(), g, w.data, x.data);
    }
  }

  /** Commits what is pending, as the callers do: a new transaction is started at once. */
  method CommitPending(j: Journal, ghost v: Volume, ghost p: Place)
    requires Ready(j, v) && MarkedOn(j.Current(), v, p)
    modifies j
    ensures Ready(j, v) && MarkedOn(j.disk, v, p) && j.Current() == j.disk
  {
    ghost var c := j.Current();
    j.CommitTransaction();
    ReadableHome(j, j.disk, c, v);
    assert SameAt(j.disk, c, v.groups[p.group].bitmap);
    j.StartTransaction();
  }

  /** Two allocations in a row, with a commit between them or not. If nothing pending concerned the allocator before,
      the second returns another block than the first, or none, if and only if a commit lies between: the caller's, or
      the automatic one that comes with the first allocation when 15 writes were pending. Otherwise both return the
      same block. */
  method AllocateTwice(j: Journal, v: Volume, commit: bool)
      returns (first: Option<Place>, second: Option<Place>)
    requires j.Valid() && AllReadable(j.disk, v) && Placed(j, v) && Untouched(j.trans, v)
    modifies j
    ensures j.Valid() && first == Scan(old(j.disk), v, 0)
    ensures first.Some? ==> (second != first <==> commit || |old(j.trans)| == MAX_TRANS - 1)
  {
    ghost var d, c := j.disk, j.Current();
    UntouchedSame(d, j.trans, v);
    SameReadable(d, c, v);
    first := Allocate(j, v);
    if first.None? { return first, None; }
    if commit {
      CommitPending(j, v, first.value);
    } else if |old(j.trans)| != MAX_TRANS - 1 {
      if |old(j.trans)| >= MAX_TRANS { ReadableHome(j, j.disk, c, v); }
      SameTrans(j.disk, c, d, v);
      ScanSame(d, j.disk, v, 0);
    }
    second := Allocate(j, v);
  }

  lemma SameReadable(d: Disk, e: Disk, v: Volume)
    requires AllReadable(d, v) && SameBlocks(e, d, v)
    ensures AllReadable(e, v)
  {
    forall g | 0 <= g < |v.groups| ensures Readable(e, v, g) {
      assert Readable(d, v, g);
      assert SameAt(e, d, v.groups[g].bitmap) && SameAt(e, d, v.groups[g].desc);
    }
  }

  lemma SameTrans(a: Disk, b: Disk, c: Disk, v: Volume)
    requires (a == c || SameBlocks(a, b, v)) && SameBlocks(b, c, v)
    ensures SameBlocks(c, a, v)
  {
    forall g | 0 <= g < |v.groups| ensures SameAt(c, a, v.groups[g].bitmap) && SameAt(c, a, v.groups[g].desc) {
      assert SameAt(b, c, v.groups[g].bitmap) && SameAt(b, c, v.groups[g].desc);
    }
  }
}
