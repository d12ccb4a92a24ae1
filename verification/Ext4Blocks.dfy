/** The ext4 block allocator in write-through mode: one bitmap block per group on the disk, a free count per
    group, and the superblock's free count. */
module Ext4Blocks {
  import opened Bits
  import opened Common

  /** A disk block is a sequence of bytes, a byte the sequence of its bits. */
  type Block = seq<Word>

  ghost predicate IsBlock(b: Block, size: nat)
  {
    |b| == size && forall i :: 0 <= i < |b| ==> |b[i]| == 8
  }

  /** The number of clear bits below `n`. */
  function CountClear(b: Block, n: nat): nat
  {
    if n == 0 then 0 else CountClear(b, n - 1) + if Bit8(b, n - 1) then 0 else 1
  }

  lemma {:induction false} CountPut(b: Block, n: nat, k: nat, v: bool)
    requires k / 8 < |b| && |b[k / 8]| == 8 && Bit8(b, k) != v
    ensures CountClear(Put8(b, k, v), n) == CountClear(b, n) + if k >= n then 0 else if v then -1 else 1
  {
    if n > 0 {
      CountPut(b, n - 1, k, v);
      Put8At(b, k, v, n - 1);
    }
  }

  lemma {:induction false} CountZero(b: Block, n: nat)
    ensures CountClear(b, n) == 0 <==> forall i :: 0 <= i < n ==> Bit8(b, i)
  {
    if n > 0 { CountZero(b, n - 1); }
  }

  lemma PutBlock(b: Block, size: nat, k: nat, v: bool)
    requires IsBlock(b, size) && k / 8 < size
    ensures IsBlock(Put8(b, k, v), size)
  {
  }

  /** Setting a clear bit and clearing it again gives back the block. */
  lemma PutBack(b: Block, k: nat, v: bool)
    requires k / 8 < |b| && |b[k / 8]| == 8 && Bit8(b, k) == v
    ensures k / 8 < |Put8(b, k, !v)| && |Put8(b, k, !v)[k / 8]| == 8 && Put8(Put8(b, k, !v), k, v) == b
  {
    var j, c := k / 8, Put8(b, k, !v);
    assert c[j][k % 8 := v] == b[j];
    assert c[j := b[j]] == b;
  }

  // ---- groups -------------------------------------------------------------------------------------------

  datatype Group = Group(bitmapBlock: nat, freeBlocks: int)

  function Sum(groups: seq<Group>): int
  {
    if groups == [] then 0 else Sum(groups[..|groups| - 1]) + groups[|groups| - 1].freeBlocks
  }

  lemma {:induction false} SumUpdate(groups: seq<Group>, g: nat, x: Group)
    requires g < |groups|
    ensures Sum(groups[g := x]) == Sum(groups) - groups[g].freeBlocks + x.freeBlocks
  {
    var n := |groups| - 1;
    if g < n {
      assert groups[g := x][..n] == groups[..n][g := x];
      SumUpdate(groups[..n], g, x);
    } else {
      assert groups[g := x][..n] == groups[..n];
    }
  }

  /** Numbers of blocks and their places: block `g * perGroup + i + first` is bit `i` of group `g`. */
  datatype Layout = Layout(perGroup: nat, first: nat)
  {
    function Absolute(g: nat, i: nat): nat { g * perGroup + i + first }

    function GroupOf(b: nat): nat
      requires perGroup > 0 && b >= first
    {
      (b - first) / perGroup
    }

    function IndexOf(b: nat): nat
      requires perGroup > 0 && b >= first
    {
      (b - first) % perGroup
    }

    /** The arithmetic of `free_block` inverts that of `allocate_block`. */
    lemma PlaceOfAbsolute(g: nat, i: nat)
      requires perGroup > 0 && i < perGroup
      ensures Absolute(g, i) >= first && GroupOf(Absolute(g, i)) == g && IndexOf(Absolute(g, i)) == i
    {
      var x := g * perGroup + i;
      assert g * perGroup >= 0;
      DivUnique(x, perGroup, g, i);
    }

    lemma AbsoluteOfPlace(b: nat)
      requires perGroup > 0 && b >= first
      ensures Absolute(GroupOf(b), IndexOf(b)) == b && IndexOf(b) < perGroup
    {
      var x := b - first;
      assert x == x / perGroup * perGroup + x % perGroup;
    }
  }

  // ---- volumes ------------------------------------------------------------------------------------------

  datatype Vol = Vol(lay: Layout, blockSize: nat, disk: seq<Block>, groups: seq<Group>, freeTotal: int)

  /** Whole blocks, and a bitmap block of its own for every group, large enough for it. */
  ghost predicate Shape(v: Vol)
  {
    && 0 < v.lay.perGroup <= 8 * v.blockSize
    && (forall b :: 0 <= b < |v.disk| ==> IsBlock(v.disk[b], v.blockSize))
    && (forall g :: 0 <= g < |v.groups| ==> v.groups[g].bitmapBlock < |v.disk|)
    && (forall g, h :: 0 <= g < h < |v.groups| ==> v.groups[g].bitmapBlock != v.groups[h].bitmapBlock)
  }

  ghost function Bitmap(v: Vol, g: nat): Block
    requires Shape(v) && g < |v.groups|
  {
    v.disk[v.groups[g].bitmapBlock]
  }

  ghost predicate InVolume(v: Vol, b: nat)
  {
    v.lay.perGroup > 0 && b >= v.lay.first && v.lay.GroupOf(b) < |v.groups|
  }

  ghost predicate IsFree(v: Vol, b: nat)
    requires Shape(v)
  {
    InVolume(v, b) && !Bit8(Bitmap(v, v.lay.GroupOf(b)), v.lay.IndexOf(b))
  }

  ghost predicate IsBitmap(v: Vol, b: nat)
  {
    exists g :: 0 <= g < |v.groups| && v.groups[g].bitmapBlock == b
  }

  /** Every group's count is the number of clear bits of its bitmap, and the superblock has their sum. */
  ghost predicate Counted(v: Vol)
    requires Shape(v)
  {
    && (forall g :: 0 <= g < |v.groups| ==> GroupCounted(v, g))
    && v.freeTotal == Sum(v.groups)
  }

  ghost predicate GroupCounted(v: Vol, g: nat)
    requires Shape(v) && g < |v.groups|
  {
    v.groups[g].freeBlocks == CountClear(Bitmap(v, g), v.lay.perGroup)
  }

  /** Block 0, the bitmaps and everything past the end of the disk are never free. */
  ghost predicate Protected(v: Vol)
    requires Shape(v)
  {
    forall b: nat :: IsFree(v, b) ==> 0 < b < |v.disk| && !IsBitmap(v, b)
  }

  ghost predicate Good(v: Vol)
  {
    Shape(v) && Counted(v) && Protected(v)
  }

  /** The free blocks of the groups before `g`, and those of the first `n` bits of group `g`. */
  ghost function FreeUpTo(v: Vol, g: nat, n: nat): set<nat>
    requires Shape(v) && g < |v.groups| && n <= v.lay.perGroup
    decreases g, n
  {
    if n > 0 then FreeUpTo(v, g, n - 1) + (if Bit8(Bitmap(v, g), n - 1) then {} else {v.lay.Absolute(g, n - 1)})
    else if g > 0 then FreeUpTo(v, g - 1, v.lay.perGroup)
    else {}
  }

  lemma NextGroup(lay: Layout, g: nat)
    ensures lay.Absolute(g, lay.perGroup) == lay.Absolute(g + 1, 0)
  {
  }

  lemma {:induction false} FreeUpToIs(v: Vol, g: nat, n: nat, b: nat)
    requires Shape(v) && g < |v.groups| && n <= v.lay.perGroup
    ensures b in FreeUpTo(v, g, n) <==> IsFree(v, b) && b < v.lay.Absolute(g, n)
    decreases g, n
  {
    if n > 0 {
      FreeUpToIs(v, g, n - 1, b);
      v.lay.PlaceOfAbsolute(g, n - 1);
    } else if g > 0 {
      FreeUpToIs(v, g - 1, v.lay.perGroup, b);
      NextGroup(v.lay, g - 1);
    } else if b >= v.lay.first {
      assert b >= v.lay.Absolute(0, 0);
    }
  }

  lemma {:induction false} FreeUpToSize(v: Vol, g: nat, n: nat)
    requires Shape(v) && Counted(v) && g < |v.groups| && n <= v.lay.perGroup
    ensures |FreeUpTo(v, g, n)| == Sum(v.groups[..g]) + CountClear(Bitmap(v, g), n)
    decreases g, n
  {
    if n > 0 {
      FreeUpToSize(v, g, n - 1);
      FreeUpToStep(v, g, n);
    } else if g > 0 {
      FreeUpToSize(v, g - 1, v.lay.perGroup);
      FreeUpToGroup(v, g);
    }
  }

  lemma FreeUpToStep(v: Vol, g: nat, n: nat)
    requires Shape(v) && g < |v.groups| && 0 < n <= v.lay.perGroup
    ensures |FreeUpTo(v, g, n)| - |FreeUpTo(v, g, n - 1)|
            == CountClear(Bitmap(v, g), n) - CountClear(Bitmap(v, g), n - 1)
  {
    FreeUpToIs(v, g, n - 1, v.lay.Absolute(g, n - 1));
  }

  lemma FreeUpToGroup(v: Vol, g: nat)
    requires Shape(v) && Counted(v) && 0 < g < |v.groups|
    ensures FreeUpTo(v, g, 0) == FreeUpTo(v, g - 1, v.lay.perGroup)
    ensures Sum(v.groups[..g]) == Sum(v.groups[..g - 1]) + CountClear(Bitmap(v, g - 1), v.lay.perGroup)
    ensures CountClear(Bitmap(v, g), 0) == 0
  {
    assert GroupCounted(v, g - 1);
    SumSnoc(v.groups, g);
  }

  lemma SumSnoc(groups: seq<Group>, g: nat)
    requires 0 < g <= |groups|
    ensures Sum(groups[..g]) == Sum(groups[..g - 1]) + groups[g - 1].freeBlocks
  {
    assert groups[..g][..g - 1] == groups[..g - 1];
  }

  /** The superblock's count is the number of free blocks. */
  lemma FreeTotalExact(v: Vol, free: set<nat>)
    requires Shape(v) && Counted(v) && v.groups != [] && forall b: nat :: b in free <==> IsFree(v, b)
    ensures v.freeTotal == |free|
  {
    var g, n := |v.groups| - 1, v.lay.perGroup;
    FreeUpToSize(v, g, n);
    assert GroupCounted(v, g) && v.groups[..g + 1] == v.groups;
    forall b: nat ensures b in FreeUpTo(v, g, n) <==> b in free {
      FreeUpToIs(v, g, n, b);
      if IsFree(v, b) { BelowEnd(v, b); }
    }
    assert FreeUpTo(v, g, n) == free;
  }

  lemma BelowEnd(v: Vol, b: nat)
    requires Shape(v) && InVolume(v, b)
    ensures v.groups != [] && b < v.lay.Absolute(|v.groups| - 1, v.lay.perGroup)
  {
    v.lay.AbsoluteOfPlace(b);
    var g, last := v.lay.GroupOf(b), |v.groups| - 1;
    if g < last { MulStep(g, last, v.lay.perGroup); }
  }

  /** Writes one bitmap bit and moves both counts accordingly, whatever the bit was. */
  ghost function Flip(v: Vol, g: nat, i: nat, used: bool): Vol
    requires Shape(v) && g < |v.groups| && i < v.lay.perGroup
  {
    var d := if used then -1 else 1;
    var x := v.groups[g];
    v.(disk := v.disk[x.bitmapBlock := Put8(v.disk[x.bitmapBlock], i, used)],
       groups := v.groups[g := x.(freeBlocks := x.freeBlocks + d)],
       freeTotal := v.freeTotal + d)
  }

  ghost function FlipBlock(v: Vol, b: nat, used: bool): Vol
    requires Shape(v) && InVolume(v, b)
  {
    v.lay.AbsoluteOfPlace(b);
    Flip(v, v.lay.GroupOf(b), v.lay.IndexOf(b), used)
  }

  lemma FlipShape(v: Vol, g: nat, i: nat, used: bool)
    requires Shape(v) && g < |v.groups| && i < v.lay.perGroup
    ensures Shape(Flip(v, g, i, used))
    ensures forall h :: 0 <= h < |v.groups| ==>
              Bitmap(Flip(v, g, i, used), h) == if h == g then Put8(Bitmap(v, g), i, used) else Bitmap(v, h)
    ensures forall b :: IsBitmap(Flip(v, g, i, used), b) <==> IsBitmap(v, b)
  {
    var v' := Flip(v, g, i, used);
    PutBlock(Bitmap(v, g), v.blockSize, i, used);
    assert forall h :: 0 <= h < |v.groups| ==> v'.groups[h].bitmapBlock == v.groups[h].bitmapBlock;
  }

  /** Exactly the one block changes between free and used. */
  lemma FlipFree(v: Vol, b: nat, used: bool, c: nat)
    requires Shape(v) && InVolume(v, b)
    ensures Shape(FlipBlock(v, b, used))
    ensures IsFree(FlipBlock(v, b, used), c) <==> if c == b then !used else IsFree(v, c)
  {
    var g, i := v.lay.GroupOf(b), v.lay.IndexOf(b);
    v.lay.AbsoluteOfPlace(b);
    FlipShape(v, g, i, used);
    if InVolume(v, c) {
      v.lay.AbsoluteOfPlace(c);
      var h, j := v.lay.GroupOf(c), v.lay.IndexOf(c);
      if h == g { Put8At(Bitmap(v, g), i, used, j); }
    }
  }

  /** Both counts stay exact precisely when the bit really changes. */
  lemma FlipCounted(v: Vol, b: nat, used: bool)
    requires Shape(v) && Counted(v) && InVolume(v, b)
    ensures Shape(FlipBlock(v, b, used))
    ensures Counted(FlipBlock(v, b, used)) <==> IsFree(v, b) == used
  {
    var g, i := v.lay.GroupOf(b), v.lay.IndexOf(b);
    v.lay.AbsoluteOfPlace(b);
    FlipShape(v, g, i, used);
    var v' := FlipBlock(v, b, used);
    SumUpdate(v.groups, g, v'.groups[g]);
    assert GroupCounted(v, g);
    if IsFree(v, b) == used {
      CountPut(Bitmap(v, g), v.lay.perGroup, i, used);
      forall h | 0 <= h < |v.groups| ensures GroupCounted(v', h) { assert GroupCounted(v, h); }
    } else {
      CountSame(Bitmap(v, g), i, used, v.lay.perGroup);
      assert !GroupCounted(v', g) || v'.freeTotal != Sum(v'.groups);
    }
  }

  lemma CountSame(b: Block, k: nat, v: bool, n: nat)
    requires k / 8 < |b| && |b[k / 8]| == 8 && Bit8(b, k) == v
    ensures CountClear(Put8(b, k, v), n) == CountClear(b, n)
  {
    assert b[k / 8][k % 8 := v] == b[k / 8];
    assert Put8(b, k, v) == b;
  }

  lemma FlipGood(v: Vol, b: nat, used: bool)
    requires Good(v) && InVolume(v, b) && IsFree(v, b) == used
    requires !used ==> 0 < b < |v.disk| && !IsBitmap(v, b)
    ensures Good(FlipBlock(v, b, used))
  {
    FlipCounted(v, b, used);
    var g, i := v.lay.GroupOf(b), v.lay.IndexOf(b);
    v.lay.AbsoluteOfPlace(b);
    FlipShape(v, g, i, used);
    forall c: nat | IsFree(FlipBlock(v, b, used), c) ensures 0 < c < |v.disk| && !IsBitmap(FlipBlock(v, b, used), c) {
      FlipFree(v, b, used, c);
    }
  }

  /** Freeing a block just allocated restores the volume exactly: bitmap, group count and superblock count. */
  lemma FreeUndoesAllocate(v: Vol, b: nat)
    requires Good(v) && IsFree(v, b)
    ensures Shape(FlipBlock(v, b, true)) && FlipBlock(FlipBlock(v, b, true), b, false) == v
  {
    var g, i := v.lay.GroupOf(b), v.lay.IndexOf(b);
    v.lay.AbsoluteOfPlace(b);
    FlipShape(v, g, i, true);
    PutBack(Bitmap(v, g), i, false);
    var v' := FlipBlock(v, b, true);
    var v'' := FlipBlock(v', b, false);
    assert v''.groups[g] == v.groups[g] && v''.groups == v.groups;
    assert v''.disk == v.disk;
  }

  // ---- the allocator ------------------------------------------------------------------------------------

  /** The groups before `g` have no clear bit. */
  ghost predicate NoneBefore(v: Vol, g: nat)
    requires Shape(v)
  {
    g <= |v.groups| && forall h :: 0 <= h < g ==> CountClear(Bitmap(v, h), v.lay.perGroup) == 0
  }

  lemma GroupFull(v: Vol, g: nat)
    requires Good(v) && g < |v.groups| && NoneBefore(v, g) && v.groups[g].freeBlocks <= 0
    ensures NoneBefore(v, g + 1)
  {
    assert GroupCounted(v, g);
  }

  /** A group whose count is not zero has a clear bit, the first of which is a free block. */
  lemma GroupNotFull(v: Vol, g: nat, i: nat)
    requires Good(v) && g < |v.groups| && v.groups[g].freeBlocks > 0
    requires i <= v.lay.perGroup && (i < v.lay.perGroup ==> !Bit8(Bitmap(v, g), i))
    requires forall j: nat :: j < i ==> Bit8(Bitmap(v, g), j)
    ensures i < v.lay.perGroup && IsFree(v, v.lay.Absolute(g, i))
  {
    assert GroupCounted(v, g);
    CountZero(Bitmap(v, g), v.lay.perGroup);
    v.lay.PlaceOfAbsolute(g, i);
  }

  lemma NoneFree(v: Vol)
    requires Good(v) && NoneBefore(v, |v.groups|)
    ensures forall c :: !IsFree(v, c)
  {
    forall c ensures !IsFree(v, c) {
      if InVolume(v, c) {
        v.lay.AbsoluteOfPlace(c);
        CountZero(Bitmap(v, v.lay.GroupOf(c)), v.lay.perGroup);
      }
    }
  }

  /** The first clear bit of the first group that has one is the lowest free block. */
  lemma LowestFree(v: Vol, g: nat, i: nat)
    requires Shape(v) && g < |v.groups| && i < v.lay.perGroup && NoneBefore(v, g)
    requires forall j: nat :: j < i ==> Bit8(Bitmap(v, g), j)
    ensures forall c :: IsFree(v, c) ==> v.lay.Absolute(g, i) <= c
  {
    forall c | IsFree(v, c) ensures v.lay.Absolute(g, i) <= c {
      var h, j := v.lay.GroupOf(c), v.lay.IndexOf(c);
      v.lay.AbsoluteOfPlace(c);
      CountZero(Bitmap(v, h), v.lay.perGroup);
      if g < h { MulStep(g, h, v.lay.perGroup); }
    }
  }

  class Volume {
    const lay: Layout
    const blockSize: nat
    var disk: seq<Block>
    var groups: seq<Group>
    var freeTotal: int

    ghost function Val(): Vol
      reads this
    {
      Vol(lay, blockSize, disk, groups, freeTotal)
    }

    constructor (lay: Layout, blockSize: nat, disk: seq<Block>, groups: seq<Group>, freeTotal: int)
      ensures Val() == Vol(lay, blockSize, disk, groups, freeTotal)
    {
      this.lay, this.blockSize := lay, blockSize;
      this.disk, this.groups, this.freeTotal := disk, groups, freeTotal;
    }

    /** The first clear bit of a group's bitmap, or the number of blocks in a group. */
    method FindClear(g: nat, ghost v: Vol) returns (i: nat)
      requires v == Val() && Shape(v) && g < |groups|
      ensures i <= lay.perGroup && (i < lay.perGroup ==> !Bit8(Bitmap(v, g), i))
      ensures forall j: nat :: j < i ==> Bit8(Bitmap(v, g), j)
    {
      var buffer := disk[groups[g].bitmapBlock];
      i := 0;
      while i < lay.perGroup
        invariant i <= lay.perGroup && forall j: nat :: j < i ==> Bit8(buffer, j)
      {
        if !buffer[i / 8][i % 8] { return; }
        i := i + 1;
      }
    }

    /** Takes the first free block of the first group that claims to have one. Fails, with 0, exactly when the
        volume is full. */
    method AllocateBlock() returns (b: nat)
      requires Good(Val())
      modifies this`disk, this`groups, this`freeTotal
      ensures Good(Val())
      ensures b == 0 ==> Val() == old(Val()) && forall c :: !IsFree(Val(), c)
      ensures b != 0 ==> IsFree(old(Val()), b) && Val() == FlipBlock(old(Val()), b, true)
      ensures b != 0 ==> forall c :: IsFree(old(Val()), c) ==> b <= c
    {
      ghost var v := Val();
      for g := 0 to |groups|
        invariant Val() == v && NoneBefore(v, g)
      {
        if groups[g].freeBlocks > 0 {
          b := TakeIn(g);
          return;
        }
        GroupFull(v, g);
      }
      NoneFree(v);
      return 0;
    }

    /** Takes the first free block of the group `g`. */
    method TakeIn(g: nat) returns (b: nat)
      requires Good(Val()) && g < |groups| && NoneBefore(Val(), g) && groups[g].freeBlocks > 0
      modifies this`disk, this`groups, this`freeTotal
      ensures Good(Val()) && b != 0
      ensures IsFree(old(Val()), b) && Val() == FlipBlock(old(Val()), b, true)
      ensures forall c :: IsFree(old(Val()), c) ==> b <= c
    {
      ghost var v := Val();
      var i := FindClear(g, v);
      GroupNotFull(v, g, i);
      var x := groups[g];
      b := lay.Absolute(g, i);
      lay.PlaceOfAbsolute(g, i);
      LowestFree(v, g, i);
      FlipGood(v, b, true);
      disk := disk[x.bitmapBlock := Put8(disk[x.bitmapBlock], i, true)];
      groups := groups[g := x.(freeBlocks := x.freeBlocks - 1)];
      freeTotal := freeTotal - 1;
    }

    /** Clears the block's bit and counts up, without looking at the bit: the counts stay exact precisely when
        the block was in use. */
    method FreeBlock(b: nat)
      requires Shape(Val()) && Counted(Val()) && InVolume(Val(), b)
      modifies this`disk, this`groups, this`freeTotal
      ensures Shape(Val()) && Val() == FlipBlock(old(Val()), b, false)
      ensures Counted(Val()) <==> !IsFree(old(Val()), b)
    {
      ghost var v := Val();
      FlipCounted(v, b, false);
      lay.AbsoluteOfPlace(b);
      var g, i := lay.GroupOf(b), lay.IndexOf(b);
      var x := groups[g];
      disk := disk[x.bitmapBlock := Put8(disk[x.bitmapBlock], i, false)];
      groups := groups[g := x.(freeBlocks := x.freeBlocks + 1)];
      freeTotal := freeTotal + 1;
    }
  }

  datatype Op = Alloc | Free(k: nat)

  /** The blocks are distinct, in use, and none of them is a bitmap. */
  ghost predicate Held(v: Vol, held: seq<nat>)
    requires Shape(v)
  {
    && (forall i :: 0 <= i < |held| ==> Holds(v, held[i]))
    && (forall i, j :: 0 <= i < j < |held| ==> held[i] != held[j])
  }

  ghost predicate Holds(v: Vol, b: nat)
    requires Shape(v)
  {
    InVolume(v, b) && !IsFree(v, b) && 0 < b < |v.disk| && !IsBitmap(v, b)
  }

  lemma FlipHolds(v: Vol, b: nat, used: bool, c: nat)
    requires Shape(v) && InVolume(v, b) && Holds(v, c) && c != b
    ensures Shape(FlipBlock(v, b, used)) && Holds(FlipBlock(v, b, used), c)
  {
    v.lay.AbsoluteOfPlace(b);
    FlipShape(v, v.lay.GroupOf(b), v.lay.IndexOf(b), used);
    FlipFree(v, b, used, c);
  }

  lemma AllocHeld(v: Vol, held: seq<nat>, b: nat)
    requires Good(v) && Held(v, held) && IsFree(v, b)
    ensures Shape(FlipBlock(v, b, true)) && Held(FlipBlock(v, b, true), held + [b])
  {
    FlipFree(v, b, true, b);
    v.lay.AbsoluteOfPlace(b);
    FlipShape(v, v.lay.GroupOf(b), v.lay.IndexOf(b), true);
    forall i | 0 <= i < |held| ensures held[i] != b && Holds(FlipBlock(v, b, true), held[i]) {
      assert Holds(v, held[i]);
      FlipHolds(v, b, true, held[i]);
    }
  }

  lemma FreeHeld(v: Vol, held: seq<nat>, k: nat)
    requires Good(v) && Held(v, held) && k < |held|
    ensures Holds(v, held[k]) && Good(FlipBlock(v, held[k], false))
    ensures Held(FlipBlock(v, held[k], false), held[..k] + held[k + 1..])
  {
    var b, rest := held[k], held[..k] + held[k + 1..];
    assert Holds(v, b);
    FlipGood(v, b, false);
    forall i | 0 <= i < |rest| ensures Holds(FlipBlock(v, b, false), rest[i]) {
      var j := if i < k then i else i + 1;
      assert rest[i] == held[j] && Holds(v, held[j]);
      FlipHolds(v, b, false, held[j]);
    }
  }

  /** The volume and the blocks held by the caller. */
  datatype Snapshot = Snapshot(vol: Vol, held: seq<nat>)

  /** What one call does: an allocation takes the lowest free block if there is one; a free gives back a held one. */
  ghost predicate Steps(a: Snapshot, op: Op, z: Snapshot)
    requires Shape(a.vol)
  {
    match op
    case Alloc =>
      if forall c :: !IsFree(a.vol, c) then z == a
      else exists b :: && IsFree(a.vol, b) && (forall c :: IsFree(a.vol, c) ==> b <= c)
                       && z == Snapshot(FlipBlock(a.vol, b, true), a.held + [b])
    case Free(k) =>
      if k < |a.held| then
        && InVolume(a.vol, a.held[k])
        && z == Snapshot(FlipBlock(a.vol, a.held[k], false), a.held[..k] + a.held[k + 1..])
      else z == a
  }

  ghost predicate StepAt(trace: seq<Snapshot>, ops: seq<Op>, t: nat)
    requires t < |ops| && t + 1 < |trace|
  {
    Good(trace[t].vol) && Held(trace[t].vol, trace[t].held) && Steps(trace[t], ops[t], trace[t + 1])
  }

  method Perform(vol: Volume, op: Op, before: seq<nat>) returns (held: seq<nat>)
    requires Good(vol.Val()) && Held(vol.Val(), before)
    modifies vol
    ensures Good(vol.Val()) && Held(vol.Val(), held)
    ensures Steps(Snapshot(old(vol.Val()), before), op, Snapshot(vol.Val(), held))
    ensures vol.freeTotal + |held| == old(vol.freeTotal) + |before|
  {
    ghost var v := vol.Val();
    held := before;
    match op {
      case Alloc =>
        var b := vol.AllocateBlock();
        if b != 0 {
          AllocHeld(v, held, b);
          held := held + [b];
        }
      case Free(k) =>
        if k < |held| {
          FreeHeld(v, held, k);
          vol.FreeBlock(held[k]);
          held := held[..k] + held[k + 1..];
        }
    }
  }

  /** Over every run of allocations and frees of blocks held, each call does its step, the counts stay exact, and the
      blocks held and the free blocks of the superblock add up to the same number. */
  method Run(vol: Volume, ops: seq<Op>) returns (held: seq<nat>, ghost trace: seq<Snapshot>)
    requires Good(vol.Val())
    modifies vol
    ensures Good(vol.Val()) && Held(vol.Val(), held)
    ensures |trace| == |ops| + 1 && trace[0] == Snapshot(old(vol.Val()), [])
        && trace[|ops|] == Snapshot(vol.Val(), held)
    ensures forall t :: 0 <= t < |ops| ==> StepAt(trace, ops, t)
    ensures vol.freeTotal + |held| == old(vol.freeTotal)
  {
    held, trace := [], [Snapshot(vol.Val(), [])];
    for n := 0 to |ops|
      invariant Good(vol.Val()) && Held(vol.Val(), held)
      invariant |trace| == n + 1 && trace[0] == Snapshot(old(vol.Val()), []) && trace[n] == Snapshot(vol.Val(), held)
      invariant forall t :: 0 <= t < n ==> StepAt(trace, ops, t)
      invariant vol.freeTotal + |held| == old(vol.freeTotal)
    {
      ghost var before := trace;
      held := Perform(vol, ops[n], held);
      trace := trace + [Snapshot(vol.Val(), held)];
      forall t | 0 <= t < n + 1 ensures StepAt(trace, ops, t) { assert t < n ==> StepAt(before, ops, t); }
    }
  }
}
