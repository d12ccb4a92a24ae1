/** Files on an ext4 volume in write-through mode: the inodes' extents map logical blocks to disk blocks that no
    two files share. */
module Ext4Files {
  import opened Common
  import opened Bits
  import Bytes
  import opened Ext4Blocks
  import opened Ext4Extents

  /** The volume and the inode table. */
  datatype Fs = Fs(vol: Vol, inodes: map<nat, Inode>)

  /** The disk block behind logical block `l` of a file, 0 for a hole. */
  function Phys(f: Fs, ino: nat, l: nat): nat
    requires ino in f.inodes
  {
    GetBlock(f.inodes[ino].extents, l)
  }

  ghost predicate Owned(f: Fs, ino: nat, l: nat)
    requires ino in f.inodes && Shape(f.vol)
  {
    Phys(f, ino, l) != 0 ==> Holds(f.vol, Phys(f, ino, l))
  }

  ghost predicate Separate(f: Fs, ino: nat, l: nat, jno: nat, m: nat)
    requires ino in f.inodes && jno in f.inodes
  {
    Phys(f, ino, l) != 0 && Phys(f, ino, l) == Phys(f, jno, m) ==> ino == jno && l == m
  }

  /** The allocator's invariant, and: every mapped block is a data block in use, and no two logical blocks, of one
      file or of two, share a disk block. */
  ghost predicate Sound(f: Fs)
  {
    && Good(f.vol) && f.vol.blockSize >= 1024 && |f.vol.disk| <= TWO_48
    && (forall ino :: ino in f.inodes ==> WellFormed(f.inodes[ino].extents))
    && (forall ino, l: nat :: ino in f.inodes ==> Owned(f, ino, l))
    && (forall ino, l: nat, jno, m: nat :: ino in f.inodes && jno in f.inodes ==> Separate(f, ino, l, jno, m))
  }

  const ZERO_BYTE: Word := [false, false, false, false, false, false, false, false]

  /** Byte `x` of logical block `l` of a file, as a read sees it: zero in a hole. */
  ghost function Byte(f: Fs, ino: nat, l: nat, x: nat): Word
    requires Sound(f) && ino in f.inodes && x < f.vol.blockSize
  {
    assert Owned(f, ino, l);
    if Phys(f, ino, l) == 0 then seq(8, _ => false) else f.vol.disk[Phys(f, ino, l)][x]
  }

  // ---- a new block --------------------------------------------------------------------------------------

  ghost function Grown(f: Fs, ino: nat, l: nat, b: nat): Fs
    requires Sound(f) && ino in f.inodes && IsFree(f.vol, b)
  {
    Fs(FlipBlock(f.vol, b, true), f.inodes[ino := AddBlock(f.inodes[ino], l, b)])
  }

  lemma GrownPhys(f: Fs, ino: nat, l: nat, b: nat, jno: nat, m: nat)
    requires Sound(f) && ino in f.inodes && IsFree(f.vol, b) && Phys(f, ino, l) == 0 && l + 1 < TWO_32
    requires jno in f.inodes
    ensures WellFormed(Grown(f, ino, l, b).inodes[jno].extents)
    ensures Phys(Grown(f, ino, l, b), jno, m) == if jno == ino && m == l then b else Phys(f, jno, m)
  {
    AddBlockIsUpdate(f.inodes[ino], l, b, m);
  }

  /** A block that was free belongs to nobody, so adding it to one file keeps all files apart. */
  lemma GrownSound(f: Fs, ino: nat, l: nat, b: nat)
    requires Sound(f) && ino in f.inodes && IsFree(f.vol, b) && Phys(f, ino, l) == 0 && l + 1 < TWO_32
    ensures Sound(Grown(f, ino, l, b))
  {
    var f' := Grown(f, ino, l, b);
    assert Good(f'.vol) by { FlipGood(f.vol, b, true); }
    assert f'.inodes.Keys == f.inodes.Keys && f'.vol.blockSize == f.vol.blockSize && |f'.vol.disk| == |f.vol.disk|;
    forall jno | jno in f'.inodes ensures WellFormed(f'.inodes[jno].extents) { GrownPhys(f, ino, l, b, jno, 0); }
    forall jno, m: nat | jno in f'.inodes ensures Owned(f', jno, m) { GrownOwned(f, ino, l, b, jno, m); }
    forall jno, m: nat, kno, n: nat | jno in f'.inodes && kno in f'.inodes ensures Separate(f', jno, m, kno, n) {
      GrownSeparate(f, ino, l, b, jno, m, kno, n);
    }
  }

  lemma GrownSeparate(f: Fs, ino: nat, l: nat, b: nat, jno: nat, m: nat, kno: nat, n: nat)
    requires Sound(f) && ino in f.inodes && IsFree(f.vol, b) && Phys(f, ino, l) == 0 && l + 1 < TWO_32
    requires jno in f.inodes && kno in f.inodes
    ensures Separate(Grown(f, ino, l, b), jno, m, kno, n)
  {
    GrownPhys(f, ino, l, b, jno, m);
    GrownPhys(f, ino, l, b, kno, n);
    assert Owned(f, jno, m) && Owned(f, kno, n) && Separate(f, jno, m, kno, n);
  }

  lemma GrownOwned(f: Fs, ino: nat, l: nat, b: nat, jno: nat, m: nat)
    requires Sound(f) && ino in f.inodes && IsFree(f.vol, b) && Phys(f, ino, l) == 0 && l + 1 < TWO_32
    requires jno in f.inodes && Shape(Grown(f, ino, l, b).vol)
    ensures WellFormed(Grown(f, ino, l, b).inodes[jno].extents) && Owned(Grown(f, ino, l, b), jno, m)
  {
    GrownPhys(f, ino, l, b, jno, m);
    assert Owned(f, jno, m);
    AllocHeld(f.vol, [], b);
    assert Holds(FlipBlock(f.vol, b, true), ([] + [b])[0]);
    if Phys(f, jno, m) != 0 && !(jno == ino && m == l) {
      FlipHolds(f.vol, b, true, Phys(f, jno, m));
    }
  }

  /** No byte of any block mapped before changes. */
  lemma GrownBytes(f: Fs, ino: nat, l: nat, b: nat, jno: nat, m: nat, x: nat)
    requires Sound(f) && ino in f.inodes && IsFree(f.vol, b) && Phys(f, ino, l) == 0 && l + 1 < TWO_32
    requires jno in f.inodes && x < f.vol.blockSize && !(jno == ino && m == l) && Sound(Grown(f, ino, l, b))
    ensures Byte(Grown(f, ino, l, b), jno, m, x) == Byte(f, jno, m, x)
  {
    GrownPhys(f, ino, l, b, jno, m);
    assert Owned(f, jno, m);
    f.vol.lay.AbsoluteOfPlace(b);
    assert IsBitmap(f.vol, f.vol.groups[f.vol.lay.GroupOf(b)].bitmapBlock);
  }

  // ---- data into a block --------------------------------------------------------------------------------

  ghost function Stored(f: Fs, p: nat, data: Block): Fs
    requires p < |f.vol.disk|
  {
    f.(vol := f.vol.(disk := f.vol.disk[p := data]))
  }

  lemma StoredGood(v: Vol, p: nat, data: Block)
    requires Good(v) && p < |v.disk| && !IsBitmap(v, p) && IsBlock(data, v.blockSize)
    ensures Good(v.(disk := v.disk[p := data]))
    ensures forall b :: IsFree(v.(disk := v.disk[p := data]), b) <==> IsFree(v, b)
    ensures forall b :: Holds(v.(disk := v.disk[p := data]), b) <==> Holds(v, b)
  {
    var v' := v.(disk := v.disk[p := data]);
    forall g | 0 <= g < |v.groups| ensures v'.groups[g].bitmapBlock < |v'.disk|
        && v'.disk[v'.groups[g].bitmapBlock] == Bitmap(v, g) {
      assert v.groups[g].bitmapBlock != p;
    }
    assert Shape(v');
    forall g | 0 <= g < |v.groups| ensures GroupCounted(v', g) { assert GroupCounted(v, g); }
    forall b: nat ensures IsFree(v', b) <==> IsFree(v, b) { }
    forall b: nat ensures IsBitmap(v', b) <==> IsBitmap(v, b) { }
  }

  lemma StoredSound(f: Fs, p: nat, data: Block)
    requires Sound(f) && Holds(f.vol, p) && IsBlock(data, f.vol.blockSize)
    ensures Sound(Stored(f, p, data))
  {
    var f' := Stored(f, p, data);
    StoredGood(f.vol, p, data);
    forall jno, m: nat | jno in f'.inodes ensures Owned(f', jno, m) { assert Owned(f, jno, m); }
    forall jno, m: nat, kno, n: nat | jno in f'.inodes && kno in f'.inodes ensures Separate(f', jno, m, kno, n) {
      assert Separate(f, jno, m, kno, n);
    }
  }

  /** Only the logical block that maps to it sees the new data. */
  lemma StoredBytes(f: Fs, ino: nat, l: nat, data: Block, jno: nat, m: nat, x: nat)
    requires Sound(f) && ino in f.inodes && Phys(f, ino, l) != 0 && IsBlock(data, f.vol.blockSize)
    requires jno in f.inodes && x < f.vol.blockSize
    ensures Owned(f, ino, l) && Sound(Stored(f, Phys(f, ino, l), data))
    ensures Byte(Stored(f, Phys(f, ino, l), data), jno, m, x)
            == if jno == ino && m == l then data[x] else Byte(f, jno, m, x)
  {
    assert Owned(f, ino, l);
    StoredSound(f, Phys(f, ino, l), data);
    assert Owned(f, jno, m) && Separate(f, ino, l, jno, m);
  }

  // ---- bytes of a file ----------------------------------------------------------------------------------

  /** The quotient and the remainder of a file offset by the block size, unfolded one block at a time. */
  function BlockOf(i: nat, bs: nat): nat
    requires bs > 0
  {
    if i < bs then 0 else 1 + BlockOf(i - bs, bs)
  }

  function OffsetIn(i: nat, bs: nat): (o: nat)
    requires bs > 0
    ensures o < bs && o <= i
  {
    if i < bs then i else OffsetIn(i - bs, bs)
  }

  lemma {:induction false} DivMod(i: nat, bs: nat)
    requires bs > 0
    ensures BlockOf(i, bs) == i / bs && OffsetIn(i, bs) == i % bs
  {
    if i >= bs {
      DivMod(i - bs, bs);
      DivUnique(i, bs, 1 + (i - bs) / bs, (i - bs) % bs);
    } else {
      DivUnique(i, bs, 0, i);
    }
  }

  /** Byte `i` of a file, wherever its block is. */
  ghost function At(f: Fs, ino: nat, i: nat): Word
    requires Sound(f) && ino in f.inodes
  {
    Byte(f, ino, BlockOf(i, f.vol.blockSize), OffsetIn(i, f.vol.blockSize))
  }

  ghost predicate Mapped(f: Fs, ino: nat, i: nat)
    requires Sound(f) && ino in f.inodes
  {
    Phys(f, ino, BlockOf(i, f.vol.blockSize)) != 0
  }

  /** A range inside one block, by byte number and by block and offset. */
  lemma {:induction false} InBlock(bs: nat, start: nat, k: nat, i: nat)
    requires bs > 0 && OffsetIn(start, bs) + k <= bs
    ensures start <= i < start + k
            <==> && BlockOf(i, bs) == BlockOf(start, bs)
                 && OffsetIn(start, bs) <= OffsetIn(i, bs) < OffsetIn(start, bs) + k
    ensures BlockOf(i, bs) == BlockOf(start, bs) ==> i - start == OffsetIn(i, bs) - OffsetIn(start, bs)
  {
    if start >= bs && i >= bs { InBlock(bs, start - bs, k, i - bs); }
  }

  /** A block never reaches across a multiple of the block size, such as the wrap of a 32-bit offset. */
  lemma {:induction false} BlockEnd(bs: nat, start: nat, end: nat)
    requires bs > 1 && OffsetIn(end, bs) == 0 && start < end
    ensures start - OffsetIn(start, bs) + bs <= end
    ensures 2 * BlockOf(start, bs) <= start
  {
    if start >= bs { BlockEnd(bs, start - bs, end - bs); }
  }

  /** Offsets are 32-bit: which byte of the data a write at `offset` puts at position `i`. */
  function Into(offset: nat, i: nat): int
  {
    if i >= offset then i - offset else i + TWO_32 - offset
  }

  predicate Hit(offset: nat, n: nat, i: nat)
  {
    i < TWO_32 && Into(offset, i) < n
  }

  /** What a write of the first `n` bytes of `data` at `offset` does: those bytes are there, every other byte of
      the file that had a block is unchanged, and so is every byte of every other file. */
  ghost predicate Wrote(f: Fs, f': Fs, ino: nat, offset: nat, data: Block, n: nat)
    requires Sound(f) && Sound(f') && ino in f.inodes && n <= |data| && offset < TWO_32
  {
    && f'.vol.blockSize == f.vol.blockSize && f'.inodes.Keys == f.inodes.Keys
    && (forall jno :: jno in f.inodes && jno != ino ==> f'.inodes[jno] == f.inodes[jno])
    && (forall jno, i: nat :: jno in f.inodes && jno != ino ==> At(f', jno, i) == At(f, jno, i))
    && (forall i: nat :: Hit(offset, n, i) ==> Mapped(f', ino, i) && At(f', ino, i) == data[Into(offset, i)])
    && (forall i: nat :: !Hit(offset, n, i) && Mapped(f, ino, i) ==>
          Mapped(f', ino, i) && At(f', ino, i) == At(f, ino, i))
  }

  /** One block's worth of a write. */
  ghost predicate WroteBlock(f: Fs, f': Fs, ino: nat, l: nat, o: nat, chunk: Block)
    requires Sound(f) && Sound(f') && ino in f.inodes
  {
    && f'.vol.blockSize == f.vol.blockSize && f'.inodes.Keys == f.inodes.Keys && o + |chunk| <= f.vol.blockSize
    && (forall jno :: jno in f.inodes && jno != ino ==> f'.inodes[jno] == f.inodes[jno])
    && Phys(f', ino, l) != 0
    && (forall jno, m: nat :: jno in f.inodes && !(jno == ino && m == l) ==> Phys(f', jno, m) == Phys(f, jno, m))
    && (forall jno, m: nat, x: nat :: jno in f.inodes && x < f.vol.blockSize && !(jno == ino && m == l) ==>
          Byte(f', jno, m, x) == Byte(f, jno, m, x))
    && (forall x: nat :: x < f.vol.blockSize ==>
          if o <= x < o + |chunk| then Byte(f', ino, l, x) == chunk[x - o]
          else Phys(f, ino, l) != 0 ==> Byte(f', ino, l, x) == Byte(f, ino, l, x))
  }

  lemma StepInside(g: Fs, h: Fs, ino: nat, start: nat, chunk: Block, i: nat)
    requires Sound(g) && Sound(h) && ino in g.inodes && OffsetIn(start, g.vol.blockSize) + |chunk| <= g.vol.blockSize
    requires WroteBlock(g, h, ino, BlockOf(start, g.vol.blockSize), OffsetIn(start, g.vol.blockSize), chunk)
    requires start <= i < start + |chunk|
    ensures Mapped(h, ino, i) && At(h, ino, i) == chunk[i - start]
  {
    InBlock(g.vol.blockSize, start, |chunk|, i);
  }

  lemma StepOutside(g: Fs, h: Fs, ino: nat, start: nat, chunk: Block, jno: nat, i: nat)
    requires Sound(g) && Sound(h) && ino in g.inodes && OffsetIn(start, g.vol.blockSize) + |chunk| <= g.vol.blockSize
    requires WroteBlock(g, h, ino, BlockOf(start, g.vol.blockSize), OffsetIn(start, g.vol.blockSize), chunk)
    requires jno in g.inodes && (jno != ino || (!(start <= i < start + |chunk|) && Mapped(g, ino, i)))
    ensures Mapped(g, jno, i) ==> Mapped(h, jno, i)
    ensures At(h, jno, i) == At(g, jno, i)
  {
    InBlock(g.vol.blockSize, start, |chunk|, i);
  }

  lemma HitStep(offset: nat, n: nat, start: nat, k: nat, i: nat)
    requires offset < TWO_32 && n + k < TWO_32 && start == (offset + n) % TWO_32 && start + k <= TWO_32
    ensures Hit(offset, n + k, i) <==> Hit(offset, n, i) || start <= i < start + k
    ensures start <= i < start + k ==> !Hit(offset, n, i) && Into(offset, i) == n + (i - start)
  {
  }

  /** A byte the step writes, or one it must keep. */
  lemma StepByte(f: Fs, g: Fs, h: Fs, ino: nat, offset: nat, data: Block, n: nat, start: nat, k: nat, i: nat)
    requires Sound(f) && Sound(g) && Sound(h) && ino in f.inodes && n + k <= |data| < TWO_32 && offset < TWO_32
    requires Wrote(f, g, ino, offset, data, n)
    requires start == (offset + n) % TWO_32 && start + k <= TWO_32
        && OffsetIn(start, f.vol.blockSize) + k <= f.vol.blockSize
    requires WroteBlock(g, h, ino, BlockOf(start, f.vol.blockSize), OffsetIn(start, f.vol.blockSize), data[n..n + k])
    requires Hit(offset, n + k, i) || Mapped(f, ino, i)
    ensures Mapped(h, ino, i)
    ensures At(h, ino, i) == if Hit(offset, n + k, i) then data[Into(offset, i)] else At(f, ino, i)
  {
    HitStep(offset, n, start, k, i);
    if start <= i < start + k {
      StepInside(g, h, ino, start, data[n..n + k], i);
    } else {
      StepOutside(g, h, ino, start, data[n..n + k], ino, i);
    }
  }

  /** A write that has got as far as `n` bytes goes on by one block. */
  lemma WroteStep(f: Fs, g: Fs, h: Fs, ino: nat, offset: nat, data: Block, n: nat, start: nat, k: nat)
    requires Sound(f) && Sound(g) && Sound(h) && ino in f.inodes && n + k <= |data| < TWO_32 && offset < TWO_32
    requires Wrote(f, g, ino, offset, data, n)
    requires start == (offset + n) % TWO_32 && start + k <= TWO_32
        && OffsetIn(start, f.vol.blockSize) + k <= f.vol.blockSize
    requires WroteBlock(g, h, ino, BlockOf(start, f.vol.blockSize), OffsetIn(start, f.vol.blockSize), data[n..n + k])
    ensures Wrote(f, h, ino, offset, data, n + k)
  {
    forall jno, i: nat | jno in f.inodes && jno != ino ensures At(h, jno, i) == At(f, jno, i) {
      StepOutside(g, h, ino, start, data[n..n + k], jno, i);
    }
    forall i: nat | Hit(offset, n + k, i) || Mapped(f, ino, i)
      ensures Mapped(h, ino, i)
      ensures At(h, ino, i) == if Hit(offset, n + k, i) then data[Into(offset, i)] else At(f, ino, i)
    {
      StepByte(f, g, h, ino, offset, data, n, start, k, i);
    }
  }

  // ---- the file operations ------------------------------------------------------------------------------

  /** Same files and bytes but for logical block `l` of `ino`, which `g` maps. */
  ghost predicate Beside(f: Fs, g: Fs, ino: nat, l: nat)
    requires Sound(f) && Sound(g) && ino in f.inodes
  {
    && g.vol.blockSize == f.vol.blockSize && g.inodes.Keys == f.inodes.Keys && Phys(g, ino, l) != 0
    && (forall jno :: jno in f.inodes && jno != ino ==> g.inodes[jno] == f.inodes[jno])
    && (forall jno, m: nat :: jno in f.inodes && !(jno == ino && m == l) ==> Phys(g, jno, m) == Phys(f, jno, m))
    && (forall jno, m: nat, x: nat :: jno in f.inodes && x < f.vol.blockSize && !(jno == ino && m == l) ==>
          Byte(g, jno, m, x) == Byte(f, jno, m, x))
    && (Phys(f, ino, l) != 0 ==> g == f)
  }

  lemma GrownIsHole(f: Fs, ino: nat, l: nat, b: nat)
    requires Sound(f) && ino in f.inodes && IsFree(f.vol, b) && Phys(f, ino, l) == 0 && l + 1 < TWO_32
    ensures Sound(Grown(f, ino, l, b)) && Beside(f, Grown(f, ino, l, b), ino, l)
  {
    var g := Grown(f, ino, l, b);
    GrownSound(f, ino, l, b);
    forall jno, m: nat | jno in f.inodes
      ensures Phys(g, jno, m) == if jno == ino && m == l then b else Phys(f, jno, m)
    {
      GrownPhys(f, ino, l, b, jno, m);
    }
    forall jno, m: nat, x: nat | jno in f.inodes && x < f.vol.blockSize && !(jno == ino && m == l)
      ensures Byte(g, jno, m, x) == Byte(f, jno, m, x)
    {
      GrownBytes(f, ino, l, b, jno, m, x);
    }
    assert Owned(g, ino, l);
    assert Phys(g, ino, l) == b;
  }

  lemma StoreKeeps(f: Fs, g: Fs, ino: nat, l: nat, o: nat, chunk: Block, data: Block)
    requires Sound(f) && Sound(g) && ino in f.inodes && Beside(f, g, ino, l)
    requires Owned(g, ino, l) && o + |chunk| <= f.vol.blockSize && IsBlock(data, f.vol.blockSize)
    requires data == Bytes.Overlay(g.vol.disk[Phys(g, ino, l)], o, chunk)
    requires Sound(Stored(g, Phys(g, ino, l), data))
    ensures WroteBlock(f, Stored(g, Phys(g, ino, l), data), ino, l, o, chunk)
  {
    forall jno, m: nat, x: nat | jno in f.inodes && x < f.vol.blockSize
      ensures Byte(Stored(g, Phys(g, ino, l), data), jno, m, x)
              == if jno == ino && m == l then data[x] else Byte(g, jno, m, x)
    {
      StoredBytes(g, ino, l, data, jno, m, x);
    }
  }

  /** The bytes of the file from `offset` on, going round at 2^32. */
  ghost predicate Reads(f: Fs, ino: nat, offset: nat, out: Block)
    requires Sound(f) && ino in f.inodes
  {
    forall i :: 0 <= i < |out| ==> out[i] == At(f, ino, (offset + i) % TWO_32)
  }

  lemma ModAdd(x: nat, y: nat)
    ensures (x % TWO_32 + y) % TWO_32 == (x + y) % TWO_32
  {
  }

  lemma ReadsOn(f: Fs, ino: nat, offset: nat, out: Block, chunk: Block)
    requires Sound(f) && ino in f.inodes && Reads(f, ino, offset, out)
    requires Reads(f, ino, (offset + |out|) % TWO_32, chunk)
    ensures Reads(f, ino, offset, out + chunk)
  {
    forall i | 0 <= i < |out + chunk| ensures (out + chunk)[i] == At(f, ino, (offset + i) % TWO_32) {
      if i >= |out| {
        ModAdd(offset + |out|, i - |out|);
        assert chunk[i - |out|] == At(f, ino, ((offset + |out|) % TWO_32 + (i - |out|)) % TWO_32);
      } else {
        assert out[i] == At(f, ino, (offset + i) % TWO_32);
      }
    }
  }

  lemma Small(x: nat)
    requires x < TWO_32
    ensures x % TWO_32 == x
  {
  }

  lemma BlockRead(f: Fs, ino: nat, start: nat, k: nat, j: nat, l: nat, o: nat)
    requires Sound(f) && ino in f.inodes && j < k && start + k <= TWO_32 && o + k <= f.vol.blockSize
    requires l == BlockOf(start, f.vol.blockSize) && o == OffsetIn(start, f.vol.blockSize)
    ensures At(f, ino, (start + j) % TWO_32) == Byte(f, ino, l, o + j)
  {
    InBlock(f.vol.blockSize, start, k, start + j);
    Small(start + j);
  }

  /** The chunk is what block `l` of the file holds from `o` on. */
  ghost predicate InOneBlock(f: Fs, ino: nat, l: nat, o: nat, chunk: Block)
    requires Sound(f) && ino in f.inodes && o + |chunk| <= f.vol.blockSize
  {
    forall j :: 0 <= j < |chunk| ==> chunk[j] == Byte(f, ino, l, o + j)
  }

  lemma BlockReads(f: Fs, ino: nat, start: nat, l: nat, o: nat, chunk: Block)
    requires Sound(f) && ino in f.inodes && start + |chunk| <= TWO_32 && o + |chunk| <= f.vol.blockSize
    requires l == BlockOf(start, f.vol.blockSize) && o == OffsetIn(start, f.vol.blockSize)
    requires InOneBlock(f, ino, l, o, chunk)
    ensures Reads(f, ino, start, chunk)
  {
    forall j | 0 <= j < |chunk| ensures chunk[j] == At(f, ino, (start + j) % TWO_32) {
      BlockRead(f, ino, start, |chunk|, j, l, o);
    }
  }

  function Zeros(k: nat): Block { seq(k, _ => ZERO_BYTE) }

  /** A file's size does not touch its bytes. */
  lemma Resized(g: Fs, h: Fs)
    requires Sound(g) && h.vol == g.vol && h.inodes.Keys == g.inodes.Keys
    requires forall jno :: jno in g.inodes ==> h.inodes[jno].extents == g.inodes[jno].extents
    ensures Sound(h)
    ensures forall jno, i: nat :: jno in g.inodes ==>
              (Mapped(h, jno, i) <==> Mapped(g, jno, i)) && At(h, jno, i) == At(g, jno, i)
  {
    forall jno, l: nat | jno in h.inodes ensures Owned(h, jno, l) { assert Owned(g, jno, l); }
    forall jno, m: nat, kno, n: nat | jno in h.inodes && kno in h.inodes ensures Separate(h, jno, m, kno, n) {
      assert Separate(g, jno, m, kno, n);
    }
  }

  lemma ResizedWrote(f: Fs, g: Fs, h: Fs, ino: nat, offset: nat, data: Block, n: nat)
    requires Sound(f) && Sound(g) && Sound(h) && ino in f.inodes && n <= |data| && offset < TWO_32
    requires Wrote(f, g, ino, offset, data, n)
    requires h.vol == g.vol && h.inodes.Keys == g.inodes.Keys && h.inodes[ino].extents == g.inodes[ino].extents
    requires forall jno :: jno in g.inodes && jno != ino ==> h.inodes[jno] == g.inodes[jno]
    ensures Wrote(f, h, ino, offset, data, n)
  {
    Resized(g, h);
  }

  /** The block an offset falls in, and where. */
  method Locate(bs: nat, start: nat) returns (l: nat, o: nat)
    requires bs > 1 && TWO_32 % bs == 0 && start < TWO_32
    ensures l == BlockOf(start, bs) && o == OffsetIn(start, bs)
    ensures start + (bs - o) <= TWO_32 && l + 1 < TWO_32
  {
    l, o := start / bs, start % bs;
    DivMod(start, bs);
    DivMod(TWO_32, bs);
    BlockEnd(bs, start, TWO_32);
  }

  /** Logical block `l` and disk block `b` both follow the last extent, which is short enough to take one more. */
  ghost predicate Adjoins(es: seq<Extent>, l: nat, b: nat)
  {
    es != [] && var last := es[|es| - 1];
    && l == last.block + last.len && b == last.startHi * TWO_32 + last.startLo + last.len && last.len < 32768
  }

  ghost predicate IsLowestFree(v: Vol, b: nat)
    requires Shape(v)
  {
    IsFree(v, b) && forall c :: IsFree(v, c) ==> b <= c
  }

  /** Logical block `l` of the file cannot get a block: none is free, or the inode has no room for another extent and
      the block to be had, the lowest free one, does not adjoin the last. */
  ghost predicate Stuck(f: Fs, ino: nat, l: nat)
    requires Shape(f.vol) && ino in f.inodes
  {
    || (forall c :: !IsFree(f.vol, c))
    || (|f.inodes[ino].extents| >= f.inodes[ino].max
        && forall b :: IsLowestFree(f.vol, b) ==> !Adjoins(f.inodes[ino].extents, l, b))
  }

  /** Byte `i` of the file lies in a hole that cannot get a block. */
  ghost predicate StuckAt(f: Fs, ino: nat, i: nat)
    requires Sound(f) && ino in f.inodes
  {
    !Mapped(f, ino, i) && Stuck(f, ino, BlockOf(i, f.vol.blockSize))
  }

  /** The block that holds byte `i` of the file, or the one it would get. */
  ghost function BlockFor(f: Fs, ino: nat, i: nat): Option<nat>
    requires Sound(f) && ino in f.inodes
  {
    if StuckAt(f, ino, i) then None
    else if Mapped(f, ino, i) then Some(Phys(f, ino, BlockOf(i, f.vol.blockSize)))
    else Some(LowestFreeBlock(f.vol))
  }

  /** The same for the byte that follows the first `n` bytes of a write at `offset`. */
  ghost function BlockAfter(f: Fs, ino: nat, offset: nat, n: nat): Option<nat>
    requires Sound(f) && ino in f.inodes
  {
    BlockFor(f, ino, (offset + n) % TWO_32)
  }

  ghost function LowestFreeBlock(v: Vol): (b: nat)
    requires Shape(v) && exists c :: IsFree(v, c)
    ensures IsLowestFree(v, b)
  {
    var c: nat :| IsFree(v, c);
    LowestFreeExists(v, c);
    var b: nat :| IsLowestFree(v, b);
    b
  }

  lemma {:induction false} LowestFreeExists(v: Vol, c: nat)
    requires Shape(v) && IsFree(v, c)
    ensures exists b: nat :: IsLowestFree(v, b)
  {
    if !IsLowestFree(v, c) {
      var b: nat :| IsFree(v, b) && b < c;
      LowestFreeExists(v, b);
    }
  }

  /** The code's two tests together. */
  lemma AdjoinsIs(n: Inode, l: nat, b: nat)
    requires WellFormed(n.extents)
    ensures Continues(n, l) && Merges(n, b) <==> Adjoins(n.extents, l, b)
    ensures |AddBlock(n, l, b).extents| == |n.extents| + if Adjoins(n.extents, l, b) then 0 else 1
  {
    if n.extents != [] { assert n.extents[|n.extents| - 1] in n.extents; }
  }

  lemma StuckExact(f: Fs, ino: nat, l: nat, b: nat)
    requires Shape(f.vol) && ino in f.inodes && IsLowestFree(f.vol, b)
    ensures Stuck(f, ino, l) <==>
            |f.inodes[ino].extents| >= f.inodes[ino].max && !Adjoins(f.inodes[ino].extents, l, b)
  {
    assert forall c :: IsLowestFree(f.vol, c) ==> c == b;
  }

  /** Nor does it touch what blocks can be had. */
  lemma ResizedStuck(g: Fs, h: Fs, ino: nat, i: nat)
    requires Sound(g) && Sound(h) && ino in g.inodes && ino in h.inodes && h.vol == g.vol
    requires h.inodes[ino].extents == g.inodes[ino].extents && h.inodes[ino].max == g.inodes[ino].max
    ensures BlockFor(g, ino, i) == None ==> StuckAt(h, ino, i)
  {
  }

  /** The size is set when the blocks are written. */
  lemma SizeSet(f: Fs, g: Fs, h: Fs, op: WriteOp)
    requires Sound(f) && Sound(g) && op.ino in f.inodes && op.n <= |op.data| < TWO_32 && op.offset < TWO_32
    requires op.ino in g.inodes && op.ino in h.inodes
    requires Wrote(f, g, op.ino, op.offset, op.data, op.n) && g.inodes[op.ino].size == f.inodes[op.ino].size
    requires h == g.(inodes := g.inodes[op.ino := g.inodes[op.ino].(size := h.inodes[op.ino].size)])
    requires h.inodes[op.ino].size == Max(g.inodes[op.ino].size, (op.offset + op.n) % TWO_32)
    ensures Sound(h) && Written(f, h, op)
  {
    Resized(g, h);
    ResizedWrote(f, g, h, op.ino, op.offset, op.data, op.n);
  }

  class FileSystem {
    const vol: Volume
    var inodes: map<nat, Inode>

    constructor (vol: Volume, inodes: map<nat, Inode>)
      ensures this.vol == vol && this.inodes == inodes
    {
      this.vol, this.inodes := vol, inodes;
    }

    ghost function Val(): Fs
      reads this, vol
    {
      Fs(vol.Val(), inodes)
    }

    /** Gives logical block `l` of the file the lowest free block, in the last extent if both adjoin it and in a new
        extent otherwise. It fails exactly when it is stuck, and then everything is as before. */
    method AllocateExtent(ino: nat, l: nat) returns (ok: bool, ghost b: nat)
      requires Sound(Val()) && ino in inodes && Phys(Val(), ino, l) == 0 && l + 1 < TWO_32
      modifies this`inodes, vol
      ensures Sound(Val())
      ensures !ok <==> old(Stuck(Val(), ino, l))
      ensures ok ==> IsLowestFree(old(Val()).vol, b) && Val() == Grown(old(Val()), ino, l, b)
      ensures ok ==> |inodes[ino].extents| == old(|inodes[ino].extents|)
                                              + if old(Adjoins(inodes[ino].extents, l, b)) then 0 else 1
      ensures !ok ==> Val() == old(Val())
      ensures vol.freeTotal + Blocks(inodes[ino].extents) == old(vol.freeTotal + Blocks(inodes[ino].extents))
    {
      ghost var f := Val();
      var n := inodes[ino];
      b := 0;
      if !Continues(n, l) && |n.extents| >= n.max {
        forall c | IsLowestFree(f.vol, c) ensures !Adjoins(n.extents, l, c) { AdjoinsIs(n, l, c); }
        return false, b;
      }
      var block := vol.AllocateBlock();
      if block == 0 { return false, b; }
      b := block;
      AdjoinsIs(n, l, block);
      StuckExact(f, ino, l, block);
      AddBlockIsUpdate(n, l, block, 0);
      GrownSound(f, ino, l, block);
      if Continues(n, l) && !Merges(n, block) && |n.extents| >= n.max {
        FreeUndoesAllocate(f.vol, block);
        vol.FreeBlock(block);
        return false, b;
      }
      inodes := inodes[ino := AddBlock(n, l, block)];
      return true, b;
    }

    /** Read-modify-write of the block behind `l`. */
    method PutChunk(ino: nat, l: nat, p: nat, o: nat, chunk: Block, ghost f: Fs)
      requires Sound(Val()) && ino in inodes && p != 0 && p == Phys(Val(), ino, l)
      requires o + |chunk| <= vol.blockSize && IsBlock(chunk, |chunk|)
      requires Sound(f) && ino in f.inodes && Beside(f, Val(), ino, l)
      modifies vol`disk
      ensures Sound(Val()) && WroteBlock(f, Val(), ino, l, o, chunk)
    {
      ghost var g := Val();
      assert Owned(g, ino, l);
      var data := Bytes.Overlay(vol.disk[p], o, chunk);
      StoredSound(g, p, data);
      StoreKeeps(f, g, ino, l, o, chunk, data);
      vol.disk := vol.disk[p := data];
      assert Val() == Stored(g, p, data);
    }

    /** The block behind `l`; a hole gets one first. */
    method EnsureBlock(ino: nat, l: nat) returns (ok: bool, p: nat)
      requires Sound(Val()) && ino in inodes && l + 1 < TWO_32
      modifies this`inodes, vol
      ensures Sound(Val()) && (!ok <==> old(Phys(Val(), ino, l) == 0 && Stuck(Val(), ino, l)))
      ensures ok ==> Beside(old(Val()), Val(), ino, l) && p == Phys(Val(), ino, l)
      ensures ok ==> inodes[ino].(extents := []) == old(inodes[ino].(extents := []))
      ensures ok ==> vol.freeTotal + Blocks(inodes[ino].extents) == old(vol.freeTotal + Blocks(inodes[ino].extents))
      ensures !ok ==> Val() == old(Val())
    {
      p := GetBlock(inodes[ino].extents, l);
      ok := true;
      if p == 0 {
        ghost var b;
        ok, b := AllocateExtent(ino, l);
        if ok {
          GrownIsHole(old(Val()), ino, l, b);
          p := GetBlock(inodes[ino].extents, l);
        }
      }
    }

    /** One block of a write: the chunk goes over the block's old contents. */
    method WriteBlock(ino: nat, l: nat, o: nat, chunk: Block) returns (ok: bool)
      requires Sound(Val()) && ino in inodes && l + 1 < TWO_32
      requires o + |chunk| <= vol.blockSize && IsBlock(chunk, |chunk|)
      modifies this`inodes, vol
      ensures Sound(Val()) && (!ok <==> old(Phys(Val(), ino, l) == 0 && Stuck(Val(), ino, l)))
      ensures ok ==> WroteBlock(old(Val()), Val(), ino, l, o, chunk)
      ensures ok ==> inodes[ino].(extents := []) == old(inodes[ino].(extents := []))
      ensures ok ==> vol.freeTotal + Blocks(inodes[ino].extents) == old(vol.freeTotal + Blocks(inodes[ino].extents))
      ensures !ok ==> Val() == old(Val())
    {
      var p;
      ok, p := EnsureBlock(ino, l);
      if ok { PutChunk(ino, l, p, o, chunk, old(Val())); }
    }

    /** As much of the rest as fits in one block; 0 if there is no block for it. */
    method WriteNext(ino: nat, offset: nat, data: Block, n: nat, ghost f: Fs) returns (k: nat)
      requires Sound(Val()) && TWO_32 % vol.blockSize == 0 && ino in inodes
      requires offset < TWO_32 && n < |data| < TWO_32 && IsBlock(data, |data|)
      requires Sound(f) && ino in f.inodes && Wrote(f, Val(), ino, offset, data, n)
      modifies this`inodes, vol
      ensures Sound(Val()) && n + k <= |data| && Wrote(f, Val(), ino, offset, data, n + k)
      ensures k == 0 ==> BlockAfter(Val(), ino, offset, n) == None
      ensures inodes[ino].(extents := []) == old(inodes[ino].(extents := []))
      ensures vol.freeTotal + Blocks(inodes[ino].extents) == old(vol.freeTotal + Blocks(inodes[ino].extents))
    {
      ghost var g := Val();
      var start := (offset + n) % TWO_32;
      var l, o := Locate(vol.blockSize, start);
      k := Min(vol.blockSize - o, |data| - n);
      var ok := WriteBlock(ino, l, o, data[n..n + k]);
      if !ok { return 0; }
      WroteStep(f, g, Val(), ino, offset, data, n, start, k);
    }

    /** Block after block, until the data or the space runs out. */
    method WriteBlocks(ino: nat, offset: nat, data: Block) returns (n: nat)
      requires Sound(Val()) && TWO_32 % vol.blockSize == 0 && ino in inodes
      requires offset < TWO_32 && |data| < TWO_32 && IsBlock(data, |data|)
      modifies this`inodes, vol
      ensures Sound(Val()) && n <= |data| && Wrote(old(Val()), Val(), ino, offset, data, n)
      ensures n < |data| ==> BlockAfter(Val(), ino, offset, n) == None
      ensures inodes[ino].(extents := []) == old(inodes[ino].(extents := []))
      ensures vol.freeTotal + Blocks(inodes[ino].extents) == old(vol.freeTotal + Blocks(inodes[ino].extents))
    {
      n := 0;
      while n < |data|
        invariant Sound(Val()) && n <= |data| && Wrote(old(Val()), Val(), ino, offset, data, n)
        invariant inodes[ino].(extents := []) == old(inodes[ino].(extents := []))
        invariant vol.freeTotal + Blocks(inodes[ino].extents) == old(vol.freeTotal + Blocks(inodes[ino].extents))
      {
        var k := WriteNext(ino, offset, data, n, old(Val()));
        if k == 0 { return; }
        n := n + k;
      }
    }

    /** Stops early only at a byte that cannot get a block. What arrives, arrives whole: nothing else in this file or
        any other changes, and blocks move from the free count to the file, none lost. */
    method Write(ino: nat, offset: nat, data: Block) returns (n: nat)
      requires Sound(Val()) && TWO_32 % vol.blockSize == 0 && ino in inodes
      requires offset < TWO_32 && |data| < TWO_32 && IsBlock(data, |data|)
      modifies this`inodes, vol
      ensures Sound(Val()) && Written(old(Val()), Val(), WriteOp(ino, offset, data, n))
      ensures n < |data| ==> StuckAt(Val(), ino, (offset + n) % TWO_32)
      ensures vol.freeTotal + Blocks(inodes[ino].extents) == old(vol.freeTotal + Blocks(inodes[ino].extents))
    {
      n := WriteBlocks(ino, offset, data);
      ghost var g := Val();
      inodes := inodes[ino := inodes[ino].(size := Max(inodes[ino].size, (offset + n) % TWO_32))];
      SizeSet(old(Val()), g, Val(), WriteOp(ino, offset, data, n));
      if n < |data| { ResizedStuck(g, Val(), ino, (offset + n) % TWO_32); }
    }

    /** The bytes of one block from `start` on. */
    method ReadBlock(ino: nat, start: nat, max: nat) returns (chunk: Block)
      requires Sound(Val()) && TWO_32 % vol.blockSize == 0 && ino in inodes && start < TWO_32 && max > 0
      ensures 0 < |chunk| <= max && start + |chunk| <= TWO_32
      ensures Reads(Val(), ino, start, chunk)
    {
      var l, o := Locate(vol.blockSize, start);
      var k := Min(vol.blockSize - o, max);
      var p := GetBlock(inodes[ino].extents, l);
      assert Owned(Val(), ino, l);
      chunk := if p == 0 then Zeros(k) else vol.disk[p][o..o + k];
      BlockReads(Val(), ino, start, l, o, chunk);
    }

    /** Reads up to the end of the file, zeros where it has no block. */
    method Read(ino: nat, offset: nat, len: nat) returns (out: Block)
      requires Sound(Val()) && TWO_32 % vol.blockSize == 0 && ino in inodes && offset < TWO_32 && len < TWO_32
      ensures |out| == ReadLength(inodes[ino].size, offset, len)
      ensures Reads(Val(), ino, offset, out)
    {
      var n := ReadLength(inodes[ino].size, offset, len);
      out := [];
      while |out| < n
        invariant |out| <= n
        invariant Reads(Val(), ino, offset, out)
      {
        var chunk := ReadBlock(ino, (offset + |out|) % TWO_32, n - |out|);
        ReadsOn(Val(), ino, offset, out, chunk);
        out := out + chunk;
      }
    }
  }

  // ---- what a user of the files sees ---------------------------------------------------------------------

  /** The contents of a file: its bytes up to its size. */
  ghost function Content(f: Fs, ino: nat): Block
    requires Sound(f) && ino in f.inodes
  {
    seq(f.inodes[ino].size, i requires 0 <= i => At(f, ino, i))
  }

  ghost predicate HoleFree(f: Fs, ino: nat)
    requires Sound(f) && ino in f.inodes
  {
    forall i: nat :: i < f.inodes[ino].size ==> Mapped(f, ino, i)
  }

  /** `data` over `content` at `offset`, going past its end if need be. */
  function Spliced(content: Block, offset: nat, data: Block): Block
    requires offset <= |content|
  {
    content[..offset] + data + if offset + |data| < |content| then content[offset + |data|..] else []
  }

  datatype WriteOp = WriteOp(ino: nat, offset: nat, data: Block, n: nat)

  /** A completed write of `op.n` bytes, as `Write` guarantees it. */
  ghost predicate Written(f: Fs, f': Fs, op: WriteOp)
    requires Sound(f) && Sound(f')
  {
    && op.ino in f.inodes && op.n <= |op.data| < TWO_32 && op.offset < TWO_32
    && Wrote(f, f', op.ino, op.offset, op.data, op.n)
    && f'.inodes[op.ino].size == Max(f.inodes[op.ino].size, (op.offset + op.n) % TWO_32)
  }

  /** A write that starts inside the file or at its end splices its data into the contents. */
  lemma SpliceLaw(f: Fs, f': Fs, op: WriteOp)
    requires Sound(f) && Sound(f') && Written(f, f', op) && op.offset + op.n < TWO_32
    requires HoleFree(f, op.ino) && op.offset <= f.inodes[op.ino].size
    ensures HoleFree(f', op.ino)
    ensures Content(f', op.ino) == Spliced(Content(f, op.ino), op.offset, op.data[..op.n])
  {
    var offset, n, ino := op.offset, op.n, op.ino;
    var old', new' := Content(f, ino), Content(f', ino);
    forall i: nat | i < f'.inodes[ino].size ensures Mapped(f', ino, i) {
      assert Hit(offset, n, i) || Mapped(f, ino, i);
    }
    forall i | 0 <= i < |new'| ensures new'[i] == Spliced(old', offset, op.data[..n])[i] {
      assert !Hit(offset, n, i) ==> old'[i] == At(f, ino, i) && Mapped(f, ino, i);
    }
  }

  /** Other files keep their contents. */
  lemma OthersKept(f: Fs, f': Fs, op: WriteOp, jno: nat)
    requires Sound(f) && Sound(f') && Written(f, f', op) && jno in f.inodes && jno != op.ino
    ensures Content(f', jno) == Content(f, jno)
    ensures HoleFree(f, jno) ==> HoleFree(f', jno)
  {
    assert f'.inodes[jno] == f.inodes[jno];
    forall i: nat ensures At(f', jno, i) == At(f, jno, i) && (Mapped(f', jno, i) <==> Mapped(f, jno, i)) { }
  }

  lemma ReadBackByte(f: Fs, f': Fs, op: WriteOp, i: nat)
    requires Sound(f) && Sound(f') && Written(f, f', op) && op.offset + op.n < TWO_32 && i < op.n
    ensures At(f', op.ino, (op.offset + i) % TWO_32) == op.data[i]
  {
    var j: nat := op.offset + i;
    assert Hit(op.offset, op.n, j) && Into(op.offset, j) == i && j % TWO_32 == j;
  }

  /** What was written is what a read at the same place returns. */
  lemma ReadBack(f: Fs, f': Fs, op: WriteOp, out: Block)
    requires Sound(f) && Sound(f') && Written(f, f', op) && op.offset + op.n < TWO_32
    requires |out| == ReadLength(f'.inodes[op.ino].size, op.offset, op.n) && Reads(f', op.ino, op.offset, out)
    ensures out == op.data[..op.n]
  {
    assert |out| == op.n;
    forall i | 0 <= i < |out| ensures out[i] == op.data[i] { ReadBackByte(f, f', op, i); }
  }

  /** All the written bytes lie inside the file afterwards exactly when the write did not reach 2^32. */
  lemma WriteVisible(size: nat, offset: nat, n: nat)
    requires size < TWO_32 && offset < TWO_32 && n < TWO_32
    ensures (forall i: nat :: Hit(offset, n, i) ==> i < Max(size, (offset + n) % TWO_32)) <==> offset + n < TWO_32
  {
    if offset + n >= TWO_32 { assert Hit(offset, n, TWO_32 - 1); }
  }

  /** Every run of writes, whatever the files: the contents are those of plain byte strings spliced in turn. */
  function Replay(contents: map<nat, Block>, ops: seq<WriteOp>): map<nat, Block>
  {
    if ops == [] then contents
    else
      var before := Replay(contents, ops[..|ops| - 1]);
      var op := ops[|ops| - 1];
      if op.ino in before && op.offset <= |before[op.ino]| && op.n <= |op.data| then
        before[op.ino := Spliced(before[op.ino], op.offset, op.data[..op.n])]
      else before
  }

  ghost predicate Represents(f: Fs, contents: map<nat, Block>)
    requires Sound(f)
  {
    && f.inodes.Keys == contents.Keys
    && forall ino :: ino in f.inodes ==> HoleFree(f, ino) && Content(f, ino) == contents[ino]
  }

  ghost predicate IsRun(fs: seq<Fs>, ops: seq<WriteOp>)
  {
    && |fs| == |ops| + 1 && (forall i :: 0 <= i < |fs| ==> Sound(fs[i]))
    && (forall i :: 0 <= i < |ops| ==> RunStep(fs, ops, i))
  }

  ghost predicate RunStep(fs: seq<Fs>, ops: seq<WriteOp>, i: nat)
    requires i < |ops| && |fs| == |ops| + 1 && Sound(fs[i]) && Sound(fs[i + 1])
  {
    Written(fs[i], fs[i + 1], ops[i]) && ops[i].offset <= fs[i].inodes[ops[i].ino].size
        && ops[i].offset + ops[i].n < TWO_32
  }

  lemma RunStepIsReplay(f: Fs, f': Fs, op: WriteOp, before: map<nat, Block>)
    requires Sound(f) && Sound(f') && Written(f, f', op) && Represents(f, before)
    requires op.offset <= f.inodes[op.ino].size && op.offset + op.n < TWO_32
    ensures op.offset <= |before[op.ino]|
    ensures Represents(f', before[op.ino := Spliced(before[op.ino], op.offset, op.data[..op.n])])
  {
    assert Content(f, op.ino) == before[op.ino];
    SpliceLaw(f, f', op);
    forall jno | jno in f.inodes && jno != op.ino
      ensures Content(f', jno) == Content(f, jno) && HoleFree(f', jno)
    {
      OthersKept(f, f', op, jno);
    }
  }

  lemma RunPrefix(fs: seq<Fs>, ops: seq<WriteOp>)
    requires IsRun(fs, ops) && ops != []
    ensures IsRun(fs[..|ops|], ops[..|ops| - 1])
  {
    var gs, us := fs[..|ops|], ops[..|ops| - 1];
    forall i | 0 <= i < |us| ensures RunStep(gs, us, i) { assert RunStep(fs, ops, i); }
  }

  lemma {:induction false} RunIsReplay(fs: seq<Fs>, ops: seq<WriteOp>, contents: map<nat, Block>)
    requires IsRun(fs, ops) && Represents(fs[0], contents)
    ensures Represents(fs[|ops|], Replay(contents, ops))
  {
    var k := |ops| - 1;
    if k >= 0 {
      RunPrefix(fs, ops);
      RunIsReplay(fs[..|ops|], ops[..k], contents);
      assert RunStep(fs, ops, k);
      RunStepIsReplay(fs[k], fs[k + 1], ops[k], Replay(contents, ops[..k]));
    }
  }
}
