/** The journal: block writes are collected in a transaction, copied to a ring of log blocks and to their home
    blocks at commit. */
module Ext4Journal {
  import opened Common
  import opened Bytes
  import opened Ext4Extents

  type Block = seq<Byte>
  type Disk = map<nat, Block>

  datatype Write = Write(block: nat, data: Block)

  const MAX_TRANS: nat := 16
  const MAX_BLOCKS: nat := 1024

  /** Writing through: one block after the other. */
  function Apply(d: Disk, ws: seq<Write>): Disk
  {
    if ws == [] then d
    else var w := ws[|ws| - 1]; Apply(d, ws[..|ws| - 1])[w.block := w.data]
  }

  ghost predicate SameAt(d: Disk, e: Disk, p: nat)
  {
    (p in d <==> p in e) && (p in d ==> d[p] == e[p])
  }

  // ---- the ring -------------------------------------------------------------------------------------------

  function NextBlock(current: nat): nat
  {
    if current + 1 >= MAX_BLOCKS then 1 else current + 1
  }

  /** The slot `i` steps after `h`. */
  function Ring(h: nat, i: nat): nat
  {
    if i == 0 then h else NextBlock(Ring(h, i - 1))
  }

  lemma {:induction false} RingClosed(h: nat, i: nat)
    requires 1 <= h < MAX_BLOCKS && i < MAX_BLOCKS - 1
    ensures Ring(h, i) == if h + i < 1024 then h + i else h + i - 1023
  {
    if i > 0 { RingClosed(h, i - 1); }
  }

  /** The slots of a transaction are distinct, and slot 0, the journal's superblock, is never one of them. */
  lemma RingDistinct(h: nat, i: nat, j: nat)
    requires 1 <= h < MAX_BLOCKS && i < j < MAX_TRANS + 2
    ensures Ring(h, i) != Ring(h, j) && 1 <= Ring(h, i) < 1024 && 1 <= Ring(h, j) < 1024
  {
    RingClosed(h, i);
    RingClosed(h, j);
  }

  lemma ApplySnoc(d: Disk, ws: seq<Write>, w: Write)
    ensures Apply(d, ws + [w]) == Apply(d, ws)[w.block := w.data]
  {
    assert (ws + [w])[..|ws|] == ws;
  }

  // ---- where the log lies --------------------------------------------------------------------------------

  /** Block `p` holds a slot of the ring, whose file has these extents. */
  ghost predicate InLog(file: seq<Extent>, p: nat)
  {
    p != 0 && exists l: nat :: 1 <= l < MAX_BLOCKS && GetBlock(file, l) == p
  }

  ghost predicate Apart(file: seq<Extent>, l: nat, m: nat)
  {
    GetBlock(file, l) != 0 && GetBlock(file, l) == GetBlock(file, m) ==> l == m
  }

  /** No two slots share a disk block. */
  ghost predicate Separate(file: seq<Extent>)
  {
    forall l: nat, m: nat :: Apart(file, l, m)
  }

  /** The blocks outside the log are the same. */
  ghost predicate SameHome(file: seq<Extent>, d: Disk, e: Disk)
  {
    forall p: nat :: !InLog(file, p) ==> SameAt(d, e, p)
  }

  lemma SameHomeUpdate(file: seq<Extent>, d: Disk, e: Disk, w: Write)
    requires SameHome(file, d, e)
    ensures SameHome(file, d[w.block := w.data], e[w.block := w.data])
  {
    forall p: nat | !InLog(file, p) ensures SameAt(d[w.block := w.data], e[w.block := w.data], p) {
      assert SameAt(d, e, p);
    }
  }

  lemma SameHomeTrans(file: seq<Extent>, a: Disk, b: Disk, c: Disk)
    requires SameHome(file, a, b) && SameHome(file, b, c)
    ensures SameHome(file, a, c)
  {
    forall p: nat | !InLog(file, p) ensures SameAt(a, c, p) {
      assert SameAt(a, b, p) && SameAt(b, c, p);
    }
  }

  /** Record `j` of the transaction that starts at slot `h` is in its slot, unless the file has a hole there. */
  ghost predicate Logged(file: seq<Extent>, d: Disk, h: nat, records: seq<Block>, j: nat)
    requires j < |records|
  {
    var p := GetBlock(file, Ring(h, j)); p != 0 ==> p in d && d[p] == records[j]
  }

  /** No slots share a block, and no write of the transaction goes to a block of the log. */
  ghost predicate Clean(file: seq<Extent>, ws: seq<Write>)
  {
    Separate(file) && forall w :: w in ws ==> !InLog(file, w.block)
  }

  // ---- what a transaction writes -------------------------------------------------------------------------

  function BigEndian(x: nat): seq<Byte>
    requires x < TWO_32
  {
    var b := Enc32(x); [b[3], b[2], b[1], b[0]]
  }

  /** A descriptor block (kind 1) or a commit block (kind 2). */
  function HeaderBlock(kind: nat, seqNo: nat, blockSize: nat): Block
    requires kind < TWO_32 && seqNo < TWO_32 && blockSize >= 12
  {
    Enc32(0xC03B3998) + BigEndian(kind) + BigEndian(seqNo) + seq(blockSize - 12, _ => 0)
  }

  /** A 32-bit number with its highest byte first. */
  function Dec32Be(b: seq<Byte>, o: nat): nat
    requires o + 4 <= |b|
  {
    ((b[o] as int * 256 + b[o + 1] as int) * 256 + b[o + 2] as int) * 256 + b[o + 3] as int
  }

  lemma BigEndianReads(x: nat, b: seq<Byte>, o: nat)
    requires x < TWO_32 && o + 4 <= |b| && b[o..o + 4] == BigEndian(x)
    ensures Dec32Be(b, o) == x
  {
    var e := Enc32(x);
    RoundTrip32(x, e, 0);
    assert b[o] == b[o..o + 4][0] && b[o + 1] == b[o..o + 4][1] && b[o + 2] == b[o..o + 4][2]
        && b[o + 3] == b[o..o + 4][3];
  }

  /** The block starts with the magic number, lowest byte first as the code stores it, and its kind and the sequence
      number, highest byte first; the rest is zero. */
  ghost predicate IsHeader(b: Block, kind: nat, seqNo: nat, blockSize: nat)
  {
    && |b| == blockSize >= 12
    && Dec32(b, 0) == 0xC03B3998 && Dec32Be(b, 4) == kind && Dec32Be(b, 8) == seqNo
    && forall i :: 12 <= i < |b| ==> b[i] == 0
  }

  lemma HeaderReads(kind: nat, seqNo: nat, blockSize: nat)
    requires kind < TWO_32 && seqNo < TWO_32 && blockSize >= 12
    ensures IsHeader(HeaderBlock(kind, seqNo, blockSize), kind, seqNo, blockSize)
  {
    var b := HeaderBlock(kind, seqNo, blockSize);
    assert b[0..4] == Enc32(0xC03B3998) && b[4..8] == BigEndian(kind) && b[8..12] == BigEndian(seqNo);
    RoundTrip32(0xC03B3998, b, 0);
    BigEndianReads(kind, b, 4);
    BigEndianReads(seqNo, b, 8);
  }

  function Records(ws: seq<Write>, seqNo: nat, blockSize: nat): (r: seq<Block>)
    requires seqNo < TWO_32 && blockSize >= 12
    ensures |r| == |ws| + 2
  {
    [HeaderBlock(1, seqNo, blockSize)] + seq(|ws|, i requires 0 <= i < |ws| => ws[i].data)
        + [HeaderBlock(2, seqNo, blockSize)]
  }

  /** A slot in a hole of the file is not written. */
  function Put(d: Disk, p: nat, data: Block): Disk
  {
    if p != 0 then d[p := data] else d
  }

  ghost predicate LoggedUpTo(file: seq<Extent>, d: Disk, h: nat, records: seq<Block>, n: nat)
    requires n <= |records|
  {
    forall j :: 0 <= j < n ==> Logged(file, d, h, records, j)
  }

  /** What the slots of a transaction hold, where the file has blocks for them: a descriptor block, the data of the
      writes in order, and a commit block. */
  ghost predicate InSlots(file: seq<Extent>, d: Disk, h: nat, ws: seq<Write>, seqNo: nat, blockSize: nat)
  {
    && (var p := GetBlock(file, h); p != 0 ==> p in d && IsHeader(d[p], 1, seqNo, blockSize))
    && (forall i :: 0 <= i < |ws| ==> DataAt(file, d, h, ws, i))
    && (var p := GetBlock(file, Ring(h, |ws| + 1)); p != 0 ==> p in d && IsHeader(d[p], 2, seqNo, blockSize))
  }

  ghost predicate DataAt(file: seq<Extent>, d: Disk, h: nat, ws: seq<Write>, i: nat)
    requires i < |ws|
  {
    var p := GetBlock(file, Ring(h, i + 1)); p != 0 ==> p in d && d[p] == ws[i].data
  }

  lemma SlotsHold(file: seq<Extent>, d: Disk, h: nat, ws: seq<Write>, seqNo: nat, blockSize: nat)
    requires seqNo < TWO_32 && blockSize >= 12
    requires LoggedUpTo(file, d, h, Records(ws, seqNo, blockSize), |ws| + 2)
    ensures InSlots(file, d, h, ws, seqNo, blockSize)
  {
    var records := Records(ws, seqNo, blockSize);
    HeaderReads(1, seqNo, blockSize);
    HeaderReads(2, seqNo, blockSize);
    assert Logged(file, d, h, records, 0) && Ring(h, 0) == h && Logged(file, d, h, records, |ws| + 1);
    forall i | 0 <= i < |ws| ensures DataAt(file, d, h, ws, i) {
      assert Logged(file, d, h, records, i + 1) && records[i + 1] == ws[i].data;
    }
  }

  /** One more slot written: the slots before it keep their records. */
  lemma LogOne(file: seq<Extent>, d: Disk, h: nat, records: seq<Block>, i: nat)
    requires 1 <= h < MAX_BLOCKS && i < |records| <= MAX_TRANS + 2 && Separate(file)
    requires LoggedUpTo(file, d, h, records, i)
    ensures LoggedUpTo(file, Put(d, GetBlock(file, Ring(h, i)), records[i]), h, records, i + 1)
  {
    var e := Put(d, GetBlock(file, Ring(h, i)), records[i]);
    forall j | 0 <= j < i + 1 ensures Logged(file, e, h, records, j) {
      if j < i {
        assert Logged(file, d, h, records, j);
        RingDistinct(h, j, i);
        assert Apart(file, Ring(h, j), Ring(h, i));
      }
    }
  }

  /** A home write does not touch the log. */
  lemma HomeWriteKeepsLog(file: seq<Extent>, d: Disk, h: nat, records: seq<Block>, i: nat, w: Write)
    requires 1 <= h < MAX_BLOCKS && i <= |records| <= MAX_TRANS + 2 && !InLog(file, w.block)
    requires LoggedUpTo(file, d, h, records, i)
    ensures LoggedUpTo(file, d[w.block := w.data], h, records, i)
  {
    var e := d[w.block := w.data];
    forall j | 0 <= j < i ensures Logged(file, e, h, records, j) {
      assert Logged(file, d, h, records, j);
      RingClosed(h, j);
      assert GetBlock(file, Ring(h, j)) == 0 || InLog(file, GetBlock(file, Ring(h, j)));
    }
  }

  // ---- the journal ---------------------------------------------------------------------------------------

  class Journal {
    const blockSize: nat
    const file: seq<Extent>
    var disk: Disk
    var head: nat
    var seqNo: nat
    var trans: seq<Write>

    ghost predicate Valid()
      reads this
    {
      blockSize >= 12 && 1 <= head < MAX_BLOCKS && seqNo < TWO_32 && |trans| <= MAX_TRANS
    }

    /** The disk as it would be with everything pending written. */
    ghost function Current(): Disk
      reads this
    {
      Apply(disk, trans)
    }

    constructor (blockSize: nat, file: seq<Extent>, disk: Disk)
      requires blockSize >= 12
      ensures Valid() && this.disk == disk && this.file == file && this.blockSize == blockSize
      ensures trans == [] && head == 1 && seqNo == 1
    {
      this.blockSize, this.file, this.disk := blockSize, file, disk;
      head, seqNo, trans := 1, 1, [];
    }

    /** Writes one slot, and nothing if the file has a hole there; moves on to the next. */
    method Advance(data: Block)
      requires Valid()
      modifies this`disk, this`head
      ensures Valid() && head == NextBlock(old(head)) && SameHome(file, disk, old(disk))
      ensures disk == Put(old(disk), GetBlock(file, old(head)), data)
    {
      var p := GetBlock(file, head);
      if p != 0 {
        assert InLog(file, p);
        disk := disk[p := data];
      }
      head := NextBlock(head);
    }

    method StartTransaction()
      requires Valid()
      modifies this`trans, this`seqNo
      ensures Valid() && trans == [] && seqNo == (old(seqNo) + 1) % TWO_32
    {
      trans := [];
      seqNo := (seqNo + 1) % TWO_32;
    }

    /** A data block goes to its slot and to its home. */
    method CommitOne(i: nat, ghost d: Disk, ghost h: nat)
      requires Valid() && i < |trans| && 1 <= h < MAX_BLOCKS && head == Ring(h, i + 1)
      requires SameHome(file, disk, Apply(d, trans[..i]))
      requires Clean(file, trans) ==> LoggedUpTo(file, disk, h, Records(trans, seqNo, blockSize), i + 1)
      modifies this`disk, this`head
      ensures Valid() && head == Ring(h, i + 2)
      ensures SameHome(file, disk, Apply(d, trans[..i + 1]))
      ensures Clean(file, trans) ==> LoggedUpTo(file, disk, h, Records(trans, seqNo, blockSize), i + 2)
    {
      var w := trans[i];
      ghost var before := disk;
      Advance(w.data);
      if Clean(file, trans) {
        ghost var records := Records(trans, seqNo, blockSize);
        assert records[i + 1] == w.data;
        LogOne(file, before, h, records, i + 1);
        HomeWriteKeepsLog(file, disk, h, records, i + 2, w);
      }
      assert trans[..i + 1][..i] == trans[..i];
      disk := disk[w.block := w.data];
    }

    /** Descriptor, data and commit block go to successive slots and the data to its home. */
    method WriteRecords()
      requires Valid()
      modifies this`disk, this`head
      ensures Valid() && SameHome(file, disk, old(Current())) && head == Ring(old(head), |trans| + 2)
      ensures Clean(file, trans) ==>
                LoggedUpTo(file, disk, old(head), Records(trans, seqNo, blockSize), |trans| + 2)
    {
      ghost var h, d, records := head, disk, Records(trans, seqNo, blockSize);
      if Clean(file, trans) { LogOne(file, disk, h, records, 0); }
      Advance(HeaderBlock(1, seqNo, blockSize));
      for i := 0 to |trans|
        invariant Valid() && head == Ring(h, i + 1)
        invariant SameHome(file, disk, Apply(d, trans[..i]))
        invariant Clean(file, trans) ==> LoggedUpTo(file, disk, h, records, i + 1)
      {
        CommitOne(i, d, h);
      }
      assert trans[..|trans|] == trans;
      if Clean(file, trans) { LogOne(file, disk, h, records, |trans| + 1); }
      Advance(HeaderBlock(2, seqNo, blockSize));
    }

    /** Writes the records and empties the transaction. Outside the log, the disk is then as if every pending write had
        gone straight through. */
    method CommitTransaction()
      requires Valid()
      modifies this`disk, this`head, this`trans
      ensures Valid() && trans == [] && SameHome(file, disk, old(Current()))
      ensures old(trans) == [] ==> disk == old(disk) && head == old(head)
      ensures old(trans) != [] ==> head == Ring(old(head), |old(trans)| + 2)
      ensures old(trans) != [] && Clean(file, old(trans)) ==>
                InSlots(file, disk, old(head), old(trans), seqNo, blockSize)
    {
      if |trans| == 0 { return; }
      ghost var h := head;
      WriteRecords();
      if Clean(file, trans) { SlotsHold(file, disk, h, trans, seqNo, blockSize); }
      trans := [];
    }

    /** Adds a write to the transaction; a full one is committed first and a new one started. */
    method LogBlock(w: Write)
      requires Valid()
      modifies this`disk, this`head, this`seqNo, this`trans
      ensures Valid() && SameHome(file, Current(), old(Current())[w.block := w.data])
      ensures |old(trans)| < 16 ==>
                trans == old(trans) + [w] && disk == old(disk) && head == old(head) && seqNo == old(seqNo)
      ensures |old(trans)| >= MAX_TRANS ==>
                trans == [w] && head == Ring(old(head), MAX_TRANS + 2) && seqNo == (old(seqNo) + 1) % TWO_32
      ensures |old(trans)| >= MAX_TRANS ==> SameHome(file, disk, old(Current()))
    {
      if |trans| >= MAX_TRANS {
        CommitTransaction();
        StartTransaction();
      }
      SameHomeUpdate(file, Current(), old(Current()), w);
      ApplySnoc(disk, trans, w);
      trans := trans + [w];
    }
  }

  // ---- runs ----------------------------------------------------------------------------------------------

  datatype Op = Log(w: Write) | Commit

  function Writes(ops: seq<Op>): seq<Write>
  {
    if ops == [] then []
    else
      var before := Writes(ops[..|ops| - 1]);
      match ops[|ops| - 1] case Log(w) => before + [w] case Commit => before
  }

  method Perform(j: Journal, op: Op, ghost d: Disk)
    requires j.Valid() && SameHome(j.file, j.Current(), d)
    modifies j
    ensures j.Valid() && SameHome(j.file, j.Current(), match op case Log(w) => d[w.block := w.data] case Commit => d)
  {
    ghost var before := j.Current();
    match op {
      case Log(w) =>
        SameHomeUpdate(j.file, before, d, w);
        j.LogBlock(w);
        SameHomeTrans(j.file, j.Current(), before[w.block := w.data], d[w.block := w.data]);
      case Commit =>
        j.CommitTransaction();
        SameHomeTrans(j.file, j.disk, before, d);
        j.StartTransaction();
    }
  }

  /** Every run of logged writes, with commits where the callers put them and where a transaction is full, leaves
      the disk outside the log, after a last commit, as writing straight through would. */
  method Run(j: Journal, ops: seq<Op>)
    requires j.Valid()
    modifies j
    ensures j.Valid() && j.trans == []
    ensures SameHome(j.file, j.disk, Apply(old(j.Current()), Writes(ops)))
  {
    ghost var d := j.Current();
    for i := 0 to |ops|
      invariant j.Valid() && SameHome(j.file, j.Current(), Apply(d, Writes(ops[..i])))
    {
      assert ops[..i + 1][..i] == ops[..i];
      Perform(j, ops[i], Apply(d, Writes(ops[..i])));
      if ops[i].Log? { ApplySnoc(d, Writes(ops[..i]), ops[i].w); }
    }
    assert ops[..|ops|] == ops;
    ghost var e := j.Current();
    j.CommitTransaction();
    SameHomeTrans(j.file, j.disk, e, Apply(d, Writes(ops)));
  }

  /** Starting a transaction drops what is pending: nothing is lost, whatever the disk holds, exactly if nothing was
      pending. */
  lemma StartLosesNothing(pending: seq<Write>)
    ensures (forall d: Disk :: Apply(d, pending) == d) <==> pending == []
  {
    if pending != [] {
      var w := pending[|pending| - 1];
      var d: Disk := map[w.block := w.data + [0]];
      assert Apply(d, pending)[w.block] == w.data != d[w.block];
      assert Apply(d, pending) != d;
    }
  }

  /** What a block holds after the pending writes to it does not depend on the disk. */
  lemma {:induction false} ApplyAt(d: Disk, e: Disk, pending: seq<Write>, p: nat)
    ensures if exists w :: w in pending && w.block == p
            then p in Apply(d, pending) && p in Apply(e, pending) && Apply(d, pending)[p] == Apply(e, pending)[p]
            else SameAt(Apply(d, pending), d, p)
  {
    if pending != [] {
      var k := |pending| - 1;
      ApplyAt(d, e, pending[..k], p);
      assert pending == pending[..k] + [pending[k]];
    }
  }

  /** Reads go to the disk: a block reads as last written, whatever the disk holds, exactly if no write to it is
      pending. */
  lemma ReadFresh(pending: seq<Write>, p: nat)
    ensures (forall d: Disk :: SameAt(Apply(d, pending), d, p)) <==> forall w :: w in pending ==> w.block != p
  {
    forall d: Disk | forall w :: w in pending ==> w.block != p ensures SameAt(Apply(d, pending), d, p) {
      ApplyAt(d, d, pending, p);
    }
    if exists w :: w in pending && w.block == p {
      ApplyAt(map[], map[], pending, p);
      var stale: Disk := map[p := Apply(map[], pending)[p] + [0]];
      ApplyAt(map[], stale, pending, p);
      assert !SameAt(Apply(stale, pending), stale, p);
    }
  }
}
