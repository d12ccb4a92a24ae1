/** The kernel heap: first fit with splitting, growth through `sbrk`, and full coalescing on free. The
    headers are records inside the memory they describe. */
module Heap {
  import opened Common
  import opened HeapBlocks
  import opened Vmm

  // ---- headers in memory --------------------------------------------------------------------------------

  /** What is stored from an address on: a block header, which takes 24 bytes, or a byte of whoever owns the
      payload. */
  datatype Cell = Header(size: nat, free: bool, next: nat) | Data(value: int)

  type Memory = map<nat, Cell>

  /** Writing a header: whatever was in any of its bytes is gone. */
  function Put(mem: Memory, a: nat, x: Cell): Memory
  {
    (map y | y in mem && !(a <= y < a + HEADER) :: mem[y])[a := x]
  }

  /** The 24 bytes from `a` on hold the header and nothing else; every other address is as it was. */
  lemma PutAt(mem: Memory, a: nat, x: Cell, y: nat)
    ensures var m := Put(mem, a, x);
            if y == a then y in m && m[y] == x
            else if a < y < a + 24 then y !in m
            else (y in m <==> y in mem) && (y in m ==> m[y] == mem[y])
  {
  }

  function Next(bs: seq<Block>, i: nat): nat
    requires i < |bs|
  {
    if i + 1 < |bs| then bs[i + 1].addr else 0
  }

  function HeaderOf(bs: seq<Block>, i: nat): Cell
    requires i < |bs|
  {
    Header(bs[i].size, bs[i].free, Next(bs, i))
  }

  /** The headers in memory form exactly this block list. */
  ghost predicate Listed(mem: Memory, bs: seq<Block>)
  {
    forall i :: 0 <= i < |bs| ==> HeaderAt(mem, bs, i)
  }

  ghost predicate HeaderAt(mem: Memory, bs: seq<Block>, i: nat)
    requires i < |bs|
  {
    bs[i].addr in mem && mem[bs[i].addr] == HeaderOf(bs, i)
  }

  /** No payload of the given blocks contains the address. */
  ghost predicate Outside(live: seq<Block>, a: nat)
  {
    forall b :: b in live ==> !(b.Payload() <= a < b.End())
  }

  /** A header at `a` would not overlap a payload of the given blocks. */
  ghost predicate Spare(live: seq<Block>, a: nat)
  {
    forall b :: b in live ==> a + HEADER <= b.Payload() || b.End() <= a
  }

  /** Every cell of every payload of the given blocks is as it was. */
  ghost predicate PayloadsKept(mem: Memory, mem': Memory, live: seq<Block>)
  {
    forall x :: !Outside(live, x) ==> (x in mem <==> x in mem') && (x in mem ==> mem[x] == mem'[x])
  }

  lemma {:induction false} LiveMember(bs: seq<Block>, b: Block)
    ensures b in Live(bs) <==> b in bs && !b.free
  {
    if bs != [] {
      LiveMember(bs[1..], b);
      assert bs == [bs[0]] + bs[1..];
    }
  }

  /** Headers, room for one inside a free block and everything above the break lie outside the live payloads. */
  lemma HeaderSpare(bs: seq<Block>, k: nat, lo: nat, hi: nat, a: nat)
    requires Ordered(bs, lo, hi)
    requires hi <= a || (k < |bs| && (a == bs[k].addr || (bs[k].free && bs[k].addr <= a && a + HEADER <= bs[k].End())))
    ensures Spare(Live(bs), a)
  {
    forall b | b in Live(bs) ensures a + HEADER <= b.Payload() || b.End() <= a {
      LiveMember(bs, b);
      var i :| 0 <= i < |bs| && bs[i] == b;
      if a < hi {
        if i < k { assert Before(bs, i, k); }
        if i > k { assert Before(bs, k, i); }
      }
    }
  }

  /** A header written outside the payloads touches none of their bytes. */
  lemma PutKeeps(mem: Memory, live: seq<Block>, a: nat, x: Cell)
    requires Spare(live, a)
    ensures PayloadsKept(mem, Put(mem, a, x), live)
  {
    forall y: nat | !Outside(live, y)
      ensures (y in mem <==> y in Put(mem, a, x)) && (y in mem ==> mem[y] == Put(mem, a, x)[y])
    {
      var b :| b in live && b.Payload() <= y < b.End();
      assert !(a <= y < a + HEADER);
    }
  }

  /** All headers but possibly those of blocks `a` and `b`. */
  ghost predicate ListedExcept(mem: Memory, bs: seq<Block>, a: nat, b: nat)
  {
    forall i :: 0 <= i < |bs| && i != a && i != b ==> HeaderAt(mem, bs, i)
  }

  /** Writing one header of an ordered list disturbs no other. */
  lemma PutHeader(mem: Memory, bs: seq<Block>, a: nat, k: nat, x: Cell, lo: nat, hi: nat)
    requires k < |bs| && Ordered(bs, lo, hi) && ListedExcept(mem, bs, a, k) && x == HeaderOf(bs, k)
    ensures ListedExcept(Put(mem, bs[k].addr, x), bs, a, a)
    ensures a == k ==> Listed(Put(mem, bs[k].addr, x), bs)
  {
    var mem' := Put(mem, bs[k].addr, x);
    forall i | 0 <= i < |bs| && i != k && i != a ensures HeaderAt(mem', bs, i) {
      assert HeaderAt(mem, bs, i);
      if i < k { assert Before(bs, i, k); } else { assert Before(bs, k, i); }
    }
    assert HeaderAt(mem', bs, k);
  }

  lemma UpdateHoles(mem: Memory, bs: seq<Block>, k: nat, b: Block)
    requires k < |bs| && Listed(mem, bs) && b.addr == bs[k].addr
    ensures ListedExcept(mem, bs[k := b], k, k)
  {
    var t := bs[k := b];
    forall i | 0 <= i < |t| && i != k ensures HeaderAt(mem, t, i) { assert HeaderAt(mem, bs, i); }
  }

  lemma MergeAtHoles(mem: Memory, bs: seq<Block>, k: nat)
    requires k + 1 < |bs| && Listed(mem, bs)
    ensures ListedExcept(mem, MergeAt(bs, k), k, k)
  {
    var m := MergeAt(bs, k);
    forall i | 0 <= i < |m| && i != k ensures HeaderAt(mem, m, i) {
      assert HeaderAt(mem, bs, if i < k then i else i + 1);
    }
  }

  lemma InsertHoles(mem: Memory, bs: seq<Block>, k: nat, b: Block)
    requires 1 <= k <= |bs| && ListedExcept(mem, bs, k - 1, k - 1)
    ensures ListedExcept(mem, Insert(bs, k, b), k - 1, k)
  {
    var t := Insert(bs, k, b);
    forall i | 0 <= i < |t| && i != k - 1 && i != k ensures HeaderAt(mem, t, i) {
      assert HeaderAt(mem, bs, if i < k then i else i - 1);
    }
  }

  /** Linking a new block behind block `k - 1`, whose header is rewritten. */
  lemma InsertListed(mem: Memory, bs: seq<Block>, k: nat, b: Block, x: Cell, y: Cell, lo: nat, hi: nat)
    requires 1 <= k <= |bs| && Ordered(Insert(bs, k, b), lo, hi) && ListedExcept(mem, bs, k - 1, k - 1)
    requires x == Header(b.size, b.free, Next(bs, k - 1))
    requires y == Header(bs[k - 1].size, bs[k - 1].free, b.addr)
    ensures Listed(Put(Put(mem, b.addr, x), bs[k - 1].addr, y), Insert(bs, k, b))
  {
    var t := Insert(bs, k, b);
    InsertHoles(mem, bs, k, b);
    PutHeader(mem, t, k - 1, k, x, lo, hi);
    PutHeader(Put(mem, b.addr, x), t, k - 1, k - 1, y, lo, hi);
  }

  /** Joining block `k` with the next rewrites one header. */
  lemma JoinListed(mem: Memory, bs: seq<Block>, k: nat, x: Cell, lo: nat, hi: nat)
    requires k + 1 < |bs| && Ordered(bs, lo, hi) && Listed(mem, bs)
    requires x == Header(bs[k].size + HEADER + bs[k + 1].size, true, Next(bs, k + 1))
    ensures Listed(Put(mem, bs[k].addr, x), MergeAt(bs, k))
    ensures PayloadsKept(mem, Put(mem, bs[k].addr, x), Live(bs))
  {
    MergeAtOrdered(bs, k, lo, hi);
    MergeAtHoles(mem, bs, k);
    PutHeader(mem, MergeAt(bs, k), k, k, x, lo, hi);
    HeaderSpare(bs, k, lo, hi, bs[k].addr);
    PutKeeps(mem, Live(bs), bs[k].addr, x);
  }

  /** Blocks in order inside an interval take no more bytes than it has. */
  lemma {:induction false} BytesSpan(bs: seq<Block>, lo: nat, hi: nat)
    requires Ordered(bs, lo, hi) && lo <= hi
    ensures lo + Bytes(bs) <= hi
  {
    if bs != [] {
      TailOrdered(bs, lo, hi);
      BytesSpan(bs[1..], bs[0].End(), hi);
    }
  }

  lemma OrderedWiden(bs: seq<Block>, lo: nat, hi: nat, hi': nat)
    requires Ordered(bs, lo, hi) && hi <= hi'
    ensures Ordered(bs, lo, hi')
  {
    forall i, j | 0 <= i < j < |bs| ensures Before(bs, i, j) { }
  }

  /** The two header writes of a split leave the list with block `k` split. */
  lemma SplitListed(mem: Memory, bs: seq<Block>, k: nat, size: nat, hi: nat, x: Cell, y: Cell, rest: nat)
    requires k < |bs| && Fits(bs[k], size) && Splits(bs[k], size) && Ordered(bs, 1, hi) && Listed(mem, bs)
    requires rest == bs[k].addr + HEADER + size
    requires x == Header(bs[k].size - size - HEADER, true, Next(bs, k)) && y == Header(size, false, rest)
    ensures Listed(Put(Put(mem, rest, x), bs[k].addr, y), Take(bs, k, size))
  {
    var g, r := Given(bs[k], size), Remainder(bs[k], size);
    var used := bs[k := g];
    TakeOrdered(bs, k, size, 1, hi);
    UpdateHoles(mem, bs, k, g);
    assert used[k] == g && g == Block(bs[k].addr, size, false) && Next(used, k) == Next(bs, k);
    InsertListed(mem, used, k + 1, r, x, y, 1, hi);
  }

  /** And write no live payload. */
  lemma SplitKeeps(mem: Memory, bs: seq<Block>, k: nat, size: nat, hi: nat, x: Cell, y: Cell, rest: nat)
    requires k < |bs| && Fits(bs[k], size) && Splits(bs[k], size) && Ordered(bs, 1, hi)
    requires rest == bs[k].addr + HEADER + size
    ensures PayloadsKept(mem, Put(Put(mem, rest, x), bs[k].addr, y), Live(bs))
  {
    HeaderSpare(bs, k, 1, hi, bs[k].addr);
    HeaderSpare(bs, k, 1, hi, rest);
    WriteKeeps(mem, Live(bs), rest, x, bs[k].addr, y);
  }

  lemma WriteKeeps(mem: Memory, live: seq<Block>, a: nat, x: Cell, b: nat, y: Cell)
    requires Spare(live, a) && Spare(live, b)
    ensures PayloadsKept(mem, Put(Put(mem, a, x), b, y), live)
  {
    PutKeeps(mem, live, a, x);
    PutKeeps(Put(mem, a, x), live, b, y);
  }

  // ---- request sizes ------------------------------------------------------------------------------------

  /** The size field of `kmalloc`: rounded up to 16 in 64-bit arithmetic. */
  function Round16(n: nat): nat
  {
    (n + 15) % TWO_64 / 16 * 16
  }

  /** Below the wrap the rounded request is the least multiple of 16 that holds the request. */
  lemma Round16Is(n: nat)
    requires n <= TWO_64 - 16
    ensures Round16(n) % 16 == 0 && n <= Round16(n) < n + 16
  {
  }

  /** And growth is the least number of whole pages that holds it and a header. */
  lemma ActualSizeIs(n: nat)
    requires n <= MAX_REQUEST
    ensures ActualSize(n) % 4096 == 0 && Round16(n) + 24 <= ActualSize(n) < Round16(n) + 24 + 4096
  {
    Round16Is(n);
  }

  function TotalNeeded(n: nat): nat
  {
    (Round16(n) + HEADER) % TWO_64
  }

  /** The bytes `kmalloc` believes `sbrk` has added. */
  function ActualSize(n: nat): nat
  {
    PagesFor(TotalNeeded(n)) * PAGE_SIZE
  }

  /** The largest request for which no rounding wraps around. */
  const MAX_REQUEST: nat := TWO_64 - 4128

  /** The rounding of the top of the range, case by case. */
  lemma Round16Top(n: nat)
    requires n < TWO_64
    ensures n <= MAX_REQUEST ==> n <= Round16(n) <= MAX_REQUEST
    ensures MAX_REQUEST < n <= TWO_64 - 32 ==> TWO_64 - 4112 <= Round16(n) <= TWO_64 - 32
    ensures TWO_64 - 32 < n <= TWO_64 - 16 ==> Round16(n) == TWO_64 - 16
    ensures TWO_64 - 16 < n ==> Round16(n) == 0
  {
    var q := (n + 15) / 16;
    if n <= TWO_64 - 16 {
      assert (n + 15) % TWO_64 == n + 15 && Round16(n) == 16 * q && n <= 16 * q < n + 16;
    } else {
      assert (n + 15) % TWO_64 == n + 15 - TWO_64 < 16;
    }
  }

  lemma PagesOf(total: nat)
    requires total < TWO_64
    ensures total + 4095 < TWO_64 ==> PagesFor(total) == (total + 4095) / 4096
    ensures total + 4095 >= TWO_64 ==> PagesFor(total) == 0
  {
  }

  lemma ActualSizeOf(n: nat)
    requires n < TWO_64
    ensures n <= MAX_REQUEST ==> ActualSize(n) >= HEADER + Round16(n) && TotalNeeded(n) != 0
    ensures MAX_REQUEST < n <= TWO_64 - 32 ==> ActualSize(n) == 0
    ensures TWO_64 - 32 < n ==> ActualSize(n) == 4096 && TotalNeeded(n) != 0
  {
    Round16Top(n);
    PagesOf(TotalNeeded(n));
  }

  /** Growth by `sbrk` holds the header and the request exactly up to that size. */
  lemma GrowthCoversRequest(n: nat)
    requires n < TWO_64
    ensures Round16(n) >= n && ActualSize(n) >= HEADER + Round16(n) <==> n <= MAX_REQUEST
  {
    Round16Top(n);
    ActualSizeOf(n);
  }

  /** Growth comes out as no page at all exactly for a band of requests just above: there the code would put a
      header on top of the break without moving it. */
  lemma GrowthVanishes(n: nat)
    requires n < TWO_64
    ensures ActualSize(n) < HEADER <==> MAX_REQUEST < n <= TWO_64 - 32
    ensures ActualSize(n) >= HEADER ==> TotalNeeded(n) != 0
  {
    ActualSizeOf(n);
  }

  function FirstFit(bs: seq<Block>, size: nat): (r: Option<nat>)
    ensures r.Some? ==> r.value < |bs| && Fits(bs[r.value], size)
    ensures r.Some? ==> forall i :: 0 <= i < r.value ==> !Fits(bs[i], size)
    ensures r.None? ==> forall i :: 0 <= i < |bs| ==> !Fits(bs[i], size)
  {
    if bs == [] then None
    else if Fits(bs[0], size) then Some(0)
    else match FirstFit(bs[1..], size) case None => None case Some(k) => Some(k + 1)
  }

  lemma FirstFitUnique(bs: seq<Block>, size: nat, k: nat)
    requires k <= |bs| && (forall i :: 0 <= i < k ==> !Fits(bs[i], size)) && (k < |bs| ==> Fits(bs[k], size))
    ensures FirstFit(bs, size) == if k < |bs| then Some(k) else None
  {
  }

  // ---- the heap -----------------------------------------------------------------------------------------

  class Heap {
    const vmm: Vmm
    var mem: Memory
    var start: nat
    var totalSize: nat
    ghost var blocks: seq<Block>

    ghost predicate Shaped()
      reads this, vmm
    {
      && start == (if blocks == [] then 0 else blocks[0].addr)
      && vmm.brk < TWO_64
      && Ordered(blocks, 1, vmm.brk)
      && Listed(mem, blocks)
    }

    ghost predicate Valid()
      reads this, vmm
    {
      Shaped() && Coalesced(blocks)
    }

    ghost function Abstract(): State
      reads this, vmm
    {
      State(blocks, vmm.brk, vmm.frames)
    }

    constructor (vmm: Vmm)
      requires vmm.brk < TWO_64
      ensures Valid() && this.vmm == vmm && start == 0
    {
      this.vmm := vmm;
      mem := map[];
      start, totalSize := 0, 0;
      blocks := [];
    }

    /** Makes `size` bytes at `addr` one free block, wherever they are: the heap is valid exactly if they lie below
        the break. */
    method Init(addr: nat, size: nat) returns (ok: bool)
      requires Valid()
      modifies this
      ensures ok <==> addr != 0 && size >= 2 * HEADER
      ensures !ok ==> unchanged(this)
      ensures ok ==> blocks == [Block(addr, size - HEADER, true)] && start == addr && totalSize == size
      ensures ok ==> Bytes(blocks) == totalSize && (Valid() <==> addr + size <= vmm.brk)
    {
      if addr == 0 || size < 2 * HEADER { return false; }
      start := addr;
      mem := Put(mem, addr, Header(size - HEADER, true, 0));
      totalSize := size;
      blocks := [Block(addr, size - HEADER, true)];
      assert blocks[1..] == [] && blocks[0].End() == addr + size;
      return true;
    }

    /** Where the first-fit search stops: the first block that fits, or the last block if none does. */
    method Search(size: nat) returns (current: nat, last: nat, ghost k: nat)
      requires Valid()
      ensures k <= |blocks| && (forall i :: 0 <= i < k ==> !Fits(blocks[i], size))
      ensures current == if k < |blocks| then blocks[k].addr else 0
      ensures last == if k > 0 then blocks[k - 1].addr else 0
      ensures k < |blocks| ==> Fits(blocks[k], size)
      ensures current == match FirstFit(blocks, size) case Some(i) => blocks[i].addr case None => 0
    {
      current, last, k := start, 0, 0;
      while current != 0
        invariant k <= |blocks| && forall i :: 0 <= i < k ==> !Fits(blocks[i], size)
        invariant current == if k < |blocks| then blocks[k].addr else 0
        invariant last == if k > 0 then blocks[k - 1].addr else 0
        decreases |blocks| - k
      {
        assert HeaderAt(mem, blocks, k);
        if mem[current].free && mem[current].size >= size {
          FirstFitUnique(blocks, size, k);
          return;
        }
        last := current;
        current := mem[current].next;
        k := k + 1;
      }
      assert k == |blocks|;
      FirstFitUnique(blocks, size, k);
    }

    /** Splits block `k` and hands out its front. */
    method SplitBlock(current: nat, size: nat, ghost k: nat)
      requires Valid() && k < |blocks| && current == blocks[k].addr
      requires Fits(blocks[k], size) && Splits(blocks[k], size)
      modifies this`mem, this`blocks
      ensures Valid() && blocks == Take(old(blocks), k, size)
      ensures PayloadsKept(old(mem), mem, Live(old(blocks)))
    {
      ghost var bs := blocks;
      TakeOrdered(bs, k, size, 1, vmm.brk);
      TakeCoalesced(bs, k, size);
      assert HeaderAt(mem, bs, k);
      var cell := mem[current];
      var rest := current + HEADER + size;
      var x, y := Header(cell.size - size - HEADER, true, cell.next), Header(size, false, rest);
      SplitListed(mem, bs, k, size, vmm.brk, x, y, rest);
      SplitKeeps(mem, bs, k, size, vmm.brk, x, y, rest);
      mem := Put(mem, rest, x);
      mem := Put(mem, current, y);
      blocks := Take(bs, k, size);
    }

    /** Marks block `k` used or free. */
    method Mark(current: nat, free: bool, ghost k: nat)
      requires Shaped() && k < |blocks| && current == blocks[k].addr
      modifies this`mem, this`blocks
      ensures blocks == old(blocks)[k := old(blocks)[k].(free := free)]
      ensures Shaped()
      ensures PayloadsKept(old(mem), mem, Live(old(blocks)))
    {
      ghost var bs, b := blocks, blocks[k].(free := free);
      ShrinkOrdered(bs, k, b, 1, vmm.brk);
      UpdateHoles(mem, bs, k, b);
      assert HeaderAt(mem, bs, k);
      var x := mem[current].(free := free);
      PutHeader(mem, bs[k := b], k, k, x, 1, vmm.brk);
      HeaderSpare(bs, k, 1, vmm.brk, current);
      PutKeeps(mem, Live(bs), current, x);
      mem := Put(mem, current, x);
      blocks := bs[k := b];
    }

    /** Appends a region above the old break `hi` as one block in use. */
    method Append(last: nat, region: nat, size: nat, ghost hi: nat)
      requires Valid() && blocks != [] && last == blocks[|blocks| - 1].addr
      requires Ordered(blocks, 1, hi) && hi <= region && region + HEADER + size <= vmm.brk
      modifies this`mem, this`blocks
      ensures Valid() && blocks == old(blocks) + [Block(region, size, false)]
      ensures PayloadsKept(old(mem), mem, Live(old(blocks)))
    {
      ghost var bs, b, n := blocks, Block(region, size, false), |blocks|;
      InsertOrdered(bs, n, b, 1, vmm.brk);
      assert Insert(bs, n, b) == bs + [b];
      HeaderSpare(bs, 0, 1, hi, region);
      HeaderSpare(bs, n - 1, 1, hi, last);
      assert HeaderAt(mem, bs, n - 1);
      var cell := mem[last];
      var x, y := Header(size, false, 0), cell.(next := region);
      InsertListed(mem, bs, n, b, x, y, 1, vmm.brk);
      WriteKeeps(mem, Live(bs), region, x, last, y);
      mem := Put(mem, region, x);
      mem := Put(mem, last, y);
      forall i | 0 <= i < n ensures Apart(bs + [b], i) {
        if i + 1 < n { assert Apart(bs, i); }
      }
      blocks := bs + [b];
    }

    /** Hands out block `k`, split if it is much too large. */
    method TakeBlock(current: nat, size: nat, ghost k: nat)
      requires Valid() && k < |blocks| && current == blocks[k].addr && Fits(blocks[k], size)
      modifies this`mem, this`blocks
      ensures Valid() && blocks == Take(old(blocks), k, size)
      ensures PayloadsKept(old(mem), mem, Live(old(blocks)))
    {
      assert HeaderAt(mem, blocks, k);
      if mem[current].size > size + HEADER + 16 {
        SplitBlock(current, size, k);
      } else {
        TakeCoalesced(blocks, k, size);
        Mark(current, false, k);
      }
    }

    /** Grows the heap for a request no block fits. */
    method Grow(last: nat, n: nat) returns (ptr: nat)
      requires Valid() && n < TWO_64 && ActualSize(n) >= HEADER && blocks != [] && last == blocks[|blocks| - 1].addr
      requires RoomFor(Abstract(), n)
      modifies this`mem, this`blocks, vmm
      ensures Valid()
      ensures PayloadsKept(old(mem), mem, Live(old(blocks)))
      ensures Answer(ptr, Abstract()) == Growth(old(Abstract()), n)
    {
      GrowthVanishes(n);
      assert 1 <= blocks[0].addr && blocks[0].End() <= vmm.brk;
      var total := TotalNeeded(n);
      var pages := PagesFor(total);
      MovedRoom(vmm.brk, Min(pages, vmm.frames));
      var r := vmm.Sbrk(total);
      OrderedWiden(blocks, 1, old(vmm.brk), vmm.brk);
      if r.None? { return 0; }
      Append(last, r.value, pages * PAGE_SIZE - HEADER, old(vmm.brk));
      return r.value + HEADER;
    }

    /** Returns a payload address, or 0. */
    method Kmalloc(n: nat) returns (ptr: nat)
      requires Valid() && n < TWO_64 && ActualSize(n) >= HEADER && NoWrap(Abstract(), n)
      modifies this`mem, this`blocks, vmm
      ensures Valid()
      ensures PayloadsKept(old(mem), mem, Live(old(blocks)))
      ensures Answer(ptr, Abstract()) == Request(old(Abstract()), n)
    {
      if start == 0 { return 0; }
      var size := Round16(n);
      var current, last, k := Search(size);
      FirstFitUnique(blocks, size, k);
      if current != 0 {
        TakeBlock(current, size, k);
        return current + HEADER;
      }
      ptr := Grow(last, n);
    }

    /** Joins block `k` with its free successor. */
    method JoinNext(curr: nat, ghost k: nat)
      requires Shaped() && k + 1 < |blocks| && curr == blocks[k].addr && blocks[k].free && blocks[k + 1].free
      modifies this`mem, this`blocks
      ensures Shaped() && blocks == MergeAt(old(blocks), k)
      ensures PayloadsKept(old(mem), mem, Live(old(blocks)))
    {
      ghost var bs := blocks;
      MergeAtOrdered(bs, k, 1, vmm.brk);
      assert HeaderAt(mem, bs, k) && HeaderAt(mem, bs, k + 1);
      var cell := mem[curr];
      var next := mem[cell.next];
      var x := Header(cell.size + HEADER + next.size, cell.free, next.next);
      JoinListed(mem, bs, k, x, 1, vmm.brk);
      mem := Put(mem, curr, x);
      blocks := MergeAt(bs, k);
    }

    /** Joins all free neighbours, walking the list once. */
    method CoalesceAll()
      requires Shaped() && blocks != []
      modifies this`mem, this`blocks
      ensures Shaped() && blocks == Merge(old(blocks))
      ensures PayloadsKept(old(mem), mem, Live(old(blocks)))
    {
      ghost var m, j := blocks, 0;
      var curr := start;
      assert m[..0] + Merge(m[0..]) == Merge(m);
      assert HeaderAt(mem, blocks, 0);
      while curr != 0 && mem[curr].next != 0
        invariant Shaped() && j < |blocks| && curr == blocks[j].addr
        invariant curr in mem && mem[curr] == HeaderOf(blocks, j)
        invariant Merge(m) == blocks[..j] + Merge(blocks[j..]) && Live(blocks) == Live(m)
        invariant PayloadsKept(old(mem), mem, Live(m))
        decreases |blocks| - j
      {
        var next := mem[curr].next;
        assert HeaderAt(mem, blocks, j + 1);
        if mem[curr].free && mem[next].free {
          MergeAtLive(blocks, j);
          MergeStep(blocks, j);
          JoinNext(curr, j);
          assert HeaderAt(mem, blocks, j);
        } else {
          MergeSkip(blocks, j);
          curr := next;
          j := j + 1;
        }
      }
      assert blocks[j..] == [blocks[j]];
      assert blocks == blocks[..j] + [blocks[j]];
    }

    /** Frees the live block `k`, which `ptr` points into. */
    method Kfree(ptr: nat, ghost k: nat)
      requires Valid() && (ptr != 0 ==> k < |blocks| && blocks[k].Payload() == ptr && !blocks[k].free)
      modifies this`mem, this`blocks
      ensures Valid()
      ensures ptr == 0 ==> blocks == old(blocks) && mem == old(mem)
      ensures ptr != 0 ==> blocks == Merge(old(blocks)[k := old(blocks)[k].(free := true)])
      ensures PayloadsKept(old(mem), mem, Live(blocks))
    {
      if ptr == 0 { return; }
      FreeLive(blocks, k);
      var block := ptr - HEADER;
      Mark(block, true, k);
      ghost var m := blocks;
      FreedKept(old(mem), mem, old(blocks), k);
      MergeCoalesces(m);
      assert HeaderAt(mem, blocks, k);
      var next := mem[block].next;
      if next != 0 {
        assert HeaderAt(mem, blocks, k + 1);
        if mem[next].free {
          MergeAfterMergeAt(m, k);
          MergeAtLive(m, k);
          JoinNext(block, k);
        }
      }
      CoalesceAll();
    }
  }

  lemma FreedKept(mem: Memory, mem': Memory, bs: seq<Block>, k: nat)
    requires k < |bs| && !bs[k].free && PayloadsKept(mem, mem', Live(bs))
    ensures PayloadsKept(mem, mem', Live(bs[k := bs[k].(free := true)]))
  {
    var m := bs[k := bs[k].(free := true)];
    forall x: nat | !Outside(Live(m), x) ensures !Outside(Live(bs), x) {
      var b :| b in Live(m) && b.Payload() <= x < b.End();
      LiveMember(m, b);
      var i :| 0 <= i < |m| && m[i] == b;
      assert b == bs[i];
      LiveMember(bs, b);
    }
  }

  lemma MergeStep(bs: seq<Block>, j: nat)
    requires j + 1 < |bs| && bs[j].free && bs[j + 1].free
    ensures MergeAt(bs, j)[..j] == bs[..j] && Merge(MergeAt(bs, j)[j..]) == Merge(bs[j..])
  {
    assert MergeAt(bs, j)[j..] == MergeAt(bs[j..], 0);
    MergeAfterMergeAt(bs[j..], 0);
  }

  lemma MergeFront(front: seq<Block>, a: Block, b: Block, rest: seq<Block>)
    requires !(a.free && b.free)
    ensures front + Merge([a, b] + rest) == front + [a] + Merge([b] + rest)
  {
    MergeTwo(a, b, rest);
  }

  lemma MergeSkip(bs: seq<Block>, j: nat)
    requires j + 1 < |bs| && !(bs[j].free && bs[j + 1].free)
    ensures bs[..j] + Merge(bs[j..]) == bs[..j + 1] + Merge(bs[j + 1..])
  {
    var front, a, b, rest := bs[..j], bs[j], bs[j + 1], bs[j + 2..];
    assert bs[j..] == [a, b] + rest;
    assert bs[j + 1..] == [b] + rest;
    assert bs[..j + 1] == front + [a];
    MergeFront(front, a, b, rest);
  }

  // ---- what calls do to the blocks and the break ---------------------------------------------------------

  /** The blocks, the break and the frames left for growth. */
  datatype State = State(blocks: seq<Block>, brk: nat, frames: nat)

  /** What a request returns, and the state after it. */
  datatype Answer = Answer(ptr: nat, after: State)

  function Growth(s: State, n: nat): Answer
    requires ActualSize(n) >= HEADER
  {
    var pages := PagesFor(TotalNeeded(n));
    if s.frames < pages then Answer(0, State(s.blocks, s.brk + s.frames * PAGE_SIZE, 0))
    else
      var region := Block(s.brk, pages * PAGE_SIZE - HEADER, false);
      Answer(region.Payload(), State(s.blocks + [region], s.brk + pages * PAGE_SIZE, s.frames - pages))
  }

  /** First fit, else growth, else nothing. */
  function Request(s: State, n: nat): Answer
    requires ActualSize(n) >= HEADER
  {
    if s.blocks == [] then Answer(0, s)
    else match FirstFit(s.blocks, Round16(n))
      case Some(k) => Answer(s.blocks[k].Payload(), s.(blocks := Take(s.blocks, k, Round16(n))))
      case None => Growth(s, n)
  }

  predicate NoFit(s: State, n: nat)
  {
    s.blocks != [] && FirstFit(s.blocks, Round16(n)).None?
  }

  /** The pages that growth gets end before the end of the address space. */
  predicate RoomFor(s: State, n: nat)
  {
    s.brk + Min(PagesFor(TotalNeeded(n)), s.frames) * PAGE_SIZE < TWO_64
  }

  /** The request does not move the break around the end of the address space. */
  predicate NoWrap(s: State, n: nat)
  {
    NoFit(s, n) ==> RoomFor(s, n)
  }

  /** The request is served by growth. */
  predicate Grows(s: State, n: nat)
  {
    NoFit(s, n) && s.frames >= PagesFor(TotalNeeded(n))
  }

  /** Growth fails after it has taken pages. */
  predicate FailsPartWay(s: State, n: nat)
  {
    NoFit(s, n) && 0 < s.frames < PagesFor(TotalNeeded(n))
  }

  ghost predicate Good(s: State)
  {
    Ordered(s.blocks, 1, s.brk) && Coalesced(s.blocks)
  }

  lemma GrowthLaw(s: State, n: nat)
    requires Good(s) && ActualSize(n) >= HEADER && NoFit(s, n)
    ensures var t := Growth(s, n).after;
            && Good(t) && t.blocks[..|s.blocks|] == s.blocks
            && Live(t.blocks) == Live(s.blocks) + Live(t.blocks[|s.blocks|..])
            && Bytes(t.blocks) == Bytes(s.blocks) + (if Grows(s, n) then ActualSize(n) else 0)
            && t.brk - Bytes(t.blocks) == s.brk - Bytes(s.blocks) + (if FailsPartWay(s, n)
                then s.frames * PAGE_SIZE else 0)
  {
    if Grows(s, n) {
      var bs, g, hi := s.blocks, Block(s.brk, ActualSize(n) - HEADER, false), s.brk + ActualSize(n);
      OrderedWiden(bs, 1, s.brk, hi);
      InsertOrdered(bs, |bs|, g, 1, hi);
      assert Insert(bs, |bs|, g) == bs + [g] && (bs + [g])[..|bs|] == bs && (bs + [g])[|bs|..] == [g];
      forall i | 0 <= i < |bs| ensures Apart(bs + [g], i) { assert i + 1 < |bs| ==> Apart(bs, i); }
      LiveConcat(bs, [g]);
      BytesConcat(bs, [g]);
      One(g);
    } else {
      OrderedWiden(s.blocks, 1, s.brk, Growth(s, n).after.brk);
      assert s.blocks[|s.blocks|..] == [];
    }
  }

  // ---- laws over calls ----------------------------------------------------------------------------------

  /** Header plus payload bytes change only when the heap grows, by whole pages; the bytes below the break that no
      block covers change only when a growth fails after taking pages, by those. */
  lemma ByteLaw(s: State, n: nat)
    requires Good(s) && ActualSize(n) >= HEADER
    ensures var t := Request(s, n).after;
            && Good(t)
            && (s.blocks != [] ==> t.blocks != [] && t.blocks[0].addr == s.blocks[0].addr)
            && Bytes(t.blocks) == Bytes(s.blocks) + (if Grows(s, n) then ActualSize(n) else 0)
            && t.brk - Bytes(t.blocks) == s.brk - Bytes(s.blocks) + (if FailsPartWay(s, n)
                then s.frames * PAGE_SIZE else 0)
  {
    if NoFit(s, n) {
      GrowthLaw(s, n);
      assert Growth(s, n).after.blocks[..|s.blocks|][0] == s.blocks[0];
    } else if s.blocks != [] {
      var k := FirstFit(s.blocks, Round16(n)).value;
      TakeOrdered(s.blocks, k, Round16(n), 1, s.brk);
      TakeCoalesced(s.blocks, k, Round16(n));
      TakeLive(s.blocks, k, Round16(n));
    }
  }

  /** The size of the block a request of `n` bytes gets: 16 bytes rounding at most if it is cut from a free block of
      `from` bytes with more than 40 over, else all of them, and whole pages less a header if the heap grows. */
  ghost predicate SizedFor(n: nat, from: Option<nat>, size: nat)
  {
    match from
    case Some(m) => m >= Round16(n) && size == if m - Round16(n) > 40 then Round16(n) else m
    case None => size == ActualSize(n) - 24
  }

  /** A successful request gives a live block that was not live before, and that holds the request if it is at most
      2^64 - 4128; every block live before is still there, unmoved and of the same size. A failed one changes no
      block. */
  lemma AllocationLaw(s: State, n: nat)
    requires n < TWO_64 && Good(s) && ActualSize(n) >= HEADER
    ensures var a := Request(s, n);
            var old', new' := Live(s.blocks), Live(a.after.blocks);
            if a.ptr == 0 then a.after.blocks == s.blocks
            else
              && (forall b :: b in old' ==> b in new' && b.Payload() != a.ptr)
              && exists b :: && b in new' && b.Payload() == a.ptr && (n <= MAX_REQUEST ==> b.size >= n)
                             && SizedFor(n, match FirstFit(s.blocks, Round16(n))
                                            case Some(k) => Some(s.blocks[k].size)
                                            case None => None, b.size)
  {
    GrowthCoversRequest(n);
    var a, bs := Request(s, n), s.blocks;
    if NoFit(s, n) {
      GrowthLaw(s, n);
      if a.ptr != 0 {
        var g := Block(s.brk, ActualSize(n) - HEADER, false);
        One(g);
        assert a.after.blocks[|bs|..] == [g] && g in Live(a.after.blocks) && g.Payload() == a.ptr;
        forall b | b in Live(bs) ensures b in Live(a.after.blocks) && b.Payload() != a.ptr {
          LiveMember(bs, b);
          assert b.End() <= s.brk;
        }
      }
    } else if bs != [] {
      var k := FirstFit(bs, Round16(n)).value;
      var g := Given(bs[k], Round16(n));
      TakeLive(bs, k, Round16(n));
      assert g in Live(a.after.blocks) && g.Payload() == a.ptr;
      forall b | b in Live(bs) ensures b in Live(a.after.blocks) && b.Payload() != a.ptr {
        DistinctPayload(bs, k, b, 1, s.brk);
      }
    }
  }

  lemma DistinctPayload(bs: seq<Block>, k: nat, b: Block, lo: nat, hi: nat)
    requires k < |bs| && bs[k].free && Ordered(bs, lo, hi) && b in Live(bs)
    ensures b.Payload() != bs[k].Payload()
  {
    LiveMember(bs, b);
    var i :| 0 <= i < |bs| && bs[i] == b;
    if i < k { assert Before(bs, i, k); } else if k < i { assert Before(bs, k, i); }
  }

  /** Freeing takes that block alone out of the live ones, and gives back exactly its bytes. */
  lemma ReleaseLaw(bs: seq<Block>, k: nat, lo: nat, hi: nat)
    requires k < |bs| && !bs[k].free && Ordered(bs, lo, hi)
    ensures var bs' := Merge(bs[k := bs[k].(free := true)]);
            && Bytes(bs') == Bytes(bs) && Coalesced(bs') && Ordered(bs', lo, hi)
            && forall b :: b in Live(bs) <==> b in Live(bs') || b == bs[k]
  {
    FreeLive(bs, k);
    var m := bs[k := bs[k].(free := true)];
    ShrinkOrdered(bs, k, m[k], lo, hi);
    MergeOrdered(m, lo, hi);
  }

  datatype Op = Alloc(n: nat) | Free(i: nat)

  predicate IsPayload(live: seq<Block>, p: nat)
  {
    exists b :: b in live && b.Payload() == p
  }

  /** The pointers handed out and not yet freed are distinct payloads of live blocks. */
  ghost predicate Owned(live: seq<Block>, ptrs: seq<nat>)
  {
    && (forall i :: 0 <= i < |ptrs| ==> ptrs[i] != 0 && IsPayload(live, ptrs[i]))
    && (forall i, j :: 0 <= i < j < |ptrs| ==> ptrs[i] != ptrs[j])
  }

  lemma AllocOwned(live: seq<Block>, live': seq<Block>, ptrs: seq<nat>, ptr: nat)
    requires Owned(live, ptrs) && ptr != 0 && IsPayload(live', ptr)
    requires forall b :: b in live ==> b in live' && b.Payload() != ptr
    ensures Owned(live', ptrs + [ptr])
  {
    forall i | 0 <= i < |ptrs| ensures IsPayload(live', ptrs[i]) && ptrs[i] != ptr {
      assert IsPayload(live, ptrs[i]);
    }
  }

  lemma FreeOwned(live: seq<Block>, live': seq<Block>, ptrs: seq<nat>, i: nat, f: Block)
    requires Owned(live, ptrs) && i < |ptrs| && f.Payload() == ptrs[i]
    requires forall b :: b in live ==> b in live' || b == f
    ensures Owned(live', ptrs[..i] + ptrs[i + 1..])
  {
    var rest := ptrs[..i] + ptrs[i + 1..];
    forall j | 0 <= j < |rest| ensures rest[j] != 0 && IsPayload(live', rest[j]) {
      var j' := if j < i then j else j + 1;
      assert rest[j] == ptrs[j'] && IsPayload(live, ptrs[j']);
    }
  }

  /** The live block a pointer belongs to. */
  function LiveIndex(bs: seq<Block>, p: nat): (k: nat)
    ensures k <= |bs| && (k < |bs| ==> bs[k].Payload() == p && !bs[k].free)
  {
    if bs == [] || (bs[0].Payload() == p && !bs[0].free) then 0 else 1 + LiveIndex(bs[1..], p)
  }

  lemma {:induction false} LiveIndexFound(bs: seq<Block>, p: nat)
    requires IsPayload(Live(bs), p)
    ensures LiveIndex(bs, p) < |bs|
  {
    var b :| b in Live(bs) && b.Payload() == p;
    LiveMember(bs, b);
    if !(bs[0].Payload() == p && !bs[0].free) {
      assert bs == [bs[0]] + bs[1..];
      LiveMember(bs[1..], b);
      LiveIndexFound(bs[1..], p);
    }
  }

  function Release(bs: seq<Block>, p: nat): seq<Block>
  {
    var k := LiveIndex(bs, p);
    if k < |bs| then Merge(bs[k := bs[k].(free := true)]) else bs
  }

  // ---- runs ---------------------------------------------------------------------------------------------

  /** A heap and the pointers handed out and not yet freed. */
  datatype Session = Session(heap: State, ptrs: seq<nat>)

  predicate Sized(op: Op)
  {
    op.Alloc? ==> op.n < TWO_64 && ActualSize(op.n) >= HEADER
  }

  function Step(m: Session, op: Op): Session
    requires Sized(op)
  {
    match op
    case Alloc(n) =>
      var a := Request(m.heap, n);
      Session(a.after, if a.ptr != 0 then m.ptrs + [a.ptr] else m.ptrs)
    case Free(i) =>
      if i < |m.ptrs| then
        Session(m.heap.(blocks := Release(m.heap.blocks, m.ptrs[i])), m.ptrs[..i] + m.ptrs[i + 1..])
      else m
  }

  predicate AllSized(ops: seq<Op>)
  {
    forall i :: 0 <= i < |ops| ==> Sized(ops[i])
  }

  function RunEnd(m: Session, ops: seq<Op>): Session
    requires AllSized(ops)
  {
    if ops == [] then m else Step(RunEnd(m, ops[..|ops| - 1]), ops[|ops| - 1])
  }

  ghost predicate GrowsAt(m: Session, ops: seq<Op>, t: nat)
    requires AllSized(ops) && t < |ops|
  {
    ops[t].Alloc? && Grows(RunEnd(m, ops[..t]).heap, ops[t].n)
  }

  ghost predicate FailsPartWayAt(m: Session, ops: seq<Op>, t: nat)
    requires AllSized(ops) && t < |ops|
  {
    ops[t].Alloc? && FailsPartWay(RunEnd(m, ops[..t]).heap, ops[t].n)
  }

  /** No request of the run is served by growth. */
  ghost predicate NeverGrows(m: Session, ops: seq<Op>)
    requires AllSized(ops)
  {
    forall t :: 0 <= t < |ops| ==> !GrowsAt(m, ops, t)
  }

  /** No growth of the run fails after taking pages. */
  ghost predicate NeverFailsPartWay(m: Session, ops: seq<Op>)
    requires AllSized(ops)
  {
    forall t :: 0 <= t < |ops| ==> !FailsPartWayAt(m, ops, t)
  }

  /** No request of the run moves the break around the end of the address space. */
  ghost predicate NeverWraps(m: Session, ops: seq<Op>)
    requires AllSized(ops)
  {
    forall t :: 0 <= t < |ops| ==> NoWrapAt(m, ops, t)
  }

  ghost predicate NoWrapAt(m: Session, ops: seq<Op>, t: nat)
    requires AllSized(ops) && t < |ops|
  {
    ops[t].Alloc? ==> NoWrap(RunEnd(m, ops[..t]).heap, ops[t].n)
  }

  /** The break and the frames left add up to the same address throughout a run. */
  lemma {:induction false} RunBreak(m: Session, ops: seq<Op>)
    requires AllSized(ops)
    ensures var t := RunEnd(m, ops).heap; t.brk + t.frames * PAGE_SIZE == m.heap.brk + m.heap.frames * PAGE_SIZE
    decreases |ops|
  {
    if ops != [] { RunBreak(m, ops[..|ops| - 1]); }
  }

  /** With address space for all frames left, no run wraps. */
  lemma RoomyNeverWraps(m: Session, ops: seq<Op>)
    requires AllSized(ops) && m.heap.brk + m.heap.frames * PAGE_SIZE < TWO_64
    ensures NeverWraps(m, ops)
  {
    forall t | 0 <= t < |ops| ensures NoWrapAt(m, ops, t) { RunBreak(m, ops[..t]); }
  }

  lemma AtPrefix(m: Session, ops: seq<Op>, k: nat, t: nat)
    requires AllSized(ops) && t < k <= |ops|
    ensures GrowsAt(m, ops[..k], t) <==> GrowsAt(m, ops, t)
    ensures FailsPartWayAt(m, ops[..k], t) <==> FailsPartWayAt(m, ops, t)
  {
    assert ops[..k][..t] == ops[..t];
  }

  lemma NeverGrowsSnoc(m: Session, ops: seq<Op>)
    requires AllSized(ops) && ops != []
    ensures NeverGrows(m, ops) <==> NeverGrows(m, ops[..|ops| - 1]) && !GrowsAt(m, ops, |ops| - 1)
  {
    var k := |ops| - 1;
    var us := ops[..k];
    forall t | 0 <= t < |us| ensures GrowsAt(m, us, t) <==> GrowsAt(m, ops, t) { AtPrefix(m, ops, k, t); }
  }

  lemma NeverFailsSnoc(m: Session, ops: seq<Op>)
    requires AllSized(ops) && ops != []
    ensures NeverFailsPartWay(m, ops) <==> NeverFailsPartWay(m, ops[..|ops| - 1]) && !FailsPartWayAt(m, ops, |ops| - 1)
  {
    var k := |ops| - 1;
    var us := ops[..k];
    forall t | 0 <= t < |us| ensures FailsPartWayAt(m, us, t) <==> FailsPartWayAt(m, ops, t) { AtPrefix(m, ops, k, t); }
  }

  ghost predicate Fit(m: Session)
  {
    Good(m.heap) && Owned(Live(m.heap.blocks), m.ptrs)
  }

  /** The bytes that growth and that failed growth would add. */
  ghost function Added(s: State, op: Op): nat
  {
    if op.Alloc? && Grows(s, op.n) then ActualSize(op.n) else 0
  }

  ghost function Wasted(s: State, op: Op): nat
  {
    if op.Alloc? && FailsPartWay(s, op.n) then s.frames * PAGE_SIZE else 0
  }

  lemma StepLaw(m: Session, op: Op)
    requires Fit(m) && Sized(op)
    ensures var t := Step(m, op);
            && Fit(t)
            && (m.heap.blocks != [] ==> t.heap.blocks != [] && t.heap.blocks[0].addr == m.heap.blocks[0].addr)
            && Bytes(t.heap.blocks) == Bytes(m.heap.blocks) + Added(m.heap, op)
            && t.heap.brk - Bytes(t.heap.blocks) == m.heap.brk - Bytes(m.heap.blocks) + Wasted(m.heap, op)
  {
    var s, bs := m.heap, m.heap.blocks;
    match op {
      case Alloc(n) =>
        ByteLaw(s, n);
        AllocationLaw(s, n);
        var a := Request(s, n);
        if a.ptr != 0 { AllocOwned(Live(bs), Live(a.after.blocks), m.ptrs, a.ptr); }
      case Free(i) =>
        if i < |m.ptrs| { ReleaseOwned(bs, s.brk, m.ptrs, i); }
    }
  }

  lemma ReleaseOwned(bs: seq<Block>, hi: nat, ptrs: seq<nat>, i: nat)
    requires Ordered(bs, 1, hi) && Owned(Live(bs), ptrs) && i < |ptrs|
    ensures var k := LiveIndex(bs, ptrs[i]);
            var bs' := Release(bs, ptrs[i]);
            && k < |bs| && bs' == Merge(bs[k := bs[k].(free := true)]) && bs' != [] && bs'[0].addr == bs[0].addr
            && Ordered(bs', 1, hi) && Coalesced(bs') && Bytes(bs') == Bytes(bs)
            && Owned(Live(bs'), ptrs[..i] + ptrs[i + 1..])
            && forall b :: b in Live(bs) && b.Payload() != ptrs[i] ==> b in Live(bs')
  {
    LiveIndexFound(bs, ptrs[i]);
    var k := LiveIndex(bs, ptrs[i]);
    ReleaseLaw(bs, k, 1, hi);
    FreeStart(bs, k);
    FreeOwned(Live(bs), Live(Release(bs, ptrs[i])), ptrs, i, bs[k]);
  }

  /** Over every run of requests and frees of pointers handed out: the invariants and the start stay; the blocks gain
      bytes exactly if some request is served by growth; and the bytes below the break that no block covers grow
      exactly if some growth fails after taking pages. */
  lemma {:induction false} RunLaw(m: Session, ops: seq<Op>)
    requires Fit(m) && AllSized(ops)
    ensures var t := RunEnd(m, ops);
            && Fit(t)
            && (m.heap.blocks != [] ==> t.heap.blocks != [] && t.heap.blocks[0].addr == m.heap.blocks[0].addr)
            && Bytes(t.heap.blocks) >= Bytes(m.heap.blocks)
            && (Bytes(t.heap.blocks) == Bytes(m.heap.blocks) <==> NeverGrows(m, ops))
            && t.heap.brk - Bytes(t.heap.blocks) >= m.heap.brk - Bytes(m.heap.blocks)
            && (t.heap.brk - Bytes(t.heap.blocks) == m.heap.brk - Bytes(m.heap.blocks) <==> NeverFailsPartWay(m, ops))
    decreases |ops|
  {
    if ops != [] {
      var k := |ops| - 1;
      RunLaw(m, ops[..k]);
      NeverGrowsSnoc(m, ops);
      NeverFailsSnoc(m, ops);
      StepLaw(RunEnd(m, ops[..k]), ops[k]);
    }
  }

  /** On a heap that fills the memory up to the break, header plus payload bytes never exceed the bytes up to the break,
      and are all of them after a run exactly if no growth of the run failed after taking pages. */
  lemma ExactTiling(m: Session, ops: seq<Op>)
    requires Fit(m) && AllSized(ops) && m.heap.blocks != []
    requires Bytes(m.heap.blocks) == m.heap.brk - m.heap.blocks[0].addr
    ensures var t := RunEnd(m, ops).heap;
            && t.blocks != [] && t.blocks[0].addr == m.heap.blocks[0].addr
            && t.blocks[0].addr + Bytes(t.blocks) <= t.brk
            && (t.blocks[0].addr + Bytes(t.blocks) == t.brk <==> NeverFailsPartWay(m, ops))
  {
    RunLaw(m, ops);
    var t := RunEnd(m, ops).heap;
    FromFirst(t.blocks, 1, t.brk);
    BytesSpan(t.blocks, t.blocks[0].addr, t.brk);
  }

  lemma FromFirst(bs: seq<Block>, lo: nat, hi: nat)
    requires bs != [] && Ordered(bs, lo, hi)
    ensures Ordered(bs, bs[0].addr, hi) && bs[0].addr <= hi
  {
    forall i | 0 <= i < |bs| ensures bs[0].addr <= bs[i].addr { assert i > 0 ==> Before(bs, 0, i); }
  }

  /** Every run of the code is a run of the functions, and writes no byte of a payload that belongs to others. */
  method Run(h: Heap, ops: seq<Op>, given: seq<nat>, ghost others: seq<Block>) returns (ptrs: seq<nat>)
    requires h.Valid() && Owned(Live(h.blocks), given)
    requires AllSized(ops) && NeverWraps(Session(h.Abstract(), given), ops)
    requires forall b :: b in others ==> b in Live(h.blocks) && b.Payload() !in given
    modifies h`mem, h`blocks, h.vmm
    ensures h.Valid() && Owned(Live(h.blocks), ptrs)
    ensures Session(h.Abstract(), ptrs) == RunEnd(Session(old(h.Abstract()), given), ops)
    ensures forall b :: b in others ==> b in Live(h.blocks) && b.Payload() !in ptrs
    ensures PayloadsKept(old(h.mem), h.mem, others)
  {
    ptrs := given;
    ghost var m := Session(h.Abstract(), given);
    for t := 0 to |ops|
      invariant h.Valid() && Owned(Live(h.blocks), ptrs)
      invariant Session(h.Abstract(), ptrs) == RunEnd(m, ops[..t])
      invariant Apartness(Live(h.blocks), ptrs, others) && PayloadsKept(old(h.mem), h.mem, others)
    {
      ghost var before := h.mem;
      assert NoWrapAt(m, ops, t);
      ptrs := Perform(h, ops[t], ptrs, others);
      KeptTrans(old(h.mem), before, h.mem, others);
      assert ops[..t + 1][..t] == ops[..t];
    }
    assert ops[..|ops|] == ops;
  }

  /** The other blocks are live, and their payloads are not among the pointers. */
  ghost predicate Apartness(live: seq<Block>, ptrs: seq<nat>, others: seq<Block>)
  {
    forall b :: b in others ==> b in live && b.Payload() !in ptrs
  }

  lemma KeptTrans(a: Memory, b: Memory, c: Memory, live: seq<Block>)
    requires PayloadsKept(a, b, live) && PayloadsKept(b, c, live)
    ensures PayloadsKept(a, c, live)
  {
  }

  lemma KeptSome(a: Memory, b: Memory, live: seq<Block>, some: seq<Block>)
    requires PayloadsKept(a, b, live) && forall x :: x in some ==> x in live
    ensures PayloadsKept(a, b, some)
  {
    forall y: nat | !Outside(some, y) ensures !Outside(live, y) { }
  }

  method Perform(h: Heap, op: Op, given: seq<nat>, ghost others: seq<Block>) returns (ptrs: seq<nat>)
    requires h.Valid() && Owned(Live(h.blocks), given) && Sized(op) && Apartness(Live(h.blocks), given, others)
    requires op.Alloc? ==> NoWrap(h.Abstract(), op.n)
    modifies h`mem, h`blocks, h.vmm
    ensures h.Valid() && Owned(Live(h.blocks), ptrs)
    ensures Session(h.Abstract(), ptrs) == Step(Session(old(h.Abstract()), given), op)
    ensures Apartness(Live(h.blocks), ptrs, others) && PayloadsKept(old(h.mem), h.mem, others)
  {
    ghost var s, before := h.Abstract(), h.mem;
    StepLaw(Session(s, given), op);
    ptrs := given;
    match op {
      case Alloc(n) =>
        AllocationLaw(s, n);
        var ptr := h.Kmalloc(n);
        KeptSome(before, h.mem, Live(s.blocks), others);
        if ptr != 0 { ptrs := given + [ptr]; }
      case Free(i) =>
        if i < |given| {
          ReleaseOwned(s.blocks, s.brk, given, i);
          h.Kfree(given[i], LiveIndex(s.blocks, given[i]));
          KeptSome(before, h.mem, Live(h.blocks), others);
          ptrs := given[..i] + given[i + 1..];
        }
    }
  }

  lemma FreeStart(bs: seq<Block>, k: nat)
    requires k < |bs| && !bs[k].free
    ensures var bs' := Merge(bs[k := bs[k].(free := true)]);
            bs' != [] && bs'[0].addr == bs[0].addr
  {
    MergeStart(bs[k := bs[k].(free := true)]);
  }

  lemma {:induction false} MergeStart(bs: seq<Block>)
    requires bs != []
    ensures Merge(bs) != [] && Merge(bs)[0].addr == bs[0].addr
    decreases |bs|
  {
    if |bs| >= 2 && bs[0].free && bs[1].free {
      MergeStart([Joined(bs[0], bs[1])] + bs[2..]);
    }
  }

  // ---- statistics ---------------------------------------------------------------------------------------

  datatype Stats = Stats(totalSize: nat, usedSize: nat, freeSize: nat, blockCount: nat, freeBlockCount: nat)

  function SizeWhere(bs: seq<Block>, free: bool): nat
  {
    if bs == [] then 0 else (if bs[0].free == free then bs[0].size else 0) + SizeWhere(bs[1..], free)
  }

  function CountFree(bs: seq<Block>): nat
  {
    if bs == [] then 0 else (if bs[0].free then 1 else 0) + CountFree(bs[1..])
  }

  lemma {:induction false} SizesAdd(bs: seq<Block>)
    ensures Bytes(bs) == SizeWhere(bs, true) + SizeWhere(bs, false) + HEADER * |bs|
  {
    if bs != [] { SizesAdd(bs[1..]); }
  }

  lemma {:induction false} StatsSnoc(bs: seq<Block>, k: nat)
    requires k < |bs|
    ensures forall f :: SizeWhere(bs[..k + 1], f) == SizeWhere(bs[..k], f) + if bs[k].free == f then bs[k].size else 0
    ensures CountFree(bs[..k + 1]) == CountFree(bs[..k]) + if bs[k].free then 1 else 0
  {
    if k == 0 {
      assert bs[..1][1..] == [] == bs[..0];
    } else {
      StatsSnoc(bs[1..], k - 1);
      assert bs[..k + 1][1..] == bs[1..][..k] && bs[..k][1..] == bs[1..][..k - 1];
    }
  }

  /** The statistics walk: the used size counts every header, is capped by the initial size, and the free size
      is what is left of the initial size. */
  method GetStats(h: Heap) returns (s: Stats)
    requires h.Valid()
    ensures s.totalSize == h.totalSize && s.blockCount == |h.blocks| && s.freeBlockCount == CountFree(h.blocks)
    ensures s.usedSize == Min(SizeWhere(h.blocks, false) + HEADER * |h.blocks|, h.totalSize)
    ensures s.freeSize == ReportedFree(h.blocks, h.totalSize)
  {
    var used, count, freeCount := 0, 0, 0;
    var current := h.start;
    ghost var k := 0;
    while current != 0
      invariant k <= |h.blocks| && current == (if k < |h.blocks| then h.blocks[k].addr else 0)
      invariant count == k && used == SizeWhere(h.blocks[..k], false) && freeCount == CountFree(h.blocks[..k])
      decreases |h.blocks| - k
    {
      assert HeaderAt(h.mem, h.blocks, k);
      StatsSnoc(h.blocks, k);
      count := count + 1;
      if h.mem[current].free {
        freeCount := freeCount + 1;
      } else {
        used := used + h.mem[current].size;
      }
      current := h.mem[current].next;
      k := k + 1;
    }
    assert h.blocks[..k] == h.blocks;
    used := used + count * HEADER;
    if used > h.totalSize { used := h.totalSize; }
    return Stats(h.totalSize, used, h.totalSize - used, count, freeCount);
  }

  /** The free size the statistics report for these blocks. */
  function ReportedFree(bs: seq<Block>, totalSize: nat): nat
  {
    totalSize - Min(SizeWhere(bs, false) + HEADER * |bs|, totalSize)
  }

  /** After a run on a heap whose blocks covered the recorded total, as they do from `Init` on, they still do exactly
      if no request was served by growth; and the reported free size is the number of free payload bytes exactly if
      no request was served by growth or nothing is free. */
  lemma FreeSizeExact(m: Session, ops: seq<Op>, totalSize: nat)
    requires Fit(m) && AllSized(ops) && Bytes(m.heap.blocks) == totalSize
    ensures var bs := RunEnd(m, ops).heap.blocks;
            && (Bytes(bs) == totalSize <==> NeverGrows(m, ops))
            && (ReportedFree(bs, totalSize) == SizeWhere(bs, true) <==> NeverGrows(m, ops) || SizeWhere(bs, true) == 0)
  {
    RunLaw(m, ops);
    SizesAdd(RunEnd(m, ops).heap.blocks);
  }

  /** From initialisation through any run to the statistics. */
  method FromInit(vmm: Vmm, addr: nat, size: nat, ops: seq<Op>) returns (h: Heap, s: Stats)
    requires addr != 0 && size >= 2 * HEADER && addr + size <= vmm.brk < TWO_64 && AllSized(ops)
    requires NeverWraps(Session(State([Block(addr, size - HEADER, true)], vmm.brk, vmm.frames), []), ops)
    modifies vmm
    ensures fresh(h) && h.Valid() && h.start == addr && s.totalSize == size
    ensures var m := Session(State([Block(addr, size - HEADER, true)], old(vmm.brk), old(vmm.frames)), []);
            && h.Abstract() == RunEnd(m, ops).heap
            && (s.freeSize == SizeWhere(h.blocks, true) <==> NeverGrows(m, ops) || SizeWhere(h.blocks, true) == 0)
            && (addr + size == old(vmm.brk) ==> (Bytes(h.blocks) == vmm.brk - addr <==> NeverFailsPartWay(m, ops)))
  {
    h := new Heap(vmm);
    var ok := h.Init(addr, size);
    ghost var m := Session(h.Abstract(), []);
    var ptrs := Run(h, ops, [], []);
    s := GetStats(h);
    RunLaw(m, ops);
    FreeSizeExact(m, ops, size);
  }
}
