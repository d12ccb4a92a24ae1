/** The physical frame allocator: a bitmap of 32-bit words with one bit for each 4096-byte frame, set when
    the frame is in use, and a separately kept count of used frames. */
module Frames {
  import opened Common
  import opened Bits

  function U64(x: int): (r: nat)
    ensures r < TWO_64
  {
    x % TWO_64
  }

  // ---- the memory map -----------------------------------------------------------------------------------

  /** An entry of the Multiboot2 memory map (section 3.6.8 of the Multiboot2 Specification). */
  datatype MmapEntry = MmapEntry(addr: nat, len: nat, available: bool)
  {
    function End(): nat { addr + len }

    function FirstPage(): nat { (addr + 4095) / PAGE_SIZE }

    function PageLimit(): nat { End() / PAGE_SIZE }

    /** The frames that lie wholly inside the entry. */
    function Pages(): set<nat> { Range(FirstPage(), PageLimit()) }
  }

  datatype Tag = Mmap(entries: seq<MmapEntry>) | Module(start: nat, end: nat) | OtherTag

  function Available(entries: seq<MmapEntry>): (r: seq<MmapEntry>)
    ensures forall e :: e in r ==> e in entries
  {
    if entries == [] then []
    else
      var n := |entries| - 1;
      if entries[n].available then Available(entries[..n]) + [entries[n]] else Available(entries[..n])
  }

  /** All AVAILABLE entries of a boot information structure, in the order the passes meet them. */
  function Regions(tags: seq<Tag>): seq<MmapEntry>
  {
    if tags == [] then []
    else
      var n := |tags| - 1;
      if tags[n].Mmap? then Regions(tags[..n]) + Available(tags[n].entries) else Regions(tags[..n])
  }

  function PageSets(rs: seq<MmapEntry>): (ss: seq<set<nat>>)
    ensures |ss| == |rs|
  {
    if rs == [] then [] else PageSets(rs[..|rs| - 1]) + [rs[|rs| - 1].Pages()]
  }

  function Union(ss: seq<set<nat>>): set<nat>
  {
    if ss == [] then {} else Union(ss[..|ss| - 1]) + ss[|ss| - 1]
  }

  /** How many of `lo, .., hi - 1` are in `s`. */
  function CountIn(lo: nat, hi: nat, s: set<nat>): nat
    decreases hi
  {
    if lo < hi then CountIn(lo, hi - 1, s) + (if hi - 1 in s then 1 else 0) else 0
  }

  lemma {:induction false} CountInZero(lo: nat, hi: nat, s: set<nat>)
    ensures CountIn(lo, hi, s) == 0 <==> Range(lo, hi) !! s
    decreases hi
  {
    if lo < hi { CountInZero(lo, hi - 1, s); }
  }

  lemma {:induction false} CountAdd(lo: nat, hi: nat, s: set<nat>, k: nat)
    requires k !in s
    ensures CountIn(lo, hi, s + {k}) == CountIn(lo, hi, s) + if lo <= k < hi then 1 else 0
    decreases hi
  {
    if lo < hi { CountAdd(lo, hi - 1, s, k); }
  }

  lemma {:induction false} CountSize(n: nat, s: set<nat>)
    requires s <= Range(0, n)
    ensures CountIn(0, n, s) == |s| <= n
  {
    if n == 0 {
      assert s == {};
    } else {
      var t := s - {n - 1};
      CountSize(n - 1, t);
      assert s == if n - 1 in s then t + {n - 1} else t;
      CountSame(n - 1, s, t);
    }
  }

  lemma {:induction false} CountSame(n: nat, s: set<nat>, t: set<nat>)
    requires forall f :: f < n ==> (f in s <==> f in t)
    ensures CountIn(0, n, s) == CountIn(0, n, t)
  {
    if n > 0 { CountSame(n - 1, s, t); }
  }

  /** How many times some frame is handed out again by a later entry. */
  function Overlap(rs: seq<MmapEntry>): nat
  {
    if rs == [] then 0
    else
      var n := |rs| - 1;
      Overlap(rs[..n]) + CountIn(rs[n].FirstPage(), rs[n].PageLimit(), Union(PageSets(rs[..n])))
  }

  function MaxEnd(rs: seq<MmapEntry>): nat
  {
    if rs == [] then 0
    else
      var m := MaxEnd(rs[..|rs| - 1]);
      if rs[|rs| - 1].End() > m then rs[|rs| - 1].End() else m
  }

  function ModulePages(start: nat, end: nat): nat
  {
    // 32-bit arithmetic: both the size and its rounding up wrap
    var size := (end - start) % TWO_32;
    (size + 4095) % TWO_32 / PAGE_SIZE
  }

  function Marked(start: nat, count: nat): set<nat>
  {
    Range(start / PAGE_SIZE, start / PAGE_SIZE + count)
  }

  function ModuleFrames(tags: seq<Tag>): set<nat>
  {
    if tags == [] then {}
    else
      var n := |tags| - 1;
      ModuleFrames(tags[..n])
      + if tags[n].Module? then Marked(tags[n].start, ModulePages(tags[n].start, tags[n].end)) else {}
  }

  /** Low memory, the kernel image, the bitmap itself, the boot information and the boot modules. */
  function Reserved(tags: seq<Tag>, kernelStart: nat, kernelEnd: nat, mb2: nat, words: nat): set<nat>
    requires kernelStart <= kernelEnd
  {
    Marked(0, 256)
    + Marked(kernelStart, (kernelEnd - kernelStart) / PAGE_SIZE + 2)
    + Marked(kernelEnd + 0x1000, words * 4 / PAGE_SIZE + 1)
    + Marked(mb2, 64)
    + ModuleFrames(tags)
  }

  lemma {:induction false} UnionMember(ss: seq<set<nat>>, f: nat)
    ensures f in Union(ss) <==> exists i :: 0 <= i < |ss| && f in ss[i]
  {
    if ss != [] {
      var n := |ss| - 1;
      UnionMember(ss[..n], f);
      assert forall i :: 0 <= i < n ==> ss[..n][i] == ss[i];
    }
  }

  predicate PairwiseDisjoint(ss: seq<set<nat>>)
  {
    forall i, j :: 0 <= i < j < |ss| ==> ss[i] !! ss[j]
  }

  lemma DisjointSnoc(ss: seq<set<nat>>, s: set<nat>)
    ensures PairwiseDisjoint(ss + [s]) <==> PairwiseDisjoint(ss) && s !! Union(ss)
  {
    var all := ss + [s];
    assert forall i :: 0 <= i < |ss| ==> all[i] == ss[i];
    if PairwiseDisjoint(all) {
      assert forall i :: 0 <= i < |ss| ==> all[i] !! all[|ss|];
      forall f | f in s ensures f !in Union(ss) { UnionMember(ss, f); }
    }
    if PairwiseDisjoint(ss) && s !! Union(ss) {
      forall i, j | 0 <= i < j < |all| ensures all[i] !! all[j] {
        if j == |ss| {
          forall f | f in ss[i] ensures f in Union(ss) { UnionMember(ss, f); }
        }
      }
    }
  }

  lemma MeetSnoc(lo: nat, hi: nat, s: set<nat>)
    requires lo < hi
    ensures |Range(lo, hi) * s| == |Range(lo, hi - 1) * s| + if hi - 1 in s then 1 else 0
  {
    var before, after := Range(lo, hi - 1) * s, Range(lo, hi) * s;
    assert hi - 1 !in before;
    if hi - 1 in s { assert after == before + {hi - 1}; } else { assert after == before; }
  }

  lemma MeetNone(lo: nat, hi: nat, s: set<nat>)
    requires lo >= hi
    ensures |Range(lo, hi) * s| == 0
  {
    assert Range(lo, hi) == {};
  }

  lemma {:induction false} CountInIs(lo: nat, hi: nat, s: set<nat>)
    ensures CountIn(lo, hi, s) == |Range(lo, hi) * s|
    decreases hi
  {
    if lo < hi {
      CountInIs(lo, hi - 1, s);
      MeetSnoc(lo, hi, s);
    } else {
      MeetNone(lo, hi, s);
    }
  }

  /** The whole pages of all entries, each counted for every entry it lies in. */
  ghost function PageTotal(rs: seq<MmapEntry>): nat
  {
    if rs == [] then 0 else PageTotal(rs[..|rs| - 1]) + |rs[|rs| - 1].Pages()|
  }

  /** The overlap is what the pages of all entries exceed the pages of their union by. */
  lemma {:induction false} OverlapIs(rs: seq<MmapEntry>)
    ensures Overlap(rs) + |Union(PageSets(rs))| == PageTotal(rs)
  {
    if rs != [] {
      var n := |rs| - 1;
      var u, pages := Union(PageSets(rs[..n])), rs[n].Pages();
      OverlapIs(rs[..n]);
      assert rs == rs[..n] + [rs[n]];
      SnocRegion(rs[..n], rs[n]);
      CountInIs(rs[n].FirstPage(), rs[n].PageLimit(), u);
      assert u + pages == u + (pages - pages * u) && |pages| == |pages * u| + |pages - pages * u|;
    }
  }

  /** Nothing is counted twice exactly when no frame lies in two AVAILABLE entries. */
  lemma {:induction false} OverlapFree(rs: seq<MmapEntry>)
    ensures Overlap(rs) == 0 <==> PairwiseDisjoint(PageSets(rs))
  {
    if rs != [] {
      var n := |rs| - 1;
      OverlapFree(rs[..n]);
      CountInZero(rs[n].FirstPage(), rs[n].PageLimit(), Union(PageSets(rs[..n])));
      DisjointSnoc(PageSets(rs[..n]), rs[n].Pages());
    }
  }

  lemma {:induction false} PagesBelowMax(rs: seq<MmapEntry>, r: MmapEntry)
    requires r in rs
    ensures r.PageLimit() <= MaxEnd(rs) / PAGE_SIZE
  {
    var n := |rs| - 1;
    if r in rs[..n] {
      PagesBelowMax(rs[..n], r);
      assert MaxEnd(rs[..n]) <= MaxEnd(rs);
    } else {
      assert r == rs[n] && r.End() <= MaxEnd(rs);
    }
  }

  /** Every byte of a range is in a frame reserved for it exactly when the part of the first page before
      the range leaves room: rounding the start down can lose the last bytes. */
  lemma MarkedCovers(start: nat, bytes: nat, count: nat)
    requires bytes > 0
    ensures (forall a: nat :: start <= a < start + bytes ==> a / PAGE_SIZE in Marked(start, count))
            <==> start % PAGE_SIZE + bytes <= count * PAGE_SIZE
  {
    var last := start + bytes - 1;
    if start % PAGE_SIZE + bytes <= count * PAGE_SIZE {
      forall a: nat | start <= a < start + bytes ensures a / PAGE_SIZE in Marked(start, count) {
        assert a / PAGE_SIZE < start / PAGE_SIZE + count;
      }
    } else {
      assert last / PAGE_SIZE !in Marked(start, count);
    }
  }

  // ---- what stays reserved ------------------------------------------------------------------------------

  /** No byte of the range lies in a free frame. */
  ghost predicate Kept(free: set<nat>, start: nat, bytes: nat)
  {
    forall a: nat :: start <= a < start + bytes ==> a / 4096 !in free
  }

  lemma MarkedKept(free: set<nat>, start: nat, bytes: nat, count: nat)
    requires free !! Marked(start, count) && start % 4096 + bytes <= count * 4096
    ensures Kept(free, start, bytes)
  {
    if bytes > 0 { MarkedCovers(start, bytes, count); }
  }

  /** A boot module is covered by the pages marked for it exactly if its size and its rounding up fit in 32 bits, and
      the part of its first page before it leaves room. */
  lemma ModuleCovered(start: nat, end: nat)
    requires start < end
    ensures (forall a: nat :: start <= a < end ==> a / 4096 in Marked(start, ModulePages(start, end)))
            <==> && end - start + 4095 < 0x1_0000_0000
                 && start % 4096 + (end - start) <= (end - start + 4095) / 4096 * 4096
  {
    MarkedCovers(start, end - start, ModulePages(start, end));
    ModuleFits(start % 4096, end - start);
  }

  lemma ModuleFits(offset: nat, size: nat)
    requires size > 0
    ensures offset + size <= (size % TWO_32 + 4095) % TWO_32 / 4096 * 4096
            <==> size + 4095 < TWO_32 && offset + size <= (size + 4095) / 4096 * 4096
  {
    if size + 4095 >= TWO_32 {
      var pages := (size % TWO_32 + 4095) % TWO_32 / 4096;
      if size >= TWO_32 { assert pages * 4096 < TWO_32; } else { assert size % TWO_32 + 4095 < 2 * TWO_32; }
    }
  }

  lemma {:induction false} ModuleMarked(tags: seq<Tag>, t: nat)
    requires t < |tags| && tags[t].Module?
    ensures Marked(tags[t].start, ModulePages(tags[t].start, tags[t].end)) <= ModuleFrames(tags)
  {
    var n := |tags| - 1;
    if t < n { ModuleMarked(tags[..n], t); }
  }

  /** The boot module is kept. */
  ghost predicate ModuleKept(free: set<nat>, m: Tag)
    requires m.Module?
  {
    var size := m.end - m.start;
    size >= 0 && size + 4095 < 0x1_0000_0000 && m.start % 4096 + size <= (size + 4095) / 4096 * 4096 ==>
      Kept(free, m.start, size)
  }

  lemma ModuleIsKept(tags: seq<Tag>, free: set<nat>, t: nat)
    requires t < |tags| && tags[t].Module? && free !! ModuleFrames(tags)
    ensures ModuleKept(free, tags[t])
  {
    var m := tags[t];
    ModuleMarked(tags, t);
    if m.end > m.start { ModuleCovered(m.start, m.end); }
  }

  /** What the frame allocator must not hand out: the first MiB, the kernel image, the 64 pages at the boot information,
      the bitmap if the part of its first page before it leaves room, and every boot module that its pages cover. */
  ghost predicate Protected(free: set<nat>, tags: seq<Tag>, kernelStart: nat, kernelEnd: nat, mb2: nat, words: nat)
    requires kernelStart <= kernelEnd
  {
    && Kept(free, 0, 0x10_0000)
    && Kept(free, kernelStart, kernelEnd - kernelStart)
    && Kept(free, mb2 / 4096 * 4096, 64 * 4096)
    && (kernelEnd % 4096 + words * 4 <= (words * 4 / 4096 + 1) * 4096 ==> Kept(free, kernelEnd + 0x1000, words * 4))
    && forall t :: 0 <= t < |tags| && tags[t].Module? ==> ModuleKept(free, tags[t])
  }

  lemma ReservedProtects(free: set<nat>, tags: seq<Tag>, kernelStart: nat, kernelEnd: nat, mb2: nat, words: nat)
    requires kernelStart <= kernelEnd && free !! Reserved(tags, kernelStart, kernelEnd, mb2, words)
    ensures Protected(free, tags, kernelStart, kernelEnd, mb2, words)
  {
    MarkedKept(free, 0, 0x10_0000, 256);
    ImageFits(kernelStart % 4096, kernelEnd - kernelStart);
    MarkedKept(free, kernelStart, kernelEnd - kernelStart, (kernelEnd - kernelStart) / PAGE_SIZE + 2);
    assert Marked(mb2 / 4096 * 4096, 64) == Marked(mb2, 64);
    MarkedKept(free, mb2 / 4096 * 4096, 64 * 4096, 64);
    if kernelEnd % 4096 + words * 4 <= (words * 4 / 4096 + 1) * 4096 {
      MarkedKept(free, kernelEnd + 0x1000, words * 4, words * 4 / PAGE_SIZE + 1);
    }
    forall t | 0 <= t < |tags| && tags[t].Module? ensures ModuleKept(free, tags[t]) { ModuleIsKept(tags, free, t); }
  }

  lemma ImageFits(offset: nat, size: nat)
    requires offset < 4096
    ensures offset + size <= (size / 4096 + 2) * 4096
  {
  }

  /** Frame `f` is not one of the `count` frames from the one of `start` on. */
  predicate Clear(f: nat, start: nat, count: nat)
  {
    f < start / 4096 || f >= start / 4096 + count
  }

  /** The pages set aside at boot leave the frame alone. */
  ghost predicate Unclaimed(f: nat, tags: seq<Tag>, kernelStart: nat, kernelEnd: nat, mb2: nat, words: nat)
    requires kernelStart <= kernelEnd
  {
    && f >= 256
    && Clear(f, kernelStart, (kernelEnd - kernelStart) / 4096 + 2)
    && Clear(f, kernelEnd + 0x1000, words * 4 / 4096 + 1)
    && Clear(f, mb2, 64)
    && forall t :: 0 <= t < |tags| && tags[t].Module? ==>
         Clear(f, tags[t].start, ((tags[t].end - tags[t].start) % 0x1_0000_0000 + 4095) % 0x1_0000_0000 / 4096)
  }

  /** Some AVAILABLE entry of the memory map holds the whole frame. */
  ghost predicate InMemory(f: nat, tags: seq<Tag>)
  {
    exists t, k :: 0 <= t < |tags| && tags[t].Mmap? && 0 <= k < |tags[t].entries| && Holds(tags[t].entries[k], f)
  }

  predicate Holds(e: MmapEntry, f: nat)
  {
    e.available && e.addr <= f * 4096 && (f + 1) * 4096 <= e.addr + e.len
  }

  lemma HoldsPage(e: MmapEntry, f: nat)
    ensures Holds(e, f) <==> e.available && f in e.Pages()
  {
  }

  lemma {:induction false} AvailableHolds(es: seq<MmapEntry>, f: nat)
    ensures f in Union(PageSets(Available(es))) <==> exists k :: 0 <= k < |es| && Holds(es[k], f)
  {
    if es != [] {
      var n := |es| - 1;
      AvailableHolds(es[..n], f);
      HoldsPage(es[n], f);
      if es[n].available { SnocRegion(Available(es[..n]), es[n]); }
      assert forall k :: 0 <= k < n ==> es[..n][k] == es[k];
    }
  }

  lemma {:induction false} UnionConcat(a: seq<MmapEntry>, b: seq<MmapEntry>, f: nat)
    ensures f in Union(PageSets(a + b)) <==> f in Union(PageSets(a)) || f in Union(PageSets(b))
  {
    if b == [] {
      assert a + b == a;
    } else {
      var n := |b| - 1;
      var front, last := b[..n], b[n];
      UnionConcat(a, front, f);
      assert a + b == (a + front) + [last] && b == front + [last];
      UnionSnoc(a + front, last);
      UnionSnoc(front, last);
    }
  }

  lemma UnionSnoc(rs: seq<MmapEntry>, e: MmapEntry)
    ensures Union(PageSets(rs + [e])) == Union(PageSets(rs)) + e.Pages()
  {
    SnocRegion(rs, e);
  }

  lemma {:induction false} RegionsHold(tags: seq<Tag>, f: nat)
    ensures f in Union(PageSets(Regions(tags))) <==> InMemory(f, tags)
  {
    if tags != [] {
      var n := |tags| - 1;
      RegionsHold(tags[..n], f);
      assert forall t :: 0 <= t < n ==> tags[..n][t] == tags[t];
      if tags[n].Mmap? {
        UnionConcat(Regions(tags[..n]), Available(tags[n].entries), f);
        AvailableHolds(tags[n].entries, f);
      }
    }
  }

  lemma {:induction false} ModulesClear(tags: seq<Tag>, f: nat)
    ensures f !in ModuleFrames(tags) <==>
            forall t :: 0 <= t < |tags| && tags[t].Module? ==>
              Clear(f, tags[t].start, ((tags[t].end - tags[t].start) % 0x1_0000_0000 + 4095) % 0x1_0000_0000 / 4096)
  {
    if tags != [] {
      var n := |tags| - 1;
      ModulesClear(tags[..n], f);
      assert forall t :: 0 <= t < n ==> tags[..n][t] == tags[t];
    }
  }

  /** A frame is free after initialisation exactly if an AVAILABLE entry holds it whole and nothing claims it. */
  lemma FreeAtBoot(tags: seq<Tag>, kernelStart: nat, kernelEnd: nat, mb2: nat, words: nat, f: nat)
    requires kernelStart <= kernelEnd
    ensures f in Union(PageSets(Regions(tags))) - Reserved(tags, kernelStart, kernelEnd, mb2, words)
            <==> InMemory(f, tags) && Unclaimed(f, tags, kernelStart, kernelEnd, mb2, words)
  {
    RegionsHold(tags, f);
    ModulesClear(tags, f);
  }

  // ---- the allocator ------------------------------------------------------------------------------------

  /** The set bits of a bitmap below `total`. */
  ghost function SetBits(bm: seq<Word>, total: nat): set<nat>
  {
    set f: nat | f < total && Bit32(bm, f)
  }

  lemma WordSet(bm: seq<Word>, i: nat)
    requires i < |bm| && |bm[i]| == 32 && Full(bm[i])
    ensures forall f: nat :: 32 * i <= f < 32 * i + 32 ==> Bit32(bm, f)
  {
    forall f: nat | 32 * i <= f < 32 * i + 32 ensures Bit32(bm, f) {
      assert f / 32 == i;
    }
  }

  lemma FirstClear(bm: seq<Word>, i: nat)
    requires i < |bm| && |bm[i]| == 32 && !Full(bm[i])
    ensures var bit := LowestClear(bm[i]);
            !Bit32(bm, 32 * i + bit) && forall f: nat :: 32 * i <= f < 32 * i + bit ==> Bit32(bm, f)
  {
    var bit := LowestClear(bm[i]);
    assert (32 * i + bit) / 32 == i && (32 * i + bit) % 32 == bit;
    forall f: nat | 32 * i <= f < 32 * i + bit ensures Bit32(bm, f) {
      assert f / 32 == i && f % 32 < bit;
    }
  }

  lemma U64Step(x: int)
    ensures U64(U64(x) + 1) == U64(x + 1)
    ensures U64(U64(x) - 1) == U64(x - 1)
  {
    var q := x / TWO_64;
    assert U64(x) == x - TWO_64 * q;
    U64Shift(x + 1, q);
    U64Shift(x - 1, q);
  }

  lemma U64Shift(x: int, q: int)
    ensures U64(x - TWO_64 * q) == U64(x)
  {
    var p := x / TWO_64;
    assert x - TWO_64 * q == TWO_64 * (p - q) + x % TWO_64;
  }

  lemma {:induction false} RegionsContain(tags: seq<Tag>, t: nat)
    requires t < |tags| && tags[t].Mmap?
    ensures forall e :: e in Available(tags[t].entries) ==> e in Regions(tags)
  {
    var n := |tags| - 1;
    if t < n { RegionsContain(tags[..n], t); }
  }

  lemma SnocRegion(rs: seq<MmapEntry>, e: MmapEntry)
    ensures MaxEnd(rs + [e]) == if e.End() > MaxEnd(rs) then e.End() else MaxEnd(rs)
    ensures Union(PageSets(rs + [e])) == Union(PageSets(rs)) + e.Pages()
    ensures Overlap(rs + [e]) == Overlap(rs) + CountIn(e.FirstPage(), e.PageLimit(), Union(PageSets(rs)))
  {
    assert (rs + [e])[..|rs|] == rs;
    var ss := PageSets(rs);
    assert PageSets(rs + [e]) == ss + [e.Pages()];
    assert (ss + [e.Pages()])[..|ss|] == ss;
  }

  lemma {:induction false} AvailableMember(es: seq<MmapEntry>, k: nat)
    requires k < |es| && es[k].available
    ensures es[k] in Available(es)
  {
    var n := |es| - 1;
    if k < n { AvailableMember(es[..n], k); }
  }

  /** Adding one more entry of a tag to the entries met so far. */
  lemma SnocAvailable(before: seq<MmapEntry>, es: seq<MmapEntry>, k: nat)
    requires k < |es|
    ensures before + Available(es[..k + 1])
            == if es[k].available then before + Available(es[..k]) + [es[k]] else before + Available(es[..k])
  {
    assert es[..k + 1][..k] == es[..k];
  }

  /** `e` is an AVAILABLE entry of the memory map. */
  ghost predicate IsRegion(tags: seq<Tag>, e: MmapEntry)
  {
    e.available && exists t :: 0 <= t < |tags| && tags[t].Mmap? && e in tags[t].entries
  }

  lemma {:induction false} AvailableExact(es: seq<MmapEntry>, e: MmapEntry)
    ensures e in Available(es) <==> e.available && e in es
  {
    if es != [] {
      var n := |es| - 1;
      AvailableExact(es[..n], e);
      assert es == es[..n] + [es[n]];
    }
  }

  lemma {:induction false} RegionsExact(tags: seq<Tag>, e: MmapEntry)
    ensures e in Regions(tags) <==> IsRegion(tags, e)
  {
    if tags != [] {
      var n := |tags| - 1;
      RegionsExact(tags[..n], e);
      assert forall t :: 0 <= t < n ==> tags[..n][t] == tags[t];
      if tags[n].Mmap? { AvailableExact(tags[n].entries, e); }
    }
  }

  lemma {:induction false} MaxEndExact(rs: seq<MmapEntry>)
    ensures forall e :: e in rs ==> e.addr + e.len <= MaxEnd(rs)
    ensures MaxEnd(rs) == 0 || exists e :: e in rs && e.addr + e.len == MaxEnd(rs)
  {
    if rs != [] {
      var n := |rs| - 1;
      MaxEndExact(rs[..n]);
      assert rs == rs[..n] + [rs[n]];
    }
  }

  lemma HighestExact(tags: seq<Tag>)
    ensures forall e :: IsRegion(tags, e) ==> e.addr + e.len <= MaxEnd(Regions(tags))
    ensures MaxEnd(Regions(tags)) == 0 || exists e :: IsRegion(tags, e) && e.addr + e.len == MaxEnd(Regions(tags))
  {
    var rs := Regions(tags);
    MaxEndExact(rs);
    forall e ensures e in rs <==> IsRegion(tags, e) { RegionsExact(tags, e); }
  }

  method HighestIn(ghost before: seq<MmapEntry>, es: seq<MmapEntry>, sofar: nat) returns (memUpper: nat)
    requires sofar == MaxEnd(before)
    ensures memUpper == MaxEnd(before + Available(es))
  {
    memUpper := sofar;
    assert before + Available(es[..0]) == before;
    for k := 0 to |es|
      invariant memUpper == MaxEnd(before + Available(es[..k]))
    {
      SnocAvailable(before, es, k);
      if es[k].available {
        SnocRegion(before + Available(es[..k]), es[k]);
        if es[k].End() > memUpper {
          memUpper := es[k].End();
        }
      }
    }
    assert es[..|es|] == es;
  }

  /** The first pass: the highest end of an AVAILABLE entry. */
  method HighestEnd(tags: seq<Tag>) returns (memUpper: nat)
    ensures memUpper == MaxEnd(Regions(tags))
    ensures forall e :: IsRegion(tags, e) ==> e.addr + e.len <= memUpper
    ensures memUpper == 0 || exists e :: IsRegion(tags, e) && e.addr + e.len == memUpper
  {
    memUpper := 0;
    for t := 0 to |tags|
      invariant memUpper == MaxEnd(Regions(tags[..t]))
    {
      assert tags[..t + 1][..t] == tags[..t];
      if tags[t].Mmap? {
        memUpper := HighestIn(Regions(tags[..t]), tags[t].entries, memUpper);
      }
    }
    assert tags[..|tags|] == tags;
    HighestExact(tags);
  }

  lemma CountSnoc(lo: nat, hi: nat, s: set<nat>)
    requires lo <= hi
    ensures CountIn(lo, hi + 1, s) == CountIn(lo, hi, s) + if hi in s then 1 else 0
  {
  }

  class FrameAllocator {
    const bitmap: array<Word>
    const totalFrames: nat
    var usedFrames: nat
    /** How often initialisation counted one frame twice: zero unless AVAILABLE entries overlap. */
    ghost var excess: nat

    /** The frames below `totalFrames` whose bit is clear. */
    ghost var free: set<nat>

    /** One bit per frame, and every bit past the last frame set. */
    ghost predicate Shape()
      reads this, bitmap
    {
      && bitmap.Length == totalFrames / 32 + 1
      && (forall i :: 0 <= i < bitmap.Length ==> |bitmap[i]| == 32)
      && (forall f :: f in free ==> f < totalFrames)
      && (forall f: nat {:trigger Bit32(bitmap[..], f)} ::
            f < 32 * bitmap.Length ==> (Bit32(bitmap[..], f) <==> f !in free))
    }

    ghost function FreeCount(): nat
      reads this
    {
      CountIn(0, totalFrames, free)
    }

    /** How many frames can be had before a call fails. Frame 0 has the address that stands for failure, and being the
        lowest it comes first when it is free. */
    ghost function Usable(): nat
      reads this
    {
      if 0 in free then 0 else FreeCount()
    }

    ghost predicate Counted()
      reads this, bitmap
    {
      Shape() && usedFrames == U64(totalFrames - FreeCount() - excess)
    }

    ghost predicate Valid()
      reads this, bitmap
    {
      Shape() && usedFrames == totalFrames - FreeCount()
    }

    /** In a valid state the count of used frames is the number of set bits below `totalFrames`. */
    lemma UsedIsSetBits()
      requires Shape()
      ensures |SetBits(bitmap[..], totalFrames)| == totalFrames - FreeCount()
      ensures Valid() <==> usedFrames == |SetBits(bitmap[..], totalFrames)|
    {
      RangeSize(0, totalFrames);
      CountSize(totalFrames, free);
      assert SetBits(bitmap[..], totalFrames) == Range(0, totalFrames) - free;
      assert free <= Range(0, totalFrames);
    }

    /** After initialisation the count is right exactly when nothing was counted twice. */
    lemma CountedIsValid()
      requires Counted() && totalFrames < TWO_64 && excess < TWO_64
      ensures Valid() <==> excess == 0
    {
      CountSize(totalFrames, free);
    }

    method PutBit(k: nat, v: bool)
      requires Shape() && k < totalFrames
      modifies this`free, bitmap
      ensures Shape()
      ensures free == if v then old(free) - {k} else old(free) + {k}
      ensures FreeCount() == old(FreeCount()) + if v == (k !in old(free)) then 0 else if v then -1 else 1
    {
      ghost var bm := bitmap[..];
      bitmap[k / 32] := bitmap[k / 32][k % 32 := v];
      assert bitmap[..] == Put32(bm, k, v);
      if v && k in free {
        CountAdd(0, totalFrames, free - {k}, k);
        assert free == free - {k} + {k};
      } else if !v && k !in free {
        CountAdd(0, totalFrames, free, k);
      } else {
        assert free == if v then free - {k} else free + {k};
      }
      free := if v then free - {k} else free + {k};
      forall f: nat | f < 32 * bitmap.Length ensures Bit32(bitmap[..], f) <==> f !in free {
        Put32At(bm, k, v, f);
        assert Bit32(bm, f) <==> f !in old(free);
      }
    }

    method MarkFrame(frame: nat)
      requires Counted()
      modifies this`usedFrames, this`free, bitmap
      ensures Counted() && free == old(free) - {frame}
    {
      if frame < totalFrames {
        var used := bitmap[frame / 32][frame % 32];
        assert used == Bit32(bitmap[..], frame);
        if !used {
          U64Step(totalFrames - FreeCount() - excess);
          PutBit(frame, true);
          usedFrames := U64(usedFrames + 1);
        }
      }
    }

    method MarkUsed(start: nat, count: nat)
      requires Counted()
      modifies this`usedFrames, this`free, bitmap
      ensures Counted()
      ensures free == old(free) - Marked(start, count)
    {
      var base := start / PAGE_SIZE;
      for i := 0 to count
        invariant Counted()
        invariant forall f :: f in free <==> f in old(free) && !Within(base, f, base + i)
      {
        MarkFrame(base + i);
      }
    }

    /** Initialisation clears a bit and counts down without looking at the bit. */
    method ReleaseFrame(frame: nat)
      requires Counted() && frame < totalFrames
      modifies this`usedFrames, this`free, this`excess, bitmap
      ensures Counted() && free == old(free) + {frame}
      ensures excess == old(excess) + if frame in old(free) then 1 else 0
    {
      U64Step(totalFrames - FreeCount() - excess);
      ghost var twice := frame in free;
      PutBit(frame, false);
      usedFrames := U64(usedFrames - 1);
      excess := excess + if twice then 1 else 0;
    }

    method ReleaseRange(first: nat, end: nat)
      requires Counted() && (first < end ==> end <= totalFrames)
      modifies this`usedFrames, this`free, this`excess, bitmap
      ensures Counted() && free == old(free) + Range(first, end)
      ensures excess == old(excess) + CountIn(first, end, old(free))
    {
      if first < end {
        for a := first to end
          invariant Counted() && forall f :: f in free <==> f in old(free) || Within(first, f, a)
          invariant excess == old(excess) + CountIn(first, a, old(free))
        {
          CountSnoc(first, a, old(free));
          ReleaseFrame(a);
        }
      }
    }

    /** The frames released so far are those of the AVAILABLE entries met so far. */
    ghost predicate Released(met: seq<MmapEntry>)
      reads this, bitmap
    {
      Counted() && free == Union(PageSets(met)) && excess == Overlap(met)
    }

    method ReleaseEntry(ghost met: seq<MmapEntry>, e: MmapEntry)
      requires Released(met) && e.PageLimit() <= totalFrames
      modifies this`usedFrames, this`free, this`excess, bitmap
      ensures Released(met + [e])
    {
      SnocRegion(met, e);
      ReleaseRange(e.FirstPage(), e.PageLimit());
    }

    method ReleaseAvailable(ghost met: seq<MmapEntry>, es: seq<MmapEntry>)
      requires Released(met) && forall e :: e in Available(es) ==> e.PageLimit() <= totalFrames
      modifies this`usedFrames, this`free, this`excess, bitmap
      ensures Released(met + Available(es))
    {
      assert met + Available(es[..0]) == met;
      for k := 0 to |es|
        invariant Released(met + Available(es[..k]))
      {
        SnocAvailable(met, es, k);
        if es[k].available {
          AvailableMember(es, k);
          ReleaseEntry(met + Available(es[..k]), es[k]);
        }
      }
      assert es[..|es|] == es;
    }

    /** The second pass: clears the bits of the AVAILABLE entries. */
    method ReleaseAll(tags: seq<Tag>)
      requires Released([]) && totalFrames == MaxEnd(Regions(tags)) / PAGE_SIZE
      modifies this`usedFrames, this`free, this`excess, bitmap
      ensures Released(Regions(tags))
    {
      for t := 0 to |tags|
        invariant Released(Regions(tags[..t]))
      {
        assert tags[..t + 1][..t] == tags[..t];
        if tags[t].Mmap? {
          RegionsContain(tags, t);
          forall e | e in Available(tags[t].entries) ensures e.PageLimit() <= totalFrames {
            PagesBelowMax(Regions(tags), e);
          }
          ReleaseAvailable(Regions(tags[..t]), tags[t].entries);
        }
      }
      assert tags[..|tags|] == tags;
    }

    /** The third pass: marks the boot modules used. */
    method ReserveModules(tags: seq<Tag>)
      requires Counted()
      modifies this`usedFrames, this`free, bitmap
      ensures Counted() && free == old(free) - ModuleFrames(tags)
    {
      for t := 0 to |tags|
        invariant Counted() && free == old(free) - ModuleFrames(tags[..t])
      {
        assert tags[..t + 1][..t] == tags[..t];
        if tags[t].Module? {
          MarkUsed(tags[t].start, ModulePages(tags[t].start, tags[t].end));
        }
      }
      assert tags[..|tags|] == tags;
    }

    method Reserve(tags: seq<Tag>, kernelStart: nat, kernelEnd: nat, mb2: nat)
      requires Counted() && kernelStart <= kernelEnd
      modifies this`usedFrames, this`free, bitmap
      ensures Counted()
      ensures free == old(free) - Reserved(tags, kernelStart, kernelEnd, mb2, bitmap.Length)
      ensures Protected(free, tags, kernelStart, kernelEnd, mb2, bitmap.Length)
    {
      MarkUsed(0, 256);
      MarkUsed(kernelStart, (kernelEnd - kernelStart) / PAGE_SIZE + 2);
      MarkUsed(kernelEnd + 0x1000, bitmap.Length * 4 / PAGE_SIZE + 1);
      MarkUsed(mb2, 64);
      ReserveModules(tags);
      ReservedProtects(free, tags, kernelStart, kernelEnd, mb2, bitmap.Length);
    }

    /** A bitmap with every frame in use. */
    constructor AllUsed(total: nat)
      ensures fresh(bitmap) && Released([]) && totalFrames == total
    {
      totalFrames := total;
      bitmap := new Word[total / 32 + 1](_ => seq(32, _ => true));
      usedFrames := U64(total);
      free, excess := {}, 0;
      new;
      CountSize(totalFrames, {});
    }

    /** Sets up the bitmap from the boot information: free are exactly the whole pages of the AVAILABLE
        entries outside the reserved ranges. Addresses are physical. */
    static method FromMultiboot(tags: seq<Tag>, kernelStart: nat, kernelEnd: nat, mb2: nat)
      returns (a: FrameAllocator)
      requires kernelStart <= kernelEnd
      ensures fresh(a) && fresh(a.bitmap) && a.Counted()
      ensures a.totalFrames == MaxEnd(Regions(tags)) / PAGE_SIZE
      ensures Protected(a.free, tags, kernelStart, kernelEnd, mb2, a.totalFrames / 32 + 1)
      ensures forall f: nat :: f in a.free <==>
                InMemory(f, tags) && Unclaimed(f, tags, kernelStart, kernelEnd, mb2, a.totalFrames / 32 + 1)
      ensures a.excess == Overlap(Regions(tags))
      ensures 0 !in a.free
    {
      var memUpper := HighestEnd(tags);
      a := new FrameAllocator.AllUsed(memUpper / PAGE_SIZE);
      a.ReleaseAll(tags);
      a.Reserve(tags, kernelStart, kernelEnd, mb2);
      forall f: nat ensures f in a.free <==>
          InMemory(f, tags) && Unclaimed(f, tags, kernelStart, kernelEnd, mb2, a.totalFrames / 32 + 1) {
        FreeAtBoot(tags, kernelStart, kernelEnd, mb2, a.totalFrames / 32 + 1, f);
      }
    }

    /** Frees a frame in use. The count stays as far off as initialisation left it. */
    method FreeFrame(frame: nat)
      requires Counted()
      modifies this`usedFrames, this`free, bitmap
      ensures Counted()
      ensures free == if frame < totalFrames then old(free) + {frame} else old(free)
      ensures frame == 0 < totalFrames ==> Usable() == 0
    {
      if frame < totalFrames {
        var used := bitmap[frame / 32][frame % 32];
        assert used == Bit32(bitmap[..], frame);
        if used {
          U64Step(totalFrames - FreeCount() - excess);
          PutBit(frame, false);
          usedFrames := U64(usedFrames - 1);
        }
      }
    }

    /** The search through the bitmap, word by word. */
    method LowestFree() returns (r: Option<nat>)
      requires Shape()
      ensures r.None? <==> free == {}
      ensures r.Some? ==> r.value in free && forall f :: f in free ==> r.value <= f
    {
      for i := 0 to bitmap.Length
        invariant forall f: nat :: f < 32 * i ==> Bit32(bitmap[..], f)
      {
        if !Full(bitmap[i]) {
          FirstClear(bitmap[..], i);
          var frame := i * 32 + LowestClear(bitmap[i]);
          if frame < totalFrames {
            ghost var bm := bitmap[..];
            assert frame in free && forall f :: f in free ==> !Bit32(bm, f);
            return Some(frame);
          }
        }
        WordSet(bitmap[..], i);
      }
      ghost var bm := bitmap[..];
      assert forall f :: f in free ==> !Bit32(bm, f);
      return None;
    }

    /** Takes the lowest free frame and returns its address; nothing is taken exactly when no frame is free. Address 0
        stands for failure: the call succeeds if and only if a frame is free and the lowest free one is not frame 0,
        which otherwise is taken all the same. */
    method AllocFrame() returns (addr: nat, taken: Option<nat>)
      requires Counted()
      modifies this`usedFrames, this`free, bitmap
      ensures Counted()
      ensures addr != 0 <==> old(free) != {} && 0 !in old(free)
      ensures addr != 0 <==> old(Usable()) > 0
      ensures addr == if taken.Some? then taken.value * PAGE_SIZE else 0
      ensures taken.None? <==> old(free) == {}
      ensures taken.None? ==> free == old(free) && usedFrames == old(usedFrames)
      ensures taken.Some? ==> taken.value in old(free) && free == old(free) - {taken.value}
      ensures taken.Some? ==> FreeCount() == old(FreeCount()) - 1 && usedFrames == U64(old(usedFrames) + 1)
      ensures taken.Some? ==> forall f :: f in old(free) ==> taken.value <= f
      ensures addr != 0 ==> Usable() == old(Usable()) - 1
    {
      CountInZero(0, totalFrames, free);
      taken := LowestFree();
      if taken.None? {
        return 0, None;
      }
      assert taken.value in Range(0, totalFrames);
      U64Step(totalFrames - FreeCount() - excess);
      PutBit(taken.value, true);
      usedFrames := U64(usedFrames + 1);
      return taken.value * PAGE_SIZE, taken;
    }
  }
}
