/** The kernel break over the page tables: every page takes a frame, and the tables it needs take more. The outcome of
    the map call is not looked at. */
module Growth {
  import opened Common
  import opened PageTables
  import opened Paging
  import Vmm

  function PageEntry(f: nat): Word64
  {
    Word64(f, Flags(true, true, false, 0))
  }

  /** The page of the break after `i` pages. */
  lemma BreakPage(brk: nat, i: nat)
    ensures Indices(Vmm.Moved(brk, i)) == PageAt(brk / PAGE_SIZE + i)
  {
    var n := brk / PAGE_SIZE + i;
    OffsetPage(n, brk % PAGE_SIZE);
    assert brk + i * PAGE_SIZE == 0x1000 * n + brk % PAGE_SIZE;
    SamePage(Vmm.Moved(brk, i) / 0x1000, n);
  }

  lemma OffsetPage(n: nat, r: nat)
    requires r < 0x1000
    ensures (0x1000 * n + r) % TWO_64 / 0x1000 % 0x10_0000_0000 == n % 0x10_0000_0000
  {
    var q, m := n / 0x10_0000_0000_0000, n % 0x10_0000_0000_0000;
    OffsetWrap(q, m, r);
    WrapPage(n);
    OffsetWrap(q, m, 0);
  }

  lemma OffsetWrap(q: nat, m: nat, r: nat)
    requires m < 0x10_0000_0000_0000 && r < 0x1000
    ensures (0x1000 * (0x10_0000_0000_0000 * q + m) + r) % TWO_64 / 0x1000 == m
  {
    assert 0x1000 * (0x10_0000_0000_0000 * q + m) + r == TWO_64 * q + (0x1000 * m + r);
    assert (TWO_64 * q + (0x1000 * m + r)) % TWO_64 == 0x1000 * m + r;
  }

  // ---- one page -----------------------------------------------------------------------------------------

  ghost function Taken(pl: Plan): Plan
    requires pl.free != {}
  {
    pl.(free := pl.free - {Lowest(pl.free)})
  }

  /** The page `n` takes a frame, if one can be had, and the map call takes what it can get for the tables. */
  ghost function AfterPage(pl: Plan, n: nat): Plan
  {
    if Usable(pl.free) == 0 then pl else AfterMap(Taken(pl), PageAt(n), PageEntry(Lowest(pl.free)))
  }

  /** The page gets mapped: after its frame there are frames left for all missing tables. */
  ghost predicate Fits(pl: Plan, n: nat)
  {
    Missing(pl.at, PageAt(n), 0) < Usable(pl.free)
  }

  /** The frame for the page is reached as itself, and mapping the page is safe. */
  ghost predicate SafePage(pl: Plan, n: nat)
  {
    pl.free != {} ==>
      && Sees(pl.flat, Lowest(pl.free))
      && (Lowest(pl.free) != 0 ==> SafeMap(false, Taken(pl), PageAt(n), PageEntry(Lowest(pl.free))))
  }

  /** Takes a frame that is reached as itself. */
  method TakeFrame(a: AddressSpace, ghost pl: Plan) returns (frame: Option<nat>)
    requires a.Valid() && !a.boot && a.State() == pl && (pl.free != {} ==> Sees(pl.flat, Lowest(pl.free)))
    modifies a`mem, a`space, a.pfa, a.pfa.bitmap
    ensures frame.Some? <==> Usable(pl.free) > 0
    ensures frame.Some? ==>
              pl.free != {} && frame.value == Lowest(pl.free) && a.Valid() && a.State() == Taken(pl)
  {
    ghost var m, s := a.M(), a.space;
    var fault;
    fault, frame := a.Alloc();
    if fault || frame.None? {
      if m.free != {} { ghost var m', s' := AllocRefines(m, s); }
      return None;
    }
    ghost var m', s' := AllocRefines(m, s);
    a.space := s';
  }

  /** One page: nothing is mapped when no frame can be had; otherwise the page is mapped to the frame if there are
      frames for the missing tables, and is left as it was, with the frame lost, if there are not. */
  method MapBreak(a: AddressSpace, ghost pl: Plan, n: nat) returns (got: bool)
    requires a.Valid() && !a.boot && a.State() == pl && SafePage(pl, n)
    modifies a`mem, a`space, a.pfa, a.pfa.bitmap
    ensures got <==> Usable(pl.free) > 0
    ensures got ==> a.Valid() && a.State() == AfterPage(pl, n)
  {
    var frame := TakeFrame(a, pl);
    if frame.None? {
      return false;
    }
    var crashed, ok := a.MapEntry(PageAt(n), PageEntry(frame.value), PageEntry(0));
    return true;
  }

  // ---- a call -------------------------------------------------------------------------------------------

  /** The state when `i` pages from page `n` on have been taken. */
  ghost function StateAt(pl: Plan, n: nat, i: nat): Plan
  {
    if i == 0 then pl else AfterPage(StateAt(pl, n, i - 1), n + i - 1)
  }

  /** There is a frame for page `i` when its turn comes. */
  ghost predicate GotAt(pl: Plan, n: nat, i: nat)
  {
    Usable(StateAt(pl, n, i).free) > 0
  }

  ghost predicate SafeAt(pl: Plan, n: nat, i: nat)
  {
    SafePage(StateAt(pl, n, i), n + i)
  }

  ghost predicate AllGot(pl: Plan, n: nat, k: nat)
  {
    forall i: nat :: i < k ==> GotAt(pl, n, i)
  }

  ghost predicate CanGrow(pl: Plan, n: nat, k: nat)
  {
    forall i: nat :: i < k ==> SafeAt(pl, n, i)
  }

  lemma StateNext(pl: Plan, n: nat, i: nat)
    ensures StateAt(pl, n, i + 1) == AfterPage(StateAt(pl, n, i), n + i)
  {
  }

  method MapNext(a: AddressSpace, ghost pl: Plan, n: nat, i: nat) returns (got: bool)
    requires a.Valid() && !a.boot && a.State() == StateAt(pl, n, i) && SafeAt(pl, n, i)
    modifies a`mem, a`space, a.pfa, a.pfa.bitmap
    ensures got <==> GotAt(pl, n, i)
    ensures got ==> a.Valid() && a.State() == StateAt(pl, n, i + 1)
  {
    ghost var now, next := StateAt(pl, n, i), StateAt(pl, n, i + 1);
    assert next == AfterPage(now, n + i) by { StateNext(pl, n, i); }
    got := MapBreak(a, now, n + i);
  }

  /** The loop of `sbrk`: it succeeds exactly when there is a frame for every page, mapped or not. */
  method MapBreaks(a: AddressSpace, n: nat, pages: nat) returns (ok: bool)
    requires a.Valid() && !a.boot && CanGrow(a.State(), n, pages)
    modifies a`mem, a`space, a.pfa, a.pfa.bitmap
    ensures ok <==> AllGot(old(a.State()), n, pages)
    ensures ok ==> a.Valid() && a.State() == StateAt(old(a.State()), n, pages)
  {
    ghost var pl := a.State();
    for i := 0 to pages
      invariant a.Valid() && a.State() == StateAt(pl, n, i) && AllGot(pl, n, i)
    {
      assert SafeAt(pl, n, i);
      var got := MapNext(a, pl, n, i);
      if !got {
        return false;
      }
    }
    return true;
  }

  // ---- what it leaves behind ----------------------------------------------------------------------------

  ghost function Look(flat: map<Path, Word64>, p: Path): Option<Word64>
  {
    if p in flat then Some(flat[p]) else None
  }

  lemma PageStep(pl: Plan, n: nat, p: Path)
    ensures AfterPage(pl, n).free <= pl.free
    ensures if p == PageAt(n) && Fits(pl, n)
            then pl.free != {} && Look(AfterPage(pl, n).flat, p) == Some(PageEntry(Lowest(pl.free)))
            else Look(AfterPage(pl, n).flat, p) == Look(pl.flat, p)
  {
    if Usable(pl.free) > 0 {
      TakenOne(pl.free);
      OpensExact(pl.at, Taken(pl).free, PageAt(n), 0);
    }
  }

  lemma PagesApart(n: nat, j: nat)
    requires n < j < n + 0x10_0000_0000
    ensures PageAt(n) != PageAt(j)
  {
    SamePage(n, j);
  }

  /** Before its turn a page is what it was. */
  lemma {:induction false} Untouched(pl: Plan, n: nat, i: nat, j: nat)
    requires i <= j < 0x10_0000_0000
    ensures StateAt(pl, n, i).free <= pl.free
    ensures Look(StateAt(pl, n, i).flat, PageAt(n + j)) == Look(pl.flat, PageAt(n + j))
  {
    if i > 0 {
      Untouched(pl, n, i - 1, j);
      PagesApart(n + i - 1, n + j);
      PageStep(StateAt(pl, n, i - 1), n + i - 1, PageAt(n + j));
    }
  }

  ghost predicate LeftAs(free: set<nat>, before: Option<Word64>, fits: bool, after: Option<Word64>)
  {
    if fits then after.Some? && after.value.hi in free && IsKernelData(after.value.lo) else after == before
  }

  /** After the call the page `j` leads to a frame that was free, if when its turn came there were frames for the
      missing tables; otherwise it is what it was, although the call may have succeeded. */
  lemma {:induction false} GrownAt(pl: Plan, n: nat, k: nat, j: nat)
    requires j < k <= 0x10_0000_0000
    ensures LeftAs(pl.free, Look(pl.flat, PageAt(n + j)), Fits(StateAt(pl, n, j), n + j),
                   Look(StateAt(pl, n, k).flat, PageAt(n + j)))
  {
    var last := StateAt(pl, n, k - 1);
    PageStep(last, n + k - 1, PageAt(n + j));
    if j == k - 1 {
      Untouched(pl, n, j, j);
    } else {
      PagesApart(n + j, n + k - 1);
      GrownAt(pl, n, k - 1, j);
    }
  }
}
