/** The kernel break. Growth goes page by page and stops part-way when the frames run out. */
module Vmm {
  import opened Common

  /** Whole pages for `n` bytes, in 64-bit arithmetic. */
  function PagesFor(n: nat): nat
  {
    (n + (PAGE_SIZE - 1)) % TWO_64 / PAGE_SIZE
  }

  /** A break moved up by `k` pages, in 64-bit arithmetic. */
  function Moved(brk: nat, k: nat): (r: nat)
    ensures r < TWO_64
  {
    (brk + k * PAGE_SIZE) % TWO_64
  }

  lemma MovedNext(brk: nat, k: nat)
    ensures (Moved(brk, k) + PAGE_SIZE) % TWO_64 == Moved(brk, k + 1)
  {
  }

  /** The break moves up exactly if it does not wrap around. */
  lemma MovedRoom(brk: nat, k: nat)
    ensures Moved(brk, k) == brk + k * PAGE_SIZE <==> brk + k * PAGE_SIZE < TWO_64
  {
  }

  class Vmm {
    var brk: nat
    var allocatedBytes: nat
    /** How many pages the frame allocator can still provide. */
    var frames: nat

    constructor (brk: nat, frames: nat)
      requires brk < TWO_64
      ensures this.brk == brk && this.frames == frames && allocatedBytes == 0
    {
      this.brk := brk;
      this.frames := frames;
      allocatedBytes := 0;
    }

    /** Moves the break by as many pages as there are frames for, up to those needed, and succeeds when it
        got them all. A failed call keeps the pages it got, and the statistics count every page asked for. The
        break is a 64-bit number, and wraps around at the end of the address space. */
    method Sbrk(n: nat) returns (r: Option<nat>)
      requires n < TWO_64 && brk < TWO_64
      modifies this
      ensures brk < TWO_64
      ensures old(brk) == 0 || n == 0 ==> unchanged(this) && r == if brk == 0 then None else Some(brk)
      ensures old(brk) != 0 && n != 0 ==>
                var got := Min(PagesFor(n), old(frames));
                && brk == Moved(old(brk), got) && frames == old(frames) - got
                && allocatedBytes == (old(allocatedBytes) + PagesFor(n) * PAGE_SIZE) % TWO_64
                && r == (if got == PagesFor(n) then Some(old(brk)) else None)
    {
      if brk == 0 { return None; }
      var oldBreak := brk;
      if n == 0 { return Some(oldBreak); }
      var pages := PagesFor(n);
      allocatedBytes := (allocatedBytes + pages * PAGE_SIZE) % TWO_64;
      for i := 0 to pages
        invariant i <= old(frames) && frames == old(frames) - i
        invariant brk == Moved(oldBreak, i)
        invariant allocatedBytes == (old(allocatedBytes) + pages * PAGE_SIZE) % TWO_64
      {
        if frames == 0 { return None; }
        frames := frames - 1;
        MovedNext(oldBreak, i);
        brk := (brk + PAGE_SIZE) % TWO_64;
      }
      return Some(oldBreak);
    }
  }
}
