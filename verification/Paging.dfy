/** The kernel's own access to its page tables. It reaches every frame through a page of the direct map, and that page
    is translated by the very tables it edits. */
module Paging {
  import opened Bits
  import opened Common
  import opened Frames
  import opened PageTables

  /** Where the direct map begins. */
  const OFFSET: nat := 0xFFFF_FFFF_8000_0000

  /** Bits 12 to 51 of an entry are the frame; the processor takes no others for it. */
  const FRAME_LIMIT: nat := 0x100_0000_0000

  /** The page of the direct map that stands for a frame. */
  function Window(f: nat): (p: Path)
    ensures IsPage(p)
  {
    PageAt(f + 0xF_FFFF_FFF8_0000)
  }

  /** It is the page of the frame's address plus the offset, in 64-bit arithmetic. */
  lemma WindowIs(f: nat)
    ensures Window(f) == Indices((f * PAGE_SIZE + OFFSET) % TWO_64)
  {
    assert f * PAGE_SIZE + OFFSET == 0x1000 * (f + 0xF_FFFF_FFF8_0000);
    WrapPage(f + 0xF_FFFF_FFF8_0000);
    SamePage(f + 0xF_FFFF_FFF8_0000, (f * PAGE_SIZE + OFFSET) % TWO_64 / 0x1000);
  }

  lemma WrapPage(n: nat)
    ensures 0x1000 * n % TWO_64 / 0x1000 % 0x10_0000_0000 == n % 0x10_0000_0000
  {
    var q := n / 0x10_0000_0000_0000;
    var r := n % 0x10_0000_0000_0000;
    assert 0x1000 * n == TWO_64 * q + 0x1000 * r;
    assert 0x1000 * n % TWO_64 == 0x1000 * r;
    assert n == 0x10_0000_0000 * (0x1_0000 * q) + r;
  }

  function Target(e: Word64): nat
  {
    e.hi % FRAME_LIMIT
  }

  predicate IsRam(mem: Memory, f: nat)
  {
    f in mem && |mem[f]| == 512
  }

  /** The frame the code reaches when it means frame `f`: the one that the window of `f` is mapped to, or none, when
      the access faults. While the boot loader's tables are loaded, every window leads to its frame. */
  function Reach(mem: Memory, root: nat, boot: bool, f: nat): (r: Option<nat>)
    ensures r.Some? ==> IsRam(mem, r.value)
  {
    if boot then if IsRam(mem, f) then Some(f) else None
    else match Walk(mem, root, Window(f))
      case None => None
      case Some(e) => if IsRam(mem, Target(e)) then Some(Target(e)) else None
  }

  // ---- what the code does -------------------------------------------------------------------------------

  /** Memory by frames, the root table, the free frames, and whether the boot loader's tables are still loaded. */
  datatype Machine = Machine(mem: Memory, root: nat, free: set<nat>, boot: bool)

  function Seen(m: Machine, f: nat): (r: Option<nat>)
    ensures r.Some? ==> IsRam(m.mem, r.value)
  {
    Reach(m.mem, m.root, m.boot, f)
  }

  function PutEntry(m: Machine, x: nat, i: nat, e: Word64): Machine
    requires IsRam(m.mem, x) && i < 512
  {
    m.(mem := m.mem[x := m.mem[x][i := e]])
  }

  ghost predicate IsLowest(s: set<nat>, l: nat)
  {
    l in s && forall x :: x in s ==> l <= x
  }

  lemma {:induction false} LowestExists(s: set<nat>, x: nat)
    requires x in s
    ensures exists l :: IsLowest(s, l)
  {
    if !IsLowest(s, x) {
      var y :| y in s && y < x;
      LowestExists(s, y);
    }
  }

  ghost function Lowest(s: set<nat>): (l: nat)
    requires s != {}
    ensures IsLowest(s, l)
  {
    var x :| x in s;
    LowestExists(s, x);
    var l :| IsLowest(s, l);
    l
  }

  datatype Allocated = AllocFault | NoFrame(m: Machine) | Frame(m: Machine, f: nat)

  /** Takes the lowest free frame and zeroes whatever it reaches as that frame. Address 0 reads as failure. */
  ghost function CodeAlloc(m: Machine): Allocated
  {
    if m.free == {} then NoFrame(m)
    else
      var f := Lowest(m.free);
      match Seen(m, f)
      case None => AllocFault
      case Some(y) =>
        var m1 := m.(mem := m.mem[y := Zeroed()], free := m.free - {f});
        if f == 0 then NoFrame(m1) else Frame(m1, f)
  }

  /** An upper entry opened to what `flags` asks for. */
  function Opened(e: Word64, flags: Word64): Word64
  {
    e.(lo := e.lo.(user := e.lo.user || flags.lo.user, rw := e.lo.rw || flags.lo.rw))
  }

  function TableEntry(f: nat, flags: Word64): Word64
  {
    Word64(f, Flags(true, true, flags.lo.user, 0))
  }

  /** How the way down ends: in a page fault, without a table, or at one. */
  datatype Reached = Fault | Stopped(m: Machine) | Table(m: Machine, table: nat)

  /** Hangs a new table into entry `i` of what is reached as table `t`, and reads the entry back. */
  ghost function CodeNew(m: Machine, t: nat, i: nat, flags: Word64): Reached
    requires i < 512
  {
    match CodeAlloc(m)
    case AllocFault => Fault
    case NoFrame(m1) => Stopped(m1)
    case Frame(m1, f) =>
      match Seen(m1, t)
      case None => Fault
      case Some(x) =>
        var m2 := PutEntry(m1, x, i, TableEntry(f, flags));
        match Seen(m2, t)
        case None => Fault
        case Some(y) => Table(m2, m2.mem[y][i].hi)
  }

  /** One level of the way down. */
  ghost function CodeStep(m: Machine, t: nat, i: nat, create: bool, flags: Word64): Reached
    requires i < 512
  {
    match Seen(m, t)
    case None => Fault
    case Some(x) =>
      var e := m.mem[x][i];
      if e.lo.present then Table(if Opened(e, flags) == e then m else PutEntry(m, x, i, Opened(e, flags)), e.hi)
      else if create then CodeNew(m, t, i, flags)
      else Stopped(m)
  }

  /** From the level-`n` table `t` to the leaf table of the page `p`. */
  ghost function CodeWalk(m: Machine, p: Path, n: nat, t: nat, create: bool, flags: Word64): Reached
    requires IsPage(p) && n <= 3
    decreases |p| - n
  {
    if n == 3 then Table(m, t)
    else match CodeStep(m, t, p[n], create, flags)
      case Fault => Fault
      case Stopped(m1) => Stopped(m1)
      case Table(m1, t1) => CodeWalk(m1, p, n + 1, t1, create, flags)
  }

  datatype Outcome = Crash | Ended(m: Machine, ok: bool)

  ghost function CodeMap(m: Machine, p: Path, e: Word64, flags: Word64): Outcome
    requires IsPage(p)
  {
    match CodeWalk(m, p, 0, m.root, true, flags)
    case Fault => Crash
    case Stopped(m1) => Ended(m1, false)
    case Table(m1, t) =>
      match Seen(m1, t)
      case None => Crash
      case Some(x) => Ended(PutEntry(m1, x, p[3], e), true)
  }

  ghost function CodeUnmap(m: Machine, p: Path): Outcome
    requires IsPage(p)
  {
    match CodeWalk(m, p, 0, m.root, false, ZERO)
    case Fault => Crash
    case Stopped(m1) => Ended(m1, true)
    case Table(m1, t) =>
      match Seen(m1, t)
      case None => Crash
      case Some(x) => Ended(if m1.mem[x][p[3]].lo.present then PutEntry(m1, x, p[3], ZERO) else m1, true)
  }

  /** The leaf entry the code finds for the page `p`; the outer `None` is a page fault. */
  ghost function CodeLookup(m: Machine, p: Path): Option<Option<Word64>>
    requires IsPage(p)
  {
    match CodeWalk(m, p, 0, m.root, false, ZERO)
    case Fault => None
    case Stopped(_) => Some(None)
    case Table(m1, t) =>
      match Seen(m1, t)
      case None => None
      case Some(x) => Some(if m1.mem[x][p[3]].lo.present then Some(m1.mem[x][p[3]]) else None)
  }

  /** Whether every level from `n` on is present and USER; `None` is a page fault. */
  ghost function CodeUser(m: Machine, p: Path, n: nat, t: nat): Option<bool>
    requires IsPage(p) && n <= 3
    decreases |p| - n
  {
    match Seen(m, t)
    case None => None
    case Some(x) =>
      var e := m.mem[x][p[n]];
      if !e.lo.present || !e.lo.user then Some(false)
      else if n == 3 then Some(true)
      else CodeUser(m, p, n + 1, e.hi)
  }

  // ---- when it reaches what it means --------------------------------------------------------------------

  /** The window of the frame is mapped to the frame. */
  ghost predicate Sees(flat: map<Path, Word64>, f: nat)
  {
    Window(f) in flat && flat[Window(f)].hi % 0x100_0000_0000 == f
  }

  /** The tables are what `s` says, none of them is free, the code reaches each of them, and free frames are memory. */
  ghost predicate Inv(m: Machine, s: Space)
  {
    && s.mem == m.mem && s.root == m.root && Agrees(s)
    && (forall f :: f in s.at.Values ==> f !in m.free && (m.boot || Sees(s.flat, f)))
    && (forall f :: f in m.free ==> IsRam(m.mem, f))
  }

  lemma SeenIs(m: Machine, s: Space, f: nat)
    requires Inv(m, s) && IsRam(m.mem, f) && (m.boot || Sees(s.flat, f))
    ensures Seen(m, f) == Some(f)
  {
    if !m.boot { WalkAgrees(s, Window(f)); }
  }

  lemma SeenTable(m: Machine, s: Space, q: Path)
    requires Inv(m, s) && q in s.at
    ensures IsRam(m.mem, s.at[q]) && s.at[q] !in m.free && Seen(m, s.at[q]) == Some(s.at[q])
  {
    assert s.at[q] in s.at.Values;
    SeenIs(m, s, s.at[q]);
  }

  /** Whatever is written to a frame through its window lands in that frame, and nowhere else, if and only if the
      window is mapped to it. */
  lemma SeesExact(m: Machine, s: Space, f: nat)
    requires !m.boot && s.mem == m.mem && s.root == m.root && Agrees(s) && IsRam(m.mem, f)
    ensures (forall i, e {:trigger m.mem[f][i := e]} :: 0 <= i < 512 ==>
               && Seen(m, f).Some?
               && PutEntry(m, Seen(m, f).value, i, e).mem == m.mem[f := m.mem[f][i := e]])
            <==> Sees(s.flat, f)
  {
    WalkAgrees(s, Window(f));
    if Seen(m, f).Some? && Seen(m, f).value != f {
      var e := m.mem[f][0].(hi := m.mem[f][0].hi + 1);
      assert m.mem[f][0 := e][0] == e;
      assert PutEntry(m, Seen(m, f).value, 0, e).mem[f] == m.mem[f];
    }
    if Seen(m, f).None? {
      var t := m.mem[f][0 := ZERO];
    }
  }

  // ---- what it does then --------------------------------------------------------------------------------

  /** How many frames can be had before a call fails: frame 0 reads as failure, and being the lowest it comes first. */
  ghost function Usable(free: set<nat>): nat
  {
    if 0 in free then 0 else |free|
  }

  /** How many tables are missing on the way from level `n` to the page `p`. */
  ghost function Missing(at: map<Path, nat>, p: Path, n: nat): (k: nat)
    requires |p| == 4 && n <= 3
    ensures k <= 3 - n
    decreases |p| - n
  {
    if n == 3 then 0 else (if p[..n + 1] in at then 0 else 1) + Missing(at, p, n + 1)
  }

  datatype Opening = Opening(at: map<Path, nat>, free: set<nat>, ok: bool)

  /** The tables and free frames after the way down to the page `p`, which takes the lowest frames for the missing
      tables. */
  ghost function Opens(at: map<Path, nat>, free: set<nat>, p: Path, n: nat): Opening
    requires |p| == 4 && n <= 3
    decreases |p| - n
  {
    if n == 3 then Opening(at, free, true)
    else if p[..n + 1] in at then Opens(at, free, p, n + 1)
    else if free == {} then Opening(at, free, false)
    else
      var f := Lowest(free);
      if f == 0 then Opening(at, free - {f}, false) else Opens(at[p[..n + 1] := f], free - {f}, p, n + 1)
  }

  lemma {:induction false} MissingSame(at: map<Path, nat>, p: Path, q: Path, f: nat, n: nat)
    requires |p| == 4 && |q| <= n <= 3
    ensures Missing(at[q := f], p, n) == Missing(at, p, n)
    decreases |p| - n
  {
    if n < 3 {
      assert |p[..n + 1]| == n + 1;
      MissingSame(at, p, q, f, n + 1);
    }
  }

  lemma TakenOne(free: set<nat>)
    requires free != {} && Lowest(free) != 0
    ensures Usable(free) == Usable(free - {Lowest(free)}) + 1
  {
    assert free == (free - {Lowest(free)}) + {Lowest(free)};
  }

  /** The way down succeeds if and only if there are frames for all missing tables, and takes that many. */
  lemma {:induction false} OpensExact(at: map<Path, nat>, free: set<nat>, p: Path, n: nat)
    requires |p| == 4 && n <= 3
    ensures Opens(at, free, p, n).ok <==> Missing(at, p, n) <= Usable(free)
    ensures Opens(at, free, p, n).ok ==> Usable(Opens(at, free, p, n).free) == Usable(free) - Missing(at, p, n)
    ensures Opens(at, free, p, n).free <= free
    decreases |p| - n
  {
    if n < 3 {
      if p[..n + 1] in at {
        OpensExact(at, free, p, n + 1);
      } else if free != {} && Lowest(free) != 0 {
        var f := Lowest(free);
        TakenOne(free);
        MissingSame(at, p, p[..n + 1], f, n + 1);
        OpensExact(at[p[..n + 1] := f], free - {f}, p, n + 1);
      }
    }
  }

  /** The level-`n` table of the page `p` is in the frame `t`. */
  ghost predicate OnPath(s: Space, p: Path, n: nat, t: nat)
  {
    IsPage(p) && n <= 3 && p[..n] in s.at && s.at[p[..n]] == t
  }

  /** The way down has come to the level-`n` table `t`, under entries that give the rights of `flags`. */
  ghost predicate Down(s: Space, p: Path, n: nat, t: nat, flags: Word64)
  {
    OnPath(s, p, n, t) && Whole(s) && forall r :: Gives(flags.lo, r) ==> GivenTo(s, p, n, r)
  }

  lemma OpenGiven(s: Space, p: Path, n: nat, e: Word64, r: Right)
    requires Agrees(s) && IsPage(p) && n < 3 && p[..n] in s.at && NoMore(Entry(s, p[..n], p[n]).lo, e.lo)
    ensures Whole(Store(s, p[..n], p[n], e))
    ensures Gives(e.lo, r) && GivenTo(s, p, n, r) ==> GivenTo(Store(s, p[..n], p[n], e), p, n + 1, r)
  {
    var s' := Store(s, p[..n], p[n], e);
    StoreAt(s, p[..n], p[n], e, p[..n], p[n]);
    forall k | 0 <= k < 3 && GivenAt(s, p, k, r) ensures GivenAt(s', p, k, r) {
      StoreKeepsGiven(s, p[..n], p[n], e, p, k, r);
    }
  }

  lemma OpenInv(m: Machine, s: Space, p: Path, n: nat, t: nat, e: Word64)
    requires Inv(m, s) && OnPath(s, p, n, t) && n < 3
    requires e.lo.present == Entry(s, p[..n], p[n]).lo.present && e.hi == Entry(s, p[..n], p[n]).hi
    requires e.lo.other == Entry(s, p[..n], p[n]).lo.other && NoMore(Entry(s, p[..n], p[n]).lo, e.lo)
    ensures IsRam(m.mem, t) && Inv(PutEntry(m, t, p[n], e), Store(s, p[..n], p[n], e))
  {
    StoreUpperAgrees(s, p[..n], p[n], e);
  }

  /** What the code finds in an entry of a table. */
  lemma EntryRead(m: Machine, s: Space, p: Path, n: nat, t: nat)
    requires Inv(m, s) && OnPath(s, p, n, t) && n < 3
    ensures Seen(m, t) == Some(t) && m.mem[t][p[n]] == Entry(s, p[..n], p[n])
    ensures m.mem[t][p[n]].lo.present <==> p[..n + 1] in s.at
    ensures p[..n + 1] in s.at ==> m.mem[t][p[n]].hi == s.at[p[..n + 1]]
  {
    SeenTable(m, s, p[..n]);
    assert p[..n] + [p[n]] == p[..n + 1];
    assert Links(s, p[..n], p[n]);
  }

  /** Opening a present entry leads to the next table and changes no translation. */
  lemma StepOpens(m: Machine, s: Space, p: Path, n: nat, t: nat, create: bool, flags: Word64)
    returns (m': Machine, s': Space)
    requires Inv(m, s) && OnPath(s, p, n, t) && n < 3 && p[..n + 1] in s.at
    ensures CodeStep(m, t, p[n], create, flags) == Table(m', s.at[p[..n + 1]])
    ensures Inv(m', s') && s'.at == s.at && s'.flat == s.flat && m' == m.(mem := m'.mem)
    ensures flags == ZERO ==> m' == m
    ensures Down(s, p, n, t, flags) ==> Down(s', p, n + 1, s.at[p[..n + 1]], flags)
    ensures IsRam(m.mem, t) && IsRam(m'.mem, t)
    ensures var e, e' := m.mem[t][p[n]], m'.mem[t][p[n]];
            && e'.hi == e.hi && e'.lo.present && e'.lo.other == e.lo.other
            && (e'.lo.rw <==> e.lo.rw || flags.lo.rw) && (e'.lo.user <==> e.lo.user || flags.lo.user)
  {
    EntryRead(m, s, p, n, t);
    var e := Opened(m.mem[t][p[n]], flags);
    if e == m.mem[t][p[n]] {
      return m, s;
    }
    OpenInv(m, s, p, n, t, e);
    forall r ensures Gives(e.lo, r) && GivenTo(s, p, n, r) ==> GivenTo(Store(s, p[..n], p[n], e), p, n + 1, r) {
      OpenGiven(s, p, n, e, r);
    }
    return PutEntry(m, t, p[n], e), Store(s, p[..n], p[n], e);
  }

  /** Zeroing a frame that is reached as itself and is no table. */
  lemma AllocRefines(m: Machine, s: Space) returns (m': Machine, s': Space)
    requires Inv(m, s) && m.free != {} && (m.boot || Sees(s.flat, Lowest(m.free)))
    ensures var f := Lowest(m.free);
            && m' == m.(mem := m.mem[f := Zeroed()], free := m.free - {f})
            && s' == s.(mem := m'.mem)
            && CodeAlloc(m) == if f == 0 then NoFrame(m') else Frame(m', f)
    ensures Inv(m', s')
  {
    var f := Lowest(m.free);
    SeenIs(m, s, f);
    m' := m.(mem := m.mem[f := Zeroed()], free := m.free - {f});
    OutsideAgrees(s, m'.mem);
    s' := s.(mem := m'.mem);
  }

  lemma LinkGiven(s: Space, p: Path, n: nat, e: Word64, r: Right)
    requires IsPage(p) && n < 3 && Linkable(s, p[..n], p[n], e) && Agrees(s)
    ensures Whole(Link(s, p[..n], p[n], e))
    ensures Gives(e.lo, r) && GivenTo(s, p, n, r) ==> GivenTo(Link(s, p[..n], p[n], e), p, n + 1, r)
  {
    LinkKeepsTree(s, p[..n], p[n], e);
    LinkAt(s, p[..n], p[n], e, p[..n], p[n]);
    forall k | 0 <= k < n && GivenAt(s, p, k, r) ensures GivenAt(Link(s, p[..n], p[n], e), p, k, r) {
      LinkKeepsGiven(s, p[..n], p[n], e, p, k, r);
    }
  }

  lemma NewTableAt(s: Space, s': Space, q: Path, f: nat, free: set<nat>, boot: bool)
    requires s'.at == s.at[q := f] && s'.flat == s.flat && f !in free && (boot || Sees(s.flat, f))
    requires forall g :: g in s.at.Values ==> g !in free && (boot || Sees(s.flat, g))
    ensures forall g :: g in s'.at.Values ==> g !in free && (boot || Sees(s'.flat, g))
  {
    forall g | g in s'.at.Values ensures g !in free && (boot || Sees(s'.flat, g)) {
      assert g in s.at.Values || g == f;
    }
  }

  /** Hanging in a zero-filled frame that is reached as itself. */
  lemma LinkInv(m: Machine, s: Space, p: Path, n: nat, t: nat, e: Word64) returns (s': Space)
    requires Inv(m, s) && OnPath(s, p, n, t) && n < 3 && p[..n + 1] !in s.at && e.lo.present && e.lo.other == 0
    requires e.hi !in m.free && e.hi !in s.at.Values && (m.boot || Sees(s.flat, e.hi))
    requires e.hi in m.mem && m.mem[e.hi] == Zeroed()
    ensures IsRam(m.mem, t) && Inv(PutEntry(m, t, p[n], e), s')
    ensures s'.flat == s.flat && s'.at == s.at[p[..n + 1] := e.hi]
    ensures forall r :: Gives(e.lo, r) && GivenTo(s, p, n, r) ==> GivenTo(s', p, n + 1, r)
  {
    EntryRead(m, s, p, n, t);
    assert p[..n] + [p[n]] == p[..n + 1];
    LinkAgrees(s, p[..n], p[n], e);
    s' := Link(s, p[..n], p[n], e);
    forall r ensures Gives(e.lo, r) && GivenTo(s, p, n, r) ==> GivenTo(s', p, n + 1, r) { LinkGiven(s, p, n, e, r); }
    assert m.mem[e.hi := Zeroed()] == m.mem;
    NewTableAt(s, s', p[..n + 1], e.hi, m.free, m.boot);
  }

  /** A missing table is added, if the frame for it is reached as itself. */
  lemma StepNew(m: Machine, s: Space, p: Path, n: nat, t: nat, flags: Word64) returns (m': Machine, s': Space)
    requires Inv(m, s) && OnPath(s, p, n, t) && n < 3 && p[..n + 1] !in s.at
    requires m.free != {} && (m.boot || Sees(s.flat, Lowest(m.free)))
    ensures var f := Lowest(m.free);
            && CodeStep(m, t, p[n], true, flags) == (if f == 0 then Stopped(m') else Table(m', f))
            && m' == m.(mem := m'.mem, free := m.free - {f})
            && s'.at == (if f == 0 then s.at else s.at[p[..n + 1] := f])
    ensures Inv(m', s') && s'.flat == s.flat
    ensures Lowest(m.free) != 0 && Down(s, p, n, t, flags) ==> Down(s', p, n + 1, Lowest(m.free), flags)
    ensures Lowest(m.free) != 0 ==>
              && IsRam(m'.mem, t) && var e := m'.mem[t][p[n]];
              && e.hi == Lowest(m.free) && e.lo.present && e.lo.rw && e.lo.other == 0
              && (e.lo.user <==> flags.lo.user)
  {
    EntryRead(m, s, p, n, t);
    var f := Lowest(m.free);
    assert f !in s.at.Values;
    m', s' := AllocRefines(m, s);
    if f != 0 {
      var m1, s1 := m', s';
      SeenTable(m1, s1, p[..n]);
      AllocGiven(s, s1, p, n, f);
      s' := LinkInv(m1, s1, p, n, t, TableEntry(f, flags));
      m' := PutEntry(m1, t, p[n], TableEntry(f, flags));
      assert p[..n] != p[..n + 1];
      SeenTable(m', s', p[..n]);
    }
  }

  lemma AllocGiven(s: Space, s1: Space, p: Path, n: nat, f: nat)
    requires Whole(s) && Whole(s1) && IsPage(p) && n <= 3 && f !in s.at.Values
    requires s1 == s.(mem := s.mem[f := Zeroed()])
    ensures forall r :: GivenTo(s, p, n, r) ==> GivenTo(s1, p, n, r)
  {
    assert forall q :: q in s.at ==> s.at[q] in s.at.Values;
  }

  /** The frames taken on the way down are reached as themselves. */
  ghost predicate SafeWay(boot: bool, flat: map<Path, Word64>, free: set<nat>, left: set<nat>)
  {
    boot || forall f :: f in free && f !in left ==> Sees(flat, f)
  }

  ghost predicate Kept(m: Machine, s: Space, o: Opening, m': Machine, s': Space)
  {
    m' == m.(mem := m'.mem, free := o.free) && s'.at == o.at && s'.flat == s.flat
  }

  /** The way down has ended as `o` says, in the machine `m'` with the tables `s'`. */
  ghost predicate WayDone(m: Machine, s: Space, p: Path, flags: Word64, o: Opening, r: Reached, m': Machine, s': Space)
  {
    match r
    case Fault => false
    case Stopped(m1) => !o.ok && m1 == m' && Kept(m, s, o, m', s')
    case Table(m1, t) => o.ok && m1 == m' && Kept(m, s, o, m', s') && Down(s', p, 3, t, flags)
  }

  lemma WayStep(m: Machine, s: Space, p: Path, n: nat, t: nat, flags: Word64, m1: Machine, s1: Space, t1: nat,
                m': Machine, s': Space)
    requires IsPage(p) && n < 3
    requires CodeStep(m, t, p[n], true, flags) == Table(m1, t1)
    requires m1 == m.(mem := m1.mem, free := m1.free) && s1.flat == s.flat
    requires Opens(s.at, m.free, p, n) == Opens(s1.at, m1.free, p, n + 1)
    requires WayDone(m1, s1, p, flags, Opens(s1.at, m1.free, p, n + 1),
                     CodeWalk(m1, p, n + 1, t1, true, flags), m', s')
    ensures WayDone(m, s, p, flags, Opens(s.at, m.free, p, n), CodeWalk(m, p, n, t, true, flags), m', s')
  {
  }

  /** The way down adds exactly the missing tables, and changes no translation. */
  lemma {:induction false} WalkRefines(m: Machine, s: Space, p: Path, n: nat, t: nat, flags: Word64)
    returns (m': Machine, s': Space)
    requires Inv(m, s) && Down(s, p, n, t, flags)
    requires SafeWay(m.boot, s.flat, m.free, Opens(s.at, m.free, p, n).free)
    ensures Inv(m', s')
    ensures WayDone(m, s, p, flags, Opens(s.at, m.free, p, n), CodeWalk(m, p, n, t, true, flags), m', s')
    decreases |p| - n
  {
    if n == 3 {
      return m, s;
    }
    if p[..n + 1] in s.at {
      var m1, s1 := StepOpens(m, s, p, n, t, true, flags);
      m', s' := WalkRefines(m1, s1, p, n + 1, s.at[p[..n + 1]], flags);
      WayStep(m, s, p, n, t, flags, m1, s1, s.at[p[..n + 1]], m', s');
    } else if m.free == {} {
      EntryRead(m, s, p, n, t);
      return m, s;
    } else {
      m', s' := WalkNew(m, s, p, n, t, flags);
    }
  }

  lemma {:induction false} WalkNew(m: Machine, s: Space, p: Path, n: nat, t: nat, flags: Word64)
    returns (m': Machine, s': Space)
    requires Inv(m, s) && Down(s, p, n, t, flags) && n < 3 && p[..n + 1] !in s.at && m.free != {}
    requires SafeWay(m.boot, s.flat, m.free, Opens(s.at, m.free, p, n).free)
    ensures Inv(m', s')
    ensures WayDone(m, s, p, flags, Opens(s.at, m.free, p, n), CodeWalk(m, p, n, t, true, flags), m', s')
    decreases |p| - n, 0
  {
    var f := Lowest(m.free);
    SafeNext(m, s, p, n);
    m', s' := StepNew(m, s, p, n, t, flags);
    if f != 0 {
      var m1, s1 := m', s';
      m', s' := WalkRefines(m1, s1, p, n + 1, f, flags);
      WayStep(m, s, p, n, t, flags, m1, s1, f, m', s');
    }
  }

  lemma SafeNext(m: Machine, s: Space, p: Path, n: nat)
    requires |p| == 4 && n < 3 && p[..n + 1] !in s.at && m.free != {}
    requires SafeWay(m.boot, s.flat, m.free, Opens(s.at, m.free, p, n).free)
    ensures var f := Lowest(m.free);
            && (m.boot || Sees(s.flat, f))
            && (f != 0 ==> SafeWay(m.boot, s.flat, m.free - {f},
                                   Opens(s.at[p[..n + 1] := f], m.free - {f}, p, n + 1).free))
  {
    var f := Lowest(m.free);
    if f != 0 { OpensExact(s.at[p[..n + 1] := f], m.free - {f}, p, n + 1); }
    assert f !in Opens(s.at, m.free, p, n).free;
  }

  /** Without leave to create, the way down changes nothing. */
  lemma {:induction false} WalkReads(m: Machine, p: Path, n: nat, t: nat)
    requires IsPage(p) && n <= 3
    ensures var r := CodeWalk(m, p, n, t, false, ZERO); r.Fault? || r.m == m
    decreases |p| - n
  {
    if n < 3 {
      var r := CodeStep(m, t, p[n], false, ZERO);
      if r.Table? { WalkReads(m, p, n + 1, r.table); }
    }
  }

  /** Without leave to create, the way down finds the leaf table if there is one. */
  lemma {:induction false} LookRefines(m: Machine, s: Space, p: Path, n: nat, t: nat)
    requires Inv(m, s) && OnPath(s, p, n, t)
    ensures CodeWalk(m, p, n, t, false, ZERO) == if p[..3] in s.at then Table(m, s.at[p[..3]]) else Stopped(m)
    decreases |p| - n
  {
    if n < 3 {
      EntryRead(m, s, p, n, t);
      if p[..n + 1] in s.at {
        LookRefines(m, s, p, n + 1, s.at[p[..n + 1]]);
      } else {
        PrefixMissing(s, p, n + 1, 3);
      }
    }
  }

  lemma {:induction false} PrefixMissing(s: Space, p: Path, n: nat, k: nat)
    requires Tree(s) && IsPage(p) && n <= k <= 3 && p[..n] !in s.at
    ensures p[..k] !in s.at
    decreases k
  {
    if n < k {
      PrefixMissing(s, p, n, k - 1);
      assert p[..k] == p[..k - 1] + [p[k - 1]];
    }
  }

  // ---- calls --------------------------------------------------------------------------------------------

  /** What the calls depend on: the tables by their paths, the free frames, and the mapped pages. */
  datatype Plan = Plan(at: map<Path, nat>, free: set<nat>, flat: map<Path, Word64>)

  ghost function PlanOf(m: Machine, s: Space): Plan
  {
    Plan(s.at, m.free, s.flat)
  }

  ghost function AfterMap(pl: Plan, p: Path, e: Word64): Plan
    requires IsPage(p)
  {
    var o := Opens(pl.at, pl.free, p, 0);
    Plan(o.at, o.free, if o.ok then pl.flat[p := e] else pl.flat)
  }

  /** Mapping the page leaves the window of every table mapped to the table. */
  ghost predicate KeepsWindows(at: map<Path, nat>, p: Path, e: Word64)
  {
    forall f :: f in at.Values && Window(f) == p ==> Target(e) == f
  }

  /** The frames the call takes are reached as themselves, and it leaves the window of every table in place. */
  ghost predicate SafeMap(boot: bool, pl: Plan, p: Path, e: Word64)
    requires IsPage(p)
  {
    var o := Opens(pl.at, pl.free, p, 0);
    && SafeWay(boot, pl.flat, pl.free, o.free)
    && (!boot && o.ok ==> KeepsWindows(o.at, p, e))
  }

  ghost predicate SafeUnmap(pl: Plan, p: Path)
  {
    forall f :: f in pl.at.Values ==> Window(f) != p
  }

  /** After the page `p` has been mapped, every table is reached as itself if and only if its window is not `p`, or `p`
      is mapped to it. */
  lemma KeepsWindowsExact(at: map<Path, nat>, flat: map<Path, Word64>, p: Path, e: Word64)
    requires forall f :: f in at.Values ==> Sees(flat, f)
    ensures (forall f :: f in at.Values ==> Sees(flat[p := e], f)) <==> KeepsWindows(at, p, e)
  {
  }

  lemma LeafInv(m: Machine, s: Space, p: Path, t: nat, e: Word64) returns (s': Space)
    requires Inv(m, s) && OnPath(s, p, 3, t) && Allowed(s, p, e)
    requires m.boot || forall f :: f in s.at.Values ==> Sees(PutLeaf(s.flat, p, e), f)
    ensures IsRam(m.mem, t) && Inv(PutEntry(m, t, p[3], e), s')
    ensures s'.at == s.at && s'.flat == PutLeaf(s.flat, p, e)
  {
    StoreLeafAgrees(s, p, e);
    s' := StoreLeaf(s, p, e);
  }

  /** A map call whose condition holds changes that page and no other, and fails only for want of frames. */
  lemma MapRefines(m: Machine, s: Space, p: Path, e: Word64, flags: Word64) returns (m': Machine, s': Space)
    requires Inv(m, s) && IsPage(p) && e.lo.present && NoMore(e.lo, flags.lo)
    requires SafeMap(m.boot, PlanOf(m, s), p, e)
    ensures CodeMap(m, p, e, flags) == Ended(m', Opens(s.at, m.free, p, 0).ok)
    ensures Inv(m', s') && m'.root == m.root && m'.boot == m.boot
    ensures PlanOf(m', s') == AfterMap(PlanOf(m, s), p, e)
  {
    assert p[..0] == [];
    m', s' := WalkRefines(m, s, p, 0, m.root, flags);
    if Opens(s.at, m.free, p, 0).ok {
      var m1, s1 := m', s';
      var t := s1.at[p[..3]];
      SeenTable(m1, s1, p[..3]);
      s' := LeafInv(m1, s1, p, t, e);
      m' := PutEntry(m1, t, p[3], e);
    }
  }

  /** An unmap call changes that page and no other. */
  lemma UnmapRefines(m: Machine, s: Space, p: Path) returns (m': Machine, s': Space)
    requires Inv(m, s) && IsPage(p) && (m.boot || SafeUnmap(PlanOf(m, s), p))
    ensures CodeUnmap(m, p) == Ended(m', true)
    ensures Inv(m', s') && m'.root == m.root && m'.boot == m.boot
    ensures PlanOf(m', s') == PlanOf(m, s).(flat := s.flat - {p})
  {
    assert p[..0] == [];
    LookRefines(m, s, p, 0, m.root);
    m', s' := m, s;
    if p[..3] in s.at {
      var t := s.at[p[..3]];
      SeenTable(m, s, p[..3]);
      assert LeafAgrees(s, p);
      if m.mem[t][p[3]].lo.present {
        s' := LeafInv(m, s, p, t, ZERO);
        m' := PutEntry(m, t, p[3], ZERO);
      }
    }
  }

  /** The code's lookup is the hardware walk. */
  lemma LookupRefines(m: Machine, s: Space, p: Path)
    requires Inv(m, s) && IsPage(p)
    ensures CodeLookup(m, p) == Some(if p in s.flat then Some(s.flat[p]) else None)
  {
    assert p[..0] == [];
    LookRefines(m, s, p, 0, m.root);
    if p[..3] in s.at {
      SeenTable(m, s, p[..3]);
      assert LeafAgrees(s, p);
    }
  }

  /** The check of all four levels says exactly whether the page has a USER leaf. */
  lemma {:induction false} UserRefines(m: Machine, s: Space, p: Path, n: nat, t: nat)
    requires Inv(m, s) && OnPath(s, p, n, t)
    ensures CodeUser(m, p, n, t) == Some(p in s.flat && s.flat[p].lo.user)
    decreases |p| - n
  {
    SeenTable(m, s, p[..n]);
    if n == 3 {
      assert LeafAgrees(s, p);
    } else {
      EntryRead(m, s, p, n, t);
      if p[..n + 1] !in s.at {
        PrefixMissing(s, p, n + 1, 3);
      } else if m.mem[t][p[n]].lo.user {
        UserRefines(m, s, p, n + 1, s.at[p[..n + 1]]);
      } else {
        assert !GivenAbove(s, p, UserAccess);
      }
    }
  }

  // ---- the address space --------------------------------------------------------------------------------

  /** The answer of a walk that left the machine `m` behind. */
  function Answer(fault: bool, table: Option<nat>, m: Machine): Reached
  {
    if fault then Fault else if table.Some? then Table(m, table.value) else Stopped(m)
  }

  /** Taking frames from `free` came to an end. */
  ghost predicate UsedUp(free: set<nat>, left: set<nat>)
  {
    left == {} || 0 in free
  }

  /** The way down fails only when no frame is left, or frame 0 comes up. */
  lemma {:induction false} OpensUsesUp(at: map<Path, nat>, free: set<nat>, p: Path, n: nat)
    requires |p| == 4 && n <= 3
    ensures Opens(at, free, p, n).free <= free
    ensures !Opens(at, free, p, n).ok ==> UsedUp(free, Opens(at, free, p, n).free)
    decreases |p| - n
  {
    if n < 3 {
      if p[..n + 1] in at {
        OpensUsesUp(at, free, p, n + 1);
      } else if free != {} && Lowest(free) != 0 {
        var f := Lowest(free);
        OpensUsesUp(at[p[..n + 1] := f], free - {f}, p, n + 1);
      }
    }
  }

  /** The first 512 MiB. */
  const DIRECT_FRAMES: nat := 0x2_0000

  /** The first `k` frames are mapped at their own addresses and at their windows, and no page is mapped elsewhere. */
  ghost predicate Direct(flat: map<Path, Word64>, k: nat)
  {
    && (forall f: nat :: f < k ==> DirectAt(flat, f))
    && (forall p :: p in flat ==> flat[p].hi < k)
  }

  lemma HighPage(f: nat)
    requires f < DIRECT_FRAMES
    ensures (f + 0xF_FFFF_FFF8_0000) % 0x10_0000_0000 == f + 0xF_FFF8_0000
  {
  }

  /** The pages of the direct map and the pages at their own addresses are all different. */
  lemma WindowApart(f: nat, g: nat)
    requires f < DIRECT_FRAMES && g < DIRECT_FRAMES
    ensures Window(f) != PageAt(g) && (f != g ==> Window(f) != Window(g))
  {
    HighPage(f);
    HighPage(g);
    SamePage(f + 0xF_FFFF_FFF8_0000, g);
    SamePage(f + 0xF_FFFF_FFF8_0000, g + 0xF_FFFF_FFF8_0000);
  }

  lemma OwnApart(f: nat, g: nat)
    requires f < DIRECT_FRAMES && g < DIRECT_FRAMES && f != g
    ensures PageAt(f) != PageAt(g)
  {
    SamePage(f, g);
  }

  /** Present and writable, for the kernel alone. */
  predicate IsKernelData(f: Flags)
  {
    f.present && f.rw && !f.user && f.other == 0
  }

  /** Frame `f` is mapped at its own address and at its window, writable for the kernel. */
  ghost predicate DirectAt(flat: map<Path, Word64>, f: nat)
  {
    && Sees(flat, f) && IsKernelData(flat[Window(f)].lo)
    && PageAt(f) in flat && flat[PageAt(f)].hi == f && IsKernelData(flat[PageAt(f)].lo)
  }

  lemma DirectNextAt(flat: map<Path, Word64>, k: nat, e: Word64, f: nat)
    requires k < DIRECT_FRAMES && e.hi == k && IsKernelData(e.lo) && (f == k || (f < k && DirectAt(flat, f)))
    ensures DirectAt(flat[PageAt(k) := e][Window(k) := e], f)
  {
    WindowApart(f, k);
    WindowApart(k, f);
    if f != k { OwnApart(f, k); }
  }

  lemma DirectNext(flat: map<Path, Word64>, k: nat, e: Word64)
    requires k < DIRECT_FRAMES && Direct(flat, k) && e.hi == k && IsKernelData(e.lo)
    ensures Direct(flat[PageAt(k) := e][Window(k) := e], k + 1)
  {
    var flat' := flat[PageAt(k) := e][Window(k) := e];
    forall f: nat | f < k + 1 ensures DirectAt(flat', f) {
      DirectNextAt(flat, k, e, f);
    }
  }

  /** Mapping a window again, to its own frame, changes nothing. */
  lemma DirectAgain(flat: map<Path, Word64>, k: nat, e: Word64)
    requires Direct(flat, DIRECT_FRAMES) && k < DIRECT_FRAMES && e.hi == k && IsKernelData(e.lo)
    ensures Direct(flat[Window(k) := e], DIRECT_FRAMES)
  {
    var flat' := flat[Window(k) := e];
    forall f: nat | f < DIRECT_FRAMES ensures DirectAt(flat', f) {
      assert DirectAt(flat, f);
      WindowApart(k, f);
    }
  }

  lemma DirectSees(flat: map<Path, Word64>)
    requires Direct(flat, DIRECT_FRAMES)
    ensures forall f: nat :: Sees(flat, f) <==> f < DIRECT_FRAMES
  {
    forall f: nat ensures Sees(flat, f) <==> f < DIRECT_FRAMES {
      if f < DIRECT_FRAMES { assert DirectAt(flat, f); }
    }
  }

  /** The tables are loaded. */
  lemma LoadInv(m: Machine, s: Space)
    requires Inv(m, s) && Direct(s.flat, DIRECT_FRAMES)
    ensures forall f: nat :: Sees(s.flat, f) <==> f < DIRECT_FRAMES
    ensures Inv(m.(boot := false), s) <==> forall f :: f in s.at.Values ==> f < DIRECT_FRAMES
  {
    DirectSees(s.flat);
  }

  lemma RootInv(mem: Memory, r: nat, free: set<nat>)
    requires r !in free && forall f :: f in free ==> IsRam(mem, f)
    ensures var mem' := mem[r := Zeroed()];
            Inv(Machine(mem', r, free, true), Space(r, mem', map[[] := r], map[]))
  {
    EmptySpaceAgrees(r);
    OutsideAgrees(Space(r, map[r := Zeroed()], map[[] := r], map[]), mem[r := Zeroed()]);
  }

  /** The page of `virt` has a present leaf with the flag bits asked for; above bit 11 it has the bits of the physical
      address and of the flags. */
  ghost predicate MappedTo(flat: map<Path, Word64>, virt: nat, phys: Word64, flags: Word64)
  {
    Indices(virt) in flat && IsLeafFor(flat[Indices(virt)], phys, flags)
  }

  ghost predicate IsLeafFor(e: Word64, phys: Word64, flags: Word64)
  {
    && e.lo.present && e.lo.rw == flags.lo.rw && e.lo.user == flags.lo.user && e.lo.other == flags.lo.other
    && forall k: nat :: Bit(e.hi, k) <==> Bit(phys.hi, k) || Bit(flags.hi, k)
  }

  lemma LeafEntryIs(phys: Word64, flags: Word64)
    ensures IsLeafFor(LeafEntry(phys, flags), phys, flags)
  {
    forall k: nat ensures Bit(LeafEntry(phys, flags).hi, k) <==> Bit(phys.hi, k) || Bit(flags.hi, k) {
      OrBit(phys.hi, flags.hi, k);
    }
  }

  lemma MappedGrants(m: Machine, s: Space, virt: nat, phys: Word64, flags: Word64)
    requires Inv(m, s) && MappedTo(s.flat, virt, phys, flags)
    ensures forall r :: Granted(m.mem, m.root, Indices(virt), r) <==> Gives(flags.lo, r)
  {
    forall r ensures Granted(m.mem, m.root, Indices(virt), r) <==> Gives(flags.lo, r) {
      GrantedExact(s, Indices(virt), r);
    }
  }

  class AddressSpace {
    const pfa: FrameAllocator
    const root: nat
    var mem: Memory
    /** The boot loader's tables are still loaded. */
    var boot: bool
    ghost var space: Space

    ghost function M(): Machine
      reads this, pfa
    {
      Machine(mem, root, pfa.free, boot)
    }

    ghost function State(): Plan
      reads this, pfa
    {
      PlanOf(M(), space)
    }

    ghost predicate Valid()
      reads this, pfa, pfa.bitmap
    {
      pfa.Counted() && Inv(M(), space)
    }

    /** An empty root table in the lowest free frame, in frame 0 when there is none. */
    constructor (pfa: FrameAllocator, mem: Memory)
      requires pfa.Counted() && IsRam(mem, 0) && forall f :: f in pfa.free ==> IsRam(mem, f)
      modifies pfa, pfa.bitmap
      ensures Valid() && boot && State() == Plan(map[[] := root], pfa.free, map[]) && this.pfa == pfa
      ensures old(pfa.free) == pfa.free || pfa.free == old(pfa.free) - {root}
    {
      var addr, taken := pfa.AllocFrame();
      var r := if taken.Some? then taken.value else 0;
      this.pfa, root, boot := pfa, r, true;
      this.mem := mem[r := Zeroed()];
      space := Space(r, mem[r := Zeroed()], map[[] := r], map[]);
      new;
      RootInv(mem, r, pfa.free);
    }

    /** Takes a frame and zeroes it through its window. */
    method Alloc() returns (fault: bool, r: Option<nat>)
      requires pfa.Counted()
      modifies this`mem, pfa, pfa.bitmap
      ensures pfa.Counted()
      ensures CodeAlloc(old(M())) ==
              if fault then AllocFault else if r.Some? then Frame(M(), r.value) else NoFrame(M())
    {
      var addr, taken := pfa.AllocFrame();
      if taken.None? {
        return false, None;
      }
      assert IsLowest(old(pfa.free), taken.value);
      var y := Reach(mem, root, boot, taken.value);
      if y.None? {
        return true, None;
      }
      mem := mem[y.value := Zeroed()];
      return false, if addr == 0 then None else taken;
    }

    /** Hangs a new table into an entry that is not present. */
    method NewTable(t: nat, i: nat, flags: Word64) returns (fault: bool, next: Option<nat>)
      requires pfa.Counted() && i < 512
      modifies this`mem, pfa, pfa.bitmap
      ensures pfa.Counted()
      ensures CodeNew(old(M()), t, i, flags) == Answer(fault, next, M())
    {
      var r;
      fault, r := Alloc();
      if fault || r.None? {
        return fault, None;
      }
      var x := Reach(mem, root, boot, t);
      if x.None? {
        return true, None;
      }
      mem := mem[x.value := mem[x.value][i := TableEntry(r.value, flags)]];
      var y := Reach(mem, root, boot, t);
      if y.None? {
        return true, None;
      }
      return false, Some(mem[y.value][i].hi);
    }

    /** One level of the way down. */
    method Descend(t: nat, i: nat, create: bool, flags: Word64) returns (fault: bool, next: Option<nat>)
      requires pfa.Counted() && i < 512
      modifies this`mem, pfa, pfa.bitmap
      ensures pfa.Counted()
      ensures CodeStep(old(M()), t, i, create, flags) == Answer(fault, next, M())
    {
      var x := Reach(mem, root, boot, t);
      if x.None? {
        return true, None;
      }
      var e := mem[x.value][i];
      if e.lo.present {
        if Opened(e, flags) != e {
          mem := mem[x.value := mem[x.value][i := Opened(e, flags)]];
        }
        return false, Some(e.hi);
      }
      if !create {
        return false, None;
      }
      fault, next := NewTable(t, i, flags);
    }

    /** The way down to the leaf table of the page `p`. */
    method LeafTable(p: Path, create: bool, flags: Word64) returns (fault: bool, leaf: Option<nat>)
      requires pfa.Counted() && IsPage(p)
      modifies this`mem, pfa, pfa.bitmap
      ensures pfa.Counted()
      ensures CodeWalk(old(M()), p, 0, root, create, flags) == Answer(fault, leaf, M())
    {
      var table := root;
      for n := 0 to 3
        invariant pfa.Counted()
        invariant CodeWalk(old(M()), p, 0, root, create, flags) == CodeWalk(M(), p, n, table, create, flags)
      {
        var next;
        fault, next := Descend(table, p[n], create, flags);
        if fault || next.None? {
          return fault, None;
        }
        table := next.value;
      }
      return false, Some(table);
    }

    /** Stores the leaf entry of the page `p`, adding tables on the way. */
    method StoreEntry(p: Path, e: Word64, flags: Word64) returns (crashed: bool, ok: bool)
      requires pfa.Counted() && IsPage(p)
      modifies this`mem, pfa, pfa.bitmap
      ensures pfa.Counted()
      ensures CodeMap(old(M()), p, e, flags) == if crashed then Crash else Ended(M(), ok)
    {
      var leaf;
      crashed, leaf := LeafTable(p, true, flags);
      if crashed || leaf.None? {
        return crashed, false;
      }
      var x := Reach(mem, root, boot, leaf.value);
      if x.None? {
        return true, false;
      }
      mem := mem[x.value := mem[x.value][p[3] := e]];
      return false, true;
    }

    /** Clears the leaf entry of the page `p` if it is present. */
    method ClearEntry(p: Path) returns (crashed: bool)
      requires pfa.Counted() && IsPage(p)
      modifies this`mem, pfa, pfa.bitmap
      ensures pfa.Counted()
      ensures CodeUnmap(old(M()), p) == if crashed then Crash else Ended(M(), true)
    {
      var leaf;
      crashed, leaf := LeafTable(p, false, ZERO);
      if crashed || leaf.None? {
        return;
      }
      var x := Reach(mem, root, boot, leaf.value);
      if x.None? {
        return true;
      }
      if mem[x.value][p[3]].lo.present {
        mem := mem[x.value := mem[x.value][p[3] := ZERO]];
      }
    }

    /** In every machine this does what the code does. When the code reaches every table and the call is safe, it
        changes the page `p` alone, or fails exactly when fewer frames can be had than tables are missing; and the code
        still reaches every table. */
    method MapEntry(p: Path, e: Word64, flags: Word64) returns (crashed: bool, ok: bool)
      requires pfa.Counted() && IsPage(p) && e.lo.present && NoMore(e.lo, flags.lo)
      modifies this`mem, this`space, pfa, pfa.bitmap
      ensures pfa.Counted()
      ensures CodeMap(old(M()), p, e, flags) == if crashed then Crash else Ended(M(), ok)
      ensures old(Valid() && SafeMap(boot, State(), p, e)) ==>
                && Valid() && State() == AfterMap(old(State()), p, e)
                && State().flat == (if ok then old(State()).flat[p := e] else old(State()).flat)
                && !crashed && (ok <==> old(Missing(State().at, p, 0) <= Usable(State().free)))
    {
      ghost var m, s := M(), space;
      crashed, ok := StoreEntry(p, e, flags);
      if Inv(m, s) && SafeMap(m.boot, PlanOf(m, s), p, e) {
        ghost var m', s' := MapRefines(m, s, p, e, flags);
        OpensExact(s.at, m.free, p, 0);
        space := s';
      }
    }

    /** The same for an address: the leaf has the flags asked for, and the processor grants exactly their rights. */
    method MapPage(virt: nat, phys: Word64, flags: Word64) returns (crashed: bool, ok: bool)
      requires pfa.Counted()
      modifies this`mem, this`space, pfa, pfa.bitmap
      ensures pfa.Counted()
      ensures CodeMap(old(M()), Indices(virt), LeafEntry(phys, flags), flags) ==
              if crashed then Crash else Ended(M(), ok)
      ensures old(Valid() && SafeMap(boot, State(), Indices(virt), LeafEntry(phys, flags))) ==>
                && Valid() && State() == AfterMap(old(State()), Indices(virt), LeafEntry(phys, flags))
                && !crashed && (ok <==> old(Missing(State().at, Indices(virt), 0) <= Usable(State().free)))
                && (ok ==> MappedTo(State().flat, virt, phys, flags))
                && (ok ==> forall r :: Granted(mem, root, Indices(virt), r) <==> Gives(flags.lo, r))
    {
      LeafEntryIs(phys, flags);
      crashed, ok := MapEntry(Indices(virt), LeafEntry(phys, flags), flags);
      if ok && Inv(M(), space) && MappedTo(space.flat, virt, phys, flags) {
        MappedGrants(M(), space, virt, phys, flags);
      }
    }

    /** Unmaps the page of `virt`, and no other, when the code reaches every table and the page is no table's window. */
    method UnmapPage(virt: nat) returns (crashed: bool)
      requires pfa.Counted()
      modifies this`mem, this`space, pfa, pfa.bitmap
      ensures pfa.Counted()
      ensures CodeUnmap(old(M()), Indices(virt)) == if crashed then Crash else Ended(M(), true)
      ensures old(Valid() && (boot || SafeUnmap(State(), Indices(virt)))) ==>
                && Valid() && State() == old(State()).(flat := old(State()).flat - {Indices(virt)})
                && !crashed
    {
      ghost var m, s := M(), space;
      crashed := ClearEntry(Indices(virt));
      if Inv(m, s) && (m.boot || SafeUnmap(PlanOf(m, s), Indices(virt))) {
        ghost var m', s' := UnmapRefines(m, s, Indices(virt));
        space := s';
      }
    }

    /** The leaf entry of the page `p`, if it is present. */
    method Lookup(p: Path) returns (crashed: bool, e: Option<Word64>)
      requires pfa.Counted() && IsPage(p)
      modifies this`mem, pfa, pfa.bitmap
      ensures pfa.Counted() && (!crashed ==> M() == old(M()))
      ensures CodeLookup(old(M()), p) == if crashed then None else Some(e)
    {
      WalkReads(M(), p, 0, root);
      var leaf;
      crashed, leaf := LeafTable(p, false, ZERO);
      if crashed || leaf.None? {
        return crashed, None;
      }
      var x := Reach(mem, root, boot, leaf.value);
      if x.None? {
        return true, None;
      }
      return false, if mem[x.value][p[3]].lo.present then Some(mem[x.value][p[3]]) else None;
    }

    /** The physical address of `virt`: by the hardware walk, when the code reaches every table. */
    method GetPhysicalAddress(virt: nat) returns (crashed: bool, phys: Option<nat>)
      requires pfa.Counted()
      modifies this`mem, pfa, pfa.bitmap
      ensures pfa.Counted() && (!crashed ==> M() == old(M()))
      ensures crashed <==> CodeLookup(old(M()), Indices(virt)).None?
      ensures old(Valid()) ==> !crashed && phys == Translate(space.flat, virt)
    {
      ghost var m, s := M(), space;
      var e;
      crashed, e := Lookup(Indices(virt));
      if Inv(m, s) {
        LookupRefines(m, s, Indices(virt));
      }
      phys := if e.Some? then Some(e.value.hi * PAGE_SIZE + virt % PAGE_SIZE) else None;
    }

    /** Whether user code may reach `virt`: exactly when the page has a USER leaf, when the code reaches every table. */
    method IsUserAccessible(virt: nat) returns (crashed: bool, yes: bool)
      ensures CodeUser(M(), Indices(virt), 0, root) == if crashed then None else Some(yes)
      ensures Valid() ==> !crashed && (yes <==> Indices(virt) in space.flat && space.flat[Indices(virt)].lo.user)
    {
      var p := Indices(virt);
      if Inv(M(), space) {
        assert p[..0] == [];
        UserRefines(M(), space, p, 0, root);
      }
      var table := root;
      for n := 0 to 4
        invariant n < 4 ==> CodeUser(M(), p, 0, root) == CodeUser(M(), p, n, table)
        invariant n == 4 ==> CodeUser(M(), p, 0, root) == Some(true)
      {
        var x := Reach(mem, root, boot, table);
        if x.None? {
          return true, false;
        }
        var e := mem[x.value][p[n]];
        if !e.lo.present {
          return false, false;
        }
        if !e.lo.user {
          return false, false;
        }
        table := e.hi;
      }
      return false, true;
    }

    /** A client may give back any frame that is not a table. */
    method FreeFrame(frame: nat)
      requires Valid() && frame !in space.at.Values && (frame < pfa.totalFrames ==> IsRam(mem, frame))
      modifies pfa, pfa.bitmap
      ensures Valid() && space == old(space)
      ensures pfa.free == if frame < pfa.totalFrames then old(pfa.free) + {frame} else old(pfa.free)
    {
      pfa.FreeFrame(frame);
    }

    /** Maps a page while the boot loader's tables are loaded: every call is safe. */
    method BootEntry(p: Path, e: Word64) returns (ok: bool)
      requires Valid() && boot && IsPage(p) && e.lo.present
      modifies this`mem, this`space, pfa, pfa.bitmap
      ensures Valid() && space.flat == if ok then old(space.flat)[p := e] else old(space.flat)
      ensures pfa.free <= old(pfa.free) && (!ok ==> UsedUp(old(pfa.free), pfa.free))
    {
      OpensUsesUp(space.at, pfa.free, p, 0);
      OpensExact(space.at, pfa.free, p, 0);
      var crashed;
      crashed, ok := MapEntry(p, e, Word64(0, e.lo));
    }

    /** Maps frame `k` at its own address and at its window. */
    method MapDirect(k: nat) returns (ok: bool)
      requires Valid() && boot && k < DIRECT_FRAMES && Direct(space.flat, k)
      modifies this`mem, this`space, pfa, pfa.bitmap
      ensures Valid() && (ok ==> Direct(space.flat, k + 1))
      ensures pfa.free <= old(pfa.free) && (!ok ==> UsedUp(old(pfa.free), pfa.free))
    {
      var e := Word64(k, Flags(true, true, false, 0));
      DirectNext(space.flat, k, e);
      ok := BootEntry(PageAt(k), e);
      if ok {
        ok := BootEntry(Window(k), e);
      }
    }

    method MapAllDirect() returns (ok: bool)
      requires Valid() && boot && space.flat == map[]
      modifies this`mem, this`space, pfa, pfa.bitmap
      ensures Valid() && (ok ==> Direct(space.flat, DIRECT_FRAMES))
      ensures pfa.free <= old(pfa.free) && (!ok ==> UsedUp(old(pfa.free), pfa.free))
    {
      for k := 0 to DIRECT_FRAMES
        invariant Valid() && Direct(space.flat, k) && pfa.free <= old(pfa.free)
      {
        ok := MapDirect(k);
        if !ok {
          return;
        }
      }
      ok := true;
    }

    method MapVga() returns (ok: bool)
      requires Valid() && boot && Direct(space.flat, DIRECT_FRAMES)
      modifies this`mem, this`space, pfa, pfa.bitmap
      ensures Valid() && Direct(space.flat, DIRECT_FRAMES)
      ensures pfa.free <= old(pfa.free) && (!ok ==> UsedUp(old(pfa.free), pfa.free))
    {
      var e := Word64(0xB8, Flags(true, true, false, 0));
      DirectAgain(space.flat, 0xB8, e);
      ok := BootEntry(Window(0xB8), e);
    }

    /** Builds the direct map and loads the tables. It fails only when it has used up all frames, or frame 0 was free.
        Afterwards exactly the frames of the first 512 MiB are reached as themselves, so that the code reaches its
        tables if and only if all of them lie there. */
    method Init() returns (ok: bool)
      requires Valid() && boot && space.flat == map[]
      modifies this, pfa, pfa.bitmap
      ensures pfa.Counted() && (ok <==> !boot)
      ensures !ok ==> UsedUp(old(pfa.free), pfa.free)
      ensures ok ==> forall f: nat :: Sees(State().flat, f) <==> f < 0x2_0000
      ensures ok ==> Direct(State().flat, DIRECT_FRAMES)
      ensures ok ==> (Valid() <==> forall f :: f in State().at.Values ==> f < DIRECT_FRAMES)
    {
      ok := MapAllDirect();
      if !ok {
        return;
      }
      ok := MapVga();
      if !ok {
        return;
      }
      LoadInv(M(), space);
      boot := false;
    }
  }

  /** Address translation by the mapped pages. */
  function Translate(flat: map<Path, Word64>, virt: nat): Option<nat>
  {
    if Indices(virt) in flat then Some(flat[Indices(virt)].hi * PAGE_SIZE + virt % PAGE_SIZE) else None
  }

  // ---- runs ---------------------------------------------------------------------------------------------

  datatype Op = Map(virt: nat, phys: Word64, flags: Word64) | Unmap(virt: nat)

  ghost predicate Safe(pl: Plan, op: Op)
  {
    match op
    case Map(virt, phys, flags) => SafeMap(false, pl, Indices(virt), LeafEntry(phys, flags))
    case Unmap(virt) => SafeUnmap(pl, Indices(virt))
  }

  ghost function After(pl: Plan, op: Op): Plan
  {
    match op
    case Map(virt, phys, flags) => AfterMap(pl, Indices(virt), LeafEntry(phys, flags))
    case Unmap(virt) => pl.(flat := pl.flat - {Indices(virt)})
  }

  ghost function RunPlan(pl: Plan, ops: seq<Op>): Plan
    decreases |ops|
  {
    if ops == [] then pl else RunPlan(After(pl, ops[0]), ops[1..])
  }

  /** Every call of the run is safe when it comes. */
  ghost predicate CanRun(pl: Plan, ops: seq<Op>)
    decreases |ops|
  {
    ops == [] || (Safe(pl, ops[0]) && CanRun(After(pl, ops[0]), ops[1..]))
  }

  /** What a run of calls means for the mapped pages; `oks` says which of them had the frames they needed. */
  function Replay(flat: map<Path, Word64>, ops: seq<Op>, oks: seq<bool>): map<Path, Word64>
    requires |oks| == |ops|
  {
    if ops == [] then flat
    else
      var n := |ops| - 1;
      Effect(Replay(flat, ops[..n], oks[..n]), ops[n], oks[n])
  }

  function Effect(flat: map<Path, Word64>, op: Op, ok: bool): map<Path, Word64>
  {
    match op
    case Map(virt, phys, flags) => if ok then flat[Indices(virt) := LeafEntry(phys, flags)] else flat
    case Unmap(virt) => flat - {Indices(virt)}
  }

  lemma ReplayNext(flat: map<Path, Word64>, ops: seq<Op>, n: nat, oks: seq<bool>, ok: bool)
    requires n == |oks| < |ops|
    ensures Replay(flat, ops[..n + 1], oks + [ok]) == Effect(Replay(flat, ops[..n], oks), ops[n], ok)
  {
    assert ops[..n + 1][..n] == ops[..n] && (oks + [ok])[..n] == oks;
  }

  lemma RunNext(pl: Plan, ops: seq<Op>, n: nat)
    requires n < |ops|
    ensures RunPlan(pl, ops[n..]) == RunPlan(After(pl, ops[n]), ops[n + 1..])
    ensures CanRun(pl, ops[n..]) ==> Safe(pl, ops[n]) && CanRun(After(pl, ops[n]), ops[n + 1..])
  {
    assert ops[n..][0] == ops[n] && ops[n..][1..] == ops[n + 1..];
  }

  ghost predicate AllOk(oks: seq<bool>)
  {
    forall i :: 0 <= i < |oks| ==> oks[i]
  }

  /** After `n` calls of a run from `pl`. */
  ghost predicate Ran(pl: Plan, ops: seq<Op>, n: nat, now: Plan, oks: seq<bool>)
  {
    && n == |oks| <= |ops|
    && CanRun(now, ops[n..]) && RunPlan(now, ops[n..]) == RunPlan(pl, ops)
    && now.flat == Replay(pl.flat, ops[..n], oks)
    && (Usable(pl.free) >= 3 * |ops| ==> Usable(now.free) >= 3 * (|ops| - n) && AllOk(oks))
  }

  lemma RanNext(pl: Plan, ops: seq<Op>, n: nat, now: Plan, oks: seq<bool>, ok: bool)
    requires n < |ops| && Ran(pl, ops, n, now, oks)
    requires After(now, ops[n]).flat == Effect(now.flat, ops[n], ok)
    requires Usable(now.free) >= 3 ==> ok
    requires ok ==> Usable(After(now, ops[n]).free) >= Usable(now.free) - 3
    ensures Safe(now, ops[n]) && Ran(pl, ops, n + 1, After(now, ops[n]), oks + [ok])
  {
    RunNext(now, ops, n);
    ReplayNext(pl.flat, ops, n, oks, ok);
  }

  lemma RanNone(pl: Plan, ops: seq<Op>)
    requires CanRun(pl, ops)
    ensures Ran(pl, ops, 0, pl, [])
  {
    assert ops[0..] == ops;
  }

  lemma RanAll(pl: Plan, ops: seq<Op>, now: Plan, oks: seq<bool>)
    requires Ran(pl, ops, |ops|, now, oks)
    ensures now == RunPlan(pl, ops) && now.flat == Replay(pl.flat, ops, oks)
  {
    assert ops[..|ops|] == ops;
  }

  /** The call changes the page. */
  predicate Touches(op: Op, ok: bool, p: Path)
  {
    Indices(op.virt) == p && (op.Map? ==> ok)
  }

  /** A page is as the last call that changed it left it, and as it was if none did. */
  lemma {:induction false} LastCallStands(flat: map<Path, Word64>, ops: seq<Op>, oks: seq<bool>, p: Path, i: int)
    requires |oks| == |ops| && -1 <= i < |ops| && (i >= 0 ==> Touches(ops[i], oks[i], p))
    requires forall j :: i < j < |ops| ==> !Touches(ops[j], oks[j], p)
    ensures var after := Replay(flat, ops, oks);
            if i < 0 then (p in after <==> p in flat) && (p in after ==> after[p] == flat[p])
            else if ops[i].Unmap? then p !in after
            else p in after && IsLeafFor(after[p], ops[i].phys, ops[i].flags)
  {
    if ops != [] {
      var n := |ops| - 1;
      if i == n {
        if ops[n].Map? { LeafEntryIs(ops[n].phys, ops[n].flags); }
      } else {
        var us, ks := ops[..n], oks[..n];
        assert !Touches(ops[n], oks[n], p);
        LastCallStands(flat, us, ks, p, i);
      }
    }
  }

  method Perform(a: AddressSpace, op: Op) returns (ok: bool)
    requires a.Valid() && !a.boot && Safe(a.State(), op)
    modifies a`mem, a`space, a.pfa, a.pfa.bitmap
    ensures a.Valid() && a.State() == After(old(a.State()), op)
    ensures a.State().flat == Effect(old(a.State()).flat, op, ok)
    ensures ok <==> op.Unmap? || old(Missing(a.State().at, Indices(op.virt), 0) <= Usable(a.State().free))
    ensures ok ==> Usable(a.State().free) >= old(Usable(a.State().free)) - if op.Map? then 3 else 0
  {
    var crashed;
    ok := true;
    match op {
      case Map(virt, phys, flags) =>
        OpensExact(a.space.at, a.pfa.free, Indices(virt), 0);
        crashed, ok := a.MapPage(virt, phys, flags);
      case Unmap(virt) =>
        crashed := a.UnmapPage(virt);
    }
  }

  method RunStep(a: AddressSpace, ops: seq<Op>, n: nat, ghost pl: Plan, oks: seq<bool>) returns (oks': seq<bool>)
    requires n < |ops| && a.Valid() && !a.boot && Ran(pl, ops, n, a.State(), oks)
    modifies a`mem, a`space, a.pfa, a.pfa.bitmap
    ensures a.Valid() && Ran(pl, ops, n + 1, a.State(), oks')
  {
    ghost var now := a.State();
    RunNext(now, ops, n);
    var ok := Perform(a, ops[n]);
    RanNext(pl, ops, n, now, oks, ok);
    oks' := oks + [ok];
  }

  method RunAll(a: AddressSpace, ops: seq<Op>) returns (oks: seq<bool>)
    requires a.Valid() && !a.boot && Ran(a.State(), ops, 0, a.State(), [])
    modifies a`mem, a`space, a.pfa, a.pfa.bitmap
    ensures a.Valid() && Ran(old(a.State()), ops, |ops|, a.State(), oks)
  {
    oks := [];
    ghost var pl := a.State();
    for n := 0 to |ops|
      invariant a.Valid() && Ran(pl, ops, n, a.State(), oks)
    {
      oks := RunStep(a, ops, n, pl, oks);
    }
  }

  /** Over every run of safe map and unmap calls the tables refine the replayed map: no call faults, the code reaches
      every table throughout, and a call fails only for want of frames. */
  method Run(a: AddressSpace, ops: seq<Op>) returns (oks: seq<bool>)
    requires a.Valid() && !a.boot && CanRun(a.State(), ops)
    modifies a`mem, a`space, a.pfa, a.pfa.bitmap
    ensures a.Valid() && a.State() == RunPlan(old(a.State()), ops)
    ensures |oks| == |ops| && a.State().flat == Replay(old(a.State()).flat, ops, oks)
    ensures forall p, r :: IsPage(p) ==>
              (Granted(a.mem, a.root, p, r) <==> p in a.State().flat && Gives(a.State().flat[p].lo, r))
    ensures Usable(old(a.State()).free) >= 3 * |ops| ==> AllOk(oks)
  {
    ghost var pl := a.State();
    RanNone(pl, ops);
    oks := RunAll(a, ops);
    RanAll(pl, ops, a.State(), oks);
    forall p, r | IsPage(p)
      ensures Granted(a.mem, a.root, p, r) <==> p in a.State().flat && Gives(a.State().flat[p].lo, r)
    {
      GrantedExact(a.space, p, r);
    }
  }

  /** After a successful map, the page translates to the mapped frame plus the offset in the page, provided
      the flag bits above bit 11 (NX is bit 63) are all bits of the frame address; otherwise they leak into
      the physical address. */
  lemma MappedTranslation(flat: map<Path, Word64>, virt: nat, phys: Word64, flags: Word64, v: nat)
    ensures var flat' := flat[Indices(virt) := LeafEntry(phys, flags)];
            if v / 0x1000 % 0x10_0000_0000 == virt / 0x1000 % 0x10_0000_0000
            then Translate(flat', v) == Some(phys.hi * PAGE_SIZE + v % PAGE_SIZE) <==> Covers(phys.hi, flags.hi)
            else Translate(flat', v) == Translate(flat, v)
  {
    SamePage(v / 0x1000, virt / 0x1000);
    OrCovers(phys.hi, flags.hi);
  }

  // ---- a condition on the calls alone -------------------------------------------------------------------

  /** The frames that are tables or may become tables. */
  ghost function Held(pl: Plan): set<nat>
  {
    pl.at.Values + pl.free
  }

  /** The page is the window of no table and of no free frame, or is mapped to that frame. */
  ghost predicate Clear(held: set<nat>, op: Op)
  {
    forall f :: f in held && Window(f) == Indices(op.virt) ==> op.Map? && Target(LeafEntry(op.phys, op.flags)) == f
  }

  lemma {:induction false} OpensHeld(at: map<Path, nat>, free: set<nat>, p: Path, n: nat)
    requires |p| == 4 && n <= 3
    ensures Opens(at, free, p, n).free <= free
    ensures Opens(at, free, p, n).at.Values <= at.Values + free
    decreases |p| - n
  {
    if n < 3 {
      if p[..n + 1] in at {
        OpensHeld(at, free, p, n + 1);
      } else if free != {} && Lowest(free) != 0 {
        var f := Lowest(free);
        OpensHeld(at[p[..n + 1] := f], free - {f}, p, n + 1);
        assert at[p[..n + 1] := f].Values <= at.Values + {f};
      }
    }
  }

  lemma ClearStep(pl: Plan, held: set<nat>, op: Op)
    requires Held(pl) <= held && (forall f :: f in held ==> Sees(pl.flat, f)) && Clear(held, op)
    ensures Safe(pl, op) && Held(After(pl, op)) <= held
    ensures forall f :: f in held ==> Sees(After(pl, op).flat, f)
  {
    OpensHeld(pl.at, pl.free, Indices(op.virt), 0);
  }

  lemma {:induction false} ClearRuns(pl: Plan, held: set<nat>, ops: seq<Op>)
    requires Held(pl) <= held && forall f :: f in held ==> Sees(pl.flat, f)
    requires forall i :: 0 <= i < |ops| ==> Clear(held, ops[i])
    ensures CanRun(pl, ops) && forall f :: f in held ==> Sees(RunPlan(pl, ops).flat, f)
    decreases |ops|
  {
    if ops != [] {
      ClearStep(pl, held, ops[0]);
      ClearRuns(After(pl, ops[0]), held, ops[1..]);
    }
  }

  /** When the code reaches every table and every free frame, every run whose calls leave their windows alone is safe,
      and leaves the windows in place. */
  lemma ClearRun(pl: Plan, ops: seq<Op>)
    requires forall f :: f in Held(pl) ==> Sees(pl.flat, f)
    requires forall i :: 0 <= i < |ops| ==> Clear(Held(pl), ops[i])
    ensures CanRun(pl, ops) && forall f :: f in Held(pl) ==> Sees(RunPlan(pl, ops).flat, f)
  {
    ClearRuns(pl, Held(pl), ops);
  }

  // ---- when it does not ---------------------------------------------------------------------------------

  /** What an allocation fills with zeroes: the frame that the window of the lowest free frame is mapped to, whoever
      uses it; without a mapping the access faults. */
  lemma AllocZeroes(m: Machine, s: Space)
    requires !m.boot && s.mem == m.mem && s.root == m.root && Agrees(s) && m.free != {}
    ensures var f := Lowest(m.free);
            var r := CodeAlloc(m);
            if Window(f) in s.flat && IsRam(m.mem, Target(s.flat[Window(f)]))
            then !r.AllocFault? && r.m.mem == m.mem[Target(s.flat[Window(f)]) := Zeroed()]
            else r.AllocFault?
  {
    WalkAgrees(s, Window(Lowest(m.free)));
  }

  /** The tables of `s` are in memory as they were. */
  ghost predicate SameTables(s: Space, mem: Memory)
  {
    forall f :: f in s.at.Values ==> f in mem && f in s.mem && mem[f] == s.mem[f]
  }

  /** What the code reaches as table `t` is a zero-filled frame `x` that is no table; free frames are reached as
      themselves. */
  ghost predicate Phantom(m: Machine, s: Space, t: nat, x: nat)
  {
    && !m.boot && s.root == m.root && SameTables(s, m.mem)
    && Window(t) in s.flat && Target(s.flat[Window(t)]) == x
    && x !in s.at.Values && x !in m.free && x in m.mem && m.mem[x] == Zeroed()
    && forall f :: f in m.free ==> f !in s.at.Values && IsRam(m.mem, f) && Sees(s.flat, f)
  }

  /** As long as the tables stay as they are, the processor finds the pages of `flat`. */
  ghost predicate Translates(s: Space)
  {
    forall mem, p {:trigger Walk(mem, s.root, p)} :: SameTables(s, mem) && IsPage(p) ==>
      Walk(mem, s.root, p) == if p in s.flat then Some(s.flat[p]) else None
  }

  lemma AgreesTranslates(s: Space)
    requires Agrees(s)
    ensures Translates(s)
  {
    forall mem, p | SameTables(s, mem) && IsPage(p)
      ensures Walk(mem, s.root, p) == if p in s.flat then Some(s.flat[p]) else None
    {
      OutsideAgrees(s, mem);
      WalkAgrees(s.(mem := mem), p);
    }
  }

  lemma PhantomSeen(m: Machine, s: Space, t: nat, x: nat)
    requires Translates(s) && !m.boot && s.root == m.root && SameTables(s, m.mem) && IsRam(m.mem, x)
    requires Window(t) in s.flat && Target(s.flat[Window(t)]) == x
    ensures Seen(m, t) == Some(x)
  {
  }

  lemma PhantomAlloc(m: Machine, s: Space, t: nat, x: nat) returns (m1: Machine)
    requires Translates(s) && Phantom(m, s, t, x) && m.free != {} && 0 !in m.free
    ensures var f := Lowest(m.free);
            && CodeAlloc(m) == Frame(m1, f)
            && m1 == m.(mem := m.mem[f := Zeroed()], free := m.free - {f})
            && Phantom(m1, s, t, x) && Phantom(m1, s, f, f)
  {
    var f := Lowest(m.free);
    PhantomSeen(m, s, f, f);
    m1 := m.(mem := m.mem[f := Zeroed()], free := m.free - {f});
  }

  lemma PhantomStep(m: Machine, s: Space, t: nat, x: nat, i: nat, flags: Word64) returns (m': Machine)
    requires Translates(s) && Phantom(m, s, t, x) && m.free != {} && 0 !in m.free && i < 512
    ensures var f := Lowest(m.free);
            && CodeStep(m, t, i, true, flags) == Table(m', f)
            && Phantom(m', s, f, f) && m'.free == m.free - {f}
  {
    var f := Lowest(m.free);
    PhantomSeen(m, s, t, x);
    var m1 := PhantomAlloc(m, s, t, x);
    PhantomSeen(m1, s, t, x);
    m' := PutEntry(m1, x, i, TableEntry(f, flags));
    PhantomSeen(m', s, t, x);
  }

  lemma UsableNext(free: set<nat>, k: nat)
    requires Usable(free) >= k > 0
    ensures free != {} && 0 !in free && Usable(free - {Lowest(free)}) >= k - 1
  {
    TakenOne(free);
  }

  lemma {:induction false} PhantomWalk(m: Machine, s: Space, t: nat, x: nat, p: Path, n: nat, flags: Word64)
    returns (m': Machine, t': nat, x': nat)
    requires Translates(s) && Phantom(m, s, t, x) && IsPage(p) && n <= 3 && Usable(m.free) >= 3 - n
    ensures CodeWalk(m, p, n, t, true, flags) == Table(m', t') && Phantom(m', s, t', x')
    decreases |p| - n
  {
    if n == 3 {
      return m, t, x;
    }
    UsableNext(m.free, 3 - n);
    var f := Lowest(m.free);
    var m1 := PhantomStep(m, s, t, x, p[n], flags);
    m', t', x' := PhantomWalk(m1, s, f, f, p, n + 1, flags);
  }

  /** When the code reaches a zero-filled data frame as the root table, a map call reports success and the processor
      sees no change on any page. */
  lemma PhantomMap(m: Machine, s: Space, x: nat, p: Path, e: Word64, flags: Word64) returns (m': Machine)
    requires Translates(s) && Phantom(m, s, m.root, x) && IsPage(p) && Usable(m.free) >= 3
    ensures CodeMap(m, p, e, flags) == Ended(m', true) && m'.root == m.root
    ensures forall q :: IsPage(q) ==> Walk(m'.mem, m'.root, q) == Walk(m.mem, m.root, q)
  {
    var m1, t, y := PhantomWalk(m, s, m.root, x, p, 0, flags);
    PhantomSeen(m1, s, t, y);
    m' := PutEntry(m1, y, p[3], e);
    assert SameTables(s, m'.mem);
  }

  lemma {:induction false} OpensNone(s: Space, free: set<nat>, p: Path, n: nat)
    requires Tree(s) && IsPage(p) && n <= 3 && p[..3] in s.at
    ensures Opens(s.at, free, p, n) == Opening(s.at, free, true)
    decreases |p| - n
  {
    if n < 3 {
      if p[..n + 1] !in s.at { PrefixMissing(s, p, n + 1, 3); }
      OpensNone(s, free, p, n + 1);
    }
  }

  /** A leaf entry stored through the window of its table, whatever page it is for. */
  lemma LeafStored(m: Machine, s: Space, p: Path, t: nat, e: Word64)
    requires Inv(m, s) && OnPath(s, p, 3, t) && Allowed(s, p, e)
    ensures Seen(m, t) == Some(t) && PutEntry(m, t, p[3], e).mem == StoreLeaf(s, p, e).mem
    ensures Agrees(StoreLeaf(s, p, e)) && forall f :: f in m.free ==> IsRam(PutEntry(m, t, p[3], e).mem, f)
  {
    SeenTable(m, s, p[..3]);
    StoreLeafAgrees(s, p, e);
  }

  /** The root table has a window, so that no table is missing on the way to it. */
  lemma RootWay(m: Machine, s: Space, flags: Word64) returns (m0: Machine, s0: Space)
    requires Inv(m, s) && !m.boot
    ensures Inv(m0, s0)
    ensures WayDone(m, s, Window(m.root), flags, Opening(s.at, m.free, true),
                    CodeWalk(m, Window(m.root), 0, m.root, true, flags), m0, s0)
  {
    var p := Window(m.root);
    assert s.at[[]] in s.at.Values && p[..0] == [];
    OpensNone(s, m.free, p, 0);
    m0, s0 := WalkRefines(m, s, p, 0, m.root, flags);
  }

  /** The window of the root table is mapped like any other page: the processor sees the new entry. */
  lemma MapRootWindow(m: Machine, s: Space, e: Word64, flags: Word64) returns (m': Machine, s': Space)
    requires Inv(m, s) && !m.boot && e.lo.present && NoMore(e.lo, flags.lo)
    ensures CodeMap(m, Window(m.root), e, flags) == Ended(m', true)
    ensures Agrees(s') && s'.mem == m'.mem && s'.root == m'.root == m.root && !m'.boot && m'.free == m.free
    ensures s'.at == s.at && s'.flat == s.flat[Window(m.root) := e]
    ensures forall f :: f in m.free ==> IsRam(m'.mem, f)
  {
    var p := Window(m.root);
    var m0, s0 := RootWay(m, s, flags);
    LeafStored(m0, s0, p, s0.at[p[..3]], e);
    m', s' := PutEntry(m0, s0.at[p[..3]], p[3], e), StoreLeaf(s0, p, e);
  }

  /** One map call can cut the code off from the tables: once the window of the root table is mapped to a zero-filled
      data frame, every later map call that finds its frames reports success, and no translation changes. */
  lemma CutOff(m: Machine, s: Space, e: Word64, flags: Word64, p: Path, e': Word64, flags': Word64)
    requires Inv(m, s) && !m.boot && e.lo.present && NoMore(e.lo, flags.lo) && IsPage(p)
    requires Target(e) !in s.at.Values && Target(e) !in m.free
    requires (forall f :: f in m.free ==> Sees(s.flat, f)) && Usable(m.free) >= 3
    ensures var first := CodeMap(m, Window(m.root), e, flags);
            && first.Ended? && first.ok && Walk(first.m.mem, m.root, Window(m.root)) == Some(e)
            && (Target(e) in first.m.mem && first.m.mem[Target(e)] == Zeroed() ==>
                  var second := CodeMap(first.m, p, e', flags');
                  && second.Ended? && second.ok
                  && forall q :: IsPage(q) ==> Walk(second.m.mem, m.root, q) == Walk(first.m.mem, m.root, q))
  {
    var m1, s1 := MapRootWindow(m, s, e, flags);
    WalkAgrees(s1, Window(m.root));
    if Target(e) in m1.mem && m1.mem[Target(e)] == Zeroed() {
      AgreesTranslates(s1);
      CutOffPhantom(m, s, e, m1, s1);
      var m2 := PhantomMap(m1, s1, Target(e), p, e', flags');
    }
  }

  lemma CutOffPhantom(m: Machine, s: Space, e: Word64, m1: Machine, s1: Space)
    requires Inv(m, s) && !m.boot && Target(e) !in s.at.Values && Target(e) !in m.free
    requires forall f :: f in m.free ==> Sees(s.flat, f) && IsRam(m1.mem, f)
    requires s1.mem == m1.mem && s1.root == m1.root == m.root && !m1.boot && m1.free == m.free && Whole(s1)
    requires s1.at == s.at && s1.flat == s.flat[Window(m.root) := e]
    requires Target(e) in m1.mem && m1.mem[Target(e)] == Zeroed()
    ensures Phantom(m1, s1, m1.root, Target(e))
  {
    assert s.at[[]] in s.at.Values;
    forall f | f in s1.at.Values ensures f in m1.mem {
      var q :| q in s1.at && s1.at[q] == f;
    }
    forall f | f in m.free ensures Sees(s1.flat, f) {
      assert f != m.root;
    }
  }
}
