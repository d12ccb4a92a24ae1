/** Four-level x86_64 page tables (sections 4.5 and 4.6 of the Intel SDM, Volume 3A), stored in frames
    that come from the frame allocator, and their refinement to a flat map from pages to leaf entries. */
module PageTables {
  import opened Bits
  import opened Common

  // ---- entries ------------------------------------------------------------------------------------------

  /** The low 12 bits of an entry or a flags word: PRESENT, RW and USER, and bits 3 to 11. */
  datatype Flags = Flags(present: bool, rw: bool, user: bool, other: nat)

  /** A 64-bit word split at bit 12: a table entry, a set of flags or a physical address. */
  datatype Word64 = Word64(hi: nat, lo: Flags)

  /** The two rights an entry can give. The processor grants a right if the entries of all four levels give it. */
  datatype Right = UserAccess | WriteAccess

  predicate Gives(f: Flags, r: Right)
  {
    match r case UserAccess => f.user case WriteAccess => f.rw
  }

  /** Every right of `f` is a right of `g`. */
  ghost predicate NoMore(f: Flags, g: Flags)
  {
    forall r :: Gives(f, r) ==> Gives(g, r)
  }

  const ZERO := Word64(0, Flags(false, false, false, 0))

  /** Bitwise or of naturals. */
  function Or(a: nat, b: nat): nat
  {
    if a == 0 && b == 0 then 0
    else 2 * Or(a / 2, b / 2) + (if a % 2 == 1 || b % 2 == 1 then 1 else 0)
  }

  lemma {:induction false} OrBit(a: nat, b: nat, k: nat)
    ensures Bit(Or(a, b), k) <==> Bit(a, k) || Bit(b, k)
    decreases a + b
  {
    if a == 0 && b == 0 {
      NoBits(k);
    } else if k > 0 {
      OrBit(a / 2, b / 2, k - 1);
      assert Or(a, b) / 2 == Or(a / 2, b / 2);
    }
  }

  lemma {:induction false} NoBits(k: nat)
    ensures !Bit(0, k)
  {
    if k > 0 { NoBits(k - 1); }
  }

  /** Every bit of `b` is a bit of `a`. */
  predicate Covers(a: nat, b: nat)
  {
    b == 0 || ((b % 2 == 1 ==> a % 2 == 1) && Covers(a / 2, b / 2))
  }

  lemma {:induction false} OrCovers(a: nat, b: nat)
    ensures Or(a, b) == a <==> Covers(a, b)
    decreases a + b
  {
    if a != 0 || b != 0 {
      OrCovers(a / 2, b / 2);
    }
  }

  /** The leaf entry that mapping `phys` with `flags` stores. */
  function LeafEntry(phys: Word64, flags: Word64): (e: Word64)
    ensures e.lo.present && NoMore(e.lo, flags.lo)
  {
    Word64(Or(phys.hi, flags.hi), flags.lo.(present := true))
  }

  // ---- addresses and the walk ---------------------------------------------------------------------------

  type Path = seq<nat>

  /** The last `k` nine-bit digits of `n`. */
  function Digits(n: nat, k: nat): (p: Path)
    ensures |p| == k && forall i :: 0 <= i < k ==> p[i] < 512
    decreases k, n
  {
    if k == 0 then [] else Digits(n / 512, k - 1) + [n % 512]
  }

  /** The path of a page, given by its number. */
  function PageAt(n: nat): (p: Path)
    ensures IsPage(p)
  {
    Digits(n, 4)
  }

  /** The four table indices of a virtual address: bits 39-47, 30-38, 21-29 and 12-20. */
  function Indices(virt: nat): (p: Path)
    ensures IsPage(p)
  {
    PageAt(virt / 0x1000)
  }

  lemma IndexBits(virt: nat)
    ensures Indices(virt) ==
            [virt / 0x80_0000_0000 % 512, virt / 0x4000_0000 % 512, virt / 0x20_0000 % 512, virt / 0x1000 % 512]
  {
    var n := virt / 0x1000;
    Quotients(virt);
    FourDigits(n);
  }

  lemma FourDigits(n: nat)
    ensures PageAt(n) == [n / 512 / 512 / 512 % 512, n / 512 / 512 % 512, n / 512 % 512, n % 512]
  {
    assert Digits(n / 512 / 512 / 512, 1) == [n / 512 / 512 / 512 % 512];
    assert Digits(n / 512 / 512, 2) == [n / 512 / 512 / 512 % 512, n / 512 / 512 % 512];
    assert Digits(n / 512, 3) == [n / 512 / 512 / 512 % 512, n / 512 / 512 % 512, n / 512 % 512];
  }

  function Number(p: Path): nat
    requires |p| == 4
  {
    ((p[0] * 512 + p[1]) * 512 + p[2]) * 512 + p[3]
  }

  lemma NumberUnique(p: Path, q: Path)
    requires IsPage(p) && IsPage(q) && Number(p) == Number(q)
    ensures p == q
  {
    DigitUnique((p[0] * 512 + p[1]) * 512 + p[2], p[3], (q[0] * 512 + q[1]) * 512 + q[2], q[3]);
    DigitUnique(p[0] * 512 + p[1], p[2], q[0] * 512 + q[1], q[2]);
    DigitUnique(p[0], p[1], q[0], q[1]);
  }

  lemma DigitUnique(a: nat, x: nat, b: nat, y: nat)
    requires x < 512 && y < 512 && a * 512 + x == b * 512 + y
    ensures a == b && x == y
  {
  }

  /** Two page numbers lead to the same page exactly when their last 36 bits agree. */
  lemma SamePage(a: nat, b: nat)
    ensures PageAt(a) == PageAt(b) <==> a % 0x10_0000_0000 == b % 0x10_0000_0000
  {
    var p, q := PageAt(a), PageAt(b);
    PageNumber(a);
    PageNumber(b);
    if Number(p) == Number(q) { NumberUnique(p, q); }
  }

  lemma PageNumber(a: nat)
    ensures a % 0x10_0000_0000 == Number(PageAt(a))
  {
    var b := a / 512;
    var c := b / 512;
    FourDigits(a);
    assert a % 0x10_0000_0000 == b % 0x800_0000 * 512 + a % 512 by { LastDigit36(a); }
    assert b % 0x800_0000 == c % 0x4_0000 * 512 + b % 512 by { LastDigit27(b); }
    assert c % 0x4_0000 == c / 512 % 512 * 512 + c % 512 by { LastDigit18(c); }
  }

  lemma Quotients(v: nat)
    ensures v / 0x20_0000 == v / 0x1000 / 512
    ensures v / 0x4000_0000 == v / 0x1000 / 512 / 512
    ensures v / 0x80_0000_0000 == v / 0x1000 / 512 / 512 / 512
  {
  }

  lemma LastDigit36(a: nat)
    ensures a % 0x10_0000_0000 == a / 512 % 0x800_0000 * 512 + a % 512
  {
  }

  lemma LastDigit27(a: nat)
    ensures a % 0x800_0000 == a / 512 % 0x4_0000 * 512 + a % 512
  {
  }

  lemma LastDigit18(a: nat)
    ensures a % 0x4_0000 == a / 512 % 512 * 512 + a % 512
  {
  }

  type Memory = map<nat, seq<Word64>>

  /** The table frame reached from `root` through the upper-level indices `p`. */
  function TableAt(mem: Memory, root: nat, p: Path): Option<nat>
  {
    if p == [] then Some(root)
    else
      var n := |p| - 1;
      match TableAt(mem, root, p[..n])
      case None => None
      case Some(t) =>
        if t in mem && p[n] < |mem[t]| && mem[t][p[n]].lo.present then Some(mem[t][p[n]].hi) else None
  }

  /** What the processor finds for the page `p`: a present leaf entry reached through present tables. */
  function Walk(mem: Memory, root: nat, p: Path): Option<Word64>
    requires |p| == 4
  {
    match TableAt(mem, root, p[..3])
    case None => None
    case Some(t) =>
      if t in mem && p[3] < |mem[t]| && mem[t][p[3]].lo.present then Some(mem[t][p[3]]) else None
  }

  /** The entry at level `n` on the way to the page `p` is present and gives the right. */
  predicate LevelGives(mem: Memory, root: nat, p: Path, n: nat, r: Right)
    requires |p| == 4 && n < 4
  {
    match TableAt(mem, root, p[..n])
    case None => false
    case Some(t) =>
      t in mem && p[n] < |mem[t]| && mem[t][p[n]].lo.present && Gives(mem[t][p[n]].lo, r)
  }

  /** The processor's check of a right: present and given at all four levels. */
  predicate Granted(mem: Memory, root: nat, p: Path, r: Right)
    requires |p| == 4
  {
    forall n :: 0 <= n < 4 ==> LevelGives(mem, root, p, n, r)
  }

  // ---- table trees --------------------------------------------------------------------------------------

  /** The table memory reached from `root`, with the two readings the proofs give it: `at` names every table
      frame by the path that leads to it, `flat` maps every mapped page to its leaf entry. */
  datatype Space = Space(root: nat, mem: Memory, at: map<Path, nat>, flat: map<Path, Word64>)

  ghost predicate IsPage(p: Path)
  {
    |p| == 4 && forall i :: 0 <= i < 4 ==> p[i] < 512
  }

  /** Every named table is a whole frame. */
  ghost predicate Whole(s: Space)
  {
    forall p {:trigger s.at[p]} :: p in s.at ==> s.at[p] in s.mem && |s.mem[s.at[p]]| == 512
  }

  ghost function Entry(s: Space, p: Path, i: nat): Word64
    requires Whole(s) && p in s.at && i < 512
  {
    s.mem[s.at[p]][i]
  }

  ghost predicate Links(s: Space, p: Path, i: nat)
    requires Whole(s) && p in s.at && i < 512
  {
    var e := Entry(s, p, i);
    if e.lo.present then p + [i] in s.at && e.hi == s.at[p + [i]] && e.lo.other == 0 else p + [i] !in s.at
  }

  /** The path of the table in the frame `f`. */
  ghost function PathOf(at: map<Path, nat>, f: nat): Path
  {
    if p :| p in at && at[p] == f then p else []
  }

  /** The root is at the empty path, no frame is two tables, and an upper entry is present exactly when it
      points at the table of its path; no upper entry has one of bits 3 to 11, which would make it map a large page. */
  ghost predicate Tree(s: Space)
  {
    && Whole(s)
    && [] in s.at && s.at[[]] == s.root
    && (forall p {:trigger PathOf(s.at, s.at[p])} :: p in s.at ==> PathOf(s.at, s.at[p]) == p)
    && (forall p, i {:trigger Links(s, p, i)} :: p in s.at && |p| < 3 && 0 <= i < 512 ==> Links(s, p, i))
    && (forall p :: p in s.at ==> |p| <= 3)
    && (forall p, i {:trigger p + [i]} :: p + [i] in s.at ==> p in s.at && i < 512)
  }

  ghost predicate LeafAgrees(s: Space, p: Path)
    requires Whole(s) && IsPage(p) && p[..3] in s.at
  {
    var e := Entry(s, p[..3], p[3]);
    if e.lo.present then p in s.flat && s.flat[p] == e else p !in s.flat
  }

  /** The entry that leads the page `p` out of its level-`n` table gives the right. */
  ghost predicate GivenAt(s: Space, p: Path, n: nat, r: Right)
    requires Whole(s) && IsPage(p) && n < 3
  {
    p[..n] in s.at && Gives(Entry(s, p[..n], p[n]).lo, r)
  }

  /** The first `n` entries on the way to the page `p` give the right. */
  ghost predicate GivenTo(s: Space, p: Path, n: nat, r: Right)
    requires Whole(s) && IsPage(p)
  {
    (n > 0 ==> GivenAt(s, p, 0, r)) && (n > 1 ==> GivenAt(s, p, 1, r)) && (n > 2 ==> GivenAt(s, p, 2, r))
  }

  ghost predicate GivenAbove(s: Space, p: Path, r: Right)
    requires Whole(s) && IsPage(p)
  {
    GivenTo(s, p, 3, r)
  }

  /** The tree and the flat map agree on every page, and what a leaf gives, the tables above it give. */
  ghost predicate Agrees(s: Space)
  {
    && Tree(s)
    && (forall p :: p in s.flat ==> IsPage(p) && p[..3] in s.at)
    && (forall p {:trigger LeafAgrees(s, p)} :: IsPage(p) && p[..3] in s.at ==> LeafAgrees(s, p))
    && (forall p, r {:trigger GivenAbove(s, p, r)} :: p in s.flat && Gives(s.flat[p].lo, r) ==> GivenAbove(s, p, r))
  }

  lemma {:induction false} TableAtPath(s: Space, p: Path)
    requires Tree(s) && |p| <= 3 && forall i :: 0 <= i < |p| ==> p[i] < 512
    ensures TableAt(s.mem, s.root, p) == if p in s.at then Some(s.at[p]) else None
  {
    if p != [] {
      var n := |p| - 1;
      TableAtPath(s, p[..n]);
      assert p == p[..n] + [p[n]];
      if p[..n] in s.at {
        assert Links(s, p[..n], p[n]);
      }
    }
  }

  /** The hardware walk of the tables reads exactly the flat map. */
  lemma WalkAgrees(s: Space, p: Path)
    requires Agrees(s) && IsPage(p)
    ensures Walk(s.mem, s.root, p) == if p in s.flat then Some(s.flat[p]) else None
  {
    TableAtPath(s, p[..3]);
    if p[..3] in s.at { assert LeafAgrees(s, p); }
  }

  /** The level-`n` entry is present exactly if there is a table behind it. */
  lemma LevelIs(s: Space, p: Path, n: nat, r: Right)
    requires Agrees(s) && IsPage(p) && n < 3
    ensures LevelGives(s.mem, s.root, p, n, r) <==> p[..n + 1] in s.at && GivenAt(s, p, n, r)
  {
    TableAtPath(s, p[..n]);
    assert p[..n] + [p[n]] == p[..n + 1];
    if p[..n] in s.at { assert Links(s, p[..n], p[n]); }
  }

  /** The processor grants a right on a page exactly if the page is mapped and its leaf gives it. */
  lemma GrantedExact(s: Space, p: Path, r: Right)
    requires Agrees(s) && IsPage(p)
    ensures Granted(s.mem, s.root, p, r) <==> p in s.flat && Gives(s.flat[p].lo, r)
  {
    LevelIs(s, p, 0, r);
    LevelIs(s, p, 1, r);
    LevelIs(s, p, 2, r);
    TableAtPath(s, p[..3]);
    assert p[..1] == p[..0] + [p[0]] && p[..2] == p[..1] + [p[1]] && p[..3] == p[..2] + [p[2]];
    if p[..3] in s.at { assert LeafAgrees(s, p); }
    if p in s.flat && Gives(s.flat[p].lo, r) {
      assert GivenAbove(s, p, r);
      forall n | 0 <= n < 4 ensures LevelGives(s.mem, s.root, p, n, r) { assert n == 0 || n == 1 || n == 2 || n == 3; }
    }
    if Granted(s.mem, s.root, p, r) { assert LevelGives(s.mem, s.root, p, 3, r); }
  }

  // ---- what one store into a table does -----------------------------------------------------------------

  ghost function Store(s: Space, p: Path, i: nat, e: Word64): Space
    requires Whole(s) && p in s.at && i < 512
  {
    s.(mem := s.mem[s.at[p] := s.mem[s.at[p]][i := e]])
  }

  /** Because no frame is two tables, a store changes one entry of one table. */
  lemma StoreAt(s: Space, p: Path, i: nat, e: Word64, q: Path, j: nat)
    requires Tree(s) && p in s.at && i < 512 && q in s.at && j < 512
    ensures Whole(Store(s, p, i, e))
    ensures Entry(Store(s, p, i, e), q, j) == if q == p && j == i then e else Entry(s, q, j)
  {
    assert PathOf(s.at, s.at[p]) == p && PathOf(s.at, s.at[q]) == q;
  }

  /** A store of a leaf, or one that keeps the presence and target of an upper entry, keeps the tree. */
  lemma StoreKeepsTree(s: Space, p: Path, i: nat, e: Word64)
    requires Tree(s) && p in s.at && i < 512
    requires |p| < 3 ==> (e.lo.present <==> Entry(s, p, i).lo.present) && e.hi == Entry(s, p, i).hi
                         && e.lo.other == Entry(s, p, i).lo.other
    ensures Tree(Store(s, p, i, e))
  {
    var s' := Store(s, p, i, e);
    forall q, j | q in s.at && |q| < 3 && 0 <= j < 512 ensures Links(s', q, j) {
      assert Links(s, q, j);
      StoreAt(s, p, i, e, q, j);
    }
  }

  /** A store that takes the right from no upper entry keeps every page under tables that give it. */
  lemma StoreKeepsGiven(s: Space, p: Path, i: nat, e: Word64, q: Path, n: nat, r: Right)
    requires Tree(s) && p in s.at && i < 512 && IsPage(q) && n < 3 && GivenAt(s, q, n, r)
    requires |p| < 3 && Gives(Entry(s, p, i).lo, r) ==> Gives(e.lo, r)
    ensures Whole(Store(s, p, i, e)) && GivenAt(Store(s, p, i, e), q, n, r)
  {
    StoreAt(s, p, i, e, q[..n], q[n]);
  }

  function PutLeaf(flat: map<Path, Word64>, p: Path, e: Word64): map<Path, Word64>
  {
    if e.lo.present then flat[p := e] else flat - {p}
  }

  ghost function StoreLeaf(s: Space, p: Path, e: Word64): Space
    requires Whole(s) && IsPage(p) && p[..3] in s.at
  {
    Store(s, p[..3], p[3], e).(flat := PutLeaf(s.flat, p, e))
  }

  lemma StoreLeafAt(s: Space, p: Path, e: Word64, q: Path)
    requires Tree(s) && IsPage(p) && p[..3] in s.at && IsPage(q) && q[..3] in s.at && LeafAgrees(s, q)
    ensures Whole(StoreLeaf(s, p, e)) && LeafAgrees(StoreLeaf(s, p, e), q)
  {
    StoreAt(s, p[..3], p[3], e, q[..3], q[3]);
    assert q == q[..3] + [q[3]] && p == p[..3] + [p[3]];
  }

  /** Whatever rights the leaf gives, the tables above it give. */
  ghost predicate Allowed(s: Space, p: Path, e: Word64)
    requires Whole(s) && IsPage(p)
  {
    e.lo.present ==> forall r :: Gives(e.lo, r) ==> GivenAbove(s, p, r)
  }

  lemma StoreLeafGiven(s: Space, p: Path, e: Word64, q: Path, r: Right)
    requires Agrees(s) && IsPage(p) && p[..3] in s.at && q in PutLeaf(s.flat, p, e) && Allowed(s, p, e)
    ensures Whole(StoreLeaf(s, p, e)) && IsPage(q) && q[..3] in s.at
    ensures Gives(PutLeaf(s.flat, p, e)[q].lo, r) ==> GivenAbove(StoreLeaf(s, p, e), q, r)
  {
    if q != p { assert q in s.flat && s.flat[q] == PutLeaf(s.flat, p, e)[q]; }
    if Gives(PutLeaf(s.flat, p, e)[q].lo, r) {
      assert GivenAbove(s, q, r);
      StoreKeepsGiven(s, p[..3], p[3], e, q, 0, r);
      StoreKeepsGiven(s, p[..3], p[3], e, q, 1, r);
      StoreKeepsGiven(s, p[..3], p[3], e, q, 2, r);
    }
  }

  /** Writing a leaf entry is an update of the flat map at that page and nowhere else. */
  lemma StoreLeafAgrees(s: Space, p: Path, e: Word64)
    requires Agrees(s) && IsPage(p) && p[..3] in s.at && Allowed(s, p, e)
    ensures Agrees(StoreLeaf(s, p, e))
  {
    var s' := StoreLeaf(s, p, e);
    StoreKeepsTree(s, p[..3], p[3], e);
    assert Tree(s') by {
      forall q, j | q in s.at && |q| < 3 && 0 <= j < 512 ensures Links(s', q, j) {
        assert Links(Store(s, p[..3], p[3], e), q, j);
      }
    }
    forall q | IsPage(q) && q[..3] in s.at ensures LeafAgrees(s', q) {
      StoreLeafAt(s, p, e, q);
    }
    forall q, r | q in s'.flat
      ensures IsPage(q) && q[..3] in s.at && (Gives(s'.flat[q].lo, r) ==> GivenAbove(s', q, r))
    {
      StoreLeafGiven(s, p, e, q, r);
    }
  }

  /** Opening a present upper entry to USER or RW changes no translation. */
  lemma StoreUpperAgrees(s: Space, p: Path, i: nat, e: Word64)
    requires Agrees(s) && p in s.at && |p| < 3 && i < 512
    requires e.lo.present == Entry(s, p, i).lo.present && e.hi == Entry(s, p, i).hi
    requires e.lo.other == Entry(s, p, i).lo.other && NoMore(Entry(s, p, i).lo, e.lo)
    ensures Agrees(Store(s, p, i, e))
  {
    var s' := Store(s, p, i, e);
    StoreKeepsTree(s, p, i, e);
    forall q | IsPage(q) && q[..3] in s.at ensures LeafAgrees(s', q) {
      assert LeafAgrees(s, q);
      StoreAt(s, p, i, e, q[..3], q[3]);
    }
    forall q, r | q in s.flat && Gives(s.flat[q].lo, r) ensures GivenAbove(s', q, r) {
      assert GivenAbove(s, q, r);
      StoreKeepsGiven(s, p, i, e, q, 0, r);
      StoreKeepsGiven(s, p, i, e, q, 1, r);
      StoreKeepsGiven(s, p, i, e, q, 2, r);
    }
  }

  // ---- a new table --------------------------------------------------------------------------------------

  /** A frame as the allocator hands it out. */
  function Zeroed(): (table: seq<Word64>)
    ensures |table| == 512 && forall i :: 0 <= i < 512 ==> table[i] == ZERO
    ensures forall i :: 0 <= i < 512 ==> table[i] == Word64(0, Flags(false, false, false, 0))
  {
    seq(512, _ => ZERO)
  }

  ghost predicate Linkable(s: Space, p: Path, i: nat, e: Word64)
  {
    && Tree(s) && p in s.at && |p| < 3 && i < 512 && !Entry(s, p, i).lo.present
    && e.lo.present && e.lo.other == 0 && e.hi !in s.at.Values
  }

  ghost function Link(s: Space, p: Path, i: nat, e: Word64): Space
    requires Linkable(s, p, i, e)
  {
    assert s.at[p] in s.at.Values;
    var mem := s.mem[e.hi := Zeroed()];
    s.(mem := mem[s.at[p] := mem[s.at[p]][i := e]], at := s.at[p + [i] := e.hi])
  }

  lemma LinkAt(s: Space, p: Path, i: nat, e: Word64, q: Path, j: nat)
    requires Linkable(s, p, i, e) && j < 512 && (q in s.at || q == p + [i])
    ensures p + [i] !in s.at
    ensures var s' := Link(s, p, i, e);
            && q in s'.at && s'.at[q] in s'.mem && |s'.mem[s'.at[q]]| == 512
            && (q in s.at ==> s'.at[q] == s.at[q] != e.hi)
            && s'.mem[s'.at[q]][j] == if q == p + [i] then ZERO else if q == p && j == i then e else Entry(s, q, j)
  {
    assert Links(s, p, i);
    assert s.at[p] in s.at.Values && PathOf(s.at, s.at[p]) == p;
    if q in s.at { assert s.at[q] in s.at.Values && PathOf(s.at, s.at[q]) == q; }
  }

  lemma LinkLinks(s: Space, p: Path, i: nat, e: Word64, q: Path, j: nat)
    requires Linkable(s, p, i, e) && j < 512 && |q| < 3 && (q in s.at || q == p + [i])
    requires Whole(Link(s, p, i, e))
    ensures q in Link(s, p, i, e).at && Links(Link(s, p, i, e), q, j)
  {
    LinkAt(s, p, i, e, q, j);
    assert (q + [j])[..|q|] == q && (p + [i])[..|p|] == p;
    if q in s.at {
      assert Links(s, q, j);
    }
  }

  /** Linking a zero-filled frame that is no table yet gives the tree one more, empty, table. */
  lemma LinkKeepsTree(s: Space, p: Path, i: nat, e: Word64)
    requires Linkable(s, p, i, e)
    ensures Tree(Link(s, p, i, e))
  {
    var s' := Link(s, p, i, e);
    forall q | q in s'.at ensures s'.at[q] in s'.mem && |s'.mem[s'.at[q]]| == 512 {
      LinkAt(s, p, i, e, q, 0);
    }
    forall q | q in s'.at ensures PathOf(s'.at, s'.at[q]) == q {
      var r := PathOf(s'.at, s'.at[q]);
      LinkAt(s, p, i, e, q, 0);
      LinkAt(s, p, i, e, r, 0);
      if q in s.at && r in s.at { assert PathOf(s.at, s.at[q]) == q && PathOf(s.at, s.at[r]) == r; }
    }
    forall q, j | q in s'.at && |q| < 3 && 0 <= j < 512 ensures Links(s', q, j) {
      LinkLinks(s, p, i, e, q, j);
    }
    forall q, j | q + [j] in s'.at ensures q in s'.at && j < 512 {
      if q + [j] == p + [i] { assert (q + [j])[..|q|] == q && (p + [i])[..|p|] == p; }
    }
  }

  lemma LinkKeepsGiven(s: Space, p: Path, i: nat, e: Word64, q: Path, n: nat, r: Right)
    requires Linkable(s, p, i, e) && IsPage(q) && n < 3 && GivenAt(s, q, n, r)
    requires q[..n + 1] in s.at || q[..n] != p
    requires Whole(Link(s, p, i, e))
    ensures GivenAt(Link(s, p, i, e), q, n, r)
  {
    LinkAt(s, p, i, e, q[..n], q[n]);
    assert q[..n] + [q[n]] == q[..n + 1];
  }

  /** A new table changes no translation. */
  lemma LinkAgrees(s: Space, p: Path, i: nat, e: Word64)
    requires Linkable(s, p, i, e) && Agrees(s)
    ensures Agrees(Link(s, p, i, e))
  {
    var s' := Link(s, p, i, e);
    LinkKeepsTree(s, p, i, e);
    LinkAt(s, p, i, e, p, i);
    forall q | IsPage(q) && q[..3] in s'.at ensures LeafAgrees(s', q) {
      LinkAt(s, p, i, e, q[..3], q[3]);
      if q[..3] in s.at { assert LeafAgrees(s, q); }
    }
    forall q, r | q in s.flat && Gives(s.flat[q].lo, r) ensures GivenAbove(s', q, r) {
      assert GivenAbove(s, q, r);
      LinkKeepsGiven(s, p, i, e, q, 0, r);
      LinkKeepsGiven(s, p, i, e, q, 1, r);
      LinkKeepsGiven(s, p, i, e, q, 2, r);
    }
  }

  // ---- whole spaces --------------------------------------------------------------------------------------

  lemma EmptySpaceAgrees(root: nat)
    ensures Agrees(Space(root, map[root := Zeroed()], map[[] := root], map[]))
  {
    var s := Space(root, map[root := Zeroed()], map[[] := root], map[]);
    assert forall i :: 0 <= i < 512 ==> Links(s, [], i);
    assert forall p :: IsPage(p) ==> |p[..3]| == 3;
  }

  /** Frames that are no tables do not matter. */
  lemma OutsideAgrees(s: Space, mem': Memory)
    requires Agrees(s) && forall f :: f in s.at.Values ==> f in mem' && mem'[f] == s.mem[f]
    ensures Agrees(s.(mem := mem'))
  {
    var s' := s.(mem := mem');
    forall p | p in s.at ensures s.at[p] in mem' && mem'[s.at[p]] == s.mem[s.at[p]] { assert s.at[p] in s.at.Values; }
    forall p, i | p in s.at && |p| < 3 && 0 <= i < 512 ensures Links(s', p, i) { assert Links(s, p, i); }
    forall p | IsPage(p) && p[..3] in s.at ensures LeafAgrees(s', p) { assert LeafAgrees(s, p); }
    forall p, r | p in s.flat && Gives(s.flat[p].lo, r) ensures GivenAbove(s', p, r) { assert GivenAbove(s, p, r); }
  }
}
