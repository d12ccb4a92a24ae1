/** ext4 directories as linear lists of records in bytes: lookup, enumeration, create and unlink. */
module Ext4Dir {
  import opened Common
  import opened Bytes

  type Block = seq<Byte>

  // ---- records -------------------------------------------------------------------------------------------

  /** A record at offset `off` that takes `len` bytes; it is in use if its inode is not 0. */
  datatype Tile = Tile(off: nat, len: nat, inode: nat, kind: Byte, name: seq<Byte>)

  datatype Entry = Entry(inode: nat, kind: Byte, name: seq<Byte>)

  /** Multiples of 4, counted up. */
  ghost predicate Aligned(x: nat)
  {
    x == 0 || (x >= 4 && Aligned(x - 4))
  }

  lemma {:induction false} AlignedMod(x: nat)
    ensures Aligned(x) <==> x % 4 == 0
  {
    if x >= 4 { AlignedMod(x - 4); }
  }

  lemma {:induction false} AlignedSum(x: nat, y: nat)
    requires Aligned(x) && Aligned(y)
    ensures Aligned(x + y)
  {
    if y > 0 { AlignedSum(x, y - 4); }
  }

  lemma {:induction false} AlignedDifference(x: nat, y: nat)
    requires Aligned(x) && Aligned(y) && x >= y
    ensures Aligned(x - y)
  {
    if y > 0 { AlignedDifference(x - 4, y - 4); }
  }

  /** The bytes a record with a name of `n` bytes needs: a header of 8, the name, padding to a multiple of 4. */
  ghost function Used(n: nat): (u: nat)
    ensures 8 + n <= u < 12 + n && Aligned(u)
  {
    if n == 0 then 8 else if n <= 4 then 12 else 4 + Used(n - 4)
  }

  /** The same as the code computes it. */
  method UsedLength(n: nat) returns (u: nat)
    ensures u == Used(n)
  {
    u := 8 + n;
    if u % 4 != 0 {
      RoundUp(u);
      u := u + (4 - u % 4);
    }
    UsedUnique(n, u);
  }

  lemma RoundUp(x: nat)
    ensures (x + (4 - x % 4)) % 4 == 0 && x < x + (4 - x % 4) <= x + 4
  {
    assert x + (4 - x % 4) == 4 * (x / 4 + 1);
  }

  lemma UsedUnique(n: nat, u: nat)
    requires 8 + n <= u < 12 + n && u % 4 == 0
    ensures u == Used(n)
  {
    var x := Used(n);
    AlignedMod(x);
    assert x / 4 * 4 == x && u / 4 * 4 == u;
  }

  ghost predicate Shaped(t: Tile)
  {
    t.inode < TWO_32 && t.len < TWO_16 && |t.name| < 256 && t.len >= Used(|t.name|) && Aligned(t.len)
  }

  /** The record at `t.off` reads as `t`. */
  ghost predicate Holds(b: Block, t: Tile)
  {
    && t.off + 8 + |t.name| <= |b|
    && Dec32(b, t.off) == t.inode && Dec16(b, t.off + 4) == t.len && b[t.off + 6] == |t.name| && b[t.off + 7] == t.kind
    && b[t.off + 8..t.off + 8 + |t.name|] == t.name
  }

  /** The records follow one another from `lo` to `hi` without a gap. */
  ghost predicate Layout(ts: seq<Tile>, lo: nat, hi: nat)
  {
    if ts == [] then lo == hi
    else Shaped(ts[0]) && ts[0].off == lo && Layout(ts[1..], lo + ts[0].len, hi)
  }

  ghost predicate HoldsAll(b: Block, ts: seq<Tile>)
  {
    forall t :: t in ts ==> Shaped(t) && Holds(b, t)
  }

  /** The records `ts` tile the block exactly. */
  ghost predicate Tiles(b: Block, ts: seq<Tile>)
  {
    Layout(ts, 0, |b|) && HoldsAll(b, ts)
  }

  function EntryOf(t: Tile): Entry { Entry(t.inode, t.kind, t.name) }

  /** The entries in use, in order. */
  function Live(ts: seq<Tile>): seq<Entry>
  {
    if ts == [] then [] else (if ts[0].inode != 0 then [EntryOf(ts[0])] else []) + Live(ts[1..])
  }

  lemma {:induction false} LiveCat(a: seq<Tile>, c: seq<Tile>)
    ensures Live(a + c) == Live(a) + Live(c)
  {
    if a == [] {
      assert a + c == c;
    } else {
      assert (a + c)[1..] == a[1..] + c;
      LiveCat(a[1..], c);
    }
  }

  lemma LiveLast(a: seq<Tile>, t: Tile)
    ensures Live(a + [t]) == Live(a) + if t.inode != 0 then [EntryOf(t)] else []
  {
    LiveCat(a, [t]);
    assert [t][1..] == [];
  }

  lemma {:induction false} LayoutBounds(ts: seq<Tile>, lo: nat, hi: nat)
    requires Layout(ts, lo, hi)
    ensures lo <= hi && forall t :: t in ts ==> Shaped(t) && lo <= t.off && t.off + t.len <= hi
  {
    if ts != [] { LayoutBounds(ts[1..], lo + ts[0].len, hi); }
  }

  function Span(ts: seq<Tile>): nat
  {
    if ts == [] then 0 else ts[0].len + Span(ts[1..])
  }

  lemma {:induction false} LayoutCat(a: seq<Tile>, c: seq<Tile>, lo: nat, hi: nat)
    ensures Layout(a + c, lo, hi) <==> Layout(a, lo, lo + Span(a)) && Layout(c, lo + Span(a), hi)
  {
    if a == [] {
      assert a + c == c;
    } else {
      assert (a + c)[1..] == a[1..] + c;
      LayoutCat(a[1..], c, lo + a[0].len, hi);
    }
  }

  /** A middle part can be replaced by another of the same span. */
  lemma LayoutMiddle(a: seq<Tile>, x: seq<Tile>, c: seq<Tile>, hi: nat)
    ensures Layout(a + x + c, 0, hi)
            <==> Layout(a, 0, Span(a)) && Layout(x, Span(a), Span(a) + Span(x)) && Layout(c, Span(a) + Span(x), hi)
  {
    assert a + x + c == a + (x + c);
    LayoutCat(a, x + c, 0, hi);
    LayoutCat(x, c, Span(a), hi);
  }

  lemma LayoutSwap(a: seq<Tile>, x: seq<Tile>, y: seq<Tile>, c: seq<Tile>, hi: nat)
    requires Layout(a + x + c, 0, hi) && Span(x) == Span(y) && Layout(y, Span(a), Span(a) + Span(y))
    ensures Layout(a + y + c, 0, hi)
  {
    LayoutMiddle(a, x, c, hi);
    LayoutMiddle(a, y, c, hi);
  }

  lemma Neighbours(a: seq<Tile>, x: seq<Tile>, c: seq<Tile>, hi: nat)
    requires Layout(a + x + c, 0, hi)
    ensures Span(a) + Span(x) <= hi && Layout(x, Span(a), Span(a) + Span(x))
    ensures Clear(a, Span(a), Span(a) + Span(x)) && Clear(c, Span(a), Span(a) + Span(x))
  {
    LayoutMiddle(a, x, c, hi);
    LayoutBounds(a, 0, Span(a));
    LayoutBounds(c, Span(a) + Span(x), hi);
  }

  lemma LayoutOne(t: Tile, lo: nat, hi: nat)
    ensures Layout([t], lo, hi) <==> Shaped(t) && t.off == lo && lo + t.len == hi
    ensures Span([t]) == t.len
  {
    assert [t][1..] == [];
  }

  lemma LayoutTwo(s: Tile, t: Tile, lo: nat, hi: nat)
    ensures Layout([s, t], lo, hi)
            <==> Shaped(s) && Shaped(t) && s.off == lo && t.off == lo + s.len && t.off + t.len == hi
    ensures Span([s, t]) == s.len + t.len
  {
    assert [s, t][1..] == [t];
    LayoutOne(t, lo + s.len, hi);
  }

  // ---- changing a block ----------------------------------------------------------------------------------

  /** A record depends only on its own bytes. */
  lemma SameRecord(b: Block, c: Block, t: Tile)
    requires Holds(b, t) && |c| == |b| && forall i :: t.off <= i < t.off + 8 + |t.name| ==> c[i] == b[i]
    ensures Holds(c, t)
  {
    var o := t.off;
    assert c[o] == b[o] && c[o + 1] == b[o + 1] && c[o + 2] == b[o + 2] && c[o + 3] == b[o + 3];
    assert c[o + 4] == b[o + 4] && c[o + 5] == b[o + 5];
    assert c[o + 8..o + 8 + |t.name|] == b[o + 8..o + 8 + |t.name|];
  }

  lemma HoldsElsewhere(b: Block, o: nat, chunk: Block, t: Tile)
    requires o + |chunk| <= |b| && Holds(b, t)
    requires t.off + 8 + |t.name| <= o || o + |chunk| <= t.off
    ensures Holds(Overlay(b, o, chunk), t)
  {
    SameRecord(b, Overlay(b, o, chunk), t);
  }

  /** A record that reads as `t` on its own does so where it is put. */
  lemma HoldsHere(b: Block, r: Block, t: Tile)
    requires |r| == 8 + |t.name| && Holds(r, t.(off := 0)) && t.off + |r| <= |b|
    ensures Holds(Overlay(b, t.off, r), t)
  {
    var c, o := Overlay(b, t.off, r), t.off;
    assert c[o] == r[0] && c[o + 1] == r[1] && c[o + 2] == r[2] && c[o + 3] == r[3];
    assert c[o + 4] == r[4] && c[o + 5] == r[5] && c[o + 6] == r[6] && c[o + 7] == r[7];
    assert c[o + 8..o + 8 + |t.name|] == r[8..];
  }

  ghost predicate Clear(ts: seq<Tile>, lo: nat, hi: nat)
  {
    forall t :: t in ts ==> t.off + 8 + |t.name| <= lo || hi <= t.off
  }

  lemma ClearInside(ts: seq<Tile>, lo: nat, hi: nat, lo': nat, hi': nat)
    requires Clear(ts, lo, hi) && lo <= lo' <= hi' <= hi
    ensures Clear(ts, lo', hi')
  {
  }

  lemma HoldsAllElsewhere(b: Block, o: nat, chunk: Block, ts: seq<Tile>)
    requires o + |chunk| <= |b| && HoldsAll(b, ts) && Clear(ts, o, o + |chunk|)
    ensures HoldsAll(Overlay(b, o, chunk), ts)
  {
    forall t | t in ts ensures Shaped(t) && Holds(Overlay(b, o, chunk), t) { HoldsElsewhere(b, o, chunk, t); }
  }

  lemma HoldsAllMiddle(b: Block, a: seq<Tile>, x: seq<Tile>, c: seq<Tile>)
    ensures HoldsAll(b, a + x + c) <==> HoldsAll(b, a) && HoldsAll(b, x) && HoldsAll(b, c)
  {
    forall t ensures t in a + x + c <==> t in a || t in x || t in c { }
  }

  lemma HoldsOne(b: Block, t: Tile)
    ensures HoldsAll(b, [t]) <==> Shaped(t) && Holds(b, t)
  {
    assert t in [t];
  }

  lemma HoldsTwo(b: Block, s: Tile, t: Tile)
    ensures HoldsAll(b, [s, t]) <==> Shaped(s) && Holds(b, s) && Shaped(t) && Holds(b, t)
  {
    assert s in [s, t] && t in [s, t];
  }

  /** A slice beyond what was written. */
  lemma Beyond(b: Block, o: nat, chunk: Block, lo: nat, hi: nat)
    requires o + |chunk| <= lo <= hi <= |b|
    ensures Overlay(b, o, chunk)[lo..hi] == b[lo..hi]
  {
    var c := Overlay(b, o, chunk);
    forall i | lo <= i < hi ensures c[i] == b[i] { }
  }

  /** Writing the length field of a record. */
  lemma Relength(b: Block, t: Tile, w: Block, len: nat)
    requires Holds(b, t) && |w| == 2 && Dec16(w, 0) == len
    ensures Holds(Overlay(b, t.off + 4, w), t.(len := len))
  {
    var c, o := Overlay(b, t.off + 4, w), t.off;
    assert c[o] == b[o] && c[o + 1] == b[o + 1] && c[o + 2] == b[o + 2] && c[o + 3] == b[o + 3];
    assert c[o + 4] == w[0] && c[o + 5] == w[1];
    Beyond(b, o + 4, w, o + 8, o + 8 + |t.name|);
  }

  /** Marking a record unused. */
  lemma Cleared(b: Block, t: Tile, z: Block)
    requires Holds(b, t) && |z| == 4 && Dec32(z, 0) == 0
    ensures Holds(Overlay(b, t.off, z), t.(inode := 0))
  {
    var c, o := Overlay(b, t.off, z), t.off;
    assert c[o] == z[0] && c[o + 1] == z[1] && c[o + 2] == z[2] && c[o + 3] == z[3];
    assert c[o + 4] == b[o + 4] && c[o + 5] == b[o + 5];
    Beyond(b, o, z, o + 8, o + 8 + |t.name|);
  }

  ghost function Shrunk(t: Tile): Tile { t.(len := Used(|t.name|)) }

  ghost function CutParts(a: seq<Tile>, t: Tile, n: Tile, c: seq<Tile>): seq<Tile> { a + [Shrunk(t), n] + c }

  ghost function Added(t: Tile, inode: nat, kind: Byte, name: seq<Byte>): Tile
    requires t.len >= Used(|t.name|)
  {
    Tile(t.off + Used(|t.name|), t.len - Used(|t.name|), inode, kind, name)
  }

  /** A record with room to spare is shrunk to what it needs, and a new one put behind it: the tiling stays
      exact. */
  lemma SplitInserts(b: Block, a: seq<Tile>, t: Tile, c: seq<Tile>, n: Tile, w: Block, r: Block)
    requires Tiles(b, a + [t] + c) && Shaped(t) && n == Added(t, n.inode, n.kind, n.name)
    requires 0 < n.inode < TWO_32 && |n.name| < 256 && t.len >= Used(|t.name|) + Used(|n.name|)
    requires |w| == 2 && Dec16(w, 0) == Used(|t.name|) && |r| == 8 + |n.name| && Holds(r, n.(off := 0))
    ensures t.off + t.len <= |b| && Tiles(Overlay(Overlay(b, t.off + 4, w), n.off, r), CutParts(a, t, n, c))
  {
    SplitShaped(t, n);
    SplitLayout(a, t, c, n, |b|);
    Neighbours(a, [t], c, |b|);
    HoldsAllMiddle(b, a, [t], c);
    HoldsOne(b, t);
    SplitOthers(b, a, t, n, w, r);
    SplitOthers(b, c, t, n, w, r);
    SplitOwn(b, t, n, w, r);
    var d := Overlay(Overlay(b, t.off + 4, w), n.off, r);
    HoldsAllMiddle(d, a, [Shrunk(t), n], c);
    HoldsTwo(d, Shrunk(t), n);
  }

  /** The bytes of a split: records elsewhere are untouched. */
  lemma SplitOthers(b: Block, others: seq<Tile>, t: Tile, n: Tile, w: Block, r: Block)
    requires Shaped(t) && t.off + Used(|t.name|) == n.off && n.off + |r| <= t.off + t.len <= |b| && |w| == 2
    requires HoldsAll(b, others) && Clear(others, t.off, t.off + t.len)
    ensures HoldsAll(Overlay(Overlay(b, t.off + 4, w), n.off, r), others)
  {
    ClearInside(others, t.off, t.off + t.len, t.off + 4, t.off + 6);
    ClearInside(others, t.off, t.off + t.len, n.off, n.off + |r|);
    HoldsAllElsewhere(b, t.off + 4, w, others);
    HoldsAllElsewhere(Overlay(b, t.off + 4, w), n.off, r, others);
  }

  /** And the two records are there. */
  lemma SplitOwn(b: Block, t: Tile, n: Tile, w: Block, r: Block)
    requires Shaped(t) && Holds(b, t) && t.off + Used(|t.name|) == n.off && n.off + |r| <= |b|
    requires |w| == 2 && Dec16(w, 0) == Used(|t.name|) && |r| == 8 + |n.name| && Holds(r, n.(off := 0))
    ensures var d := Overlay(Overlay(b, t.off + 4, w), n.off, r); Holds(d, Shrunk(t)) && Holds(d, n)
  {
    var m := Overlay(b, t.off + 4, w);
    Relength(b, t, w, Used(|t.name|));
    HoldsElsewhere(m, n.off, r, Shrunk(t));
    HoldsHere(m, r, n);
  }

  lemma SplitShaped(t: Tile, n: Tile)
    requires Shaped(t) && n == Added(t, n.inode, n.kind, n.name)
    requires n.inode < TWO_32 && |n.name| < 256 && t.len >= Used(|t.name|) + Used(|n.name|)
    ensures Shaped(Shrunk(t)) && Shaped(n)
  {
    AlignedDifference(t.len, Used(|t.name|));
  }

  lemma SplitLayout(a: seq<Tile>, t: Tile, c: seq<Tile>, n: Tile, hi: nat)
    requires Layout(a + [t] + c, 0, hi) && Shaped(t) && n == Added(t, n.inode, n.kind, n.name)
    requires Shaped(Shrunk(t)) && Shaped(n)
    ensures Layout(a + [Shrunk(t), n] + c, 0, hi) && t.off == Span(a) && Span([t]) == t.len
  {
    Neighbours(a, [t], c, hi);
    LayoutOne(t, Span(a), Span(a) + t.len);
    LayoutTwo(Shrunk(t), n, Span(a), Span(a) + t.len);
    LayoutSwap(a, [t], [Shrunk(t), n], c, hi);
  }

  /** The new entry comes right behind that of the record it was cut from. */
  lemma SplitLive(a: seq<Tile>, t: Tile, n: Tile, c: seq<Tile>)
    requires n.inode != 0
    ensures Live(a + [t] + c) == Live(a + [t]) + Live(c)
    ensures Live(a + [Shrunk(t), n] + c) == Live(a + [t]) + [EntryOf(n)] + Live(c)
  {
    var s := Shrunk(t);
    assert a + [s, n] == (a + [s]) + [n];
    LiveCat(a + [s] + [n], c);
    LiveLast(a + [s], n);
    LiveLast(a, s);
    LiveLast(a, t);
    LiveCat(a + [t], c);
  }

  ghost function Joined(p: Tile, t: Tile): Tile { p.(len := p.len + t.len) }

  /** A record is merged into the one before it: the tiling stays exact, and its entry is gone. */
  lemma MergeRemoves(b: Block, a: seq<Tile>, p: Tile, t: Tile, c: seq<Tile>, w: Block)
    requires Tiles(b, a + [p, t] + c) && |b| < TWO_16 && Shaped(p) && Shaped(t)
    requires |w| == 2 && Dec16(w, 0) == p.len + t.len
    ensures p.off + p.len + t.len <= |b| && Tiles(Overlay(b, p.off + 4, w), a + [Joined(p, t)] + c)
    ensures Live(a + [Joined(p, t)] + c) == Live(a + [p]) + Live(c)
  {
    var q := Joined(p, t);
    MergeLayout(a, p, t, c, |b|);
    Neighbours(a, [p, t], c, |b|);
    HoldsAllMiddle(b, a, [p, t], c);
    HoldsTwo(b, p, t);
    MergeHolds(b, a, p, q, c, w);
    MergeLive(a, p, q, c);
  }

  lemma MergeHolds(b: Block, a: seq<Tile>, p: Tile, q: Tile, c: seq<Tile>, w: Block)
    requires Holds(b, p) && Shaped(q) && q == p.(len := q.len) && |w| == 2 && Dec16(w, 0) == q.len
    requires HoldsAll(b, a) && HoldsAll(b, c) && Clear(a, p.off, p.off + q.len) && Clear(c, p.off, p.off + q.len)
    ensures HoldsAll(Overlay(b, p.off + 4, w), a + [q] + c)
  {
    MergeOwn(b, p, q, w);
    MergeOthers(b, a, p, q.len, w);
    MergeOthers(b, c, p, q.len, w);
    HoldsAllMiddle(Overlay(b, p.off + 4, w), a, [q], c);
  }

  lemma MergeOwn(b: Block, p: Tile, q: Tile, w: Block)
    requires Holds(b, p) && Shaped(q) && q == p.(len := q.len) && |w| == 2 && Dec16(w, 0) == q.len
    ensures HoldsAll(Overlay(b, p.off + 4, w), [q])
  {
    Relength(b, p, w, q.len);
    HoldsOne(Overlay(b, p.off + 4, w), q);
  }

  lemma MergeOthers(b: Block, ts: seq<Tile>, p: Tile, len: nat, w: Block)
    requires p.off + 8 <= |b| && len >= 8 && |w| == 2 && HoldsAll(b, ts) && Clear(ts, p.off, p.off + len)
    ensures HoldsAll(Overlay(b, p.off + 4, w), ts)
  {
    ClearInside(ts, p.off, p.off + len, p.off + 4, p.off + 6);
    HoldsAllElsewhere(b, p.off + 4, w, ts);
  }

  lemma MergeLive(a: seq<Tile>, p: Tile, q: Tile, c: seq<Tile>)
    requires EntryOf(q) == EntryOf(p)
    ensures Live(a + [q] + c) == Live(a + [p]) + Live(c)
  {
    LiveCat(a + [q], c);
    LiveLast(a, q);
    LiveLast(a, p);
  }

  lemma MergeLayout(a: seq<Tile>, p: Tile, t: Tile, c: seq<Tile>, hi: nat)
    requires Layout(a + [p, t] + c, 0, hi) && hi < TWO_16 && Shaped(p) && Shaped(t)
    ensures var q := Joined(p, t); Shaped(q) && Layout(a + [q] + c, 0, hi)
    ensures p.off == Span(a) && Span([p, t]) == p.len + t.len
  {
    var q := Joined(p, t);
    Neighbours(a, [p, t], c, hi);
    LayoutTwo(p, t, Span(a), Span(a) + q.len);
    AlignedSum(p.len, t.len);
    LayoutOne(q, Span(a), Span(a) + q.len);
    LayoutSwap(a, [p, t], [q], c, hi);
  }

  /** The first record of a block has none before it and is only marked unused. */
  lemma ClearRemoves(b: Block, t: Tile, c: seq<Tile>, z: Block)
    requires Tiles(b, [t] + c) && |z| == 4 && Dec32(z, 0) == 0
    ensures t.off == 0 && |b| >= 8
    ensures Tiles(Overlay(b, 0, z), [t.(inode := 0)] + c) && Live([t.(inode := 0)] + c) == Live(c)
  {
    var y := t.(inode := 0);
    assert ([t] + c)[1..] == c && ([y] + c)[1..] == c && [] + [t] + c == [t] + c && [] + [y] + c == [y] + c;
    LayoutBounds(c, t.len, |b|);
    HoldsAllMiddle(b, [], [t], c);
    HoldsOne(b, t);
    Cleared(b, t, z);
    HoldsAllElsewhere(b, 0, z, c);
    HoldsAllMiddle(Overlay(b, 0, z), [], [y], c);
    HoldsOne(Overlay(b, 0, z), y);
  }

  // ---- lists of entries ----------------------------------------------------------------------------------

  /** The position of the first entry with this name, or the length of the list. */
  function First(es: seq<Entry>, name: seq<Byte>): (i: nat)
    ensures i <= |es|
  {
    if es == [] then 0 else if es[0].name == name then 0 else 1 + First(es[1..], name)
  }

  lemma {:induction false} FirstCat(a: seq<Entry>, c: seq<Entry>, name: seq<Byte>)
    ensures First(a + c, name) == if First(a, name) < |a| then First(a, name) else |a| + First(c, name)
  {
    if a == [] {
      assert a + c == c;
    } else {
      assert (a + c)[1..] == a[1..] + c;
      FirstCat(a[1..], c, name);
    }
  }

  ghost predicate Matches(t: Tile, name: seq<Byte>)
  {
    t.inode != 0 && t.name == name
  }

  ghost predicate Unmatched(ts: seq<Tile>, name: seq<Byte>)
  {
    forall t :: t in ts ==> !Matches(t, name)
  }

  lemma {:induction false} NoMatch(ts: seq<Tile>, name: seq<Byte>)
    requires Unmatched(ts, name)
    ensures First(Live(ts), name) == |Live(ts)|
  {
    if ts != [] {
      NoMatch(ts[1..], name);
      assert !Matches(ts[0], name);
      FirstCat(if ts[0].inode != 0 then [EntryOf(ts[0])] else [], Live(ts[1..]), name);
    }
  }

  /** The first matching record is the first matching entry. */
  lemma FirstLive(a: seq<Tile>, t: Tile, c: seq<Tile>, name: seq<Byte>)
    requires Unmatched(a, name) && Matches(t, name)
    ensures First(Live(a + [t] + c), name) == |Live(a)|
    ensures Live(a + [t] + c) == Live(a) + [EntryOf(t)] + Live(c)
  {
    var front, e, back := Live(a), EntryOf(t), Live(c);
    assert Live(a + [t] + c) == front + [e] + back by {
      LiveLast(a, t);
      LiveCat(a + [t], c);
    }
    assert First(front, name) == |front| by { NoMatch(a, name); }
    assert front + [e] + back == front + ([e] + back);
    FirstCat(front, [e] + back, name);
  }

  lemma FirstAt(ts: seq<Tile>, k: nat, name: seq<Byte>)
    requires k < |ts| && Unmatched(ts[..k], name) && Matches(ts[k], name)
    ensures First(Live(ts), name) == |Live(ts[..k])| < |Live(ts)|
    ensures Live(ts) == Live(ts[..k]) + [EntryOf(ts[k])] + Live(ts[k + 1..])
  {
    assert ts == ts[..k] + [ts[k]] + ts[k + 1..];
    FirstLive(ts[..k], ts[k], ts[k + 1..], name);
  }

  /** The entries of all blocks of a directory. */
  ghost function Listing(tss: seq<seq<Tile>>): seq<Entry>
  {
    if tss == [] then [] else Live(tss[0]) + Listing(tss[1..])
  }

  lemma {:induction false} ListingAt(tss: seq<seq<Tile>>, k: nat)
    requires k < |tss|
    ensures Listing(tss) == Listing(tss[..k]) + Live(tss[k]) + Listing(tss[k + 1..])
  {
    if k > 0 {
      var rest := tss[1..];
      assert tss[..k][1..] == rest[..k - 1];
      assert tss[k + 1..] == rest[k..];
      assert tss[..k][0] == tss[0] && rest[k - 1] == tss[k];
      ListingAt(rest, k - 1);
    }
  }

  function Lookup(es: seq<Entry>, name: seq<Byte>): Option<nat>
  {
    if First(es, name) < |es| then Some(es[First(es, name)].inode) else None
  }

  /** A name not found in the first `n` blocks is looked for in the next. */
  lemma ListingHead(tss: seq<seq<Tile>>, n: nat, name: seq<Byte>)
    requires n < |tss| && First(Listing(tss[..n]), name) == |Listing(tss[..n])|
    ensures Listing(tss[..n + 1]) == Listing(tss[..n]) + Live(tss[n])
    ensures First(Listing(tss[..n + 1]), name) == |Listing(tss[..n])| + First(Live(tss[n]), name)
    ensures First(Live(tss[n]), name) < |Live(tss[n])| ==>
              First(Listing(tss), name) == |Listing(tss[..n])| + First(Live(tss[n]), name) < |Listing(tss)|
  {
    ListingSnoc(tss, n);
    ListingAt(tss, n);
    FirstCat(Listing(tss[..n]), Live(tss[n]), name);
    FirstCat(Listing(tss[..n]) + Live(tss[n]), Listing(tss[n + 1..]), name);
  }

  lemma ListingSplit(tss: seq<seq<Tile>>, n: nat, k: nat)
    requires n < |tss| && k < |tss[n]| && tss[n][k].inode != 0
    ensures |Listing(tss[..n])| + |Live(tss[n][..k])| < |Listing(tss)|
    ensures Listing(tss)[|Listing(tss[..n])| + |Live(tss[n][..k])|] == EntryOf(tss[n][k])
  {
    var ts := tss[n];
    assert ts == ts[..k] + [ts[k]] + ts[k + 1..];
    LiveLast(ts[..k], ts[k]);
    LiveCat(ts[..k] + [ts[k]], ts[k + 1..]);
    ListingAt(tss, n);
  }

  /** Putting other records into block `k`. */
  lemma ListingUpdate(tss: seq<seq<Tile>>, k: nat, ts: seq<Tile>)
    requires k < |tss|
    ensures Listing(tss[k := ts]) == Listing(tss[..k]) + Live(ts) + Listing(tss[k + 1..])
  {
    ListingAt(tss[k := ts], k);
    assert tss[k := ts][..k] == tss[..k] && tss[k := ts][k + 1..] == tss[k + 1..];
  }

  method EncodeLength(len: nat) returns (w: Block)
    requires len < TWO_16
    ensures |w| == 2 && Dec16(w, 0) == len
  {
    w := Enc16(len);
    RoundTrip16(len, w, 0);
  }

  method EncodeRecord(t: Tile) returns (r: Block)
    requires t.inode < TWO_32 && t.len < TWO_16 && |t.name| < 256
    ensures |r| == 8 + |t.name| && Holds(r, t.(off := 0))
  {
    r := Enc32(t.inode) + Enc16(t.len) + [|t.name|, t.kind] + t.name;
    assert r[0..4] == Enc32(t.inode) && r[4..6] == Enc16(t.len) && r[8..] == t.name;
    RoundTrip32(t.inode, r, 0);
    RoundTrip16(t.len, r, 4);
  }

  // ---- the directory -------------------------------------------------------------------------------------

  /** `es` with the element at `i` taken out. */
  function Without(es: seq<Entry>, i: nat): seq<Entry>
    requires i < |es|
  {
    es[..i] + es[i + 1..]
  }

  function With(es: seq<Entry>, i: nat, e: Entry): seq<Entry>
    requires i <= |es|
  {
    es[..i] + [e] + es[i..]
  }

  ghost predicate Full(ts: seq<Tile>, need: nat)
  {
    forall t :: t in ts ==> t.len < Used(|t.name|) + need
  }

  /** No block has a record with room for `need` more bytes. */
  ghost predicate NoRoom(tss: seq<seq<Tile>>, need: nat)
  {
    forall i :: 0 <= i < |tss| ==> Full(tss[i], need)
  }

  lemma FullNext(ts: seq<Tile>, k: nat, need: nat)
    requires k < |ts| && Full(ts[..k], need) && ts[k].len < Used(|ts[k].name|) + need
    ensures Full(ts[..k + 1], need)
  {
    OneOut(ts, k);
  }

  lemma UnmatchedNext(ts: seq<Tile>, k: nat, name: seq<Byte>)
    requires k < |ts| && Unmatched(ts[..k], name) && !Matches(ts[k], name)
    ensures Unmatched(ts[..k + 1], name)
  {
    OneOut(ts, k);
  }

  /** A walk that stands before record `k`. */
  ghost predicate Boundary(b: Block, ts: seq<Tile>, k: nat, o: nat)
  {
    k <= |ts| && Layout(ts[k..], o, |b|)
  }

  lemma Step(b: Block, ts: seq<Tile>, k: nat, o: nat)
    requires Tiles(b, ts) && Boundary(b, ts, k, o) && o < |b|
    ensures k < |ts| && ts[k].off == o && Shaped(ts[k]) && Holds(b, ts[k])
    ensures Boundary(b, ts, k + 1, o + ts[k].len) && o + ts[k].len <= |b|
  {
    assert ts[k] in ts && ts[k..][1..] == ts[k + 1..];
    LayoutBounds(ts[k + 1..], o + ts[k].len, |b|);
  }

  /** The records with record `k` merged into the one before it. */
  ghost function Merged(ts: seq<Tile>, k: nat): seq<Tile>
    requires 0 < k < |ts|
  {
    ts[..k - 1] + [Joined(ts[k - 1], ts[k])] + ts[k + 1..]
  }

  lemma MergePair(b: Block, ts: seq<Tile>, k: nat)
    requires Tiles(b, ts) && 0 < k < |ts|
    ensures Shaped(ts[k - 1]) && Shaped(ts[k]) && Holds(b, ts[k - 1]) && Holds(b, ts[k])
    ensures ts[k - 1].len + ts[k].len <= |b|
  {
    var a, c := ts[..k - 1], ts[k + 1..];
    assert ts == a + [ts[k - 1], ts[k]] + c && ts[k - 1] in ts && ts[k] in ts;
    Neighbours(a, [ts[k - 1], ts[k]], c, |b|);
    LayoutTwo(ts[k - 1], ts[k], 0, 0);
  }

  lemma MergeTiles(b: Block, ts: seq<Tile>, k: nat, w: Block)
    requires Tiles(b, ts) && |b| < TWO_16 && 0 < k < |ts| && |w| == 2 && Dec16(w, 0) == ts[k - 1].len + ts[k].len
    ensures ts[k - 1].off + 6 <= |b| && Tiles(Overlay(b, ts[k - 1].off + 4, w), Merged(ts, k))
    ensures Live(Merged(ts, k)) == Live(ts[..k]) + Live(ts[k + 1..])
  {
    PairOut(ts, k);
    MergePair(b, ts, k);
    MergeRemoves(b, ts[..k - 1], ts[k - 1], ts[k], ts[k + 1..], w);
  }

  lemma PairOut<T>(s: seq<T>, k: nat)
    requires 0 < k < |s|
    ensures s == s[..k - 1] + [s[k - 1], s[k]] + s[k + 1..] && s[..k] == s[..k - 1] + [s[k - 1]]
  {
  }

  const REGULAR: Byte := 1
  const DIRECTORY: Byte := 2

  /** The name as a record holds it: its length is one byte. */
  function Stored(name: seq<Byte>): (r: seq<Byte>)
    ensures |r| < 256
  {
    name[..|name| % 256]
  }

  lemma SplitRoom(b: Block, ts: seq<Tile>, k: nat)
    requires Tiles(b, ts) && k < |ts|
    ensures Shaped(ts[k]) && Holds(b, ts[k]) && ts[k].off + ts[k].len <= |b|
  {
    assert ts[k] in ts;
    LayoutBounds(ts, 0, |b|);
  }

  /** The records with record `k` shrunk and a new one behind it. */
  ghost function Cut(ts: seq<Tile>, k: nat, n: Tile): seq<Tile>
    requires k < |ts|
  {
    CutParts(ts[..k], ts[k], n, ts[k + 1..])
  }

  lemma SplitTiles(b: Block, ts: seq<Tile>, k: nat, n: Tile, w: Block, r: Block)
    requires Tiles(b, ts) && k < |ts| && Shaped(ts[k]) && n == Added(ts[k], n.inode, n.kind, n.name)
    requires 0 < n.inode < TWO_32 && |n.name| < 256 && ts[k].len >= Used(|ts[k].name|) + Used(|n.name|)
    requires |w| == 2 && Dec16(w, 0) == Used(|ts[k].name|) && |r| == 8 + |n.name| && Holds(r, n.(off := 0))
    ensures ts[k].off + ts[k].len <= |b|
    ensures Tiles(Overlay(Overlay(b, ts[k].off + 4, w), n.off, r), Cut(ts, k, n))
  {
    var a, t, c := ts[..k], ts[k], ts[k + 1..];
    OneOut(ts, k);
    assert Tiles(b, a + [t] + c);
    SplitInserts(b, a, t, c, n, w, r);
  }

  lemma CutLive(ts: seq<Tile>, k: nat, n: Tile)
    requires k < |ts| && n.inode != 0
    ensures Live(ts) == Live(ts[..k + 1]) + Live(ts[k + 1..])
    ensures Live(Cut(ts, k, n)) == Live(ts[..k + 1]) + [EntryOf(n)] + Live(ts[k + 1..])
  {
    OneOut(ts, k);
    SplitLive(ts[..k], ts[k], n, ts[k + 1..]);
  }

  lemma OneOut<T>(s: seq<T>, k: nat)
    requires k < |s|
    ensures s == s[..k] + [s[k]] + s[k + 1..] && s[..k + 1] == s[..k] + [s[k]]
  {
  }

  /** How many of the first `k` records are in use. */
  ghost function InUse(ts: seq<Tile>, k: nat): nat
    requires k <= |ts|
  {
    if k == 0 then 0 else InUse(ts, k - 1) + if ts[k - 1].inode != 0 then 1 else 0
  }

  lemma {:induction false} InUseLive(ts: seq<Tile>, k: nat)
    requires k <= |ts|
    ensures InUse(ts, k) == |Live(ts[..k])| <= |Live(ts)|
    ensures k < |ts| && ts[k].inode != 0 ==> InUse(ts, k) < |Live(ts)| && Live(ts)[InUse(ts, k)] == EntryOf(ts[k])
  {
    assert ts == ts[..k] + ts[k..];
    LiveCat(ts[..k], ts[k..]);
    if k > 0 {
      InUseLive(ts, k - 1);
      OneOut(ts, k - 1);
      LiveLast(ts[..k - 1], ts[k - 1]);
    }
  }

  lemma ListingSnoc(tss: seq<seq<Tile>>, n: nat)
    requires n < |tss|
    ensures Listing(tss[..n + 1]) == Listing(tss[..n]) + Live(tss[n])
  {
    ListingAt(tss[..n + 1], n);
    assert tss[..n + 1][..n] == tss[..n] && tss[..n + 1][n + 1..] == [];
  }

  lemma WalkEnd(b: Block, ts: seq<Tile>, k: nat, o: nat)
    requires Boundary(b, ts, k, o) && o >= |b|
    ensures k == |ts| && ts[..k] == ts
  {
    LayoutBounds(ts[k..], o, |b|);
  }

  // ---- what a caller of readdir gets ---------------------------------------------------------------------

  /** A record for the caller, with a name field of 128 bytes. */
  datatype Dirent = Dirent(name: seq<Byte>, inode: nat, kind: nat)
  {
    /** The name: the bytes of the field before the first 0, if there is one. */
    function Name(): Option<seq<Byte>> { Terminated(name) }
  }

  function Terminated(s: seq<Byte>): Option<seq<Byte>>
  {
    if s == [] then None
    else if s[0] == 0 then Some([])
    else match Terminated(s[1..]) case None => None case Some(t) => Some([s[0]] + t)
  }

  lemma {:induction false} TerminatedIs(s: seq<Byte>, t: seq<Byte>)
    requires 0 !in t && |t| <= |s| && s[..|t|] == t && (|t| < |s| ==> s[|t|] == 0)
    ensures Terminated(s) == if |t| < |s| then Some(t) else None
  {
    if t != [] {
      assert s[0] == s[..|t|][0] == t[0] && t[0] in t;
      assert s[1..][..|t| - 1] == s[..|t|][1..] == t[1..];
      TerminatedIs(s[1..], t[1..]);
      assert t == [t[0]] + t[1..];
    }
  }

  const FILE_TYPE: nat := 1
  const DIRECTORY_TYPE: nat := 2

  ghost predicate Shows(d: Dirent, e: Entry)
  {
    && |d.name| == 128 && d.inode == e.inode && d.kind == (if e.kind == 2 then 2 else 1)
    && forall i :: 0 <= i < 128 ==> d.name[i] == if i < |e.name| then e.name[i] else 0
  }

  /** Fills the record: the name is copied first, past the end of its field if it is long, and closed with a 0; inode
      and type, which lie behind the field, are written after it. */
  method FillDirent(e: Entry) returns (d: Dirent)
    requires |e.name| < 256 && e.inode < TWO_32
    ensures Shows(d, e)
  {
    var zeros: Block := seq(256, _ => 0);
    var named := Overlay(zeros, 0, e.name)[|e.name| := 0];
    var kind := if e.kind == DIRECTORY then DIRECTORY_TYPE else FILE_TYPE;
    var numbered := Overlay(named, 128, Enc32(e.inode));
    var full := Overlay(numbered, 132, Enc32(kind));
    assert numbered[128..132] == Enc32(e.inode);
    assert full[128..132] == numbered[128..132];
    assert full[132..136] == Enc32(kind);
    RoundTrip32(e.inode, full, 128);
    RoundTrip32(kind, full, 132);
    d := Dirent(full[..128], Dec32(full, 128), Dec32(full, 132));
    forall i | 0 <= i < 128 ensures d.name[i] == if i < |e.name| then e.name[i] else 0 {
      assert full[i] == numbered[i] && numbered[i] == named[i];
    }
  }

  /** A name comes back if and only if there is room for it and its 0 in the field. */
  lemma ShownName(d: Dirent, e: Entry)
    requires Shows(d, e)
    ensures 0 !in e.name ==> (d.Name() == Some(e.name) <==> |e.name| <= 127)
  {
    if 0 !in e.name {
      var t := e.name[..Min(|e.name|, 128)];
      assert d.name[..|t|] == t && (|e.name| <= 127 ==> t == e.name);
      TerminatedIs(d.name, t);
    }
  }

  /** For instance, 200 letters are created and found, and never listed. */
  lemma LongNameNotListed(d: Dirent, inode: nat)
    requires Shows(d, Entry(inode, REGULAR, seq(200, _ => 65)))
    ensures Lookup([Entry(inode, REGULAR, seq(200, _ => 65))], seq(200, _ => 65)) == Some(inode)
    ensures d.Name() == None
  {
    var e := Entry(inode, REGULAR, seq(200, _ => 65));
    assert e.name[..128] == d.name[..128];
    FirstOne(e, e.name);
    TerminatedIs(d.name, e.name[..128]);
  }

  /** The list with an entry put in behind that of record `k` of block `n`. */
  lemma PutBehind(tss: seq<seq<Tile>>, n: nat, k: nat, e: Entry)
    requires n < |tss| && k < |tss[n]|
    ensures var front, ts, back := Listing(tss[..n]), tss[n], Listing(tss[n + 1..]);
            && |front| + |Live(ts[..k + 1])| <= |Listing(tss)|
            && With(Listing(tss), |front| + |Live(ts[..k + 1])|, e)
               == front + (Live(ts[..k + 1]) + [e] + Live(ts[k + 1..])) + back
  {
    var ts := tss[n];
    ListingAt(tss, n);
    assert ts == ts[..k + 1] + ts[k + 1..];
    LiveCat(ts[..k + 1], ts[k + 1..]);
    PutIn(Listing(tss[..n]), Live(ts[..k + 1]), e, Live(ts[k + 1..]), Listing(tss[n + 1..]));
  }

  /** The list without its first entry of a name, put together from the records around it. */
  lemma TakenOut(tss: seq<seq<Tile>>, n: nat, k: nat, name: seq<Byte>)
    requires n < |tss| && k < |tss[n]| && Unmatched(tss[n][..k], name) && Matches(tss[n][k], name)
    requires First(Listing(tss), name) == |Listing(tss[..n])| + |Live(tss[n][..k])| < |Listing(tss)|
    ensures Without(Listing(tss), First(Listing(tss), name))
            == Listing(tss[..n]) + (Live(tss[n][..k]) + Live(tss[n][k + 1..])) + Listing(tss[n + 1..])
  {
    var ts := tss[n];
    ListingAt(tss, n);
    FirstAt(ts, k, name);
    TakeOut(Listing(tss[..n]), Live(ts[..k]), EntryOf(ts[k]), Live(ts[k + 1..]), Listing(tss[n + 1..]));
  }

  /** The blocks of a directory, `None` where it has a hole. */
  class Directory {
    const blockSize: nat
    var blocks: seq<Option<Block>>
    ghost var tiles: seq<seq<Tile>>

    ghost predicate BlockOk(k: nat)
      requires k < |blocks| && k < |tiles|
      reads this
    {
      match blocks[k]
      case None => tiles[k] == []
      case Some(b) => |b| == blockSize && Tiles(b, tiles[k])
    }

    ghost predicate Valid()
      reads this
    {
      0 < blockSize < TWO_16 && |tiles| == |blocks| && forall k :: 0 <= k < |blocks| ==> BlockOk(k)
    }

    ghost function All(): seq<Entry>
      reads this
    {
      Listing(tiles)
    }

    constructor (blockSize: nat, blocks: seq<Option<Block>>, ghost tiles: seq<seq<Tile>>)
      ensures this.blockSize == blockSize && this.blocks == blocks && this.tiles == tiles
    {
      this.blockSize, this.blocks, this.tiles := blockSize, blocks, tiles;
    }

    /** Reads the record the walk stands before, and where the next one begins. */
    static method ReadAt(b: Block, o: nat, ghost ts: seq<Tile>, ghost k: nat) returns (e: Entry, len: nat)
      requires Tiles(b, ts) && Boundary(b, ts, k, o) && o < |b|
      ensures k < |ts| && ts[k].off == o && e == EntryOf(ts[k]) && len == ts[k].len > 0
      ensures Boundary(b, ts, k + 1, o + len) && o + len <= |b|
      ensures |e.name| < 256 && e.inode < TWO_32
    {
      Step(b, ts, k, o);
      e, len := Decode(b, o, ts[k]);
    }

    static method Decode(b: Block, o: nat, ghost t: Tile) returns (e: Entry, len: nat)
      requires Holds(b, t) && o == t.off
      ensures e == EntryOf(t) && len == t.len && |e.name| < 256 && e.inode < TWO_32
    {
      var nameLen: nat := b[o + 6];
      e, len := Entry(Dec32(b, o), b[o + 7], b[o + 8..o + 8 + nameLen]), Dec16(b, o + 4);
    }

    /** Walks the records of one block for a name; also says where the record before it is. */
    static method FindInBlock(b: Block, name: seq<Byte>, ghost ts: seq<Tile>)
        returns (found: bool, o: nat, prev: Option<nat>, ghost k: nat)
      requires Tiles(b, ts)
      ensures k <= |ts| && found == (k < |ts|) && Unmatched(ts[..k], name)
      ensures found ==> o == ts[k].off && Matches(ts[k], name) && prev == if k == 0 then None else Some(ts[k - 1].off)
    {
      o, prev, k := 0, None, 0;
      while o < |b|
        invariant Boundary(b, ts, k, o)
        invariant prev == if k == 0 then None else Some(ts[k - 1].off)
        invariant Unmatched(ts[..k], name)
        decreases |b| - o
      {
        var e, len := ReadAt(b, o, ts, k);
        if e.inode != 0 && e.name == name { return true, o, prev, k; }
        UnmatchedNext(ts, k, name);
        prev := Some(o);
        o := o + len;
        k := k + 1;
      }
      WalkEnd(b, ts, k, o);
      found := false;
    }

    /** The record of the first entry with this name, over all blocks. */
    method Locate(name: seq<Byte>) returns (found: bool, n: nat, o: nat, prev: Option<nat>, ghost k: nat)
      requires Valid()
      ensures found == (First(All(), name) < |All()|)
      ensures found ==> n < |blocks| && blocks[n].Some? && k < |tiles[n]| && o == tiles[n][k].off
      ensures found ==> Unmatched(tiles[n][..k], name) && Matches(tiles[n][k], name)
      ensures found ==> First(All(), name) == |Listing(tiles[..n])| + |Live(tiles[n][..k])|
      ensures found ==> prev == if k == 0 then None else Some(tiles[n][k - 1].off)
    {
      n, o, prev, k := 0, 0, None, 0;
      while n < |blocks|
        invariant n <= |blocks| && First(Listing(tiles[..n]), name) == |Listing(tiles[..n])|
      {
        ListingHead(tiles, n, name);
        assert BlockOk(n);
        if blocks[n].Some? {
          found, o, prev, k := FindInBlock(blocks[n].value, name, tiles[n]);
          if found {
            FirstAt(tiles[n], k, name);
            return;
          }
          assert tiles[n][..k] == tiles[n];
          NoMatch(tiles[n], name);
        }
        n := n + 1;
      }
      assert tiles[..n] == tiles;
      found := false;
    }

    /** The inode of the first entry with this name. */
    method Finddir(name: seq<Byte>) returns (r: Option<nat>)
      requires Valid()
      ensures r == Lookup(All(), name)
    {
      var found, n, o, prev;
      ghost var k;
      found, n, o, prev, k := Locate(name);
      if !found { return None; }
      assert BlockOk(n) && tiles[n][k] in tiles[n];
      ListingSplit(tiles, n, k);
      r := Some(Dec32(blocks[n].value, o));
    }

    /** Takes the record out of its block. */
    method RemoveAt(n: nat, o: nat, prev: Option<nat>, ghost k: nat)
      requires Valid() && n < |blocks| && blocks[n].Some? && k < |tiles[n]| && o == tiles[n][k].off
      requires prev == if k == 0 then None else Some(tiles[n][k - 1].off)
      modifies this
      ensures Valid() && |blocks| == |old(blocks)|
      ensures old(All()) == Listing(old(tiles)[..n]) + Live(old(tiles)[n]) + Listing(old(tiles)[n + 1..])
      ensures All() == Listing(old(tiles)[..n])
          + (Live(old(tiles)[n][..k]) + Live(old(tiles)[n][k + 1..])) + Listing(old(tiles)[n + 1..])
    {
      assert BlockOk(n);
      var b := blocks[n].value;
      ghost var ts := tiles[n];
      ListingAt(tiles, n);
      if prev.Some? {
        var b', ts' := MergeAt(b, o, prev.value, ts, k);
        Replace(n, b', ts');
      } else {
        assert ts == [ts[0]] + ts[1..];
        RoundTrip32(0, Enc32(0), 0);
        ClearRemoves(b, ts[0], ts[1..], Enc32(0));
        Replace(n, Overlay(b, 0, Enc32(0)), [ts[0].(inode := 0)] + ts[1..]);
      }
    }

    static method MergeAt(b: Block, o: nat, p: nat, ghost ts: seq<Tile>, ghost k: nat) returns (b': Block,
        ghost ts': seq<Tile>)
      requires Tiles(b, ts) && |b| < TWO_16 && 0 < k < |ts| && o == ts[k].off && p == ts[k - 1].off
      ensures |b'| == |b| && Tiles(b', ts') && Live(ts') == Live(ts[..k]) + Live(ts[k + 1..])
    {
      MergePair(b, ts, k);
      var len := Dec16(b, p + 4) + Dec16(b, o + 4);
      var w := EncodeLength(len);
      MergeTiles(b, ts, k, w);
      b', ts' := Overlay(b, p + 4, w), Merged(ts, k);
    }

    /** Writes a block back. */
    method Replace(n: nat, b: Block, ghost ts: seq<Tile>)
      requires Valid() && n < |blocks| && |b| == blockSize && Tiles(b, ts)
      modifies this
      ensures Valid() && |blocks| == |old(blocks)| && tiles == old(tiles)[n := ts]
      ensures All() == Listing(old(tiles)[..n]) + Live(ts) + Listing(old(tiles)[n + 1..])
    {
      ListingUpdate(tiles, n, ts);
      blocks, tiles := blocks[n := Some(b)], tiles[n := ts];
      forall k | 0 <= k < |blocks| ensures BlockOk(k) { assert k != n ==> old(BlockOk(k)); }
    }

    /** Removes the first entry with this name and nothing else; fails, changing nothing, when there is none. */
    method Unlink(name: seq<Byte>) returns (ok: bool)
      requires Valid()
      modifies this
      ensures Valid() && ok == (First(old(All()), name) < |old(All())|)
      ensures All() == if ok then Without(old(All()), First(old(All()), name)) else old(All())
    {
      var n, o, prev;
      ghost var k;
      ok, n, o, prev, k := Locate(name);
      if ok {
        TakenOut(tiles, n, k, name);
        RemoveAt(n, o, prev, k);
      }
    }

    /** The first record of a block with room for `need` more bytes. */
    static method SpaceInBlock(b: Block, need: nat, ghost ts: seq<Tile>) returns (found: bool, o: nat, ghost k: nat)
      requires Tiles(b, ts)
      ensures found ==> k < |ts| && o == ts[k].off && ts[k].len >= Used(|ts[k].name|) + need
      ensures !found ==> Full(ts, need)
    {
      o, k := 0, 0;
      while o < |b|
        invariant Boundary(b, ts, k, o) && Full(ts[..k], need)
        decreases |b| - o
      {
        var e, len := ReadAt(b, o, ts, k);
        var used := UsedLength(|e.name|);
        if len >= used + need { return true, o, k; }
        FullNext(ts, k, need);
        o := o + len;
        k := k + 1;
      }
      WalkEnd(b, ts, k, o);
      found := false;
    }

    /** The first block that has such a record. */
    method FindFreeEntrySpace(need: nat) returns (found: bool, n: nat, o: nat, ghost k: nat)
      requires Valid()
      ensures found ==> n < |blocks| && blocks[n].Some? && k < |tiles[n]| && o == tiles[n][k].off
      ensures found ==> tiles[n][k].len >= Used(|tiles[n][k].name|) + need
      ensures found <==> !NoRoom(tiles, need)
    {
      n, o, k := 0, 0, 0;
      while n < |blocks|
        invariant n <= |blocks| && forall i :: 0 <= i < n ==> Full(tiles[i], need)
      {
        assert BlockOk(n);
        if blocks[n].Some? {
          found, o, k := SpaceInBlock(blocks[n].value, need, tiles[n]);
          if found {
            assert tiles[n][k] in tiles[n];
            return;
          }
        }
        n := n + 1;
      }
      found := false;
    }

    static method SplitAt(b: Block, o: nat, inode: nat, name: seq<Byte>, ghost ts: seq<Tile>, ghost k: nat)
        returns (b': Block, ghost ts': seq<Tile>)
      requires Tiles(b, ts) && |b| < TWO_16 && k < |ts| && o == ts[k].off
      requires 0 < inode < TWO_32 && |name| < 256 && ts[k].len >= Used(|ts[k].name|) + Used(|name|)
      ensures |b'| == |b| && Tiles(b', ts')
      ensures Live(ts) == Live(ts[..k + 1]) + Live(ts[k + 1..])
      ensures Live(ts') == Live(ts[..k + 1]) + [Entry(inode, REGULAR, name)] + Live(ts[k + 1..])
    {
      ghost var t := ts[k];
      SplitRoom(b, ts, k);
      var used := UsedLength(b[o + 6]);
      var rest := Dec16(b, o + 4) - used;
      var w := EncodeLength(used);
      var r := EncodeRecord(Tile(0, rest, inode, REGULAR, name));
      ghost var n := Added(t, inode, REGULAR, name);
      SplitTiles(b, ts, k, n, w, r);
      CutLive(ts, k, n);
      var at := o + used;
      assert at == n.off;
      b' := Overlay(Overlay(b, o + 4, w), at, r);
      ts' := Cut(ts, k, n);
    }

    method InsertAt(n: nat, o: nat, inode: nat, name: seq<Byte>, ghost k: nat) returns (ghost pos: nat)
      requires Valid() && n < |blocks| && blocks[n].Some? && k < |tiles[n]| && o == tiles[n][k].off
      requires 0 < inode < TWO_32 && |name| < 256 && tiles[n][k].len >= Used(|tiles[n][k].name|) + Used(|name|)
      modifies this
      ensures Valid() && pos <= |old(All())| && All() == With(old(All()), pos, Entry(inode, REGULAR, name))
    {
      assert BlockOk(n);
      ghost var ts := tiles[n];
      PutBehind(tiles, n, k, Entry(inode, REGULAR, name));
      pos := |Listing(tiles[..n])| + |Live(ts[..k + 1])|;
      var b', ts' := SplitAt(blocks[n].value, o, inode, name, ts, k);
      Replace(n, b', ts');
    }

    /** Adds an entry for a regular file whose inode has been allocated (0 when there was none), keeping the order
        of the others. The name's length is kept in one byte. Fails only for want of an inode or of room. */
    method Create(name: seq<Byte>, inode: nat) returns (ok: bool, ghost pos: nat)
      requires Valid() && inode < TWO_32
      modifies this
      ensures Valid() && pos <= |old(All())|
      ensures All() == if ok then With(old(All()), pos, Entry(inode, 1, Stored(name))) else old(All())
      ensures ok <==> inode != 0 && !NoRoom(old(tiles), Used(|Stored(name)|))
      ensures !ok ==> blocks == old(blocks) && tiles == old(tiles)
    {
      pos := 0;
      var stored := Stored(name);
      var need := UsedLength(|stored|);
      var n, o;
      ghost var k;
      ok, n, o, k := FindFreeEntrySpace(need);
      if !ok || inode == 0 { return false, 0; }
      pos := InsertAt(n, o, inode, stored, k);
    }

    /** The entry number `want` of this block, or how many there are. */
    static method NthInBlock(b: Block, want: nat, ghost ts: seq<Tile>) returns (r: Option<Entry>, count: nat)
      requires Tiles(b, ts)
      ensures r == if want < |Live(ts)| then Some(Live(ts)[want]) else None
      ensures r.None? ==> count == |Live(ts)|
      ensures r.Some? ==> |r.value.name| < 256 && r.value.inode < TWO_32
    {
      ghost var k;
      r, count, k := NthRecord(b, want, ts);
      InUseLive(ts, k);
    }

    /** The walk: the record in use with `want` others before it. */
    static method NthRecord(b: Block, want: nat, ghost ts: seq<Tile>)
        returns (r: Option<Entry>, count: nat, ghost k: nat)
      requires Tiles(b, ts)
      ensures k <= |ts| && count == InUse(ts, k) <= want
      ensures if r.Some? then k < |ts| && r.value == EntryOf(ts[k]) && r.value.inode != 0 && count == want
              else k == |ts| && ts[..k] == ts
      ensures r.Some? ==> |r.value.name| < 256 && r.value.inode < TWO_32
    {
      var o := 0;
      count, k := 0, 0;
      while o < |b|
        invariant Boundary(b, ts, k, o) && count == InUse(ts, k) <= want
        decreases |b| - o
      {
        var e, len := ReadAt(b, o, ts, k);
        if e.inode != 0 {
          if count == want { return Some(e), count, k; }
          count := count + 1;
        }
        o := o + len;
        k := k + 1;
      }
      WalkEnd(b, ts, k, o);
      r := None;
    }

    /** Enumerates the entries in use, block by block. */
    method NthEntry(index: nat) returns (r: Option<Entry>)
      requires Valid()
      ensures r == if index < |All()| then Some(All()[index]) else None
      ensures r.Some? ==> |r.value.name| < 256 && r.value.inode < TWO_32
    {
      var n, idx := 0, 0;
      while n < |blocks|
        invariant n <= |blocks| && idx == |Listing(tiles[..n])| <= index
      {
        assert BlockOk(n);
        ListingAt(tiles, n);
        ListingSnoc(tiles, n);
        if blocks[n].Some? {
          var count;
          r, count := NthInBlock(blocks[n].value, index - idx, tiles[n]);
          if r.Some? { return; }
          idx := idx + count;
        }
        n := n + 1;
      }
      assert tiles[..n] == tiles;
      r := None;
    }

    /** The entry number `index` as the caller gets it: inode and type are right, and so is the name if and only if it
        has at most 127 bytes. */
    method Readdir(index: nat) returns (r: Option<Dirent>)
      requires Valid()
      ensures r.Some? <==> index < |All()|
      ensures r.Some? ==> Shows(r.value, All()[index])
      ensures r.Some? && 0 !in All()[index].name ==>
                (r.value.Name() == Some(All()[index].name) <==> |All()[index].name| <= 127)
    {
      var e := NthEntry(index);
      if e.None? { return None; }
      var d := FillDirent(e.value);
      ShownName(d, e.value);
      r := Some(d);
    }
  }

  lemma PutIn(a: seq<Entry>, x: seq<Entry>, e: Entry, y: seq<Entry>, c: seq<Entry>)
    ensures With(a + (x + y) + c, |a| + |x|, e) == a + (x + [e] + y) + c
  {
    var all := a + (x + y) + c;
    assert all[..|a| + |x|] == a + x && all[|a| + |x|..] == y + c;
  }

  lemma TakeOut(a: seq<Entry>, x: seq<Entry>, e: Entry, y: seq<Entry>, c: seq<Entry>)
    ensures Without(a + (x + [e] + y) + c, |a| + |x|) == a + (x + y) + c
  {
    var all := a + (x + [e] + y) + c;
    assert all[..|a| + |x|] == a + x && all[|a| + |x| + 1..] == y + c;
  }

  // ---- a new directory -----------------------------------------------------------------------------------

  const DOT: Byte := 46

  /** The first block of a new directory: `.` and, over the rest of the block, `..`. */
  method FirstBlock(self: nat, parent: nat, blockSize: nat) returns (b: Block, ghost ts: seq<Tile>)
    requires 0 < self < TWO_32 && 0 < parent < TWO_32 && 24 <= blockSize < TWO_16 && blockSize % 4 == 0
    ensures |b| == blockSize && Tiles(b, ts)
    ensures Live(ts) == [Entry(self, 2, [46]), Entry(parent, 2, [46, 46])]
  {
    var dot := Tile(0, 12, self, DIRECTORY, [DOT]);
    var dotdot := Tile(12, blockSize - 12, parent, DIRECTORY, [DOT, DOT]);
    var r := EncodeRecord(dot);
    var q := EncodeRecord(dotdot);
    var zeros: Block := seq(blockSize, _ => 0);
    b, ts := Overlay(Overlay(zeros, 0, r), 12, q), [dot, dotdot];
    AlignedMod(12);
    AlignedMod(blockSize - 12);
    UsedUnique(1, 12);
    UsedUnique(2, 12);
    TwoRecords(zeros, dot, dotdot, r, q);
  }

  /** Two records that fill a block. */
  lemma TwoRecords(b: Block, s: Tile, t: Tile, r: Block, q: Block)
    requires Shaped(s) && Shaped(t) && s.off == 0 && t.off == s.len && t.off + t.len == |b|
    requires |r| == 8 + |s.name| && Holds(r, s.(off := 0)) && |q| == 8 + |t.name| && Holds(q, t.(off := 0))
    requires s.inode != 0 && t.inode != 0
    ensures Tiles(Overlay(Overlay(b, 0, r), t.off, q), [s, t]) && Live([s, t]) == [EntryOf(s), EntryOf(t)]
  {
    var m := Overlay(b, 0, r);
    var d := Overlay(m, t.off, q);
    assert HoldsAll(d, [s, t]) by {
      HoldsHere(b, r, s);
      HoldsElsewhere(m, t.off, q, s);
      HoldsHere(m, q, t);
      HoldsTwo(d, s, t);
    }
    assert Layout([s, t], 0, |b|) by { LayoutTwo(s, t, 0, |b|); }
    assert Live([s, t]) == [EntryOf(s), EntryOf(t)] by {
      assert [s] + [t] == [s, t] && [] + [s] == [s];
      LiveLast([], s);
      LiveLast([s], t);
    }
  }

  // ---- runs of create and unlink -------------------------------------------------------------------------

  lemma {:induction false} FirstName(es: seq<Entry>, name: seq<Byte>)
    ensures First(es, name) < |es| ==> es[First(es, name)].name == name
    ensures forall j :: 0 <= j < First(es, name) ==> es[j].name != name
  {
    if es != [] && es[0].name != name {
      FirstName(es[1..], name);
      forall j | 0 <= j < First(es, name) ensures es[j].name != name { assert j > 0 ==> es[j] == es[1..][j - 1]; }
    }
  }

  ghost predicate Differ(es: seq<Entry>, i: nat, j: nat)
    requires i < |es| && j < |es|
  {
    es[i].name != es[j].name
  }

  ghost predicate Distinct(es: seq<Entry>)
  {
    forall i, j :: 0 <= i < j < |es| ==> Differ(es, i, j)
  }

  lemma FirstOne(e: Entry, x: seq<Byte>)
    ensures First([e], x) == if e.name == x then 0 else 1
  {
    assert [e][1..] == [];
  }

  /** Where a name stands in a list with one entry more, and in the list without it. */
  lemma FirstAround(a: seq<Entry>, e: Entry, c: seq<Entry>, x: seq<Byte>)
    ensures First(a + [e] + c, x) == if First(a, x) < |a| then First(a, x) else if e.name == x then |a|
        else |a| + 1 + First(c, x)
    ensures First(a + c, x) == if First(a, x) < |a| then First(a, x) else |a| + First(c, x)
  {
    FirstOne(e, x);
    FirstCat(a, c, x);
    FirstCat(a, [e], x);
    FirstCat(a + [e], c, x);
  }

  lemma Around<T>(a: seq<T>, e: T, c: seq<T>, i: nat, j: nat)
    ensures j < |c| ==> (a + c)[|a| + j] == c[j] && (a + [e] + c)[|a| + 1 + j] == c[j]
    ensures i < |a| ==> (a + c)[i] == a[i] && (a + [e] + c)[i] == a[i]
    ensures (a + [e] + c)[|a|] == e
  {
  }

  lemma LookupInsert(a: seq<Entry>, e: Entry, c: seq<Entry>, x: seq<Byte>)
    requires First(a + c, e.name) == |a + c|
    ensures Lookup(a + [e] + c, x) == if x == e.name then Some(e.inode) else Lookup(a + c, x)
  {
    FirstAround(a, e, c, x);
    FirstAround(a, e, c, e.name);
    Around(a, e, c, First(a, x), First(c, x));
  }

  lemma LookupOf(es: seq<Entry>, x: seq<Byte>, i: nat)
    requires First(es, x) == i
    ensures Lookup(es, x) == if i < |es| then Some(es[i].inode) else None
  {
  }

  lemma LookupRemove(a: seq<Entry>, e: Entry, c: seq<Entry>, x: seq<Byte>)
    requires First(a, e.name) == |a| && First(c, e.name) == |c|
    ensures Lookup(a + c, x) == if x == e.name then None else Lookup(a + [e] + c, x)
  {
    var i, j := First(a, x), First(c, x);
    FirstAround(a, e, c, x);
    Around(a, e, c, i, j);
    if i < |a| {
      LookupOf(a + c, x, i);
      LookupOf(a + [e] + c, x, i);
    } else {
      LookupOf(a + c, x, |a| + j);
      if x != e.name { LookupOf(a + [e] + c, x, |a| + 1 + j); }
    }
  }

  /** A new name is found, and no other lookup changes. */
  lemma LookupWith(es: seq<Entry>, i: nat, e: Entry, x: seq<Byte>)
    requires i <= |es| && First(es, e.name) == |es|
    ensures Lookup(With(es, i, e), x) == if x == e.name then Some(e.inode) else Lookup(es, x)
  {
    assert es == es[..i] + es[i..];
    LookupInsert(es[..i], e, es[i..], x);
  }

  lemma WithAt(es: seq<Entry>, i: nat, e: Entry, p: nat)
    requires i <= |es| && p <= |es|
    ensures With(es, i, e)[p] == if p < i then es[p] else if p == i then e else es[p - 1]
  {
  }

  lemma DistinctWith(es: seq<Entry>, i: nat, e: Entry)
    requires i <= |es| && First(es, e.name) == |es| && Distinct(es)
    ensures Distinct(With(es, i, e))
  {
    FirstName(es, e.name);
    var fs := With(es, i, e);
    forall p, q | 0 <= p < q < |fs| ensures Differ(fs, p, q) {
      WithAt(es, i, e, p);
      WithAt(es, i, e, q);
      if p != i && q != i { assert Differ(es, if p < i then p else p - 1, if q < i then q else q - 1); }
    }
  }

  lemma OnlyOnce(es: seq<Entry>, i: nat)
    requires i < |es| && Distinct(es)
    ensures First(es[i + 1..], es[i].name) == |es| - i - 1
  {
    var j := First(es[i + 1..], es[i].name);
    FirstName(es[i + 1..], es[i].name);
    assert i + 1 + j < |es| ==> Differ(es, i, i + 1 + j);
  }

  /** A removed name is gone, and no other lookup changes. */
  lemma LookupWithout(es: seq<Entry>, name: seq<Byte>, x: seq<Byte>)
    requires Distinct(es) && First(es, name) < |es|
    ensures Lookup(Without(es, First(es, name)), x) == if x == name then None else Lookup(es, x)
  {
    var i := First(es, name);
    FirstName(es, name);
    FirstName(es[..i], name);
    OnlyOnce(es, i);
    assert es == es[..i] + [es[i]] + es[i + 1..];
    LookupRemove(es[..i], es[i], es[i + 1..], x);
  }

  lemma DistinctWithout(es: seq<Entry>, i: nat)
    requires i < |es| && Distinct(es)
    ensures Distinct(Without(es, i))
  {
    var fs := Without(es, i);
    forall p, q | 0 <= p < q < |fs| ensures Differ(fs, p, q) {
      assert Differ(es, if p < i then p else p + 1, if q < i then q else q + 1);
    }
  }

  /** A created name can be looked up exactly if its length fits in a byte. */
  lemma FoundIfShort(es: seq<Entry>, pos: nat, inode: nat, name: seq<Byte>)
    requires pos <= |es| && First(es, name) == |es| && forall e :: e in es ==> |e.name| < 256
    ensures Lookup(With(es, pos, Entry(inode, REGULAR, Stored(name))), name) == Some(inode) <==> |name| < 256
  {
    var e := Entry(inode, REGULAR, Stored(name));
    if |name| < 256 {
      assert Stored(name) == name;
      LookupWith(es, pos, e, name);
    } else {
      FirstName(With(es, pos, e), name);
    }
  }

  datatype Op = CreateOp(name: seq<Byte>, inode: nat) | UnlinkOp(name: seq<Byte>)

  type Names = map<seq<Byte>, nat>

  /** A directory as a map: what a run of operations, each with its outcome, does to it. */
  function Replay(m: Names, ops: seq<Op>, done: seq<bool>): Names
    requires |ops| == |done|
  {
    if ops == [] then m
    else
      var k := |ops| - 1;
      Effect(Replay(m, ops[..k], done[..k]), ops[k], done[k])
  }

  /** Each name once, and a lookup of any name agrees with the map. */
  ghost predicate Agrees(es: seq<Entry>, m: Names)
  {
    Distinct(es) && forall x :: Lookup(es, x) == if x in m then Some(m[x]) else None
  }

  lemma AgreesWith(es: seq<Entry>, i: nat, e: Entry, m: Names)
    requires i <= |es| && First(es, e.name) == |es| && Agrees(es, m)
    ensures Agrees(With(es, i, e), m[e.name := e.inode])
  {
    DistinctWith(es, i, e);
    forall x ensures Lookup(With(es, i, e), x) == if x in m[e.name := e.inode]
        then Some(m[e.name := e.inode][x]) else None {
      LookupWith(es, i, e, x);
    }
  }

  lemma AgreesWithout(es: seq<Entry>, name: seq<Byte>, m: Names)
    requires First(es, name) < |es| && Agrees(es, m)
    ensures Agrees(Without(es, First(es, name)), m - {name})
  {
    DistinctWithout(es, First(es, name));
    forall x ensures Lookup(Without(es, First(es, name)), x) == if x in m - {name} then Some((m - {name})[x])
        else None {
      LookupWithout(es, name, x);
    }
  }

  /** When an operation succeeds: an unlink if the name is there, a create if it is not, an inode was found, and some
      record has room. */
  ghost predicate Succeeds(op: Op, m: Names, tss: seq<seq<Tile>>)
  {
    match op
    case CreateOp(name, inode) => name !in m && inode != 0 && !NoRoom(tss, Used(|name|))
    case UnlinkOp(name) => name in m
  }

  function Effect(m: Names, op: Op, ok: bool): Names
  {
    if !ok then m
    else match op case CreateOp(name, inode) => m[name := inode] case UnlinkOp(name) => m - {name}
  }

  /** A name is there exactly if the map has it. */
  lemma AgreesAt(es: seq<Entry>, m: Names, name: seq<Byte>)
    requires Agrees(es, m)
    ensures First(es, name) < |es| <==> name in m
    ensures Lookup(es, name) == if name in m then Some(m[name]) else None
  {
  }

  method CreateAbsent(d: Directory, name: seq<Byte>, inode: nat, ghost m: Names) returns (ok: bool)
    requires d.Valid() && Agrees(d.All(), m) && |name| < 256 && inode < TWO_32
    modifies d
    ensures d.Valid() && Agrees(d.All(), Effect(m, CreateOp(name, inode), ok))
    ensures ok <==> Succeeds(CreateOp(name, inode), m, old(d.tiles))
  {
    ghost var es := d.All();
    AgreesAt(es, m, name);
    var there := d.Finddir(name);
    if there.Some? { return false; }
    ghost var pos;
    ok, pos := d.Create(name, inode);
    assert Stored(name) == name;
    if ok { AgreesWith(es, pos, Entry(inode, REGULAR, name), m); }
  }

  method UnlinkPresent(d: Directory, name: seq<Byte>, ghost m: Names) returns (ok: bool)
    requires d.Valid() && Agrees(d.All(), m)
    modifies d
    ensures d.Valid() && Agrees(d.All(), Effect(m, UnlinkOp(name), ok))
    ensures ok <==> name in m
  {
    ghost var es := d.All();
    AgreesAt(es, m, name);
    ok := d.Unlink(name);
    if ok { AgreesWithout(es, name, m); }
  }

  /** What a create demands: a name of at most 255 bytes and a 32-bit inode. */
  predicate Fitting(op: Op)
  {
    op.CreateOp? ==> |op.name| < 256 && op.inode < TWO_32
  }

  /** One operation; a name that is already there is not created again. */
  method Perform(d: Directory, op: Op, ghost m: Names) returns (ok: bool)
    requires d.Valid() && Agrees(d.All(), m) && Fitting(op)
    modifies d
    ensures d.Valid() && Agrees(d.All(), Effect(m, op, ok))
    ensures ok <==> Succeeds(op, m, old(d.tiles))
  {
    match op
    case CreateOp(name, inode) => ok := CreateAbsent(d, name, inode, m);
    case UnlinkOp(name) => ok := UnlinkPresent(d, name, m);
  }

  /** Operation `i` succeeded exactly if it should, and the directory then was the map replayed so far. */
  ghost predicate RunStep(m: Names, ops: seq<Op>, done: seq<bool>, trace: seq<seq<seq<Tile>>>, i: nat)
    requires i < |ops| == |done| < |trace|
  {
    var before := Replay(m, ops[..i], done[..i]);
    Agrees(Listing(trace[i]), before) && (done[i] <==> Succeeds(ops[i], before, trace[i]))
  }

  /** `trace` holds the records before each operation, which decide with the map whether it succeeds. */
  ghost predicate Recorded(m: Names, ops: seq<Op>, done: seq<bool>, trace: seq<seq<seq<Tile>>>)
  {
    && |done| == |ops| && |trace| == |ops| + 1
    && (forall i :: 0 <= i < |ops| ==> RunStep(m, ops, done, trace, i))
    && Agrees(Listing(trace[|ops|]), Replay(m, ops, done))
  }

  method RunOne(d: Directory, ghost ops: seq<Op>, op: Op, ghost m: Names, ghost done: seq<bool>,
      ghost trace: seq<seq<seq<Tile>>>) returns (ok: bool)
    requires d.Valid() && Fitting(op) && Recorded(m, ops, done, trace) && trace[|ops|] == d.tiles
    modifies d
    ensures d.Valid() && Recorded(m, ops + [op], done + [ok], trace + [d.tiles])
  {
    ok := Perform(d, op, Replay(m, ops, done));
    ReplaySnoc(m, ops, done, op, ok);
    RunSnoc(m, ops, done, trace, op, ok, d.tiles);
  }

  /** Every run of creates and unlinks keeps the records tiling their blocks and the directory equal to the map. */
  method Run(d: Directory, ops: seq<Op>, ghost m: Names) returns (done: seq<bool>, ghost trace: seq<seq<seq<Tile>>>)
    requires d.Valid() && Agrees(d.All(), m) && forall i :: 0 <= i < |ops| ==> Fitting(ops[i])
    modifies d
    ensures d.Valid() && |done| == |ops| && Agrees(d.All(), Replay(m, ops, done))
    ensures Recorded(m, ops, done, trace) && trace[0] == old(d.tiles) && trace[|ops|] == d.tiles
  {
    done, trace := [], [d.tiles];
    for n := 0 to |ops|
      invariant d.Valid() && Recorded(m, ops[..n], done, trace) && trace[0] == old(d.tiles) && trace[n] == d.tiles
    {
      var ok := RunOne(d, ops[..n], ops[n], m, done, trace);
      assert ops[..n] + [ops[n]] == ops[..n + 1];
      done, trace := done + [ok], trace + [d.tiles];
    }
    assert ops[..|ops|] == ops;
  }

  lemma ReplaySnoc(m: Names, ops: seq<Op>, done: seq<bool>, op: Op, ok: bool)
    requires |ops| == |done|
    ensures Replay(m, ops + [op], done + [ok]) == Effect(Replay(m, ops, done), op, ok)
  {
    assert (ops + [op])[..|ops|] == ops && (done + [ok])[..|done|] == done;
  }

  lemma RunSnoc(m: Names, ops: seq<Op>, done: seq<bool>, trace: seq<seq<seq<Tile>>>,
      op: Op, ok: bool, tss: seq<seq<Tile>>)
    requires |ops| == |done| && |trace| == |ops| + 1 && forall i :: 0 <= i < |ops| ==> RunStep(m, ops, done, trace, i)
    requires var before := Replay(m, ops, done);
             Agrees(Listing(trace[|ops|]), before) && (ok <==> Succeeds(op, before, trace[|ops|]))
    ensures forall i :: 0 <= i < |ops + [op]| ==> RunStep(m, ops + [op], done + [ok], trace + [tss], i)
  {
    var us, ds, ts := ops + [op], done + [ok], trace + [tss];
    forall i | 0 <= i < |us| ensures RunStep(m, us, ds, ts, i) {
      assert us[..i] == ops[..i] && ds[..i] == done[..i];
      if i < |ops| {
        assert RunStep(m, ops, done, trace, i);
      } else {
        assert ops[..i] == ops && done[..i] == done;
      }
    }
  }
}
