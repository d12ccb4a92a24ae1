/** Bitmaps held in fixed-width machine words, as the frame bitmap (32-bit words) and the ext4 bitmaps
    (8-bit bytes) hold them. A word is the sequence of its bits, lowest first, so `w |= 1 << i` is
    `w[i := true]`. Also the few facts about finite sets of naturals that counting bits needs. */
module Bits {
  import opened Common

  type Word = seq<bool>

  /** Bit `k` of a bitmap of 32-bit words: bit `k % 32` of word `k / 32`. */
  predicate Bit32(bm: seq<Word>, k: nat)
  {
    k / 32 < |bm| && |bm[k / 32]| == 32 && bm[k / 32][k % 32]
  }

  function Put32(bm: seq<Word>, k: nat, v: bool): seq<Word>
    requires k / 32 < |bm| && |bm[k / 32]| == 32
  {
    bm[k / 32 := bm[k / 32][k % 32 := v]]
  }

  lemma Put32At(bm: seq<Word>, k: nat, v: bool, g: nat)
    requires k / 32 < |bm| && |bm[k / 32]| == 32
    ensures Bit32(Put32(bm, k, v), g) <==> if g == k then v else Bit32(bm, g)
  {
  }

  /** Bit `k` of a bitmap of 8-bit words: bit `k % 8` of word `k / 8`. */
  predicate Bit8(bm: seq<Word>, k: nat)
  {
    k / 8 < |bm| && |bm[k / 8]| == 8 && bm[k / 8][k % 8]
  }

  function Put8(bm: seq<Word>, k: nat, v: bool): seq<Word>
    requires k / 8 < |bm| && |bm[k / 8]| == 8
  {
    bm[k / 8 := bm[k / 8][k % 8 := v]]
  }

  lemma Put8At(bm: seq<Word>, k: nat, v: bool, g: nat)
    requires k / 8 < |bm| && |bm[k / 8]| == 8
    ensures Bit8(Put8(bm, k, v), g) <==> if g == k then v else Bit8(bm, g)
  {
  }

  predicate Full(word: Word)
  {
    forall i :: 0 <= i < |word| ==> word[i]
  }

  /** The bit chosen by `__builtin_ctz(~word)`: the lowest clear bit of a word that is not full. */
  function LowestClear(word: Word): (r: nat)
    requires !Full(word)
    ensures r < |word| && !word[r]
    ensures forall j: nat :: j < r ==> word[j]
  {
    if !word[0] then 0 else 1 + LowestClear(word[1..])
  }

  predicate Within(lo: nat, f: nat, hi: nat)
  {
    lo <= f < hi
  }

  /** The naturals `lo, lo + 1, .., hi - 1`. */
  function Range(lo: nat, hi: nat): set<nat>
  {
    set f: nat | f < hi && Within(lo, f, hi)
  }

  lemma {:induction false} RangeSize(lo: nat, hi: nat)
    requires lo <= hi
    ensures |Range(lo, hi)| == hi - lo
    decreases hi
  {
    if lo < hi {
      RangeSize(lo, hi - 1);
      assert Range(lo, hi) == Range(lo, hi - 1) + {hi - 1};
    } else {
      assert Range(lo, hi) == {};
    }
  }

  // ---- bits of a number -----------------------------------------------------------------------------------

  function Pow2(n: nat): (p: nat)
    ensures p > 0
  {
    if n == 0 then 1 else 2 * Pow2(n - 1)
  }

  predicate Bit(b: nat, k: nat)
  {
    if k == 0 then b % 2 == 1 else Bit(b / 2, k - 1)
  }

  /** Bit `k` is the digit of `2^k`. */
  lemma {:induction false} BitValue(b: nat, k: nat)
    ensures Bit(b, k) <==> b / Pow2(k) % 2 == 1
  {
    if k > 0 {
      BitValue(b / 2, k - 1);
      HalfDiv(b, Pow2(k - 1));
    }
  }

  lemma HalfDiv(b: nat, p: nat)
    requires p > 0
    ensures b / 2 / p == b / (2 * p)
  {
    var q, r := b / 2 / p, b / 2 % p;
    assert b / 2 == p * q + r;
    var t := 2 * r + b % 2;
    assert b == (2 * p) * q + t && 0 <= t < 2 * p;
    DivUnique(b, 2 * p, q, t);
  }
}
