/** Bytes and the little-endian numbers made of them. */
module Bytes {
  import opened Common

  type Byte = b: int | 0 <= b < 256

  function Enc16(x: nat): (r: seq<Byte>)
    requires x < TWO_16
    ensures |r| == 2
  {
    [x % 256, x / 256]
  }

  function Enc32(x: nat): (r: seq<Byte>)
    requires x < TWO_32
    ensures |r| == 4
  {
    Enc16(x % TWO_16) + Enc16(x / TWO_16)
  }

  function Dec16(b: seq<Byte>, o: nat): (x: nat)
    requires o + 2 <= |b|
    ensures x < TWO_16
  {
    b[o] as int + 256 * (b[o + 1] as int)
  }

  function Dec32(b: seq<Byte>, o: nat): (x: nat)
    requires o + 4 <= |b|
    ensures x < TWO_32
  {
    Dec16(b, o) + TWO_16 * Dec16(b, o + 2)
  }

  lemma RoundTrip16(x: nat, b: seq<Byte>, o: nat)
    requires x < TWO_16 && o + 2 <= |b| && b[o..o + 2] == Enc16(x)
    ensures Dec16(b, o) == x
  {
    assert b[o] == b[o..o + 2][0] && b[o + 1] == b[o..o + 2][1];
  }

  lemma RoundTrip32(x: nat, b: seq<Byte>, o: nat)
    requires x < TWO_32 && o + 4 <= |b| && b[o..o + 4] == Enc32(x)
    ensures Dec32(b, o) == x
  {
    assert b[o..o + 2] == b[o..o + 4][..2] && b[o + 2..o + 4] == b[o..o + 4][2..];
    RoundTrip16(x % TWO_16, b, o);
    RoundTrip16(x / TWO_16, b, o + 2);
  }

  /** `b` with `chunk` over its elements from `o` on. */
  function Overlay<T>(b: seq<T>, o: nat, chunk: seq<T>): (r: seq<T>)
    requires o + |chunk| <= |b|
    ensures |r| == |b|
  {
    b[..o] + chunk + b[o + |chunk|..]
  }
}
