/** Sizes of machine words and pages, optional values, division, and how much a file read returns. */
module Common {

  const TWO_16: nat := 0x1_0000
  const TWO_32: nat := 0x1_0000_0000
  const TWO_48: nat := 0x1_0000_0000_0000
  const TWO_64: nat := 0x1_0000_0000_0000_0000
  const PAGE_SIZE: nat := 4096

  datatype Option<T> = None | Some(value: T)

  function Min(a: nat, b: nat): nat { if a < b then a else b }

  function Max(a: nat, b: nat): nat { if a < b then b else a }

  /** How much a read of `len` bytes at `offset` returns: the sum is 32-bit, so a request that wraps is not cut off
      at the end of the file. */
  function ReadLength(size: nat, offset: nat, len: nat): nat
  {
    if offset >= size then 0 else if (offset + len) % TWO_32 > size then size - offset else len
  }

  /** A read is cut off at the end of the file exactly when it starts past the end or does not wrap. */
  lemma ReadLengthExact(size: nat, offset: nat, len: nat)
    requires size < TWO_32 && offset < TWO_32 && len < TWO_32
    ensures ReadLength(size, offset, len) == (if offset >= size then 0 else Min(len, size - offset))
            <==> offset >= size || offset + len < TWO_32
  {
  }

  lemma MulStep(a: nat, b: nat, d: nat)
    requires a < b
    ensures a * d + d <= b * d
  {
    if a + 1 < b { MulStep(a, b - 1, d); }
  }

  lemma DivUnique(x: nat, d: nat, q: nat, r: nat)
    requires d > 0 && x == q * d + r && r < d
    ensures x / d == q && x % d == r
  {
    var q', r' := x / d, x % d;
    assert x == q' * d + r' && r' < d;
    if q < q' { MulStep(q, q', d); }
    if q' < q { MulStep(q', q, d); }
  }
}
