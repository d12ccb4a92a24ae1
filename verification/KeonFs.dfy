/** The KeonFS image: the packer that lays files out in bytes, and the reader that finds them again in memory. */
module KeonFs {
  import opened Common
  import opened Bytes

  const MAGIC: nat := 0x4B45_4F4E
  const VERSION: nat := 1
  const SUPER_SIZE: nat := 32
  const HEADER_SIZE: nat := 84
  const MAX_CHILDREN: nat := 128

  /** A file to pack; its name is a list of character codes. */
  datatype File = File(name: seq<nat>, data: seq<Byte>)

  // ---- the layout ----------------------------------------------------------------------------------------

  /** The bytes up to the next multiple of 4. */
  ghost function Pad(x: nat): nat
  {
    if x == 0 then 0 else if x < 4 then 4 - x else Pad(x - 4)
  }

  /** The same as the packer computes it. */
  lemma {:induction false} PadFormula(x: nat)
    ensures Pad(x) == (4 - x % 4) % 4
  {
    if x >= 4 {
      assert x % 4 == (x - 4) % 4;
      PadFormula(x - 4);
    }
  }

  /** Where the data of the first `i` files ends. */
  ghost function End(files: seq<File>, i: nat): nat
    requires i <= |files|
  {
    if i == 0 then SUPER_SIZE + |files| * HEADER_SIZE
    else End(files, i - 1) + Pad(End(files, i - 1)) + |files[i - 1].data|
  }

  /** Where the data of file `i` begins. */
  ghost function Offset(files: seq<File>, i: nat): nat
    requires i < |files|
  {
    End(files, i) + Pad(End(files, i))
  }

  lemma {:induction false} EndGrows(files: seq<File>, i: nat, j: nat)
    requires i <= j <= |files|
    ensures End(files, i) <= End(files, j)
    decreases j - i
  {
    if i < j { EndGrows(files, i, j - 1); }
  }

  /** A 32-bit field, low byte first. */
  function Field(x: nat): (r: seq<Byte>)
    ensures |r| == 4
  {
    Enc32(x % TWO_32)
  }

  function Zeros(n: nat): seq<Byte> { seq(n, _ => 0) }

  predicate Ascii(name: seq<nat>)
  {
    forall i :: 0 <= i < |name| ==> name[i] < 128
  }

  /** At most 63 characters of the name. */
  function Stored(name: seq<nat>): (r: seq<Byte>)
    requires Ascii(name)
    ensures |r| == if |name| < 63 then |name| else 63
    ensures forall i :: 0 <= i < |r| ==> r[i] == name[i]
  {
    seq(if |name| < 63 then |name| else 63, i requires 0 <= i < |name| => name[i])
  }

  function NameField(name: seq<nat>): (r: seq<Byte>)
    requires Ascii(name)
    ensures |r| == 64
  {
    Stored(name) + Zeros(64 - |Stored(name)|)
  }

  function NextHeader(files: seq<File>, i: nat): nat
  {
    if i + 1 < |files| then SUPER_SIZE + (i + 1) * HEADER_SIZE else 0
  }

  function HeaderOf(name: seq<nat>, size: nat, offset: nat, next: nat): (r: seq<Byte>)
    requires Ascii(name)
    ensures |r| == HEADER_SIZE
  {
    Field(MAGIC) + (NameField(name) + (Field(size) + (Field(offset) + (Field(next) + Field(0)))))
  }

  ghost function Header(files: seq<File>, i: nat): (r: seq<Byte>)
    requires i < |files| && Ascii(files[i].name)
    ensures |r| == HEADER_SIZE
  {
    HeaderOf(files[i].name, |files[i].data|, Offset(files, i), NextHeader(files, i))
  }

  predicate AllAscii(files: seq<File>)
  {
    forall i :: 0 <= i < |files| ==> Ascii(files[i].name)
  }

  ghost function Headers(files: seq<File>, i: nat): (r: seq<Byte>)
    requires i <= |files| && AllAscii(files)
    ensures |r| == i * HEADER_SIZE
  {
    if i == 0 then [] else Headers(files, i - 1) + Header(files, i - 1)
  }

  ghost function Payloads(files: seq<File>, i: nat): (r: seq<Byte>)
    requires i <= |files|
    ensures |r| == End(files, i) - SUPER_SIZE - |files| * HEADER_SIZE
  {
    if i == 0 then []
    else Payloads(files, i - 1) + (Zeros(Pad(End(files, i - 1))) + files[i - 1].data)
  }

  function SuperBlockOf(count: nat, size: nat): (r: seq<Byte>)
    ensures |r| == SUPER_SIZE
  {
    Field(MAGIC) + (Field(count) + (Field(VERSION) + (Field(size) + Zeros(16))))
  }

  ghost function SuperBlock(files: seq<File>): (r: seq<Byte>)
    ensures |r| == SUPER_SIZE
  {
    SuperBlockOf(|files|, End(files, |files|))
  }

  ghost function Image(files: seq<File>): (r: seq<Byte>)
    requires AllAscii(files)
    ensures |r| == End(files, |files|)
  {
    SuperBlock(files) + (Headers(files, |files|) + Payloads(files, |files|))
  }

  /** What the packer can write: plain names, and sizes and offsets that fit in their fields. */
  ghost predicate Packable(files: seq<File>)
  {
    AllAscii(files) && End(files, |files|) < TWO_32
  }

  method IsAscii(name: seq<nat>) returns (ok: bool)
    ensures ok == Ascii(name)
  {
    for i := 0 to |name|
      invariant forall j :: 0 <= j < i ==> name[j] < 128
    {
      if name[i] >= 128 { return false; }
    }
    return true;
  }

  /** The header and the padded data of file `i`, and where the data ends. */
  method PackOne(files: seq<File>, i: nat, dataOffset: nat)
      returns (ok: bool, header: seq<Byte>, payload: seq<Byte>, dataEnd: nat)
    requires i < |files| && dataOffset == End(files, i)
    ensures dataEnd == End(files, i + 1)
    ensures ok ==> Ascii(files[i].name) && header == Header(files, i)
    ensures payload == Zeros(Pad(End(files, i))) + files[i].data
    ensures !ok ==> !Packable(files)
  {
    PadFormula(dataOffset);
    var padding := (4 - dataOffset % 4) % 4;
    var offset, size := dataOffset + padding, |files[i].data|;
    var next := if i < |files| - 1 then SUPER_SIZE + (i + 1) * HEADER_SIZE else 0;
    header, payload, dataEnd := [], Zeros(padding) + files[i].data, offset + size;
    var ascii := IsAscii(files[i].name);
    if !ascii { return false, header, payload, dataEnd; }
    EndGrows(files, i + 1, |files|);
    EndGrows(files, 0, |files|);
    if size >= TWO_32 || offset >= TWO_32 || next >= TWO_32 { return false, header, payload, dataEnd; }
    ok, header := true, HeaderOf(files[i].name, size, offset, next);
  }

  /** Lays the files out one after the other, each at a multiple of 4; fails exactly if a name or a number does not
      fit. */
  method Pack(files: seq<File>) returns (image: Option<seq<Byte>>)
    ensures image.Some? <==> Packable(files)
    ensures image.Some? ==> image.value == Image(files)
  {
    var dataOffset := SUPER_SIZE + |files| * HEADER_SIZE;
    var headers, payloads := [], [];
    for i := 0 to |files|
      invariant dataOffset == End(files, i) && payloads == Payloads(files, i)
      invariant HeadersSoFar(files, i, headers)
    {
      var ok, header, payload, dataEnd := PackOne(files, i, dataOffset);
      if !ok { return None; }
      HeadersStep(files, i, headers, header);
      headers, payloads, dataOffset := headers + header, payloads + payload, dataEnd;
    }
    if dataOffset >= TWO_32 { return None; }
    image := Some(SuperBlockOf(|files|, dataOffset) + (headers + payloads));
  }

  ghost predicate HeadersSoFar(files: seq<File>, i: nat, headers: seq<Byte>)
    requires i <= |files|
  {
    (forall j :: 0 <= j < i ==> Ascii(files[j].name)) && (AllAscii(files) ==> headers == Headers(files, i))
  }

  lemma HeadersStep(files: seq<File>, i: nat, headers: seq<Byte>, header: seq<Byte>)
    requires i < |files| && HeadersSoFar(files, i, headers) && Ascii(files[i].name) && header == Header(files, i)
    ensures HeadersSoFar(files, i + 1, headers + header)
  {
  }

  // ---- memory --------------------------------------------------------------------------------------------

  type Memory = nat -> Byte

  /** The bytes lie in memory at `o`. */
  ghost predicate At(m: Memory, o: nat, bytes: seq<Byte>)
  {
    forall k :: 0 <= k < |bytes| ==> m(o + k) == bytes[k]
  }

  lemma AtCat(m: Memory, o: nat, a: seq<Byte>, b: seq<Byte>)
    ensures At(m, o, a + b) <==> At(m, o, a) && At(m, o + |a|, b)
  {
    if At(m, o, a + b) {
      forall k | 0 <= k < |a| ensures m(o + k) == a[k] { assert (a + b)[k] == a[k]; }
      forall k | 0 <= k < |b| ensures m(o + |a| + k) == b[k] { assert m(o + (|a| + k)) == (a + b)[|a| + k]; }
    }
    if At(m, o, a) && At(m, o + |a|, b) {
      forall k | 0 <= k < |a + b| ensures m(o + k) == (a + b)[k] {
        assert k >= |a| ==> m(o + |a| + (k - |a|)) == b[k - |a|];
      }
    }
  }

  function ReadField(m: Memory, o: nat): (x: nat)
    ensures x < TWO_32
  {
    Dec32([m(o), m(o + 1), m(o + 2), m(o + 3)], 0)
  }

  lemma ReadsField(m: Memory, o: nat, x: nat)
    requires At(m, o, Field(x)) && x < TWO_32
    ensures ReadField(m, o) == x
  {
    var b := [m(o), m(o + 1), m(o + 2), m(o + 3)];
    assert m(o + 0) == Field(x)[0] && m(o + 1) == Field(x)[1] && m(o + 2) == Field(x)[2] && m(o + 3) == Field(x)[3];
    assert b[0..4] == Enc32(x);
    RoundTrip32(x, b, 0);
  }

  /** A string up to its terminating 0, cut off at `limit` bytes. */
  function ReadString(m: Memory, o: nat, limit: nat): seq<Byte>
    decreases limit
  {
    if limit == 0 || m(o) == 0 then [] else [m(o)] + ReadString(m, o + 1, limit - 1)
  }

  lemma {:induction false} ReadsString(m: Memory, o: nat, s: seq<Byte>, limit: nat)
    requires At(m, o, s) && m(o + |s|) == 0 && 0 !in s && |s| <= limit
    ensures ReadString(m, o, limit) == s
    decreases |s|
  {
    if s != [] {
      assert m(o + 0) == s[0];
      forall k | 0 <= k < |s| - 1 ensures m(o + 1 + k) == s[1..][k] { assert m(o + (k + 1)) == s[k + 1]; }
      ReadsString(m, o + 1, s[1..], limit - 1);
      assert s == [s[0]] + s[1..];
    }
  }

  // ---- what lies where -----------------------------------------------------------------------------------

  ghost predicate HeaderAt(m: Memory, files: seq<File>, i: nat)
    requires i < |files| && AllAscii(files)
  {
    At(m, SUPER_SIZE + i * HEADER_SIZE, Header(files, i))
  }

  ghost predicate DataAt(m: Memory, files: seq<File>, i: nat)
    requires i < |files|
  {
    At(m, Offset(files, i), files[i].data)
  }

  lemma {:induction false} FindHeader(m: Memory, files: seq<File>, n: nat, i: nat)
    requires AllAscii(files) && i < n <= |files| && At(m, SUPER_SIZE, Headers(files, n))
    ensures HeaderAt(m, files, i)
    decreases n
  {
    AtCat(m, SUPER_SIZE, Headers(files, n - 1), Header(files, n - 1));
    if i < n - 1 { FindHeader(m, files, n - 1, i); }
  }

  lemma {:induction false} FindData(m: Memory, files: seq<File>, n: nat, i: nat)
    requires i < n <= |files| && At(m, End(files, 0), Payloads(files, n))
    ensures DataAt(m, files, i)
    decreases n
  {
    var pad, data := Zeros(Pad(End(files, n - 1))), files[n - 1].data;
    AtCat(m, End(files, 0), Payloads(files, n - 1), pad + data);
    AtCat(m, End(files, n - 1), pad, data);
    if i < n - 1 { FindData(m, files, n - 1, i); }
  }

  /** Through padding, offsets and links: each header and each file's data are where the image says. */
  lemma FindAll(m: Memory, files: seq<File>, i: nat)
    requires AllAscii(files) && At(m, 0, Image(files)) && i < |files|
    ensures HeaderAt(m, files, i) && DataAt(m, files, i)
  {
    AtCat(m, 0, SuperBlock(files), Headers(files, |files|) + Payloads(files, |files|));
    AtCat(m, SUPER_SIZE, Headers(files, |files|), Payloads(files, |files|));
    FindHeader(m, files, |files|, i);
    FindData(m, files, |files|, i);
  }

  lemma FiveParts(m: Memory, o: nat, a: seq<Byte>, b: seq<Byte>, c: seq<Byte>, d: seq<Byte>, e: seq<Byte>)
    requires At(m, o, a + (b + (c + (d + e))))
    ensures At(m, o, a) && At(m, o + |a|, b) && At(m, o + |a| + |b|, c) && At(m, o + |a| + |b| + |c|, d)
    ensures At(m, o + |a| + |b| + |c| + |d|, e)
  {
    AtCat(m, o, a, b + (c + (d + e)));
    AtCat(m, o + |a|, b, c + (d + e));
    AtCat(m, o + |a| + |b|, c, d + e);
    AtCat(m, o + |a| + |b| + |c|, d, e);
  }

  lemma SuperFields(m: Memory, count: nat, size: nat)
    requires At(m, 0, SuperBlockOf(count, size)) && count < TWO_32 && size < TWO_32
    ensures ReadField(m, 0) == 0x4B45_4F4E && ReadField(m, 4) == count
    ensures ReadField(m, 8) == 1 && ReadField(m, 12) == size
  {
    FiveParts(m, 0, Field(MAGIC), Field(count), Field(VERSION), Field(size), Zeros(16));
    ReadsField(m, 0, MAGIC);
    ReadsField(m, 4, count);
    ReadsField(m, 8, VERSION);
    ReadsField(m, 12, size);
  }

  lemma NameBack(m: Memory, o: nat, name: seq<nat>)
    requires Ascii(name) && 0 !in name && At(m, o, NameField(name))
    ensures ReadString(m, o, 127) == Stored(name)
  {
    var s, z := Stored(name), Zeros(64 - |Stored(name)|);
    AtCat(m, o, s, z);
    assert m(o + |s| + 0) == z[0];
    ReadsString(m, o, s, 127);
  }

  lemma HeaderFields(m: Memory, o: nat, name: seq<nat>, size: nat, offset: nat, next: nat)
    requires Ascii(name) && 0 !in name && At(m, o, HeaderOf(name, size, offset, next))
    requires size < TWO_32 && offset < TWO_32 && next < TWO_32
    ensures ReadString(m, o + 4, 127) == Stored(name)
    ensures ReadField(m, o + 68) == size && ReadField(m, o + 72) == offset && ReadField(m, o + 76) == next
  {
    FiveParts(m, o, Field(MAGIC), NameField(name), Field(size), Field(offset), Field(next) + Field(0));
    AtCat(m, o + 76, Field(next), Field(0));
    NameBack(m, o + 4, name);
    ReadsField(m, o + 68, size);
    ReadsField(m, o + 72, offset);
    ReadsField(m, o + 76, next);
  }

  // ---- the reader ----------------------------------------------------------------------------------------

  datatype Child = Child(name: seq<Byte>, size: nat, offset: nat)

  ghost function ChildOf(files: seq<File>, i: nat): Child
    requires i < |files| && AllAscii(files)
  {
    Child(Stored(files[i].name), |files[i].data|, Offset(files, i))
  }

  ghost function Listing(files: seq<File>, n: nat): seq<Child>
    requires n <= |files| && AllAscii(files)
  {
    seq(n, i requires 0 <= i < n => ChildOf(files, i))
  }

  lemma ListingSnoc(files: seq<File>, i: nat)
    requires i < |files| && AllAscii(files)
    ensures Listing(files, i + 1) == Listing(files, i) + [ChildOf(files, i)]
  {
  }

  ghost predicate Packed(m: Memory, files: seq<File>)
  {
    && Packable(files) && At(m, 0, Image(files))
    && forall i :: 0 <= i < |files| ==> 0 !in files[i].name
  }

  lemma ReadHeader(m: Memory, files: seq<File>, i: nat, o: nat)
    requires Packed(m, files) && i < |files| && o == SUPER_SIZE + i * HEADER_SIZE
    ensures ReadString(m, o + 4, 127) == Stored(files[i].name) && ReadField(m, o + 68) == |files[i].data|
    ensures ReadField(m, o + 72) == Offset(files, i) && ReadField(m, o + 76) == NextHeader(files, i)
    ensures Offset(files, i) + |files[i].data| <= End(files, |files|) < TWO_32
  {
    FindAll(m, files, i);
    EndGrows(files, i + 1, |files|);
    EndGrows(files, 0, |files|);
    HeaderFields(m, o, files[i].name, |files[i].data|, Offset(files, i), NextHeader(files, i));
  }

  /** The test every mounted file has passed: its end, a 32-bit sum, is not behind the end of the image. */
  predicate Checked(c: Child, size: nat)
  {
    c.size < 0x1_0000_0000 && c.offset < 0x1_0000_0000 && (c.offset + c.size) % 0x1_0000_0000 <= size
  }

  ghost predicate AllChecked(cs: seq<Child>, size: nat)
  {
    forall c :: c in cs ==> Checked(c, size)
  }

  /** A file that has passed it lies inside the image exactly if the sum does not wrap. */
  lemma CheckedInside(c: Child, size: nat)
    requires Checked(c, size) && size < TWO_32
    ensures c.offset + c.size <= size <==> c.offset + c.size < TWO_32
  {
  }

  lemma InsideChecked(c: Child, size: nat)
    requires c.offset + c.size <= size < TWO_32
    ensures Checked(c, size)
  {
  }

  class MountNode {
    var children: seq<Child>
    var size: nat

    constructor ()
      ensures children == []
    {
      children, size := [], 0;
    }

    /** There is room for 128 files; one more is a panic. */
    method AddChild(c: Child) returns (ok: bool)
      modifies this`children
      ensures ok == (|old(children)| < 128)
      ensures children == if ok then old(children) + [c] else old(children)
    {
      if |children| >= MAX_CHILDREN { return false; }
      children := children + [c];
      return true;
    }

    /** Follows the headers of an image; false is a panic. A packed image of at most 128 files gives them all back
        in order; one of more files panics. */
    method Mount(m: Memory, ghost files: seq<File>) returns (ok: bool)
      requires children == []
      modifies this
      ensures ReadField(m, 0) != 0x4B45_4F4E ==> !ok
      ensures Packed(m, files) ==> ok == (|files| <= 128)
      ensures Packed(m, files) && ok ==> children == Listing(files, |files|)
      ensures ok ==> |children| <= 128 && AllChecked(children, ReadField(m, 12))
    {
      var magic, total, fsSize := SuperBlockFields(m, files);
      if magic != MAGIC { return false; }
      size := fsSize;
      ok := FollowHeaders(m, total, files, Packed(m, files));
    }

    method FollowHeaders(m: Memory, total: nat, ghost files: seq<File>, ghost packed: bool) returns (ok: bool)
      requires children == [] && (packed ==> Packed(m, files) && total == |files| && size == End(files, |files|))
      modifies this`children
      ensures packed ==> ok == (|files| <= MAX_CHILDREN)
      ensures packed && ok ==> children == Listing(files, |files|)
      ensures |children| <= MAX_CHILDREN && AllChecked(children, size)
    {
      var hdr, i := SUPER_SIZE, 0;
      while i < total
        invariant i <= total && |children| == i <= MAX_CHILDREN && AllChecked(children, size)
        invariant packed ==> hdr == SUPER_SIZE + i * HEADER_SIZE && children == Listing(files, i)
      {
        var next;
        ok, next := AddHeader(m, hdr, files, i, packed);
        if !ok { return; }
        i := i + 1;
        if next == 0 { break; }
        hdr := next;
      }
      ok := true;
    }

    method AddHeader(m: Memory, hdr: nat, ghost files: seq<File>, ghost i: nat, ghost packed: bool)
        returns (ok: bool, next: nat)
      requires packed ==>
                 && Packed(m, files) && size == End(files, |files|)
                 && i < |files| && hdr == SUPER_SIZE + i * HEADER_SIZE
      requires |children| == i <= MAX_CHILDREN && (packed ==> children == Listing(files, i))
      requires AllChecked(children, size)
      modifies this`children
      ensures AllChecked(children, size) && (if ok then |children| == i + 1 <= MAX_CHILDREN else |children| == i)
      ensures packed ==> ok == (i < MAX_CHILDREN) && next == NextHeader(files, i)
      ensures ok && packed ==> children == Listing(files, i + 1)
    {
      if packed { ListingSnoc(files, i); }
      var c;
      c, next := HeaderAtOffset(m, hdr, files, i, packed);
      if packed { InsideChecked(c, size); }
      ok := AddChecked(c);
    }

    /** A file whose end, a 32-bit sum, is behind the end of the image is a panic. */
    method AddChecked(c: Child) returns (ok: bool)
      requires c.size < TWO_32 && c.offset < TWO_32
      modifies this`children
      ensures ok <==> Checked(c, size) && |old(children)| < 128
      ensures children == if ok then old(children) + [c] else old(children)
    {
      if (c.offset + c.size) % TWO_32 > size { return false; }
      ok := AddChild(c);
    }

    static method SuperBlockFields(m: Memory, ghost files: seq<File>) returns (magic: nat, total: nat, fsSize: nat)
      ensures magic == ReadField(m, 0) && fsSize == ReadField(m, 12)
      ensures Packed(m, files) ==> magic == MAGIC && total == |files| && fsSize == End(files, |files|)
    {
      if Packed(m, files) { SuperFits(m, files); }
      magic, total, fsSize := ReadField(m, 0), ReadField(m, 4), ReadField(m, 12);
    }

    static method HeaderAtOffset(m: Memory, hdr: nat, ghost files: seq<File>, ghost i: nat, ghost packed: bool)
        returns (c: Child, next: nat)
      requires packed ==> Packed(m, files) && i < |files| && hdr == SUPER_SIZE + i * HEADER_SIZE
      ensures c.size == ReadField(m, hdr + 68) && c.offset == ReadField(m, hdr + 72)
      ensures packed ==> c == ChildOf(files, i) && next == NextHeader(files, i)
      ensures c.size < TWO_32 && c.offset < TWO_32
      ensures packed ==> c.offset + c.size <= End(files, |files|) < TWO_32
    {
      if packed { ReadHeader(m, files, i, hdr); }
      c := Child(ReadString(m, hdr + 4, 127), ReadField(m, hdr + 68), ReadField(m, hdr + 72));
      next := ReadField(m, hdr + 76);
    }

    /** The first child with the name. */
    method Finddir(name: seq<Byte>) returns (r: Option<Child>, ghost i: nat)
      ensures i <= |children| && forall j :: 0 <= j < i ==> children[j].name != name
      ensures r.Some? <==> i < |children|
      ensures r.Some? ==> r.value == children[i] && children[i].name == name
      ensures r.None? <==> forall c :: c in children ==> c.name != name
    {
      for n := 0 to |children|
        invariant forall j :: 0 <= j < n ==> children[j].name != name
      {
        if children[n].name == name { return Some(children[n]), n; }
      }
      return None, |children|;
    }
  }

  lemma SuperFits(m: Memory, files: seq<File>)
    requires Packed(m, files)
    ensures |files| < TWO_32
    ensures ReadField(m, 0) == 0x4B45_4F4E && ReadField(m, 4) == |files|
    ensures ReadField(m, 8) == 1 && ReadField(m, 12) == End(files, |files|)
  {
    EndGrows(files, 0, |files|);
    AtCat(m, 0, SuperBlock(files), Headers(files, |files|) + Payloads(files, |files|));
    SuperFields(m, |files|, End(files, |files|));
  }

  method ReadFile(m: Memory, c: Child, offset: nat, len: nat) returns (out: seq<Byte>)
    ensures |out| == ReadLength(c.size, offset, len) && At(m, c.offset + offset, out)
  {
    out := seq(ReadLength(c.size, offset, len), i requires 0 <= i => m(c.offset + offset + i));
  }

  // ---- there and back ------------------------------------------------------------------------------------

  ghost predicate DistinctNames(files: seq<File>)
  {
    forall i, j :: 0 <= i < j < |files| ==> files[i].name != files[j].name
  }

  /** Memory with an image at its start. */
  function Loaded(image: seq<Byte>, rest: Memory): Memory
  {
    (i: nat) => if i < |image| then image[i] else rest(i)
  }

  lemma LoadedAt(image: seq<Byte>, rest: Memory)
    ensures At(Loaded(image, rest), 0, image)
  {
  }

  /** Packing files, loading the image into memory, mounting it, looking a file up by its name and reading it gives
      the file's bytes back, whatever else is in memory. */
  method RoundTrip(files: seq<File>, rest: Memory, k: nat, offset: nat, len: nat) returns (out: seq<Byte>)
    requires Packable(files) && |files| <= MAX_CHILDREN && DistinctNames(files)
    requires forall i :: 0 <= i < |files| ==> 0 !in files[i].name && |files[i].name| <= 63
    requires k < |files| && offset <= |files[k].data| && offset + len < TWO_32
    ensures out == files[k].data[offset..offset + Min(len, |files[k].data| - offset)]
  {
    var packed := Pack(files);
    var image := packed.value;
    LoadedAt(image, rest);
    out := Retrieve(files, Loaded(image, rest), Stored(files[k].name), offset, len, k);
  }

  /** Looking up a file of a mounted image. */
  method Open(node: MountNode, name: seq<Byte>, ghost files: seq<File>, ghost k: nat) returns (c: Child)
    requires AllAscii(files) && DistinctNames(files) && node.children == Listing(files, |files|)
    requires forall i :: 0 <= i < |files| ==> |files[i].name| <= 63
    requires k < |files| && name == Stored(files[k].name)
    ensures c == ChildOf(files, k)
  {
    var r;
    ghost var i;
    r, i := node.Finddir(name);
    assert node.children[k] == ChildOf(files, k);
    SameChild(files, i, k);
    c := r.value;
  }

  method MountPacked(m: Memory, ghost files: seq<File>) returns (node: MountNode)
    requires Packed(m, files) && |files| <= MAX_CHILDREN
    ensures node.children == Listing(files, |files|)
  {
    node := new MountNode();
    var ok := node.Mount(m, files);
  }

  method Retrieve(ghost files: seq<File>, m: Memory, name: seq<Byte>, offset: nat, len: nat, ghost k: nat)
      returns (out: seq<Byte>)
    requires Packable(files) && |files| <= MAX_CHILDREN && DistinctNames(files)
    requires forall i :: 0 <= i < |files| ==> 0 !in files[i].name && |files[i].name| <= 63
    requires At(m, 0, Image(files))
    requires k < |files| && name == Stored(files[k].name) && offset <= |files[k].data| && offset + len < TWO_32
    ensures out == files[k].data[offset..offset + Min(len, |files[k].data| - offset)]
  {
    var node := MountPacked(m, files);
    var c := Open(node, name, files, k);
    out := ReadFile(m, c, offset, len);
    CutBack(m, files, k, offset, len, out);
  }

  lemma CutBack(m: Memory, files: seq<File>, k: nat, offset: nat, len: nat, out: seq<Byte>)
    requires Packable(files) && At(m, 0, Image(files)) && k < |files| && offset <= |files[k].data|
        && offset + len < TWO_32
    requires |out| == ReadLength(|files[k].data|, offset, len) && At(m, Offset(files, k) + offset, out)
    ensures out == files[k].data[offset..offset + Min(len, |files[k].data| - offset)]
  {
    SizeFits(files, k);
    ReadLengthExact(|files[k].data|, offset, len);
    DataBack(m, files, k, offset, out);
  }

  lemma SizeFits(files: seq<File>, k: nat)
    requires Packable(files) && k < |files|
    ensures |files[k].data| < TWO_32
  {
    EndGrows(files, k + 1, |files|);
  }

  lemma SameChild(files: seq<File>, i: nat, k: nat)
    requires AllAscii(files) && DistinctNames(files) && i < |files| && k < |files|
    requires |files[i].name| <= 63 && |files[k].name| <= 63 && Stored(files[i].name) == Stored(files[k].name)
    ensures i == k
  {
    StoredInjective(files[i].name, files[k].name);
  }

  lemma DataBack(m: Memory, files: seq<File>, k: nat, offset: nat, out: seq<Byte>)
    requires Packable(files) && At(m, 0, Image(files)) && k < |files|
    requires At(m, Offset(files, k) + offset, out) && offset + |out| <= |files[k].data|
    ensures out == files[k].data[offset..offset + |out|]
  {
    FindAll(m, files, k);
    forall i | 0 <= i < |out| ensures out[i] == files[k].data[offset + i] {
      assert m(Offset(files, k) + (offset + i)) == files[k].data[offset + i];
      assert m(Offset(files, k) + offset + i) == out[i];
    }
  }

  lemma StoredInjective(a: seq<nat>, b: seq<nat>)
    requires Ascii(a) && Ascii(b) && |a| <= 63 && |b| <= 63 && Stored(a) == Stored(b)
    ensures a == b
  {
    assert |a| == |b|;
    forall i | 0 <= i < |a| ensures a[i] == b[i] { assert Stored(a)[i] == a[i] && Stored(b)[i] == b[i]; }
  }

  // ---- which files can be reached ------------------------------------------------------------------------

  /** A name as the bytes a caller passes. */
  function AsBytes(name: seq<nat>): (r: seq<Byte>)
    requires Ascii(name)
    ensures |r| == |name| && forall i :: 0 <= i < |r| ==> r[i] == name[i]
  {
    seq(|name|, i requires 0 <= i < |name| => name[i])
  }

  ghost predicate Finds(files: seq<File>, i: nat, name: seq<Byte>)
    requires i < |files| && AllAscii(files)
  {
    Stored(files[i].name) == name
  }

  /** The first file stored under a name, or the number of files. */
  ghost function FileIndex(files: seq<File>, name: seq<Byte>, from: nat): (i: nat)
    requires from <= |files| && AllAscii(files)
    ensures from <= i <= |files| && (i < |files| ==> Finds(files, i, name))
    ensures forall j :: from <= j < i ==> !Finds(files, j, name)
    decreases |files| - from
  {
    if from == |files| || Finds(files, from, name) then from else FileIndex(files, name, from + 1)
  }

  /** No earlier file is stored under the same name. */
  ghost predicate FirstOfName(files: seq<File>, k: nat)
    requires k < |files| && AllAscii(files)
  {
    forall j :: 0 <= j < k ==> !Finds(files, j, Stored(files[k].name))
  }

  /** A lookup in a mounted image finds the first file stored under the name. */
  method FindFile(node: MountNode, name: seq<Byte>, ghost files: seq<File>) returns (r: Option<Child>)
    requires AllAscii(files) && node.children == Listing(files, |files|)
    ensures var i := FileIndex(files, name, 0); r == if i < |files| then Some(ChildOf(files, i)) else None
  {
    ghost var i;
    r, i := node.Finddir(name);
    forall j | 0 <= j < |files| ensures node.children[j].name == name <==> Finds(files, j, name) {
      assert node.children[j] == ChildOf(files, j);
    }
    assert i < |files| ==> node.children[i] == ChildOf(files, i);
  }

  lemma StoredWhole(name: seq<nat>)
    requires Ascii(name)
    ensures Stored(name) == AsBytes(name) <==> |name| <= 63
  {
  }

  /** Looking a file up by its full name finds nothing if the name is longer than 63 characters, and finds that file
      if and only if the name has at most 63 and no earlier file has the same first 63. */
  lemma FullNameFound(files: seq<File>, k: nat)
    requires k < |files| && AllAscii(files)
    ensures var i := FileIndex(files, AsBytes(files[k].name), 0);
            && (i == |files| <==> |files[k].name| > 63)
            && (i == k <==> |files[k].name| <= 63 && FirstOfName(files, k))
  {
    var name := files[k].name;
    StoredWhole(name);
    var i := FileIndex(files, AsBytes(name), 0);
    if |name| <= 63 {
      assert Finds(files, k, AsBytes(name));
      assert FirstOfName(files, k) ==> i >= k;
    }
  }

  /** Of several files with the same first 63 characters only the first can be reached, by any name at all. */
  lemma Reachable(files: seq<File>, k: nat)
    requires k < |files| && AllAscii(files)
    ensures (exists name :: FileIndex(files, name, 0) == k) <==> FirstOfName(files, k)
  {
    var s := Stored(files[k].name);
    assert Finds(files, k, s);
    if FirstOfName(files, k) {
      var i := FileIndex(files, s, 0);
      assert i >= k;
      assert FileIndex(files, s, 0) == k;
    }
  }

  /** For instance, two names of 64 letters that differ in the last one: neither is found by its full name, and the
      second cannot be reached. */
  lemma LongNamesClash(a: seq<Byte>, b: seq<Byte>)
    ensures var x, y := seq(63, _ => 65) + [66], seq(63, _ => 65) + [67];
            var files := [File(x, a), File(y, b)];
            && AllAscii(files) && FileIndex(files, AsBytes(x), 0) == 2 && FileIndex(files, AsBytes(y), 0) == 2
            && forall name :: FileIndex(files, name, 0) != 1
  {
    var x, y := seq(63, _ => 65) + [66], seq(63, _ => 65) + [67];
    var files := [File(x, a), File(y, b)];
    assert Ascii(x) && Ascii(y);
    FullNameFound(files, 0);
    FullNameFound(files, 1);
    assert Stored(x) == Stored(y);
    Reachable(files, 1);
    assert Finds(files, 0, Stored(y));
  }
}
