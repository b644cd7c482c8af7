/** Bytes, 32-bit unsigned values, the big-endian helpers of ImageHelpers, and the
    error outcomes that stand for the exceptions the codecs throw. */
module Bytes {

  type byte = x: int | 0 <= x < 0x100
  type u32 = x: int | 0 <= x < 0x1_0000_0000

  /** An upper bound on .NET array lengths (`int.MaxValue`): no buffer or payload is
      longer. */
  const MaxArrayLength: nat := 0x7FFF_FFFF

  /** The exceptions of the core, each standing for one `throw` (or a library
      exception the C# code does not guard against). */
  datatype Error =
    | InvalidPng          // EmbedTextPng: shorter than the signature
    | InvalidPngChunk     // EmbedTextPng: a chunk runs past the end of the buffer
    | IendNotFound        // EmbedTextPng: the walk ends without an IEND chunk
    | NotJpeg             // EmbedTextJpeg: no SOI marker
    | TextTooLong         // JPEG comment > 65533 bytes, BMP message > 255 bytes
    | SegmentOverrun      // TryEmbedTextJpegInPlace: Array.Clear past the end of the buffer
    | NotBmp              // BmpDataOffset: shorter than the 14-byte file header
    | InvalidBmpOffset    // EmbedTextBmpLSBFile: pixel-data offset past the end
    | BmpTooSmall         // EmbedTextBmpLSBFile: pixel window too small for the message
    | BmpTruncated        // ExtractTextBmpLSBFile: pixel window ends inside the message
    | BmpIndexOutOfRange  // BMP embed and extract: the offset byte lies outside the buffer

  datatype Result<+T> = Ok(value: T) | Fail(error: Error)

  datatype Option<+T> = None | Some(value: T)

  /** `count` zero bytes: what Array.Clear leaves behind. */
  function Zeros(count: nat): (z: seq<byte>)
    ensures |z| == count
  {
    seq(count, _ => 0)
  }

  /** The four big-endian bytes of `v`, most significant first (section 7.1 of the
      PNG specification, W3C Second Edition). */
  function BeBytes(v: u32): (r: seq<byte>)
    ensures |r| == 4
  {
    [v / 0x100_0000, (v / 0x1_0000) % 0x100, (v / 0x100) % 0x100, v % 0x100]
  }

  /** ReadBigEndianUInt32: the 32-bit value whose big-endian bytes start at
      `offset`. The four shifted bytes occupy disjoint bit ranges, so the C# code's
      `|` of shifts is this sum. */
  function ReadBigEndianUInt32(b: seq<byte>, offset: nat): (v: u32)
    requires offset + 4 <= |b|
    ensures v / 0x100_0000 == b[offset] && v % 0x100 == b[offset + 3]
  {
    (b[offset] as int) * 0x100_0000 + (b[offset + 1] as int) * 0x1_0000
      + (b[offset + 2] as int) * 0x100 + b[offset + 3] as int
  }

  /** Reading the bytes written for `v` gives `v` back. */
  lemma ReadBeBytes(v: u32)
    ensures ReadBigEndianUInt32(BeBytes(v), 0) == v
  {
    var x: int := v;
    var b0, b1, b2, b3 := x / 0x100_0000, (x / 0x1_0000) % 0x100, (x / 0x100) % 0x100, x % 0x100;
    var q2 := x / 0x100;
    var q1 := q2 / 0x100;
    assert x == q2 * 0x100 + b3;
    assert q2 == q1 * 0x100 + q2 % 0x100;
    assert x / 0x1_0000 == q1;
    assert q1 == (q1 / 0x100) * 0x100 + q1 % 0x100;
    assert x / 0x100_0000 == q1 / 0x100;
    assert x == b0 * 0x100_0000 + b1 * 0x1_0000 + b2 * 0x100 + b3;
  }

  /** Writing the value read at `offset` reproduces those four bytes. */
  lemma BeBytesOfRead(b: seq<byte>, offset: nat)
    requires offset + 4 <= |b|
    ensures BeBytes(ReadBigEndianUInt32(b, offset)) == b[offset..offset + 4]
  {
    var v := ReadBigEndianUInt32(b, offset);
    var b0, b1, b2, b3: int := b[offset], b[offset + 1], b[offset + 2], b[offset + 3];
    var lo := b2 * 0x100 + b3;
    assert v == (b0 * 0x100 + b1) * 0x1_0000 + lo;
    assert v / 0x1_0000 == b0 * 0x100 + b1;
    assert v % 0x1_0000 == lo;
    assert v / 0x100_0000 == b0;
    assert (v / 0x1_0000) % 0x100 == b1;
    assert v / 0x100 == (b0 * 0x100 + b1) * 0x100 + b2;
    assert (v / 0x100) % 0x100 == b2;
    assert v % 0x100 == b3;
  }

  /** A value stored big-endian at `offset` is read back from there. */
  lemma ReadStored(b: seq<byte>, offset: nat, v: u32)
    requires offset + 4 <= |b| && b[offset..offset + 4] == BeBytes(v)
    ensures ReadBigEndianUInt32(b, offset) == v
  {
    BeBytesOfRead(b, offset);
    BeBytesInjective(ReadBigEndianUInt32(b, offset), v);
  }

  /** Distinct values have distinct big-endian encodings. */
  lemma BeBytesInjective(v: u32, w: u32)
    requires BeBytes(v) == BeBytes(w)
    ensures v == w
  {
    ReadBeBytes(v);
    ReadBeBytes(w);
  }

  /** `b` and `c` hold the same first `m` bytes. */
  predicate SameUpTo(b: seq<byte>, c: seq<byte>, m: nat) {
    m <= |b| && m <= |c| && forall x :: 0 <= x < m ==> c[x] == b[x]
  }

  lemma SameUpToOfSlices(b: seq<byte>, c: seq<byte>, m: nat)
    requires m <= |b| && m <= |c| && b[..m] == c[..m]
    ensures SameUpTo(b, c, m)
  {
    forall x | 0 <= x < m
      ensures c[x] == b[x]
    {
      assert c[x] == c[..m][x] && b[x] == b[..m][x];
    }
  }

  /** WriteUInt32ToBuffer: stores `v` big-endian at `offset`; nothing else changes. */
  method WriteUInt32ToBuffer(buffer: array<byte>, offset: nat, v: u32)
    requires offset + 4 <= buffer.Length
    modifies buffer
    ensures buffer[..] == old(buffer[..offset]) + BeBytes(v) + old(buffer[offset + 4..])
  {
    buffer[offset] := v / 0x100_0000;
    buffer[offset + 1] := (v / 0x1_0000) % 0x100;
    buffer[offset + 2] := (v / 0x100) % 0x100;
    buffer[offset + 3] := v % 0x100;
  }

  /** WriteBigEndianUInt32: appends `v` big-endian to the stream contents `s`,
      one WriteByte at a time. */
  method WriteBigEndianUInt32(s: seq<byte>, v: u32) returns (s': seq<byte>)
    ensures s' == s + BeBytes(v)
    ensures ReadBigEndianUInt32(s', |s|) == v
  {
    s' := s + [v / 0x100_0000];
    s' := s' + [(v / 0x1_0000) % 0x100];
    s' := s' + [(v / 0x100) % 0x100];
    s' := s' + [v % 0x100];
    ReadBeBytes(v);
    assert s'[|s|..] == BeBytes(v);
  }

  /** Array.Clear(a, start, count): zero `count` bytes from `start`. */
  method ArrayClear(a: array<byte>, start: nat, count: nat)
    requires start + count <= a.Length
    modifies a
    ensures a[..] == old(a[..start]) + Zeros(count) + old(a[start + count..])
  {
    ghost var was := a[..];
    var k := start;
    while k < start + count
      invariant start <= k <= start + count
      invariant forall j :: 0 <= j < a.Length ==> a[j] == (if start <= j < k then 0 else was[j])
    {
      a[k] := 0;
      k := k + 1;
    }
    assert a[..] == was[..start] + Zeros(count) + was[start + count..];
  }

  /** Array.Copy(src, 0, a, start, |src|): copy `src` into `a` at `start`. */
  method ArrayCopy(src: seq<byte>, a: array<byte>, start: nat)
    requires start + |src| <= a.Length
    modifies a
    ensures a[..] == old(a[..start]) + src + old(a[start + |src|..])
  {
    ghost var was := a[..];
    var k := 0;
    while k < |src|
      invariant 0 <= k <= |src|
      invariant forall j :: 0 <= j < a.Length ==>
        a[j] == (if start <= j < start + k then src[j - start] else was[j])
    {
      a[start + k] := src[k];
      k := k + 1;
    }
    assert a[..] == was[..start] + src + was[start + |src|..];
  }

  /** Array.Clear of the field [start, end) followed by Array.Copy of `text` to its
      start: the text, then zeros up to `end`. */
  method OverwriteField(a: array<byte>, start: nat, end: nat, text: seq<byte>)
    requires start + |text| <= end <= a.Length
    modifies a
    ensures a[..] == old(a[..start]) + (text + Zeros(end - start - |text|)) + old(a[end..])
  {
    ghost var b := a[..];
    ArrayClear(a, start, end - start);
    ghost var cleared := a[..];
    ArrayCopy(text, a, start);
    assert cleared[..start] == b[..start];
    assert cleared[start + |text|..] == Zeros(end - start - |text|) + b[end..];
  }

  /** A fresh array holding `s`: the `Clone()` of a byte[]. */
  method CloneBytes(s: seq<byte>) returns (a: array<byte>)
    ensures fresh(a) && a[..] == s
  {
    a := new byte[|s|](i requires 0 <= i < |s| => s[i]);
  }
}
