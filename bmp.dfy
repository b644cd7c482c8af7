/** The BMP side of ImageHelpers: the pixel-data offset of the 14-byte file header,
    and a least-significant-bit codec that stores a one-byte message length at that
    offset and then one message bit, most significant first, in the low bit of each
    following byte. Only the buffer logic is modelled: EmbedTextBmpLSBFile and
    ExtractTextBmpLSBFile read and write files around it. */
module Bmp {
  import opened Bytes
  import opened Bits

  /** The 14-byte BITMAPFILEHEADER; the pixel-data offset is its last four bytes. */
  const FileHeader: nat := 14
  /** The message length is stored in one byte. */
  const MaxMessage: nat := 255

  /** A 32-bit pattern read as a C# `int`: two's complement. */
  function Int32OfBits(u: u32): (v: int)
    ensures -0x8000_0000 <= v < 0x8000_0000
    ensures v % 0x1_0000_0000 == u
  {
    if u < 0x8000_0000 then u else u - 0x1_0000_0000
  }

  /** Integer addition in C#'s `int`: wraps around modulo 2^32. */
  function Int32Wrap(x: int): (v: int)
    ensures -0x8000_0000 <= v < 0x8000_0000
    ensures (v - x) % 0x1_0000_0000 == 0
  {
    (x + 0x8000_0000) % 0x1_0000_0000 - 0x8000_0000
  }

  /** BmpDataOffset: the little-endian value of bytes 10..13 as a signed `int`; the
      byte shifted by 24 carries the sign. */
  function BmpDataOffset(b: seq<byte>): (r: Result<int>)
    ensures r.Fail? <==> |b| < FileHeader
    ensures r.Fail? ==> r.error == NotBmp
    ensures r.Ok? && b[13] < 0x80 ==> 0 <= r.value == b[10] as int + 0x100 * (b[11] as int) + 0x1_0000 * (b[12] as int) + 0x100_0000 * (b[13] as int)
    ensures r.Ok? && b[13] >= 0x80 ==> r.value < 0
  {
    if |b| < FileHeader then Fail(NotBmp)
    else Ok(Int32OfBits(b[10] as int + 0x100 * (b[11] as int) + 0x1_0000 * (b[12] as int) + 0x100_0000 * (b[13] as int)))
  }

  // ---------------------------------------------------------------------------
  // EmbedTextBmpLSBFile

  /** `(mb >> (7 - bit)) & 1`: bit `bit` of `mb`, counting from the most significant. */
  function MsgBit(mb: byte, bit: nat): (r: nat)
    requires bit < 8
    ensures r < 2
  {
    (mb / Pow2(7 - bit)) % 2
  }

  /** `x` with its low bit replaced by `bit` and its upper seven bits kept. */
  function WithLowBit(x: byte, bit: nat): (y: byte)
    requires bit < 2
    ensures y % 2 == bit && y / 2 == x / 2
  {
    x - x % 2 + bit
  }

  /** `x | 1`. */
  function SetLowBit(x: byte): (y: byte)
    ensures y % 2 == 1 && y / 2 == x / 2
  {
    x - x % 2 + 1
  }

  /** `x & 0xFE`. */
  function ClearLowBit(x: byte): (y: byte)
    ensures y % 2 == 0 && y / 2 == x / 2
  {
    x - x % 2
  }

  /** The bit the embedding writes at byte `j` of the pixel window past `offset`. */
  function WindowBit(msg: seq<byte>, offset: int, j: int): nat
    requires offset < j <= offset + 8 * |msg|
  {
    MsgBit(msg[(j - offset - 1) / 8], (j - offset - 1) % 8)
  }

  /** Byte `j` once the embedding has written the length byte at `offset` and the
      message bits up to, not including, byte `upto`. */
  function StegoByte(b: seq<byte>, offset: nat, msg: seq<byte>, upto: int, j: nat): (x: byte)
    requires j < |b| && |msg| <= MaxMessage && upto <= offset + 1 + 8 * |msg|
    ensures j != offset ==> x / 2 == b[j] / 2
  {
    if j == offset then |msg|
    else if offset < j < upto then WithLowBit(b[j], WindowBit(msg, offset, j))
    else b[j]
  }

  /** What EmbedTextBmpLSBFile writes, or the exception it throws, in the order the
      C# code checks: the header, the message length, an offset past the end, a
      negative offset (an IndexOutOfRangeException on the length byte), and a pixel
      window that ends inside the message. */
  function BmpWithText(b: seq<byte>, msg: seq<byte>): (r: Result<seq<byte>>)
    requires |b| <= MaxArrayLength
    ensures r.Ok? ==> |r.value| == |b|
    ensures r.Fail? ==> r.error in {NotBmp, TextTooLong, InvalidBmpOffset, BmpIndexOutOfRange, BmpTooSmall}
  {
    match BmpDataOffset(b)
    case Fail(e) => Fail(e)
    case Ok(offset) =>
      if |msg| > MaxMessage then Fail(TextTooLong)
      else if offset >= |b| then Fail(InvalidBmpOffset)
      else if offset < 0 then Fail(BmpIndexOutOfRange)
      else if offset + 1 + 8 * |msg| > |b| then Fail(BmpTooSmall)
      else Ok(seq(|b|, j requires 0 <= j < |b| => StegoByte(b, offset, msg, offset + 1 + 8 * |msg|, j)))
  }

  /** The buffer logic of EmbedTextBmpLSBFile: clone, write the length byte, then one
      message bit per byte in nested loops. */
  method EmbedTextBmpLSB(bmp: seq<byte>, msg: seq<byte>) returns (r: Result<seq<byte>>)
    requires |bmp| <= MaxArrayLength
    ensures r == BmpWithText(bmp, msg)
  {
    var off := BmpDataOffset(bmp);
    if off.Fail? {
      return Fail(off.error);
    }
    var offset := off.value;
    if |msg| > MaxMessage {
      return Fail(TextTooLong);
    }
    var outBmp := CloneBytes(bmp);
    if offset >= outBmp.Length {
      return Fail(InvalidBmpOffset);
    }
    if offset < 0 {
      return Fail(BmpIndexOutOfRange);
    }
    if offset + 1 + 8 * |msg| > outBmp.Length {
      // The C# code finds this out inside the bit loop and throws from there; the
      // clone is discarded either way.
      return Fail(BmpTooSmall);
    }
    outBmp[offset] := |msg|;
    EmbedBits(outBmp, bmp, offset, msg);
    assert outBmp[..] == BmpWithText(bmp, msg).value;
    return Ok(outBmp[..]);
  }

  /** The nested loops of EmbedTextBmpLSBFile, once the length byte is written: one
      message bit into the low bit of each byte after it. */
  method EmbedBits(outBmp: array<byte>, bmp: seq<byte>, offset: nat, msg: seq<byte>)
    requires |msg| <= MaxMessage && offset + 1 + 8 * |msg| <= outBmp.Length == |bmp|
    requires forall j :: 0 <= j < outBmp.Length ==> outBmp[j] == StegoByte(bmp, offset, msg, offset + 1, j)
    modifies outBmp
    ensures forall j :: 0 <= j < outBmp.Length ==>
      outBmp[j] == StegoByte(bmp, offset, msg, offset + 1 + 8 * |msg|, j)
  {
    var dataPos := offset + 1;
    for i := 0 to |msg|
      invariant dataPos == offset + 1 + 8 * i
      invariant forall j :: 0 <= j < outBmp.Length ==> outBmp[j] == StegoByte(bmp, offset, msg, dataPos, j)
    {
      for bit := 0 to 8
        invariant dataPos == offset + 1 + 8 * i + bit
        invariant forall j :: 0 <= j < outBmp.Length ==> outBmp[j] == StegoByte(bmp, offset, msg, dataPos, j)
      {
        EmbedBit(outBmp, bmp, offset, msg, i, bit);
        dataPos := dataPos + 1;
      }
    }
  }

  /** One step of the inner loop: bit `bit` of message byte `i` into the low bit of
      byte `offset + 1 + 8 * i + bit`, rewritten only when it differs. */
  method EmbedBit(outBmp: array<byte>, bmp: seq<byte>, offset: nat, msg: seq<byte>, i: nat, bit: nat)
    requires |msg| <= MaxMessage && offset + 1 + 8 * |msg| <= outBmp.Length == |bmp|
    requires i < |msg| && bit < 8
    requires var dataPos := offset + 1 + 8 * i + bit;
      forall j :: 0 <= j < outBmp.Length ==> outBmp[j] == StegoByte(bmp, offset, msg, dataPos, j)
    modifies outBmp
    ensures var dataPos := offset + 1 + 8 * i + bit;
      forall j :: 0 <= j < outBmp.Length ==> outBmp[j] == StegoByte(bmp, offset, msg, dataPos + 1, j)
  {
    var dataPos := offset + 1 + 8 * i + bit;
    var mb := msg[i];
    var msgBit := (mb / Pow2(7 - bit)) % 2;
    var lsb := outBmp[dataPos] % 2;
    if lsb != msgBit {
      if msgBit == 1 {
        outBmp[dataPos] := SetLowBit(outBmp[dataPos]);
      } else {
        outBmp[dataPos] := ClearLowBit(outBmp[dataPos]);
      }
    }
    assert (dataPos - offset - 1) / 8 == i && (dataPos - offset - 1) % 8 == bit;
    assert WindowBit(msg, offset, dataPos) == msgBit;
  }

  // ---------------------------------------------------------------------------
  // ExtractTextBmpLSBFile

  /** The first `k` low bits from `start`, most significant first. */
  function Gather(b: seq<byte>, start: nat, k: nat): (g: nat)
    requires start + k <= |b|
    ensures g < Pow2(k)
  {
    if k == 0 then 0 else 2 * Gather(b, start, k - 1) + b[start + k - 1] % 2
  }

  /** The `n` message bytes whose bits start at `start`, eight low bits each. */
  function Decoded(b: seq<byte>, start: nat, n: nat): (m: seq<byte>)
    requires start + 8 * n <= |b|
    ensures |m| == n
  {
    seq(n, i requires 0 <= i < n => GatherByte(b, start + 8 * i))
  }

  function GatherByte(b: seq<byte>, start: nat): byte
    requires start + 8 <= |b|
  {
    Pow2Eight();
    Gather(b, start, 8)
  }

  lemma Pow2Eight()
    ensures Pow2(7) == 0x80 && Pow2(8) == 0x100
  {
    assert Pow2(4) == 16;
  }

  /** What ExtractTextBmpLSBFile returns, or the exception it throws: none when
      `offset + 1`, computed in `int`, is not below the length; an
      IndexOutOfRangeException on the length byte when the offset is negative, or
      int.MaxValue, where that sum wraps; the empty text for a zero length; and an
      exception when the pixel window ends inside the message. */
  function BmpText(b: seq<byte>): (r: Result<Option<seq<byte>>>)
    ensures r.Ok? && r.value.Some? ==> BmpDataOffset(b).Ok? && 0 <= BmpDataOffset(b).value < |b|
    ensures r.Ok? && r.value.Some? ==> |r.value.value| == b[BmpDataOffset(b).value] as int
    ensures r.Fail? ==> r.error in {NotBmp, BmpIndexOutOfRange, BmpTruncated}
  {
    match BmpDataOffset(b)
    case Fail(e) => Fail(e)
    case Ok(offset) =>
      if Int32Wrap(offset + 1) >= |b| then Ok(None)
      else if offset < 0 || offset >= |b| then Fail(BmpIndexOutOfRange)
      else
        var n: nat := b[offset];
        if n <= 0 then Ok(Some([]))
        else if offset + 1 + 8 * n > |b| then Fail(BmpTruncated)
        else Ok(Some(Decoded(b, offset + 1, n)))
  }

  /** The buffer logic of ExtractTextBmpLSBFile: read the length byte, then gather
      eight low bits per message byte in nested loops. */
  method ExtractTextBmpLSB(bmp: seq<byte>) returns (r: Result<Option<seq<byte>>>)
    ensures r == BmpText(bmp)
  {
    var off := BmpDataOffset(bmp);
    if off.Fail? {
      return Fail(off.error);
    }
    var offset := off.value;
    if Int32Wrap(offset + 1) >= |bmp| {
      return Ok(None);
    }
    if offset < 0 || offset >= |bmp| {
      return Fail(BmpIndexOutOfRange);
    }
    var msgLen := bmp[offset];
    if msgLen <= 0 {
      return Ok(Some([]));
    }
    var msg := ReadMessage(bmp, offset + 1, msgLen);
    match msg
    case Fail(e) => return Fail(e);
    case Ok(m) => return Ok(Some(m));
  }

  /** The outer loop of ExtractTextBmpLSBFile: `n` message bytes from `start`, or the
      exception thrown where the buffer ends first. */
  method ReadMessage(bmp: seq<byte>, start: nat, n: nat) returns (r: Result<seq<byte>>)
    requires start <= |bmp|
    ensures r == if start + 8 * n > |bmp| then Fail(BmpTruncated) else Ok(Decoded(bmp, start, n))
  {
    var dataPos := start;
    var buf := new byte[n];
    for i := 0 to n
      invariant dataPos == start + 8 * i <= |bmp|
      invariant forall k :: 0 <= k < i ==> buf[k] == GatherByte(bmp, start + 8 * k)
    {
      var ok, acc := ReadByte(bmp, dataPos);
      if !ok {
        return Fail(BmpTruncated);
      }
      buf[i] := acc;
      dataPos := dataPos + 8;
    }
    assert buf[..] == Decoded(bmp, start, n);
    return Ok(buf[..]);
  }

  /** The inner loop: eight low bits from `dataPos`, most significant first, or false
      where the buffer ends first. */
  method ReadByte(bmp: seq<byte>, dataPos: nat) returns (ok: bool, acc: byte)
    requires dataPos <= |bmp|
    ensures ok <==> dataPos + 8 <= |bmp|
    ensures ok ==> acc == GatherByte(bmp, dataPos)
  {
    Pow2Eight();
    acc := 0;
    for bit := 0 to 8
      invariant dataPos + bit <= |bmp|
      invariant acc == Gather(bmp, dataPos, bit) && acc < Pow2(bit)
    {
      if dataPos + bit >= |bmp| {
        return false, 0;
      }
      Pow2Below(bit, 7);
      // `acc <<= 1` keeps the low byte and leaves the low bit clear, so `acc |= bit`
      // adds the bit.
      acc := (acc * 2) % 0x100;
      acc := acc + bmp[dataPos + bit] % 2;
    }
    return true, acc;
  }

  lemma {:induction false} Pow2Below(j: nat, k: nat)
    requires j <= k
    ensures Pow2(j) <= Pow2(k)
    decreases k
  {
    if j < k {
      Pow2Below(j, k - 1);
    }
  }
}
