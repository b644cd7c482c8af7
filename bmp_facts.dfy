/** What the BMP codec promises: the embedding keeps the length, writes the message
    length at the offset and one message bit into the low bit of each byte of the
    window after it, keeping their upper seven bits and every other byte; the
    extraction reads the message back whenever the window leaves the header's
    offset field alone. */
module BmpFacts {
  import opened Bytes
  import opened Bits
  import opened Bmp

  /** On success the output has the input's length, holds the message length at the
      offset, holds message bit k, most significant first, in the low bit of byte
      `offset + 1 + k` with its upper seven bits kept, and changes nothing else. */
  lemma EmbedLayout(b: seq<byte>, msg: seq<byte>)
    requires |b| <= MaxArrayLength && BmpWithText(b, msg).Ok?
    ensures var o := BmpWithText(b, msg).value;
      var offset := BmpDataOffset(b).value;
      && 0 <= offset && offset + 1 + 8 * |msg| <= |b| == |o|
      && o[offset] == |msg|
      && (forall k :: 0 <= k < 8 * |msg| ==>
            o[offset + 1 + k] / 2 == b[offset + 1 + k] / 2
            && o[offset + 1 + k] % 2 == MsgBit(msg[k / 8], k % 8))
      && (forall j :: 0 <= j < |b| && !(offset <= j <= offset + 8 * |msg|) ==> o[j] == b[j])
  {
    EmbedBounds(b, msg);
    EmbedWindow(b, msg);
    EmbedOutside(b, msg);
  }

  /** On success the offset is in range, the window fits, and the length byte holds
      the message length. */
  lemma EmbedBounds(b: seq<byte>, msg: seq<byte>)
    requires |b| <= MaxArrayLength && BmpWithText(b, msg).Ok?
    ensures var o := BmpWithText(b, msg).value;
      var offset := BmpDataOffset(b).value;
      && 0 <= offset && offset + 1 + 8 * |msg| <= |b| == |o|
      && o[offset] == |msg|
  {
  }

  /** On success message bit k sits in the low bit of byte `offset + 1 + k`, whose
      upper seven bits are kept. */
  lemma EmbedWindow(b: seq<byte>, msg: seq<byte>)
    requires |b| <= MaxArrayLength && BmpWithText(b, msg).Ok?
    ensures var o := BmpWithText(b, msg).value;
      var offset := BmpDataOffset(b).value;
      && 0 <= offset && offset + 1 + 8 * |msg| <= |b| == |o|
      && (forall k :: 0 <= k < 8 * |msg| ==>
            o[offset + 1 + k] / 2 == b[offset + 1 + k] / 2
            && o[offset + 1 + k] % 2 == MsgBit(msg[k / 8], k % 8))
  {
    var o := BmpWithText(b, msg).value;
    var offset := BmpDataOffset(b).value;
    EmbedBounds(b, msg);
    forall k | 0 <= k < 8 * |msg|
      ensures o[offset + 1 + k] / 2 == b[offset + 1 + k] / 2
      ensures o[offset + 1 + k] % 2 == MsgBit(msg[k / 8], k % 8)
    {
      WindowByte(b, msg, k);
    }
  }

  /** Byte `offset + 1 + k` of a successful embedding: message bit k in the low bit,
      the upper seven bits kept. */
  lemma WindowByte(b: seq<byte>, msg: seq<byte>, k: nat)
    requires |b| <= MaxArrayLength && BmpWithText(b, msg).Ok? && k < 8 * |msg|
    ensures var o := BmpWithText(b, msg).value;
      var offset := BmpDataOffset(b).value;
      && 0 <= offset && offset + 1 + k < |b| == |o|
      && o[offset + 1 + k] / 2 == b[offset + 1 + k] / 2
      && o[offset + 1 + k] % 2 == MsgBit(msg[k / 8], k % 8)
  {
    var o := BmpWithText(b, msg).value;
    var offset := BmpDataOffset(b).value;
    EmbedBounds(b, msg);
    var j := offset + 1 + k;
    assert j - offset - 1 == k;
    assert o[j] == StegoByte(b, offset, msg, offset + 1 + 8 * |msg|, j);
    assert o[j] == WithLowBit(b[j], WindowBit(msg, offset, j));
  }

  /** On success every byte outside the length byte and the window is kept. */
  lemma EmbedOutside(b: seq<byte>, msg: seq<byte>)
    requires |b| <= MaxArrayLength && BmpWithText(b, msg).Ok?
    ensures var o := BmpWithText(b, msg).value;
      var offset := BmpDataOffset(b).value;
      && 0 <= offset && |b| == |o|
      && (forall j :: 0 <= j < |b| && !(offset <= j <= offset + 8 * |msg|) ==> o[j] == b[j])
  {
  }

  /** Bit k of a byte, most significant first, by literal divisors. */
  lemma MsgBits(mb: byte)
    ensures var x: int := mb;
      && MsgBit(mb, 0) == (x / 0x80) % 2 && MsgBit(mb, 1) == (x / 0x40) % 2
      && MsgBit(mb, 2) == (x / 0x20) % 2 && MsgBit(mb, 3) == (x / 0x10) % 2
      && MsgBit(mb, 4) == (x / 8) % 2 && MsgBit(mb, 5) == (x / 4) % 2
      && MsgBit(mb, 6) == (x / 2) % 2 && MsgBit(mb, 7) == x % 2
  {
    Pow2Eight();
    assert Pow2(0) == 1 && Pow2(1) == 2 && Pow2(2) == 4 && Pow2(3) == 8;
    assert Pow2(4) == 16 && Pow2(5) == 32 && Pow2(6) == 64;
  }

  /** Each quotient of a byte by a power of two is half the next smaller one. */
  lemma Halves(x: nat)
    requires x < 0x100
    ensures x / 0x80 == (x / 0x40) / 2 && x / 0x40 == (x / 0x20) / 2
    ensures x / 0x20 == (x / 0x10) / 2 && x / 0x10 == (x / 8) / 2
    ensures x / 8 == (x / 4) / 2 && x / 4 == (x / 2) / 2
    ensures x / 0x80 < 2
  {
  }

  /** One more bit shifts in: gathering `z / 2` and then the low bit of `z` gives `z`. */
  lemma GatherStep(c: seq<byte>, start: nat, k: nat, z: nat)
    requires start + k < |c|
    requires Gather(c, start, k) == z / 2 && c[start + k] % 2 == z % 2
    ensures Gather(c, start, k + 1) == z
  {
  }

  /** Eight low bits that spell out `mb`, most significant first, gather back to
      `mb`. */
  lemma GatherBits(c: seq<byte>, start: nat, mb: byte)
    requires start + 8 <= |c|
    requires forall k :: 0 <= k < 8 ==> c[start + k] % 2 == MsgBit(mb, k)
    ensures GatherByte(c, start) == mb
  {
    var x: int := mb;
    MsgBits(mb);
    Halves(x);
    assert Gather(c, start, 0) == 0 == (x / 0x80) / 2;
    GatherStep(c, start, 0, x / 0x80);
    GatherStep(c, start, 1, x / 0x40);
    GatherStep(c, start, 2, x / 0x20);
    GatherStep(c, start, 3, x / 0x10);
    GatherStep(c, start, 4, x / 8);
    GatherStep(c, start, 5, x / 4);
    GatherStep(c, start, 6, x / 2);
    GatherStep(c, start, 7, x);
  }

  /** A window whose low bits spell out `msg` decodes to `msg`. */
  lemma DecodedWindow(o: seq<byte>, start: nat, msg: seq<byte>)
    requires start + 8 * |msg| <= |o|
    requires forall k :: 0 <= k < 8 * |msg| ==> o[start + k] % 2 == MsgBit(msg[k / 8], k % 8)
    ensures Decoded(o, start, |msg|) == msg
  {
    forall i | 0 <= i < |msg|
      ensures GatherByte(o, start + 8 * i) == msg[i]
    {
      forall k | 0 <= k < 8
        ensures o[start + 8 * i + k] % 2 == MsgBit(msg[i], k)
      {
        var x := 8 * i + k;
        assert x / 8 == i && x % 8 == k;
        assert o[start + x] % 2 == MsgBit(msg[x / 8], x % 8);
      }
      GatherBits(o, start + 8 * i, msg[i]);
    }
  }

  /** A window that leaves bytes 10..13 alone leaves the offset as it was. */
  lemma OffsetKept(b: seq<byte>, msg: seq<byte>)
    requires |b| <= MaxArrayLength && BmpWithText(b, msg).Ok?
    requires var offset := BmpDataOffset(b).value;
      offset >= FileHeader || offset + 8 * |msg| < 10
    ensures BmpDataOffset(BmpWithText(b, msg).value) == BmpDataOffset(b)
  {
    var o := BmpWithText(b, msg).value;
    EmbedLayout(b, msg);
    assert o[10] == b[10] && o[11] == b[11] && o[12] == b[12] && o[13] == b[13];
  }

  /** `offset + 1` does not wrap for an offset inside a .NET array. */
  lemma NoWrap(offset: int)
    requires 0 <= offset < MaxArrayLength
    ensures Int32Wrap(offset + 1) == offset + 1
  {
  }

  /** ExtractTextBmpLSBFile reads back the message EmbedTextBmpLSBFile wrote, when
      the window leaves the offset field alone and, for the empty message, a byte
      follows the length byte. */
  lemma RoundTrip(b: seq<byte>, msg: seq<byte>)
    requires |b| <= MaxArrayLength && BmpWithText(b, msg).Ok?
    requires var offset := BmpDataOffset(b).value;
      offset >= FileHeader || offset + 8 * |msg| < 10 || (msg == [] && offset != 10)
    requires msg != [] || BmpDataOffset(b).value + 1 < |b|
    ensures BmpText(BmpWithText(b, msg).value) == Ok(Some(msg))
  {
    if msg != [] {
      RoundTripNonEmpty(b, msg);
    } else {
      RoundTripEmpty(b);
    }
  }

  /** The round trip for a message of at least one byte. */
  lemma RoundTripNonEmpty(b: seq<byte>, msg: seq<byte>)
    requires |b| <= MaxArrayLength && BmpWithText(b, msg).Ok? && msg != []
    requires var offset := BmpDataOffset(b).value;
      offset >= FileHeader || offset + 8 * |msg| < 10
    ensures BmpText(BmpWithText(b, msg).value) == Ok(Some(msg))
  {
    var o := BmpWithText(b, msg).value;
    var offset := BmpDataOffset(b).value;
    EmbedBounds(b, msg);
    EmbedWindow(b, msg);
    OffsetKept(b, msg);
    NoWrap(offset);
    DecodedWindow(o, offset + 1, msg);
    assert BmpText(o) == Ok(Some(Decoded(o, offset + 1, |msg|)));
  }

  /** The round trip for the empty message, whose length byte is not the last byte.
      Only offset 10 fails: the zero length byte then lands on the low byte of the
      offset field. An offset from 11 to 13 lies in bytes 11..13 of the field, which
      are then zero, so writing the zero length byte there changes nothing. */
  lemma RoundTripEmpty(b: seq<byte>)
    requires |b| <= MaxArrayLength && BmpWithText(b, []).Ok?
    requires BmpDataOffset(b).value != 10
    requires BmpDataOffset(b).value + 1 < |b|
    ensures BmpText(BmpWithText(b, []).value) == Ok(Some([]))
  {
    var offset := BmpDataOffset(b).value;
    EmbedBounds(b, []);
    NoWrap(offset);
    if 10 < offset < FileHeader {
      var o := BmpWithText(b, []).value;
      assert b[13] < 0x80;
      assert b[11] == 0 && b[12] == 0 && b[13] == 0;
      EmbedOutside(b, []);
      assert o == b;
    } else {
      OffsetKept(b, []);
    }
  }

  /** The edge the round trip excludes: an empty message whose length byte is the
      last byte of the buffer is embedded, but the extraction then returns no text
      rather than the empty one. */
  lemma EmptyAtEnd(b: seq<byte>)
    requires |b| <= MaxArrayLength && BmpWithText(b, []).Ok?
    requires BmpDataOffset(b).value + 1 == |b|
    ensures BmpText(BmpWithText(b, []).value) == Ok(None)
  {
    var offset := BmpDataOffset(b).value;
    EmbedLayout(b, []);
    if offset >= FileHeader {
      OffsetKept(b, []);
    } else {
      // Only the last header byte can hold the length byte here, and it is zero.
      var o := BmpWithText(b, []).value;
      assert offset == 13 && b[13] == 0;
      assert o[10] == b[10] && o[11] == b[11] && o[12] == b[12] && o[13] == b[13];
    }
    NoWrap(offset);
  }

  /** EmbedTextBmpLSBFile throws each of its exceptions exactly when its check is the
      first to fail: a header shorter than 14 bytes, a message over 255 bytes, an
      offset at or past the end, a negative offset, and a pixel window that ends
      inside the message. */
  lemma EmbedErrors(b: seq<byte>, msg: seq<byte>)
    requires |b| <= MaxArrayLength
    ensures BmpWithText(b, msg) == Fail(NotBmp) <==> |b| < FileHeader
    ensures BmpWithText(b, msg) == Fail(TextTooLong) <==> |b| >= FileHeader && |msg| > MaxMessage
    ensures BmpWithText(b, msg) == Fail(InvalidBmpOffset) <==>
      |b| >= FileHeader && |msg| <= MaxMessage && BmpDataOffset(b).value >= |b|
    ensures BmpWithText(b, msg) == Fail(BmpIndexOutOfRange) <==>
      |b| >= FileHeader && |msg| <= MaxMessage && BmpDataOffset(b).value < 0
    ensures BmpWithText(b, msg) == Fail(BmpTooSmall) <==>
      |b| >= FileHeader && |msg| <= MaxMessage && 0 <= BmpDataOffset(b).value < |b|
      && BmpDataOffset(b).value + 1 + 8 * |msg| > |b|
  {
  }

  /** ExtractTextBmpLSBFile returns null or throws each of its exceptions exactly when
      its check is the first to fail: a header shorter than 14 bytes, `offset + 1`
      (in `int`) not below the length, an offset outside the buffer, and a non-zero
      length whose window runs past the end. */
  lemma ExtractErrors(b: seq<byte>)
    ensures BmpText(b) == Fail(NotBmp) <==> |b| < FileHeader
    ensures BmpText(b) == Ok(None) <==>
      |b| >= FileHeader && Int32Wrap(BmpDataOffset(b).value + 1) >= |b|
    ensures BmpText(b) == Fail(BmpIndexOutOfRange) <==>
      |b| >= FileHeader && Int32Wrap(BmpDataOffset(b).value + 1) < |b|
      && !(0 <= BmpDataOffset(b).value < |b|)
    ensures BmpText(b) == Fail(BmpTruncated) <==>
      |b| >= FileHeader && Int32Wrap(BmpDataOffset(b).value + 1) < |b|
      && 0 <= BmpDataOffset(b).value < |b| && b[BmpDataOffset(b).value] > 0
      && BmpDataOffset(b).value + 1 + 8 * (b[BmpDataOffset(b).value] as int) > |b|
  {
  }
}
