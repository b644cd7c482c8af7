/** What the JPEG operations promise: the in-place rewrite keeps the length and every
    byte outside the comment payload, keeps the walk on the same segment and reads
    back as the text and its padding; the insertion adds one COM segment after SOI,
    keeps the SOI marker and reads back as the text. */
module JpegFacts {
  import opened Bytes
  import opened Magic
  import opened Jpeg

  /** The walk depends only on the bytes it reads: a buffer with the same bytes up
      to the end of the found marker's length field finds the same COM segment. */
  lemma {:induction false} ComPrefix(b: seq<byte>, c: seq<byte>, pos: nat, p: nat)
    requires FindCom(b, pos) == Some(p) && SameUpTo(b, c, p + 4)
    ensures FindCom(c, pos) == Some(p)
    decreases |b| - pos
  {
    assert c[pos] == b[pos] && c[pos + 1] == b[pos + 1];
    if b[pos] != 0xFF {
      ComPrefix(b, c, pos + 1, p);
    } else if b[pos + 1] != ComMarker {
      assert SegmentLength(c, pos) == SegmentLength(b, pos);
      ComPrefix(b, c, pos + 2 + SegmentLength(b, pos), p);
    }
  }

  /** The pieces of a filled COM segment: the bytes before the payload, the payload
      and the bytes after it. */
  lemma FilledPieces(b: seq<byte>, p: nat, dataLen: nat, text: seq<byte>)
    requires |text| <= dataLen && p + 4 + dataLen <= |b|
    ensures var o := FilledCom(b, p, dataLen, text);
      && |o| == |b|
      && o[..p + 4] == b[..p + 4]
      && o[p + 4..p + 4 + dataLen] == text + Zeros(dataLen - |text|)
      && o[p + 4 + dataLen..] == b[p + 4 + dataLen..]
  {
    var o := FilledCom(b, p, dataLen, text);
    var field := text + Zeros(dataLen - |text|);
    assert o == b[..p + 4] + (field + b[p + 4 + dataLen..]);
  }

  /** Filling the payload of the COM segment the walk finds keeps the walk, the
      segment's length field and the SOI check. */
  lemma FilledWalk(b: seq<byte>, p: nat, text: seq<byte>)
    requires FindCom(b, AfterSoi) == Some(p) && SegmentLength(b, p) >= 2
    requires |text| <= SegmentLength(b, p) - 2 && p + 2 + SegmentLength(b, p) <= |b|
    ensures var o := FilledCom(b, p, SegmentLength(b, p) - 2, text);
      && FindCom(o, AfterSoi) == Some(p)
      && SegmentLength(o, p) == SegmentLength(b, p)
      && (IsJpeg(o) <==> IsJpeg(b))
  {
    var o := FilledCom(b, p, SegmentLength(b, p) - 2, text);
    FilledPieces(b, p, SegmentLength(b, p) - 2, text);
    SameUpToOfSlices(b, o, p + 4);
    assert o[0] == b[0] && o[1] == b[1] && o[p + 2] == b[p + 2] && o[p + 3] == b[p + 3];
    ComPrefix(b, o, AfterSoi, p);
  }

  /** On `true` the output has the input's length, keeps every byte up to and
      including the length field of the first COM segment, holds the text and zero
      padding in its payload, keeps everything after it, is still walked to the same
      segment and is taken for a JPEG exactly when the input is. */
  lemma InPlaceLayout(b: seq<byte>, text: seq<byte>)
    requires JpegInPlace(b, text).Ok? && JpegInPlace(b, text).value.Some?
    ensures var o := JpegInPlace(b, text).value.value;
      var p := FindCom(b, AfterSoi).value;
      var dataLen := SegmentLength(b, p) - 2;
      && |o| == |b|
      && o[..p + 4] == b[..p + 4]
      && o[p + 4..p + 4 + dataLen] == text + Zeros(dataLen - |text|)
      && o[p + 4 + dataLen..] == b[p + 4 + dataLen..]
      && FindCom(o, AfterSoi) == Some(p)
      && SegmentLength(o, p) == SegmentLength(b, p)
      && (IsJpeg(o) <==> IsJpeg(b))
  {
    var p := FindCom(b, AfterSoi).value;
    var dataLen := SegmentLength(b, p) - 2;
    assert JpegInPlace(b, text) == Ok(Some(FilledCom(b, p, dataLen, text)));
    FilledPieces(b, p, dataLen, text);
    FilledWalk(b, p, text);
  }

  /** What the in-place rewrite wrote is what ExtractTextFromJpeg reads back from a
      JPEG: the text followed by the zero padding of the payload. */
  lemma InPlaceRoundTrip(b: seq<byte>, text: seq<byte>)
    requires IsJpeg(b) && JpegInPlace(b, text).Ok? && JpegInPlace(b, text).value.Some?
    ensures var p := FindCom(b, AfterSoi).value;
      JpegText(JpegInPlace(b, text).value.value)
        == Some(text + Zeros(SegmentLength(b, p) - 2 - |text|))
  {
    InPlaceLayout(b, text);
  }

  /** TryEmbedTextJpegInPlace returns true or false, rather than throwing, on every
      buffer whose first COM segment's payload lies inside it. */
  lemma InPlaceNoOverrun(b: seq<byte>, text: seq<byte>)
    requires FindCom(b, AfterSoi).Some?
    requires var p := FindCom(b, AfterSoi).value;
      SegmentLength(b, p) >= 2 && p + 2 + SegmentLength(b, p) <= |b|
    ensures JpegInPlace(b, text).Ok?
    ensures JpegInPlace(b, text).value.Some?
      <==> |text| + 2 <= SegmentLength(b, FindCom(b, AfterSoi).value)
  {
  }

  /** On success EmbedTextJpeg's output is |text| + 4 bytes longer, keeps SOI, holds
      the COM segment with length |text| + 2 right after it, then the rest of the
      input, and is taken for a JPEG. */
  lemma EmbedLayout(b: seq<byte>, text: seq<byte>)
    requires JpegWithText(b, text).Ok?
    ensures var o := JpegWithText(b, text).value;
      && |o| == |b| + 4 + |text|
      && o[..AfterSoi] == b[..AfterSoi]
      && o[2] == 0xFF && o[3] == ComMarker
      && SegmentLength(o, 2) == |text| + 2
      && o[6..6 + |text|] == text
      && o[6 + |text|..] == b[AfterSoi..]
      && IsJpeg(o)
  {
    var o := JpegWithText(b, text).value;
    var seg := ComSegment(text);
    assert o == b[..AfterSoi] + (seg[..4] + (text + b[AfterSoi..]));
  }

  /** ExtractTextFromJpeg reads back exactly the text EmbedTextJpeg inserted, the
      empty text included. */
  lemma EmbedRoundTrip(b: seq<byte>, text: seq<byte>)
    requires JpegWithText(b, text).Ok?
    ensures JpegText(JpegWithText(b, text).value) == Some(text)
  {
    EmbedLayout(b, text);
    var o := JpegWithText(b, text).value;
    assert FindCom(o, AfterSoi) == Some(2);
  }

  /** EmbedTextJpeg fails exactly on a buffer that is not taken for a JPEG or on a
      text longer than a comment can hold, and says which. */
  lemma EmbedErrors(b: seq<byte>, text: seq<byte>)
    ensures JpegWithText(b, text).Fail? <==> !IsJpeg(b) || |text| > MaxComment
    ensures JpegWithText(b, text) == Fail(NotJpeg) <==> !IsJpeg(b)
  {
  }
}
