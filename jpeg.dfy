/** The JPEG side of ImageHelpers: a walk over the marker segments after SOI, and
    the comment (COM) segment of section B.2.4.5 of ITU-T T.81: the marker FF FE,
    a two-byte big-endian length that counts itself, then the comment bytes.
    TryEmbedTextJpegInPlace overwrites the payload of the first COM segment,
    EmbedTextJpeg inserts a new one right after SOI, and ExtractTextFromJpeg reads
    the payload of the first one. */
module Jpeg {
  import opened Bytes
  import opened Magic

  /** The walk starts right after the two-byte SOI marker. */
  const AfterSoi: nat := 2
  const ComMarker: byte := 0xFE
  const SosMarker: byte := 0xDA
  const EoiMarker: byte := 0xD9
  /** The longest comment a COM segment holds: its length field counts two more. */
  const MaxComment: nat := 65533

  /** The two-byte big-endian length field of the segment whose marker is at `pos`. */
  function SegmentLength(b: seq<byte>, pos: nat): (len: nat)
    requires pos + 4 <= |b|
    ensures len < 0x1_0000
  {
    (b[pos + 2] as int) * 0x100 + b[pos + 3] as int
  }

  /** The first COM marker the walk meets from `pos`: a byte other than FF moves it
      on by one, SOS and EOI stop it, any other marker is skipped with its segment,
      and it gives up when fewer than four bytes remain. */
  function FindCom(b: seq<byte>, pos: nat): (r: Option<nat>)
    ensures r.Some? ==> pos <= r.value && r.value + 4 <= |b|
    ensures r.Some? ==> b[r.value] == 0xFF && b[r.value + 1] == ComMarker
    decreases |b| - pos
  {
    if pos + 4 > |b| then None
    else if b[pos] != 0xFF then FindCom(b, pos + 1)
    else if b[pos + 1] == SosMarker || b[pos + 1] == EoiMarker then None
    else if b[pos + 1] == ComMarker then Some(pos)
    else FindCom(b, pos + 2 + SegmentLength(b, pos))
  }

  /** The walk that TryEmbedTextJpegInPlace and ExtractTextFromJpeg share. */
  method WalkToCom(jpg: seq<byte>) returns (found: Option<nat>)
    ensures found == FindCom(jpg, AfterSoi)
  {
    var pos: nat := AfterSoi;
    while pos + 4 <= |jpg|
      invariant FindCom(jpg, pos) == FindCom(jpg, AfterSoi)
      decreases |jpg| - pos
    {
      if jpg[pos] != 0xFF {
        pos := pos + 1;
        continue;
      }
      var marker := jpg[pos + 1];
      if marker == SosMarker || marker == EoiMarker {
        assert FindCom(jpg, pos) == None;
        break;
      }
      if marker == ComMarker {
        return Some(pos);
      }
      var segLen := (jpg[pos + 2] as int) * 0x100 + jpg[pos + 3] as int;
      assert segLen == SegmentLength(jpg, pos);
      pos := pos + 2 + segLen;
    }
    return None;
  }

  // ---------------------------------------------------------------------------
  // ExtractTextFromJpeg

  /** The payload of the COM segment at `p` as ExtractTextFromJpeg reads it: none when
      the length field is below 2 or the payload runs past the end. */
  function ComText(b: seq<byte>, p: nat): (r: Option<seq<byte>>)
    requires p + 4 <= |b|
    ensures r.Some? ==> |r.value| + 2 == SegmentLength(b, p) && p + 2 + SegmentLength(b, p) <= |b|
    ensures r.Some? ==> r.value == b[p + 4..p + 4 + |r.value|]
  {
    var len := SegmentLength(b, p);
    if len < 2 then None
    else if p + 4 + (len - 2) > |b| then None
    else Some(b[p + 4..p + 2 + len])
  }

  /** What ExtractTextFromJpeg returns. */
  function JpegText(b: seq<byte>): (r: Option<seq<byte>>)
    ensures r.Some? ==> IsJpeg(b) && FindCom(b, AfterSoi).Some?
    ensures r.Some? ==> var p := FindCom(b, AfterSoi).value;
      |r.value| + 2 == SegmentLength(b, p) && p + 4 + |r.value| <= |b| && r.value == b[p + 4..p + 4 + |r.value|]
  {
    if !IsJpeg(b) then None
    else match FindCom(b, AfterSoi)
      case None => None
      case Some(p) => ComText(b, p)
  }

  /** ExtractTextFromJpeg: check SOI, walk to the first COM segment, read it. */
  method ExtractTextFromJpeg(jpg: seq<byte>) returns (r: Option<seq<byte>>)
    ensures r == JpegText(jpg)
  {
    if !IsJpeg(jpg) {
      return None;
    }
    var found := WalkToCom(jpg);
    match found
    case None => return None;
    case Some(pos) =>
      var len := (jpg[pos + 2] as int) * 0x100 + jpg[pos + 3] as int;
      if len < 2 {
        return None;
      }
      var dataLen := len - 2;
      if pos + 4 + dataLen > |jpg| {
        return None;
      }
      return Some(jpg[pos + 4..pos + 4 + dataLen]);
  }

  // ---------------------------------------------------------------------------
  // TryEmbedTextJpegInPlace

  /** The buffer with the `dataLen` payload bytes of the COM segment at `p` replaced
      by `text` and zero padding. */
  function FilledCom(b: seq<byte>, p: nat, dataLen: nat, text: seq<byte>): (o: seq<byte>)
    requires |text| <= dataLen && p + 4 + dataLen <= |b|
    ensures |o| == |b|
  {
    b[..p + 4] + (text + Zeros(dataLen - |text|)) + b[p + 4 + dataLen..]
  }

  /** What TryEmbedTextJpegInPlace does: `Ok(Some(o))` when it returns true with
      `o`, `Ok(None)` when it returns false (no COM segment before SOS or EOI, or a
      payload too small for the text), and `Fail(SegmentOverrun)` when the payload
      the length field claims runs past the end of the buffer, where Array.Clear
      throws. */
  function JpegInPlace(b: seq<byte>, text: seq<byte>): (r: Result<Option<seq<byte>>>)
    ensures r.Ok? && r.value.Some? ==> |r.value.value| == |b|
    ensures r.Fail? ==> r.error == SegmentOverrun && FindCom(b, AfterSoi).Some?
  {
    match FindCom(b, AfterSoi)
    case None => Ok(None)
    case Some(p) =>
      var dataLen := SegmentLength(b, p) - 2;
      if |text| > dataLen then Ok(None)
      else if p + 4 + dataLen > |b| then Fail(SegmentOverrun)
      else Ok(Some(FilledCom(b, p, dataLen, text)))
  }

  /** TryEmbedTextJpegInPlace: the result and the clone it wrote into. The C# code
      does not check the SOI marker here. */
  method TryEmbedTextJpegInPlace(jpg: seq<byte>, text: seq<byte>) returns (r: Result<bool>, outBytes: seq<byte>)
    ensures r.Fail? <==> JpegInPlace(jpg, text).Fail?
    ensures r.Fail? ==> r.error == JpegInPlace(jpg, text).error
    ensures r.Ok? ==> r.value == JpegInPlace(jpg, text).value.Some?
    ensures outBytes == if r == Ok(true) then JpegInPlace(jpg, text).value.value else jpg
  {
    var a := CloneBytes(jpg);
    var found := WalkToCom(jpg);
    match found
    case None => return Ok(false), a[..];
    case Some(pos) =>
      var len := (jpg[pos + 2] as int) * 0x100 + jpg[pos + 3] as int;
      var dataLen := len - 2;
      var dataPos := pos + 4;
      if |text| <= dataLen {
        if dataPos + dataLen > a.Length {
          return Fail(SegmentOverrun), a[..];
        }
        OverwriteField(a, dataPos, dataPos + dataLen, text);
        return Ok(true), a[..];
      }
      return Ok(false), a[..];
  }

  // ---------------------------------------------------------------------------
  // EmbedTextJpeg

  /** The COM segment EmbedTextJpeg writes: marker, big-endian length |text| + 2,
      then the text. */
  function ComSegment(text: seq<byte>): (s: seq<byte>)
    requires |text| <= MaxComment
    ensures |s| == |text| + 4
  {
    var len := |text| + 2;
    [0xFF, ComMarker, len / 0x100, len % 0x100] + text
  }

  /** What EmbedTextJpeg returns or throws. */
  function JpegWithText(b: seq<byte>, text: seq<byte>): (r: Result<seq<byte>>)
    ensures r.Ok? ==> |r.value| == |b| + 4 + |text|
    ensures r.Fail? ==> r.error == NotJpeg || r.error == TextTooLong
  {
    if !IsJpeg(b) then Fail(NotJpeg)
    else if |text| > MaxComment then Fail(TextTooLong)
    else Ok(b[..AfterSoi] + ComSegment(text) + b[AfterSoi..])
  }

  /** EmbedTextJpeg: SOI, the new COM segment, then the rest of the input, written
      to a stream one piece at a time. */
  method EmbedTextJpeg(jpg: seq<byte>, text: seq<byte>) returns (r: Result<seq<byte>>)
    ensures r == JpegWithText(jpg, text)
  {
    if !IsJpeg(jpg) {
      return Fail(NotJpeg);
    }
    var pos := AfterSoi;
    var data := text;
    if |data| > MaxComment {
      return Fail(TextTooLong);
    }
    var ms := jpg[..pos];
    ms := ms + [0xFF];
    ms := ms + [ComMarker];
    var len := |data| + 2;
    ms := ms + [len / 0x100];
    ms := ms + [len % 0x100];
    ms := ms + data;
    ms := ms + jpg[pos..];
    assert ms == jpg[..pos] + ComSegment(text) + jpg[pos..];
    return Ok(ms);
  }
}
