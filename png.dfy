/** The PNG side of ImageHelpers: the chunk walk (section 5.3 of the PNG
    specification, W3C Second Edition: length, type, data, CRC), the iTXt text chunk
    (section 11.3.4.5: keyword, NUL, compression flag, compression method, language
    tag, NUL, translated keyword, NUL, text) and the three operations on it. */
module Png {
  import opened Bytes
  import opened Crc
  import opened Magic

  /** Length of the PNG signature; the walk starts after it. */
  const Signature: nat := 8
  /** The ASCII bytes of "iTXt", as BuildPngITXtChunk writes them and as they enter
      the CRC. */
  const ITxtName: seq<byte> := [0x69, 0x54, 0x58, 0x74]
  /** "iTXt" and "IEND" as the walk sees them: the four type bytes read as one
      big-endian value (see ChunkType). */
  const ITxtType: u32 := 0x6954_5874
  const IendType: u32 := 0x4945_4E44
  /** The ASCII bytes of "IEND". */
  const IendName: seq<byte> := [0x49, 0x45, 0x4E, 0x44]
  /** "stegotext", the keyword of the chunks this program writes. */
  const StegoKeyword: seq<byte> := [0x73, 0x74, 0x65, 0x67, 0x6F, 0x74, 0x65, 0x78, 0x74]

  // ---------------------------------------------------------------------------
  // The chunk walk

  function ChunkLength(b: seq<byte>, pos: nat): u32
    requires pos + 8 <= |b|
  {
    ReadBigEndianUInt32(b, pos)
  }

  /** The four type bytes of the chunk at `pos`, read as one big-endian value. The
      C# code decodes them as ASCII and compares the string with "iTXt" or "IEND";
      both names are plain ASCII, so the string matches exactly when the four
      bytes are the name's bytes, that is, when this value is ITxtType or
      IendType (TypeNames). */
  function ChunkType(b: seq<byte>, pos: nat): u32
    requires pos + 8 <= |b|
  {
    ReadBigEndianUInt32(b, pos + 4)
  }

  /** The two type values are the names' bytes read big-endian, and they differ. */
  lemma TypeNames()
    ensures BeBytes(ITxtType) == ITxtName && BeBytes(IendType) == IendName
    ensures ITxtType != IendType
  {
  }

  /** `dataStart + len`: where the CRC of the chunk at `pos` begins. */
  function DataEnd(b: seq<byte>, pos: nat): nat
    requires pos + 8 <= |b|
  {
    pos + 8 + ChunkLength(b, pos)
  }

  /** The walk takes a chunk at `pos` only when its header and its CRC lie inside
      the buffer. */
  predicate ChunkFits(b: seq<byte>, pos: nat) {
    pos + 8 <= |b| && DataEnd(b, pos) + 4 <= |b|
  }

  /** The stored CRC of a chunk is the checksum of its type and data. */
  predicate ChunkCrcOk(b: seq<byte>, pos: nat)
    requires ChunkFits(b, pos)
  {
    b[DataEnd(b, pos)..DataEnd(b, pos) + 4] == BeBytes(Checksum(b[pos + 4..DataEnd(b, pos)]))
  }

  /** The first iTXt chunk that the walk of TryEmbedTextPngInPlace and
      ExtractTextFromPng meets from `pos`: the walk stops at a chunk that does not
      fit and at IEND. */
  function FindITXt(b: seq<byte>, pos: nat): (r: Option<nat>)
    ensures r.Some? ==> pos <= r.value && ChunkFits(b, r.value) && ChunkType(b, r.value) == ITxtType
    decreases |b| - pos
  {
    if !ChunkFits(b, pos) then None
    else if ChunkType(b, pos) == ITxtType then Some(pos)
    else if ChunkType(b, pos) == IendType then None
    else FindITXt(b, DataEnd(b, pos) + 4)
  }

  /** The IEND chunk as EmbedTextPng's walk finds it, or why the walk failed. */
  function FindIend(b: seq<byte>, pos: nat): (r: Result<nat>)
    ensures r.Ok? ==> pos <= r.value && ChunkFits(b, r.value) && ChunkType(b, r.value) == IendType
    ensures r.Fail? ==> r.error == InvalidPngChunk || r.error == IendNotFound
    decreases |b| - pos
  {
    if pos + 8 > |b| then Fail(IendNotFound)
    else if DataEnd(b, pos) + 4 > |b| then Fail(InvalidPngChunk)
    else if ChunkType(b, pos) == IendType then Ok(pos)
    else FindIend(b, DataEnd(b, pos) + 4)
  }

  // ---------------------------------------------------------------------------
  // Inside an iTXt chunk

  /** `while (i < end && b[i] != 0) i++`: the first NUL at or after `i` before `end`,
      or the scan's stopping point. */
  function SkipField(b: seq<byte>, i: nat, end: nat): (j: nat)
    requires end <= |b|
    ensures i <= j && (i < end ==> j <= end) && (i >= end ==> j == i)
    decreases end - i
  {
    if i < end && b[i] != 0 then SkipField(b, i + 1, end) else i
  }

  /** SkipField stops at the first NUL: every byte it passes is non-zero, and it
      stands on a NUL unless it ran into `end`. */
  lemma {:induction false} SkipFieldStops(b: seq<byte>, i: nat, end: nat)
    requires end <= |b|
    ensures var j := SkipField(b, i, end);
      && (j < end ==> b[j] == 0)
      && (forall k :: i <= k < j ==> b[k] != 0)
    decreases end - i
  {
    if i < end && b[i] != 0 {
      SkipFieldStops(b, i + 1, end);
    }
  }

  /** From the compression method onwards: skip the language tag and the translated
      keyword, each with its NUL, and land on the text. */
  function TextStart(b: seq<byte>, i: nat, end: nat): (k: nat)
    requires end <= |b|
    ensures i + 2 <= k && (i <= end ==> k <= end + 2)
  {
    SkipField(b, SkipField(b, i, end) + 1, end) + 1
  }

  /** Where the keyword of the chunk at `p` ends: one past its NUL. */
  function KeywordEnd(b: seq<byte>, p: nat): (i: nat)
    requires ChunkFits(b, p)
    ensures p + 9 <= i <= DataEnd(b, p) + 1
  {
    SkipField(b, p + 8, DataEnd(b, p)) + 1
  }

  // ---------------------------------------------------------------------------
  // ExtractTextFromPng

  /** The text of the iTXt chunk at `p` as ExtractTextFromPng reads it: none when the
      keyword leaves at most two bytes; the empty text when the fields leave nothing. */
  function ITXtText(b: seq<byte>, p: nat): (r: Option<seq<byte>>)
    requires ChunkFits(b, p)
    ensures r.Some? ==> p + 8 + |r.value| <= DataEnd(b, p) && r.value == b[DataEnd(b, p) - |r.value|..DataEnd(b, p)]
    ensures r.Some? && r.value != [] ==> |r.value| + 5 <= DataEnd(b, p) - (p + 8)
  {
    var de := DataEnd(b, p);
    var i := KeywordEnd(b, p);
    if i + 2 >= de then None
    else
      var k := TextStart(b, i + 2, de);
      if de - k <= 0 then Some([]) else Some(b[k..de])
  }

  /** What ExtractTextFromPng returns: the text of the first iTXt chunk. */
  function PngText(b: seq<byte>): (r: Option<seq<byte>>)
    ensures r.Some? ==> FindITXt(b, Signature).Some?
    ensures r.Some? ==> var de := DataEnd(b, FindITXt(b, Signature).value);
      |r.value| <= de && r.value == b[de - |r.value|..de]
  {
    match FindITXt(b, Signature)
    case None => None
    case Some(p) => ITXtText(b, p)
  }

  /** ExtractTextFromPng: walk to the first iTXt chunk, then read its text. */
  method ExtractTextFromPng(png: seq<byte>) returns (r: Option<seq<byte>>)
    ensures r == PngText(png)
  {
    var found := WalkToITXt(png);
    match found
    case None => return None;
    case Some(pos) => r := ReadITXtText(png, pos);
  }

  /** The chunk walk that ExtractTextFromPng and TryEmbedTextPngInPlace share: from
      the end of the signature, chunk by chunk, until a chunk does not fit, an iTXt
      chunk is found, or IEND is reached. */
  method WalkToITXt(png: seq<byte>) returns (found: Option<nat>)
    ensures found == FindITXt(png, Signature)
  {
    var pos: nat := Signature;
    while pos + 8 <= |png|
      invariant FindITXt(png, pos) == FindITXt(png, Signature)
      decreases |png| - pos
    {
      var len := ReadBigEndianUInt32(png, pos);
      var dataStart := pos + 8;
      var dataEnd := dataStart + len;
      assert dataEnd == DataEnd(png, pos);
      if dataEnd + 4 > |png| {
        assert FindITXt(png, pos) == None;
        break;
      }
      if ChunkType(png, pos) == ITxtType {
        assert FindITXt(png, pos) == Some(pos);
        return Some(pos);
      }
      if ChunkType(png, pos) == IendType {
        assert FindITXt(png, pos) == None;
        break;
      }
      assert FindITXt(png, pos) == FindITXt(png, dataEnd + 4);
      pos := dataEnd + 4;
    }
    return None;
  }

  /** The body of ExtractTextFromPng once the walk stands on an iTXt chunk. */
  method ReadITXtText(png: seq<byte>, pos: nat) returns (r: Option<seq<byte>>)
    requires ChunkFits(png, pos)
    ensures r == ITXtText(png, pos)
  {
    var dataStart := pos + 8;
    var dataEnd := DataEnd(png, pos);
    var i := SkipNonZero(png, dataStart, dataEnd);
    i := i + 1;
    if i + 2 >= dataEnd {
      return None;
    }
    i := i + 2;
    i := SkipNonZero(png, i, dataEnd);
    i := i + 1;
    i := SkipNonZero(png, i, dataEnd);
    i := i + 1;
    var textLen := dataEnd - i;
    if textLen <= 0 {
      return Some([]);
    }
    return Some(png[i..dataEnd]);
  }

  /** The scanning loop `while (i < end && b[i] != 0) i++`. */
  method SkipNonZero(b: seq<byte>, i0: nat, end: nat) returns (i: nat)
    requires end <= |b|
    ensures i == SkipField(b, i0, end)
  {
    i := i0;
    while i < end && b[i] != 0
      invariant i0 <= i && (i0 < end ==> i <= end) && (i0 >= end ==> i == i0)
      invariant SkipField(b, i, end) == SkipField(b, i0, end)
      decreases end - i
    {
      i := i + 1;
    }
  }

  // ---------------------------------------------------------------------------
  // TryEmbedTextPngInPlace

  /** The text field of the chunk at `p` as the in-place path finds it; none when
      the keyword leaves fewer than two bytes for the flags. */
  function InPlaceTextStart(b: seq<byte>, p: nat): (r: Option<nat>)
    requires ChunkFits(b, p)
    ensures r.Some? ==> p + 11 <= r.value <= DataEnd(b, p) + 2
  {
    var i := KeywordEnd(b, p);
    if i + 2 > DataEnd(b, p) then None else Some(TextStart(b, i + 2, DataEnd(b, p)))
  }

  /** The chunk at `p` with its text field from `k` filled with `text` and zero
      padding, and its CRC recomputed over its new type and data. */
  function FilledChunk(b: seq<byte>, p: nat, k: nat, text: seq<byte>): (o: seq<byte>)
    requires ChunkFits(b, p) && p + 8 <= k && k + |text| <= DataEnd(b, p)
    ensures |o| == |b|
  {
    var de := DataEnd(b, p);
    var field := text + Zeros(de - k - |text|);
    b[..k] + field + BeBytes(Checksum(ITxtName + b[p + 8..k] + field)) + b[de + 4..]
  }

  /** The in-place rewrite of the iTXt chunk at `p`, or none when the text does not
      fit between the text start and the end of the data. */
  function ITXtInPlace(b: seq<byte>, p: nat, text: seq<byte>): (r: Option<seq<byte>>)
    requires ChunkFits(b, p)
    ensures r.Some? <==> InPlaceTextStart(b, p).Some? && InPlaceTextStart(b, p).value + |text| <= DataEnd(b, p)
    ensures r.Some? ==> |r.value| == |b|
  {
    match InPlaceTextStart(b, p)
    case None => None
    case Some(k) => if k + |text| > DataEnd(b, p) then None else Some(FilledChunk(b, p, k, text))
  }

  /** The bytes TryEmbedTextPngInPlace leaves when it returns true, or none when it
      returns false. */
  function PngInPlace(b: seq<byte>, text: seq<byte>): (r: Option<seq<byte>>)
    ensures r.Some? ==> FindITXt(b, Signature).Some? && |r.value| == |b|
  {
    match FindITXt(b, Signature)
    case None => None
    case Some(p) => ITXtInPlace(b, p, text)
  }

  /** TryEmbedTextPngInPlace: returns whether the text fitted, and the clone it wrote
      into. */
  method TryEmbedTextPngInPlace(png: seq<byte>, text: seq<byte>) returns (ok: bool, outBytes: seq<byte>)
    ensures ok == PngInPlace(png, text).Some?
    ensures outBytes == if ok then PngInPlace(png, text).value else png
  {
    var a := CloneBytes(png);
    var found := WalkToITXt(png);
    match found
    case None => return false, a[..];
    case Some(pos) =>
      ok := RewriteITXt(a, pos, text);
      return ok, a[..];
  }

  /** The body of TryEmbedTextPngInPlace once the walk stands on an iTXt chunk. The
      compression flag and method are read but not checked. */
  method RewriteITXt(a: array<byte>, pos: nat, text: seq<byte>) returns (ok: bool)
    requires ChunkFits(a[..], pos)
    modifies a
    ensures ok == ITXtInPlace(old(a[..]), pos, text).Some?
    ensures a[..] == if ok then ITXtInPlace(old(a[..]), pos, text).value else old(a[..])
  {
    var b := a[..];
    var len := ReadBigEndianUInt32(b, pos);
    var dataStart := pos + 8;
    var dataEnd := dataStart + len;
    assert dataEnd == DataEnd(b, pos);
    var i := SkipNonZero(b, dataStart, dataEnd);
    i := i + 1;
    assert i == KeywordEnd(b, pos);
    if i + 2 > dataEnd {
      assert InPlaceTextStart(b, pos) == None;
      return false;
    }
    ghost var flags := i;
    var compressionFlag := b[i];
    i := i + 1;
    var compressionMethod := b[i];
    i := i + 1;
    i := SkipNonZero(b, i, dataEnd);
    i := i + 1;
    i := SkipNonZero(b, i, dataEnd);
    i := i + 1;
    var textStart := i;
    assert textStart == TextStart(b, flags + 2, dataEnd);
    assert InPlaceTextStart(b, pos) == Some(textStart);
    var available := len - (textStart - dataStart);
    if |text| <= available {
      FillTextField(a, pos, textStart, text);
      return true;
    }
    return false;
  }

  /** Clear the text field, copy the text in, and rewrite the CRC. */
  method FillTextField(a: array<byte>, pos: nat, textStart: nat, text: seq<byte>)
    requires ChunkFits(a[..], pos) && pos + 8 <= textStart && textStart + |text| <= DataEnd(a[..], pos)
    modifies a
    ensures a[..] == FilledChunk(old(a[..]), pos, textStart, text)
  {
    ghost var b := a[..];
    var dataEnd := DataEnd(a[..], pos);
    OverwriteField(a, textStart, dataEnd, text);
    ghost var c := a[..];
    var data := a[pos + 8..dataEnd];
    var crc := Crc32(ITxtName + data);
    FilledChunkPieces(b, pos, textStart, text, c, crc);
    WriteUInt32ToBuffer(a, dataEnd, crc);
  }

  /** FilledChunk is the buffer `c` with the rewritten text field, with its CRC field
      replaced by `crc` computed over `c`'s type and data. */
  lemma FilledChunkPieces(b: seq<byte>, p: nat, k: nat, text: seq<byte>, c: seq<byte>, crc: u32)
    requires ChunkFits(b, p) && p + 8 <= k && k + |text| <= DataEnd(b, p)
    requires c == b[..k] + (text + Zeros(DataEnd(b, p) - k - |text|)) + b[DataEnd(b, p)..]
    requires crc == Checksum(ITxtName + c[p + 8..DataEnd(b, p)])
    ensures FilledChunk(b, p, k, text) == c[..DataEnd(b, p)] + BeBytes(crc) + c[DataEnd(b, p) + 4..]
  {
    var de := DataEnd(b, p);
    var field := text + Zeros(de - k - |text|);
    assert c[p + 8..de] == b[p + 8..k] + field;
    assert ITxtName + c[p + 8..de] == ITxtName + b[p + 8..k] + field;
    assert c[..de] == b[..k] + field;
    assert c[de + 4..] == b[de + 4..];
  }

  // ---------------------------------------------------------------------------
  // BuildPngITXtChunk and EmbedTextPng

  /** The data field BuildPngITXtChunk writes: the keyword and its NUL, compression
      flag 0, compression method 0, an empty language tag and an empty translated
      keyword (each just its NUL), then the text. */
  function ITXtData(keyword: seq<byte>, text: seq<byte>): seq<byte> {
    keyword + [0, 0, 0, 0, 0] + text
  }

  /** A whole chunk around `ITXtData`: big-endian length, type, data, and the CRC of
      type and data. */
  function ITXtChunk(keyword: seq<byte>, text: seq<byte>): (c: seq<byte>)
    requires |keyword| + 5 + |text| < 0x1_0000_0000
    ensures |c| == |keyword| + |text| + 17
  {
    var data := ITXtData(keyword, text);
    BeBytes(|data|) + ITxtName + data + BeBytes(Checksum(ITxtName + data))
  }

  /** BuildPngITXtChunk: the data goes to one stream, then length, type, data and
      CRC to another. The data is a .NET array, so it is at most MaxArrayLength
      long. */
  method BuildPngITXtChunk(keyword: seq<byte>, text: seq<byte>) returns (chunk: seq<byte>)
    requires |keyword| + 5 + |text| <= MaxArrayLength
    ensures chunk == ITXtChunk(keyword, text)
  {
    var ms: seq<byte> := [];
    ms := ms + keyword;
    ms := ms + [0];
    ms := ms + [0];
    ms := ms + [0];
    ms := ms + [0];
    ms := ms + [0];
    ms := ms + text;
    var data := ms;
    assert data == ITXtData(keyword, text);
    var outMs: seq<byte> := [];
    outMs := WriteBigEndianUInt32(outMs, |data|);
    outMs := outMs + ITxtName;
    outMs := outMs + data;
    var crc := Crc32(ITxtName + data);
    outMs := WriteBigEndianUInt32(outMs, crc);
    return outMs;
  }

  /** What EmbedTextPng returns: the input with a "stegotext" iTXt chunk inserted
      right before IEND, or the exception it throws. */
  function PngWithText(b: seq<byte>, text: seq<byte>): (r: Result<seq<byte>>)
    requires |text| <= MaxArrayLength - 14
    ensures r.Ok? ==> |r.value| == |b| + 26 + |text|
    ensures r.Fail? ==> r.error == InvalidPng || r.error == InvalidPngChunk || r.error == IendNotFound
  {
    if |b| < Signature then Fail(InvalidPng)
    else match FindIend(b, Signature)
      case Fail(e) => Fail(e)
      case Ok(p) => Ok(b[..p] + ITXtChunk(StegoKeyword, text) + b[p..])
  }

  /** EmbedTextPng: copy the signature and every chunk before IEND, then the new
      chunk, then IEND and whatever follows it. */
  method EmbedTextPng(png: seq<byte>, text: seq<byte>) returns (r: Result<seq<byte>>)
    requires |text| <= MaxArrayLength - 14
    ensures r == PngWithText(png, text)
  {
    if |png| < Signature {
      return Fail(InvalidPng);
    }
    var found, ms := CopyToIend(png);
    match found
    case Fail(e) => return Fail(e);
    case Ok(pos) =>
      ms := FinishAtIend(png, pos, ms, text);
      return Ok(ms);
  }

  /** The loop of EmbedTextPng: the signature, then chunk after chunk until IEND,
      each copied to the stream. */
  method CopyToIend(png: seq<byte>) returns (found: Result<nat>, ms: seq<byte>)
    requires Signature <= |png|
    ensures found == FindIend(png, Signature)
    ensures found.Ok? ==> ms == png[..found.value]
  {
    var pos: nat := Signature;
    ms := png[..Signature];
    while pos + 8 <= |png|
      invariant Signature <= pos <= |png| && ms == png[..pos]
      invariant FindIend(png, pos) == FindIend(png, Signature)
      decreases |png| - pos
    {
      var len := ReadBigEndianUInt32(png, pos);
      var chunkStart := pos;
      var dataStart := pos + 8;
      var dataEnd := dataStart + len;
      var crcStart := dataEnd;
      assert dataEnd == DataEnd(png, pos);
      if dataEnd + 4 > |png| {
        assert FindIend(png, pos) == Fail(InvalidPngChunk);
        return Fail(InvalidPngChunk), ms;
      }
      if ChunkType(png, pos) == IendType {
        assert FindIend(png, pos) == Ok(pos);
        return Ok(pos), ms;
      }
      assert FindIend(png, pos) == FindIend(png, crcStart + 4);
      PrefixGrows(png, pos, crcStart + 4);
      ms := ms + png[chunkStart..chunkStart + 8 + len + 4];
      pos := crcStart + 4;
    }
    assert FindIend(png, pos) == Fail(IendNotFound);
    return Fail(IendNotFound), ms;
  }

  /** The IEND branch of EmbedTextPng: the new chunk, then the IEND chunk, then
      the bytes after it. */
  method FinishAtIend(png: seq<byte>, pos: nat, ms: seq<byte>, text: seq<byte>) returns (out: seq<byte>)
    requires ChunkFits(png, pos) && ms == png[..pos] && |text| <= MaxArrayLength - 14
    ensures out == png[..pos] + ITXtChunk(StegoKeyword, text) + png[pos..]
  {
    var len := ReadBigEndianUInt32(png, pos);
    var chunkStart := pos;
    var crcStart := pos + 8 + len;
    var chunk := BuildPngITXtChunk(StegoKeyword, text);
    out := ms + chunk;
    out := out + png[chunkStart..chunkStart + 8 + len + 4];
    out := out + png[crcStart + 4..];
    Rejoin(png[..pos], chunk, png, pos, crcStart + 4);
  }

  lemma PrefixGrows(s: seq<byte>, i: nat, j: nat)
    requires i <= j <= |s|
    ensures s[..i] + s[i..j] == s[..j]
  {
  }

  /** Appending a split tail piece by piece gives the whole tail. */
  lemma Rejoin(pre: seq<byte>, mid: seq<byte>, s: seq<byte>, i: nat, j: nat)
    requires i <= j <= |s|
    ensures pre + mid + s[i..j] + s[j..] == pre + mid + s[i..]
  {
    assert s[i..j] + s[j..] == s[i..];
  }
}
