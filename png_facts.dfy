/** What the PNG operations promise: the in-place rewrite keeps the length and every
    byte outside the text field and CRC, leaves a valid CRC and reads back as the
    text; the insertion adds exactly one well-formed chunk before IEND, keeps the
    walk intact and reads back as the text. */
module PngFacts {
  import opened Bytes
  import opened Crc
  import opened Magic
  import opened Png

  // ---------------------------------------------------------------------------
  // One step of each walk

  /** Past a fitting chunk that is not IEND, the IEND walk goes on after its CRC. */
  lemma IendStep(c: seq<byte>, pos: nat)
    requires ChunkFits(c, pos) && ChunkType(c, pos) != IendType
    ensures FindIend(c, pos) == FindIend(c, DataEnd(c, pos) + 4)
  {
  }

  /** Past a fitting chunk that is neither iTXt nor IEND, the iTXt walk goes on
      after its CRC. */
  lemma ITXtStep(c: seq<byte>, pos: nat)
    requires ChunkFits(c, pos) && ChunkType(c, pos) != IendType && ChunkType(c, pos) != ITxtType
    ensures FindITXt(c, pos) == FindITXt(c, DataEnd(c, pos) + 4)
  {
  }

  // ---------------------------------------------------------------------------
  // Walks over buffers that share a prefix

  /** A chunk header reads the same at `p` in `b` and at `q` in `c` when `c` from `q`
      on is `b` from `p` on. */
  lemma HeaderShifted(b: seq<byte>, c: seq<byte>, p: nat, q: nat)
    requires p + 8 <= |b| && q <= |c| && c[q..] == b[p..]
    ensures q + 8 <= |c| && ChunkLength(c, q) == ChunkLength(b, p) && ChunkType(c, q) == ChunkType(b, p)
  {
    assert |c| - q == |b| - p;
    forall y | q <= y < q + 8
      ensures c[y] == b[y - q + p]
    {
      assert c[y] == c[q..][y - q] && b[y - q + p] == b[p..][y - q];
    }
  }

  /** The first-iTXt walk depends only on the headers it passes: a buffer of the
      same length with the same bytes up to the end of the found header finds the
      same chunk. */
  lemma {:induction false} FindITXtPrefix(b: seq<byte>, c: seq<byte>, pos: nat, p: nat)
    requires FindITXt(b, pos) == Some(p) && |c| == |b| && SameUpTo(b, c, p + 8)
    ensures FindITXt(c, pos) == Some(p)
    decreases |b| - pos
  {
    assert DataEnd(c, pos) == DataEnd(b, pos) && ChunkType(c, pos) == ChunkType(b, pos);
    if pos != p {
      ITXtStep(b, pos);
      ITXtStep(c, pos);
      FindITXtPrefix(b, c, DataEnd(b, pos) + 4, p);
    }
  }

  /** A buffer that shares the bytes before the IEND chunk at `p` walks the same
      chunks up to `p`; if none of them was an iTXt chunk in `b`, none is in `c`. */
  lemma {:induction false} WalkPrefix(b: seq<byte>, c: seq<byte>, pos: nat, p: nat)
    requires FindIend(b, pos) == Ok(p) && SameUpTo(b, c, p)
    ensures FindIend(c, pos) == FindIend(c, p)
    ensures FindITXt(b, pos) == None ==> FindITXt(c, pos) == FindITXt(c, p)
    decreases |b| - pos
  {
    if pos != p {
      IendStep(b, pos);
      assert DataEnd(c, pos) == DataEnd(b, pos) && ChunkType(c, pos) == ChunkType(b, pos);
      IendStep(c, pos);
      WalkPrefix(b, c, DataEnd(b, pos) + 4, p);
      if FindITXt(b, pos) == None {
        ITXtStep(b, pos);
        ITXtStep(c, pos);
      }
    }
  }

  // ---------------------------------------------------------------------------
  // Field scans

  /** The field scan reads the same in both buffers when it stops inside their
      shared prefix. */
  lemma {:induction false} SkipFieldAgrees(b: seq<byte>, c: seq<byte>, i: nat, end: nat, m: nat)
    requires end <= |b| && end <= |c| && SameUpTo(b, c, m)
    requires SkipField(b, i, end) < m
    ensures SkipField(c, i, end) == SkipField(b, i, end)
    decreases end - i
  {
    if i < end && b[i] != 0 {
      SkipFieldAgrees(b, c, i + 1, end, m);
    }
  }

  /** The field scan stops exactly at the first NUL. */
  lemma {:induction false} SkipFieldTo(b: seq<byte>, i: nat, end: nat, j: nat)
    requires i <= j < end <= |b| && b[j] == 0
    requires forall x :: i <= x < j ==> b[x] != 0
    ensures SkipField(b, i, end) == j
    decreases j - i
  {
    if i < j {
      SkipFieldTo(b, i + 1, end, j);
    }
  }

  // ---------------------------------------------------------------------------
  // Slices

  /** The pieces of a four-part concatenation, read back by position. */
  lemma Splice(pre: seq<byte>, mid: seq<byte>, crc: seq<byte>, post: seq<byte>)
    ensures var o := pre + mid + crc + post;
      var m, n := |pre|, |pre| + |mid|;
      && |o| == |pre| + |mid| + |crc| + |post|
      && o[..m] == pre && o[m..n] == mid && o[n..n + |crc|] == crc && o[n + |crc|..] == post
  {
    var o := pre + mid + crc + post;
    assert o == pre + (mid + (crc + post));
  }

  /** A slice is the concatenation of its two halves at any point in between. */
  lemma SliceSplit(s: seq<byte>, i: nat, j: nat, l: nat)
    requires i <= j <= l <= |s|
    ensures s[i..l] == s[i..j] + s[j..l]
  {
  }

  /** Two buffers that share a prefix share every slice of it. */
  lemma PrefixSlice(s: seq<byte>, t: seq<byte>, m: nat, i: nat, j: nat)
    requires i <= j <= m && SameUpTo(s, t, m)
    ensures s[i..j] == t[i..j]
  {
  }

  /** Whatever shares the first four bytes of a buffer and is no shorter is taken
      for a PNG whenever the buffer is. */
  lemma PngOfPrefix(b: seq<byte>, o: seq<byte>)
    requires SameUpTo(b, o, 4) && |o| >= |b|
    ensures IsPng(b) ==> IsPng(o)
  {
  }

  // ---------------------------------------------------------------------------
  // TryEmbedTextPngInPlace

  /** FilledChunk read back by position: the bytes before the text field, the
      field, the CRC and the bytes after the chunk. */
  lemma FilledPieces(b: seq<byte>, p: nat, k: nat, text: seq<byte>)
    requires ChunkFits(b, p) && p + 8 <= k && k + |text| <= DataEnd(b, p)
    ensures var o := FilledChunk(b, p, k, text);
      var de := DataEnd(b, p);
      var field := text + Zeros(de - k - |text|);
      && |o| == |b|
      && o[..k] == b[..k]
      && o[k..de] == field
      && o[de..de + 4] == BeBytes(Checksum(ITxtName + b[p + 8..k] + field))
      && o[de + 4..] == b[de + 4..]
  {
    var de := DataEnd(b, p);
    var field := text + Zeros(de - k - |text|);
    var crc := BeBytes(Checksum(ITxtName + b[p + 8..k] + field));
    Splice(b[..k], field, crc, b[de + 4..]);
  }

  /** A buffer of the same length that keeps the bytes before `k`, past the header
      of the iTXt chunk at `p`, keeps that header. */
  lemma HeaderKept(b: seq<byte>, o: seq<byte>, p: nat, k: nat)
    requires ChunkFits(b, p) && ChunkType(b, p) == ITxtType && p + 8 <= k
    requires |o| == |b| && SameUpTo(b, o, k)
    ensures ChunkFits(o, p) && DataEnd(o, p) == DataEnd(b, p) && ChunkType(o, p) == ITxtType
    ensures o[p + 4..p + 8] == ITxtName
  {
    assert ChunkLength(o, p) == ChunkLength(b, p);
    assert ChunkType(o, p) == ITxtType;
    BeBytesOfRead(o, p + 4);
    TypeNames();
  }

  /** The chunk at `p` after FilledChunk: same length, same bytes before the text
      field and after the chunk, the text and its padding in the field, the same
      header, and a CRC that matches its type and data. */
  lemma FilledChunkLayout(b: seq<byte>, p: nat, k: nat, text: seq<byte>)
    requires ChunkFits(b, p) && ChunkType(b, p) == ITxtType
    requires p + 8 <= k && k + |text| <= DataEnd(b, p)
    ensures var o := FilledChunk(b, p, k, text);
      var de := DataEnd(b, p);
      && |o| == |b|
      && o[..k] == b[..k]
      && o[k..de] == text + Zeros(de - k - |text|)
      && o[de + 4..] == b[de + 4..]
      && ChunkFits(o, p) && DataEnd(o, p) == de && ChunkType(o, p) == ITxtType
      && ChunkCrcOk(o, p)
  {
    var de := DataEnd(b, p);
    var field := text + Zeros(de - k - |text|);
    var o := FilledChunk(b, p, k, text);
    FilledPieces(b, p, k, text);
    SameUpToOfSlices(b, o, k);
    HeaderKept(b, o, p, k);
    CrcInput(b, o, p, k, de, field);
  }

  /** The CRC input of the rewritten chunk: its type, the bytes kept before the
      field, and the field. */
  lemma CrcInput(b: seq<byte>, o: seq<byte>, p: nat, k: nat, de: nat, field: seq<byte>)
    requires p + 8 <= k <= de <= |o| && SameUpTo(b, o, k) && o[p + 4..p + 8] == ITxtName
    requires o[k..de] == field
    ensures o[p + 4..de] == ITxtName + b[p + 8..k] + field
  {
    PrefixSlice(o, b, k, p + 8, k);
    SliceSplit(o, p + 8, k, de);
    SliceSplit(o, p + 4, p + 8, de);
  }

  /** On success the output has the input's length, keeps everything before the
      text field and after the chunk, holds the text and zero padding up to the end
      of the data, carries a CRC that matches the chunk's new type and data, and is
      still taken for a PNG. */
  lemma InPlaceLayout(b: seq<byte>, text: seq<byte>)
    requires PngInPlace(b, text).Some?
    ensures var o := PngInPlace(b, text).value;
      var p := FindITXt(b, Signature).value;
      var k := InPlaceTextStart(b, p).value;
      var de := DataEnd(b, p);
      && |o| == |b|
      && o[..k] == b[..k]
      && o[k..de] == text + Zeros(de - k - |text|)
      && o[de + 4..] == b[de + 4..]
      && ChunkFits(o, p) && DataEnd(o, p) == de && ChunkType(o, p) == ITxtType
      && ChunkCrcOk(o, p)
      && (IsPng(b) ==> IsPng(o))
  {
    var p := FindITXt(b, Signature).value;
    var k := InPlaceTextStart(b, p).value;
    assert PngInPlace(b, text) == Some(FilledChunk(b, p, k, text));
    FilledChunkLayout(b, p, k, text);
    var o := FilledChunk(b, p, k, text);
    assert IsPng(b) ==> IsPng(o) by {
      SameUpToOfSlices(b, o, k);
      PngOfPrefix(b, o);
    }
  }

  /** Two buffers that agree on the chunk header at `p` and on every byte before
      `k` find the same text field there when the first one finds it at `k`. */
  lemma TextStartAgrees(b: seq<byte>, o: seq<byte>, p: nat, k: nat)
    requires ChunkFits(b, p) && ChunkFits(o, p) && DataEnd(o, p) == DataEnd(b, p)
    requires InPlaceTextStart(b, p) == Some(k) && SameUpTo(b, o, k)
    ensures KeywordEnd(o, p) == KeywordEnd(b, p) && InPlaceTextStart(o, p) == Some(k)
  {
    var de := DataEnd(b, p);
    var i := KeywordEnd(b, p);
    SkipFieldAgrees(b, o, p + 8, de, k);
    assert KeywordEnd(o, p) == i;
    var j := SkipField(b, i + 2, de) + 1;
    SkipFieldAgrees(b, o, i + 2, de, k);
    SkipFieldAgrees(b, o, j, de, k);
    assert TextStart(o, i + 2, de) == k;
  }

  /** Where the in-place path finds the text field, the reader finds the text: the
      rest of the data from there. */
  lemma TextOfStart(o: seq<byte>, p: nat, k: nat)
    requires ChunkFits(o, p) && InPlaceTextStart(o, p) == Some(k) && k <= DataEnd(o, p)
    ensures ITXtText(o, p) == Some(o[k..DataEnd(o, p)])
  {
    var de := DataEnd(o, p);
    var i := KeywordEnd(o, p);
    assert i + 2 < de && TextStart(o, i + 2, de) == k;
    if k == de {
      assert o[k..de] == [];
    }
  }

  /** The text field of a filled chunk reads back as the text and its padding. */
  lemma FilledChunkText(b: seq<byte>, p: nat, k: nat, text: seq<byte>)
    requires FindITXt(b, Signature) == Some(p) && InPlaceTextStart(b, p) == Some(k)
    requires k + |text| <= DataEnd(b, p)
    ensures PngText(FilledChunk(b, p, k, text)) == Some(text + Zeros(DataEnd(b, p) - k - |text|))
  {
    var o := FilledChunk(b, p, k, text);
    FilledChunkLayout(b, p, k, text);
    SameUpToOfSlices(b, o, k);
    FindITXtPrefix(b, o, Signature, p);
    TextStartAgrees(b, o, p, k);
    TextOfStart(o, p, k);
  }

  /** What the in-place rewrite wrote is what ExtractTextFromPng reads back: the
      text followed by its zero padding. */
  lemma InPlaceRoundTrip(b: seq<byte>, text: seq<byte>)
    requires PngInPlace(b, text).Some?
    ensures var p := FindITXt(b, Signature).value;
      var k := InPlaceTextStart(b, p).value;
      PngText(PngInPlace(b, text).value) == Some(text + Zeros(DataEnd(b, p) - k - |text|))
  {
    var p := FindITXt(b, Signature).value;
    var k := InPlaceTextStart(b, p).value;
    assert PngInPlace(b, text) == Some(FilledChunk(b, p, k, text));
    FilledChunkText(b, p, k, text);
  }

  // ---------------------------------------------------------------------------
  // BuildPngITXtChunk and EmbedTextPng

  /** An iTXt chunk laid out at `p` as length, type, data and CRC bytes is taken
      whole by the walk. */
  lemma ChunkAt(c: seq<byte>, p: nat, data: seq<byte>, crc: seq<byte>)
    requires |data| < 0x1_0000_0000 && p + 12 + |data| <= |c|
    requires c[p..p + 4] == BeBytes(|data|) && c[p + 4..p + 8] == ITxtName
    requires c[p + 8..p + 8 + |data|] == data && c[p + 8 + |data|..p + 12 + |data|] == crc
    ensures ChunkFits(c, p) && ChunkLength(c, p) == |data| && DataEnd(c, p) == p + 8 + |data|
    ensures ChunkType(c, p) == ITxtType && c[p + 8..DataEnd(c, p)] == data
    ensures c[p + 4..DataEnd(c, p)] == ITxtName + data && c[DataEnd(c, p)..DataEnd(c, p) + 4] == crc
  {
    ReadStored(c, p, |data|);
    TypeNames();
    ReadStored(c, p + 4, ITxtType);
    SliceSplit(c, p + 4, p + 8, p + 8 + |data|);
  }

  /** The pieces of `pre + (len + ty + data + crc) + post`, read back by position. */
  lemma ChunkPieces(pre: seq<byte>, len: seq<byte>, ty: seq<byte>, data: seq<byte>, crc: seq<byte>, post: seq<byte>)
    requires |len| == 4 && |ty| == 4 && |crc| == 4
    ensures var c := pre + (len + ty + data + crc) + post;
      var p, n := |pre|, |data|;
      && |c| == p + 12 + n + |post|
      && c[..p] == pre && c[p..p + 4] == len && c[p + 4..p + 8] == ty
      && c[p + 8..p + 8 + n] == data && c[p + 8 + n..p + 12 + n] == crc
      && c[p + 12 + n..] == post
  {
    var c := pre + (len + ty + data + crc) + post;
    assert c == pre + len + ty + data + crc + post;
  }

  /** A chunk built by BuildPngITXtChunk, wherever it sits, is taken whole by the
      walk: its length field counts exactly its data, its type is iTXt, and its CRC
      matches. */
  lemma ITXtChunkFields(pre: seq<byte>, keyword: seq<byte>, text: seq<byte>, post: seq<byte>)
    requires |keyword| + 5 + |text| <= MaxArrayLength
    ensures var c := pre + ITXtChunk(keyword, text) + post;
      var p := |pre|;
      && ChunkFits(c, p)
      && ChunkLength(c, p) == |keyword| + 5 + |text|
      && ChunkType(c, p) == ITxtType
      && DataEnd(c, p) + 4 == p + |ITXtChunk(keyword, text)|
      && c[p + 8..DataEnd(c, p)] == ITXtData(keyword, text)
      && ChunkCrcOk(c, p)
  {
    var data := ITXtData(keyword, text);
    var crc := BeBytes(Checksum(ITxtName + data));
    ChunkPieces(pre, BeBytes(|data|), ITxtName, data, crc, post);
    ChunkAt(pre + ITXtChunk(keyword, text) + post, |pre|, data, crc);
  }

  /** The header of a chunk built by BuildPngITXtChunk, wherever it sits. */
  lemma ITXtChunkHeader(pre: seq<byte>, keyword: seq<byte>, text: seq<byte>, post: seq<byte>)
    requires |keyword| + 5 + |text| <= MaxArrayLength
    ensures var c := pre + ITXtChunk(keyword, text) + post;
      var p := |pre|;
      && ChunkFits(c, p)
      && ChunkType(c, p) == ITxtType
      && DataEnd(c, p) + 4 == p + |ITXtChunk(keyword, text)|
  {
    ITXtChunkFields(pre, keyword, text, post);
  }

  /** The text of an iTXt chunk whose data is `ITXtData(keyword, text)` reads back
      whole, provided the keyword holds no NUL. */
  lemma ITXtDataText(c: seq<byte>, p: nat, keyword: seq<byte>, text: seq<byte>)
    requires ChunkFits(c, p) && c[p + 8..DataEnd(c, p)] == ITXtData(keyword, text)
    requires forall x :: 0 <= x < |keyword| ==> keyword[x] != 0
    ensures ITXtText(c, p) == Some(text)
  {
    var ds, de := p + 8, DataEnd(c, p);
    var kl := |keyword|;
    DataBytes(c, ds, de, keyword, text);
    SkipFieldTo(c, ds, de, ds + kl);
    assert KeywordEnd(c, p) == ds + kl + 1;
    SkipFieldTo(c, ds + kl + 3, de, ds + kl + 3);
    SkipFieldTo(c, ds + kl + 4, de, ds + kl + 4);
    assert TextStart(c, ds + kl + 3, de) == ds + kl + 5;
  }

  /** The bytes of `ITXtData(keyword, text)` stored at `ds`, one field at a time. */
  lemma DataBytes(c: seq<byte>, ds: nat, de: nat, keyword: seq<byte>, text: seq<byte>)
    requires ds <= de <= |c| && c[ds..de] == ITXtData(keyword, text)
    requires forall x :: 0 <= x < |keyword| ==> keyword[x] != 0
    ensures var kl := |keyword|;
      && de == ds + kl + 5 + |text|
      && (forall x :: ds <= x < ds + kl ==> c[x] != 0)
      && c[ds + kl] == 0 && c[ds + kl + 3] == 0 && c[ds + kl + 4] == 0
      && c[ds + kl + 5..de] == text
  {
    var kl := |keyword|;
    var d := c[ds..de];
    assert d == keyword + [0, 0, 0, 0, 0] + text;
    forall x | ds <= x < ds + kl
      ensures c[x] != 0
    {
      assert c[x] == d[x - ds] == keyword[x - ds];
    }
    assert c[ds + kl] == d[kl];
    assert c[ds + kl + 3] == d[kl + 3];
    assert c[ds + kl + 4] == d[kl + 4];
    assert d[kl + 5..] == text;
  }

  /** "stegotext" holds no NUL. */
  lemma StegoKeywordHasNoNul()
    ensures forall x :: 0 <= x < |StegoKeyword| ==> StegoKeyword[x] != 0
  {
  }

  /** A buffer made by inserting the chunk BuildPngITXtChunk builds at `p`: the bytes
      before `p` are kept, an iTXt chunk of 26 + |text| bytes sits at `p`, and the
      rest of the original follows it. */
  lemma InsertedFacts(b: seq<byte>, p: nat, text: seq<byte>, o: seq<byte>)
    requires |text| <= MaxArrayLength - 14 && p <= |b|
    requires o == b[..p] + ITXtChunk(StegoKeyword, text) + b[p..]
    ensures |o| == |b| + 26 + |text| && SameUpTo(b, o, p)
    ensures ChunkFits(o, p) && ChunkType(o, p) == ITxtType
    ensures DataEnd(o, p) + 4 == p + 26 + |text| && o[p + 26 + |text|..] == b[p..]
  {
    var chunk := ITXtChunk(StegoKeyword, text);
    ITXtChunkHeader(b[..p], StegoKeyword, text, b[p..]);
    Splice(b[..p], chunk, [], b[p..]);
    assert o == b[..p] + chunk + [] + b[p..];
    SameUpToOfSlices(b, o, p);
  }

  /** The inserted chunk carries a valid CRC, and its data is the keyword, the flags
      and the text. */
  lemma InsertedData(b: seq<byte>, p: nat, text: seq<byte>, o: seq<byte>)
    requires |text| <= MaxArrayLength - 14 && p <= |b|
    requires o == b[..p] + ITXtChunk(StegoKeyword, text) + b[p..]
    ensures ChunkFits(o, p) && ChunkCrcOk(o, p)
    ensures o[p + 8..DataEnd(o, p)] == ITXtData(StegoKeyword, text)
  {
    ITXtChunkFields(b[..p], StegoKeyword, text, b[p..]);
  }

  /** When the walk reaches IEND at `p`, EmbedTextPng succeeds and inserts the chunk
      there; the output is still taken for a PNG. */
  lemma EmbedLayout(b: seq<byte>, p: nat, text: seq<byte>)
    requires |text| <= MaxArrayLength - 14 && FindIend(b, Signature) == Ok(p)
    ensures Signature <= p <= |b|
    ensures PngWithText(b, text) == Ok(b[..p] + ITXtChunk(StegoKeyword, text) + b[p..])
    ensures IsPng(b) ==> IsPng(PngWithText(b, text).value)
  {
    var o := b[..p] + ITXtChunk(StegoKeyword, text) + b[p..];
    InsertedFacts(b, p, text, o);
    PngOfPrefix(b, o);
  }

  /** The walk of EmbedTextPng from the signature reaches IEND at `q`. */
  predicate IendAt(b: seq<byte>, q: nat) {
    FindIend(b, Signature) == Ok(q)
  }

  /** A buffer that keeps the bytes before the IEND chunk at `p`, holds an iTXt
      chunk at `p` that ends at `q`, and continues from `q` with the rest of the
      original still walks to IEND, now at `q`. */
  lemma InsertedWalk(b: seq<byte>, o: seq<byte>, p: nat, q: nat)
    requires FindIend(b, Signature) == Ok(p) && SameUpTo(b, o, p)
    requires ChunkFits(o, p) && ChunkType(o, p) == ITxtType && DataEnd(o, p) + 4 == q
    requires q <= |o| && o[q..] == b[p..]
    ensures IendAt(o, q)
  {
    WalkPrefix(b, o, Signature, p);
    HeaderShifted(b, o, p, q);
    TypeNames();
    IendStep(o, p);
    assert DataEnd(o, q) + 4 <= |o| by {
      assert DataEnd(o, q) - q == DataEnd(b, p) - p;
    }
    assert FindIend(o, q) == Ok(q);
  }

  /** After EmbedTextPng the walk still reaches IEND, right after the new chunk. */
  lemma EmbedWalk(b: seq<byte>, text: seq<byte>, o: seq<byte>)
    requires |text| <= MaxArrayLength - 14 && PngWithText(b, text) == Ok(o)
    ensures FindIend(b, Signature).Ok?
    ensures IendAt(o, FindIend(b, Signature).value + 26 + |text|)
  {
    var p := FindIend(b, Signature).value;
    InsertedIend(b, p, text, o);
  }

  /** The walk over a buffer with the new chunk spliced in before IEND reaches IEND
      right after it. */
  lemma InsertedIend(b: seq<byte>, p: nat, text: seq<byte>, o: seq<byte>)
    requires |text| <= MaxArrayLength - 14 && FindIend(b, Signature) == Ok(p)
    requires o == b[..p] + ITXtChunk(StegoKeyword, text) + b[p..]
    ensures IendAt(o, p + 26 + |text|)
  {
    assert Signature <= p <= |b|;
    InsertedFacts(b, p, text, o);
    InsertedWalk(b, o, p, p + 26 + |text|);
  }

  /** ExtractTextFromPng reads back what EmbedTextPng inserted, when the input had no
      iTXt chunk before IEND (otherwise that earlier chunk is the one read). */
  lemma EmbedRoundTrip(b: seq<byte>, text: seq<byte>, o: seq<byte>)
    requires |text| <= MaxArrayLength - 14 && PngWithText(b, text) == Ok(o)
    requires FindITXt(b, Signature) == None
    ensures PngText(o) == Some(text)
  {
    var p := FindIend(b, Signature).value;
    assert Signature <= p;
    InsertedFacts(b, p, text, o);
    InsertedData(b, p, text, o);
    StegoKeywordHasNoNul();
    ITXtDataText(o, p, StegoKeyword, text);
    WalkPrefix(b, o, Signature, p);
    assert FindITXt(o, p) == Some(p);
  }

  /** EmbedTextPng fails exactly on a buffer shorter than the signature or on a walk
      that does not reach IEND, and says which. */
  lemma EmbedErrors(b: seq<byte>, text: seq<byte>)
    requires |text| <= MaxArrayLength - 14
    ensures PngWithText(b, text) == Fail(InvalidPng) <==> |b| < Signature
    ensures |b| >= Signature ==>
      (PngWithText(b, text).Fail? <==> FindIend(b, Signature).Fail?)
  {
  }
}
