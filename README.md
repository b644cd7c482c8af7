# Steganography helpers: the PNG, JPEG and BMP byte codecs

This project models, in Dafny, the byte-level core of a small Windows Forms steganography
tool. That core is the static class `ImageHelpers` in `Program.cs`. It hides a text in
three places:

- a PNG iTXt text chunk (section 11.3.4.5 of the PNG specification, W3C Second Edition);
  the chunk layout is that of section 5.3 and the CRC that of section 5.5;
- a JPEG COM comment segment (section B.2.4.5 of ITU-T T.81);
- the low bits of a BMP file's pixel bytes.

For PNG and JPEG there are three operations each:

- an in-place rewrite of the first existing chunk or segment, which keeps the file length;
- an insertion of a new one;
- an extraction.

BMP has a length byte and one message bit per byte after it, written most significant
bit first. Supporting these are:

- the table-driven CRC-32;
- the big-endian read and write helpers;
- the magic-byte checks.

Text is modelled as its encoded bytes, `seq<byte>`. Buffers are byte sequences.

Where the C# code mutates, the model is imperative. The in-place rewrites clone the input
into an `array<byte>` and mutate it with models of `Array.Clear`, `Array.Copy` and
`WriteUInt32ToBuffer`. The BMP embedding flips low bits of a cloned array in nested
loops. `Crc32` fills a table array. The insertions append to a builder, which is a
`seq<byte>` standing in for the `MemoryStream`.

Every such method is proved equal to a specification function on sequences:

- `PngInPlace`, `PngWithText` and `PngText`;
- `JpegInPlace`, `JpegWithText` and `JpegText`;
- `BmpWithText` and `BmpText`;
- `Checksum`.

The properties are lemmas about those functions:

- the layout of every output;
- what is kept;
- the CRC of a rewritten or built chunk;
- that the walks find the same chunk or segment afterwards;
- the round trips through the extraction;
- the error cases.

A C# exception becomes `Fail(e)` of a `Result`, and a `null` string becomes `None`.

Modules:

- `Bytes`: the byte and 32-bit types, the error codes, the big-endian helpers and the array primitives.
- `Bits`: exclusive or on naturals.
- `Crc`: CRC-32 and a table-free reference definition.
- `Magic`: `IsPng` and `IsJpeg`.
- `Png` and `PngFacts`: the PNG operations and their properties.
- `Jpeg` and `JpegFacts`: the JPEG operations and their properties.
- `Bmp` and `BmpFacts`: the BMP operations and their properties.

## Model

| member | source | states |
|---|---|---|
| Bytes.BeBytes | Program.cs:553-564 | the big-endian form of a 32-bit value is four bytes, top byte first; ReadBeBytes and BeBytesOfRead tie it to ReadBigEndianUInt32 |
| Bytes.ReadBigEndianUInt32 | Program.cs:546-549 | the first byte read is the value's top byte and the last its low byte |
| Bytes.ReadBeBytes | Program.cs:546-557 | ReadBigEndianUInt32 reads back any 32-bit value written as four big-endian bytes |
| Bytes.BeBytesOfRead | Program.cs:546-549 | writing back the value ReadBigEndianUInt32 read reproduces the four bytes it read |
| Bytes.ReadStored | Program.cs:546-549 | four bytes equal to the big-endian form of `v`, anywhere in a buffer, read as `v` |
| Bytes.BeBytesInjective | Program.cs:551-557 | distinct values are written as distinct byte quadruples |
| Bytes.WriteUInt32ToBuffer | Program.cs:551-557 | the four bytes at the offset become the big-endian form of `v`; every other byte is unchanged |
| Bytes.WriteBigEndianUInt32 | Program.cs:559-565 | the stream grows by exactly the big-endian form of `v`, which reads back as `v` |
| Bytes.ArrayClear | Program.cs:328 | the `count` bytes from `start` become zero; every other byte is unchanged |
| Bytes.ArrayCopy | Program.cs:329 | the copied bytes are written from `start`; every other byte is unchanged |
| Bytes.OverwriteField | Program.cs:375-376 | clear-then-copy leaves the text followed by zero padding in the field and changes nothing outside it |
| Bytes.CloneBytes | Program.cs:299 | a fresh array holding the input bytes |
| Bits.Xor | Program.cs:579-583 | plain definition: C#'s `^` on unsigned values, bit by bit from the lowest; XorZero, XorSelf, XorComm, XorAssoc, XorBound and XorByte state its laws |
| Crc.Xor32 | Program.cs:579-583 | plain definition: `^` on 32-bit values, staying below 2^32 by XorBound32 |
| Crc.Round | Program.cs:579 | plain definition: one shift-and-fold round `(c & 1) != 0 ? 0xEDB88320 ^ (c >> 1) : c >> 1`; RoundLinear states its property |
| Crc.Rounds | Program.cs:576-581 | plain definition: `n` rounds in a row; RoundsLinear states its property |
| Crc.TableEntry | Program.cs:576-581 | plain definition: table entry `i` is eight rounds from `i`; Crc.Crc32 proves its table loop fills exactly these |
| Crc.Update | Program.cs:583 | plain definition: the table-driven step `table[(crc ^ b) & 0xFF] ^ (crc >> 8)`; UpdateIsBitwise states its property |
| Crc.Fold | Program.cs:582-583 | plain definition: the register after feeding the data to Update; FoldIsBitwise states its property |
| Crc.Crc32 | Program.cs:568-585 | the table loop leaves entry `i` equal to eight shift-and-fold rounds of `i`; the result is the all-ones-preset, all-ones-complemented fold of `table[(crc ^ b) & 0xFF] ^ (crc >> 8)` over the data |
| Crc.RoundLinear | Program.cs:579 | one table round distributes over exclusive or |
| Crc.RoundsLinear | Program.cs:579 | any number of table rounds distributes over exclusive or |
| Crc.UpdateIsBitwise | Program.cs:583 | the table-driven step equals the bitwise step: XOR the byte into the register, then eight rounds |
| Crc.FoldIsBitwise | Program.cs:583 | the table-driven fold equals the bit-at-a-time fold from any starting register |
| Crc.BitwiseUpdate | Program.cs:579-583 | plain definition of the reference step: XOR the byte into the register, then eight rounds; UpdateIsBitwise ties the table step to it |
| Crc.BitwiseFold | Program.cs:582-583 | plain definition of the reference fold over the data; FoldIsBitwise ties the table fold to it |
| Crc.Checksum | Program.cs:568-585 | the table-driven checksum equals the bit-at-a-time CRC-32 of section 5.5 of the PNG specification |
| Crc.BitwiseChecksum | Program.cs:568-585 | the reference CRC-32 of the empty input is zero: the final complement undoes the all-ones preset |
| Magic.IsPng | Program.cs:268 | a buffer passing the check is longer than the eight-byte signature and starts with its first four bytes |
| Magic.IsJpeg | Program.cs:269 | a buffer passing the check fails the PNG check: no buffer is both |
| Png.ChunkLength | Program.cs:303 | plain definition: the big-endian length field at the chunk start |
| Png.ChunkType | Program.cs:304 | plain definition: the four type bytes read as one big-endian value; TypeNames ties it to the ASCII names |
| Png.DataEnd | Program.cs:305-306 | plain definition: the data start plus the length |
| Png.ChunkFits | Program.cs:301-307 | plain definition: the header fits and the data end plus the CRC lies inside the buffer (the same two tests guard the insertion walk at lines 412 and 420) |
| Png.TypeNames | Program.cs:309-341 | the big-endian values compared for "iTXt" and "IEND" are those of their ASCII bytes and differ |
| Png.FindITXt | Program.cs:301-343 | a chunk the walk reports lies at or after the start, fits in the buffer and has type iTXt |
| Png.FindIend | Program.cs:412-437 | a position the walk reports holds a fitting IEND chunk; a failure is a truncated chunk or a missing IEND |
| Png.SkipField | Program.cs:313 | the scan never moves backward, stays within the data end when it starts before it, and does not move when it starts at or past it |
| Png.SkipFieldStops | Program.cs:313 | the field scan stops at the first NUL before the data end, or at the data end |
| Png.TextStart | Program.cs:319-322 | the text start lies past the flags and at most two bytes past the data end |
| Png.KeywordEnd | Program.cs:313-314 | the index after the keyword's NUL lies inside the data, or one byte past its end |
| Png.ITXtText | Program.cs:504-515 | a text read from a chunk is the tail of its data, ending at the data end; a non-empty one leaves at least five bytes of data before it |
| Png.PngText | Program.cs:494-520 | a text is returned only when the walk finds an iTXt chunk, and is the tail of that chunk's data |
| Png.ExtractTextFromPng | Program.cs:494-520 | the result is the text of the first iTXt chunk before IEND, by the `i + 2 >= dataEnd` rule |
| Png.WalkToITXt | Program.cs:497-518 | the loop finds exactly the chunk the recursive walk finds |
| Png.ReadITXtText | Program.cs:504-515 | reads the chunk's text: none when the keyword leaves at most two bytes, empty when the fields use up the data |
| Png.SkipNonZero | Program.cs:313 | the scanning loop stops where the recursive field scan does |
| Png.InPlaceTextStart | Program.cs:311-322 | the in-place text start, by the `i + 2 > dataEnd` rule, lies past the flags and at most two bytes past the data end |
| Png.FilledChunk | Program.cs:327-335 | filling the text field keeps the buffer length |
| Png.ITXtInPlace | Program.cs:309-339 | the iTXt chunk is rewritten exactly when the text start exists and the text fits before the data end; a rewrite keeps the buffer length |
| Png.PngInPlace | Program.cs:299-344 | a rewrite happens only when the walk finds an iTXt chunk, and keeps the buffer length |
| Png.TryEmbedTextPngInPlace | Program.cs:299-344 | returns true exactly when the first iTXt chunk's text field can hold the text; on false the output is the input |
| Png.RewriteITXt | Program.cs:309-339 | the array is rewritten exactly when the text fits, and is left as it was otherwise |
| Png.FillTextField | Program.cs:327-335 | clear, copy, then the CRC of type and data written at the data end |
| Png.FilledChunkPieces | Program.cs:327-335 | the three array writes together give the filled chunk with its recomputed CRC |
| Png.ITXtData | Program.cs:450-460 | plain definition: keyword, five NUL bytes (its terminator, flag 0, method 0, empty language tag, empty translated keyword), text; DataBytes and ITXtDataText state its layout |
| Png.ITXtChunk | Program.cs:440-470 | a built chunk is 17 bytes longer than keyword and text together |
| Png.BuildPngITXtChunk | Program.cs:440-470 | the stream holds length, "iTXt", `keyword 00 00 00 00 00 text` and the CRC of type and data |
| Png.PngWithText | Program.cs:398-438 | the output is 26 + \|text\| bytes longer than the input; the only failures are "Invalid PNG", "Invalid PNG chunk" and "IEND not found" |
| Png.EmbedTextPng | Program.cs:398-438 | the result, or the exception thrown, is that of inserting the chunk before IEND |
| Png.CopyToIend | Program.cs:412-435 | the copy loop stops at the walk's IEND having copied exactly the bytes before it, or fails as the walk does |
| Png.FinishAtIend | Program.cs:422-430 | at IEND the builder holds the prefix, the new chunk, then IEND and the rest |
| PngFacts.IendStep | Program.cs:433-434 | past a fitting chunk that is not IEND the walk continues after its CRC |
| PngFacts.ITXtStep | Program.cs:341-342 | past a fitting chunk that is neither iTXt nor IEND the walk continues after its CRC |
| PngFacts.FindITXtPrefix | Program.cs:301-309 | the walk depends only on the headers it passes, so a buffer sharing them finds the same iTXt chunk |
| PngFacts.WalkPrefix | Program.cs:412-435 | a buffer sharing the bytes before IEND walks the same chunks up to there, with no iTXt among them if the original had none |
| PngFacts.SkipFieldAgrees | Program.cs:313 | a field scan that stops inside a shared prefix stops at the same place in both buffers |
| PngFacts.SkipFieldTo | Program.cs:313 | the field scan stops exactly at the first NUL |
| PngFacts.FilledPieces | Program.cs:327-335 | the filled chunk keeps every byte before the text field and after the chunk, and holds the field and its CRC |
| PngFacts.HeaderKept | Program.cs:303-307 | a same-length buffer keeping the bytes before the text field keeps the chunk header |
| PngFacts.FilledChunkLayout | Program.cs:322-336 | the rewritten chunk keeps its length and type, holds the text and zero padding, has a CRC matching its type and new data, and nothing else changes |
| PngFacts.CrcInput | Program.cs:331-334 | the CRC input is "iTXt", the data bytes kept before the field, then the field |
| PngFacts.InPlaceLayout | Program.cs:299-344 | on true the output has the input's length; `[textStart, dataEnd)` holds the text and zero padding; the CRC at `dataEnd` is that of "iTXt" and the new data; every other byte is unchanged; a PNG stays a PNG |
| PngFacts.TextStartAgrees | Program.cs:311-322 | the rewrite leaves the text field where it was found |
| PngFacts.TextOfStart | Program.cs:506-514 | where the rewrite finds the text field, the extraction reads the rest of the data from there |
| PngFacts.FilledChunkText | Program.cs:322-336 | a filled chunk's text reads back as the text and its padding |
| PngFacts.InPlaceRoundTrip | Program.cs:322-336 | ExtractTextFromPng returns what the in-place rewrite wrote: the text, then its zero padding |
| PngFacts.ChunkAt | Program.cs:303-307 | length, "iTXt", data and CRC laid out at a position form a fitting iTXt chunk the walk takes whole |
| PngFacts.ITXtChunkFields | Program.cs:440-470 | a built chunk, anywhere in a buffer, has length \|keyword\| + 5 + \|text\|, type iTXt, data `keyword 00 00 00 00 00 text` and a matching CRC |
| PngFacts.ITXtChunkHeader | Program.cs:462-469 | the header of a built chunk, anywhere in a buffer, says iTXt and covers exactly its data |
| PngFacts.ITXtDataText | Program.cs:504-515 | a chunk whose data was built from a NUL-free keyword and a text reads back as that text, the empty text included |
| PngFacts.DataBytes | Program.cs:452-459 | the built data holds the keyword without NUL, then NUL bytes at the four field positions, then the text |
| PngFacts.StegoKeywordHasNoNul | Program.cs:424 | the keyword "stegotext" holds no NUL |
| PngFacts.InsertedFacts | Program.cs:422-429 | after insertion the prefix is kept, a fitting iTXt chunk of 26 + \|text\| bytes sits at IEND's old position, and the rest follows |
| PngFacts.InsertedData | Program.cs:424-425 | the inserted chunk carries a matching CRC and the "stegotext" data |
| PngFacts.EmbedLayout | Program.cs:406-437 | when the walk reaches IEND, EmbedTextPng returns the input up to IEND, the built chunk, then IEND and the rest; a PNG stays a PNG |
| PngFacts.InsertedWalk | Program.cs:412-435 | the output still walks to IEND, now right after the inserted chunk |
| PngFacts.EmbedWalk | Program.cs:412-435 | after EmbedTextPng the walk reaches IEND 26 + \|text\| bytes later than before |
| PngFacts.InsertedIend | Program.cs:412-435 | a buffer with the new chunk spliced in before IEND walks to IEND right after it |
| PngFacts.EmbedRoundTrip | Program.cs:494-520 | ExtractTextFromPng returns the inserted text, the empty one included, when the input had no iTXt chunk before IEND |
| PngFacts.EmbedErrors | Program.cs:406-437 | EmbedTextPng throws "Invalid PNG" exactly on a buffer shorter than the signature, and otherwise throws exactly when the walk does not reach IEND |
| Jpeg.SegmentLength | Program.cs:369 | the length field is a 16-bit value |
| Jpeg.FindCom | Program.cs:361-384 | a segment the walk reports lies at or after the start, inside the buffer, and begins with FF FE |
| Jpeg.WalkToCom | Program.cs:525-543 | the loop finds exactly the COM segment the recursive walk finds |
| Jpeg.ComText | Program.cs:531-538 | a payload read is the length field minus two bytes, starts right after the length field and lies inside the buffer |
| Jpeg.JpegText | Program.cs:522-544 | a text is returned only from a JPEG whose walk finds a COM segment, and is that segment's payload |
| Jpeg.ExtractTextFromJpeg | Program.cs:522-544 | the result is the payload of the first COM segment before SOS or EOI, when the length field is at least 2 and the payload lies inside the buffer |
| Jpeg.FilledCom | Program.cs:375-376 | filling the payload keeps the buffer length |
| Jpeg.JpegInPlace | Program.cs:347-386 | a rewrite keeps the buffer length; the one failure is the `Array.Clear` overrun, on a COM segment the walk found |
| Jpeg.TryEmbedTextJpegInPlace | Program.cs:347-386 | true exactly when the first COM payload can hold the text; on false the output is the input; the `Array.Clear` overrun is the one failure |
| Jpeg.ComSegment | Program.cs:483-489 | the COM segment is four bytes longer than the text |
| Jpeg.JpegWithText | Program.cs:472-492 | the output is \|text\| + 4 bytes longer; the only failures are "Not a JPEG" and a text too long |
| Jpeg.EmbedTextJpeg | Program.cs:472-492 | the stream holds SOI, FF FE, the big-endian length \|text\| + 2, the text, then the rest of the input |
| JpegFacts.ComPrefix | Program.cs:362-384 | the walk depends only on the bytes it reads, so a buffer sharing them finds the same COM segment |
| JpegFacts.FilledPieces | Program.cs:375-376 | the filled segment keeps every byte before the payload and after it |
| JpegFacts.FilledWalk | Program.cs:362-384 | filling the payload keeps the walk, the length field and the SOI check |
| JpegFacts.InPlaceLayout | Program.cs:360-385 | on true the output has the input's length; the payload holds the text and zero padding; the length field and every byte outside the payload are unchanged; it walks to the same segment |
| JpegFacts.InPlaceRoundTrip | Program.cs:367-377 | ExtractTextFromJpeg returns what the in-place rewrite wrote: the text, then its zero padding |
| JpegFacts.InPlaceNoOverrun | Program.cs:373-377 | when the payload lies inside the buffer the rewrite never throws, and returns true exactly when the text fits |
| JpegFacts.EmbedLayout | Program.cs:477-491 | the output is \|text\| + 4 bytes longer; it keeps SOI, holds FF FE with length \|text\| + 2 and the text, then the rest of the input; it is still a JPEG |
| JpegFacts.EmbedRoundTrip | Program.cs:522-544 | ExtractTextFromJpeg returns exactly the inserted text, the empty one included |
| JpegFacts.EmbedErrors | Program.cs:477-480 | EmbedTextJpeg throws exactly on a non-JPEG or a text over 65533 bytes, and "Not a JPEG" exactly on the first |
| Bmp.Int32OfBits | Program.cs:592 | the `int` read from 32 bits is their two's-complement value |
| Bmp.Int32Wrap | Program.cs:637 | `int` addition is congruent to the exact sum modulo 2^32 and in range |
| Bmp.BmpDataOffset | Program.cs:589-593 | throws exactly on fewer than 14 bytes; otherwise the little-endian value of bytes 10..13, negative exactly when bit 31 is set |
| Bmp.MsgBit | Program.cs:616 | a message bit is 0 or 1 |
| Bmp.WithLowBit | Program.cs:617-623 | the result's low bit is the given bit and its upper seven bits are those of the input |
| Bmp.SetLowBit | Program.cs:621 | `x \| 1` has low bit 1 and the upper seven bits of `x` |
| Bmp.ClearLowBit | Program.cs:623 | `x & 0xFE` has low bit 0 and the upper seven bits of `x` |
| Bmp.WindowBit | Program.cs:612-616 | plain definition: the message bit the embedding writes at a window byte, byte `(j - offset - 1) / 8`, bit `(j - offset - 1) % 8` |
| Bmp.StegoByte | Program.cs:606-627 | every byte other than the length byte keeps its upper seven bits |
| Bmp.BmpWithText | Program.cs:597-630 | the output keeps the input length; the failures are exactly the five exceptions the C# code throws |
| Bmp.EmbedTextBmpLSB | Program.cs:597-630 | the result, or the exception thrown, is exactly the model's embedding |
| Bmp.EmbedBits | Program.cs:608-627 | the nested loops write message bit k into byte `offset + 1 + k` and keep every other byte |
| Bmp.EmbedBit | Program.cs:617-626 | one inner step sets the low bit to the message bit, rewriting the byte only when it differs |
| Bmp.Gather | Program.cs:643-651 | `k` gathered bits make a value below 2^k |
| Bmp.Decoded | Program.cs:641-653 | decoding `n` bytes gives `n` bytes |
| Bmp.BmpText | Program.cs:633-655 | a returned text lies after an offset inside the buffer and is as long as the length byte there says; the failures are exactly the three exceptions the C# code throws |
| Bmp.GatherByte | Program.cs:644-652 | plain definition: eight gathered low bits; GatherBits states its property |
| Bmp.ExtractTextBmpLSB | Program.cs:633-655 | the result, or the exception thrown, is exactly the model's extraction, `offset + 1` computed in `int` |
| Bmp.ReadMessage | Program.cs:641-653 | the outer loop reads the message bytes, or throws "truncated" exactly when the window runs past the end |
| Bmp.ReadByte | Program.cs:643-651 | the inner loop succeeds exactly when eight bytes remain and gathers their low bits, most significant first |
| BmpFacts.EmbedLayout | Program.cs:604-627 | on success the length is kept, covering: byte `offset` holds \|msg\|, byte `offset + 1 + k` keeps its upper seven bits and takes bit `7 - k % 8` of `msg[k / 8]` as its low bit, and every other byte is untouched |
| BmpFacts.MsgBits | Program.cs:616 | `(mb >> (7 - bit)) & 1` by literal divisors |
| BmpFacts.EmbedBounds | Program.cs:605-614 | on success the offset is in range, the window fits and byte `offset` holds \|msg\| |
| BmpFacts.EmbedWindow | Program.cs:608-627 | on success byte `offset + 1 + k` keeps its upper seven bits and takes bit `7 - k % 8` of `msg[k / 8]` as its low bit |
| BmpFacts.WindowByte | Program.cs:612-625 | on success one window byte keeps its upper seven bits and holds its message bit as its low bit |
| BmpFacts.EmbedOutside | Program.cs:599-627 | on success every byte outside the length byte and the window is unchanged |
| BmpFacts.GatherBits | Program.cs:643-651 | eight low bits spelling a byte gather back to that byte |
| BmpFacts.DecodedWindow | Program.cs:641-653 | a window whose low bits spell a message decodes to that message |
| BmpFacts.OffsetKept | Program.cs:589-592 | an embedding that leaves bytes 10..13 alone leaves the data offset as it was |
| BmpFacts.NoWrap | Program.cs:637 | for an offset inside an array, `offset + 1` does not wrap |
| BmpFacts.RoundTrip | Program.cs:633-654 | the extraction returns the embedded message, when the window leaves the offset field alone (for the empty message: the offset is not 10) and, for the empty message, a byte follows the length byte |
| BmpFacts.RoundTripNonEmpty | Program.cs:633-654 | the extraction returns a non-empty embedded message when the window leaves the offset field alone |
| BmpFacts.RoundTripEmpty | Program.cs:633-640 | the extraction returns the empty text for an embedded empty message when a byte follows the length byte and the offset is not 10 |
| BmpFacts.EmptyAtEnd | Program.cs:637 | an empty message whose length byte is the last byte reads back as no text, not the empty one |
| BmpFacts.EmbedErrors | Program.cs:589-614 | EmbedTextBmpLSBFile throws each exception exactly when its check is the first to fail: short header, message over 255 bytes, offset at or past the end, negative offset, window past the end |
| BmpFacts.ExtractErrors | Program.cs:589-649 | ExtractTextBmpLSBFile throws each exception, or returns null, exactly when its check is the first to fail: short header, `offset + 1` not below the length, offset outside the buffer, window past the end |

## Left out

- Encoding: `Encoding.UTF8` and `Encoding.ASCII` are library calls. Text is its encoded bytes. The chunk-type string comparison is a comparison of the four type bytes read as one big-endian value; `Png.TypeNames` ties that value to the ASCII bytes.
- File and UI code is not part of this model: `ProgramEntry`, `MainForm`, the button handlers, the preview loading and `WriteIfDifferent`. Neither are the `File.ReadAllBytes` and `File.WriteAllBytes` calls around the BMP codec. The BMP operations take and return buffers.
- `MemoryStream` is a `seq<byte>` grown by concatenation. The `out` parameter of the in-place rewrites is a second result.
- PNG lengths: the model reads the chunk length as an unbounded natural, so a length with bit 31 set never fits and ends the walk. C# casts it to a negative `int`, and then it depends on the chunk:
  - An iTXt chunk, or IEND in the in-place rewrite or the extraction: C# returns false or `null`, as the model does.
  - Any other chunk in the in-place rewrite or the extraction: C# moves `pos` by `12 + (int)len`. That is forward by fewer than 12 bytes, not at all for -12 (a loop that never ends), or backward. A backward move revisits chunks, possibly forever, or reaches a negative index and throws. The model returns false or `None`.
  - Any other chunk in EmbedTextPng: below -12 the `MemoryStream.Write` count is negative and C# throws `ArgumentOutOfRangeException`. At -12 the loop never ends. From -11 to -1 C# copies 12 + `(int)len` bytes and walks on out of step. The model fails with `InvalidPngChunk`.
  - An IEND chunk in EmbedTextPng with a length from 0xFFFFFFF4 to 0xFFFFFFFF: the two writes after the new chunk are contiguous and cover the rest of the buffer, so C# returns the normal splice. The model fails with `InvalidPngChunk`. Below 0xFFFFFFF4, C# throws `ArgumentOutOfRangeException`.
  - A length below 2^31 whose data end `pos + 8 + (int)len` overflows `int`: the data end wraps negative, so the fit test passes. On a chunk that is neither iTXt nor IEND, the in-place rewrite and the extraction move `pos` below zero and `ReadBigEndianUInt32` throws `IndexOutOfRangeException`. EmbedTextPng's copy `ms.Write(pngBytes, chunkStart, 8 + (int)len + 4)` throws `ArgumentException` or `ArgumentOutOfRangeException`, at IEND too. The model returns false, `None` or `InvalidPngChunk` there. An iTXt chunk in the rewrite or the extraction, or IEND there, gives false or `null`, as in the model.
- The JPEG walk's second check `if (pos + 4 > outBytes.Length) break` can never fire, because the loop condition already excludes it, so it is omitted.
- Integer overflow of `pos += 2 + segLen` in the JPEG walk is not modelled, because it needs a buffer close to 2^31 bytes.
- Png.EmbedTextPng: requires the text to leave room for the chunk in a .NET array (`MaxArrayLength`, `int.MaxValue`, an upper bound on .NET array lengths). A longer one would make the chunk length overflow or the allocation fail.
- Png.BuildPngITXtChunk: requires the chunk data to fit a .NET array, for the same reason.
- Bmp.EmbedTextBmpLSB: requires the buffer to fit a .NET array.
- The C# exception types are `Error` values. An `IndexOutOfRangeException` from a negative BMP offset is `BmpIndexOutOfRange`. The `IndexOutOfRangeException` of `Array.Clear` past the end of a JPEG is `SegmentOverrun`.
- The PNG and JPEG in-place rewrites and the extraction share one walk method each (`Png.WalkToITXt`, `Jpeg.WalkToCom`). In C# each of them has its own copy of the loop.
- Bmp.EmbedTextBmpLSB: checks up front whether the pixel window fits, where C# finds out inside the bit loop. The outcome is the same, because the partly written clone is never returned once C# throws.
- BmpFacts.RoundTrip, BmpFacts.RoundTripNonEmpty: also require the window not to overwrite bytes 10..13, the offset field. An offset below 14 puts the window over the header, so the embedding can change the offset that the extraction then reads.
- BmpFacts.RoundTripEmpty (and RoundTrip for the empty message): exclude offset 10 only. There the zero length byte overwrites the low byte of the offset; at 11..13 the byte written is already zero.
- Concurrency, timing and file-system failures do not arise in the byte logic and are not modelled.
