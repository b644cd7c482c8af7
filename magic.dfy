/** The magic-byte checks ImageHelpers uses to tell the formats apart. */
module Magic {
  import opened Bytes

  /** The eight-byte PNG signature of section 5.2 of the PNG specification (W3C,
      Second Edition). */
  const PngSignature: seq<byte> := [0x89, 0x50, 0x4E, 0x47, 0x0D, 0x0A, 0x1A, 0x0A]

  /** IsPng: longer than the signature, and starting with its first four bytes; the
      other four are not looked at. */
  predicate IsPng(b: seq<byte>): (r: bool)
    ensures r ==> |b| > |PngSignature| && b[..4] == PngSignature[..4]
  {
    |b| > 8 && b[0] == 0x89 && b[1] == 0x50 && b[2] == 0x4E && b[3] == 0x47
  }

  /** IsJpeg: more than two bytes, starting with the SOI marker FF D8. No buffer is
      taken for both formats. */
  predicate IsJpeg(b: seq<byte>): (r: bool)
    ensures r ==> !IsPng(b)
  {
    |b| > 2 && b[0] == 0xFF && b[1] == 0xD8
  }
}
