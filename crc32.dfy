/** The CRC-32 of ImageHelpers.Crc32: the checksum of section 5.5 of the PNG
    specification (W3C, Second Edition), reflected polynomial 0xEDB88320, register
    preset to all ones and complemented at the end, computed through a 256-entry
    table. The register is a 32-bit unsigned value; `r & 1` is written `r % 2`,
    `r >> k` is `r / 2^k`, `x & 0xFF` is `x % 256` and `^` is `Xor32`. */
module Crc {
  import opened Bytes
  import opened Bits

  const Poly: u32 := 0xEDB8_8320

  /** `a ^ b` on 32-bit values. */
  function Xor32(a: u32, b: u32): u32 {
    XorBound32(a, b);
    Xor(a, b)
  }

  /** One round of the table construction: shift right by one, folding in the
      polynomial when the bit shifted out was set. */
  function Round(r: u32): u32 {
    if r % 2 != 0 then Xor32(Poly, r / 2) else r / 2
  }

  /** `n` rounds applied to `r`. */
  function Rounds(r: u32, n: nat): u32 {
    if n == 0 then r else Round(Rounds(r, n - 1))
  }

  /** Entry `i` of the table: eight rounds starting from `i`. */
  function TableEntry(i: u32): u32 {
    Rounds(i, 8)
  }

  /** One table-driven step of the fold: `table[(crc ^ b) & 0xFF] ^ (crc >> 8)`. */
  function Update(crc: u32, b: byte): u32 {
    Xor32(TableEntry(Xor32(crc, b) % 0x100), crc / 0x100)
  }

  /** The register after feeding `data` to `Update`, starting from `crc`. */
  function Fold(crc: u32, data: seq<byte>): u32 {
    if data == [] then crc else Update(Fold(crc, data[..|data| - 1]), data[|data| - 1])
  }

  /** The checksum: fold from all ones, then complement. It is the bit-at-a-time
      CRC-32 below. */
  function Checksum(data: seq<byte>): (c: u32)
    ensures c == BitwiseChecksum(data)
  {
    FoldIsBitwise(0xFFFF_FFFF, data);
    Xor32(Fold(0xFFFF_FFFF, data), 0xFFFF_FFFF)
  }

  /** Crc32: builds the 256-entry table, then folds the data through it. */
  method Crc32(data: seq<byte>) returns (crc: u32)
    ensures crc == Checksum(data)
  {
    var table := new u32[256];
    for i := 0 to 256
      invariant forall k :: 0 <= k < i ==> table[k] == TableEntry(k)
    {
      var res: u32 := i;
      for j := 0 to 8
        invariant res == Rounds(i, j)
      {
        res := if res % 2 != 0 then Xor32(Poly, res / 2) else res / 2;
      }
      table[i] := res;
    }
    crc := 0xFFFF_FFFF;
    for k := 0 to |data|
      invariant crc == Fold(0xFFFF_FFFF, data[..k])
    {
      crc := Xor32(table[Xor32(crc, data[k]) % 0x100], crc / 0x100);
      assert data[..k + 1][..k] == data[..k];
    }
    assert data[..|data|] == data;
    crc := Xor32(crc, 0xFFFF_FFFF);
  }

  // ---------------------------------------------------------------------------
  // Reference definition: the bit-at-a-time CRC, with no table.

  /** XOR the byte into the register, then run eight rounds. */
  function BitwiseUpdate(crc: u32, b: byte): u32 {
    Rounds(Xor32(crc, b), 8)
  }

  function BitwiseFold(crc: u32, data: seq<byte>): u32 {
    if data == [] then crc else BitwiseUpdate(BitwiseFold(crc, data[..|data| - 1]), data[|data| - 1])
  }

  /** The bit-at-a-time CRC-32; the complement undoes the preset, so the empty input
      has checksum zero. */
  function BitwiseChecksum(data: seq<byte>): (c: u32)
    ensures data == [] ==> c == 0
  {
    XorSelf(0xFFFF_FFFF);
    Xor32(BitwiseFold(0xFFFF_FFFF, data), 0xFFFF_FFFF)
  }

  /** A round is linear over exclusive or. */
  lemma RoundLinear(x: u32, y: u32)
    ensures Round(Xor32(x, y)) == Xor32(Round(x), Round(y))
  {
    var z := Xor32(x, y);
    var hx, hy := x / 2, y / 2;
    XorUnfold(x, y);
    assert z / 2 == Xor(hx, hy);
    SumParity(x, y);
    var rz := if (x + y) % 2 != 0 then Xor(Poly, Xor(hx, hy)) else Xor(hx, hy);
    assert Round(z) == rz;
    var rx := if x % 2 != 0 then Xor(Poly, hx) else hx;
    var ry := if y % 2 != 0 then Xor(Poly, hy) else hy;
    assert Round(x) == rx && Round(y) == ry;
    if x % 2 != 0 && y % 2 != 0 {
      XorPolyBoth(hx, hy);
    } else if x % 2 != 0 {
      XorAssoc(Poly, hx, hy);
    } else if y % 2 != 0 {
      XorPolyRight(hx, hy);
    }
  }

  lemma SumParity(x: nat, y: nat)
    ensures ((x + y) % 2 != 0) == ((x % 2 != 0) != (y % 2 != 0))
  {
  }

  lemma XorPolyBoth(a: nat, b: nat)
    ensures Xor(Xor(Poly, a), Xor(Poly, b)) == Xor(a, b)
  {
    XorAssoc(Poly, a, Xor(Poly, b));
    XorAssoc(a, Poly, b);
    XorComm(a, Poly);
    XorAssoc(Poly, Poly, a);
    XorSelf(Poly);
    XorZero(a);
    XorAssoc(Poly, a, b);
    XorAssoc(Poly, Poly, Xor(a, b));
    XorZero(Xor(a, b));
  }

  lemma XorPolyRight(a: nat, b: nat)
    ensures Xor(a, Xor(Poly, b)) == Xor(Poly, Xor(a, b))
  {
    XorAssoc(a, Poly, b);
    XorComm(a, Poly);
    XorAssoc(Poly, a, b);
  }

  /** So is any number of rounds. */
  lemma {:induction false} RoundsLinear(x: u32, y: u32, n: nat)
    ensures Rounds(Xor32(x, y), n) == Xor32(Rounds(x, n), Rounds(y, n))
  {
    if n > 0 {
      RoundsLinear(x, y, n - 1);
      RoundLinear(Rounds(x, n - 1), Rounds(y, n - 1));
    }
  }

  lemma RoundsStepEven(h: u32, k: nat, v: u32)
    requires Rounds(h, k) == 2 * v
    ensures Rounds(h, k + 1) == v
  {
  }

  /** A register whose low byte is clear is only shifted by eight rounds. */
  lemma RoundsOfMultiple(q: nat)
    requires 0x100 * q < 0x1_0000_0000
    ensures Rounds(0x100 * q, 8) == q
  {
    var h := 0x100 * q;
    RoundsStepEven(h, 0, 0x80 * q);
    RoundsStepEven(h, 1, 0x40 * q);
    RoundsStepEven(h, 2, 0x20 * q);
    RoundsStepEven(h, 3, 0x10 * q);
    RoundsStepEven(h, 4, 8 * q);
    RoundsStepEven(h, 5, 4 * q);
    RoundsStepEven(h, 6, 2 * q);
    RoundsStepEven(h, 7, q);
  }

  /** The table-driven step equals eight bitwise rounds. */
  lemma UpdateIsBitwise(crc: u32, b: byte)
    ensures Update(crc, b) == BitwiseUpdate(crc, b)
  {
    var x := Xor32(crc, b);
    var lo, q := x % 0x100, x / 0x100;
    XorByte(crc, b);
    assert q == crc / 0x100;
    XorDisjoint(lo, q);
    assert x == Xor32(lo, 0x100 * q);
    RoundsLinear(lo, 0x100 * q, 8);
    RoundsOfMultiple(q);
  }

  lemma {:induction false} FoldIsBitwise(crc: u32, data: seq<byte>)
    ensures Fold(crc, data) == BitwiseFold(crc, data)
  {
    if data != [] {
      FoldIsBitwise(crc, data[..|data| - 1]);
      UpdateIsBitwise(Fold(crc, data[..|data| - 1]), data[|data| - 1]);
    }
  }
}
