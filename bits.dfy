/** Bitwise exclusive or on unsigned integers, defined one bit at a time, with the
    algebra the CRC proofs need. `x & 1` is `x % 2`, `x >> k` is division by 2^k and
    `x & 0xFF` is `x % 256` for the unsigned values used here. */
module Bits {

  function Pow2(k: nat): (p: nat)
    ensures p >= 1
  {
    if k == 0 then 1 else 2 * Pow2(k - 1)
  }

  /** The exclusive or of `a` and `b`: lowest bit `(a + b) % 2`, the rest from the
      halves. */
  function Xor(a: nat, b: nat): nat
    decreases a + b
  {
    if a == 0 && b == 0 then 0 else 2 * Xor(a / 2, b / 2) + (a + b) % 2
  }

  /** The defining equation, also when both operands are zero. */
  lemma XorUnfold(a: nat, b: nat)
    ensures Xor(a, b) == 2 * Xor(a / 2, b / 2) + (a + b) % 2
    ensures Xor(a, b) % 2 == (a + b) % 2 && Xor(a, b) / 2 == Xor(a / 2, b / 2)
  {
    var h, p := Xor(a / 2, b / 2), (a + b) % 2;
    assert Xor(a, b) == 2 * h + p;
    HalfAndParity(h, p);
  }

  lemma HalfAndParity(h: nat, p: nat)
    requires p < 2
    ensures (2 * h + p) % 2 == p && (2 * h + p) / 2 == h
  {
  }

  lemma ParityAssoc(a: nat, b: nat, c: nat, ab: nat, bc: nat)
    requires ab % 2 == (a + b) % 2 && bc % 2 == (b + c) % 2
    ensures (ab + c) % 2 == (a + bc) % 2
  {
  }

  lemma {:induction false} XorZero(a: nat)
    ensures Xor(a, 0) == a && Xor(0, a) == a
    decreases a
  {
    if a != 0 {
      XorZero(a / 2);
    }
  }

  lemma {:induction false} XorSelf(a: nat)
    ensures Xor(a, a) == 0
    decreases a
  {
    if a != 0 {
      XorSelf(a / 2);
    }
  }

  lemma {:induction false} XorComm(a: nat, b: nat)
    ensures Xor(a, b) == Xor(b, a)
    decreases a + b
  {
    if a != 0 || b != 0 {
      XorComm(a / 2, b / 2);
    }
  }

  lemma {:induction false} XorAssoc(a: nat, b: nat, c: nat)
    ensures Xor(Xor(a, b), c) == Xor(a, Xor(b, c))
    decreases a + b + c
  {
    if a != 0 || b != 0 || c != 0 {
      XorAssoc(a / 2, b / 2, c / 2);
      var ab, bc := Xor(a, b), Xor(b, c);
      XorUnfold(a, b);
      XorUnfold(b, c);
      XorUnfold(ab, c);
      XorUnfold(a, bc);
      ParityAssoc(a, b, c, ab, bc);
    }
  }

  /** Exclusive or stays below a power of two that bounds both operands. */
  lemma {:induction false} XorBound(a: nat, b: nat, k: nat)
    requires a < Pow2(k) && b < Pow2(k)
    ensures Xor(a, b) < Pow2(k)
  {
    if k > 0 {
      XorBound(a / 2, b / 2, k - 1);
      XorUnfold(a, b);
    } else {
      assert a == 0 && b == 0;
    }
  }

  /** Bits above position `k` pass through an exclusive or with a value below 2^k:
      for `x == a + 2^k * m`. */
  lemma {:induction false} XorHighBits(x: nat, a: nat, b: nat, m: nat, k: nat)
    requires a < Pow2(k) && b < Pow2(k) && x == a + Pow2(k) * m
    ensures Xor(x, b) == Xor(a, b) + Pow2(k) * m
  {
    if k == 0 {
      assert a == 0 && b == 0 && x == m;
      XorZero(m);
    } else {
      var pm := Pow2(k - 1) * m;
      assert Pow2(k) * m == 2 * pm;
      HalfOfShifted(a, b, pm);
      XorHighBits(x / 2, a / 2, b / 2, m, k - 1);
      XorUnfold(x, b);
      XorUnfold(a, b);
      assert Xor(x, b) == 2 * Xor(x / 2, b / 2) + (a + b) % 2;
    }
  }

  lemma HalfOfShifted(a: nat, b: nat, pm: nat)
    ensures (a + 2 * pm) / 2 == a / 2 + pm && (a + 2 * pm + b) % 2 == (a + b) % 2
  {
  }

  lemma Pow2Constants()
    ensures Pow2(8) == 0x100 && Pow2(32) == 0x1_0000_0000
  {
    assert Pow2(4) == 16;
    assert Pow2(8) == 0x100;
    assert Pow2(16) == 0x1_0000 by {
      assert Pow2(12) == 0x1000;
    }
    assert Pow2(24) == 0x100_0000 by {
      assert Pow2(20) == 0x10_0000;
    }
    assert Pow2(32) == 0x1_0000_0000 by {
      assert Pow2(28) == 0x1000_0000;
    }
  }

  /** Exclusive or of 32-bit values is a 32-bit value. */
  lemma XorBound32(a: nat, b: nat)
    requires a < 0x1_0000_0000 && b < 0x1_0000_0000
    ensures Xor(a, b) < 0x1_0000_0000
  {
    Pow2Constants();
    XorBound(a, b, 32);
  }

  /** An exclusive or with a byte changes only the low byte. */
  lemma XorByte(crc: nat, b: nat)
    requires b < 0x100
    ensures Xor(crc, b) % 0x100 == Xor(crc % 0x100, b)
    ensures Xor(crc, b) / 0x100 == crc / 0x100
  {
    Pow2Constants();
    var lo, hi := crc % 0x100, crc / 0x100;
    XorHighBits(crc, lo, b, hi, 8);
    XorBound(lo, b, 8);
    ByteAndRest(Xor(lo, b), hi);
  }

  lemma ByteAndRest(lo: nat, hi: nat)
    requires lo < 0x100
    ensures (lo + 0x100 * hi) % 0x100 == lo && (lo + 0x100 * hi) / 0x100 == hi
  {
  }

  /** A byte and a multiple of 256 have no bit in common: their exclusive or is
      their sum. */
  lemma XorDisjoint(lo: nat, q: nat)
    requires lo < 0x100
    ensures Xor(lo, 0x100 * q) == lo + 0x100 * q
  {
    Pow2Constants();
    XorHighBits(0x100 * q, 0, lo, q, 8);
    XorZero(lo);
    XorComm(lo, 0x100 * q);
  }
}
