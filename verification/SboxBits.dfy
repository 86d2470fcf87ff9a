/** The S-box bit by bit, FIPS 197 section 5.1.1. */
module SboxBits {
  import opened Bits
  import opened ByteTypes
  import opened Gf256
  import opened Generator
  import opened AffineMap
  import opened SubstitutionBox
  import opened SboxEntries

  /** Bits below k do not see a multiple of 2^(k+1). */
  lemma {:induction false} HighPart(a: nat, c: nat, k: nat)
    ensures Shr(a + Shl(2 * c, k), k) == Shr(a, k) + 2 * c
    decreases k
  {
    if k == 0 {
    } else {
      ShlDouble(c, k);
      HighPart(a / 2, c, k - 1);
      ShrHalf(a, k - 1);
      ShrHalf(a + Shl(2 * c, k), k - 1);
      assert (a + 2 * Shl(2 * c, k - 1)) / 2 == a / 2 + Shl(2 * c, k - 1);
    }
  }

  /** A rotation by one place moves every bit up by one, cyclically. */
  lemma RotatedBit(b: byte, i: nat)
    requires i < 8
    ensures Shr(RotateByte(b), i) % 2 == Shr(b, (i + 7) % 8) % 2
  {
    var r := RotateByte(b);
    if i == 0 {
      Seven(b);
    } else {
      assert r / 2 == b % 0x80;
      assert (i + 7) % 8 == i - 1;
      ShrHalf(r, i - 1);
      TopCleared(b, i - 1);
    }
  }

  lemma Seven(b: byte)
    ensures Shr(b, 0) == b && Shr(b, 7) == if b < 0x80 then 0 else 1
  {
    SplitAt(b, 7);
    ShlScale(Shr(b, 7), 7);
    assert Shl(1, 7) == 0x80;
  }

  lemma TopCleared(b: byte, k: nat)
    requires k < 7
    ensures Shr(b % 0x80, k) % 2 == Shr(b, k) % 2
  {
    if b >= 0x80 {
      var c := Shl(1, 6 - k);
      HighPart(b % 0x80, c, k);
      ShlDouble(c, k);
      ShlAdd(1, 6 - k, k);
      assert Shl(1, 6) == 0x40;
    }
  }

  /** Bit i of the substituted byte: with q the inverse of b in the field, or 0 for 0, it is the sum of the bits i,
      i + 4, i + 5, i + 6 and i + 7 of q, counted modulo 8, and of bit i of 0x63. */
  lemma SubByteBit(b: byte, q: byte, i: nat)
    requires (if b == 0 then q == 0 else Mul(b, q) == 1) && i < 8
    ensures Shr(SubByte(b), i) % 2
         == (Shr(q, i) + Shr(q, (i + 4) % 8) + Shr(q, (i + 5) % 8) + Shr(q, (i + 6) % 8) + Shr(q, (i + 7) % 8)
             + Shr(0x63, i)) % 2
  {
    hide Xor, Shr, Mul, Affine, RotateByte;
    if b != 0 {
      SameInverse(b, q, Inv(b));
    }
    var r1 := RotateByte(q);
    var r2 := RotateByte(r1);
    var r3 := RotateByte(r2);
    var r4 := RotateByte(r3);
    AffineByRotations(q);
    SumBits(q, r1, r2, r3, r4, i);
    RotatedBit(q, i);
    RotatedTwice(q, i);
    RotatedTwice(r1, i);
    RotatedBit(q, (i + 6) % 8);
    RotatedTwice(r2, i);
    RotatedTwice(q, (i + 6) % 8);
    Cyclic(i);
    SameParity(Shr(q, i), Shr(r1, i), Shr(r2, i), Shr(r3, i), Shr(r4, i),
               Shr(q, (i + 7) % 8), Shr(q, (i + 6) % 8), Shr(q, (i + 5) % 8), Shr(q, (i + 4) % 8), Shr(0x63, i));
  }

  lemma RotatedTwice(b: byte, i: nat)
    requires i < 8
    ensures Shr(RotateByte(RotateByte(b)), i) % 2 == Shr(b, (i + 6) % 8) % 2
  {
    hide Shr, RotateByte;
    RotatedBit(RotateByte(b), i);
    RotatedBit(b, (i + 7) % 8);
    assert ((i + 7) % 8 + 7) % 8 == (i + 6) % 8;
  }

  lemma Cyclic(i: nat)
    ensures ((i + 6) % 8 + 7) % 8 == (i + 5) % 8 && ((i + 6) % 8 + 6) % 8 == (i + 4) % 8
  {
    AddModulo8(i + 6, 7);
    AddModulo8(i + 6, 6);
    EightMore(i + 5);
    EightMore(i + 4);
  }

  lemma AddModulo8(a: nat, b: nat)
    ensures (a % 8 + b) % 8 == (a + b) % 8
  {
  }

  lemma EightMore(a: nat)
    ensures (a + 8) % 8 == a % 8
  {
  }

  lemma SumBits(a: byte, b: byte, c: byte, d: byte, e: byte, i: nat)
    ensures Shr(Eor(Eor(Eor(Eor(Eor(a, b), c), d), e), 0x63), i) % 2
         == (Shr(a, i) + Shr(b, i) + Shr(c, i) + Shr(d, i) + Shr(e, i) + Shr(0x63, i)) % 2
  {
    hide Xor, Shr;
    AddBit(a, b, i, Shr(a, i));
    AddBit(Xor(a, b), c, i, Shr(a, i) + Shr(b, i));
    AddBit(Xor(Xor(a, b), c), d, i, Shr(a, i) + Shr(b, i) + Shr(c, i));
    AddBit(Xor(Xor(Xor(a, b), c), d), e, i, Shr(a, i) + Shr(b, i) + Shr(c, i) + Shr(d, i));
    AddBit(Xor(Xor(Xor(Xor(a, b), c), d), e), 0x63, i, Shr(a, i) + Shr(b, i) + Shr(c, i) + Shr(d, i) + Shr(e, i));
  }

  lemma AddBit(a: nat, b: nat, i: nat, n: nat)
    requires Shr(a, i) % 2 == n % 2
    ensures Shr(Xor(a, b), i) % 2 == (n + Shr(b, i)) % 2
  {
    hide Xor, Shr;
    XorAt(a, b, i);
  }

  /** Terms of a sum may be replaced by others of the same parity. */
  lemma SameParity(p: nat, a: nat, b: nat, c: nat, d: nat, a': nat, b': nat, c': nat, d': nat, q: nat)
    requires a % 2 == a' % 2 && b % 2 == b' % 2 && c % 2 == c' % 2 && d % 2 == d' % 2
    ensures (p + a + b + c + d + q) % 2 == (p + d' + c' + b' + a' + q) % 2
  {
    assert (p + a + b + c + d + q) - (p + d' + c' + b' + a' + q)
        == 2 * (a / 2 - a' / 2 + b / 2 - b' / 2 + c / 2 - c' / 2 + d / 2 - d' / 2);
  }
}
