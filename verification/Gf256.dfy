/** The AES field GF(2^8) modulo x^8 + x^4 + x^3 + x + 1, FIPS 197 section 4.2.

    Bytes are acted on by polynomials over GF(2): `Mul(a, b)` is the product of the field
    element a and the polynomial b, of any degree. */
module Gf256 {
  import opened Bits
  import opened Polynomials
  import opened ByteTypes

  /** Multiplication by x. */
  function XTime(a: byte): byte
  {
    if a < 0x80 then 2 * a else Eor(2 * a - 0x100, 0x1B)
  }

  /** The sum of `a * x^i` over the set bits i of b. */
  function Mul(a: byte, b: nat): byte
    decreases b
  {
    if b == 0 then 0 else Eor(Times(a, b % 2), XTime(Mul(a, b / 2)))
  }

  lemma XTimeIsShiftFold(a: byte)
    ensures XTime(a) == ShiftFold(a, 7, 0x11B)
  {
    assert Shl(1, 7) == 0x80 && Shl(1, 8) == 0x100;
    if a >= 0x80 {
      XorSplit(8, 1, 2 * a - 0x100, 1, 0x1B);
      XorSelf(1);
      ShlZero(8);
    }
  }

  lemma XTimeLinear(a: byte, b: byte)
    ensures XTime(Eor(a, b)) == Eor(XTime(a), XTime(b))
  {
    hide Xor, XTime, ShiftFold;
    assert Shl(1, 8) == 0x100;
    XTimeIsShiftFold(a);
    XTimeIsShiftFold(b);
    XTimeIsShiftFold(Eor(a, b));
    ShiftFoldLinear(a, b, 7, 0x11B);
  }

  lemma MulStep(a: byte, b: nat, bit: nat)
    requires bit < 2
    ensures Mul(a, 2 * b + bit) == Eor(Times(a, bit), XTime(Mul(a, b)))
  {
    if b == 0 && bit == 0 {
      XorZero(0);
    } else {
      hide Xor, XTime;
      assert (2 * b + bit) / 2 == b && (2 * b + bit) % 2 == bit;
    }
  }

  lemma MulOne(a: byte)
    ensures Mul(a, 1) == a && Mul(a, 0) == 0
  {
    XorZero(a);
    MulStep(a, 0, 1);
  }

  lemma MulDouble(a: byte, b: nat)
    ensures Mul(a, 2 * b) == XTime(Mul(a, b))
  {
    hide XTime;
    MulStep(a, b, 0);
    XorZero(XTime(Mul(a, b)));
  }

  /** The product is additive in the byte. */
  lemma {:induction false} MulLinear(a: byte, c: byte, b: nat)
    ensures Mul(Eor(a, c), b) == Eor(Mul(a, b), Mul(c, b))
    decreases b
  {
    hide XTime, Xor;
    if b == 0 {
      XorZero(0);
    } else {
      MulLinear(a, c, b / 2);
      XTimeLinear(Mul(a, b / 2), Mul(c, b / 2));
      XorSwap(Times(a, b % 2), Times(c, b % 2), XTime(Mul(a, b / 2)), XTime(Mul(c, b / 2)));
      XorZero(0);
    }
  }

  /** The product is additive in the polynomial. */
  lemma {:induction false} MulDist(a: byte, b: nat, c: nat)
    ensures Mul(a, Xor(b, c)) == Eor(Mul(a, b), Mul(a, c))
    decreases b + c
  {
    if b == 0 && c == 0 {
      XorZero(0);
    } else {
      hide XTime, Xor, Mul;
      var b', c', p, q := b / 2, c / 2, b % 2, c % 2;
      MulDist(a, b', c');
      XTimeLinear(Mul(a, b'), Mul(a, c'));
      XorHalves(b, c);
      MulStep(a, b', p);
      MulStep(a, c', q);
      MulStep(a, Xor(b', c'), XorLast(p, q));
      XorSwap(Times(a, p), XTime(Mul(a, b')), Times(a, q), XTime(Mul(a, c')));
      TimesXor(a, p, q);
    }
  }

  lemma TimesXor(a: byte, p: nat, q: nat)
    requires p < 2 && q < 2
    ensures Xor(Times(a, p), Times(a, q)) == Times(a, XorLast(p, q))
  {
    XorZero(a);
    XorSelf(a);
    XorZero(0);
  }

  /** Multiplying twice is multiplying by the carry-less product of the polynomials. */
  lemma {:induction false} MulCompose(a: byte, b: nat, c: nat)
    ensures Mul(Mul(a, b), c) == Mul(a, Clmul(b, c))
    decreases c
  {
    hide XTime, Xor;
    if c == 0 {
    } else {
      MulCompose(a, b, c / 2);
      MulDouble(a, Clmul(b, c / 2));
      MulDist(a, Times(b, c % 2), 2 * Clmul(b, c / 2));
    }
  }

  lemma {:induction false} MulFromOne(b: byte)
    ensures Mul(1, b) == b
  {
    hide Xor;
    if b == 0 {
    } else {
      MulFromOne(b / 2);
      LastBit(b);
    }
  }

  /** On two bytes the product is commutative. */
  lemma MulComm(a: byte, b: byte)
    ensures Mul(a, b) == Mul(b, a)
  {
    MulFromOne(a);
    MulFromOne(b);
    MulCompose(1, a, b);
    MulCompose(1, b, a);
    ClmulComm(a, b);
  }

  /** On three bytes the product is associative. */
  lemma MulAssoc(a: byte, b: byte, c: byte)
    ensures Mul(Mul(a, b), c) == Mul(a, Mul(b, c))
  {
    hide Mul;
    MulComm(a, b);
    MulCompose(b, a, c);
    MulCompose(b, c, a);
    ClmulComm(a, c);
    MulComm(Mul(b, c), a);
  }

  /** FIPS 197 section 4.2: the product is the one byte that differs from the carry-less product by a multiple
      of x^8 + x^4 + x^3 + x + 1. */
  lemma MulMeaning(a: byte, b: nat, r: byte)
    ensures r == Mul(a, b) <==> exists q :: Xor(Clmul(a, b), r) == Clmul(q, 0x11B)
  {
    hide Xor, Clmul, Mul;
    var q := MulQuotient(a, b);
    if q' :| Xor(Clmul(a, b), r) == Clmul(q', 0x11B) {
      XorSwap(Clmul(a, b), r, Clmul(a, b), Mul(a, b));
      XorSelf(Clmul(a, b));
      XorZero(Eor(r, Mul(a, b)));
      ClmulDistLeft(q', q, 0x11B);
      SmallMultiple(Eor(r, Mul(a, b)), Xor(q', q));
      XorCancel(r, Mul(a, b));
      XorZero(Mul(a, b));
    }
  }

  lemma {:induction false} MulQuotient(a: byte, b: nat) returns (q: nat)
    ensures Xor(Clmul(a, b), Mul(a, b)) == Clmul(q, 0x11B)
    decreases b
  {
    hide Xor, XTime;
    if b == 0 {
      q := 0;
      XorZero(0);
    } else {
      var h := MulQuotient(a, b / 2);
      q := QuotientDouble(Clmul(a, b / 2), Mul(a, b / 2), h, Times(a, b % 2));
    }
  }

  lemma QuotientDouble(c: nat, m: byte, h: nat, t: byte) returns (q: nat)
    requires Xor(c, m) == Clmul(h, 0x11B)
    ensures Xor(Xor(t, 2 * c), Eor(t, XTime(m))) == Clmul(q, 0x11B)
  {
    hide Xor, Clmul, XTime;
    var carry := if m < 0x80 then 0 else 1;
    q := 2 * h + carry;
    ClmulComm(q, 0x11B);
    ClmulComm(h, 0x11B);
    ClmulBit(0x11B, h, carry);
    XorSwap(t, 2 * c, t, XTime(m));
    XorSelf(t);
    XorZero(Xor(2 * c, XTime(m)));
    DoubleModulo(c, m);
    XorComm(Times(0x11B, carry), 2 * Clmul(0x11B, h));
  }

  lemma DoubleModulo(c: nat, m: byte)
    ensures Xor(2 * c, XTime(m)) == Xor(2 * Xor(c, m), Times(0x11B, if m < 0x80 then 0 else 1))
  {
    hide Xor, XTime;
    XTimeIsShiftFold(m);
    assert Shl(1, 7) == 0x80;
    XorBit(c, m, 0, 0);
    XorAssoc(2 * c, 2 * m, 0x11B);
    XorZero(2 * Xor(c, m));
  }

  /** A byte is a multiple of the polynomial only when it is zero. */
  lemma SmallMultiple(d: byte, q: nat)
    requires d == Clmul(q, 0x11B)
    ensures d == 0
  {
    hide Clmul;
    assert Shl(1, 8) == 0x100;
    BitLengthBound(d, 8);
    BitLengthBound(0x11B, 8);
    BitLengthBound(q, 0);
    if q == 0 {
      ClmulZero(0x11B);
    } else {
      ClmulBitLength(q, 0x11B);
    }
  }
}
