/** The POLYVAL field GF(2)[x] / (x^128 + x^127 + x^126 + x^121 + 1), RFC 8452 section 3.

    Elements are the naturals below 2^128.  Everything here follows from two maps on
    elements, multiplication by x (`Double`) and its inverse (`RightShift`), and from the
    commutative ring of carry-less products.  Irreducibility of the polynomial is not used. */
module Field {
  import opened Bits

  const TWO120: nat := 0x100_0000_0000_0000_0000_0000_0000_0000
  const TWO127: nat := 0x8000_0000_0000_0000_0000_0000_0000_0000
  const TWO128: nat := 0x1_0000_0000_0000_0000_0000_0000_0000_0000
  const POLY: nat := 0x1_C200_0000_0000_0000_0000_0000_0000_0001
  const LEFT_REDUCE: nat := 0xC200_0000_0000_0000_0000_0000_0000_0001
  const RIGHT_REDUCE: nat := 0xE100_0000_0000_0000_0000_0000_0000_0000

  type Elem = v: nat | v < TWO128

  lemma Powers()
    ensures Shl(1, 8) == 0x100 && Shl(1, 120) == TWO120 && Shl(1, 127) == TWO127 && Shl(1, 128) == TWO128
  {
    PowerSixtyFour();
    PowerProduct(64, 64);
    PowerProduct(120, 8);
  }

  lemma PowerSixtyFour()
    ensures Shl(1, 64) == 0x1_0000_0000_0000_0000
  {
    PowerProduct(8, 8);
    PowerProduct(16, 16);
    PowerProduct(32, 32);
  }

  lemma XorElem(a: Elem, b: Elem)
    ensures Xor(a, b) < TWO128
  {
    Powers();
    XorBound(a, b, 128);
  }

  /** a ^ b on field elements: addition. */
  function Add(a: Elem, b: Elem): Elem
  {
    XorElem(a, b);
    Xor(a, b)
  }

  lemma AddComm(a: Elem, b: Elem)
    ensures Add(a, b) == Add(b, a)
  {
    XorComm(a, b);
  }

  /** Left shift by one with reduction: multiplication by x. */
  function Double(v: Elem): (r: Elem)
  {
    var shifted := 2 * v % TWO128;
    if Shr(v, 127) % 2 == 1 then Add(shifted, LEFT_REDUCE) else shifted
  }

  /** Right shift by one with reduction: division by x. */
  function RightShift(v: Elem): (r: Elem)
  {
    if v % 2 == 1 then Add(v / 2, RIGHT_REDUCE) else v / 2
  }

  lemma Carry(v: Elem)
    ensures Shr(v, 127) % 2 == (if v < TWO127 then 0 else 1)
  {
    Powers();
    BitLengthBound(v, 127);
    BitLengthBound(v, 128);
    BitLengthShr(v, 127);
  }

  lemma DoubleCases(v: Elem)
    ensures v < TWO127 ==> Double(v) == 2 * v
    ensures v >= TWO127 ==> Double(v) == Xor(2 * v - TWO128, LEFT_REDUCE)
  {
    hide Xor;
    Carry(v);
    if v < TWO127 {
      assert 2 * v % TWO128 == 2 * v;
    } else {
      assert 2 * v % TWO128 == 2 * v - TWO128;
    }
  }

  /** A small number placed in the top byte. */
  lemma TopByte(a: nat)
    ensures Shl(a, 120) == a * TWO120
  {
    Powers();
    ShlScale(a, 120);
  }

  lemma XorOne(a: nat)
    requires a % 2 == 0
    ensures Xor(a, a + 1) == 1
  {
    XorBit(a / 2, a / 2, 0, 1);
    XorSelf(a / 2);
  }

  /** RIGHT_REDUCE is x^-1. */
  lemma DoubleRightReduce()
    ensures Double(RIGHT_REDUCE) == 1
  {
    DoubleCases(RIGHT_REDUCE);
    XorOne(2 * RIGHT_REDUCE - TWO128);
  }

  lemma DoubleWide(v: Elem)
    ensures Double(v) == if v < TWO127 then 2 * v else Xor(2 * v, POLY)
  {
    DoubleCases(v);
    if v >= TWO127 {
      Powers();
      XorSplit(128, 1, 2 * v - TWO128, 1, LEFT_REDUCE);
      XorSelf(1);
      ShlZero(128);
    }
  }

  lemma DoubleLinear(a: Elem, b: Elem)
    ensures Double(Add(a, b)) == Add(Double(a), Double(b))
  {
    hide Xor, Double;
    Powers();
    DoubleWide(a);
    DoubleWide(b);
    DoubleWide(Add(a, b));
    ShiftFoldLinear(a, b, 127, POLY);
  }

  lemma DoubleRightShift(v: Elem)
    ensures Double(RightShift(v)) == v
  {
    hide Xor, Double;
    DoubleCases(v / 2);
    if v % 2 == 1 {
      DoubleLinear(v / 2, RIGHT_REDUCE);
      DoubleRightReduce();
      AddLastBit(v / 2);
    }
  }

  lemma AddLastBit(h: nat)
    ensures Xor(2 * h, 1) == 2 * h + 1
  {
    XorBit(h, 0, 0, 1);
    XorZero(h);
  }

  lemma RightShiftDouble(v: Elem)
    ensures RightShift(Double(v)) == v
  {
    var w := RightShift(Double(v));
    DoubleRightShift(Double(v));
    DoubleInjective(w, v);
  }

  lemma DoubleInjective(a: Elem, b: Elem)
    requires Double(a) == Double(b)
    ensures a == b
  {
    var d := Add(a, b);
    DoubleLinear(a, b);
    XorSelf(Double(a));
    DoubleWide(d);
    if d >= TWO127 {
      XorCancel(2 * d, POLY);
      XorZero(POLY);
      assert false;
    }
    XorCancel(a, b);
    XorZero(b);
  }

  lemma RightShiftLinear(a: Elem, b: Elem)
    ensures RightShift(Add(a, b)) == Add(RightShift(a), RightShift(b))
  {
    var s := Add(RightShift(a), RightShift(b));
    DoubleLinear(RightShift(a), RightShift(b));
    DoubleRightShift(a);
    DoubleRightShift(b);
    RightShiftDouble(s);
  }

  /** The remainder of a polynomial of any length, by Horner's rule from its leading bit. */
  function Residue(v: nat): Elem
  {
    if v == 0 then 0 else Add(Double(Residue(v / 2)), v % 2)
  }

  lemma ResidueBit(v: nat, p: nat)
    requires p < 2
    ensures Residue(2 * v + p) == Add(Double(Residue(v)), p)
  {
    if v == 0 && p == 0 {
      DoubleCases(0);
      XorZero(0);
    } else {
      assert (2 * v + p) / 2 == v && (2 * v + p) % 2 == p;
    }
  }

  lemma ResidueDouble(v: nat)
    ensures Residue(2 * v) == Double(Residue(v))
  {
    ResidueBit(v, 0);
    XorZero(Double(Residue(v)));
  }

  lemma {:induction false} ResidueElem(v: Elem)
    ensures Residue(v) == v
  {
    if v == 0 {
    } else {
      ResidueElem(v / 2);
      DoubleCases(v / 2);
      XorBit(v / 2, 0, 0, v % 2);
      XorZero(v / 2);
    }
  }

  /** `reduce` is linear. */
  lemma {:induction false} ResidueLinear(a: nat, b: nat)
    ensures Residue(Xor(a, b)) == Add(Residue(a), Residue(b))
    decreases a + b
  {
    if a == 0 && b == 0 {
      XorZero(0);
    } else {
      var a', b' := a / 2, b / 2;
      ResidueLinear(a', b');
      XorHalves(a, b);
      XorBits(a % 2, b % 2);
      ResidueBit(Xor(a', b'), XorLast(a % 2, b % 2));
      ResidueBit(a', a % 2);
      ResidueBit(b', b % 2);
      HornerLinear(Residue(a'), Residue(b'), a % 2, b % 2);
    }
  }

  lemma HornerLinear(a: Elem, b: Elem, p: nat, q: nat)
    requires p < 2 && q < 2
    ensures Add(Double(Add(a, b)), Add(p, q)) == Add(Add(Double(a), p), Add(Double(b), q))
  {
    DoubleLinear(a, b);
    XorSwap(Double(a), p, Double(b), q);
  }

  lemma XorBits(p: nat, q: nat)
    requires p < 2 && q < 2
    ensures Xor(p, q) == XorLast(p, q)
  {
    XorBit(0, 0, p, q);
  }

  /** x^128 reduces to LEFT_REDUCE, so that POLY itself reduces to zero. */
  lemma DoubleHalfPoly(h: Elem)
    requires 2 * h + 1 == POLY
    ensures Double(h) == 1
  {
    DoubleCases(h);
    XorOne(2 * h - TWO128);
    XorComm(2 * h - TWO128, LEFT_REDUCE);
  }

  lemma ResidueHalfPoly(h: Elem)
    requires Double(h) == 1
    ensures Residue(2 * h + 1) == 0
  {
    ResidueElem(h);
    ResidueBit(h, 1);
    XorSelf(1);
  }

  lemma ResiduePoly()
    ensures Residue(POLY) == 0
  {
    var h: nat := POLY / 2;
    DoubleHalfPoly(h);
    ResidueHalfPoly(h);
  }
}
