/** Multiplication in the POLYVAL field: carry-less product, then reduction. */
module Multiplication {
  import opened Bits
  import opened Polynomials
  import opened Field

  /** The two polynomials differ by a multiple of the field polynomial. */
  ghost predicate Congruent(a: nat, b: nat)
  {
    exists q :: Xor(a, b) == Clmul(q, POLY)
  }

  function GfMul(a: nat, b: nat): Elem
  {
    Residue(Clmul(a, b))
  }

  lemma GfMulStep(a: nat, b: nat)
    ensures GfMul(a, b) == Add(Residue(Times(a, b % 2)), Double(GfMul(a, b / 2)))
  {
    if b == 0 {
      DoubleCases(0);
      XorZero(0);
    } else {
      ResidueLinear(Times(a, b % 2), 2 * Clmul(a, b / 2));
      ResidueDouble(Clmul(a, b / 2));
    }
  }

  lemma GfMulComm(a: nat, b: nat)
    ensures GfMul(a, b) == GfMul(b, a)
  {
    ClmulComm(a, b);
  }

  /** A factor may be reduced before multiplying. */
  lemma {:induction false} GfMulResidue(a: nat, b: nat)
    ensures GfMul(Residue(a), b) == GfMul(a, b)
    decreases b
  {
    if b == 0 {
    } else {
      GfMulResidue(a, b / 2);
      GfMulStep(a, b);
      GfMulStep(Residue(a), b);
      ResidueElem(Residue(a));
    }
  }

  lemma GfMulAssoc(a: nat, b: nat, c: nat)
    ensures GfMul(GfMul(a, b), c) == GfMul(a, GfMul(b, c))
  {
    GfMulResidue(Clmul(a, b), c);
    GfMulResidue(Clmul(b, c), a);
    ClmulAssoc(a, b, c);
    GfMulComm(a, GfMul(b, c));
    GfMulComm(a, Clmul(b, c));
  }

  /** (ab)(cd) == (ac)(bd) */
  lemma GfMulSwap(a: nat, b: nat, c: nat, d: nat)
    ensures GfMul(GfMul(a, b), GfMul(c, d)) == GfMul(GfMul(a, c), GfMul(b, d))
  {
    GfMulAssoc(a, b, GfMul(c, d));
    GfMulAssoc(b, c, d);
    GfMulComm(b, c);
    GfMulAssoc(c, b, d);
    GfMulAssoc(a, c, GfMul(b, d));
  }

  lemma GfMulDistLeft(a: nat, b: nat, c: nat)
    ensures GfMul(Xor(a, b), c) == Add(GfMul(a, c), GfMul(b, c))
  {
    ClmulDistLeft(a, b, c);
    ResidueLinear(Clmul(a, c), Clmul(b, c));
  }

  lemma GfMulDistRight(a: nat, b: nat, c: nat)
    ensures GfMul(a, Xor(b, c)) == Add(GfMul(a, b), GfMul(a, c))
  {
    ClmulDistRight(a, b, c);
    ResidueLinear(Clmul(a, b), Clmul(a, c));
  }

  lemma GfMulUnit(a: Elem)
    ensures GfMul(a, 1) == a && GfMul(1, a) == a
    ensures GfMul(a, 0) == 0 && GfMul(0, a) == 0
  {
    ClmulOne(a);
    ClmulZero(a);
    ResidueElem(a);
  }

  lemma GfMulTwo(a: Elem)
    ensures GfMul(a, 2) == Double(a) && GfMul(2, a) == Double(a)
  {
    GfMulComm(a, 2);
    GfMulStep(a, 2);
    GfMulUnit(a);
    XorZero(Double(a));
  }

  /** Doubling commutes with multiplication. */
  lemma GfMulDouble(a: Elem, b: Elem)
    ensures GfMul(Double(a), b) == Double(GfMul(a, b))
  {
    GfMulTwo(a);
    GfMulTwo(GfMul(a, b));
    GfMulAssoc(2, a, b);
  }

  /** The reduced right shift is multiplication by x^-1. */
  lemma RightShiftIsDivision(a: Elem)
    ensures RightShift(a) == GfMul(a, RIGHT_REDUCE)
  {
    var q := GfMul(a, RIGHT_REDUCE);
    GfMulTwo(q);
    GfMulAssoc(a, RIGHT_REDUCE, 2);
    GfMulTwo(RIGHT_REDUCE);
    DoubleRightReduce();
    GfMulUnit(a);
    RightShiftDouble(q);
  }

  /** Every polynomial is congruent to its residue, and the quotient is a witness. */
  lemma {:induction false} Quotient(v: nat) returns (q: nat)
    ensures Xor(v, Residue(v)) == Clmul(q, POLY)
  {
    if v == 0 {
      q := 0;
      XorZero(0);
      ClmulZero(POLY);
    } else {
      var h := Quotient(v / 2);
      q := QuotientBit(v / 2, v % 2, h);
    }
  }

  lemma QuotientBit(v: nat, p: nat, h: nat) returns (q: nat)
    requires p < 2 && Xor(v, Residue(v)) == Clmul(h, POLY)
    ensures Xor(2 * v + p, Residue(2 * v + p)) == Clmul(q, POLY)
  {
    hide Xor, Clmul, Double, Residue;
    var carry := if Residue(v) < TWO127 then 0 else 1;
    q := 2 * h + carry;
    ClmulComm(q, POLY);
    ClmulComm(h, POLY);
    ClmulBit(POLY, h, carry);
    XorComm(Times(POLY, carry), 2 * Clmul(POLY, h));
    ResidueBit(v, p);
    QuotientStep(v, Residue(v), p);
  }

  lemma QuotientStep(v: nat, r: Elem, p: nat)
    requires p < 2
    ensures Xor(2 * v + p, Add(Double(r), p)) == Xor(2 * Xor(v, r), Times(POLY, if r < TWO127 then 0 else 1))
  {
    hide Xor, Double;
    LastBitCancels(v, Double(r), p);
    DoubleWide(r);
    XorBit(v, r, 0, 0);
    if r < TWO127 {
      XorZero(2 * Xor(v, r));
    } else {
      XorAssoc(2 * v, 2 * r, POLY);
    }
  }

  lemma LastBitCancels(v: nat, d: nat, p: nat)
    requires p < 2
    ensures Xor(2 * v + p, Xor(d, p)) == Xor(2 * v, d)
  {
    hide Xor;
    XorBit(v, 0, 0, p);
    XorZero(v);
    XorSwap(2 * v, p, d, p);
    XorSelf(p);
    XorZero(Xor(2 * v, d));
  }

  /** Reduction picks the one representative below 2^128, and equal residues mean congruence. */
  lemma CongruentIffSameResidue(a: nat, b: nat)
    ensures Congruent(a, b) <==> Residue(a) == Residue(b)
  {
    ResidueLinear(a, b);
    if Congruent(a, b) {
      var q :| Xor(a, b) == Clmul(q, POLY);
      GfMulComm(q, POLY);
      ResiduePoly();
      GfMulResidue(POLY, q);
      ClmulZero(q);
      XorCancel(Residue(a), Residue(b));
      XorZero(Residue(b));
    }
    if Residue(a) == Residue(b) {
      XorSelf(Residue(a));
      var q := Quotient(Xor(a, b));
      XorZero(Xor(a, b));
    }
  }

  lemma ResidueUnique(v: nat, r: Elem)
    ensures Congruent(v, r) <==> r == Residue(v)
  {
    CongruentIffSameResidue(v, r);
    ResidueElem(r);
  }

  /** The oracle's reduction: clear the set bits from the leading one down to x^128. */
  method Reduce(v: nat) returns (r: nat)
    ensures r < TWO128 && Congruent(v, r)
    ensures r == Residue(v)
  {
    r := v;
    Powers();
    BitLengthBound(v, 128);
    var i := BitLength(v) - 1;
    while i > 127
      invariant i >= 127 || r == v
      invariant BitLength(r) <= i + 1
      invariant Residue(r) == Residue(v)
    {
      BitLengthShr(r, i);
      if Shr(r, i) % 2 == 1 {
        ClearLeadingBit(r, i);
        r := Xor(r, Shl(POLY, i - 128));
      }
      i := i - 1;
    }
    BitLengthBound(r, 128);
    ResidueElem(r);
    ResidueUnique(v, r);
  }

  lemma PolyBitLength()
    ensures BitLength(POLY) == 129
  {
    Powers();
    BitLengthBound(POLY, 128);
    BitLengthBound(POLY, 129);
  }

  lemma ClearLeadingBit(v: nat, i: nat)
    requires i >= 128 && BitLength(v) == i + 1
    ensures BitLength(Xor(v, Shl(POLY, i - 128))) <= i
    ensures Residue(Xor(v, Shl(POLY, i - 128))) == Residue(v)
  {
    PolyBitLength();
    BitLengthShl(POLY, i - 128);
    BitLengthXor(v, Shl(POLY, i - 128));
    ResidueLinear(v, Shl(POLY, i - 128));
    ResidueShiftedPoly(i - 128);
    XorZero(Residue(v));
  }

  lemma {:induction false} ResidueShiftedPoly(k: nat)
    ensures Residue(Shl(POLY, k)) == 0
  {
    if k == 0 {
      ResiduePoly();
    } else {
      ResidueShiftedPoly(k - 1);
      ResidueDouble(Shl(POLY, k - 1));
      DoubleCases(0);
    }
  }

  /** The field polynomial is x^128 + x^127 + x^126 + x^121 + 1. */
  lemma FieldPolynomial()
    ensures POLY == Shl(1, 128) + Shl(1, 127) + Shl(1, 126) + Shl(1, 121) + 1
  {
    Powers();
    assert Shl(1, 121) == 2 * Shl(1, 120);
    assert Shl(1, 127) == 2 * Shl(1, 126);
  }

  /** Congruence with the polynomial written out. */
  lemma CongruentMeaning(a: nat, b: nat)
    ensures Congruent(a, b)
       <==> exists q :: Xor(a, b) == Clmul(q, 0x1_C200_0000_0000_0000_0000_0000_0000_0001)
  {
    hide Xor, Clmul;
    var v := Xor(a, b);
    if q :| v == Clmul(q, POLY) {
      assert v == Clmul(q, 0x1_C200_0000_0000_0000_0000_0000_0000_0001);
    }
    if q :| v == Clmul(q, 0x1_C200_0000_0000_0000_0000_0000_0000_0001) {
      assert v == Clmul(q, POLY);
    }
  }

  /** The product is the one element that differs from the carry-less product by a multiple of the polynomial. */
  lemma GfMulMeaning(a: nat, b: nat, r: Elem)
    ensures r == GfMul(a, b)
       <==> exists q :: Xor(Clmul(a, b), r) == Clmul(q, 0x1_C200_0000_0000_0000_0000_0000_0000_0001)
  {
    hide Xor, Clmul, Residue;
    ResidueUnique(Clmul(a, b), r);
    CongruentMeaning(Clmul(a, b), r);
  }
}
