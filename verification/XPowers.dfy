/** Powers of x and of its inverse, and the constant x^-128 of RFC 8452. */
module XPowers {
  import opened Bits
  import opened Polynomials
  import opened Field
  import opened Multiplication

  function Power(a: Elem, n: nat): Elem
  {
    if n == 0 then 1 else GfMul(Power(a, n - 1), a)
  }

  /** x^-n, with RIGHT_REDUCE standing for x^-1. */
  function XInv(n: nat): Elem
  {
    Power(RIGHT_REDUCE, n)
  }

  lemma {:induction false} PowerAdd(a: Elem, m: nat, n: nat)
    ensures Power(a, m + n) == GfMul(Power(a, m), Power(a, n))
  {
    hide GfMul;
    if n == 0 {
      GfMulUnit(Power(a, m));
    } else {
      PowerAdd(a, m, n - 1);
      GfMulAssoc(Power(a, m), Power(a, n - 1), a);
    }
  }

  /** (a^2)^n == a^(2n) */
  lemma {:induction false} PowerSquare(a: Elem, n: nat)
    ensures Power(GfMul(a, a), n) == Power(a, 2 * n)
  {
    hide GfMul;
    if n == 0 {
    } else {
      PowerSquare(a, n - 1);
      GfMulAssoc(Power(a, 2 * n - 2), a, a);
    }
  }

  lemma XTimesInverse()
    ensures GfMul(2, RIGHT_REDUCE) == 1
  {
    GfMulTwo(RIGHT_REDUCE);
    DoubleRightReduce();
  }

  /** For an inverse pair: a^i * b^n == b^(n-i) */
  lemma {:induction false} PowerCancel(a: Elem, b: Elem, i: nat, n: nat)
    requires GfMul(a, b) == 1 && i <= n
    ensures GfMul(Power(a, i), Power(b, n)) == Power(b, n - i)
    decreases i
  {
    hide GfMul;
    if i == 0 {
      GfMulUnit(Power(b, n));
    } else {
      PowerCancel(a, b, i - 1, n - 1);
      GfMulSwap(Power(a, i - 1), a, Power(b, n - 1), b);
      GfMulUnit(Power(b, n - i));
    }
  }

  /** x^i * x^-n == x^-(n-i) */
  lemma XShift(i: nat, n: nat)
    requires i <= n
    ensures GfMul(Power(2, i), XInv(n)) == XInv(n - i)
  {
    XTimesInverse();
    PowerCancel(2, RIGHT_REDUCE, i, n);
  }

  /** Below the degree of the field polynomial, x^i is the single bit i. */
  lemma {:induction false} PowerOfX(i: nat)
    requires i < 128
    ensures Shl(1, i) < TWO128 && Power(2, i) == Shl(1, i)
  {
    Powers();
    ShlMonotoneExponent(i, 127);
    if i == 0 {
    } else {
      PowerOfX(i - 1);
      ShlMonotoneExponent(i, 127);
      GfMulTwo(Shl(1, i - 1));
      DoubleCases(Shl(1, i - 1));
    }
  }

  lemma PowerOfX128()
    ensures Power(2, 128) == LEFT_REDUCE
  {
    Powers();
    PowerOfX(127);
    GfMulTwo(TWO127);
    DoubleCases(TWO127);
    XorZero(LEFT_REDUCE);
  }

  lemma ResidueOfX128()
    ensures Residue(Shl(1, 128)) == LEFT_REDUCE
  {
    Powers();
    ResidueDouble(TWO127);
    ResidueElem(TWO127);
    DoubleCases(TWO127);
    XorZero(LEFT_REDUCE);
  }

  /** x^128 == x^127 + x^126 + x^121 + 1 */
  lemma LeftReduceBits()
    ensures LEFT_REDUCE == Xor(Xor(Shl(1, 127), Shl(1, 126)), Xor(Shl(1, 121), 1))
  {
    Powers();
    TopByte(0xC0);
    XorDisjoint(121, 1, 1);
    XorDisjoint(127, 1, Shl(1, 126));
    XorDisjoint(126, 3, Shl(1, 121) + 1);
    assert Shl(1, 127) == 2 * Shl(1, 126);
    ShlScale(3, 126);
  }

  /** The identity used by the SHORT and COMPACT profiles and by the oracle's self-check. */
  lemma XInv128Identity()
    ensures XInv(128) == Xor(Xor(1, XInv(1)), Xor(XInv(2), XInv(7)))
  {
    var c := XInv(128);
    PowerOfX128();
    XShift(128, 128);
    LeftReduceBits();
    PowerOfX(127);
    PowerOfX(126);
    PowerOfX(121);
    GfMulDistLeft(Xor(Shl(1, 127), Shl(1, 126)), Xor(Shl(1, 121), 1), c);
    GfMulDistLeft(Shl(1, 127), Shl(1, 126), c);
    GfMulDistLeft(Shl(1, 121), 1, c);
    XShift(127, 128);
    XShift(126, 128);
    XShift(121, 128);
    GfMulUnit(c);
    assert 1 == Xor(Xor(XInv(1), XInv(2)), Xor(XInv(7), c));
    SolveForLast(XInv(1), XInv(2), XInv(7), c);
  }

  lemma SolveForLast(p: nat, q: nat, r: nat, c: nat)
    requires 1 == Xor(Xor(p, q), Xor(r, c))
    ensures c == Xor(Xor(1, p), Xor(q, r))
  {
    var s := Xor(Xor(p, q), r);
    XorAssoc(Xor(p, q), r, c);
    XorCancel(c, s);
    XorComm(s, 1);
    XorAssoc(1, Xor(p, q), r);
    XorAssoc(1, p, q);
    XorAssoc(Xor(1, p), q, r);
    XorAssoc(1, Xor(p, q), r);
  }

  /** The POLYVAL product of RFC 8452 section 3: a * b * x^-128. */
  function Dot(a: Elem, b: Elem): Elem
  {
    GfMul(GfMul(a, b), XInv(128))
  }

  /** H' = H * x^-128, the multiplier that the tables are built from. */
  function Prime(h: Elem): Elem
  {
    GfMul(h, XInv(128))
  }

  lemma DotIsMulByPrime(a: Elem, h: Elem)
    ensures Dot(a, h) == GfMul(a, Prime(h))
  {
    GfMulAssoc(a, h, XInv(128));
  }

  /** n reduced doublings. */
  function DoubleN(v: Elem, n: nat): Elem
  {
    if n == 0 then v else Double(DoubleN(v, n - 1))
  }

  lemma {:induction false} DoubleNIsResidue(v: Elem, n: nat)
    ensures DoubleN(v, n) == Residue(Shl(v, n))
  {
    hide Double;
    if n == 0 {
      ResidueElem(v);
    } else {
      DoubleNIsResidue(v, n - 1);
      ResidueDouble(Shl(v, n - 1));
    }
  }

  lemma {:induction false} DoubleNIsMul(v: Elem, n: nat)
    ensures DoubleN(v, n) == GfMul(v, Power(2, n))
  {
    hide GfMul, Double;
    if n == 0 {
      GfMulUnit(v);
    } else {
      DoubleNIsMul(v, n - 1);
      GfMulTwo(DoubleN(v, n - 1));
      GfMulAssoc(v, Power(2, n - 1), 2);
    }
  }

  /** Four reduced doublings multiply by x^4. */
  lemma FourDoublings(v: Elem)
    ensures DoubleN(v, 4) == GfMul(v, 16)
  {
    hide GfMul, Double, DoubleN, Power;
    DoubleNIsMul(v, 4);
    PowerOfX(4);
    assert Shl(1, 4) == 16;
  }

  /** 128 reduced right shifts, as the reference performs them. */
  function RightShiftN(v: Elem, n: nat): Elem
  {
    if n == 0 then v else RightShift(RightShiftN(v, n - 1))
  }

  lemma {:induction false} RightShiftNIsMul(v: Elem, n: nat)
    ensures RightShiftN(v, n) == GfMul(v, XInv(n))
  {
    hide GfMul, RightShift;
    if n == 0 {
      GfMulUnit(v);
    } else {
      RightShiftNIsMul(v, n - 1);
      RightShiftIsDivision(RightShiftN(v, n - 1));
      GfMulAssoc(v, XInv(n - 1), RIGHT_REDUCE);
    }
  }

  /** The 7-shift precomputation agrees with 128 shifts for every H. */
  lemma SevenShiftsSuffice(h: Elem)
    ensures RightShiftN(h, 128)
         == Add(Add(Add(h, RightShiftN(h, 1)), RightShiftN(h, 2)), RightShiftN(h, 7))
    ensures RightShiftN(h, 128) == Prime(h)
  {
    var p, q, r := XInv(1), XInv(2), XInv(7);
    XInv128Identity();
    GfMulDistRight(h, Xor(1, p), Xor(q, r));
    GfMulDistRight(h, 1, p);
    GfMulDistRight(h, q, r);
    GfMulUnit(h);
    RightShiftNIsMul(h, 1);
    RightShiftNIsMul(h, 2);
    RightShiftNIsMul(h, 7);
    RightShiftNIsMul(h, 128);
    XorAssoc(Add(h, RightShiftN(h, 1)), RightShiftN(h, 2), RightShiftN(h, 7));
  }

  /** RFC 8452 section 3: the POLYVAL product is the one element r whose product by x^128 is a * b modulo
      the field polynomial. */
  lemma DotMeaning(a: Elem, b: Elem, r: Elem)
    ensures r == Dot(a, b)
       <==> exists q :: Xor(Clmul(a, b), Shl(r, 128)) == Clmul(q, 0x1_C200_0000_0000_0000_0000_0000_0000_0001)
  {
    hide Xor, Clmul, Residue, Shl, Power, DoubleN, Congruent;
    CongruentMeaning(Clmul(a, b), Shl(r, 128));
    CongruentIffSameResidue(Clmul(a, b), Shl(r, 128));
    DoubleNIsResidue(r, 128);
    DoubleNIsMul(r, 128);
    SolveForQuotient(GfMul(a, b), r);
  }

  lemma SolveForQuotient(p: Elem, r: Elem)
    ensures p == GfMul(r, Power(2, 128)) <==> r == GfMul(p, XInv(128))
  {
    hide GfMul;
    var x128, inv := Power(2, 128), XInv(128);
    XShift(128, 128);
    GfMulComm(x128, inv);
    GfMulAssoc(r, x128, inv);
    GfMulAssoc(p, inv, x128);
    GfMulUnit(r);
    GfMulUnit(p);
  }
}
