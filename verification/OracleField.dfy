/** The field arithmetic of tools/hazmat_oracle.py: schoolbook product, reduction, x^-128. */
module OracleField {
  import opened Bits
  import opened Polynomials
  import opened Field
  import opened Multiplication
  import opened XPowers
  import opened Frobenius
  import opened ByteTypes
  import opened Outcomes
  import opened Bytes

  /** The one value that the import-time assertion lets through, see InverseOfX128. */
  type InverseConstant = c: Elem | c == XInv(128) witness XInv(128)

  const INVERSE_EXPONENT: nat := TWO128 - 1 - 128

  method GfMulByReduction(a: nat, b: nat) returns (r: Elem)
    ensures r == GfMul(a, b)
  {
    var product := ClmulLoop(a, b);
    r := Reduce(product);
  }

  /** Square-and-multiply from x. */
  method InvX128() returns (result: Elem)
    ensures result == Power(2, INVERSE_EXPONENT)
  {
    hide GfMul;
    var e := INVERSE_EXPONENT;
    var base: Elem := 2;
    result := 1;
    GfMulUnit(Power(2, e));
    while e != 0
      invariant GfMul(result, Power(base, e)) == Power(2, INVERSE_EXPONENT)
      decreases e
    {
      SquareAndMultiply(result, base, e / 2);
      if e % 2 == 1 {
        result := GfMulByReduction(result, base);
      }
      base := GfMulByReduction(base, base);
      e := e / 2;
    }
    GfMulUnit(result);
  }

  lemma SquareAndMultiply(result: Elem, base: Elem, half: nat)
    ensures GfMul(result, Power(GfMul(base, base), half)) == GfMul(result, Power(base, 2 * half))
    ensures GfMul(GfMul(result, base), Power(GfMul(base, base), half))
         == GfMul(result, Power(base, 2 * half + 1))
  {
    hide GfMul;
    var p := Power(base, 2 * half);
    PowerSquare(base, half);
    GfMulComm(p, base);
    GfMulAssoc(result, base, p);
  }

  /** The import-time assertion singles out x^-128: no other element passes it. */
  lemma InverseOfX128(c: Elem)
    ensures GfMul(c, Residue(Shl(1, 128))) == 1 <==> c == XInv(128)
  {
    hide GfMul, Residue;
    var x128, inv := Residue(Shl(1, 128)), XInv(128);
    ResidueOfX128();
    PowerOfX128();
    XShift(128, 128);
    GfMulComm(x128, inv);
    if GfMul(c, x128) == 1 {
      GfMulAssoc(c, x128, inv);
      GfMulUnit(c);
      GfMulUnit(inv);
    }
  }

  /** The square-and-multiply result passes the assertion exactly when x has order dividing 2^128 - 1. */
  lemma AssertionMeaning()
    ensures GfMul(Power(2, INVERSE_EXPONENT), Residue(Shl(1, 128))) == 1 <==> Power(2, TWO128 - 1) == 1
  {
    hide GfMul, Residue;
    ResidueOfX128();
    PowerOfX128();
    PowerAdd(2, INVERSE_EXPONENT, 128);
  }

  /** Importing the oracle: the constant is computed, it passes its check, and it is x^-128. */
  method ImportConstant() returns (r: Outcome<InverseConstant>)
    ensures r == Ok(XInv(128))
  {
    hide GfMul, Residue, Power;
    var c := InvX128();
    var x128 := Reduce(Shl(1, 128));
    var product := GfMulByReduction(c, x128);
    InverseOfX128(c);
    AssertionMeaning();
    OrderOfX();
    if product != 1 {
      return Raised;
    }
    return Ok(c);
  }

  /** dot of the oracle, with the constant that its import-time assertion has checked. */
  method OracleDot(a: Elem, b: Elem, xInv128: InverseConstant) returns (r: Elem)
    ensures r == Dot(a, b)
  {
    hide GfMul;
    r := GfMulByReduction(a, b);
    r := GfMulByReduction(r, xInv128);
  }

  /** Multiplication by x on byte strings is the reduced doubling of the reference. */
  method MulXPolyval(v: Block) returns (r: Block)
    ensures ToElem(r) == Double(ToElem(v))
    ensures r == FromElem(Double(ToElem(v)))
  {
    hide Double, Residue;
    ResidueDouble(ToElem(v));
    ResidueElem(ToElem(v));
    var reduced := Reduce(2 * ToElem(v));
    ElemRoundTrip(reduced);
    r := FromElem(reduced);
  }
}
