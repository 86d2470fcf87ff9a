/** The construction of the AES S-box in tools/hazmat_oracle.py: powers of the generator 3, an
    inverse kept beside each of them, and the affine map. */
module SubstitutionBox {
  import opened Bits
  import opened Polynomials
  import opened ByteTypes
  import opened Gf256
  import opened ByteWords
  import opened Registers
  import opened Aes
  import opened Tables
  import opened Generator
  import opened AffineMap

  /** FIPS 197 section 5.1.1: the inverse in the field, then the affine map. */
  ghost function SubByte(b: byte): byte
  {
    Affine(Inv(b))
  }

  lemma SubByteInjective(a: byte, b: byte)
    requires SubByte(a) == SubByte(b)
    ensures a == b
  {
    hide Affine, Mul;
    AffineInjective(Inv(a), Inv(b));
    MulUnit(a);
    MulUnit(b);
    if a != 0 && b != 0 {
      MulComm(a, Inv(a));
      MulComm(b, Inv(b));
      SameInverse(Inv(a), a, b);
    }
  }

  /** Multiplication by 3 as the loop writes it. */
  lemma TripleFormula(p: byte)
    ensures Xor(Xor(p, 2 * p % 0x100), if p >= 0x80 then 0x1B else 0) == Mul(p, 3)
  {
    hide Xor;
    MulOne(p);
    MulStep(p, 1, 1);
    if p >= 0x80 {
      XorAssoc(p, 2 * p - 0x100, 0x1B);
    } else {
      XorZero(Xor(p, 2 * p));
    }
  }

  /** v ^ (v << k), the product by 1 + x^k */
  function ShiftAdd(v: nat, k: nat): nat
  {
    Xor(v, Shl(v, k))
  }

  /** (1 + x^k)^2 == 1 + x^2k */
  lemma ShiftAddTwice(v: nat, k: nat)
    ensures ShiftAdd(ShiftAdd(v, k), k) == ShiftAdd(v, 2 * k)
  {
    hide Xor, Shl;
    var w := Shl(v, k);
    ShlXor(v, w, k);
    ShlAdd(v, k, k);
    XorAssoc(v, w, Xor(w, Shl(w, k)));
    XorCancel(Shl(w, k), w);
  }

  lemma ShiftAddComm(v: nat, i: nat, j: nat)
    ensures ShiftAdd(ShiftAdd(v, i), j) == ShiftAdd(ShiftAdd(v, j), i)
  {
    hide Xor, Shl;
    ShlXor(v, Shl(v, i), j);
    ShlXor(v, Shl(v, j), i);
    ShlAdd(v, i, j);
    ShlAdd(v, j, i);
    XorSwap(v, Shl(v, i), Shl(v, j), Shl(Shl(v, i), j));
  }

  /** The three shift-and-adds multiply by (1 + x)^7, so one more makes 1 + x^8. */
  lemma SevenFactors(q: nat)
    ensures ShiftAdd(ShiftAdd(ShiftAdd(ShiftAdd(q, 1), 2), 4), 1) == ShiftAdd(q, 8)
  {
    hide ShiftAdd;
    var a := ShiftAdd(q, 1);
    ShiftAddComm(ShiftAdd(a, 2), 4, 1);
    ShiftAddComm(a, 2, 1);
    ShiftAddTwice(q, 1);
    ShiftAddTwice(q, 2);
    ShiftAddTwice(q, 4);
  }

  /** The low byte of the product by (1 + x)^7, corrected when its top bit is set, is a third. */
  lemma Third(q: byte, c: nat)
    requires ShiftAdd(c, 1) == ShiftAdd(q, 8)
    ensures Mul(if c % 0x100 >= 0x80 then Eor(c % 0x100, 9) else c % 0x100, 3) == q
  {
    hide Xor, Mul;
    var low := c % 0x100;
    LowByte(q, c);
    TripleFormula(low);
    XorZero(q);
    if low >= 0x80 {
      MulLinear(low, 9, 3);
      NineTimesThree();
      XorCancel(q, 0x1B);
    }
  }

  lemma NineTimesThree()
    ensures Mul(9, 3) == 0x1B
  {
    hide Mul;
    ConstantProduct(0x09, 0x03);
  }

  lemma LowByte(q: byte, c: nat)
    requires ShiftAdd(c, 1) == ShiftAdd(q, 8)
    ensures Xor(c % 0x100, 2 * (c % 0x100) % 0x100) == q
  {
    hide Xor;
    ShlScale(q, 8);
    assert Shl(c, 1) == 2 * c && Shl(1, 8) == 0x100;
    XorBytes(c, 2 * c);
    XorBytes(q, 0x100 * q);
    XorZero(q);
    AslOfLow(c);
    assert 0x100 * q % 0x100 == 0;
  }

  /** p is multiplied by 3. */
  method TriplePower(p: byte) returns (r: byte)
    ensures r == Mul(p, 3)
  {
    hide Xor, Mul;
    TripleFormula(p);
    assert Shl(p, 1) == 2 * p;
    r := Xor(Xor(p, Shl(p, 1) % 0x100), if p >= 0x80 then 0x1B else 0);
  }

  /** q is divided by 3, which is multiplication by 0xF6. */
  method DivideByThree(q: byte) returns (r: byte)
    ensures Mul(r, 3) == q && r == Mul(q, THIRD)
  {
    hide Xor, Mul;
    SevenFactors(q);
    var c: nat := Xor(q, Shl(q, 1));
    c := Xor(c, Shl(c, 2));
    c := Xor(c, Shl(c, 4));
    Third(q, c);
    r := c % 0x100;
    if r >= 0x80 {
      r := Eor(r, 9);
    }
    PowNonzero(3, 0);
    MulAssoc(r, 3, THIRD);
    MulUnit(r);
  }

  /** The five-term sum, its high bits folded in, and 0x63 added. */
  method AffineStep(q: byte) returns (x: byte)
    ensures x == Affine(q)
  {
    hide Xor, Clmul, Shl;
    var v := Xor(Xor(Xor(Xor(q, Shl(q, 1)), Shl(q, 2)), Shl(q, 3)), Shl(q, 4));
    FiveTerms(q);
    XorBytes(Xor(v, Shr(v, 8)), 0x63);
    ShrByte(v);
    x := Xor(Xor(v, Shr(v, 8)), 0x63) % 0x100;
  }

  lemma ShrByte(v: nat)
    ensures Shr(v, 8) == v / 0x100
  {
    SplitAt(v, 8);
    ShlScale(Shr(v, 8), 8);
    assert Shl(1, 8) == 0x100;
  }

  lemma FiveTerms(q: nat)
    ensures Xor(Xor(Xor(Xor(q, Shl(q, 1)), Shl(q, 2)), Shl(q, 3)), Shl(q, 4)) == Clmul(q, 0x1F)
  {
    hide Xor, Clmul;
    ClmulOne(q);
    ShiftedTerm(q, 1, 1);
    ShiftedTerm(q, 3, 2);
    ShiftedTerm(q, 7, 3);
    ShiftedTerm(q, 15, 4);
    assert Shl(1, 1) == 2 && Shl(1, 2) == 4 && Shl(1, 3) == 8 && Shl(1, 4) == 0x10;
  }

  /** One more term of the sum. */
  lemma ShiftedTerm(q: nat, m: nat, k: nat)
    requires m < Shl(1, k)
    ensures Xor(Clmul(q, m), Shl(q, k)) == Clmul(q, m + Shl(1, k))
  {
    hide Xor, Clmul;
    ClmulShl(q, k);
    ClmulDistRight(q, m, Shl(1, k));
    XorDisjoint(k, 1, m);
    XorComm(m, Shl(1, k));
  }

  /** What the loop has entered after k steps. */
  ghost predicate Entered(sbox: SBox, k: nat)
  {
    forall j :: 1 <= j <= k ==> sbox[Pow(3, j)] == SubByte(Pow(3, j))
  }

  lemma InverseOfPower(g: byte, k: nat)
    requires g == 3
    ensures Inv(Pow(g, k)) == Pow(THIRD, k)
  {
    hide Mul, Pow;
    PowNonzero(g, k);
    SameInverse(Pow(g, k), Inv(Pow(g, k)), Pow(THIRD, k));
  }

  /** Nothing is overwritten with another value. */
  lemma EnterOne(sbox: SBox, k: nat)
    requires Entered(sbox, k)
    ensures Entered(sbox[Pow(3, k + 1) := SubByte(Pow(3, k + 1))], k + 1)
  {
    hide Pow, SubByte;
  }

  lemma AllEntered(sbox: SBox, b: byte)
    requires Entered(sbox, 255) && b != 0
    ensures sbox[b] == SubByte(b)
  {
    hide Pow, SubByte;
    var j := ThreeGenerates(3, b);
  }

  lemma SubByteZero()
    ensures SubByte(0) == 0x63
  {
    XorZero(0);
    XorZero(0x63);
  }

  lemma StartPowers(sbox: SBox)
    ensures Pow(3, 0) == 1 && Pow(THIRD, 0) == 1 && Entered(sbox, 0)
  {
  }

  lemma NextPowers(g: byte, k: nat)
    ensures Pow(g, k + 1) == Mul(Pow(g, k), g)
  {
  }

  lemma SubByteOfPower(g: byte, k: nat)
    requires g == 3
    ensures SubByte(Pow(g, k)) == Affine(Pow(THIRD, k))
  {
    hide Mul, Pow, Affine;
    InverseOfPower(g, k);
  }

  /** With the entry for zero the table is complete. */
  lemma Complete(sbox: SBox)
    requires Entered(sbox, 255)
    ensures forall b: byte :: sbox[0 := 0x63][b] == SubByte(b)
    ensures Injective(sbox[0 := 0x63])
  {
    hide Pow, SubByte, Entered;
    SubByteZero();
    forall b: byte
      ensures sbox[0 := 0x63][b] == SubByte(b)
    {
      if b != 0 {
        AllEntered(sbox, b);
      }
    }
    var done := sbox[0 := 0x63];
    forall i: byte, j: byte | i != j
      ensures done[i] != done[j]
    {
      if SubByte(i) == SubByte(j) {
        SubByteInjective(i, j);
      }
    }
  }

  /** The whole construction: it visits every nonzero byte, each entry is the affine image of the
      inverse, and so the table is a permutation. */
  method BuildSbox() returns (sbox: SBox)
    ensures forall b: byte :: sbox[b] == SubByte(b)
    ensures Injective(sbox) && Inverse(sbox, InverseTable(sbox))
  {
    hide Mul, Pow, SubByte, Affine, Entered;
    sbox := Zeros(0x100);
    var p, q: byte := 1, 1;
    ghost var k: nat := 0;
    StartPowers(sbox);
    HighPowers(3);
    OrderOfThree(3, 255);
    while true
      invariant k < 255 && p == Pow(3, k) && q == Pow(THIRD, k)
      invariant Entered(sbox, k)
      decreases 255 - k
    {
      NextPowers(3, k);
      NextPowers(THIRD, k);
      SubByteOfPower(3, k + 1);
      EnterOne(sbox, k);
      p := TriplePower(p);
      q := DivideByThree(q);
      var x := AffineStep(q);
      sbox := sbox[p := x];
      k := k + 1;
      if p == 1 {
        break;
      }
    }
    Complete(sbox);
    sbox := sbox[0 := 0x63];
  }
}
