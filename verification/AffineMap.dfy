/** The affine map of FIPS 197 section 5.1.1, as a product modulo x^8 + 1, and why it is injective. */
module AffineMap {
  import opened Bits
  import opened Polynomials
  import opened ByteTypes
  import opened ByteWords

  /** Reduction of a 16-bit polynomial modulo x^8 + 1. */
  function Fold(v: nat): byte
  {
    Xor(v, v / 0x100) % 0x100
  }

  /** Product by 1 + x + x^2 + x^3 + x^4 modulo x^8 + 1, plus 0x63. */
  function Affine(q: byte): byte
  {
    Eor(Fold(Clmul(q, 0x1F)), 0x63)
  }

  lemma SplitByte(a: nat)
    ensures Shl(a / 0x100, 8) + a % 0x100 == a && Shl(1, 8) == 0x100
  {
    ShlScale(a / 0x100, 8);
    assert Shl(1, 8) == 0x100;
  }

  /** Exclusive or acts on the low byte and on the rest separately. */
  lemma XorBytes(a: nat, b: nat)
    ensures Xor(a, b) % 0x100 == Xor(a % 0x100, b % 0x100)
    ensures Xor(a, b) / 0x100 == Xor(a / 0x100, b / 0x100)
  {
    hide Xor, Shl;
    SplitByte(a);
    SplitByte(b);
    var h, l := Xor(a / 0x100, b / 0x100), Xor(a % 0x100, b % 0x100);
    XorSplit(8, a / 0x100, a % 0x100, b / 0x100, b % 0x100);
    XorBound(a % 0x100, b % 0x100, 8);
    ShlScale(h, 8);
  }

  lemma FoldLinear(a: nat, b: nat)
    ensures Fold(Xor(a, b)) == Eor(Fold(a), Fold(b))
  {
    hide Xor;
    XorBytes(a, b);
    XorSwap(a, b, a / 0x100, b / 0x100);
    XorBytes(Xor(a, a / 0x100), Xor(b, b / 0x100));
  }

  lemma TimesModulus(v: nat)
    ensures Xor(v, Shl(v, 8)) == Clmul(v, 0x101)
  {
    hide Xor, Clmul;
    assert Shl(1, 8) == 0x100;
    ClmulDistRight(v, 1, Shl(1, 8));
    ClmulShl(v, 8);
    ClmulOne(v);
    XorDisjoint(8, 1, 1);
    XorComm(1, Shl(1, 8));
  }

  /** Only multiples of x^8 + 1 fold to zero. */
  lemma FoldZero(v: nat)
    requires v < 0x10000 && Fold(v) == 0
    ensures v == Clmul(v / 0x100, 0x101)
  {
    hide Xor, Clmul, Shl;
    var h := v / 0x100;
    XorBytes(v, h);
    XorCancel(v % 0x100, h);
    XorZero(h);
    assert v % 0x100 == h;
    SplitByte(v);
    XorDisjoint(8, h, h);
    XorComm(Shl(h, 8), h);
    TimesModulus(h);
  }

  lemma ClmulEven(a: nat, b: nat)
    ensures Clmul(a, 2 * b) == 2 * Clmul(a, b)
  {
    hide Xor, Clmul;
    ClmulBit(a, b, 0);
    XorZero(2 * Clmul(a, b));
  }

  lemma ConstantSums()
    ensures Xor(0x1F, 0xF8) == 0xE7 && Xor(0x1F, 0x39C) == 0x383 && Xor(1, 0x707) == 0x706
  {
    hide Xor;
    ConstantSum(0x1F, 0xF8);
    ConstantSum(0x1F, 0x9C);
    XorBytes(0x1F, 0x39C);
    XorZero(3);
    XorBit(0, 0x383, 1, 1);
    XorZero(0x383);
  }

  lemma InverseProduct(a: nat)
    requires a == 0x1F
    ensures Clmul(a, 0x4A) == 0x706
  {
    hide Xor, Clmul;
    ConstantSums();
    ClmulOne(a);
    ClmulEven(a, 1);
    ClmulEven(a, 2);
    ClmulBit(a, 4, 1);
    ClmulEven(a, 9);
    ClmulBit(a, 0x12, 1);
    ClmulEven(a, 0x25);
  }

  lemma SevenModuli(k: nat)
    requires k == 7
    ensures Clmul(k, 0x101) == 0x707
  {
    hide Xor, Clmul, Shl;
    TimesModulus(k);
    SplitByte(0x707);
    XorDisjoint(8, k, 7);
    XorComm(k, Shl(k, 8));
  }

  /** 1 + x + x^2 + x^3 + x^4 is invertible modulo x^8 + 1. */
  lemma Bezout(d: nat, h: nat)
    requires Clmul(d, 0x1F) == Clmul(h, 0x101)
    ensures d == Clmul(Xor(Clmul(d, 7), Clmul(h, 0x4A)), 0x101)
  {
    hide Xor, Clmul;
    InverseProduct(0x1F);
    SevenModuli(7);
    ConstantSums();
    BezoutGeneral(d, h, 0x1F, 0x4A, 7, 0x101);
  }

  lemma BezoutGeneral(d: nat, h: nat, a: nat, inverse: nat, k: nat, modulus: nat)
    requires Clmul(d, a) == Clmul(h, modulus)
    requires Clmul(a, inverse) == Xor(1, Clmul(k, modulus))
    ensures d == Clmul(Xor(Clmul(d, k), Clmul(h, inverse)), modulus)
  {
    hide Xor, Clmul;
    var p, q := Clmul(Clmul(d, k), modulus), Clmul(Clmul(h, inverse), modulus);
    ClmulAssoc(d, a, inverse);
    ClmulDistRight(d, 1, Clmul(k, modulus));
    ClmulOne(d);
    ClmulAssoc(d, k, modulus);
    ClmulAssoc(h, modulus, inverse);
    ClmulComm(modulus, inverse);
    ClmulAssoc(h, inverse, modulus);
    ClmulDistLeft(Clmul(d, k), Clmul(h, inverse), modulus);
    assert Xor(d, p) == q;
    XorCancel(d, p);
    XorComm(p, q);
  }

  lemma ByteLength(d: byte)
    ensures BitLength(d) <= 8
  {
    assert Shl(1, 8) == 0x100;
    BitLengthBound(d, 8);
  }

  lemma TwoByteBound()
    ensures Shl(1, 16) == 0x10000
  {
    assert Shl(1, 8) == 0x100;
    PowerProduct(8, 8);
  }

  lemma ProductBound(d: byte)
    ensures Clmul(d, 0x1F) < 0x10000
  {
    if d == 0 {
      ClmulZero(0x1F);
    } else {
      hide Clmul;
      ByteLength(d);
      ByteLength(0x1F);
      ClmulBitLength(d, 0x1F);
      BitLengthBound(Clmul(d, 0x1F), 16);
      TwoByteBound();
    }
  }

  lemma ModulusLength()
    ensures BitLength(0x101) == 9
  {
    assert Shl(1, 8) == 0x100 && Shl(1, 9) == 0x200;
    BitLengthBound(0x101, 8);
    BitLengthBound(0x101, 9);
  }

  lemma KernelTrivial(d: byte)
    requires Fold(Clmul(d, 0x1F)) == 0
    ensures d == 0
  {
    hide Clmul, Fold, Xor;
    var v := Clmul(d, 0x1F);
    ProductBound(d);
    FoldZero(v);
    Bezout(d, v / 0x100);
    var k := Xor(Clmul(d, 7), Clmul(v / 0x100, 0x4A));
    if k == 0 {
      ClmulZero(0x101);
    } else {
      ClmulBitLength(k, 0x101);
      ModulusLength();
      ByteLength(d);
    }
  }

  lemma AffineInjective(a: byte, b: byte)
    requires Affine(a) == Affine(b)
    ensures a == b
  {
    hide Clmul, Fold, Xor;
    var x, y := Clmul(a, 0x1F), Clmul(b, 0x1F);
    XorInjective(Fold(x), Fold(y), 0x63);
    FoldLinear(x, y);
    XorSelf(Fold(x));
    ClmulDistLeft(a, b, 0x1F);
    KernelTrivial(Eor(a, b));
    XorCancel(a, b);
    XorZero(b);
  }
}
