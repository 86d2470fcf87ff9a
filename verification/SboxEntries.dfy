/** Entries of the S-box, checked on eight-bit words. */
module SboxEntries {
  import opened Bits
  import opened Polynomials
  import opened ByteTypes
  import opened Gf256
  import opened Generator
  import opened AffineMap
  import opened SubstitutionBox
  import opened ByteWords

  function Rotate(v: bv8): bv8
  {
    (v << 1) ^ (v >> 7)
  }

  function AffineWord(q: bv8): bv8
  {
    var r1 := Rotate(q);
    var r2 := Rotate(r1);
    var r3 := Rotate(r2);
    var r4 := Rotate(r3);
    Sum(Sum(Sum(Sum(Sum(q, r1), r2), r3), r4), 0x63)
  }

  function Unaffine(s: bv8): bv8
  {
    (s << 1) ^ (s >> 7) ^ (s << 3) ^ (s >> 5) ^ (s << 6) ^ (s >> 2) ^ 0x05
  }

  lemma AffineOfUnaffine(s: bv8)
    ensures AffineWord(Unaffine(s)) == s
  {
  }

  function RotateByte(b: byte): byte
  {
    if b < 0x80 then 2 * b else 2 * b - 0xFF
  }

  lemma NumRotate(v: bv8)
    ensures Num(Rotate(v)) == RotateByte(Num(v))
  {
  }

  /** Doubling modulo x^8 + 1 is a rotation. */
  lemma FoldDouble(v: nat)
    requires v < 0x8000
    ensures Fold(2 * v) == RotateByte(Fold(v))
  {
    hide Xor, Shl;
    var h, l := v / 0x100, v % 0x100;
    XorBytes(v, h);
    XorBytes(2 * v, 2 * v / 0x100);
    assert h < 0x80 && h % 0x100 == h && v == 0x100 * h + l;
    assert Fold(v) == Xor(l, h);
    if l < 0x80 {
      assert 2 * v / 0x100 == 2 * h && 2 * v % 0x100 == 2 * l;
      XorBit(l, h, 0, 0);
      HalfBound(l, h);
    } else {
      assert 2 * v / 0x100 == 2 * h + 1 && 2 * v % 0x100 == 2 * (l - 0x80);
      XorBit(l - 0x80, h, 0, 1);
      HighBit(l - 0x80, h);
    }
  }

  lemma HalfBound(l: nat, h: nat)
    requires l < 0x80 && h < 0x80
    ensures Xor(l, h) < 0x80
  {
    assert Shl(1, 7) == 0x80;
    XorBound(l, h, 7);
  }

  lemma HighBit(l: nat, h: nat)
    requires l < 0x80 && h < 0x80
    ensures Xor(0x80 + l, h) == 0x80 + Xor(l, h) && Xor(l, h) < 0x80
  {
    hide Xor;
    assert Shl(1, 7) == 0x80;
    HalfBound(l, h);
    ShlZero(7);
    XorSplit(7, 1, l, 0, h);
    XorZero(1);
  }

  lemma FoldByte(q: byte)
    ensures Fold(q) == q
  {
    XorZero(q);
  }

  /** The five shifted terms folded are the byte and its four rotations. */
  lemma AffineByRotations(q: byte)
    ensures var r1 := RotateByte(q);
      var r2 := RotateByte(r1);
      var r3 := RotateByte(r2);
      var r4 := RotateByte(r3);
      Affine(q) == Eor(Eor(Eor(Eor(Eor(q, r1), r2), r3), r4), 0x63)
  {
    hide Xor, Fold, Clmul, RotateByte;
    var n: nat := q;
    FiveTerms(n);
    Shifts(n);
    FoldByte(n);
    FoldDouble(n);
    FoldDouble(2 * n);
    FoldDouble(4 * n);
    FoldDouble(8 * n);
    FoldLinear(n, 2 * n);
    FoldLinear(Xor(n, 2 * n), 4 * n);
    FoldLinear(Xor(Xor(n, 2 * n), 4 * n), 8 * n);
    FoldLinear(Xor(Xor(Xor(n, 2 * n), 4 * n), 8 * n), 0x10 * n);
  }

  lemma NumAffine(q: bv8)
    ensures Num(AffineWord(q)) == Affine(Num(q))
  {
    hide Num, Rotate, RotateByte, Eor, Affine, Sum;
    var r1 := Rotate(q);
    var r2 := Rotate(r1);
    var r3 := Rotate(r2);
    var r4 := Rotate(r3);
    AffineByRotations(Num(q));
    NumRotate(q);
    NumRotate(r1);
    NumRotate(r2);
    NumRotate(r3);
    NumSum(q, r1);
    NumSum(Sum(q, r1), r2);
    NumSum(Sum(Sum(q, r1), r2), r3);
    NumSum(Sum(Sum(Sum(q, r1), r2), r3), r4);
    NumSum(Sum(Sum(Sum(Sum(q, r1), r2), r3), r4), 0x63);
    NumConstants();
  }

  lemma Shifts(n: nat)
    ensures Shl(n, 1) == 2 * n && Shl(n, 2) == 4 * n && Shl(n, 3) == 8 * n && Shl(n, 4) == 0x10 * n
  {
    assert Shl(n, 2) == 2 * Shl(n, 1);
    assert Shl(n, 3) == 2 * Shl(n, 2);
  }

  /** The inverse affine image of s is the inverse of b. Unaffine is written out so that constants evaluate. */
  predicate Inverts(b: bv8, s: bv8)
  {
    Accumulate(0, b, (s << 1) ^ (s >> 7) ^ (s << 3) ^ (s >> 5) ^ (s << 6) ^ (s >> 2) ^ 0x05, 4) == 1
  }

  /** One entry of the S-box. */
  lemma Entry(b: bv8, s: bv8)
    requires if b == 0 then s == 0x63 else Inverts(b, s)
    ensures SubByte(Num(b)) == Num(s)
  {
    hide Num, Mul, Accumulate, AffineWord, Affine;
    NumConstants();
    NumZero(b);
    if b == 0 {
      SubByteZero();
    } else {
      var q := Unaffine(s);
      ConstantProduct(b, q);
      SameInverse(Num(b), Inv(Num(b)), Num(q));
      AffineOfUnaffine(s);
      NumAffine(q);
    }
  }
}
