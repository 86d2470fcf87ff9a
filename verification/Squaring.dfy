/** Squaring in the POLYVAL field on 128-bit words. */
module Squaring {
  import opened Bits
  import opened Polynomials
  import opened Field
  import opened Multiplication
  import opened XPowers
  import opened Words

  /** The 64 low bits moved to the even positions: the square of a short polynomial. */
  function Spread(v: word): word
  {
    var a := (v ^ (v << 32)) & 0x0000_0000_FFFF_FFFF_0000_0000_FFFF_FFFF;
    var b := (a ^ (a << 16)) & 0x0000_FFFF_0000_FFFF_0000_FFFF_0000_FFFF;
    var c := (b ^ (b << 8)) & 0x00FF_00FF_00FF_00FF_00FF_00FF_00FF_00FF;
    var d := (c ^ (c << 4)) & 0x0F0F_0F0F_0F0F_0F0F_0F0F_0F0F_0F0F_0F0F;
    var e := (d ^ (d << 2)) & 0x3333_3333_3333_3333_3333_3333_3333_3333;
    (e ^ (e << 1)) & 0x5555_5555_5555_5555_5555_5555_5555_5555
  }

  const SHORT: word := 0x1_0000_0000_0000_0000

  lemma SpreadHalf(v: word)
    requires v < SHORT
    ensures Half(Half(Spread(v))) == Spread(Half(v)) && Half(v) < SHORT
  {
  }

  lemma SpreadParity(v: word)
    requires v < SHORT
    ensures Parity(Spread(v)) == Parity(v) && Parity(Half(Spread(v))) == 0 && Spread(0) == 0
  {
  }

  lemma SquareOfBits(a: nat, p: nat)
    requires p < 2
    ensures Clmul(2 * a + p, 2 * a + p) == 4 * Clmul(a, a) + p
  {
    hide Xor, Clmul;
    ClmulBit(2 * a + p, a, p);
    ClmulComm(2 * a + p, a);
    ClmulBit(a, a, p);
    var c := Clmul(a, a);
    if p == 0 {
      XorZero(2 * c);
      XorZero(4 * c);
    } else {
      XorBit(a, Xor(a, 2 * c), 1, 0);
      XorCancel(2 * c, a);
    }
  }

  lemma {:induction false} NumSpreadWithin(v: word, m: word, n: nat)
    requires v < SHORT && And(v, m) == v && IsMask(m, n)
    ensures Num(Spread(v)) == Clmul(Num(v), Num(v))
    decreases n
  {
    hide Num, Half, Parity, Spread, And, Clmul;
    SpreadParity(v);
    HalfAnd(v, m);
    if n == 0 {
      NumOfZero();
      ClmulZero(0);
    } else {
      SpreadHalf(v);
      NumSpreadWithin(Half(v), Half(m), n - 1);
      NumStep(v);
      NumStep(Spread(v));
      NumStep(Half(Spread(v)));
      SquareOfBits(Num(Half(v)), Parity(v));
    }
  }

  /** The reduced right shift of a word. */
  function Down(v: word): word
  {
    if v & 1 == 1 then (v >> 1) ^ 0xE100_0000_0000_0000_0000_0000_0000_0000 else v >> 1
  }

  lemma NumRightReduce()
    ensures Num(0xE100_0000_0000_0000_0000_0000_0000_0000) == RIGHT_REDUCE
  {
    hide Shl, Num;
    NumOfE1();
    ShiftEight(0xE1);
    ShiftSixteen(0xE100);
    ShiftThirtyTwo(0xE100_0000);
    ShiftSixtyFour(0xE100_0000_0000_0000);
    ShlAdd(0xE1, 8, 16);
    ShlAdd(0xE1, 24, 32);
    ShlAdd(0xE1, 56, 64);
    TopByte(0xE1);
  }

  lemma NumOfE1()
    ensures Num(0xE1) == 0xE1 && Num(0x46) == 0x46 && Num(3) == 3
  {
    assert Num(1) == 1 && Num(3) == 3 && Num(7) == 7;
    assert Num(0xE) == 0xE;
    assert Num(0x1C) == 0x1C && Num(0x38) == 0x38 && Num(0x70) == 0x70;
    assert Num(2) == 2;
    assert Num(4) == 4;
    assert Num(8) == 8;
    assert Num(17) == 17;
    assert Num(35) == 35;
  }

  /** The field element of a word. */
  function Value(v: word): Elem
  {
    NumBound(v);
    Powers();
    Num(v)
  }

  lemma ValueSum(v: word, w: word)
    ensures Value(Sum(v, w)) == Add(Value(v), Value(w))
  {
    hide Num, Xor, Sum;
    NumSum(v, w);
  }

  lemma DownCases(v: word)
    ensures Down(v) == if Parity(v) == 1 then Sum(Half(v), 0xE100_0000_0000_0000_0000_0000_0000_0000) else Half(v)
  {
  }

  lemma ValueDown(v: word)
    ensures Value(Down(v)) == RightShift(Value(v))
  {
    hide Num, Xor, Down, Half, Parity, Sum;
    DownCases(v);
    NumHalf(v);
    NumRightReduce();
    ValueSum(Half(v), 0xE100_0000_0000_0000_0000_0000_0000_0000);
  }

  /** n reduced right shifts. Down is written out so that each step evaluates on a constant. */
  function DownN(v: word, n: nat): word
    decreases n
  {
    if n == 0 then v
    else DownN(if v & 1 == 1 then (v >> 1) ^ 0xE100_0000_0000_0000_0000_0000_0000_0000 else v >> 1, n - 1)
  }

  lemma DownNStep(v: word, n: nat)
    requires n > 0
    ensures DownN(v, n) == DownN(Down(v), n - 1)
  {
  }

  lemma {:induction false} ShiftFirst(h: Elem, n: nat)
    ensures RightShiftN(RightShift(h), n) == RightShiftN(h, n + 1)
  {
    hide RightShift;
    if n == 0 {
      assert RightShiftN(h, 1) == RightShift(RightShiftN(h, 0));
    } else {
      ShiftFirst(h, n - 1);
    }
  }

  lemma {:induction false} ValueDownN(v: word, n: nat)
    ensures Value(DownN(v, n)) == RightShiftN(Value(v), n)
    decreases n
  {
    hide Value, RightShift, Down;
    if n == 0 {
    } else {
      DownNStep(v, n);
      ValueDown(v);
      ValueDownN(Down(v), n - 1);
      ShiftFirst(Value(v), n - 1);
    }
  }

  /** The division by x^128 of RFC 8452, by the seven-shift identity. */
  function Divide(v: word): word
  {
    Sum(Sum(Sum(v, DownN(v, 1)), DownN(v, 2)), DownN(v, 7))
  }

  lemma ValueDivide(v: word)
    ensures Value(Divide(v)) == Prime(Value(v))
  {
    hide Value, RightShiftN, Prime, Sum, DownN, Add;
    ValueDownN(v, 1);
    ValueDownN(v, 2);
    ValueDownN(v, 7);
    ValueSum(v, DownN(v, 1));
    ValueSum(Sum(v, DownN(v, 1)), DownN(v, 2));
    ValueSum(Sum(Sum(v, DownN(v, 1)), DownN(v, 2)), DownN(v, 7));
    SevenShiftsSuffice(Value(v));
  }

  /** The POLYVAL square of a word. */
  function Square(v: word): word
  {
    Sum(Spread(v >> 64), Divide(Spread(v & 0xFFFF_FFFF_FFFF_FFFF)))
  }

  lemma NumSpread(v: word)
    requires v < SHORT
    ensures Num(Spread(v)) == Clmul(Num(v), Num(v))
  {
    hide Num, Spread, Clmul, IsMask;
    MaskOfSixtyFour();
    assert And(v, 0xFFFF_FFFF_FFFF_FFFF) == v;
    NumSpreadWithin(v, 0xFFFF_FFFF_FFFF_FFFF, 64);
  }

  /** Squaring is additive. */
  lemma SquareSum(a: nat, b: nat)
    ensures GfMul(Xor(a, b), Xor(a, b)) == Add(GfMul(a, a), GfMul(b, b))
  {
    hide GfMul, Xor;
    GfMulDistLeft(a, b, Xor(a, b));
    GfMulDistRight(a, a, b);
    GfMulDistRight(b, a, b);
    GfMulComm(a, b);
    Cancel(GfMul(a, a), GfMul(a, b), GfMul(b, b));
  }

  lemma Cancel(p: nat, q: nat, r: nat)
    ensures Xor(Xor(p, q), Xor(q, r)) == Xor(p, r)
  {
    hide Xor;
    XorAssoc(p, q, Xor(q, r));
    XorCancel(r, q);
  }

  /** h^2 x^128 divided by x^128 */
  lemma HighSquare(h: nat)
    ensures GfMul(GfMul(Shl(h, 64), Shl(h, 64)), XInv(128)) == GfMul(h, h)
  {
    hide GfMul, Shl, Power;
    var p := Power(2, 64);
    PowerOfX(64);
    ShiftedFactor(h, p);
    GfMulSwap(h, p, h, p);
    PowerAdd(2, 64, 64);
    XShift(128, 128);
    PowerZero();
    GfMulAssoc(GfMul(h, h), Power(2, 128), XInv(128));
    GfMulUnit(GfMul(h, h));
  }

  lemma PowerZero()
    ensures XInv(0) == 1
  {
  }

  lemma ShiftedFactor(h: nat, p: nat)
    requires p == Shl(1, 64)
    ensures GfMul(Shl(h, 64), Shl(h, 64)) == GfMul(GfMul(h, p), GfMul(h, p))
  {
    hide Shl, Clmul, Residue;
    var a := Shl(h, 64);
    ClmulShl(h, 64);
    GfMulResidue(a, a);
    GfMulComm(Residue(a), a);
    GfMulResidue(a, Residue(a));
  }

  /** The word operation is the POLYVAL square. */
  lemma ValueSquare(v: word)
    ensures Value(Square(v)) == Dot(Value(v), Value(v))
  {
    hide GfMul, Xor, Shl, Num, Spread, Divide, Sum, Power, Clmul;
    var high, low := v >> 64, v & 0xFFFF_FFFF_FFFF_FFFF;
    assert high < SHORT && low < SHORT;
    NumSplit(v);
    NumSpread(high);
    NumSpread(low);
    SquareSum(Shl(Num(high), 64), Num(low));
    ShortSquare(high);
    ShortSquare(low);
    HighSquare(Num(high));
    GfMulDistLeft(GfMul(Shl(Num(high), 64), Shl(Num(high), 64)), GfMul(Num(low), Num(low)), XInv(128));
    ValueDivide(Spread(low));
    ValueSum(Spread(high), Divide(Spread(low)));
  }

  lemma ShortSquare(v: word)
    requires v < SHORT
    ensures Value(Spread(v)) == GfMul(Num(v), Num(v))
  {
    hide Num, Spread, Clmul, Residue;
    NumSpread(v);
    NumBound(Spread(v));
    Powers();
    ResidueElem(Num(Spread(v)));
  }
}
