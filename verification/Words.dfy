/** 128-bit words and the numbers they stand for. */
module Words {
  import opened Bits

  type word = bv128

  function Half(v: word): word
  {
    v >> 1
  }

  function Sum(v: word, w: word): word
  {
    v ^ w
  }

  function And(v: word, m: word): word
  {
    v & m
  }

  function Parity(v: word): (p: nat)
    ensures p < 2
  {
    if v & 1 == 1 then 1 else 0
  }

  /** The number with the bits of the word. */
  function Num(v: word): nat
    decreases v
  {
    if v == 0 then 0
    else
      assert Half(v) < v;
      2 * Num(Half(v)) + Parity(v)
  }

  lemma NumStep(v: word)
    ensures Num(v) == 2 * Num(Half(v)) + Parity(v)
  {
    if v == 0 {
      assert Half(v) == 0;
    }
  }

  lemma NumHalf(v: word)
    ensures Num(Half(v)) == Num(v) / 2 && Parity(v) == Num(v) % 2
  {
    hide Num, Parity, Half;
    NumStep(v);
  }

  // ----- the 128 bits of a word -----

  /** m has no bit at position n or above. */
  predicate IsMask(m: word, n: nat)
    decreases n
  {
    if n == 0 then m == 0 else IsMask(Half(m), n - 1)
  }

  lemma HalfAnd(v: word, m: word)
    ensures Half(And(v, m)) == And(Half(v), Half(m)) && And(v, 0) == 0
  {
  }

  lemma MaskOfSixtyFour()
    ensures IsMask(0xFFFF_FFFF_FFFF_FFFF, 64)
  {
    assert IsMask(0xFF, 8);
    assert IsMask(0xFFFF, 16);
    assert IsMask(0xFF_FFFF, 24);
    assert IsMask(0xFFFF_FFFF, 32);
    assert IsMask(0xFF_FFFF_FFFF, 40);
    assert IsMask(0xFFFF_FFFF_FFFF, 48);
    assert IsMask(0xFF_FFFF_FFFF_FFFF, 56);
  }

  lemma FullMask()
    ensures IsMask(0xFFFF_FFFF_FFFF_FFFF_FFFF_FFFF_FFFF_FFFF, 128)
  {
    MaskOfSixtyFour();
    assert IsMask(0xFF_FFFF_FFFF_FFFF_FFFF, 72);
    assert IsMask(0xFFFF_FFFF_FFFF_FFFF_FFFF, 80);
    assert IsMask(0xFF_FFFF_FFFF_FFFF_FFFF_FFFF, 88);
    assert IsMask(0xFFFF_FFFF_FFFF_FFFF_FFFF_FFFF, 96);
    assert IsMask(0xFF_FFFF_FFFF_FFFF_FFFF_FFFF_FFFF, 104);
    assert IsMask(0xFFFF_FFFF_FFFF_FFFF_FFFF_FFFF_FFFF, 112);
    assert IsMask(0xFF_FFFF_FFFF_FFFF_FFFF_FFFF_FFFF_FFFF, 120);
  }

  lemma NumOfZero()
    ensures Num(0) == 0
  {
  }

  lemma {:induction false} NumBelow(v: word, m: word, n: nat)
    requires And(v, m) == v && IsMask(m, n)
    ensures Num(v) < Shl(1, n)
    decreases n
  {
    hide Num, Half, Parity, And;
    HalfAnd(v, m);
    if n == 0 {
      NumOfZero();
    } else {
      NumStep(v);
      NumBelow(Half(v), Half(m), n - 1);
    }
  }

  lemma NumBound(v: word)
    ensures Num(v) < Shl(1, 128)
  {
    hide Num, Shl, IsMask;
    FullMask();
    assert And(v, 0xFFFF_FFFF_FFFF_FFFF_FFFF_FFFF_FFFF_FFFF) == v;
    NumBelow(v, 0xFFFF_FFFF_FFFF_FFFF_FFFF_FFFF_FFFF_FFFF, 128);
  }

  // ----- exclusive or -----

  lemma HalfSum(v: word, w: word)
    ensures Half(Sum(v, w)) == Sum(Half(v), Half(w)) && Sum(0, 0) == 0
    ensures Parity(Sum(v, w)) == XorLast(Parity(v), Parity(w))
  {
  }

  lemma {:induction false} NumSumWithin(v: word, w: word, m: word, n: nat)
    requires And(v, m) == v && And(w, m) == w && IsMask(m, n)
    ensures Num(Sum(v, w)) == Xor(Num(v), Num(w))
    decreases n
  {
    hide Xor, Num, Parity, Half, Sum, And, XorLast;
    HalfAnd(v, m);
    HalfAnd(w, m);
    HalfSum(v, w);
    if n == 0 {
      NumOfZero();
      XorZero(0);
    } else {
      NumSumWithin(Half(v), Half(w), Half(m), n - 1);
      NumStep(v);
      NumStep(w);
      NumStep(Sum(v, w));
      XorBit(Num(Half(v)), Num(Half(w)), Parity(v), Parity(w));
    }
  }

  /** The exclusive or of words is that of their numbers. */
  lemma NumSum(v: word, w: word)
    ensures Num(Sum(v, w)) == Xor(Num(v), Num(w))
  {
    hide Xor, Num, Sum, IsMask;
    FullMask();
    assert And(v, 0xFFFF_FFFF_FFFF_FFFF_FFFF_FFFF_FFFF_FFFF) == v;
    assert And(w, 0xFFFF_FFFF_FFFF_FFFF_FFFF_FFFF_FFFF_FFFF) == w;
    NumSumWithin(v, w, 0xFFFF_FFFF_FFFF_FFFF_FFFF_FFFF_FFFF_FFFF, 128);
  }

  // ----- shifts -----

  lemma ShiftOne(v: word)
    requires v < 0x8000_0000_0000_0000_0000_0000_0000_0000
    ensures Num(v << 1) == 2 * Num(v)
  {
    hide Num;
    NumStep(v << 1);
    assert Half(v << 1) == v && Parity(v << 1) == 0;
  }

  lemma ShiftTwo(v: word)
    requires v < 0x4000_0000_0000_0000_0000_0000_0000_0000
    ensures Num(v << 2) == Shl(Num(v), 2)
  {
    hide Num;
    ShiftOne(v);
    ShiftOne(v << 1);
    assert (v << 1) << 1 == v << 2;
    assert Shl(Num(v), 1) == 2 * Num(v);
  }

  lemma ShiftFour(v: word)
    requires v < 0x1000_0000_0000_0000_0000_0000_0000_0000
    ensures Num(v << 4) == Shl(Num(v), 4)
  {
    hide Num, Shl;
    ShiftTwo(v);
    ShiftTwo(v << 2);
    assert (v << 2) << 2 == v << 4;
    ShlAdd(Num(v), 2, 2);
  }

  lemma ShiftEight(v: word)
    requires v < 0x1_0000_0000_0000_0000_0000_0000_0000_00
    ensures Num(v << 8) == Shl(Num(v), 8)
  {
    hide Num, Shl;
    ShiftFour(v);
    ShiftFour(v << 4);
    assert (v << 4) << 4 == v << 8;
    ShlAdd(Num(v), 4, 4);
  }

  lemma ShiftSixteen(v: word)
    requires v < 0x1_0000_0000_0000_0000_0000_0000_0000
    ensures Num(v << 16) == Shl(Num(v), 16)
  {
    hide Num, Shl;
    ShiftEight(v);
    ShiftEight(v << 8);
    assert (v << 8) << 8 == v << 16;
    ShlAdd(Num(v), 8, 8);
  }

  lemma ShiftThirtyTwo(v: word)
    requires v < 0x1_0000_0000_0000_0000_0000_0000
    ensures Num(v << 32) == Shl(Num(v), 32)
  {
    hide Num, Shl;
    ShiftSixteen(v);
    ShiftSixteen(v << 16);
    assert (v << 16) << 16 == v << 32;
    ShlAdd(Num(v), 16, 16);
  }

  lemma ShiftSixtyFour(v: word)
    requires v < 0x1_0000_0000_0000_0000
    ensures Num(v << 64) == Shl(Num(v), 64)
  {
    hide Num, Shl;
    ShiftThirtyTwo(v);
    ShiftThirtyTwo(v << 32);
    assert (v << 32) << 32 == v << 64;
    ShlAdd(Num(v), 32, 32);
  }

  /** A word is its high half shifted up, plus its low half. */
  lemma NumSplit(v: word)
    ensures Num(v) == Xor(Shl(Num(v >> 64), 64), Num(v & 0xFFFF_FFFF_FFFF_FFFF))
  {
    hide Num, Shl, Xor;
    ShiftSixtyFour(v >> 64);
    NumSum((v >> 64) << 64, v & 0xFFFF_FFFF_FFFF_FFFF);
    assert v == Sum((v >> 64) << 64, v & 0xFFFF_FFFF_FFFF_FFFF);
  }
}
