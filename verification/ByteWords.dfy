/** Bytes as eight-bit words, on which sums and products in GF(2^8) of constants are computed. */
module ByteWords {
  import opened Bits
  import opened Polynomials
  import opened ByteTypes
  import opened Gf256

  /** The byte with the bits of the word. */
  function Num(v: bv8): byte
  {
    v as nat
  }

  function Parity(v: bv8): nat
  {
    if v & 1 == 1 then 1 else 0
  }

  function Half(v: bv8): bv8
  {
    v >> 1
  }

  function Sum(v: bv8, w: bv8): bv8
  {
    v ^ w
  }

  lemma NumStep(v: bv8)
    ensures Num(v) == 2 * Num(Half(v)) + Parity(v) && Parity(v) < 2
  {
  }

  lemma SumStep(v: bv8, w: bv8)
    ensures Half(Sum(v, w)) == Sum(Half(v), Half(w)) && Parity(Sum(v, w)) == XorLast(Parity(v), Parity(w))
  {
  }

  lemma NumZero(v: bv8)
    ensures Num(v) == 0 <==> v == 0
    ensures Sum(0, 0) == 0
  {
  }

  lemma {:induction false} NumSumWithin(v: bv8, w: bv8, n: nat)
    requires Num(v) <= n && Num(w) <= n
    ensures Num(Sum(v, w)) == Xor(Num(v), Num(w))
    decreases n
  {
    hide Num, Parity, Xor, XorLast, Half, Sum;
    if n == 0 {
      NumZero(v);
      NumZero(w);
      XorZero(0);
    } else {
      NumStep(v);
      NumStep(w);
      NumStep(Sum(v, w));
      SumStep(v, w);
      NumSumWithin(Half(v), Half(w), n - 1);
      XorBit(Num(Half(v)), Num(Half(w)), Parity(v), Parity(w));
    }
  }

  lemma NumSum(v: bv8, w: bv8)
    ensures Num(Sum(v, w)) == Eor(Num(v), Num(w))
  {
    hide Num, Xor, Sum;
    NumSumWithin(v, w, 0xFF);
  }

  function Twice(v: bv8): bv8
  {
    if v & 0x80 == 0 then v << 1 else (v << 1) ^ 0x1B
  }

  lemma TwiceCases(v: bv8)
    ensures v & 0x80 == 0 ==> Num(v) < 0x80 && Num(Twice(v)) == 2 * Num(v)
    ensures v & 0x80 != 0 ==> Num(v) >= 0x80 && Twice(v) == Sum(v << 1, 0x1B) && Num(v << 1) == 2 * Num(v) - 0x100
  {
  }

  lemma NumTwice(v: bv8)
    ensures Num(Twice(v)) == XTime(Num(v))
  {
    hide Num, Eor, Sum, Twice;
    TwiceCases(v);
    NumSum(v << 1, 0x1B);
    NumConstants();
  }

  lemma NumConstants()
    ensures Num(0x1B) == 0x1B && Num(0x63) == 0x63 && Num(1) == 1 && Num(0) == 0
  {
  }

  /** The product by the 2n low bits of w, added to an accumulator: shift and add, two bits at a time. The
      doublings (Twice) are written out so that each step evaluates on constants. */
  function Accumulate(a: bv8, v: bv8, w: bv8, n: nat): bv8
    decreases n
  {
    if n == 0 then a
    else
      var b := if w & 1 == 0 then a else a ^ v;
      var u := if v & 0x80 == 0 then v << 1 else (v << 1) ^ 0x1B;
      Accumulate(if w & 2 == 0 then b else b ^ u,
                 if u & 0x80 == 0 then u << 1 else (u << 1) ^ 0x1B, w >> 2, n - 1)
  }

  function AddIf(a: bv8, v: bv8, p: nat): bv8
  {
    if p == 0 then a else Sum(a, v)
  }

  lemma AddIfCases(a: bv8, v: bv8, w: bv8)
    ensures AddIf(a, v, Parity(w)) == if w & 1 == 0 then a else a ^ v
    ensures AddIf(a, v, Parity(Half(w))) == if w & 2 == 0 then a else a ^ v
  {
  }

  lemma AccumulateStep(a: bv8, v: bv8, w: bv8, n: nat)
    requires n > 0
    ensures var b := AddIf(a, v, Parity(w));
      Accumulate(a, v, w, n)
         == Accumulate(AddIf(b, Twice(v), Parity(Half(w))), Twice(Twice(v)), Half(Half(w)), n - 1)
  {
    hide AddIf, Parity, Half, Sum;
    var b, u := AddIf(a, v, Parity(w)), Twice(v);
    AddIfCases(a, v, w);
    AddIfCases(b, u, w);
    assert Half(Half(w)) == w >> 2 by { Halves(w); }
  }

  lemma Halves(w: bv8)
    ensures Half(Half(w)) == w >> 2
  {
  }

  /** Mul(v, 2w + p) == Mul(v, p) + Mul(2v, w) */
  lemma MulLowBit(a: byte, v: byte, w: byte, p: nat)
    requires p < 2
    ensures Eor(if p == 0 then a else Eor(a, v), Mul(XTime(v), w)) == Eor(a, Mul(v, 2 * w + p))
  {
    hide Mul, XTime, Xor;
    MulStep(v, w, p);
    MulDouble(v, 1);
    MulOne(v);
    SmallProduct(w);
    MulCompose(v, 2, w);
    MulDouble(v, w);
    XorZero(XTime(Mul(v, w)));
    XorAssoc(a, v, XTime(Mul(v, w)));
  }

  lemma SmallProduct(w: nat)
    ensures Clmul(2, w) == 2 * w
  {
    ClmulDoubleLeft(1, w);
    ClmulOne(w);
  }

  lemma {:induction false} NumAccumulate(a: bv8, v: bv8, w: bv8, n: nat)
    requires Num(w) < Shl(1, 2 * n)
    ensures Num(Accumulate(a, v, w, n)) == Eor(Num(a), Mul(Num(v), Num(w)))
    decreases n
  {
    hide Num, Mul, Half, Parity, Twice, Accumulate, Eor, AddIf;
    if n == 0 {
      NothingAdded(a, v, w);
    } else {
      var b := AddIf(a, v, Parity(w));
      AccumulateStep(a, v, w, n);
      NumLowBit(a, v, w);
      NumLowBit(b, Twice(v), Half(w));
      NumStep(w);
      NumStep(Half(w));
      NumAccumulate(AddIf(b, Twice(v), Parity(Half(w))), Twice(Twice(v)), Half(Half(w)), n - 1);
    }
  }

  lemma NumLowBit(a: bv8, v: bv8, w: bv8)
    ensures Eor(Num(AddIf(a, v, Parity(w))), Mul(Num(Twice(v)), Num(Half(w)))) == Eor(Num(a), Mul(Num(v), Num(w)))
  {
    hide Num, Mul, Half, Parity, Sum, Twice, XTime, Eor;
    NumStep(w);
    NumTwice(v);
    NumSum(a, v);
    MulLowBit(Num(a), Num(v), Num(Half(w)), Parity(w));
  }

  lemma NothingAdded(a: bv8, v: bv8, w: bv8)
    requires Num(w) == 0
    ensures Num(Accumulate(a, v, w, 0)) == Eor(Num(a), Mul(Num(v), Num(w)))
  {
    hide Num;
    MulOne(Num(v));
    XorZero(Num(a));
  }

  // ----- constants -----

  lemma ConstantSum(v: bv8, w: bv8)
    ensures Xor(Num(v), Num(w)) == Num(v ^ w)
  {
    hide Num;
    NumSum(v, w);
  }

  lemma ConstantProduct(v: bv8, w: bv8)
    ensures Mul(Num(v), Num(w)) == Num(Accumulate(0, v, w, 4))
  {
    hide Num, Mul, Accumulate;
    assert Shl(1, 8) == 0x100;
    NumAccumulate(0, v, w, 4);
    NumConstants();
    XorZero(Mul(Num(v), Num(w)));
  }
}
