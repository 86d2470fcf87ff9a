/** a^(2^128) = a for every element, so that every invertible element has an order dividing 2^128 - 1. */
module Frobenius {
  import opened Bits
  import opened Field
  import opened Multiplication
  import opened XPowers
  import opened Squaring
  import opened Orbit

  /** The order of x divides 2^128 - 1. */
  lemma OrderOfX()
    ensures Power(2, TWO128 - 1) == 1
  {
    XTimesInverse();
    SquaringsFixX();
    OrderOfInvertible(2, RIGHT_REDUCE);
  }

  lemma OrderOfInvertible(a: Elem, b: Elem)
    requires GfMul(a, b) == 1 && Power(a, TWO128) == a
    ensures Power(a, TWO128 - 1) == 1
  {
    hide GfMul, Power;
    var p := Power(a, TWO128 - 1);
    PowerNext(a, TWO128 - 1);
    GfMulAssoc(p, a, b);
    GfMulUnit(p);
  }

  lemma PowerNext(a: Elem, n: nat)
    ensures Power(a, n + 1) == GfMul(Power(a, n), a)
  {
  }

  /** Powers of a product. */
  lemma {:induction false} PowerProductOf(a: Elem, b: Elem, n: nat)
    ensures Power(GfMul(a, b), n) == GfMul(Power(a, n), Power(b, n))
  {
    hide GfMul;
    if n == 0 {
      GfMulUnit(1);
    } else {
      PowerProductOf(a, b, n - 1);
      GfMulSwap(Power(a, n - 1), Power(b, n - 1), a, b);
    }
  }

  /** Squaring n times is additive. */
  lemma {:induction false} FrobeniusAdditive(a: Elem, b: Elem, n: nat)
    ensures Power(Add(a, b), Shl(1, n)) == Add(Power(a, Shl(1, n)), Power(b, Shl(1, n)))
  {
    hide GfMul, Power, Xor;
    if n == 0 {
      PowerFirst(a);
      PowerFirst(b);
      PowerFirst(Add(a, b));
    } else {
      var e := Shl(1, n - 1);
      FrobeniusAdditive(a, b, n - 1);
      PowerAdd(a, e, e);
      PowerAdd(b, e, e);
      PowerAdd(Add(a, b), e, e);
      SquareSum(Power(a, e), Power(b, e));
    }
  }

  lemma {:induction false} PowerOfBit(p: Elem, n: nat)
    requires p < 2 && n > 0
    ensures Power(p, n) == p
    decreases n
  {
    hide GfMul;
    GfMulUnit(1);
    GfMulUnit(0);
    if n == 1 {
      PowerFirst(p);
    } else {
      PowerOfBit(p, n - 1);
    }
  }

  /** Every element is its own power with exponent 2^128. */
  lemma {:induction false} FrobeniusFixes(a: Elem)
    ensures Power(a, TWO128) == a
  {
    hide GfMul, Power, Double, Xor, Shl;
    Powers();
    if a == 0 {
      PowerOfBit(0, TWO128);
    } else {
      var h, p: Elem := a / 2, a % 2;
      FrobeniusFixes(h);
      PowerOfBit(p, TWO128);
      SquaringsFixX();
      PowerProductOf(2, h, TWO128);
      GfMulTwo(h);
      FrobeniusAdditive(Double(h), p, 128);
      LastBitOf(a);
    }
  }

  lemma LastBitOf(a: Elem)
    ensures Double(a / 2) == 2 * (a / 2) && Add(Double(a / 2), a % 2) == a
  {
    hide Double, Xor;
    DoubleCases(a / 2);
    XorBit(a / 2, 0, 0, a % 2);
    XorZero(a / 2);
  }

  /** The group order of the oracle's comment: the elements with an inverse are those whose power
      with exponent 2^128 - 1 is 1. */
  lemma InvertibleIffOrder(a: Elem)
    ensures (exists b: Elem :: GfMul(a, b) == 1) <==> Power(a, TWO128 - 1) == 1
  {
    hide GfMul, Power;
    FrobeniusFixes(a);
    if b: Elem :| GfMul(a, b) == 1 {
      OrderOfInvertible(a, b);
    }
    if Power(a, TWO128 - 1) == 1 {
      PowerNext(a, TWO128 - 2);
      GfMulComm(Power(a, TWO128 - 2), a);
    }
  }
}
