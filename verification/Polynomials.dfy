/** Polynomials over GF(2) as naturals: bit i is the coefficient of x^i, addition is
    exclusive or and multiplication is the carry-less product. */
module Polynomials {
  import opened Bits

  /** The carry-less product: the exclusive or of `a << i` over the set bits i of b. */
  function Clmul(a: nat, b: nat): nat
    decreases b
  {
    if b == 0 then 0 else Xor(Times(a, b % 2), 2 * Clmul(a, b / 2))
  }

  /** Product by a single coefficient. */
  function Times(a: nat, bit: nat): nat
  {
    if bit == 0 then 0 else a
  }

  /** The oracle's loop (shift a left, shift b right) computes the carry-less product. */
  method ClmulLoop(a: nat, b: nat) returns (r: nat)
    ensures r == Clmul(a, b)
  {
    r := 0;
    var a', b' := a, b;
    XorZero(Clmul(a, b));
    while b' != 0
      invariant Xor(r, Clmul(a', b')) == Clmul(a, b)
      decreases b'
    {
      ClmulDoubleLeft(a', b' / 2);
      XorAssoc(r, Times(a', b' % 2), Clmul(2 * a', b' / 2));
      if b' % 2 == 1 {
        r := Xor(r, a');
      } else {
        XorZero(r);
      }
      a', b' := 2 * a', b' / 2;
    }
    XorZero(r);
  }

  lemma {:induction false} ClmulZero(b: nat)
    ensures Clmul(0, b) == 0 && Clmul(b, 0) == 0
  {
    if b == 0 {
    } else {
      ClmulZero(b / 2);
    }
  }

  lemma {:induction false} ClmulOne(b: nat)
    ensures Clmul(1, b) == b && Clmul(b, 1) == b
  {
    if b == 0 {
    } else {
      ClmulOne(b / 2);
      XorBit(0, b / 2, b % 2, 0);
      XorZero(b / 2);
    }
    XorZero(b);
  }

  lemma {:induction false} ClmulDoubleLeft(a: nat, b: nat)
    ensures Clmul(2 * a, b) == 2 * Clmul(a, b)
  {
    hide Xor;
    if b == 0 {
    } else {
      ClmulDoubleLeft(a, b / 2);
      XorBit(Times(a, b % 2), 2 * Clmul(a, b / 2), 0, 0);
    }
  }

  lemma ClmulBit(a: nat, b: nat, p: nat)
    requires p < 2
    ensures Clmul(a, 2 * b + p) == Xor(Times(a, p), 2 * Clmul(a, b))
  {
    if b == 0 && p == 0 {
      XorZero(0);
    } else {
      assert (2 * b + p) / 2 == b && (2 * b + p) % 2 == p;
    }
  }

  lemma {:induction false} ClmulDistLeft(a: nat, b: nat, c: nat)
    ensures Clmul(Xor(a, b), c) == Xor(Clmul(a, c), Clmul(b, c))
  {
    if c == 0 {
    } else {
      hide Xor;
      ClmulDistLeft(a, b, c / 2);
      XorBit(Clmul(a, c / 2), Clmul(b, c / 2), 0, 0);
      XorSwap(Times(a, c % 2), Times(b, c % 2), 2 * Clmul(a, c / 2), 2 * Clmul(b, c / 2));
      XorZero(0);
    }
  }

  lemma {:induction false} ClmulComm(a: nat, b: nat)
    ensures Clmul(a, b) == Clmul(b, a)
    decreases b
  {
    if b == 0 {
      ClmulZero(a);
    } else {
      hide Xor;
      ClmulComm(a, b / 2);
      ClmulDoubleLeft(b / 2, a);
      LastBit(b);
      ClmulDistLeft(b % 2, 2 * (b / 2), a);
      ClmulZero(a);
      ClmulOne(a);
    }
  }

  lemma LastBit(b: nat)
    ensures Xor(b % 2, 2 * (b / 2)) == b
  {
    XorBit(0, b / 2, b % 2, 0);
    XorZero(b / 2);
  }

  lemma ClmulDistRight(a: nat, b: nat, c: nat)
    ensures Clmul(a, Xor(b, c)) == Xor(Clmul(a, b), Clmul(a, c))
  {
    ClmulComm(a, Xor(b, c));
    ClmulDistLeft(b, c, a);
    ClmulComm(a, b);
    ClmulComm(a, c);
  }

  lemma {:induction false} ClmulAssoc(a: nat, b: nat, c: nat)
    ensures Clmul(Clmul(a, b), c) == Clmul(a, Clmul(b, c))
    decreases c
  {
    if c == 0 {
    } else {
      ClmulAssoc(a, b, c / 2);
      ClmulDistRight(a, Times(b, c % 2), 2 * Clmul(b, c / 2));
      ClmulBit(a, Clmul(b, c / 2), 0);
      XorZero(2 * Clmul(a, Clmul(b, c / 2)));
    }
  }

  lemma {:induction false} ClmulShl(a: nat, k: nat)
    ensures Clmul(a, Shl(1, k)) == Shl(a, k)
  {
    if k == 0 {
      ClmulOne(a);
    } else {
      ClmulShl(a, k - 1);
      ClmulBit(a, Shl(1, k - 1), 0);
      XorZero(2 * Shl(a, k - 1));
    }
  }

  /** Degrees add: the product of nonzero polynomials has no leading cancellation. */
  lemma {:induction false} ClmulBitLength(a: nat, b: nat)
    requires a > 0 && b > 0
    ensures BitLength(Clmul(a, b)) == BitLength(a) + BitLength(b) - 1
    decreases b
  {
    hide Xor, Clmul, BitLength;
    BitLengthBit(0, 1);
    if b == 1 {
      ClmulOne(a);
    } else {
      var c := Clmul(a, b / 2);
      ClmulBitLength(a, b / 2);
      BitLengthBit(a / 2, a % 2);
      BitLengthBit(b / 4, b / 2 % 2);
      BitLengthBit(b / 2, b % 2);
      BitLengthBit(c, 0);
      ClmulBit(a, b / 2, b % 2);
      BitLengthXor(Times(a, b % 2), 2 * c);
    }
  }

  lemma BitLengthBit(a: nat, p: nat)
    requires p < 2
    ensures BitLength(0) == 0 && (a + p > 0 ==> BitLength(2 * a + p) == BitLength(a) + 1)
  {
    assert (2 * a + p) / 2 == a;
  }
}
