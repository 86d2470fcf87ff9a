/** Unsigned integers as bit strings: shifts and bitwise exclusive or.

    Python integers are unbounded, so the model uses `nat` for them and defines `<<`,
    `>>` and `^` bit by bit.  Masking with `(1 << k) - 1` is the remainder modulo
    `Shl(1, k)`. */
module Bits {

  /** a << k */
  function Shl(a: nat, k: nat): nat
  {
    if k == 0 then a else 2 * Shl(a, k - 1)
  }

  /** a >> k */
  function Shr(a: nat, k: nat): nat
  {
    if k == 0 then a else Shr(a, k - 1) / 2
  }

  /** a ^ b */
  function Xor(a: nat, b: nat): nat
    decreases a + b
  {
    if a == 0 && b == 0 then 0 else 2 * Xor(a / 2, b / 2) + XorLast(a % 2, b % 2)
  }

  function XorLast(p: nat, q: nat): nat
  {
    if p == q then 0 else 1
  }

  lemma {:induction false} XorComm(a: nat, b: nat)
    ensures Xor(a, b) == Xor(b, a)
    decreases a + b
  {
    if a == 0 && b == 0 {
    } else {
      XorComm(a / 2, b / 2);
    }
  }

  lemma {:induction false} XorZero(a: nat)
    ensures Xor(a, 0) == a && Xor(0, a) == a
  {
    if a == 0 {
    } else {
      XorZero(a / 2);
    }
  }

  lemma {:induction false} XorSelf(a: nat)
    ensures Xor(a, a) == 0
  {
    if a == 0 {
    } else {
      XorSelf(a / 2);
    }
  }

  /** One unfolding of the definition, for a caller that knows the two last bits. */
  lemma XorBit(a: nat, b: nat, p: nat, q: nat)
    requires p < 2 && q < 2
    ensures Xor(2 * a + p, 2 * b + q) == 2 * Xor(a, b) + XorLast(p, q)
  {
    assert (2 * a + p) / 2 == a && (2 * b + q) / 2 == b;
    assert (2 * a + p) % 2 == p && (2 * b + q) % 2 == q;
  }

  lemma {:induction false} XorAssoc(a: nat, b: nat, c: nat)
    ensures Xor(Xor(a, b), c) == Xor(a, Xor(b, c))
    decreases a + b + c
  {
    if a == 0 {
      XorZero(b);
      XorZero(Xor(b, c));
    } else {
      XorAssoc(a / 2, b / 2, c / 2);
      XorHalves(a, b);
      XorHalves(b, c);
      XorHalves(Xor(a, b), c);
      XorHalves(a, Xor(b, c));
    }
  }

  lemma XorHalves(a: nat, b: nat)
    ensures Xor(a, b) / 2 == Xor(a / 2, b / 2) && Xor(a, b) % 2 == XorLast(a % 2, b % 2)
  {
  }

  /** Bit i of an exclusive or is the sum modulo 2 of the two bits i. */
  lemma {:induction false} XorAt(a: nat, b: nat, i: nat)
    ensures Shr(Xor(a, b), i) == Xor(Shr(a, i), Shr(b, i))
    ensures Shr(Xor(a, b), i) % 2 == (Shr(a, i) + Shr(b, i)) % 2
  {
    hide Xor;
    if i == 0 {
    } else {
      XorAt(a, b, i - 1);
      XorHalves(Shr(a, i - 1), Shr(b, i - 1));
    }
    XorHalves(Shr(a, i), Shr(b, i));
    LastBits(Shr(a, i), Shr(b, i));
  }

  lemma LastBits(a: nat, b: nat)
    ensures XorLast(a % 2, b % 2) == (a + b) % 2
  {
  }

  /** (a ^ b) ^ (c ^ d) == (a ^ c) ^ (b ^ d) */
  lemma XorSwap(a: nat, b: nat, c: nat, d: nat)
    ensures Xor(Xor(a, b), Xor(c, d)) == Xor(Xor(a, c), Xor(b, d))
  {
    XorAssoc(a, b, Xor(c, d));
    XorAssoc(b, c, d);
    XorComm(b, c);
    XorAssoc(c, b, d);
    XorAssoc(a, c, Xor(b, d));
  }

  /** Exclusive or can be cancelled on either side. */
  lemma XorCancel(a: nat, b: nat)
    ensures Xor(Xor(a, b), b) == a
    ensures Xor(b, Xor(b, a)) == a
  {
    XorAssoc(a, b, b);
    XorAssoc(b, b, a);
    XorSelf(b);
    XorZero(a);
  }

  lemma XorInjective(a: nat, b: nat, c: nat)
    requires Xor(a, c) == Xor(b, c)
    ensures a == b
  {
    XorCancel(a, c);
    XorCancel(b, c);
  }

  lemma {:induction false} XorBound(a: nat, b: nat, k: nat)
    requires a < Shl(1, k) && b < Shl(1, k)
    ensures Xor(a, b) < Shl(1, k)
    decreases k
  {
    if k == 0 {
    } else {
      XorBound(a / 2, b / 2, k - 1);
    }
  }

  lemma {:induction false} ShlXor(a: nat, b: nat, k: nat)
    ensures Shl(Xor(a, b), k) == Xor(Shl(a, k), Shl(b, k))
  {
    if k == 0 {
    } else {
      ShlXor(a, b, k - 1);
      XorBit(Shl(a, k - 1), Shl(b, k - 1), 0, 0);
    }
  }

  /** High and low parts of an exclusive or are computed separately. */
  lemma {:induction false} XorSplit(k: nat, ah: nat, al: nat, bh: nat, bl: nat)
    requires al < Shl(1, k) && bl < Shl(1, k)
    ensures Xor(Shl(ah, k) + al, Shl(bh, k) + bl) == Shl(Xor(ah, bh), k) + Xor(al, bl)
    decreases k
  {
    hide Xor, XorLast;
    if k == 0 {
      XorZero(0);
    } else {
      XorSplit(k - 1, ah, al / 2, bh, bl / 2);
      XorBit(Shl(ah, k - 1) + al / 2, Shl(bh, k - 1) + bl / 2, al % 2, bl % 2);
      XorBit(al / 2, bl / 2, al % 2, bl % 2);
    }
  }

  /** Parts whose bits do not overlap: exclusive or is addition. */
  lemma XorDisjoint(k: nat, h: nat, l: nat)
    requires l < Shl(1, k)
    ensures Xor(Shl(h, k), l) == Shl(h, k) + l
  {
    ShlZero(k);
    XorSplit(k, h, 0, 0, l);
    XorZero(h);
    XorZero(l);
  }

  lemma {:induction false} ShlZero(k: nat)
    ensures Shl(0, k) == 0
  {
    if k == 0 {
    } else {
      ShlZero(k - 1);
    }
  }

  lemma {:induction false} ShlSum(a: nat, b: nat, k: nat)
    ensures Shl(a + b, k) == Shl(a, k) + Shl(b, k)
  {
    if k == 0 {
    } else {
      ShlSum(a, b, k - 1);
    }
  }

  lemma {:induction false} ShlAdd(a: nat, i: nat, j: nat)
    ensures Shl(a, i + j) == Shl(Shl(a, i), j)
  {
    if j == 0 {
    } else {
      ShlAdd(a, i, j - 1);
    }
  }

  lemma {:induction false} ShlScale(a: nat, k: nat)
    ensures Shl(a, k) == a * Shl(1, k)
  {
    if k == 0 {
    } else {
      ShlScale(a, k - 1);
    }
  }

  lemma PowerProduct(i: nat, j: nat)
    ensures Shl(1, i + j) == Shl(1, i) * Shl(1, j)
  {
    ShlAdd(1, i, j);
    ShlScale(Shl(1, i), j);
  }

  lemma {:induction false} ShlDouble(a: nat, k: nat)
    ensures Shl(2 * a, k) == 2 * Shl(a, k)
  {
    if k == 0 {
    } else {
      ShlDouble(a, k - 1);
    }
  }

  lemma {:induction false} ShlMonotone(a: nat, b: nat, k: nat)
    ensures a < b ==> Shl(a, k) + Shl(1, k) <= Shl(b, k)
    ensures a <= b ==> Shl(a, k) <= Shl(b, k)
  {
    if k == 0 {
    } else {
      ShlMonotone(a, b, k - 1);
    }
  }

  lemma {:induction false} ShlMonotoneExponent(i: nat, j: nat)
    requires i <= j
    ensures Shl(1, i) <= Shl(1, j)
    decreases j
  {
    if i == j {
    } else {
      ShlMonotoneExponent(i, j - 1);
    }
  }

  /** The number of bits of a, zero for zero. */
  function BitLength(a: nat): nat
  {
    if a == 0 then 0 else 1 + BitLength(a / 2)
  }

  lemma {:induction false} BitLengthBound(a: nat, k: nat)
    ensures BitLength(a) <= k <==> a < Shl(1, k)
    decreases k
  {
    if k == 0 {
    } else {
      BitLengthBound(a / 2, k - 1);
    }
  }

  lemma {:induction false} BitLengthXor(a: nat, b: nat)
    ensures BitLength(a) < BitLength(b) ==> BitLength(Xor(a, b)) == BitLength(b)
    ensures BitLength(a) == BitLength(b) > 0 ==> BitLength(Xor(a, b)) < BitLength(b)
    ensures BitLength(a) <= BitLength(b) ==> BitLength(Xor(a, b)) <= BitLength(b)
    decreases b
  {
    XorHalves(a, b);
    if b == 0 {
      XorZero(a);
    } else {
      BitLengthXor(a / 2, b / 2);
    }
  }

  lemma {:induction false} BitLengthShl(a: nat, k: nat)
    requires a > 0
    ensures BitLength(Shl(a, k)) == BitLength(a) + k && Shl(a, k) > 0
  {
    if k == 0 {
    } else {
      BitLengthShl(a, k - 1);
    }
  }

  lemma {:induction false} BitLengthShr(a: nat, k: nat)
    ensures BitLength(Shr(a, k)) == if BitLength(a) <= k then 0 else BitLength(a) - k
  {
    if k == 0 {
    } else {
      BitLengthShr(a, k - 1);
    }
  }

  /** a & ((1 << k) - 1) */
  function LowBits(a: nat, k: nat): nat
  {
    if k == 0 then 0 else 2 * LowBits(a / 2, k - 1) + a % 2
  }

  lemma {:induction false} ShrHalf(a: nat, k: nat)
    ensures Shr(a / 2, k) == Shr(a, k + 1)
  {
    if k == 0 {
    } else {
      ShrHalf(a, k - 1);
    }
  }

  lemma {:induction false} SplitAt(a: nat, k: nat)
    ensures a == Shl(Shr(a, k), k) + LowBits(a, k) && LowBits(a, k) < Shl(1, k)
    decreases k
  {
    if k == 0 {
    } else {
      SplitAt(a / 2, k - 1);
      ShrHalf(a, k - 1);
    }
  }

  lemma {:induction false} LowBitsNext(a: nat, k: nat)
    ensures LowBits(a, k + 1) == Shl(Shr(a, k) % 2, k) + LowBits(a, k)
    decreases k
  {
    if k == 0 {
    } else {
      LowBitsNext(a / 2, k - 1);
      ShrHalf(a, k - 1);
    }
  }

  lemma {:induction false} LowBitsAll(a: nat, k: nat)
    requires a < Shl(1, k)
    ensures LowBits(a, k) == a
    decreases k
  {
    if k == 0 {
    } else {
      LowBitsAll(a / 2, k - 1);
    }
  }

  lemma {:induction false} ShrAdd(a: nat, i: nat, j: nat)
    ensures Shr(a, i + j) == Shr(Shr(a, i), j)
  {
    if j == 0 {
    } else {
      ShrAdd(a, i, j - 1);
    }
  }

  /** The top bit of an exclusive or of numbers of n + 1 bits. */
  lemma TopBitXor(a: nat, b: nat, n: nat)
    requires a < Shl(1, n + 1) && b < Shl(1, n + 1)
    ensures (Xor(a, b) < Shl(1, n)) == ((a < Shl(1, n)) == (b < Shl(1, n)))
  {
    BitLengthBound(a, n);
    BitLengthBound(b, n);
    BitLengthBound(a, n + 1);
    BitLengthBound(b, n + 1);
    BitLengthBound(Xor(a, b), n);
    BitLengthXor(a, b);
    BitLengthXor(b, a);
    XorComm(a, b);
  }

  /** Shift left, and fold the polynomial in when the top bit moves out. */
  function ShiftFold(v: nat, n: nat, poly: nat): nat
  {
    if v < Shl(1, n) then 2 * v else Xor(2 * v, poly)
  }

  lemma ShiftFoldLinear(a: nat, b: nat, n: nat, poly: nat)
    requires a < Shl(1, n + 1) && b < Shl(1, n + 1)
    ensures ShiftFold(Xor(a, b), n, poly) == Xor(ShiftFold(a, n, poly), ShiftFold(b, n, poly))
  {
    hide Xor, Shl;
    TopBitXor(a, b, n);
    XorBit(a, b, 0, 0);
    if a < Shl(1, n) {
      XorAssoc(2 * a, 2 * b, poly);
    } else if b < Shl(1, n) {
      XorAssoc(2 * a, poly, 2 * b);
      XorComm(poly, 2 * b);
      XorAssoc(2 * a, 2 * b, poly);
    } else {
      XorSwap(2 * a, poly, 2 * b, poly);
      XorSelf(poly);
      XorZero(Xor(2 * a, 2 * b));
    }
  }
}
