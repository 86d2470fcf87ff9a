/** The loops of tools/polyval_reference.py on field elements. */
module ReferenceField {
  import opened Bits
  import opened Polynomials
  import opened Field
  import opened Multiplication
  import opened XPowers

  /** The bit-serial product: b is read from its top bit, v runs through a * x^-1, a * x^-2, ... */
  method PolyvalDot(a: Elem, b: Elem) returns (result: Elem)
    ensures result == Dot(a, b)
  {
    hide GfMul, Xor, RightShift;
    result := 0;
    var v := a;
    NoBitsAbove(b);
    GfMulUnit(a);
    GfMulUnit(XInv(0));
    var i := 127;
    while i > -1
      invariant -1 <= i <= 127
      invariant v == GfMul(a, XInv(127 - i))
      invariant result == GfMul(GfMul(a, Shr(b, i + 1)), XInv(127 - i))
    {
      DotStep(a, Shr(b, i + 1), Shr(b, i) % 2, 127 - i);
      v := PolyvalRightShift1(v);
      if Shr(b, i) % 2 == 1 {
        result := Add(result, v);
      }
      i := i - 1;
    }
  }

  /** Right shift with reduction, the body of both loops that divide by x. */
  method PolyvalRightShift1(val: Elem) returns (r: Elem)
    ensures r == RightShift(val) == GfMul(val, RIGHT_REDUCE) && Double(r) == val
  {
    hide GfMul, Double;
    RightShiftIsDivision(val);
    DoubleRightShift(val);
    var carry := val % 2;
    r := val / 2;
    if carry != 0 {
      r := Add(r, RIGHT_REDUCE);
    }
  }

  lemma NoBitsAbove(b: Elem)
    ensures Shr(b, 128) == 0
  {
    Powers();
    BitLengthBound(b, 128);
    BitLengthShr(b, 128);
  }

  /** Taking in one more bit of b while dividing once more by x. */
  lemma DotStep(a: Elem, b: nat, bit: nat, n: nat)
    requires bit < 2
    ensures XInv(n + 1) == GfMul(XInv(n), RIGHT_REDUCE)
    ensures GfMul(a, XInv(n + 1)) == GfMul(GfMul(a, XInv(n)), RIGHT_REDUCE)
    ensures GfMul(GfMul(a, 2 * b + bit), XInv(n + 1))
         == if bit == 1 then Add(GfMul(GfMul(a, b), XInv(n)), GfMul(a, XInv(n + 1)))
            else GfMul(GfMul(a, b), XInv(n))
  {
    hide GfMul, Double, Xor;
    var ab := GfMul(a, b);
    GfMulAssoc(a, XInv(n), RIGHT_REDUCE);
    assert (2 * b + bit) / 2 == b && (2 * b + bit) % 2 == bit;
    GfMulStep(a, 2 * b + bit);
    ResidueElem(a);
    XorComm(Times(a, bit), Double(ab));
    GfMulDistLeft(Double(ab), Times(a, bit), XInv(n + 1));
    DoubleThenShift(ab, n);
    GfMulUnit(XInv(n + 1));
    XorZero(GfMul(ab, XInv(n)));
  }

  lemma DoubleThenShift(v: Elem, n: nat)
    ensures GfMul(Double(v), XInv(n + 1)) == GfMul(v, XInv(n))
  {
    hide GfMul, Double;
    GfMulTwo(v);
    GfMulComm(XInv(n), RIGHT_REDUCE);
    GfMulSwap(v, 2, XInv(n), RIGHT_REDUCE);
    XTimesInverse();
    GfMulUnit(GfMul(v, XInv(n)));
  }

  method PolyvalShiftLeft4(val: Elem) returns (r: Elem)
    ensures r == DoubleN(val, 4) == GfMul(val, 16)
  {
    hide Double, GfMul, Power;
    FourDoublings(val);
    r := val;
    for i := 0 to 4
      invariant r == DoubleN(val, i)
    {
      r := Double(r);
    }
  }

  /** The computed reduction table: entry i is i * x^128 reduced. */
  method ReduceTable() returns (table: seq<Elem>)
    ensures |table| == 16
    ensures forall i :: 0 <= i < 16 ==> table[i] == Residue(Shl(i, 128))
  {
    hide Double, Add, Residue;
    var bitReduce: seq<Elem> := [0, 0, 0, 0];
    var r := LEFT_REDUCE;
    ResidueOfX128();
    for k := 0 to 4
      invariant |bitReduce| == 4 && r == Residue(Shl(1, 128 + k))
      invariant forall j :: 0 <= j < k ==> bitReduce[j] == Residue(Shl(1, 128 + j))
    {
      bitReduce := bitReduce[k := r];
      ResidueDouble(Shl(1, 128 + k));
      r := Double(r);
    }
    table := seq(16, _ => 0);
    for i := 0 to 16
      invariant |table| == 16
      invariant forall j :: 0 <= j < i ==> table[j] == Residue(Shl(j, 128))
    {
      var v: Elem := 0;
      ShlZero(128);
      ResidueElem(0);
      for bit := 0 to 4
        invariant v == Residue(Shl(LowBits(i, bit), 128))
      {
        ResidueNextBit(i, bit);
        if Shr(i, bit) % 2 == 1 {
          v := Add(v, bitReduce[bit]);
        }
      }
      LowBitsAll(i, 4);
      table := table[i := v];
    }
  }

  lemma ResidueNextBit(i: nat, k: nat)
    ensures Residue(Shl(LowBits(i, k + 1), 128))
         == if Shr(i, k) % 2 == 1 then Add(Residue(Shl(LowBits(i, k), 128)), Residue(Shl(1, 128 + k)))
            else Residue(Shl(LowBits(i, k), 128))
  {
    hide Residue, Add;
    var low, bit := LowBits(i, k), Shr(i, k) % 2;
    LowBitsNext(i, k);
    SplitAt(i, k);
    if bit == 0 {
      ShlZero(k);
    } else {
      XorDisjoint(k, 1, low);
      ShlXor(Shl(1, k), low, 128);
      ShlAdd(1, k, 128);
      ResidueLinear(Shl(Shl(1, k), 128), Shl(low, 128));
      AddComm(Residue(Shl(1, k + 128)), Residue(Shl(low, 128)));
    }
  }

  /** The nibble-combining shift: low 124 bits move up, the top nibble comes back reduced. */
  method PolyvalShiftLeft4SinglePass(val: Elem) returns (r: Elem)
    ensures r == DoubleN(val, 4)
  {
    hide Double, Residue, Xor;
    var reduceTable := ReduceTable();
    ShiftByNibble(val);
    var shifted := Shl(val, 4) % TWO128;
    var overflow := Shr(val, 124) % 16;
    r := Add(shifted, reduceTable[overflow]);
  }

  lemma ShiftByNibble(val: Elem)
    ensures Shr(val, 124) < 16
    ensures DoubleN(val, 4) == Add(Shl(val, 4) % TWO128, Residue(Shl(Shr(val, 124), 128)))
  {
    hide Double, Residue, Xor, Shl, Shr;
    var high, low := Shr(val, 124), Shl(LowBits(val, 124), 4);
    NibbleParts(val);
    Powers();
    XorDisjoint(128, high, low);
    ResidueLinear(Shl(high, 128), low);
    ResidueElem(low);
    DoubleNIsResidue(val, 4);
    AddComm(Residue(Shl(high, 128)), low);
  }

  lemma NibbleParts(val: Elem)
    ensures Shr(val, 124) < 16 && Shl(LowBits(val, 124), 4) < TWO128
    ensures Shl(val, 4) == Shl(Shr(val, 124), 128) + Shl(LowBits(val, 124), 4)
    ensures Shl(val, 4) % TWO128 == Shl(LowBits(val, 124), 4)
  {
    hide Shl, Shr, LowBits;
    var high, low := Shr(val, 124), LowBits(val, 124);
    SplitAt(val, 124);
    ShlSum(Shl(high, 124), low, 4);
    ShlAdd(high, 124, 4);
    TopNibble(val);
    LowPart(low);
    Powers();
    ShlScale(high, 128);
    DropHigh(high, Shl(low, 4));
  }

  lemma DropHigh(high: nat, low: Elem)
    ensures (high * TWO128 + low) % TWO128 == low
  {
  }

  lemma TopNibble(val: Elem)
    ensures Shr(val, 124) < 16
  {
    Powers();
    BitLengthBound(val, 128);
    BitLengthShr(val, 124);
    BitLengthBound(Shr(val, 124), 4);
  }

  lemma LowPart(low: nat)
    requires low < Shl(1, 124)
    ensures Shl(low, 4) < TWO128
  {
    Powers();
    ShlAdd(1, 124, 4);
    ShlMonotone(low, Shl(1, 124), 4);
  }
}
