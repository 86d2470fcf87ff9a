/** The 16-entry nibble table and the Horner multiplication that reads it. */
module NibbleTable {
  import opened Bits
  import opened Polynomials
  import opened Field
  import opened Multiplication
  import opened XPowers
  import opened ReferenceField

  /** Entry i is the multiplier times the polynomial whose bits are those of i. */
  ghost predicate IsTableOf(table: seq<Elem>, multiplier: Elem)
  {
    |table| == 16 && forall i :: 0 <= i < 16 ==> table[i] == GfMul(multiplier, i)
  }

  /** The table is linear in its index. */
  lemma TableIsLinear(table: seq<Elem>, multiplier: Elem, i: nat, j: nat)
    requires IsTableOf(table, multiplier) && i < 16 && j < 16
    ensures Xor(i, j) < 16 && table[Xor(i, j)] == Add(table[i], table[j])
  {
    hide GfMul, Add;
    assert Shl(1, 4) == 16;
    XorBound(i, j, 4);
    GfMulDistRight(multiplier, i, j);
  }

  lemma NextEntries(m: Elem, k: nat)
    ensures GfMul(m, 2 * k) == Double(GfMul(m, k))
    ensures GfMul(m, 2 * k + 1) == Add(GfMul(m, 2 * k), m)
  {
    hide GfMul, Double, Xor;
    assert (2 * k) / 2 == k && (2 * k + 1) / 2 == k;
    GfMulStep(m, 2 * k);
    GfMulStep(m, 2 * k + 1);
    ResidueElem(m);
    GfMulUnit(m);
    ResidueElem(0);
    AddComm(m, Double(GfMul(m, k)));
    XorZero(Double(GfMul(m, k)));
  }

  /** Builds the table from H by 128 reduced right shifts and then doubling. */
  method PolyvalPrecomputeTable(h: Elem) returns (htable: seq<Elem>)
    ensures IsTableOf(htable, Prime(h))
  {
    hide GfMul, Double, Add;
    var hPrime := h;
    for n := 0 to 128
      invariant hPrime == RightShiftN(h, n)
    {
      hPrime := PolyvalRightShift1(hPrime);
    }
    RightShiftNIsMul(h, 128);
    htable := seq(16, _ => 0);
    GfMulUnit(hPrime);
    NextEntries(hPrime, 1);
    htable := htable[1 := hPrime];
    htable := htable[2 := Double(hPrime)];
    for i := 3 to 16
      invariant |htable| == 16
      invariant forall j :: 0 <= j < i ==> htable[j] == GfMul(hPrime, j)
    {
      NextEntries(hPrime, i / 2);
      if i % 2 == 0 {
        htable := htable[i := Double(htable[i / 2])];
      } else {
        htable := htable[i := Add(htable[i - 1], htable[1])];
      }
    }
  }

  /** Horner evaluation over the n low nibbles of acc, top nibble first, with any table. */
  function Horner(acc: nat, n: nat, table: seq<Elem>): Elem
    requires |table| == 16
    decreases n
  {
    if n == 0 then 0 else Add(DoubleN(Horner(Shr(acc, 4), n - 1, table), 4), table[acc % 16])
  }

  /** With the table of m, the Horner sum is the product by m. */
  lemma {:induction false} HornerIsMul(acc: nat, n: nat, table: seq<Elem>, m: Elem)
    requires IsTableOf(table, m) && acc < Shl(1, 4 * n)
    ensures Horner(acc, n, table) == GfMul(acc, m)
    decreases n
  {
    hide GfMul, DoubleN, Add, Shr;
    if n == 0 {
      GfMulUnit(m);
    } else {
      NibbleOff(acc, n);
      HornerIsMul(Shr(acc, 4), n - 1, table, m);
      MulByNibble(acc, m);
    }
  }

  lemma NibbleOff(acc: nat, n: nat)
    requires n > 0 && acc < Shl(1, 4 * n)
    ensures Shr(acc, 4) < Shl(1, 4 * (n - 1))
    ensures acc == 16 * Shr(acc, 4) + acc % 16
  {
    BitLengthBound(acc, 4 * n);
    BitLengthShr(acc, 4);
    BitLengthBound(Shr(acc, 4), 4 * (n - 1));
    ShrFour(acc);
  }

  lemma ShrFour(a: nat)
    ensures Shr(a, 4) == a / 16
  {
    assert Shr(a, 1) == a / 2;
    assert Shr(a, 2) == a / 4;
    assert Shr(a, 3) == Shr(a, 2) / 2;
  }

  lemma MulByNibble(acc: nat, m: Elem)
    ensures GfMul(acc, m) == Add(DoubleN(GfMul(Shr(acc, 4), m), 4), GfMul(m, acc % 16))
  {
    hide GfMul, DoubleN, Xor;
    var high, low := Shr(acc, 4), acc % 16;
    ShrFour(acc);
    assert Shl(1, 4) == 16;
    ShlScale(high, 4);
    XorDisjoint(4, high, low);
    GfMulDistLeft(Shl(high, 4), low, m);
    GfMulComm(low, m);
    ShiftedProduct(high, 4, m);
  }

  /** (a << k) * m is k doublings of a * m. */
  lemma {:induction false} ShiftedProduct(a: nat, k: nat, m: Elem)
    ensures GfMul(Shl(a, k), m) == DoubleN(GfMul(a, m), k)
  {
    hide Double;
    if k == 0 {
    } else {
      ShiftedProduct(a, k - 1, m);
      ClmulDoubleLeft(Shl(a, k - 1), m);
      ResidueDouble(Clmul(Shl(a, k - 1), m));
    }
  }

  /** Bytes from the top down, each as two nibbles: the C64 multiplication algorithm. */
  method PolyvalMultiplyTable(acc: Elem, htable: seq<Elem>) returns (result: Elem)
    requires |htable| == 16
    ensures result == Horner(acc, 32, htable)
    ensures forall h :: IsTableOf(htable, Prime(h)) ==> result == Dot(acc, h)
  {
    hide GfMul, DoubleN, Add, Shl;
    result := 0;
    NoBitsAbove(acc);
    var byteIdx := 15;
    while byteIdx > -1
      invariant -1 <= byteIdx <= 15
      invariant result == Horner(Shr(acc, 8 * (byteIdx + 1)), 2 * (15 - byteIdx), htable)
    {
      var byteVal := Shr(acc, byteIdx * 8) % 0x100;
      ByteNibbles(acc, 8 * byteIdx);
      var highNibble, lowNibble := Shr(byteVal, 4), byteVal % 0x10;
      result := PolyvalShiftLeft4(result);
      result := Add(result, htable[highNibble]);
      result := PolyvalShiftLeft4(result);
      result := Add(result, htable[lowNibble]);
      byteIdx := byteIdx - 1;
    }
    forall h | IsTableOf(htable, Prime(h))
      ensures result == Dot(acc, h)
    {
      Powers();
      HornerIsMul(acc, 32, htable, Prime(h));
      DotIsMulByPrime(acc, h);
    }
  }

  lemma ByteNibbles(acc: nat, k: nat)
    ensures Shr(acc, k + 8) == Shr(Shr(Shr(acc, k), 4), 4)
    ensures Shr(Shr(acc, k) % 0x100, 4) == Shr(Shr(acc, k), 4) % 16 < 16
    ensures Shr(acc, k) % 0x100 % 0x10 == Shr(acc, k) % 16
  {
    hide Shr;
    var v := Shr(acc, k);
    ShrAdd(acc, k, 8);
    ShrAdd(v, 4, 4);
    ShrFour(v % 0x100);
    ShrFour(v);
    HexDigits(v);
  }

  lemma HexDigits(v: nat)
    ensures v % 0x100 / 16 == v / 16 % 16 && v % 0x100 % 16 == v % 16
  {
    var q, a, b := v / 0x100, v % 0x100 / 16, v % 0x100 % 16;
    assert v == 16 * (16 * q + a) + b;
    assert v / 16 == 16 * q + a;
  }

  /** Precomputation followed by the nibble loop is the POLYVAL product, for all operands. */
  method PrecomputeThenMultiply(acc: Elem, h: Elem) returns (viaTable: Elem, viaBits: Elem)
    ensures viaTable == viaBits == Dot(acc, h)
  {
    var htable := PolyvalPrecomputeTable(h);
    viaTable := PolyvalMultiplyTable(acc, htable);
    viaBits := PolyvalDot(acc, h);
  }
}
