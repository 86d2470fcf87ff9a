/** The multiplicative group of GF(2^8): 3 has order 255, so its powers are all the nonzero bytes. */
module Generator {
  import opened ByteTypes
  import opened Gf256
  import opened ByteWords
  import opened Aes
  import opened Tables

  const THIRD: byte := 0xF6

  function Pow(g: byte, n: nat): byte
  {
    if n == 0 then 1 else Mul(Pow(g, n - 1), g)
  }

  lemma MulUnit(a: byte)
    ensures Mul(a, 1) == a && Mul(1, a) == a && Mul(a, 0) == 0 && Mul(0, a) == 0
  {
    MulOne(a);
    MulFromOne(a);
    MulComm(0, a);
  }

  lemma {:induction false} PowAdd(g: byte, m: nat, n: nat)
    ensures Pow(g, m + n) == Mul(Pow(g, m), Pow(g, n))
  {
    hide Mul;
    if n == 0 {
      MulUnit(Pow(g, m));
    } else {
      PowAdd(g, m, n - 1);
      MulAssoc(Pow(g, m), Pow(g, n - 1), g);
    }
  }

  lemma {:induction false} PowMultiple(g: byte, e: nat, m: nat)
    requires Pow(g, e) == 1
    ensures Pow(g, e * m) == 1
    decreases m
  {
    hide Mul;
    if m == 0 {
      assert e * m == 0;
    } else {
      PowMultiple(g, e, m - 1);
      assert e * m == e * (m - 1) + e;
      PowAdd(g, e * (m - 1), e);
      MulUnit(1);
    }
  }

  /** Powers of inverse elements are inverse. */
  lemma {:induction false} PowInverse(g: byte, h: byte, n: nat)
    requires Mul(g, h) == 1
    ensures Mul(Pow(g, n), Pow(h, n)) == 1
  {
    hide Mul;
    if n == 0 {
      MulUnit(1);
    } else {
      var p, q := Pow(g, n - 1), Pow(h, n - 1);
      PowInverse(g, h, n - 1);
      MulComm(q, h);
      MulAssoc(p, g, Mul(h, q));
      MulAssoc(g, h, q);
      MulUnit(q);
    }
  }

  /** Inverses are unique. */
  lemma SameInverse(a: byte, b: byte, c: byte)
    requires Mul(a, b) == 1 && Mul(a, c) == 1
    ensures b == c
  {
    hide Mul;
    MulComm(a, b);
    MulAssoc(b, a, c);
    MulUnit(b);
    MulUnit(c);
  }

  lemma SmallProducts()
    ensures Mul(3, 3) == 5 && Mul(5, 5) == 0x11 && Mul(0x11, 3) == 0x33
  {
    hide Mul;
    ConstantProduct(0x03, 0x03);
    ConstantProduct(0x05, 0x05);
    ConstantProduct(0x11, 0x03);
  }

  lemma MiddleProducts()
    ensures Mul(0x33, 0x33) == 0x72 && Mul(0x72, 0x33) == 0x35
  {
    hide Mul;
    ConstantProduct(0x33, 0x33);
    ConstantProduct(0x72, 0x33);
  }

  lemma LargeProducts()
    ensures Mul(0x35, 5) == 0xE1 && Mul(0xE1, 0xE1) == 0x5C && Mul(0x5C, 0xE1) == 0x0C
  {
    hide Mul;
    ConstantProduct(0x35, 0x05);
    ConstantProduct(0xE1, 0xE1);
    ConstantProduct(0x5C, 0xE1);
  }

  lemma LastProducts()
    ensures Mul(0x0C, 0x5C) == 0xBD && Mul(0xBD, 0xBD) == 0xBC && Mul(0xBC, 0xBD) == 1
  {
    hide Mul;
    ConstantProduct(0x0C, 0x5C);
    ConstantProduct(0xBD, 0xBD);
    ConstantProduct(0xBC, 0xBD);
  }

  lemma LowPowers(g: byte)
    requires g == 3
    ensures Pow(g, 2) == 5 && Pow(g, 5) == 0x33 && Pow(g, 15) == 0x35
  {
    hide Mul;
    assert Pow(g, 1) == Mul(Pow(g, 0), g);
    MulUnit(g);
    SmallProducts();
    MiddleProducts();
    hide Pow;
    PowAdd(g, 1, 1);
    PowAdd(g, 2, 2);
    PowAdd(g, 4, 1);
    PowAdd(g, 5, 5);
    PowAdd(g, 10, 5);
  }

  lemma HighPowers(g: byte)
    requires g == 3
    ensures Pow(g, 51) == 0x0C && Pow(g, 85) == 0xBD && Pow(g, 255) == 1
  {
    hide Mul, Pow;
    LowPowers(g);
    LargeProducts();
    LastProducts();
    PowAdd(g, 15, 2);
    PowAdd(g, 17, 17);
    PowAdd(g, 34, 17);
    PowAdd(g, 51, 34);
    PowAdd(g, 85, 85);
    PowAdd(g, 170, 85);
  }

  /** A proper divisor of 255 divides 15, 51 or 85. */
  lemma ProperDivisors(e: nat, m: nat)
    requires e * m == 255 && e < 255
    ensures (exists k :: e * k == 15) || (exists k :: e * k == 51) || (exists k :: e * k == 85)
  {
    if e <= 15 {
      SmallDivisors(e, m);
      assert e * (15 / e) == 15;
    } else {
      assert m <= 15 by {
        if m > 15 {
          Products(e, m);
        }
      }
      SmallDivisors(m, e);
      assert m != 1;
      if m == 3 {
        assert e * 1 == 85;
      } else if m == 5 {
        assert e * 1 == 51;
      } else {
        assert e * 3 == 51;
      }
    }
  }

  lemma Products(e: nat, m: nat)
    requires e >= 16 && m >= 16
    ensures e * m >= 256
  {
    assert e * m >= 16 * m;
  }

  lemma SmallDivisors(e: nat, m: nat)
    requires e * m == 255 && e <= 15
    ensures e == 1 || e == 3 || e == 5 || e == 15
  {
  }

  /** The first exponent that returns to 1 would divide 255. */
  lemma NotFirst(g: byte, e: nat)
    requires g == 3 && 0 < e < 255 && forall j :: 0 < j < e ==> Pow(g, j) != 1
    ensures Pow(g, e) != 1
  {
    hide Mul, Pow;
    if Pow(g, e) == 1 {
      LowPowers(g);
      HighPowers(g);
      var m, r := 255 / e, 255 % e;
      PowMultiple(g, e, m);
      PowAdd(g, e * m, r);
      MulUnit(Pow(g, r));
      assert r == 0;
      ProperDivisors(e, m);
      var k, n :| e * k == n && (n == 15 || n == 51 || n == 85);
      PowMultiple(g, e, k);
    }
  }

  lemma {:induction false} OrderOfThree(g: byte, n: nat)
    requires g == 3 && n <= 255
    ensures forall j :: 0 < j < n ==> Pow(g, j) != 1
  {
    hide Mul, Pow;
    if n <= 1 {
    } else {
      OrderOfThree(g, n - 1);
      NotFirst(g, n - 1);
    }
  }

  ghost function PowersOfThree(g: byte): SBox
  {
    seq(0x100, i requires 0 <= i < 0x100 => if i == 0 then 0 else Pow(g, i))
  }

  lemma ThreeThirds()
    ensures Mul(3, THIRD) == 1
  {
    hide Mul;
    ConstantProduct(0x03, 0xF6);
  }

  lemma PowNonzero(g: byte, i: nat)
    requires g == 3
    ensures Mul(g, THIRD) == 1 && Mul(Pow(g, i), Pow(THIRD, i)) == 1 && Pow(g, i) != 0
  {
    hide Mul, Pow;
    ThreeThirds();
    PowInverse(g, THIRD, i);
    MulUnit(Pow(THIRD, i));
  }

  lemma PowersDiffer(g: byte, i: nat, j: nat)
    requires g == 3 && i < j < i + 255
    ensures Pow(g, i) != Pow(g, j)
  {
    hide Mul, Pow;
    PowAdd(g, i, j - i);
    PowNonzero(g, i);
    OrderOfThree(g, 255);
    if Pow(g, i) == Pow(g, j) {
      var p, q, d := Pow(g, i), Pow(THIRD, i), Pow(g, j - i);
      MulComm(p, q);
      MulAssoc(q, p, d);
      MulUnit(d);
    }
  }

  lemma PowersInjective(g: byte)
    requires g == 3
    ensures Injective(PowersOfThree(g))
  {
    hide Pow;
    forall i: byte, j: byte | i != j
      ensures PowersOfThree(g)[i] != PowersOfThree(g)[j]
    {
      PowNonzero(g, i);
      PowNonzero(g, j);
      if 0 < i < j {
        PowersDiffer(g, i, j);
      } else if 0 < j < i {
        PowersDiffer(g, j, i);
      }
    }
  }

  /** Every nonzero byte is a power of 3. */
  lemma ThreeGenerates(g: byte, b: byte) returns (j: nat)
    requires g == 3 && b != 0
    ensures 1 <= j <= 255 && Pow(g, j) == b
  {
    hide Pow;
    PowersInjective(g);
    Onto(PowersOfThree(g), b);
    var i: byte :| PowersOfThree(g)[i] == b;
    j := i;
  }

  /** The multiplicative inverse, with 0 mapped to itself. */
  ghost function Inv(b: byte): (q: byte)
    ensures if b == 0 then q == 0 else Mul(b, q) == 1
  {
    if b == 0 then 0
    else
      Invertible(b);
      var q: byte :| Mul(b, q) == 1;
      q
  }

  lemma Invertible(b: byte)
    requires b != 0
    ensures exists q: byte :: Mul(b, q) == 1
  {
    hide Mul, Pow;
    var j := ThreeGenerates(3, b);
    PowNonzero(3, j);
  }
}
