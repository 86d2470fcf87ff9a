/** Field operations on 16-byte little-endian strings, as the 6502 performs them. */
module PolyvalBytes {
  import opened Bits
  import opened Field
  import opened ByteTypes
  import opened Bytes

  /** Bytewise exclusive or. */
  function EorBytes(a: bytes, b: bytes): (r: bytes)
    requires |a| == |b|
    ensures |r| == |a|
  {
    seq(|a|, i requires 0 <= i < |a| => Eor(a[i], b[i]))
  }

  lemma {:induction false} LeEor(a: bytes, b: bytes)
    requires |a| == |b|
    ensures Le(EorBytes(a, b)) == Xor(Le(a), Le(b))
  {
    hide Xor, Eor;
    if a == [] {
      XorZero(0);
    } else {
      LeEor(a[1..], b[1..]);
      assert EorBytes(a, b)[1..] == EorBytes(a[1..], b[1..]);
      XorLowByte(Le(a[1..]), a[0], Le(b[1..]), b[0]);
    }
  }

  lemma XorLowByte(h: nat, l: byte, h': nat, l': byte)
    ensures Xor(l + 0x100 * h, l' + 0x100 * h') == Eor(l, l') + 0x100 * Xor(h, h')
  {
    hide Xor, Shl;
    EightBits();
    ShlScale(h, 8);
    ShlScale(h', 8);
    ShlScale(Xor(h, h'), 8);
    XorSplit(8, h, l, h', l');
  }

  lemma EorElems(a: Block, b: Block)
    ensures ToElem(EorBytes(a, b)) == Add(ToElem(a), ToElem(b))
  {
    LeEor(a, b);
  }

  lemma {:induction false} LeSnoc(b: bytes, v: byte)
    ensures Le(b + [v]) == Le(b) + Shl(v, 8 * |b|)
  {
    if b == [] {
      assert Le([v]) == v + 0x100 * Le([]);
    } else {
      LeSnoc(b[1..], v);
      assert (b + [v])[1..] == b[1..] + [v];
      ShlAdd(v, 8 * |b| - 8, 8);
      ShlScale(Shl(v, 8 * |b| - 8), 8);
      assert Shl(1, 8) == 0x100;
    }
  }

  lemma {:induction false} LeZeros(n: nat)
    ensures Le(Zeros(n)) == 0
  {
    if n == 0 {
    } else {
      LeZeros(n - 1);
      assert Zeros(n)[1..] == Zeros(n - 1);
    }
  }

  /** A block that is zero except for its first and its last byte. */
  function Ends(low: byte, high: byte): Block
  {
    Zeros(16)[0 := low][15 := high]
  }

  lemma EndsValue(low: byte, high: byte)
    ensures Le(Ends(low, high)) == low + Shl(high, 120)
  {
    LeZeros(14);
    LeCons(low, Zeros(14));
    LeSnoc([low] + Zeros(14), high);
    assert Ends(low, high) == [low] + Zeros(14) + [high];
  }

  /** The two reduction constants as byte strings. */
  lemma ReductionBytes()
    ensures Le(Ends(1, 0xC2)) == LEFT_REDUCE && Le(Ends(0, 0xE1)) == RIGHT_REDUCE
  {
    hide Le, Ends;
    EndsValue(1, 0xC2);
    EndsValue(0, 0xE1);
    TopByte(0xC2);
    TopByte(0xE1);
  }

  lemma EorEnds(a: Block, low: byte, high: byte)
    ensures EorBytes(a, Ends(low, high)) == a[0 := Eor(a[0], low)][15 := Eor(a[15], high)]
  {
    hide Eor;
    forall i | 0 <= i < 16
      ensures Eor(a[i], 0) == a[i]
    {
      EorZero(a[i]);
    }
  }

  lemma EorZero(b: byte)
    ensures Eor(b, 0) == b
  {
    XorZero(b);
  }

  /** One rol: the byte moves up, the carry comes in below and the top bit goes out. */
  function Rol(v: byte, carry: nat): byte
  {
    (2 * v + carry) % 0x100
  }

  lemma RolByte(v: byte, carry: nat)
    requires carry < 2
    ensures Rol(v, carry) + 0x100 * (v / 0x80) == 2 * v + carry
  {
    if v < 0x80 {
      SmallQuotient(v, 0);
    } else {
      SmallQuotient(v - 0x80, 1);
    }
  }

  lemma SmallQuotient(r: nat, q: nat)
    requires r < 0x80
    ensures (r + 0x80 * q) / 0x80 == q
  {
  }

  lemma EightBits()
    ensures Shl(1, 8) == 0x100
  {
  }

  /** One more byte of a rotation that has reached position n. */
  lemma RolStep(v: byte, carry: nat, n: nat)
    requires carry < 2
    ensures Shl(Rol(v, carry), n) + Shl(v / 0x80, n + 8) == 2 * Shl(v, n) + Shl(carry, n)
  {
    hide Shl, Rol;
    var top := v / 0x80;
    RolByte(v, carry);
    ShlAdd(top, 8, n);
    ShlScale(top, 8);
    EightBits();
    ShlSum(Rol(v, carry), 0x100 * top, n);
    ShlSum(2 * v, carry, n);
    ShlDouble(v, n);
  }

  /** One ror: the byte moves down, the carry comes in on top and the low bit goes out. */
  function Ror(v: byte, carry: nat): byte
    requires carry < 2
  {
    v / 2 + 0x80 * carry
  }

  /** One more byte of a rotation to the right whose upper bytes have become the number done. */
  lemma RorStep(v: byte, carry: nat, done: nat)
    requires carry < 2
    ensures 2 * (Ror(v, carry) + 0x100 * done) + v % 2 == v + 0x100 * (2 * done + carry)
  {
  }
}
