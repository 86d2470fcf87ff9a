/** Byte strings and their little- and big-endian readings. */
module Bytes {
  import opened Bits
  import opened Field
  import opened ByteTypes

  /** int.from_bytes(b, "little") */
  function Le(b: bytes): nat
  {
    if b == [] then 0 else b[0] + 0x100 * Le(b[1..])
  }

  /** int.from_bytes(b, "big") */
  function Be(b: bytes): nat
  {
    if b == [] then 0 else 0x100 * Be(b[..|b| - 1]) + b[|b| - 1]
  }

  /** b[::-1] */
  function Reverse(b: bytes): (r: bytes)
    ensures |r| == |b|
  {
    if b == [] then [] else Reverse(b[1..]) + [b[0]]
  }

  /** The n low bytes of v, little-endian. */
  function LeBytes(v: nat, n: nat): (b: bytes)
    ensures |b| == n
    decreases n
  {
    if n == 0 then [] else [v % 0x100] + LeBytes(v / 0x100, n - 1)
  }

  lemma {:induction false} LeBound(b: bytes)
    ensures Le(b) < Shl(1, 8 * |b|)
  {
    if b == [] {
    } else {
      LeBound(b[1..]);
      ByteShift(8 * |b| - 8);
    }
  }

  lemma ByteShift(k: nat)
    ensures Shl(1, k + 8) == 0x100 * Shl(1, k)
  {
    PowerProduct(k, 8);
    assert Shl(1, 8) == 0x100;
  }

  lemma {:induction false} LeBytesOfLe(b: bytes)
    ensures LeBytes(Le(b), |b|) == b
  {
    hide LeBytes;
    if b == [] {
      assert LeBytes(Le(b), |b|) == [];
    } else {
      LeBytesOfLe(b[1..]);
      LowByteOf(b[0], Le(b[1..]));
      LeBytesStep(Le(b), |b|);
    }
  }

  lemma LowByteOf(n: byte, r: nat)
    ensures (n + 0x100 * r) % 0x100 == n && (n + 0x100 * r) / 0x100 == r
  {
  }

  lemma LeBytesStep(v: nat, n: nat)
    requires n > 0
    ensures LeBytes(v, n) == [v % 0x100] + LeBytes(v / 0x100, n - 1)
  {
  }

  lemma LeCons(c: byte, b: bytes)
    ensures Le([c] + b) == c + 0x100 * Le(b)
  {
    assert ([c] + b)[1..] == b;
  }

  lemma {:induction false} LeOfLeBytes(v: nat, n: nat)
    requires v < Shl(1, 8 * n)
    ensures Le(LeBytes(v, n)) == v
    decreases n
  {
    if n == 0 {
    } else {
      ByteShift(8 * n - 8);
      LeOfLeBytes(v / 0x100, n - 1);
      LeCons(v % 0x100, LeBytes(v / 0x100, n - 1));
    }
  }

  lemma {:induction false} BeOfReverse(b: bytes)
    ensures Be(Reverse(b)) == Le(b)
  {
    if b == [] {
    } else {
      BeOfReverse(b[1..]);
      var r := Reverse(b);
      assert r[..|r| - 1] == Reverse(b[1..]);
    }
  }

  lemma {:induction false} ReverseReverse(b: bytes)
    ensures Reverse(Reverse(b)) == b
  {
    if b == [] {
    } else {
      ReverseReverse(b[1..]);
      ReverseAppend(Reverse(b[1..]), b[0]);
    }
  }

  lemma {:induction false} ReverseAppend(b: bytes, c: byte)
    ensures Reverse(b + [c]) == [c] + Reverse(b)
  {
    if b == [] {
      assert [c] == [c] + [];
    } else {
      ReverseAppend(b[1..], c);
      assert (b + [c])[1..] == b[1..] + [c];
    }
  }

  /** Byte i of the string is bits 8i to 8i + 7 of the number. */
  lemma {:induction false} LeAt(b: bytes, i: nat)
    requires i < |b|
    ensures Shr(Le(b), 8 * i) % 0x100 == b[i]
  {
    LowByteOf(b[0], Le(b[1..]));
    if i == 0 {
    } else {
      hide Shr;
      LeAt(b[1..], i - 1);
      ShrByteOff(Le(b), i);
    }
  }

  lemma {:induction false} LeBytesAt(v: nat, n: nat, i: nat)
    requires i < n
    ensures LeBytes(v, n)[i] == Shr(v, 8 * i) % 0x100
    decreases n
  {
    LeBytesStep(v, n);
    if i == 0 {
    } else {
      hide Shr, LeBytes;
      LeBytesAt(v / 0x100, n - 1, i - 1);
      ShrByteOff(v, i);
    }
  }

  lemma ShrByteOff(v: nat, i: nat)
    requires i > 0
    ensures Shr(v, 8 * i) == Shr(v / 0x100, 8 * (i - 1))
  {
    hide Shr;
    ShrAdd(v, 8, 8 * (i - 1));
    ShrEight(v);
  }

  lemma ShrEight(v: nat)
    ensures Shr(v, 8) == v / 0x100
  {
    SplitAt(v, 8);
    ShlScale(Shr(v, 8), 8);
    assert Shl(1, 8) == 0x100;
  }

  lemma {:induction false} ReverseAt(b: bytes, k: nat)
    requires k < |b|
    ensures Reverse(b)[k] == b[|b| - 1 - k]
  {
    if k == |b| - 1 {
    } else {
      ReverseAt(b[1..], k);
    }
  }

  lemma {:induction false} LeBytesZero(n: nat)
    ensures LeBytes(0, n) == Zeros(n)
  {
    if n == 0 {
    } else {
      LeBytesZero(n - 1);
      assert Zeros(n) == [0] + Zeros(n - 1);
    }
  }

  /** A 16-byte string as a field element. */
  function ToElem(b: Block): Elem
  {
    LeBound(b);
    Powers();
    Le(b)
  }

  /** A field element as a 16-byte string. */
  function FromElem(v: Elem): Block
  {
    LeBytes(v, 16)
  }

  lemma BlockRoundTrip(b: Block)
    ensures FromElem(ToElem(b)) == b
  {
    LeBytesOfLe(b);
  }

  lemma ElemRoundTrip(v: Elem)
    ensures ToElem(FromElem(v)) == v
  {
    Powers();
    LeOfLeBytes(v, 16);
  }
}
