/** The GHASH relation of RFC 8452 Appendix A. */
module Ghash {
  import opened Bits
  import opened Field
  import opened Multiplication
  import opened XPowers
  import opened ByteTypes
  import opened Bytes
  import opened ReferenceField
  import opened Hash

  /** The GHASH product over the n leading bits of b: bit 127 - i of b selects a shifted right i times. */
  function GhashSum(a: Elem, b: Elem, n: nat): Elem
    requires n <= 128
  {
    if n == 0 then 0
    else if Shr(b, 128 - n) % 2 == 1 then Add(GhashSum(a, b, n - 1), RightShiftN(a, n - 1))
    else GhashSum(a, b, n - 1)
  }

  function GhashProduct(a: Elem, b: Elem): Elem
  {
    GhashSum(a, b, 128)
  }

  /** One reduced right shift separates the GHASH product from the POLYVAL product. */
  lemma {:induction false} GhashSumIsShiftedDot(a: Elem, b: Elem, n: nat)
    requires n <= 128
    ensures GhashSum(a, b, n) == Double(GfMul(GfMul(a, Shr(b, 128 - n)), XInv(n)))
  {
    hide GfMul, Double, Add;
    if n == 0 {
      NoBitsAbove(b);
      GfMulUnit(a);
      GfMulUnit(XInv(0));
      DoubleCases(0);
    } else {
      GhashSumIsShiftedDot(a, b, n - 1);
      var high := Shr(b, 128 - (n - 1));
      DotStep(a, high, Shr(b, 128 - n) % 2, n - 1);
      DoubleLinear(GfMul(GfMul(a, high), XInv(n - 1)), GfMul(a, XInv(n)));
      RightShiftNIsMul(a, n);
      DoubleRightShift(RightShiftN(a, n - 1));
    }
  }

  lemma GhashProductIsDoubledDot(a: Elem, b: Elem)
    ensures GhashProduct(a, b) == Double(Dot(a, b))
  {
    hide GfMul, Double;
    GhashSumIsShiftedDot(a, b, 128);
  }

  /** With the key divided by x once (mulX_GHASH on the reversed bits), the products coincide. */
  lemma GhashWithShiftedKey(a: Elem, h: Elem)
    ensures GhashProduct(a, RightShift(h)) == Dot(a, h)
  {
    hide GfMul, Double, RightShift;
    var r := RightShift(h);
    GhashProductIsDoubledDot(a, r);
    GfMulDouble(GfMul(a, r), XInv(128));
    GfMulComm(a, r);
    GfMulDouble(r, a);
    DoubleRightShift(h);
    GfMulComm(h, a);
  }

  method GhashMul(a: Elem, b: Elem) returns (z: Elem)
    ensures z == GhashProduct(a, b)
  {
    hide Add, RightShift;
    var v := a;
    z := 0;
    for i := 0 to 128
      invariant z == GhashSum(a, b, i)
      invariant v == RightShiftN(a, i)
    {
      if Shr(b, 127 - i) % 2 == 1 {
        z := Add(z, v);
      }
      v := PolyvalRightShift1(v);
    }
  }

  /** A byte-reversed block read big-endian is the block read little-endian. */
  function FromReversed(b: Block): (v: Elem)
    ensures v == ToElem(b)
  {
    BeOfReverse(b);
    assert Be(Reverse(b)) == ToElem(b);
    Be(Reverse(b))
  }

  /** v.to_bytes(16, "big")[::-1] */
  function ToReversed(v: Elem): (b: Block)
    ensures b == FromElem(v)
  {
    ReverseReverse(FromElem(v));
    Reverse(BeBytes(v))
  }

  /** v.to_bytes(16, "big") */
  function BeBytes(v: Elem): Block
  {
    Reverse(FromElem(v))
  }

  /** Appendix A for every key and every list of blocks: GHASH with the key mulX_GHASH(byteswap(H))
      over byte-swapped blocks, byte-swapped back, is POLYVAL. */
  method GhashRelation(h: Block, blocks: seq<Block>) returns (r: Block)
    ensures r == HashBlocks(h, blocks)
  {
    hide Dot, Add, RightShift;
    var hg := PolyvalRightShift1(FromReversed(h));
    var s: Elem := 0;
    ghost var xs := ToElems(blocks);
    for n := 0 to |blocks|
      invariant s == Polyval(ToElem(h), xs[..n])
    {
      assert xs[..n + 1] == xs[..n] + [xs[n]];
      PolyvalSnoc(ToElem(h), xs[..n], xs[n]);
      GhashWithShiftedKey(Add(s, xs[n]), ToElem(h));
      s := GhashMul(Add(s, FromReversed(blocks[n])), hg);
    }
    assert xs[..|blocks|] == xs;
    r := ToReversed(s);
  }
}
