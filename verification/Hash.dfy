/** POLYVAL over messages, RFC 8452 section 3. */
module Hash {
  import opened Bits
  import opened Polynomials
  import opened Field
  import opened Multiplication
  import opened XPowers
  import opened ByteTypes
  import opened Outcomes
  import opened Bytes
  import opened ReferenceField
  import opened OracleField

  /** S_0 = 0, S_i = dot(S_{i-1} ^ X_i, H) */
  function Polyval(h: Elem, xs: seq<Elem>): Elem
  {
    if xs == [] then 0 else Dot(Add(Polyval(h, xs[..|xs| - 1]), xs[|xs| - 1]), h)
  }

  /** The closed form: X_1 * H'^n ^ X_2 * H'^(n-1) ^ ... ^ X_n * H' */
  function PowerSum(hPrime: Elem, xs: seq<Elem>): Elem
  {
    if xs == [] then 0 else Add(GfMul(xs[0], Power(hPrime, |xs|)), PowerSum(hPrime, xs[1..]))
  }

  function AddAll(xs: seq<Elem>, ys: seq<Elem>): (zs: seq<Elem>)
    requires |xs| == |ys|
    ensures |zs| == |xs|
    ensures forall i :: 0 <= i < |zs| ==> zs[i] == Add(xs[i], ys[i])
  {
    seq(|xs|, i requires 0 <= i < |xs| => Add(xs[i], ys[i]))
  }

  lemma PolyvalSnoc(h: Elem, xs: seq<Elem>, x: Elem)
    ensures Polyval(h, xs + [x]) == Dot(Add(Polyval(h, xs), x), h)
  {
    hide Dot, Add;
    assert (xs + [x])[..|xs|] == xs;
  }

  lemma {:induction false} PolyvalConcat(h: Elem, xs: seq<Elem>, ys: seq<Elem>)
    ensures Polyval(h, xs + ys)
         == Add(GfMul(Polyval(h, xs), Power(Prime(h), |ys|)), Polyval(h, ys))
    decreases |ys|
  {
    hide GfMul, Dot, Prime, Add;
    var p := Polyval(h, xs);
    if ys == [] {
      assert xs + ys == xs;
      GfMulUnit(p);
      AddZero(p);
    } else {
      var init, last := ys[..|ys| - 1], ys[|ys| - 1];
      PolyvalConcat(h, xs, init);
      assert ys == init + [last];
      assert xs + ys == (xs + init) + [last];
      PolyvalSnoc(h, xs + init, last);
      PolyvalSnoc(h, init, last);
      AbsorbLast(GfMul(p, Power(Prime(h), |init|)), Polyval(h, init), last, h);
      GfMulAssoc(p, Power(Prime(h), |init|), Prime(h));
    }
  }

  lemma AddZero(a: Elem)
    ensures Add(a, 0) == a && Add(0, a) == a
  {
    XorZero(a);
  }

  lemma AbsorbLast(a: Elem, b: Elem, x: Elem, h: Elem)
    ensures Dot(Add(Add(a, b), x), h) == Add(GfMul(a, Prime(h)), Dot(Add(b, x), h))
  {
    hide GfMul, Dot, Prime;
    XorAssoc(a, b, x);
    DotIsMulByPrime(Add(Add(a, b), x), h);
    DotIsMulByPrime(Add(b, x), h);
    GfMulDistLeft(a, Add(b, x), Prime(h));
  }

  lemma {:induction false} PolyvalIsPowerSum(h: Elem, xs: seq<Elem>)
    ensures Polyval(h, xs) == PowerSum(Prime(h), xs)
  {
    hide GfMul, Dot, Prime, Add;
    if xs == [] {
    } else {
      var first, rest := xs[..1], xs[1..];
      assert xs == first + rest;
      PolyvalConcat(h, first, rest);
      PolyvalIsPowerSum(h, rest);
      assert first == [] + [xs[0]];
      PolyvalSnoc(h, [], xs[0]);
      AddZero(xs[0]);
      DotIsMulByPrime(xs[0], h);
      PowerAdd(Prime(h), 1, |rest|);
      GfMulUnit(Prime(h));
      GfMulAssoc(xs[0], Prime(h), Power(Prime(h), |rest|));
      assert Power(Prime(h), 1) == GfMul(Power(Prime(h), 0), Prime(h));
    }
  }

  lemma {:induction false} PolyvalLinear(h: Elem, xs: seq<Elem>, ys: seq<Elem>)
    requires |xs| == |ys|
    ensures Polyval(h, AddAll(xs, ys)) == Add(Polyval(h, xs), Polyval(h, ys))
  {
    hide GfMul, Dot, Prime, Add;
    if xs == [] {
      AddZero(0);
    } else {
      var n := |xs| - 1;
      PolyvalLinear(h, xs[..n], ys[..n]);
      assert AddAll(xs, ys)[..n] == AddAll(xs[..n], ys[..n]);
      DotLinear(Polyval(h, xs[..n]), xs[n], Polyval(h, ys[..n]), ys[n], h);
    }
  }

  lemma DotLinear(p: Elem, x: Elem, q: Elem, y: Elem, h: Elem)
    ensures Dot(Add(Add(p, q), Add(x, y)), h) == Add(Dot(Add(p, x), h), Dot(Add(q, y), h))
  {
    hide GfMul, Dot, Prime;
    XorSwap(p, q, x, y);
    DotIsMulByPrime(Add(p, x), h);
    DotIsMulByPrime(Add(q, y), h);
    DotIsMulByPrime(Add(Add(p, x), Add(q, y)), h);
    GfMulDistLeft(Add(p, x), Add(q, y), Prime(h));
  }

  function ToElems(blocks: seq<Block>): (xs: seq<Elem>)
    ensures |xs| == |blocks|
  {
    seq(|blocks|, i requires 0 <= i < |blocks| => ToElem(blocks[i]))
  }

  /** POLYVAL(H, X_1, ..., X_n) on byte strings. */
  function HashBlocks(h: Block, blocks: seq<Block>): Block
  {
    FromElem(Polyval(ToElem(h), ToElems(blocks)))
  }

  /** The consecutive 16-byte blocks of a message. */
  function Blocks(msg: bytes): (blocks: seq<Block>)
    requires |msg| % 16 == 0
    ensures |blocks| == |msg| / 16
  {
    if msg == [] then [] else [msg[..16]] + Blocks(msg[16..])
  }

  /** The reference hash takes separate blocks and asserts that each has 16 bytes. */
  method PolyvalReference(hBytes: Block, blocks: seq<bytes>) returns (r: Outcome<Block>)
    ensures r.Ok? <==> forall i :: 0 <= i < |blocks| ==> |blocks[i]| == 16
    ensures r.Ok? ==> r.value == HashBlocks(hBytes, blocks)
  {
    hide Dot, Add;
    var h := ToElem(hBytes);
    var s: Elem := 0;
    ghost var done: seq<Block> := [];
    for n := 0 to |blocks|
      invariant forall i :: 0 <= i < n ==> |blocks[i]| == 16
      invariant done == blocks[..n]
      invariant s == Polyval(h, ToElems(done))
    {
      if |blocks[n]| != 16 {
        return Raised;
      }
      PolyvalSnoc(h, ToElems(done), ToElem(blocks[n]));
      done := done + [blocks[n]];
      assert ToElems(done) == ToElems(done[..n]) + [ToElem(blocks[n])];
      s := PolyvalDot(Add(s, ToElem(blocks[n])), h);
    }
    assert done == blocks;
    return Ok(FromElem(s));
  }

  lemma {:induction false} BlocksAt(msg: bytes, n: nat)
    requires |msg| % 16 == 0 && n < |msg| / 16
    ensures Blocks(msg)[n] == msg[16 * n..16 * n + 16]
  {
    if n == 0 {
    } else {
      BlocksAt(msg[16..], n - 1);
      assert msg[16..][16 * (n - 1)..16 * (n - 1) + 16] == msg[16 * n..16 * n + 16];
    }
  }

  lemma NoBlocks(h: Elem, xs: seq<Elem>)
    ensures Polyval(h, xs[..0]) == 0
  {
  }

  lemma NextBlock(h: Elem, msg: bytes, n: nat, xs: seq<Elem>, block: Block)
    requires |msg| % 16 == 0 && n < |msg| / 16 && xs == ToElems(Blocks(msg))
    requires block == msg[16 * n..16 * n + 16]
    ensures Polyval(h, xs[..n + 1]) == Dot(Add(Polyval(h, xs[..n]), ToElem(block)), h)
  {
    hide ToElem, Polyval, Dot, Add, Blocks;
    BlocksAt(msg, n);
    assert xs[..n + 1] == xs[..n] + [xs[n]];
    PolyvalSnoc(h, xs[..n], xs[n]);
  }

  /** The oracle's hash slices one message whose length must be a multiple of 16. */
  method PolyvalOracle(h: Block, msg: bytes, xInv128: InverseConstant) returns (r: Outcome<Block>)
    ensures r.Ok? <==> |msg| % 16 == 0
    ensures r.Ok? ==> r.value == HashBlocks(h, Blocks(msg))
  {
    hide GfMul, Dot, Add, Polyval, Blocks, ToElem;
    if |msg| % 16 != 0 {
      return Raised;
    }
    var hh := ToElem(h);
    var s: Elem := 0;
    ghost var xs := ToElems(Blocks(msg));
    NoBlocks(hh, xs);
    var i := 0;
    while i < |msg|
      invariant i % 16 == 0 && i <= |msg|
      invariant s == Polyval(hh, xs[..i / 16])
    {
      NextBlock(hh, msg, i / 16, xs, msg[i..i + 16]);
      s := OracleDot(Add(s, ToElem(msg[i..i + 16])), hh, xInv128);
      i := i + 16;
    }
    assert xs[..|msg| / 16] == xs;
    return Ok(FromElem(s));
  }

  /** RFC 8452 section 3: the hash of nothing is zero. */
  lemma HashOfNothing(h: Block)
    ensures HashBlocks(h, []) == Zeros(16)
  {
    LeBytesZero(16);
  }

  /** RFC 8452 section 3: the hash t after one more block b is the one that solves t * x^128 == (s ^ b) * h. */
  lemma HashOfNext(h: Block, blocks: seq<Block>, b: Block, t: Block)
    ensures t == HashBlocks(h, blocks + [b])
       <==> exists q :: Xor(Clmul(Xor(Le(HashBlocks(h, blocks)), Le(b)), Le(h)), Shl(Le(t), 128))
                     == Clmul(q, 0x1_C200_0000_0000_0000_0000_0000_0000_0001)
  {
    hide Xor, Clmul, Shl, Dot, Le, LeBytes, Polyval;
    var xs := ToElems(blocks);
    assert ToElems(blocks + [b]) == xs + [ToElem(b)];
    PolyvalSnoc(ToElem(h), xs, ToElem(b));
    ElemRoundTrip(Polyval(ToElem(h), xs));
    ElemRoundTrip(Polyval(ToElem(h), xs + [ToElem(b)]));
    BlockRoundTrip(t);
    DotMeaning(Add(Polyval(ToElem(h), xs), ToElem(b)), ToElem(h), ToElem(t));
  }
}
