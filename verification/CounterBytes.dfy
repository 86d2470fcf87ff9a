/** The 32-bit little-endian counter as the 6502 increments it: byte by byte while the result is zero. */
module CounterBytes {
  import opened Bits
  import opened ByteTypes
  import opened Bytes
  import opened Registers
  import opened GcmSiv

  function IncBytes(b: bytes): (r: bytes)
    ensures |r| == |b|
  {
    if b == [] then []
    else if Inc(b[0]) != 0 then [Inc(b[0])] + b[1..]
    else [0] + IncBytes(b[1..])
  }

  /** Incrementing the bytes increments the number modulo its width. */
  lemma {:induction false} IncBytesValue(b: bytes)
    ensures Le(IncBytes(b)) == if Le(b) + 1 == Shl(1, 8 * |b|) then 0 else Le(b) + 1
  {
    if b == [] {
    } else {
      IncBytesValue(b[1..]);
      ByteShift(8 * |b| - 8);
      LeBound(b[1..]);
      if Inc(b[0]) != 0 {
        LeCons(Inc(b[0]), b[1..]);
      } else {
        LeCons(0, IncBytes(b[1..]));
      }
    }
  }

  /** The carry chain over the low four bytes of a block. */
  lemma CarryChain(c: Block, d: Block)
    requires var c0, c1, c2, c3 := Inc(c[0]), Inc(c[1]), Inc(c[2]), Inc(c[3]);
      d == if c0 != 0 then c[0 := c0]
           else if c1 != 0 then c[0 := 0][1 := c1]
           else if c2 != 0 then c[0 := 0][1 := 0][2 := c2]
           else c[0 := 0][1 := 0][2 := 0][3 := c3]
    ensures d == IncBytes(c[..4]) + c[4..]
  {
    hide Inc;
    var b := c[..4];
    assert b[1..][1..] == b[2..] && b[2..][1..] == b[3..] && b[3..][1..] == [];
    var r3 := IncBytes(b[3..]);
    assert r3 == [Inc(b[3])];
    var r2 := IncBytes(b[2..]);
    assert r2 == if Inc(b[2]) != 0 then [Inc(b[2])] + b[3..] else [0] + r3;
    var r1 := IncBytes(b[1..]);
    assert r1 == if Inc(b[1]) != 0 then [Inc(b[1])] + b[2..] else [0] + r2;
    assert IncBytes(b) == if Inc(b[0]) != 0 then [Inc(b[0])] + b[1..] else [0] + r1;
  }

  /** Stepping the bytes of one counter block gives the next one. */
  lemma NextCounter(tag: Block, i: nat)
    ensures IncBytes(CounterBlock(tag, i)[..4]) + CounterBlock(tag, i)[4..] == CounterBlock(tag, i + 1)
  {
    hide Le, LeBytes, SetTop, IncBytes, Shl;
    var v := (Le(tag[..4]) + i) % TWO32;
    var low := LeBytes(v, 4);
    WordPowers();
    LeOfLeBytes(v, 4);
    WrapAdd(Le(tag[..4]), i);
    WrapOnce(v);
    IncBytesValue(low);
    LeBytesOfLe(IncBytes(low));
    assert CounterBlock(tag, i)[..4] == low;
    assert CounterBlock(tag, i)[4..] == CounterBlock(tag, i + 1)[4..];
    assert CounterBlock(tag, i + 1) == IncBytes(low) + CounterBlock(tag, i + 1)[4..];
  }

  lemma WrapOnce(v: nat)
    requires v < TWO32
    ensures (v + 1) % TWO32 == if v + 1 == TWO32 then 0 else v + 1
  {
  }
}
