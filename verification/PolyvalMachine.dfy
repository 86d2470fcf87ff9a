/** The COMPACT profile of POLYVAL on the 6502, src/polyval_compact.s, on its memory. */
module PolyvalMachine {
  import opened Bits
  import opened Field
  import opened Multiplication
  import opened XPowers
  import opened NibbleTable
  import opened ByteTypes
  import opened Bytes
  import opened Registers
  import opened PolyvalBytes
  import opened Hash

  class Machine {
    const acc: array<byte>
    const mulInput: array<byte>
    const h: array<byte>
    const temp: array<byte>
    const htable: array<byte>
    var mulNibble: byte

    /** Buffer sizes; the buffers do not overlap. */
    ghost predicate Valid()
    {
      && acc.Length == 16 && mulInput.Length == 16 && h.Length == 16 && temp.Length == 16
      && htable.Length == 0x100
      && acc != mulInput && acc != h && acc != temp && mulInput != h && mulInput != temp && h != temp
    }

    constructor ()
      ensures Valid() && fresh(acc) && fresh(mulInput) && fresh(h) && fresh(temp) && fresh(htable)
    {
      acc := new byte[16];
      mulInput := new byte[16];
      h := new byte[16];
      temp := new byte[16];
      htable := new byte[0x100];
      mulNibble := 0;
    }

    /** The buffer as a field element. */
    ghost function Value(buffer: array<byte>): Elem
      requires buffer.Length == 16
      reads buffer
    {
      ToElem(buffer[..])
    }

    /** polyval_init */
    method Init()
      requires Valid()
      modifies acc
      ensures Value(acc) == 0
    {
      var x: byte := 0;
      while x != 16
        invariant x <= 16
        invariant forall i :: 0 <= i < x ==> acc[i] == 0
        decreases 16 - x
      {
        acc[x] := 0;
        x := Inc(x);
      }
      LeZeros(16);
      assert acc[..] == Zeros(16);
    }

    /** The sixteen rol instructions: x walks up from the low byte while y counts down. */
    method RolAcc() returns (carry: nat)
      requires Valid()
      modifies acc
      ensures carry < 2 && Le(acc[..]) + Shl(carry, 128) == 2 * old(Le(acc[..]))
    {
      hide Le, Shl, Rol;
      ghost var b := acc[..];
      var x: byte, y: byte := 0, 16;
      carry := 0;
      ShlZero(0);
      NoBytes(b, acc[..]);
      while y != 0
        invariant y <= 16 && x == 16 - y && carry < 2
        invariant acc[x..] == b[x..]
        invariant Le(acc[..x]) + Shl(carry, 8 * x) == 2 * Le(b[..x])
        decreases y
      {
        ghost var done, c := acc[..x], carry;
        RolStep(b[x], carry, 8 * x);
        LeSnoc(b[..x], b[x]);
        LeSnoc(done, Rol(b[x], carry));
        var v := acc[x];
        acc[x] := Rol(v, carry);
        carry := v / 0x80;
        assert acc[..x + 1] == done + [Rol(v, c)];
        assert b[..x + 1] == b[..x] + [b[x]];
        x := Inc(x);
        y := Dec(y);
      }
      assert acc[..16] == acc[..] && b[..16] == b;
    }

    /** polyval_double */
    method DoubleAcc()
      requires Valid()
      modifies acc
      ensures Value(acc) == Double(old(Value(acc))) == GfMul(old(Value(acc)), 2)
    {
      hide Le, Double, Eor, GfMul;
      GfMulTwo(Value(acc));
      ghost var b: Block := acc[..];
      var carry := RolAcc();
      ghost var r: Block := acc[..];
      RolIsDoubling(b, r, carry);
      if carry != 0 {
        acc[0] := Eor(acc[0], 0x01);
        acc[15] := Eor(acc[15], 0xC2);
        assert acc[..] == r[0 := Eor(r[0], 0x01)][15 := Eor(r[15], 0xC2)];
      }
    }

    /** polyval_shift_left_4 */
    method ShiftLeft4()
      requires Valid()
      modifies acc
      ensures Value(acc) == DoubleN(old(Value(acc)), 4) == GfMul(old(Value(acc)), 16)
    {
      hide Double, GfMul;
      ghost var v := Value(acc);
      FourDoublings(v);
      var y: byte := 4;
      while y != 0
        invariant y <= 4 && Value(acc) == DoubleN(v, 4 - y)
        decreases y
      {
        DoubleAcc();
        y := Dec(y);
      }
    }

    /** The sixteen ror instructions of a right shift, from the top byte down. */
    method RorBuffer(buffer: array<byte>) returns (carry: nat)
      requires buffer.Length == 16
      modifies buffer
      ensures carry < 2 && 2 * Le(buffer[..]) + carry == old(Le(buffer[..]))
    {
      hide Le, Ror;
      ghost var b := buffer[..];
      var x: byte := 15;
      carry := 0;
      NothingAbove(b, buffer[..]);
      while Plus(x)
        invariant Inc(x) <= 16 && carry < 2
        invariant buffer[..Inc(x)] == b[..Inc(x)]
        invariant 2 * Le(buffer[Inc(x)..]) + carry == Le(b[Inc(x)..])
        decreases Inc(x)
      {
        ghost var done, c := buffer[x + 1..], carry;
        LeCons(b[x], b[x + 1..]);
        LeCons(Ror(b[x], carry), done);
        RorStep(b[x], carry, Le(done));
        var v := buffer[x];
        buffer[x] := Ror(v, carry);
        carry := v % 2;
        assert buffer[x..] == [Ror(v, c)] + done;
        assert b[x..] == [b[x]] + b[x + 1..];
        x := Dec(x);
      }
      assert buffer[0..] == buffer[..] && b[0..] == b;
    }

    /** polyval_right_shift_1 and pv_rshift_temp */
    method RightShiftBuffer(buffer: array<byte>)
      requires buffer.Length == 16
      modifies buffer
      ensures Value(buffer) == RightShift(old(Value(buffer)))
    {
      hide Le, RightShift, Eor;
      ghost var b: Block := buffer[..];
      var low := buffer[0] % 2;
      LowBit(b);
      var carry := RorBuffer(buffer);
      ghost var r: Block := buffer[..];
      RorIsHalving(b, r, carry);
      if low != 0 {
        buffer[15] := Eor(buffer[15], 0xE1);
        assert buffer[..] == r[15 := Eor(r[15], 0xE1)];
      }
    }

    /** pv_xor_temp_acc */
    method XorTempIntoAcc()
      requires Valid()
      modifies acc
      ensures Value(acc) == Add(old(Value(acc)), Value(temp))
    {
      hide Le, Eor, Add;
      ghost var b: Block := acc[..];
      EorElems(b, temp[..]);
      var x: byte := 15;
      while Plus(x)
        invariant Inc(x) <= 16
        invariant forall i :: 0 <= i < Inc(x) ==> acc[i] == b[i]
        invariant forall i :: Inc(x) <= i < 16 ==> acc[i] == Eor(b[i], temp[i])
        decreases Inc(x)
      {
        acc[x] := Eor(acc[x], temp[x]);
        x := Dec(x);
      }
      assert acc[..] == EorBytes(b, temp[..]);
    }

    /** Entry n of the table. */
    ghost function Entry(n: nat): Block
      requires Valid() && n < 16
      reads htable
    {
      htable[..][16 * n..16 * n + 16]
    }

    /** The table as sixteen field elements. */
    ghost function Table(): (t: seq<Elem>)
      requires Valid()
      reads htable
      ensures |t| == 16
    {
      TableOf(htable[..])
    }

    /** polyval_xor_table_entry: nibble 0 is skipped, which is right when entry 0 is zero. */
    method XorTableEntry()
      requires Valid() && mulNibble < 16 && Table()[0] == 0
      modifies acc
      ensures Value(acc) == Add(old(Value(acc)), Table()[mulNibble])
    {
      hide Le, Eor;
      ghost var b: Block := acc[..];
      ghost var e := Entry(mulNibble);
      EorElems(b, e);
      if mulNibble == 0 {
        XorZero(ToElem(b));
      } else {
        EorEntry(b, e);
        assert acc[..] == EorBytes(b, e);
      }
    }

    /** The byte loop: x runs over the accumulator, y over the entry. */
    method EorEntry(ghost b: Block, ghost e: Block)
      requires Valid() && mulNibble < 16 && b == acc[..] && e == Entry(mulNibble)
      modifies acc
      ensures acc[..] == EorBytes(b, e)
    {
      hide Eor, Asl;
      SixteenTimes(mulNibble);
      var y := Asl(Asl(Asl(Asl(mulNibble))));
      var x: byte := 0;
      while x != 16
        invariant x <= 16 && y == if 16 * mulNibble + x == 0x100 then 0 else 16 * mulNibble + x
        invariant forall i :: 0 <= i < x ==> acc[i] == Eor(b[i], e[i])
        invariant forall i :: x <= i < 16 ==> acc[i] == b[i]
        decreases 16 - x
      {
        assert htable[y] == e[x];
        acc[x] := Eor(acc[x], htable[y]);
        y := Inc(y);
        x := Inc(x);
      }
    }

    /** pv_mul_step: shift the accumulator by a nibble and add the entry of nibble a. */
    method MulStep(a: byte)
      requires Valid() && a < 16 && Table()[0] == 0
      modifies acc, this`mulNibble
      ensures Value(acc) == Add(DoubleN(old(Value(acc)), 4), Table()[a])
    {
      hide DoubleN, Add, ToElem;
      mulNibble := a;
      ShiftLeft4();
      XorTableEntry();
    }

    /** The operand moves to mulInput while the accumulator is cleared. */
    method SaveAndClear()
      requires Valid()
      modifies acc, mulInput
      ensures mulInput[..] == old(acc[..]) && Value(acc) == 0
    {
      ghost var b := acc[..];
      var x: byte := 15;
      while Plus(x)
        invariant Inc(x) <= 16
        invariant forall i :: 0 <= i < Inc(x) ==> acc[i] == b[i]
        invariant forall i :: Inc(x) <= i < 16 ==> acc[i] == 0 && mulInput[i] == b[i]
        decreases Inc(x)
      {
        var a := acc[x];
        mulInput[x] := a;
        acc[x] := 0;
        x := Dec(x);
      }
      LeZeros(16);
      assert acc[..] == Zeros(16);
      assert mulInput[..] == b;
    }

    /** The two nibbles of one operand byte, high nibble first. */
    method MultiplyByte(v: byte, ghost high: nat, ghost n: nat)
      requires Valid() && Table()[0] == 0 && Value(acc) == Horner(high, n, Table())
      modifies acc, this`mulNibble
      ensures Value(acc) == Horner(v + 0x100 * high, n + 2, Table())
    {
      hide ToElem, DoubleN, Add, Lsr, Horner;
      HornerByte(v, high, n, Table());
      MulStep(Lsr(Lsr(Lsr(Lsr(v)))));
      MulStep(v % 0x10);
    }

    /** polyval_multiply */
    method Multiply()
      requires Valid() && Table()[0] == 0
      modifies acc, mulInput, this`mulNibble
      ensures Value(acc) == Horner(old(Value(acc)), 32, Table())
    {
      hide Le, Horner;
      ghost var b: Block := acc[..];
      SaveAndClear();
      var x: byte := 15;
      HornerStart(b, Table());
      while Plus(x)
        invariant Inc(x) <= 16 && mulInput[..] == b
        invariant Value(acc) == Horner(Le(b[Inc(x)..]), 2 * (16 - Inc(x)), Table())
        decreases Inc(x)
      {
        MultiplyByte(mulInput[x], Le(b[x + 1..]), 2 * (15 - x));
        LeCons(b[x], b[x + 1..]);
        assert b[x..] == [b[x]] + b[x + 1..];
        x := Dec(x);
      }
      assert b[0..] == b;
    }

    /** polyval_update: one block is absorbed, with the table of the key in place. */
    method Update(ghost key: Elem)
      requires Valid() && IsTableOf(Table(), Prime(key))
      modifies acc, mulInput, this`mulNibble
      ensures Value(acc) == Dot(Add(old(Value(acc)), Value(temp)), key)
    {
      hide Horner, Dot, Prime, Add, GfMul, ToElem;
      GfMulUnit(Prime(key));
      XorTempIntoAcc();
      ghost var a := Value(acc);
      Multiply();
      Powers();
      HornerIsMul(a, 32, Table(), Prime(key));
      DotIsMulByPrime(a, key);
    }

    /** H is copied to the accumulator and to the shift buffer. */
    method CopyKey()
      requires Valid()
      modifies acc, temp
      ensures acc[..] == h[..] && temp[..] == h[..]
    {
      var x: byte := 15;
      while Plus(x)
        invariant Inc(x) <= 16
        invariant forall i :: Inc(x) <= i < 16 ==> acc[i] == h[i] && temp[i] == h[i]
        decreases Inc(x)
      {
        var a := h[x];
        acc[x] := a;
        temp[x] := a;
        x := Dec(x);
      }
    }

    /** Step 1 of polyval_precompute_table: seven shifts and three additions turn H into H'. */
    method KeyToPrime()
      requires Valid()
      modifies acc, temp
      ensures Value(acc) == Prime(Value(h))
    {
      hide RightShift, Add, Prime, ToElem;
      ghost var key := Value(h);
      SevenShiftsSuffice(key);
      CopyKey();
      RightShiftBuffer(temp);
      XorTempIntoAcc();
      RightShiftBuffer(temp);
      XorTempIntoAcc();
      var y: byte := 5;
      while y != 0
        invariant y <= 5 && Value(temp) == RightShiftN(key, 7 - y)
        invariant Value(acc) == Add(Add(key, RightShiftN(key, 1)), RightShiftN(key, 2))
        decreases y
      {
        RightShiftBuffer(temp);
        y := Dec(y);
      }
      XorTempIntoAcc();
    }

    /** The first two entries: zero and H'. */
    method StoreFirst()
      requires Valid()
      modifies htable
      ensures Entry(0) == Zeros(16) && Entry(1) == acc[..]
    {
      var x: byte := 15;
      while Plus(x)
        invariant Inc(x) <= 16
        invariant forall i :: Inc(x) <= i < 16 ==> htable[i] == 0
        decreases Inc(x)
      {
        htable[x] := 0;
        x := Dec(x);
      }
      x := 15;
      while Plus(x)
        invariant Inc(x) <= 16
        invariant forall i :: 0 <= i < 16 ==> htable[i] == 0
        invariant forall i :: Inc(x) <= i < 16 ==> htable[i + 16] == acc[i]
        decreases Inc(x)
      {
        htable[x + 16] := acc[x];
        x := Dec(x);
      }
    }

    /** The accumulator takes entry k; x starts at the byte offset of the entry. */
    method LoadEntry(offset: byte, ghost k: nat)
      requires Valid() && k < 16 && offset == 16 * k
      modifies acc
      ensures acc[..] == Entry(k)
    {
      var x, y: byte := offset, 0;
      while y != 16
        invariant y <= 16 && x == if offset + y == 0x100 then 0 else offset + y
        invariant forall i :: 0 <= i < y ==> acc[i] == htable[offset + i]
        decreases 16 - y
      {
        acc[y] := htable[x];
        x := Inc(x);
        y := Inc(y);
      }
    }

    /** Entries 2k and 2k + 1: the accumulator, and the accumulator plus entry 1. */
    method StorePair(offset: byte, ghost k: nat)
      requires Valid() && 1 <= k < 8 && offset == 32 * k
      modifies htable
      ensures Entry(2 * k) == acc[..] && Entry(2 * k + 1) == EorBytes(acc[..], Entry(1))
      ensures htable[..32 * k] == old(htable[..32 * k])
    {
      hide Eor;
      ghost var t := htable[..];
      var x, y: byte := offset, 0;
      while y != 16
        invariant y <= 16 && x == offset + y
        invariant forall i :: 0 <= i < 32 * k ==> htable[i] == t[i]
        invariant forall i :: 0 <= i < y ==> htable[offset + i] == acc[i]
        invariant forall i :: 0 <= i < y ==> htable[offset + 16 + i] == Eor(acc[i], t[16 + i])
        decreases 16 - y
      {
        var a := acc[y];
        htable[x] := a;
        a := Eor(a, htable[16 + y]);
        htable[x + 16] := a;
        x := Inc(x);
        y := Inc(y);
      }
      StoredPair(htable[..], t, acc[..], offset);
    }

    /** One turn of the build loop: entries 2k and 2k + 1 from entry k. */
    method BuildPair(ghost prime: Elem, ghost k: nat)
      requires Valid() && 1 <= k < 8 && temp[0] == 16 * k && Built(htable[..], prime, 2 * k)
      modifies acc, temp, htable
      ensures temp[0] == 16 * (k + 1) && Built(htable[..], prime, 2 * (k + 1))
    {
      hide Built, Double, EorBytes, ToElem;
      ghost var t := htable[..];
      LoadEntry(temp[0], k);
      assert Value(acc) == ToElem(t[16 * k..16 * k + 16]);
      DoubleAcc();
      var x := Asl(temp[0]);
      StorePair(x, k);
      BuildStep(t, htable[..], prime, k);
      temp[0] := (temp[0] + 16) % 0x100;
    }

    /** Step 2 of polyval_precompute_table; the first byte of temp holds the offset of entry k. */
    method BuildTable(ghost prime: Elem)
      requires Valid() && Value(acc) == prime
      modifies acc, temp, htable
      ensures IsTableOf(Table(), prime)
    {
      hide Built, ToElem, GfMul;
      StoreFirst();
      BuildStart(htable[..], prime);
      temp[0] := 16;
      ghost var k := 1;
      while temp[0] != 0x80
        invariant 1 <= k <= 8 && temp[0] == 16 * k && Built(htable[..], prime, 2 * k)
        decreases 8 - k
      {
        BuildPair(prime, k);
        k := k + 1;
      }
      BuildEnd(htable[..], prime);
    }

    /** polyval_precompute_table: the table of the key, which itself is preserved. */
    method PrecomputeTable()
      requires Valid()
      modifies acc, temp, htable
      ensures IsTableOf(Table(), Prime(Value(h)))
      ensures h[..] == old(h[..])
    {
      hide ToElem, Prime, IsTableOf;
      KeyToPrime();
      BuildTable(Prime(Value(h)));
    }

    /** The caller stages a block in temp. */
    method Stage(block: Block)
      requires Valid()
      modifies temp
      ensures temp[..] == block
    {
      var x: byte := 0;
      while x != 16
        invariant x <= 16
        invariant forall i :: 0 <= i < x ==> temp[i] == block[i]
        decreases 16 - x
      {
        temp[x] := block[x];
        x := Inc(x);
      }
    }

    method Absorb(block: Block, ghost key: Elem)
      requires Valid() && IsTableOf(Table(), Prime(key))
      modifies acc, temp, mulInput, this`mulNibble
      ensures Value(acc) == Dot(Add(old(Value(acc)), ToElem(block)), key)
    {
      hide ToElem, IsTableOf, Dot, Add;
      Stage(block);
      Update(key);
    }

    /** A whole message through polyval_init and polyval_update, with the table of H in place. */
    method HashMessage(blocks: seq<Block>)
      requires Valid() && IsTableOf(Table(), Prime(Value(h)))
      modifies acc, temp, mulInput, this`mulNibble
      ensures acc[..] == HashBlocks(h[..], blocks)
    {
      hide ToElem, IsTableOf, Polyval, Dot, Add, FromElem, ToElems;
      ghost var key := Value(h);
      Init();
      EmptyPolyval(key, blocks);
      for n := 0 to |blocks|
        invariant Value(acc) == Polyval(key, ToElems(blocks[..n]))
      {
        PolyvalNextBlock(key, blocks, n);
        Absorb(blocks[n], key);
      }
      assert blocks[..|blocks|] == blocks;
      BlockRoundTrip(acc[..]);
    }
  }

  lemma EmptyPolyval(key: Elem, blocks: seq<Block>)
    ensures Polyval(key, ToElems(blocks[..0])) == 0
  {
  }

  lemma PolyvalNextBlock(key: Elem, blocks: seq<Block>, n: nat)
    requires n < |blocks|
    ensures Polyval(key, ToElems(blocks[..n + 1]))
         == Dot(Add(Polyval(key, ToElems(blocks[..n])), ToElem(blocks[n])), key)
  {
    hide ToElem, Polyval, Dot, Add;
    PolyvalSnoc(key, ToElems(blocks[..n]), ToElem(blocks[n]));
    assert ToElems(blocks[..n + 1]) == ToElems(blocks[..n]) + [ToElem(blocks[n])];
  }

  /** The first n entries are the multiples of the multiplier. */
  ghost predicate Built(t: bytes, prime: Elem, n: nat)
    requires |t| == 0x100 && n <= 16
  {
    forall i :: 0 <= i < n ==> TableOf(t)[i] == GfMul(prime, i)
  }

  /** The two entries behind n, byte by byte and as a whole. */
  lemma StoredPair(t': bytes, t: bytes, a: Block, n: nat)
    requires |t'| == |t| == 0x100 && 32 <= n <= 0xE0
    requires forall i :: 0 <= i < n ==> t'[i] == t[i]
    requires forall i :: 0 <= i < 16 ==> t'[n + i] == a[i]
    requires forall i :: 0 <= i < 16 ==> t'[n + 16 + i] == Eor(a[i], t[16 + i])
    ensures t'[..n] == t[..n] && t'[n..n + 16] == a
    ensures t'[n + 16..n + 32] == EorBytes(a, t'[16..32])
  {
    hide Eor;
    assert t'[16..32] == t[16..32];
  }

  lemma BuildStart(t: bytes, prime: Elem)
    requires |t| == 0x100 && t[..16] == Zeros(16) && ToElem(t[16..32]) == prime
    ensures Built(t, prime, 2)
  {
    hide ToElem, GfMul;
    GfMulUnit(prime);
    ZeroElem();
    assert t[16 * 0..16 * 0 + 16] == Zeros(16);
    assert t[16 * 1..16 * 1 + 16] == t[16..32];
  }

  lemma ZeroElem()
    ensures ToElem(Zeros(16)) == 0
  {
    LeZeros(16);
  }

  lemma BuildStep(t: bytes, t': bytes, prime: Elem, k: nat)
    requires |t| == |t'| == 0x100 && 1 <= k < 8 && Built(t, prime, 2 * k)
    requires t'[..32 * k] == t[..32 * k]
    requires ToElem(t'[32 * k..32 * k + 16]) == Double(ToElem(t[16 * k..16 * k + 16]))
    requires t'[32 * k + 16..32 * k + 32] == EorBytes(t'[32 * k..32 * k + 16], t'[16..32])
    ensures Built(t', prime, 2 * (k + 1))
  {
    hide ToElem, GfMul, Double, EorBytes;
    NextEntries(prime, k);
    EorElems(t'[32 * k..32 * k + 16], t'[16..32]);
    GfMulUnit(prime);
    forall i | 0 <= i < 2 * (k + 1)
      ensures TableOf(t')[i] == GfMul(prime, i)
    {
      if i < 2 * k {
        SameEntry(t, t', 32 * k, i);
      } else if i == 2 * k {
        assert TableOf(t)[k] == GfMul(prime, k);
      } else {
        SameEntry(t, t', 32 * k, 1);
        assert TableOf(t')[1] == GfMul(prime, 1) == prime;
        assert TableOf(t')[2 * k] == Double(GfMul(prime, k));
        assert 16 * i == 32 * k + 16;
      }
    }
  }

  lemma SameEntry(t: bytes, t': bytes, n: nat, i: nat)
    requires |t| == |t'| == 0x100 && 16 * i + 16 <= n <= 0x100 && t'[..n] == t[..n]
    ensures TableOf(t')[i] == TableOf(t)[i]
  {
    assert t'[16 * i..16 * i + 16] == t'[..n][16 * i..16 * i + 16];
    assert t[16 * i..16 * i + 16] == t[..n][16 * i..16 * i + 16];
  }

  lemma BuildEnd(t: bytes, prime: Elem)
    requires |t| == 0x100 && Built(t, prime, 16)
    ensures IsTableOf(TableOf(t), prime)
  {
  }

  /** Sixteen entries of sixteen bytes. */
  function TableOf(t: bytes): (table: seq<Elem>)
    requires |t| == 0x100
    ensures |table| == 16
    ensures forall n :: 0 <= n < 16 ==> table[n] == ToElem(t[16 * n..16 * n + 16])
  {
    seq(16, n requires 0 <= n < 16 => ToElem(t[16 * n..16 * n + 16]))
  }

  lemma NoBytes(b: bytes, c: bytes)
    ensures Le(b[..0]) == 0 && Le(c[..0]) == 0
  {
  }

  lemma NothingAbove(b: bytes, c: bytes)
    requires |b| == 16 && |c| == 16
    ensures Le(b[16..]) == 0 && Le(c[16..]) == 0
  {
  }

  /** The carry of the rotation is the top bit, and the reduction constant sits in the end bytes. */
  lemma RolIsDoubling(b: Block, r: Block, carry: nat)
    requires carry < 2 && Le(r) + Shl(carry, 128) == 2 * Le(b)
    ensures carry == 0 ==> ToElem(r) == Double(ToElem(b))
    ensures carry != 0 ==> ToElem(r[0 := Eor(r[0], 0x01)][15 := Eor(r[15], 0xC2)]) == Double(ToElem(b))
  {
    hide Le, Xor, Eor, Double, Ends;
    Powers();
    ShlZero(128);
    DoubleCases(ToElem(b));
    assert ToElem(r) == Le(r);
    ReductionBytes();
    EorEnds(r, 0x01, 0xC2);
    EorElems(r, Ends(0x01, 0xC2));
  }

  lemma LowBit(b: Block)
    ensures b[0] % 2 == Le(b) % 2
  {
    hide Le;
    LeCons(b[0], b[1..]);
    assert [b[0]] + b[1..] == b;
  }

  lemma RorIsHalving(b: Block, r: Block, carry: nat)
    requires carry < 2 && 2 * Le(r) + carry == Le(b)
    ensures Le(b) % 2 == 0 ==> ToElem(r) == RightShift(ToElem(b))
    ensures Le(b) % 2 != 0 ==> ToElem(r[15 := Eor(r[15], 0xE1)]) == RightShift(ToElem(b))
  {
    hide Le, Xor, Eor, Ends;
    ReductionBytes();
    EorEnds(r, 0, 0xE1);
    EorZero(r[0]);
    assert r[0 := r[0]] == r;
    EorElems(r, Ends(0, 0xE1));
  }

  lemma SixteenTimes(n: byte)
    requires n < 16
    ensures Asl(Asl(Asl(Asl(n)))) == 16 * n
  {
    hide Asl;
    AslSmall(n);
    AslSmall(2 * n);
    AslSmall(4 * n);
    AslSmall(8 * n);
  }

  lemma AslSmall(n: byte)
    requires n < 0x80
    ensures Asl(n) == 2 * n
  {
  }

  lemma HornerStart(b: Block, table: seq<Elem>)
    requires |table| == 16
    ensures Horner(Le(b[16..]), 0, table) == 0
  {
  }

  /** A byte contributes its high nibble and then its low nibble. */
  lemma HornerByte(v: byte, high: nat, n: nat, table: seq<Elem>)
    requires |table| == 16
    ensures Lsr(Lsr(Lsr(Lsr(v)))) == v / 16 < 16
    ensures Horner(v + 0x100 * high, n + 2, table)
         == Add(DoubleN(Add(DoubleN(Horner(high, n, table), 4), table[v / 16]), 4), table[v % 16])
  {
    hide DoubleN, Add, Shr;
    var a := v + 0x100 * high;
    ShrFour(a);
    ShrFour(a / 16);
    assert a / 16 == v / 16 + 16 * high && a % 16 == v % 16;
    assert a / 16 / 16 == high && a / 16 % 16 == v / 16;
  }
}
