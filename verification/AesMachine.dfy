/** The AES routines of src/aes_encrypt.s and src/aes_decrypt.s on their memory.

    The accumulator and the index registers are local variables; everything the routines
    keep in memory is a field.  Registers passed into and out of a routine are its
    parameters and results. */
module AesMachine {
  import opened Bits
  import opened ByteTypes
  import opened Registers
  import opened Gf256
  import opened ByteWords
  import opened Aes
  import opened KeySchedule

  class Machine {
    const aesSbox: SBox
    const aesInvSbox: SBox
    const aesState: array<byte>
    const aesExpandedKey: array<byte>
    const aesCurrentKey: array<byte>
    var aesRound: byte
    var aesCol: byte
    var zpTemp: byte
    var zpCount: byte
    var tmp1: byte
    var tmp2: byte
    var tmp3: byte
    var tmp4: byte
    var mcA0: byte
    var mcA1: byte
    var mcA2: byte
    var mcA3: byte
    var mcB0: byte
    var mcB1: byte
    var mcB2: byte
    var mcB3: byte
    var stack: seq<byte>

    /** Buffer sizes. */
    ghost predicate Valid()
    {
      aesState.Length == 16 && aesExpandedKey.Length == 240 && aesCurrentKey.Length == 32
    }

    constructor (sbox: SBox, invSbox: SBox)
      ensures Valid() && aesSbox == sbox && aesInvSbox == invSbox
      ensures fresh(aesState) && fresh(aesExpandedKey) && fresh(aesCurrentKey)
    {
      aesSbox, aesInvSbox := sbox, invSbox;
      aesState := new byte[16];
      aesExpandedKey := new byte[240];
      aesCurrentKey := new byte[32];
      aesRound, aesCol, zpTemp, zpCount := 0, 0, 0, 0;
      tmp1, tmp2, tmp3, tmp4 := 0, 0, 0, 0;
      mcA0, mcA1, mcA2, mcA3 := 0, 0, 0, 0;
      mcB0, mcB1, mcB2, mcB3 := 0, 0, 0, 0;
      stack := [];
    }

    method Pha(a: byte)
      modifies this`stack
      ensures stack == [a] + old(stack)
    {
      stack := [a] + stack;
    }

    method Pla() returns (a: byte)
      requires stack != []
      modifies this`stack
      ensures a == old(stack)[0] && stack == old(stack)[1..]
    {
      a := stack[0];
      stack := stack[1..];
    }

    /** aes_sub_bytes */
    method SubBytesInPlace()
      requires Valid()
      modifies aesState
      ensures aesState[..] == SubBytes(aesSbox, old(aesState[..]))
    {
      ghost var s: Block := aesState[..];
      var x: byte := 0;
      while x != 16
        invariant x <= 16
        invariant forall i :: 0 <= i < x ==> aesState[i] == aesSbox[s[i]]
        invariant forall i :: x <= i < 16 ==> aesState[i] == s[i]
        decreases 16 - x
      {
        var y := aesState[x];
        var a := aesSbox[y];
        aesState[x] := a;
        x := Inc(x);
      }
    }

    /** aes_inv_sub_bytes */
    method InvSubBytesInPlace()
      requires Valid()
      modifies aesState
      ensures aesState[..] == SubBytes(aesInvSbox, old(aesState[..]))
    {
      ghost var s: Block := aesState[..];
      var x: byte := 0;
      while x != 16
        invariant x <= 16
        invariant forall i :: 0 <= i < x ==> aesState[i] == aesInvSbox[s[i]]
        invariant forall i :: x <= i < 16 ==> aesState[i] == s[i]
        decreases 16 - x
      {
        var y := aesState[x];
        var a := aesInvSbox[y];
        aesState[x] := a;
        x := Inc(x);
      }
    }

    /** aes_add_round_key: the key offset is the round shifted left four times in the accumulator. */
    method AddRoundKeyInPlace()
      requires Valid() && aesRound <= 14
      modifies aesState
      ensures aesState[..] == AddRoundKey(old(aesState[..]), aesExpandedKey[..], aesRound)
    {
      hide Eor, Asl;
      ghost var s: Block := aesState[..];
      Quadruple(aesRound);
      Quadruple(4 * aesRound);
      var y := Asl(Asl(Asl(Asl(aesRound))));
      var x: byte := 0;
      while x != 16
        invariant x <= 16 && y == 16 * aesRound + x
        invariant forall i :: 0 <= i < x ==> aesState[i] == Eor(s[i], aesExpandedKey[16 * aesRound + i])
        invariant forall i :: x <= i < 16 ==> aesState[i] == s[i]
        decreases 16 - x
      {
        var a := Eor(aesState[x], aesExpandedKey[y]);
        aesState[x] := a;
        y := Inc(y);
        x := Inc(x);
      }
    }

    /** gf_mul2: shift left, and reduce when a bit leaves the register. */
    method GfMul2(a: byte) returns (r: byte)
      ensures r == Mul(a, 2) == XTime(a)
    {
      hide Eor, XTime;
      Doubling(a);
      var carry := a >= 0x80;
      r := Asl(a);
      if carry {
        r := Eor(r, 0x1B);
      }
    }

    /** gf_mul3: 3x = 2x ^ x */
    method GfMul3(a: byte) returns (r: byte)
      modifies this`zpTemp
      ensures r == Mul(a, 3)
    {
      hide Eor, XTime;
      Multiples(a);
      zpTemp := a;
      r := GfMul2(a);
      r := Eor(r, zpTemp);
    }

    /** gf_mul_09: 9 = 8 + 1 */
    method GfMul09(a: byte) returns (r: byte)
      modifies this`zpTemp
      ensures r == Mul(a, 0x09)
    {
      hide Eor, XTime;
      Multiples(a);
      zpTemp := a;
      r := GfMul2(a);
      r := GfMul2(r);
      r := GfMul2(r);
      r := Eor(r, zpTemp);
    }

    /** gf_mul_0b: 11 = 8 + 2 + 1 */
    method GfMul0B(a: byte) returns (r: byte)
      modifies this`zpTemp, this`stack
      ensures r == Mul(a, 0x0B)
      ensures stack == old(stack)
    {
      hide Eor, XTime;
      Multiples(a);
      zpTemp := a;
      r := GfMul2(a);
      Pha(r);
      r := GfMul2(r);
      r := GfMul2(r);
      r := Eor(r, zpTemp);
      zpTemp := r;
      r := Pla();
      r := Eor(r, zpTemp);
    }

    /** gf_mul_0d: 13 = 8 + 4 + 1 */
    method GfMul0D(a: byte) returns (r: byte)
      modifies this`zpTemp, this`stack
      ensures r == Mul(a, 0x0D)
      ensures stack == old(stack)
    {
      hide Eor, XTime;
      Multiples(a);
      zpTemp := a;
      r := GfMul2(a);
      r := GfMul2(r);
      Pha(r);
      r := GfMul2(r);
      r := Eor(r, zpTemp);
      zpTemp := r;
      r := Pla();
      r := Eor(r, zpTemp);
    }

    /** gf_mul_0e: 14 = 8 + 4 + 2 */
    method GfMul0E(a: byte) returns (r: byte)
      modifies this`zpTemp, this`stack
      ensures r == Mul(a, 0x0E)
      ensures stack == old(stack)
    {
      hide Eor, XTime;
      Multiples(a);
      r := GfMul2(a);
      Pha(r);
      r := GfMul2(r);
      Pha(r);
      r := GfMul2(r);
      zpTemp := r;
      r := Pla();
      r := Eor(r, zpTemp);
      zpTemp := r;
      r := Pla();
      r := Eor(r, zpTemp);
    }

    /** A row of the state moved left by one: bytes i, j, k, l take the values of j, k, l, i. */
    method RotateFour(i: nat, j: nat, k: nat, l: nat)
      requires Valid() && i < 16 && j < 16 && k < 16 && l < 16
      requires i != j && i != k && i != l && j != k && j != l && k != l
      modifies aesState, this`stack
      ensures aesState[..] == Rotated(old(aesState[..]), i, j, k, l)
      ensures stack == old(stack)
    {
      Pha(aesState[i]);
      aesState[i] := aesState[j];
      aesState[j] := aesState[k];
      aesState[k] := aesState[l];
      var a := Pla();
      aesState[l] := a;
    }

    /** Two bytes of the state exchanged through the stack. */
    method SwapTwo(i: nat, j: nat)
      requires Valid() && i < 16 && j < 16
      modifies aesState, this`stack
      ensures aesState[..] == Swapped(old(aesState[..]), i, j)
      ensures stack == old(stack)
    {
      Pha(aesState[i]);
      aesState[i] := aesState[j];
      var a := Pla();
      aesState[j] := a;
    }

    /** aes_shift_rows */
    method ShiftRowsInPlace()
      requires Valid()
      modifies aesState, this`stack
      ensures aesState[..] == ShiftRows(old(aesState[..]))
      ensures stack == old(stack)
    {
      hide Rotated, Swapped, ShiftRows;
      ShiftRowsByMoves(aesState[..]);
      RotateFour(1, 5, 9, 13);
      SwapTwo(2, 10);
      SwapTwo(6, 14);
      RotateFour(15, 11, 7, 3);
    }

    /** aes_inv_shift_rows */
    method InvShiftRowsInPlace()
      requires Valid()
      modifies aesState, this`stack
      ensures aesState[..] == InvShiftRows(old(aesState[..]))
      ensures stack == old(stack)
    {
      hide Rotated, Swapped, InvShiftRows;
      InvShiftRowsByMoves(aesState[..]);
      RotateFour(13, 9, 5, 1);
      SwapTwo(2, 10);
      SwapTwo(6, 14);
      RotateFour(3, 7, 11, 15);
    }

    /** One entry: twice the byte p is stored first, then three times q and the other two are added to it. */
    method MixByte(at: nat, p: byte, q: byte, r: byte, s: byte)
      requires Valid() && at < 16
      modifies aesState, this`zpTemp
      ensures aesState[..] == old(aesState[..])[at := MatrixRow(2, 3, 1, 1, p, q, r, s)]
    {
      hide Eor, MatrixRow, Mul;
      var a := GfMul2(p);
      aesState[at] := a;
      a := GfMul3(q);
      a := Eor(a, aesState[at]);
      a := Eor(a, r);
      a := Eor(a, s);
      MixSum(p, q, r, s);
      aesState[at] := a;
    }

    /** One column: its bytes are copied to the temporaries and overwritten one after the other. */
    method MixColumnAt(x: byte, ghost c: nat)
      requires Valid() && c < 4 && x == 4 * c
      modifies aesState, this`tmp1, this`tmp2, this`tmp3, this`tmp4, this`zpTemp
      ensures aesState[..] == WithColumn(old(aesState[..]), c, MixColumns(old(aesState[..])))
    {
      hide MatrixRow, MixColumns, WithColumn;
      ghost var t: Block := aesState[..];
      ColumnUpdates(t, c);
      MixSum(t[x + 1], t[x + 2], t[x], t[x + 3]);
      tmp1 := aesState[x];
      tmp2 := aesState[x + 1];
      tmp3 := aesState[x + 2];
      tmp4 := aesState[x + 3];
      MixByte(x, tmp1, tmp2, tmp3, tmp4);
      MixByte(x + 1, tmp2, tmp3, tmp1, tmp4);
      MixByte(x + 2, tmp3, tmp4, tmp1, tmp2);
      MixByte(x + 3, tmp4, tmp1, tmp2, tmp3);
    }

    /** aes_mix_columns */
    method MixColumnsInPlace()
      requires Valid()
      modifies aesState, this`aesCol, this`tmp1, this`tmp2, this`tmp3, this`tmp4, this`zpTemp
      ensures aesState[..] == MixColumns(old(aesState[..]))
    {
      hide WithColumn, Columns, MixColumns, Asl;
      ghost var s: Block := aesState[..];
      ColumnsEnds(MixColumns(s), s);
      aesCol := 0;
      while aesCol != 4
        invariant aesCol <= 4
        invariant aesState[..] == Columns(MixColumns(s), s, aesCol)
        decreases 4 - aesCol
      {
        var x := Asl(Asl(aesCol));
        Quadruple(aesCol);
        MixProgress(s, aesState[..], aesCol);
        MixColumnAt(x, aesCol);
        aesCol := Inc(aesCol);
      }
    }

    /** b0 = 0e*a0 ^ 0b*a1 ^ 0d*a2 ^ 09*a3 */
    method SumB0()
      modifies this`mcB0, this`zpTemp, this`stack
      ensures mcB0 == MatrixRow(0x0E, 0x0B, 0x0D, 0x09, mcA0, mcA1, mcA2, mcA3)
      ensures stack == old(stack)
    {
      hide Eor, Mul, Sum4;
      UnmixSum(Mul(mcA0, 0x0E), Mul(mcA1, 0x0B), Mul(mcA2, 0x0D), Mul(mcA3, 0x09));
      var a := GfMul0E(mcA0);
      mcB0 := a;
      a := GfMul0B(mcA1);
      mcB0 := Eor(a, mcB0);
      a := GfMul0D(mcA2);
      mcB0 := Eor(a, mcB0);
      a := GfMul09(mcA3);
      mcB0 := Eor(a, mcB0);
    }

    /** b1 = 09*a0 ^ 0e*a1 ^ 0b*a2 ^ 0d*a3 */
    method SumB1()
      modifies this`mcB1, this`zpTemp, this`stack
      ensures mcB1 == MatrixRow(0x0E, 0x0B, 0x0D, 0x09, mcA1, mcA2, mcA3, mcA0)
      ensures stack == old(stack)
    {
      hide Eor, Mul, Sum4;
      UnmixSum(Mul(mcA0, 0x09), Mul(mcA1, 0x0E), Mul(mcA2, 0x0B), Mul(mcA3, 0x0D));
      var a := GfMul09(mcA0);
      mcB1 := a;
      a := GfMul0E(mcA1);
      mcB1 := Eor(a, mcB1);
      a := GfMul0B(mcA2);
      mcB1 := Eor(a, mcB1);
      a := GfMul0D(mcA3);
      mcB1 := Eor(a, mcB1);
    }

    /** b2 = 0d*a0 ^ 09*a1 ^ 0e*a2 ^ 0b*a3 */
    method SumB2()
      modifies this`mcB2, this`zpTemp, this`stack
      ensures mcB2 == MatrixRow(0x0E, 0x0B, 0x0D, 0x09, mcA2, mcA3, mcA0, mcA1)
      ensures stack == old(stack)
    {
      hide Eor, Mul, Sum4;
      UnmixSum(Mul(mcA0, 0x0D), Mul(mcA1, 0x09), Mul(mcA2, 0x0E), Mul(mcA3, 0x0B));
      var a := GfMul0D(mcA0);
      mcB2 := a;
      a := GfMul09(mcA1);
      mcB2 := Eor(a, mcB2);
      a := GfMul0E(mcA2);
      mcB2 := Eor(a, mcB2);
      a := GfMul0B(mcA3);
      mcB2 := Eor(a, mcB2);
    }

    /** b3 = 0b*a0 ^ 0d*a1 ^ 09*a2 ^ 0e*a3 */
    method SumB3()
      modifies this`mcB3, this`zpTemp, this`stack
      ensures mcB3 == MatrixRow(0x0E, 0x0B, 0x0D, 0x09, mcA3, mcA0, mcA1, mcA2)
      ensures stack == old(stack)
    {
      hide Eor, Mul, Sum4;
      UnmixSum(Mul(mcA0, 0x0B), Mul(mcA1, 0x0D), Mul(mcA2, 0x09), Mul(mcA3, 0x0E));
      var a := GfMul0B(mcA0);
      mcB3 := a;
      a := GfMul0D(mcA1);
      mcB3 := Eor(a, mcB3);
      a := GfMul09(mcA2);
      mcB3 := Eor(a, mcB3);
      a := GfMul0E(mcA3);
      mcB3 := Eor(a, mcB3);
    }

    method LoadColumn(x: byte)
      requires Valid() && x <= 12
      modifies this`mcA0, this`mcA1, this`mcA2, this`mcA3
      ensures mcA0 == aesState[x] && mcA1 == aesState[x + 1] && mcA2 == aesState[x + 2] && mcA3 == aesState[x + 3]
    {
      mcA0 := aesState[x];
      mcA1 := aesState[x + 1];
      mcA2 := aesState[x + 2];
      mcA3 := aesState[x + 3];
    }

    method StoreColumn(x: byte)
      requires Valid() && x <= 12
      modifies aesState
      ensures aesState[..] == old(aesState[..x]) + [mcB0, mcB1, mcB2, mcB3] + old(aesState[x + 4..])
    {
      aesState[x] := mcB0;
      aesState[x + 1] := mcB1;
      aesState[x + 2] := mcB2;
      aesState[x + 3] := mcB3;
    }

    /** One column of the inverse: copied to mcA0..mcA3, summed up in mcB0..mcB3, and stored back
        at the column offset, which waits in tmp1 in the meantime. */
    method InvMixColumnAt()
      requires Valid() && aesCol < 4
      modifies aesState, this`tmp1, this`mcA0, this`mcA1, this`mcA2, this`mcA3
      modifies this`mcB0, this`mcB1, this`mcB2, this`mcB3, this`zpTemp, this`stack
      ensures aesState[..] == WithColumn(old(aesState[..]), aesCol, InvMixColumns(old(aesState[..])))
      ensures stack == old(stack)
    {
      hide MatrixRow, InvMixColumns, Asl, WithColumn;
      ghost var t: Block, x: byte := aesState[..], 4 * aesCol;
      InvColumnUpdate(t, aesCol);
      Quadruple(aesCol);
      tmp1 := Asl(Asl(aesCol));
      LoadColumn(tmp1);
      assert mcA0 == t[x] && mcA1 == t[x + 1] && mcA2 == t[x + 2] && mcA3 == t[x + 3];
      SumB0();
      SumB1();
      SumB2();
      SumB3();
      StoreColumn(tmp1);
    }

    /** aes_inv_mix_columns */
    method InvMixColumnsInPlace()
      requires Valid()
      modifies aesState, this`aesCol, this`tmp1, this`mcA0, this`mcA1, this`mcA2, this`mcA3
      modifies this`mcB0, this`mcB1, this`mcB2, this`mcB3, this`zpTemp, this`stack
      ensures aesState[..] == InvMixColumns(old(aesState[..]))
      ensures stack == old(stack)
    {
      hide WithColumn, Columns, InvMixColumns;
      ghost var s: Block := aesState[..];
      ColumnsEnds(InvMixColumns(s), s);
      aesCol := 0;
      while aesCol != 4
        invariant aesCol <= 4
        invariant aesState[..] == Columns(InvMixColumns(s), s, aesCol)
        invariant stack == old(stack)
        decreases 4 - aesCol
      {
        UnmixProgress(s, aesState[..], aesCol);
        InvMixColumnAt();
        aesCol := Inc(aesCol);
      }
    }

    /** aes_encrypt_block */
    method EncryptBlock()
      requires Valid()
      modifies aesState, this`aesRound, this`aesCol, this`tmp1, this`tmp2, this`tmp3, this`tmp4
      modifies this`zpTemp, this`stack
      ensures aesState[..] == Cipher(aesSbox, aesExpandedKey[..], old(aesState[..]))
      ensures stack == old(stack)
    {
      hide SubBytes, ShiftRows, MixColumns, AddRoundKey;
      ghost var s: Block := aesState[..];
      ghost var w: Schedule := aesExpandedKey[..];
      aesRound := 0;
      AddRoundKeyInPlace();
      aesRound := 1;
      while aesRound < 14
        invariant 1 <= aesRound <= 14
        invariant aesState[..] == Rounds(aesSbox, w, s, aesRound - 1)
        invariant stack == old(stack)
      {
        SubBytesInPlace();
        ShiftRowsInPlace();
        MixColumnsInPlace();
        AddRoundKeyInPlace();
        aesRound := Inc(aesRound);
      }
      SubBytesInPlace();
      ShiftRowsInPlace();
      AddRoundKeyInPlace();
    }

    /** aes_decrypt_block */
    method DecryptBlock()
      requires Valid()
      modifies aesState, this`aesRound, this`aesCol, this`tmp1, this`mcA0, this`mcA1, this`mcA2, this`mcA3
      modifies this`mcB0, this`mcB1, this`mcB2, this`mcB3, this`zpTemp, this`stack
      ensures aesState[..] == InvCipher(aesInvSbox, aesExpandedKey[..], old(aesState[..]))
      ensures stack == old(stack)
    {
      hide SubBytes, InvShiftRows, InvMixColumns, AddRoundKey;
      ghost var s: Block := aesState[..];
      ghost var w: Schedule := aesExpandedKey[..];
      aesRound := 14;
      AddRoundKeyInPlace();
      aesRound := 13;
      while aesRound != 0
        invariant aesRound <= 13
        invariant aesState[..] == InvRounds(aesInvSbox, w, s, 13 - aesRound)
        invariant stack == old(stack)
        decreases aesRound
      {
        InvShiftRowsInPlace();
        InvSubBytesInPlace();
        AddRoundKeyInPlace();
        InvMixColumnsInPlace();
        aesRound := Dec(aesRound);
      }
      InvShiftRowsInPlace();
      InvSubBytesInPlace();
      AddRoundKeyInPlace();
    }

    /** Encryption followed by decryption restores the state; the schedule is never written. */
    method EncryptThenDecrypt()
      requires Valid() && Inverse(aesSbox, aesInvSbox)
      modifies aesState, this
      ensures aesState[..] == old(aesState[..])
      ensures aesExpandedKey[..] == old(aesExpandedKey[..])
      ensures stack == old(stack)
    {
      hide Cipher, InvCipher;
      DecryptEncrypt(aesSbox, aesInvSbox, aesExpandedKey[..], aesState[..]);
      EncryptBlock();
      DecryptBlock();
    }

    /** Decryption followed by encryption restores the state as well. */
    method DecryptThenEncrypt()
      requires Valid() && Inverse(aesSbox, aesInvSbox)
      modifies aesState, this
      ensures aesState[..] == old(aesState[..])
      ensures aesExpandedKey[..] == old(aesExpandedKey[..])
      ensures stack == old(stack)
    {
      hide Cipher, InvCipher;
      EncryptDecrypt(aesSbox, aesInvSbox, aesExpandedKey[..], aesState[..]);
      DecryptBlock();
      EncryptBlock();
    }

    /** The four temporaries as a word. */
    ghost function Temps(): Word
      reads this
    {
      var a, b, c, d := tmp1, tmp2, tmp3, tmp4;
      [a, b, c, d]
    }

    /** The previous word, copied to the temporaries. */
    method LoadPrevious(x: byte)
      requires Valid() && 4 <= x <= 240
      modifies this`tmp1, this`tmp2, this`tmp3, this`tmp4
      ensures Temps() == aesExpandedKey[x - 4..x]
    {
      tmp1 := aesExpandedKey[x - 4];
      tmp2 := aesExpandedKey[x - 3];
      tmp3 := aesExpandedKey[x - 2];
      tmp4 := aesExpandedKey[x - 1];
    }

    /** rotword, through the stack */
    method RotateTemps()
      modifies this`tmp1, this`tmp2, this`tmp3, this`tmp4, this`stack
      ensures Temps() == old(RotWord(Temps()))
      ensures stack == old(stack)
    {
      Pha(tmp1);
      tmp1 := tmp2;
      tmp2 := tmp3;
      tmp3 := tmp4;
      tmp4 := Pla();
    }

    /** subword */
    method SubstituteTemps()
      modifies this`tmp1, this`tmp2, this`tmp3, this`tmp4
      ensures Temps() == old(SubWord(aesSbox, Temps()))
    {
      tmp1 := aesSbox[tmp1];
      tmp2 := aesSbox[tmp2];
      tmp3 := aesSbox[tmp3];
      tmp4 := aesSbox[tmp4];
    }

    /** The branches on the word counter modulo 8. */
    method TransformTemps()
      requires Valid() && 8 <= zpCount < 60
      modifies this`tmp1, this`tmp2, this`tmp3, this`tmp4, this`stack
      ensures Temps() == old(Temp(aesSbox, Temps(), zpCount))
      ensures stack == old(stack)
    {
      hide Eor, Rcon, SubWord, RotWord;
      var a := zpCount % 8;
      if a == 0 {
        RotateTemps();
        SubstituteTemps();
        var y := Dec(Lsr(Lsr(Lsr(zpCount))));
        RconIndex(zpCount);
        RconTable(y);
        EorComm(AES_RCON[y], tmp1);
        tmp1 := Eor(AES_RCON[y], tmp1);
      } else if a == 4 {
        SubstituteTemps();
      }
    }

    /** w[i] = w[i-8] ^ temp */
    method StoreWord(x: byte, ghost i: nat)
      requires Valid() && 8 <= i < 60 && x == 4 * i
      modifies aesExpandedKey
      ensures WordAt(aesExpandedKey[..], i) == old(EorWord(WordAt(aesExpandedKey[..], i - 8), Temps()))
      ensures aesExpandedKey[..4 * i] == old(aesExpandedKey[..4 * i])
    {
      hide Eor;
      aesExpandedKey[x] := Eor(aesExpandedKey[x - 32], tmp1);
      aesExpandedKey[x + 1] := Eor(aesExpandedKey[x - 31], tmp2);
      aesExpandedKey[x + 2] := Eor(aesExpandedKey[x - 30], tmp3);
      aesExpandedKey[x + 3] := Eor(aesExpandedKey[x - 29], tmp4);
    }

    method CopyKey()
      requires Valid()
      modifies aesExpandedKey
      ensures aesExpandedKey[..32] == aesCurrentKey[..]
    {
      var x: byte := 0;
      while x != 32
        invariant x <= 32
        invariant forall i :: 0 <= i < x ==> aesExpandedKey[i] == aesCurrentKey[i]
        decreases 32 - x
      {
        aesExpandedKey[x] := aesCurrentKey[x];
        x := Inc(x);
      }
    }

    /** The first n words of the schedule of the key are in place. */
    ghost predicate Expanded(key: Key, n: nat)
      requires Valid() && 8 <= n <= 60
      reads aesExpandedKey
    {
      aesExpandedKey[..4 * n] == Words(aesSbox, key, n)
    }

    /** The body of the expansion loop: word zpCount from the words before it. */
    method ExpandOneWord(ghost key: Key)
      requires Valid() && 8 <= zpCount < 60 && Expanded(key, zpCount)
      modifies aesExpandedKey, this`tmp1, this`tmp2, this`tmp3, this`tmp4, this`stack
      ensures Expanded(key, zpCount + 1)
      ensures stack == old(stack)
    {
      hide Temp, EorWord, Asl, WordAt;
      ghost var i := zpCount;
      ghost var before := aesExpandedKey[..];
      Quadruple(zpCount);
      var x := Asl(Asl(zpCount));
      LoadPrevious(x);
      WordOfPrefix(before, i, i - 1);
      WordOfPrefix(before, i, i - 8);
      TransformTemps();
      StoreWord(x, i);
      ExtendByWord(aesExpandedKey[..], i);
    }

    /** aes_key_expansion: every offset fits its register, and every word is read after it is final. */
    method KeyExpansion()
      requires Valid()
      modifies aesExpandedKey, this`zpCount, this`tmp1, this`tmp2, this`tmp3, this`tmp4, this`stack
      ensures aesExpandedKey[..] == Expand(aesSbox, aesCurrentKey[..])
      ensures stack == old(stack)
    {
      ghost var key: Key := aesCurrentKey[..];
      CopyKey();
      zpCount := 8;
      ExpandLoop(key);
      assert aesExpandedKey[..240] == aesExpandedKey[..];
    }

    method ExpandLoop(ghost key: Key)
      requires Valid() && zpCount == 8 && Expanded(key, 8)
      modifies aesExpandedKey, this`zpCount, this`tmp1, this`tmp2, this`tmp3, this`tmp4, this`stack
      ensures Expanded(key, 60)
      ensures stack == old(stack)
    {
      hide Expanded;
      while zpCount < 60
        invariant 8 <= zpCount <= 60 && Expanded(key, zpCount)
        invariant stack == old(stack)
      {
        ExpandOneWord(key);
        zpCount := Inc(zpCount);
      }
    }
  }

  /** A word below the end of a prefix. */
  lemma WordOfPrefix(w: bytes, n: nat, j: nat)
    requires j < n && 4 * n <= |w|
    ensures WordAt(w[..4 * n], j) == WordAt(w, j) == w[4 * j..4 * (j + 1)]
  {
  }

  lemma ExtendByWord(w: bytes, i: nat)
    requires 4 * (i + 1) <= |w|
    ensures w[..4 * (i + 1)] == w[..4 * i] + WordAt(w, i)
  {
  }

  function Rotated(s: Block, i: nat, j: nat, k: nat, l: nat): Block
    requires i < 16 && j < 16 && k < 16 && l < 16
  {
    s[i := s[j]][j := s[k]][k := s[l]][l := s[i]]
  }

  function Swapped(s: Block, i: nat, j: nat): Block
    requires i < 16 && j < 16
  {
    s[i := s[j]][j := s[i]]
  }

  lemma ShiftRowsByMoves(s: Block)
    ensures Rotated(Swapped(Swapped(Rotated(s, 1, 5, 9, 13), 2, 10), 6, 14), 15, 11, 7, 3) == ShiftRows(s)
  {
  }

  lemma InvShiftRowsByMoves(s: Block)
    ensures Rotated(Swapped(Swapped(Rotated(s, 13, 9, 5, 1), 2, 10), 6, 14), 3, 7, 11, 15) == InvShiftRows(s)
  {
  }

  /** Shifting a byte inside its register and reducing is multiplication by x. */
  lemma Doubling(a: byte)
    ensures Mul(a, 2) == XTime(a)
    ensures XTime(a) == if a >= 0x80 then Eor(Asl(a), 0x1B) else Asl(a)
  {
    hide Eor;
    MulDouble(a, 1);
    MulOne(a);
  }

  /** The products that the routines add up from doublings. */
  lemma Multiples(a: byte)
    ensures Mul(a, 3) == Eor(XTime(a), a)
    ensures Mul(a, 0x09) == Eor(XTime(XTime(XTime(a))), a)
    ensures Mul(a, 0x0B) == Eor(XTime(a), Eor(XTime(XTime(XTime(a))), a))
    ensures Mul(a, 0x0D) == Eor(XTime(XTime(a)), Eor(XTime(XTime(XTime(a))), a))
    ensures Mul(a, 0x0E) == Eor(XTime(a), Eor(XTime(XTime(a)), XTime(XTime(XTime(a)))))
  {
    hide Xor, Mul, XTime;
    SumOfPowers();
    MulOne(a);
    MulDouble(a, 1);
    MulDouble(a, 2);
    MulDouble(a, 4);
    MulDist(a, 2, 1);
    MulDist(a, 8, 1);
    MulDist(a, 2, 9);
    MulDist(a, 4, 9);
    MulDist(a, 4, 8);
    MulDist(a, 2, 0x0C);
  }

  lemma SumOfPowers()
    ensures Xor(2, 1) == 3 && Xor(8, 1) == 0x09 && Xor(2, 9) == 0x0B
    ensures Xor(4, 9) == 0x0D && Xor(4, 8) == 0x0C && Xor(2, 0x0C) == 0x0E
  {
    hide Xor;
    ConstantSum(2, 1);
    ConstantSum(8, 1);
    ConstantSum(2, 9);
    ConstantSum(4, 9);
    ConstantSum(4, 8);
    ConstantSum(2, 0x0C);
  }

  /** The order in which the routine adds the four terms does not matter. */
  lemma MixSum(p: byte, q: byte, r: byte, s: byte)
    ensures Eor(Eor(Eor(Mul(q, 3), Mul(p, 2)), r), s) == MatrixRow(2, 3, 1, 1, p, q, r, s)
    ensures MatrixRow(2, 3, 1, 1, p, q, s, r) == MatrixRow(2, 3, 1, 1, p, q, r, s)
  {
    hide Xor, Mul;
    MulOne(r);
    MulOne(s);
    XorComm(Mul(q, 3), Mul(p, 2));
    XorComm(r, s);
    XorAssoc(Xor(Mul(p, 2), Mul(q, 3)), r, s);
  }

  /** The state t with column c taken from u. */
  function WithColumn(t: Block, c: nat, u: Block): Block
    requires c < 4
  {
    t[..4 * c] + u[4 * c..4 * c + 4] + t[4 * c + 4..]
  }

  /** Mixing one column by four updates. */
  lemma ColumnUpdates(t: Block, c: nat)
    requires c < 4
    ensures WithColumn(t, c, MixColumns(t))
         == t[4 * c := MatrixRow(2, 3, 1, 1, t[4 * c], t[4 * c + 1], t[4 * c + 2], t[4 * c + 3])]
             [4 * c + 1 := MatrixRow(2, 3, 1, 1, t[4 * c + 1], t[4 * c + 2], t[4 * c + 3], t[4 * c])]
             [4 * c + 2 := MatrixRow(2, 3, 1, 1, t[4 * c + 2], t[4 * c + 3], t[4 * c], t[4 * c + 1])]
             [4 * c + 3 := MatrixRow(2, 3, 1, 1, t[4 * c + 3], t[4 * c], t[4 * c + 1], t[4 * c + 2])]
  {
    hide MatrixRow, MixColumns;
    MixedColumn(t, c);
  }

  lemma InvColumnUpdate(t: Block, c: nat)
    requires c < 4
    ensures WithColumn(t, c, InvMixColumns(t)) == t[..4 * c] + [
      MatrixRow(0x0E, 0x0B, 0x0D, 0x09, t[4 * c], t[4 * c + 1], t[4 * c + 2], t[4 * c + 3]),
      MatrixRow(0x0E, 0x0B, 0x0D, 0x09, t[4 * c + 1], t[4 * c + 2], t[4 * c + 3], t[4 * c]),
      MatrixRow(0x0E, 0x0B, 0x0D, 0x09, t[4 * c + 2], t[4 * c + 3], t[4 * c], t[4 * c + 1]),
      MatrixRow(0x0E, 0x0B, 0x0D, 0x09, t[4 * c + 3], t[4 * c], t[4 * c + 1], t[4 * c + 2])] + t[4 * c + 4..]
  {
    hide MatrixRow, InvMixColumns;
    UnmixedColumn(t, c);
  }

  /** The first c columns from u, the others from s. */
  function Columns(u: Block, s: Block, c: nat): Block
    requires c <= 4
  {
    u[..4 * c] + s[4 * c..]
  }

  lemma ColumnsEnds(u: Block, s: Block)
    ensures Columns(u, s, 0) == s && Columns(u, s, 4) == u
  {
  }

  /** Mixing depends on one column at a time, so column by column is all at once. */
  lemma MixProgress(s: Block, t: Block, c: nat)
    requires c < 4 && t == Columns(MixColumns(s), s, c)
    ensures WithColumn(t, c, MixColumns(t)) == Columns(MixColumns(s), s, c + 1)
  {
    hide MatrixRow, MixColumns;
    MixedColumn(s, c);
    MixedColumn(t, c);
    assert MixColumns(t)[4 * c..4 * c + 4] == MixColumns(t)[..4 * (c + 1)][4 * c..];
    assert MixColumns(s)[4 * c..4 * c + 4] == MixColumns(s)[..4 * (c + 1)][4 * c..];
    WithColumnExtends(MixColumns(s), MixColumns(t), s, c);
  }

  lemma UnmixProgress(s: Block, t: Block, c: nat)
    requires c < 4 && t == Columns(InvMixColumns(s), s, c)
    ensures WithColumn(t, c, InvMixColumns(t)) == Columns(InvMixColumns(s), s, c + 1)
  {
    hide MatrixRow, InvMixColumns;
    UnmixedColumn(s, c);
    UnmixedColumn(t, c);
    WithColumnExtends(InvMixColumns(s), InvMixColumns(t), s, c);
  }

  lemma WithColumnExtends(u: Block, v: Block, s: Block, c: nat)
    requires c < 4 && u[4 * c..4 * c + 4] == v[4 * c..4 * c + 4]
    ensures WithColumn(Columns(u, s, c), c, v) == Columns(u, s, c + 1)
  {
    assert u[..4 * (c + 1)] == u[..4 * c] + u[4 * c..4 * c + 4];
  }

  lemma UnmixedColumn(s: Block, c: nat)
    requires c < 4
    ensures InvMixColumns(s)[4 * c..4 * c + 4] == [
      MatrixRow(0x0E, 0x0B, 0x0D, 0x09, s[4 * c], s[4 * c + 1], s[4 * c + 2], s[4 * c + 3]),
      MatrixRow(0x0E, 0x0B, 0x0D, 0x09, s[4 * c + 1], s[4 * c + 2], s[4 * c + 3], s[4 * c]),
      MatrixRow(0x0E, 0x0B, 0x0D, 0x09, s[4 * c + 2], s[4 * c + 3], s[4 * c], s[4 * c + 1]),
      MatrixRow(0x0E, 0x0B, 0x0D, 0x09, s[4 * c + 3], s[4 * c], s[4 * c + 1], s[4 * c + 2])]
  {
    hide MatrixRow, InvMixColumns;
    UnmixedEntry(s, c, 0);
    UnmixedEntry(s, c, 1);
    UnmixedEntry(s, c, 2);
    UnmixedEntry(s, c, 3);
  }

  lemma UnmixedEntry(s: Block, c: nat, r: nat)
    requires c < 4 && r < 4
    ensures InvMixColumns(s)[4 * c + r]
         == MatrixRow(0x0E, 0x0B, 0x0D, 0x09,
                      s[4 * c + r], s[4 * c + (r + 1) % 4], s[4 * c + (r + 2) % 4], s[4 * c + (r + 3) % 4])
  {
    hide MatrixRow;
    InColumn(c, r);
  }

  /** Accumulating the four products in any cyclic order gives the same matrix entry. */
  lemma UnmixSum(p: byte, q: byte, r: byte, s: byte)
    ensures Eor(s, Eor(r, Eor(q, p))) == Sum4(p, q, r, s)
    ensures Sum4(q, r, s, p) == Sum4(p, q, r, s)
    ensures Sum4(r, s, p, q) == Sum4(p, q, r, s)
    ensures Sum4(s, p, q, r) == Sum4(p, q, r, s)
  {
    hide Xor;
    Sum4Rotate(p, q, r, s);
    Sum4Rotate(q, r, s, p);
    Sum4Rotate(r, s, p, q);
    XorComm(q, p);
    XorComm(r, Xor(p, q));
    XorComm(s, Xor(Xor(p, q), r));
    XorAssoc(Xor(p, q), r, s);
  }

  lemma Quadruple(c: byte)
    requires c < 0x40
    ensures Asl(Asl(c)) == 4 * c
  {
  }

  const AES_RCON: seq<byte> := [0x01, 0x02, 0x04, 0x08, 0x10, 0x20, 0x40, 0x80, 0x1B, 0x36]

  /** The table holds the successive powers of x. */
  lemma {:induction false} RconTable(j: nat)
    requires j < 10
    ensures AES_RCON[j] == Rcon(j)
  {
    if j == 0 {
    } else {
      RconTable(j - 1);
      XorZero(0x1B);
    }
  }

  lemma RconIndex(i: byte)
    requires 8 <= i < 60
    ensures Dec(Lsr(Lsr(Lsr(i)))) == i / 8 - 1
  {
  }

  lemma EorComm(a: byte, b: byte)
    ensures Eor(a, b) == Eor(b, a)
  {
    XorComm(a, b);
  }
}
