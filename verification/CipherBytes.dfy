/** AES-256 byte by byte: what one byte of the state is after each round of encryption and of decryption, written
    with the substitution table, the round key and GF(2^8) only. */
module CipherBytes {
  import opened Bits
  import opened ByteTypes
  import opened Gf256
  import opened Aes
  import opened KeySchedule
  import opened AesOracle

  /** The state before the first round. */
  lemma FirstRoundByte(sbox: SBox, w: Schedule, s: Block, i: nat)
    requires i < 16
    ensures Rounds(sbox, w, s, 0)[i] == Xor(s[i], w[i])
  {
    hide Xor;
  }

  /** Round n, byte r of column c: with a0 to a3 the substituted bytes that the shifts bring into rows r, r + 1,
      r + 2 and r + 3 of the column, it is 2 * a0 + 3 * a1 + a2 + a3 plus the key byte. */
  lemma RoundByte(sbox: SBox, w: Schedule, s: Block, n: nat, c: nat, r: nat)
    requires 0 < n <= 13 && c < 4 && r < 4
    ensures var p := Rounds(sbox, w, s, n - 1);
      var a0, a1 := sbox[p[4 * ((c + r) % 4) + r]], sbox[p[4 * ((c + r + 1) % 4) + (r + 1) % 4]];
      var a2, a3 := sbox[p[4 * ((c + r + 2) % 4) + (r + 2) % 4]], sbox[p[4 * ((c + r + 3) % 4) + (r + 3) % 4]];
      Rounds(sbox, w, s, n)[4 * c + r]
        == Xor(Xor(Xor(XTime(a0), Xor(a1, XTime(a1))), Xor(a2, a3)), w[16 * n + 4 * c + r])
  {
    hide Xor, XTime, ShiftRows, SubBytes, MixColumns, AddRoundKey, Rounds;
    var p := Rounds(sbox, w, s, n - 1);
    RoundStep(sbox, w, s, n);
    MovedByte(sbox, p, c, r);
    MovedByteBelow(sbox, p, c, r, 1);
    MovedByteBelow(sbox, p, c, r, 2);
    MovedByteBelow(sbox, p, c, r, 3);
    MixedByte(w, ShiftRows(SubBytes(sbox, p)), n, c, r);
  }

  lemma RoundStep(sbox: SBox, w: Schedule, s: Block, n: nat)
    requires 0 < n <= 13
    ensures Rounds(sbox, w, s, n)
         == AddRoundKey(MixColumns(ShiftRows(SubBytes(sbox, Rounds(sbox, w, s, n - 1)))), w, n)
  {
  }

  /** One byte after the substitution and the shifts. */
  lemma MovedByte(sbox: SBox, p: Block, c: nat, r: nat)
    requires c < 4 && r < 4
    ensures ShiftRows(SubBytes(sbox, p))[4 * c + r] == sbox[p[4 * ((c + r) % 4) + r]]
  {
    hide ShiftRows;
    ShiftedAt(SubBytes(sbox, p), c, r);
  }

  /** The same k rows below. */
  lemma MovedByteBelow(sbox: SBox, p: Block, c: nat, r: nat, k: nat)
    requires c < 4
    ensures ShiftRows(SubBytes(sbox, p))[4 * c + (r + k) % 4] == sbox[p[4 * ((c + r + k) % 4) + (r + k) % 4]]
  {
    hide ShiftRows, SubBytes;
    MovedByte(sbox, p, c, (r + k) % 4);
    AddModulo4(c, r + k);
  }

  /** One byte after the mixing and the key addition. */
  lemma MixedByte(w: Schedule, t: Block, n: nat, c: nat, r: nat)
    requires n <= 14 && c < 4 && r < 4
    ensures var a0, a1, a2, a3 := t[4 * c + r], t[4 * c + (r + 1) % 4], t[4 * c + (r + 2) % 4], t[4 * c + (r + 3) % 4];
      AddRoundKey(MixColumns(t), w, n)[4 * c + r]
        == Xor(Xor(Xor(XTime(a0), Xor(a1, XTime(a1))), Xor(a2, a3)), w[16 * n + 4 * c + r])
  {
    hide Xor, XTime, Mul, MixColumns;
    MixedEntry(t, c, r);
    SmallProducts(t[4 * c + r], t[4 * c + (r + 1) % 4]);
    SmallProducts(t[4 * c + (r + 2) % 4], t[4 * c + (r + 3) % 4]);
  }

  lemma AddModulo4(c: nat, k: nat)
    ensures (c + k % 4) % 4 == (c + k) % 4
  {
  }

  lemma SmallProducts(a: byte, b: byte)
    ensures Mul(a, 1) == a && Mul(b, 1) == b
    ensures Mul(a, 2) == XTime(a) && Mul(b, 3) == Eor(b, XTime(b))
  {
    TripleIsDoublePlusOne(a);
    TripleIsDoublePlusOne(b);
  }

  /** The ciphertext: the last round has no mixing. */
  lemma CipherByte(sbox: SBox, w: Schedule, s: Block, c: nat, r: nat)
    requires c < 4 && r < 4
    ensures var p := Rounds(sbox, w, s, 13);
      Cipher(sbox, w, s)[4 * c + r] == Xor(sbox[p[4 * ((c + r) % 4) + r]], w[224 + 4 * c + r])
  {
    hide Xor, ShiftRows, Rounds;
    ShiftedAt(SubBytes(sbox, Rounds(sbox, w, s, 13)), c, r);
  }

  /** The state before the first inverse round. */
  lemma FirstInvRoundByte(inv: SBox, w: Schedule, s: Block, i: nat)
    requires i < 16
    ensures InvRounds(inv, w, s, 0)[i] == Xor(s[i], w[224 + i])
  {
    hide Xor;
  }

  /** The inverse round with a given round key, rows r, r1, r2 and r3 of a column: the bytes shifted back, substituted
      and added to the key, times (0E 0B 0D 09). */
  lemma InvRoundByte(inv: SBox, w: Schedule, s: Block, round: nat, c: nat, r: nat, r1: nat, r2: nat, r3: nat)
    requires 1 <= round <= 13 && c < 4 && r < 4
    requires r1 == (r + 1) % 4 && r2 == (r + 2) % 4 && r3 == (r + 3) % 4
    ensures var p := InvRounds(inv, w, s, 13 - round);
      var b0 := Eor(inv[p[4 * ((c + 3 * r) % 4) + r]], w[16 * round + 4 * c + r]);
      var b1 := Eor(inv[p[4 * ((c + 3 * r1) % 4) + r1]], w[16 * round + 4 * c + r1]);
      var b2 := Eor(inv[p[4 * ((c + 3 * r2) % 4) + r2]], w[16 * round + 4 * c + r2]);
      var b3 := Eor(inv[p[4 * ((c + 3 * r3) % 4) + r3]], w[16 * round + 4 * c + r3]);
      InvRounds(inv, w, s, 14 - round)[4 * c + r]
        == Xor(Xor(Mul(b0, 0x0E), Mul(b1, 0x0B)), Xor(Mul(b2, 0x0D), Mul(b3, 0x09)))
  {
    hide Mul, Xor, Eor, InvShiftRows, SubBytes, AddRoundKey, InvMixColumns, InvRounds;
    var p := InvRounds(inv, w, s, 13 - round);
    InvRoundStep(inv, w, s, 14 - round);
    InvMixedEntry(AddRoundKey(SubBytes(inv, InvShiftRows(p)), w, round), c, r);
    InvKeyedByte(inv, w, p, round, c, r);
    InvKeyedByte(inv, w, p, round, c, r1);
    InvKeyedByte(inv, w, p, round, c, r2);
    InvKeyedByte(inv, w, p, round, c, r3);
  }

  lemma InvRoundStep(inv: SBox, w: Schedule, s: Block, n: nat)
    requires 0 < n <= 13
    ensures InvRounds(inv, w, s, n)
         == InvMixColumns(AddRoundKey(SubBytes(inv, InvShiftRows(InvRounds(inv, w, s, n - 1))), w, 14 - n))
  {
  }

  lemma InvKeyedByte(inv: SBox, w: Schedule, p: Block, round: nat, c: nat, r: nat)
    requires round <= 14 && c < 4 && r < 4
    ensures AddRoundKey(SubBytes(inv, InvShiftRows(p)), w, round)[4 * c + r]
         == Eor(inv[p[4 * ((c + 3 * r) % 4) + r]], w[16 * round + 4 * c + r])
  {
    hide Eor, InvShiftRows;
    ShiftedAt(p, c, r);
  }

  lemma InvMixedEntry(s: Block, c: nat, r: nat)
    requires c < 4 && r < 4
    ensures InvMixColumns(s)[4 * c + r]
         == Xor(Xor(Mul(s[4 * c + r], 0x0E), Mul(s[4 * c + (r + 1) % 4], 0x0B)),
                Xor(Mul(s[4 * c + (r + 2) % 4], 0x0D), Mul(s[4 * c + (r + 3) % 4], 0x09)))
  {
    hide Mul, Xor;
    InColumn(c, r);
  }

  /** The plaintext: the last inverse round has no mixing. */
  lemma InvCipherByte(inv: SBox, w: Schedule, s: Block, c: nat, r: nat)
    requires c < 4 && r < 4
    ensures var p := InvRounds(inv, w, s, 13);
      InvCipher(inv, w, s)[4 * c + r] == Xor(inv[p[4 * ((c + 3 * r) % 4) + r]], w[4 * c + r])
  {
    hide Xor, InvShiftRows, InvRounds;
    ShiftedAt(InvRounds(inv, w, s, 13), c, r);
  }

  /** The block cipher of a key is the cipher of its schedule. */
  lemma Aes256Byte(sbox: SBox, key: Key, s: Block, c: nat, r: nat)
    requires c < 4 && r < 4
    ensures var w := Expand(sbox, key); var p := Rounds(sbox, w, s, 13);
      Aes256(sbox)(key, s)[4 * c + r] == Xor(sbox[p[4 * ((c + r) % 4) + r]], w[224 + 4 * c + r])
  {
    hide Xor, Rounds, Expand, Cipher;
    CipherByte(sbox, Expand(sbox, key), s, c, r);
  }
}
