/** The AES-256 key schedule byte by byte, FIPS 197 section 5.2. */
module ScheduleBytes {
  import opened Bits
  import opened ByteTypes
  import opened Aes
  import opened KeySchedule
  import opened Gf256

  /** The schedule starts with the key, and every later byte is the byte 32 places before plus one taken from the
      previous word: in words 8, 16, .. the substituted byte of the next position, cyclically, with the round
      constant added in the first position; in words 12, 20, .. the substituted byte of the same position; in all
      others that byte itself. */
  lemma ScheduleByte(sbox: SBox, key: Key, j: nat)
    requires j < 240
    ensures var w := Expand(sbox, key);
      w[j] == if j < 32 then key[j]
              else Xor(w[j - 32],
                if j % 32 < 4 then
                  Xor(sbox[w[if j % 4 == 3 then j - 7 else j - 3]], if j % 32 == 0 then Shl(1, j / 32 - 1) else 0)
                else if 16 <= j % 32 < 20 then sbox[w[j - 4]]
                else w[j - 4])
  {
    hide Xor, Shl, Expand, NextWord;
    var w := Expand(sbox, key);
    ExpandIsSchedule(sbox, key);
    if j < 32 {
      assert w[j] == w[..32][j];
    } else {
      WordIndex(j);
      assert WordAt(w, j / 4)[j % 4] == w[j];
      NextByte(sbox, w, j / 4, j % 4);
    }
  }

  /** Byte k of word i. */
  lemma NextByte(sbox: SBox, w: Schedule, i: nat, k: nat)
    requires 8 <= i < 60 && k < 4
    ensures NextWord(sbox, w, i)[k] == Xor(w[4 * (i - 8) + k],
              if i % 8 == 0 then
                Xor(sbox[w[4 * (i - 1) + (k + 1) % 4]], if k == 0 then Shl(1, i / 8 - 1) else 0)
              else if i % 8 == 4 then sbox[w[4 * (i - 1) + k]]
              else w[4 * (i - 1) + k])
  {
    hide Xor, Shl, Rcon;
    var t := WordAt(w, i - 1);
    if i % 8 == 0 {
      RconIsPower(i / 8 - 1);
      XorZero(sbox[t[(k + 1) % 4]]);
    }
  }

  lemma {:induction false} RconIsPower(m: nat)
    requires m < 8
    ensures Rcon(m) == Shl(1, m) < 0x100
  {
    if m == 0 {
    } else {
      RconIsPower(m - 1);
      assert Shl(1, 7) == 0x80;
      ShlMonotoneExponent(m, 7);
      ShlMonotoneExponent(m - 1, 6);
    }
  }

  lemma WordIndex(j: nat)
    ensures j == 4 * (j / 4) + j % 4 && j / 4 / 8 == j / 32
    ensures j % 32 == 4 * (j / 4 % 8) + j % 4
  {
  }
}
