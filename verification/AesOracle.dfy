/** The pure-Python AES-256 of tools/hazmat_oracle.py. */
module AesOracle {
  import opened Bits
  import opened ByteTypes
  import opened Gf256
  import opened Aes
  import opened KeySchedule

  /** The list of words is the byte string cut every four bytes. */
  ghost predicate Cut(list: seq<Word>, w: bytes)
  {
    |w| == 4 * |list| && forall j :: 0 <= j < |list| ==> list[j] == WordAt(w, j)
  }

  lemma CutAppend(list: seq<Word>, w: bytes, word: Word)
    requires Cut(list, w)
    ensures Cut(list + [word], w + word)
  {
    forall j | 0 <= j < |list|
      ensures WordAt(w + word, j) == WordAt(w, j)
    {
    }
    assert WordAt(w + word, |list|) == word;
  }

  /** sum(words, []) */
  function Join(words: seq<Word>): bytes
  {
    if words == [] then [] else words[0][..] + Join(words[1..])
  }

  lemma JoinFour(words: seq<Word>)
    requires |words| == 4
    ensures Join(words) == words[0][..] + (words[1][..] + (words[2][..] + words[3][..]))
  {
    assert words[1..][1..] == words[2..] && words[2..][1..] == words[3..] && words[3..][1..] == [];
    assert Join(words[3..]) == words[3][..] + Join([]);
    assert Join(words[2..]) == words[2][..] + Join(words[3..]);
    assert Join(words[1..]) == words[1][..] + Join(words[2..]);
  }

  lemma CutFour(list: seq<Word>, w: bytes, r: nat)
    requires Cut(list, w) && 4 * r + 4 <= |list|
    ensures Join(list[4 * r..4 * r + 4]) == w[16 * r..16 * r + 16]
  {
    var p := 16 * r;
    assert list[4 * r] == w[p..p + 4] && list[4 * r + 1] == w[p + 4..p + 8];
    assert list[4 * r + 2] == w[p + 8..p + 12] && list[4 * r + 3] == w[p + 12..p + 16];
    JoinFour(list[4 * r..4 * r + 4]);
    assert w[p..p + 16] == w[p..p + 4] + w[p + 4..p + 8] + w[p + 8..p + 12] + w[p + 12..p + 16];
  }

  /** The word to add at index i, and the round constant for the next use. */
  method ScheduleTemp(sbox: SBox, previous: Word, i: nat, rcon: byte) returns (t: Word, nextRcon: byte)
    requires i >= 8 && rcon == Rcon((i - 1) / 8)
    ensures t == Temp(sbox, previous, i)
    ensures nextRcon == Rcon(i / 8)
  {
    hide Eor, XTime;
    t, nextRcon := previous, rcon;
    if i % 8 == 0 {
      assert (i - 1) / 8 == i / 8 - 1;
      t := t[1..] + t[..1];
      t := [sbox[t[0]], sbox[t[1]], sbox[t[2]], sbox[t[3]]];
      t := t[0 := Eor(t[0], rcon)];
      nextRcon := XTime(rcon);
    } else {
      assert (i - 1) / 8 == i / 8;
      if i % 8 == 4 {
        t := [sbox[t[0]], sbox[t[1]], sbox[t[2]], sbox[t[3]]];
      }
    }
  }

  /** The schedule as a growing list of words, cut into fifteen round keys. */
  method ExpandKey(sbox: SBox, key: Key) returns (roundKeys: seq<Block>)
    ensures |roundKeys| == 15
    ensures forall r :: 0 <= r < 15 ==> roundKeys[r] == Expand(sbox, key)[16 * r..16 * r + 16]
  {
    hide Temp, EorWord;
    var w: seq<Word> := [];
    for i := 0 to 8
      invariant |w| == i && Cut(w, key[..4 * i])
    {
      CutAppend(w, key[..4 * i], WordAt(key, i));
      assert key[..4 * (i + 1)] == key[..4 * i] + WordAt(key, i);
      w := w + [key[4 * i..4 * i + 4]];
    }
    assert key[..32] == key;
    var rcon: byte := 1;
    for i := 8 to 60
      invariant |w| == i && Cut(w, Words(sbox, key, i))
      invariant rcon == Rcon((i - 1) / 8)
    {
      ghost var done := Words(sbox, key, i);
      var t, nextRcon := ScheduleTemp(sbox, w[i - 1], i, rcon);
      CutAppend(w, done, NextWord(sbox, done, i));
      w := w + [EorWord(w[i - 8], t)];
      rcon := nextRcon;
    }
    roundKeys := [];
    for r := 0 to 15
      invariant |roundKeys| == r
      invariant forall j :: 0 <= j < r ==> roundKeys[j] == Expand(sbox, key)[16 * j..16 * j + 16]
    {
      CutFour(w, Expand(sbox, key), r);
      roundKeys := roundKeys + [Join(w[4 * r..4 * r + 4])];
    }
  }

  /** t, the sum of the column */
  function ColumnSum(a: byte, b: byte, c: byte, d: byte): byte
  {
    Eor(Eor(Eor(a, b), c), d)
  }

  /** The oracle's column formula: a[i] ^ t ^ xtime(a[i] ^ a[i+1]) */
  function ColumnFormula(a: byte, b: byte, t: byte): byte
  {
    Eor(Eor(a, t), XTime(Eor(a, b)))
  }

  /** The sum is the same from whichever row it starts. */
  lemma ColumnSumRotates(a: byte, b: byte, c: byte, d: byte)
    ensures ColumnSum(b, c, d, a) == ColumnSum(a, b, c, d)
  {
    hide Xor;
    XorComm(Xor(Xor(b, c), d), a);
    XorAssoc(Xor(a, b), c, d);
    XorAssoc(a, b, Xor(c, d));
    XorAssoc(b, c, d);
  }

  lemma TripleIsDoublePlusOne(b: byte)
    ensures Mul(b, 3) == Eor(b, XTime(b)) && Mul(b, 2) == XTime(b) && Mul(b, 1) == b
  {
    hide XTime, Eor;
    MulOne(b);
    MulStep(b, 1, 1);
    MulDouble(b, 1);
  }

  lemma ColumnFormulaIsMatrixRow(a: byte, b: byte, c: byte, d: byte)
    ensures ColumnFormula(a, b, ColumnSum(a, b, c, d)) == MatrixRow(2, 3, 1, 1, a, b, c, d)
  {
    hide Xor, Mul, XTime;
    var x, y := XTime(a), XTime(b);
    TripleIsDoublePlusOne(a);
    TripleIsDoublePlusOne(b);
    TripleIsDoublePlusOne(c);
    TripleIsDoublePlusOne(d);
    XTimeLinear(a, b);
    // a ^ (((a ^ b) ^ c) ^ d) == b ^ (c ^ d)
    XorAssoc(Xor(a, b), c, d);
    XorAssoc(a, b, Xor(c, d));
    XorCancel(Xor(b, Xor(c, d)), a);
    // (b ^ (c ^ d)) ^ (x ^ y) == (x ^ (b ^ y)) ^ (c ^ d)
    XorSwap(b, Xor(c, d), y, x);
    XorComm(y, x);
    XorComm(Xor(c, d), x);
    XorAssoc(Xor(b, y), x, Xor(c, d));
    XorComm(Xor(b, y), x);
  }

  method MixColumnsOracle(s: Block) returns (r: Block)
    ensures r == MixColumns(s)
  {
    hide MatrixRow, ColumnFormula, ColumnSum;
    var out: bytes := [];
    for c := 0 to 4
      invariant out == MixColumns(s)[..4 * c]
    {
      var a := s[4 * c..4 * c + 4];
      var t := ColumnSum(a[0], a[1], a[2], a[3]);
      ColumnSumRotates(a[0], a[1], a[2], a[3]);
      ColumnSumRotates(a[1], a[2], a[3], a[0]);
      ColumnSumRotates(a[2], a[3], a[0], a[1]);
      ColumnFormulaIsMatrixRow(a[0], a[1], a[2], a[3]);
      ColumnFormulaIsMatrixRow(a[1], a[2], a[3], a[0]);
      ColumnFormulaIsMatrixRow(a[2], a[3], a[0], a[1]);
      ColumnFormulaIsMatrixRow(a[3], a[0], a[1], a[2]);
      MixedColumn(s, c);
      out := out + [ColumnFormula(a[0], a[1], t), ColumnFormula(a[1], a[2], t),
                    ColumnFormula(a[2], a[3], t), ColumnFormula(a[3], a[0], t)];
    }
    r := out;
  }

  /** aes256_encrypt_block: fourteen rounds, the last one without MixColumns. */
  method EncryptBlock(sbox: SBox, key: Key, block: Block) returns (s: Block)
    ensures s == Cipher(sbox, Expand(sbox, key), block)
  {
    hide SubBytes, ShiftRows, MixColumns, AddRoundKey, Expand;
    ghost var w := Expand(sbox, key);
    var rk := ExpandKey(sbox, key);
    s := AddKey(block, rk[0], w, 0);
    for rnd := 1 to 15
      invariant s == if rnd <= 14 then Rounds(sbox, w, block, rnd - 1) else Cipher(sbox, w, block)
    {
      s := SubBytes(sbox, s);
      s := ShiftRows(s);
      if rnd != 14 {
        s := MixColumnsOracle(s);
      }
      s := AddKey(s, rk[rnd], w, rnd);
    }
  }

  /** Bytewise exclusive or with a round key. */
  method AddKey(s: Block, rk: Block, ghost w: Schedule, ghost round: nat) returns (r: Block)
    requires round <= 14 && rk == w[16 * round..16 * round + 16]
    ensures r == AddRoundKey(s, w, round)
  {
    hide Eor;
    r := seq(16, i requires 0 <= i < 16 => Eor(s[i], rk[i]));
  }
}
