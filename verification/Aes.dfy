/** The AES-256 cipher on values, FIPS 197 sections 5.1 to 5.3, with any substitution table. */
module Aes {
  import opened Bits
  import opened Polynomials
  import opened ByteTypes
  import opened Gf256
  import opened ByteWords

  type SBox = s: seq<byte> | |s| == 0x100 witness Zeros(0x100)
  type Schedule = w: bytes | |w| == 240 witness Zeros(240)

  /** Each table undoes the other. */
  ghost predicate Inverse(sbox: SBox, inv: SBox)
  {
    && (forall b: byte :: inv[sbox[b]] == b)
    && (forall b: byte :: sbox[inv[b]] == b)
  }

  function SubBytes(sbox: SBox, s: Block): Block
  {
    seq(16, i requires 0 <= i < 16 => sbox[s[i]])
  }

  /** Row r of the column-major state moves left by r columns. */
  function ShiftRows(s: Block): Block
  {
    seq(16, i requires 0 <= i < 16 => s[(i + 4 * (i % 4)) % 16])
  }

  function InvShiftRows(s: Block): Block
  {
    seq(16, i requires 0 <= i < 16 => s[(i + 12 * (i % 4)) % 16])
  }

  /** Four products summed, the shape of every entry of a matrix times a column. */
  function Sum4(a: byte, b: byte, c: byte, d: byte): byte
  {
    Eor(Eor(a, b), Eor(c, d))
  }

  /** One entry of the circulant matrix (m0 m1 m2 m3) times the column (a0 a1 a2 a3), read from row r. */
  function MatrixRow(m0: nat, m1: nat, m2: nat, m3: nat, a0: byte, a1: byte, a2: byte, a3: byte): byte
  {
    Sum4(Mul(a0, m0), Mul(a1, m1), Mul(a2, m2), Mul(a3, m3))
  }

  /** Row r of column c, rows counted cyclically. */
  function At(s: Block, c: nat, r: nat): byte
    requires c < 4
  {
    s[4 * c + r % 4]
  }

  function MixEntry(s: Block, c: nat, r: nat): byte
    requires c < 4
  {
    MatrixRow(2, 3, 1, 1, At(s, c, r), At(s, c, r + 1), At(s, c, r + 2), At(s, c, r + 3))
  }

  function InvMixEntry(s: Block, c: nat, r: nat): byte
    requires c < 4
  {
    MatrixRow(0x0E, 0x0B, 0x0D, 0x09, At(s, c, r), At(s, c, r + 1), At(s, c, r + 2), At(s, c, r + 3))
  }

  function MixColumns(s: Block): Block
  {
    seq(16, i requires 0 <= i < 16 => MixEntry(s, i / 4, i % 4))
  }

  function InvMixColumns(s: Block): Block
  {
    seq(16, i requires 0 <= i < 16 => InvMixEntry(s, i / 4, i % 4))
  }

  function AddRoundKey(s: Block, w: Schedule, round: nat): Block
    requires round <= 14
  {
    seq(16, i requires 0 <= i < 16 => Eor(s[i], w[16 * round + i]))
  }

  /** The state after the initial key addition and n full rounds. */
  function Rounds(sbox: SBox, w: Schedule, s: Block, n: nat): Block
    requires n <= 13
  {
    if n == 0 then AddRoundKey(s, w, 0)
    else AddRoundKey(MixColumns(ShiftRows(SubBytes(sbox, Rounds(sbox, w, s, n - 1)))), w, n)
  }

  function Cipher(sbox: SBox, w: Schedule, s: Block): Block
  {
    AddRoundKey(ShiftRows(SubBytes(sbox, Rounds(sbox, w, s, 13))), w, 14)
  }

  /** The state after the inverse initial key addition and the inverse rounds 13 down to 14 - n. */
  function InvRounds(inv: SBox, w: Schedule, s: Block, n: nat): Block
    requires n <= 13
  {
    if n == 0 then AddRoundKey(s, w, 14)
    else InvMixColumns(AddRoundKey(SubBytes(inv, InvShiftRows(InvRounds(inv, w, s, n - 1))), w, 14 - n))
  }

  function InvCipher(inv: SBox, w: Schedule, s: Block): Block
  {
    AddRoundKey(SubBytes(inv, InvShiftRows(InvRounds(inv, w, s, 13))), w, 0)
  }

  lemma Modulo16(q: nat, x: nat)
    requires x < 16
    ensures (16 * q + x) % 16 == x
  {
  }

  /** The index of a state byte moved by k columns in row r. */
  lemma RowIndex(c: nat, r: nat, k: nat)
    requires r < 4
    ensures (4 * c + r + 4 * k) % 16 == 4 * ((c + k) % 4) + r
  {
    var q, m := (c + k) / 4, (c + k) % 4;
    assert 4 * c + r + 4 * k == 16 * q + (4 * m + r);
    Modulo16(q, 4 * m + r);
  }

  /** Moving by r columns and by 3r columns is moving by whole rows. */
  lemma ColumnsCancel(c: nat, r: nat)
    requires c < 4
    ensures ((c + 3 * r) % 4 + r) % 4 == c && ((c + r) % 4 + 3 * r) % 4 == c
  {
    Modulo4(r - (c + 3 * r) / 4, c);
    Modulo4(r - (c + r) / 4, c);
  }

  lemma Modulo4(k: int, c: nat)
    requires c < 4
    ensures (4 * k + c) % 4 == c
  {
  }

  lemma InColumn(c: nat, r: nat)
    requires r < 4
    ensures (4 * c + r) % 4 == r && (4 * c + r) / 4 == c
  {
  }

  /** The byte in row r of column c after the shifts. */
  lemma ShiftedAt(s: Block, c: nat, r: nat)
    requires c < 4 && r < 4
    ensures ShiftRows(s)[4 * c + r] == s[4 * ((c + r) % 4) + r]
    ensures InvShiftRows(s)[4 * c + r] == s[4 * ((c + 3 * r) % 4) + r]
  {
    RowIndex(c, r, r);
    RowIndex(c, r, 3 * r);
    InColumn(c, r);
  }

  lemma ShiftRowsInverse(s: Block)
    ensures InvShiftRows(ShiftRows(s)) == s
    ensures ShiftRows(InvShiftRows(s)) == s
  {
    hide ShiftRows, InvShiftRows;
    forall i | 0 <= i < 16
      ensures InvShiftRows(ShiftRows(s))[i] == s[i]
      ensures ShiftRows(InvShiftRows(s))[i] == s[i]
    {
      assert i == 4 * (i / 4) + i % 4;
      ShiftRowsInverseAt(s, i / 4, i % 4);
    }
  }

  lemma ShiftRowsInverseAt(s: Block, c: nat, r: nat)
    requires c < 4 && r < 4
    ensures InvShiftRows(ShiftRows(s))[4 * c + r] == s[4 * c + r]
    ensures ShiftRows(InvShiftRows(s))[4 * c + r] == s[4 * c + r]
  {
    hide ShiftRows, InvShiftRows;
    ColumnsCancel(c, r);
    var left, right := (c + r) % 4, (c + 3 * r) % 4;
    ShiftedAt(ShiftRows(s), c, r);
    ShiftedAt(s, right, r);
    ShiftedAt(InvShiftRows(s), c, r);
    ShiftedAt(s, left, r);
  }

  lemma SubBytesInverse(sbox: SBox, inv: SBox, s: Block)
    requires Inverse(sbox, inv)
    ensures SubBytes(inv, SubBytes(sbox, s)) == s
    ensures SubBytes(sbox, SubBytes(inv, s)) == s
  {
  }

  lemma AddRoundKeyTwice(s: Block, w: Schedule, round: nat)
    requires round <= 14
    ensures AddRoundKey(AddRoundKey(s, w, round), w, round) == s
  {
    hide Xor;
    forall i | 0 <= i < 16
      ensures AddRoundKey(AddRoundKey(s, w, round), w, round)[i] == s[i]
    {
      XorCancel(s[i], w[16 * round + i]);
    }
  }

  /** Sums may be taken entry by entry. */
  lemma Sum4Transpose(a: byte, b: byte, c: byte, d: byte, a': byte, b': byte, c': byte, d': byte)
    ensures Eor(Sum4(a, b, c, d), Sum4(a', b', c', d'))
         == Sum4(Eor(a, a'), Eor(b, b'), Eor(c, c'), Eor(d, d'))
  {
    hide Xor;
    XorSwap(Xor(a, b), Xor(c, d), Xor(a', b'), Xor(c', d'));
    XorSwap(a, b, a', b');
    XorSwap(c, d, c', d');
  }

  lemma MulSum4(a: byte, b: byte, c: byte, d: byte, m: nat)
    ensures Mul(Sum4(a, b, c, d), m) == Sum4(Mul(a, m), Mul(b, m), Mul(c, m), Mul(d, m))
  {
    hide Xor, Mul;
    MulLinear(Eor(a, b), Eor(c, d), m);
    MulLinear(a, b, m);
    MulLinear(c, d, m);
  }

  /** The coefficient of one input byte in a product of two circulant rows. */
  lemma Collect(a: byte, m: nat, n: nat, p: nat, q: nat, m': nat, n': nat, p': nat, q': nat)
    ensures Sum4(Mul(Mul(a, m'), m), Mul(Mul(a, n'), n), Mul(Mul(a, p'), p), Mul(Mul(a, q'), q))
         == Mul(a, Coefficient(m', m, n', n, p', p, q', q))
  {
    hide Xor, Mul, Clmul, Eor;
    MulCompose(a, m', m);
    MulCompose(a, n', n);
    MulCompose(a, p', p);
    MulCompose(a, q', q);
    MulDist(a, Clmul(m', m), Clmul(n', n));
    MulDist(a, Clmul(p', p), Clmul(q', q));
    MulDist(a, Xor(Clmul(m', m), Clmul(n', n)), Xor(Clmul(p', p), Clmul(q', q)));
  }

  lemma Sum4Rotate(a: byte, b: byte, c: byte, d: byte)
    ensures Sum4(b, c, d, a) == Sum4(a, b, c, d)
  {
    hide Xor;
    XorAssoc(Xor(b, c), d, a);
    XorComm(Xor(Xor(b, c), d), a);
    XorAssoc(b, c, d);
    XorAssoc(a, b, Xor(c, d));
  }

  lemma Sum4OfSum4(a: byte, b: byte, c: byte, d: byte, a1: byte, b1: byte, c1: byte, d1: byte,
                   a2: byte, b2: byte, c2: byte, d2: byte, a3: byte, b3: byte, c3: byte, d3: byte)
    ensures Sum4(Sum4(a, b, c, d), Sum4(a1, b1, c1, d1), Sum4(a2, b2, c2, d2), Sum4(a3, b3, c3, d3))
         == Sum4(Sum4(a, a1, a2, a3), Sum4(b, b1, b2, b3), Sum4(c, c1, c2, c3), Sum4(d, d1, d2, d3))
  {
    hide Eor;
    Sum4Transpose(a, b, c, d, a1, b1, c1, d1);
    Sum4Transpose(a2, b2, c2, d2, a3, b3, c3, d3);
    Sum4Transpose(Eor(a, a1), Eor(b, b1), Eor(c, c1), Eor(d, d1),
                  Eor(a2, a3), Eor(b2, b3), Eor(c2, c3), Eor(d2, d3));
  }

  /** One entry of a product of circulant matrices: what multiplies one input byte. */
  function Coefficient(m': nat, m: nat, n': nat, n: nat, p': nat, p: nat, q': nat, q: nat): nat
  {
    Xor(Xor(Clmul(m', m), Clmul(n', n)), Xor(Clmul(p', p), Clmul(q', q)))
  }

  /** Two circulant matrices composed: the entries of the product matrix multiply the column. */
  lemma MatrixProduct(a: byte, b: byte, c: byte, d: byte,
                      m: nat, n: nat, p: nat, q: nat, m': nat, n': nat, p': nat, q': nat)
    ensures MatrixRow(m, n, p, q,
                      MatrixRow(m', n', p', q', a, b, c, d), MatrixRow(m', n', p', q', b, c, d, a),
                      MatrixRow(m', n', p', q', c, d, a, b), MatrixRow(m', n', p', q', d, a, b, c))
         == MatrixRow(Coefficient(m', m, q', n, p', p, n', q), Coefficient(n', m, m', n, q', p, p', q),
                      Coefficient(p', m, n', n, m', p, q', q), Coefficient(q', m, p', n, n', p, m', q),
                      a, b, c, d)
  {
    hide Mul, Sum4;
    MulSum4(Mul(a, m'), Mul(b, n'), Mul(c, p'), Mul(d, q'), m);
    MulSum4(Mul(b, m'), Mul(c, n'), Mul(d, p'), Mul(a, q'), n);
    MulSum4(Mul(c, m'), Mul(d, n'), Mul(a, p'), Mul(b, q'), p);
    MulSum4(Mul(d, m'), Mul(a, n'), Mul(b, p'), Mul(c, q'), q);
    Rearrange(Mul(Mul(a, m'), m), Mul(Mul(b, n'), m), Mul(Mul(c, p'), m), Mul(Mul(d, q'), m),
              Mul(Mul(b, m'), n), Mul(Mul(c, n'), n), Mul(Mul(d, p'), n), Mul(Mul(a, q'), n),
              Mul(Mul(c, m'), p), Mul(Mul(d, n'), p), Mul(Mul(a, p'), p), Mul(Mul(b, q'), p),
              Mul(Mul(d, m'), q), Mul(Mul(a, n'), q), Mul(Mul(b, p'), q), Mul(Mul(c, q'), q));
    Collect(a, m, n, p, q, m', q', p', n');
    Collect(b, m, n, p, q, n', m', q', p');
    Collect(c, m, n, p, q, p', n', m', q');
    Collect(d, m, n, p, q, q', p', n', m');
  }

  lemma Rearrange(a: byte, b: byte, c: byte, d: byte, b1: byte, c1: byte, d1: byte, a1: byte,
                  c2: byte, d2: byte, a2: byte, b2: byte, d3: byte, a3: byte, b3: byte, c3: byte)
    ensures Sum4(Sum4(a, b, c, d), Sum4(b1, c1, d1, a1), Sum4(c2, d2, a2, b2), Sum4(d3, a3, b3, c3))
         == Sum4(Sum4(a, a1, a2, a3), Sum4(b, b1, b2, b3), Sum4(c, c1, c2, c3), Sum4(d, d1, d2, d3))
  {
    hide Sum4;
    Sum4Rotate(a1, b1, c1, d1);
    Sum4Rotate(b2, c2, d2, a2);
    Sum4Rotate(a2, b2, c2, d2);
    Sum4Rotate(c3, d3, a3, b3);
    Sum4Rotate(b3, c3, d3, a3);
    Sum4Rotate(a3, b3, c3, d3);
    Sum4OfSum4(a, b, c, d, a1, b1, c1, d1, a2, b2, c2, d2, a3, b3, c3, d3);
  }

  lemma SmallClmul(m: nat)
    ensures Clmul(1, m) == m && Clmul(m, 1) == m
    ensures Clmul(2, m) == 2 * m && Clmul(m, 2) == 2 * m
    ensures Clmul(3, m) == Xor(m, 2 * m) && Clmul(m, 3) == Xor(m, 2 * m)
  {
    hide Xor, Clmul;
    ClmulOne(m);
    ClmulComm(2, m);
    ClmulComm(3, m);
    ClmulBit(m, 1, 0);
    ClmulBit(m, 1, 1);
    XorZero(2 * m);
  }

  lemma TripleValues()
    ensures Clmul(3, 0x0E) == 0x12 && Clmul(3, 0x0B) == 0x1D && Clmul(3, 0x0D) == 0x17 && Clmul(3, 0x09) == 0x1B
    ensures Clmul(0x0E, 3) == 0x12 && Clmul(0x0B, 3) == 0x1D && Clmul(0x0D, 3) == 0x17 && Clmul(0x09, 3) == 0x1B
  {
    hide Xor, Clmul;
    SmallClmul(0x0E);
    SmallClmul(0x0B);
    SmallClmul(0x0D);
    SmallClmul(0x09);
    ConstantSum(0x0E, 0x1C);
    ConstantSum(0x0B, 0x16);
    ConstantSum(0x0D, 0x1A);
    ConstantSum(0x09, 0x12);
  }

  lemma RowSums()
    ensures Xor(Xor(0x1C, 0x0B), Xor(0x0D, 0x1B)) == 1 && Xor(Xor(0x12, 0x16), Xor(0x0D, 0x09)) == 0
    ensures Xor(Xor(0x0E, 0x1D), Xor(0x1A, 0x09)) == 0 && Xor(Xor(0x0E, 0x0B), Xor(0x17, 0x12)) == 0
  {
    hide Xor;
    ConstantSum(0x1C, 0x0B);
    ConstantSum(0x0D, 0x1B);
    ConstantSum(0x17, 0x16);
    ConstantSum(0x12, 0x16);
    ConstantSum(0x0D, 0x09);
    ConstantSum(0x04, 0x04);
    ConstantSum(0x0E, 0x1D);
    ConstantSum(0x1A, 0x09);
    ConstantSum(0x13, 0x13);
    ConstantSum(0x0E, 0x0B);
    ConstantSum(0x17, 0x12);
    ConstantSum(0x05, 0x05);
  }

  lemma BackRowSums()
    ensures Xor(Xor(0x1C, 0x1B), Xor(0x0D, 0x0B)) == 1 && Xor(Xor(0x16, 0x12), Xor(0x09, 0x0D)) == 0
    ensures Xor(Xor(0x1A, 0x1D), Xor(0x0E, 0x09)) == 0 && Xor(Xor(0x12, 0x17), Xor(0x0B, 0x0E)) == 0
  {
    hide Xor;
    ConstantSum(0x1C, 0x1B);
    ConstantSum(0x0D, 0x0B);
    ConstantSum(0x07, 0x06);
    ConstantSum(0x16, 0x12);
    ConstantSum(0x09, 0x0D);
    ConstantSum(0x04, 0x04);
    ConstantSum(0x1A, 0x1D);
    ConstantSum(0x0E, 0x09);
    ConstantSum(0x07, 0x07);
    ConstantSum(0x12, 0x17);
    ConstantSum(0x0B, 0x0E);
    ConstantSum(0x05, 0x05);
  }

  /** The matrices of MixColumns and InvMixColumns multiply to the identity, in either order. */
  lemma MatrixEntries()
    ensures Coefficient(2, 0x0E, 1, 0x0B, 1, 0x0D, 3, 0x09) == 1
    ensures Coefficient(3, 0x0E, 2, 0x0B, 1, 0x0D, 1, 0x09) == 0
    ensures Coefficient(1, 0x0E, 3, 0x0B, 2, 0x0D, 1, 0x09) == 0
    ensures Coefficient(1, 0x0E, 1, 0x0B, 3, 0x0D, 2, 0x09) == 0
    ensures Coefficient(0x0E, 2, 0x09, 3, 0x0D, 1, 0x0B, 1) == 1
    ensures Coefficient(0x0B, 2, 0x0E, 3, 0x09, 1, 0x0D, 1) == 0
    ensures Coefficient(0x0D, 2, 0x0B, 3, 0x0E, 1, 0x09, 1) == 0
    ensures Coefficient(0x09, 2, 0x0D, 3, 0x0B, 1, 0x0E, 1) == 0
  {
    hide Xor, Clmul;
    TripleValues();
    SmallClmul(0x0E);
    SmallClmul(0x0B);
    SmallClmul(0x0D);
    SmallClmul(0x09);
    RowSums();
    BackRowSums();
  }

  /** A row of the identity matrix picks its first byte. */
  lemma IdentityRow(a: byte, b: byte, c: byte, d: byte)
    ensures MatrixRow(1, 0, 0, 0, a, b, c, d) == a
  {
    hide Xor, Mul;
    MulOne(a);
    MulOne(b);
    MulOne(c);
    MulOne(d);
    XorZero(a);
    XorZero(0);
  }

  /** The inverse matrix times the mixed column gives back the column, and the other way round. */
  lemma ColumnInverse(a: byte, b: byte, c: byte, d: byte)
    ensures MatrixRow(0x0E, 0x0B, 0x0D, 0x09,
                      MatrixRow(2, 3, 1, 1, a, b, c, d), MatrixRow(2, 3, 1, 1, b, c, d, a),
                      MatrixRow(2, 3, 1, 1, c, d, a, b), MatrixRow(2, 3, 1, 1, d, a, b, c)) == a
    ensures MatrixRow(2, 3, 1, 1,
                      MatrixRow(0x0E, 0x0B, 0x0D, 0x09, a, b, c, d), MatrixRow(0x0E, 0x0B, 0x0D, 0x09, b, c, d, a),
                      MatrixRow(0x0E, 0x0B, 0x0D, 0x09, c, d, a, b), MatrixRow(0x0E, 0x0B, 0x0D, 0x09, d, a, b, c)) == a
  {
    hide MatrixRow, Coefficient;
    MatrixEntries();
    IdentityRow(a, b, c, d);
    MatrixProduct(a, b, c, d, 0x0E, 0x0B, 0x0D, 0x09, 2, 3, 1, 1);
    MatrixProduct(a, b, c, d, 2, 3, 1, 1, 0x0E, 0x0B, 0x0D, 0x09);
  }

  lemma MixColumnsInverse(s: Block)
    ensures InvMixColumns(MixColumns(s)) == s
    ensures MixColumns(InvMixColumns(s)) == s
  {
    hide MixColumns, InvMixColumns;
    forall i | 0 <= i < 16
      ensures InvMixColumns(MixColumns(s))[i] == s[i] && MixColumns(InvMixColumns(s))[i] == s[i]
    {
      MixInverseAt(s, i / 4, i % 4);
    }
  }

  lemma MixInverseAt(s: Block, c: nat, r: nat)
    requires c < 4
    ensures At(InvMixColumns(MixColumns(s)), c, r) == At(s, c, r)
    ensures At(MixColumns(InvMixColumns(s)), c, r) == At(s, c, r)
  {
    hide MatrixRow, MixColumns, InvMixColumns, At;
    MixedAt(s, c, r);
    MixedAt(s, c, r + 1);
    MixedAt(s, c, r + 2);
    MixedAt(s, c, r + 3);
    MixedAt(MixColumns(s), c, r);
    MixedAt(InvMixColumns(s), c, r);
    ColumnInverse(At(s, c, r), At(s, c, r + 1), At(s, c, r + 2), At(s, c, r + 3));
  }

  lemma MixedAt(s: Block, c: nat, r: nat)
    requires c < 4
    ensures At(MixColumns(s), c, r) == MixEntry(s, c, r)
    ensures At(InvMixColumns(s), c, r) == InvMixEntry(s, c, r)
    ensures At(s, c, r + 4) == At(s, c, r)
  {
    hide MatrixRow;
    var k := r % 4;
    InColumn(c, k);
    RowsCyclic(r);
  }

  lemma RowsCyclic(r: nat)
    ensures (r % 4) % 4 == r % 4 && (r % 4 + 1) % 4 == (r + 1) % 4
    ensures (r % 4 + 2) % 4 == (r + 2) % 4 && (r % 4 + 3) % 4 == (r + 3) % 4 && (r + 4) % 4 == r % 4
  {
  }

  lemma MixedColumn(s: Block, c: nat)
    requires c < 4
    ensures MixColumns(s)[..4 * (c + 1)] == MixColumns(s)[..4 * c] + [
      MatrixRow(2, 3, 1, 1, s[4 * c], s[4 * c + 1], s[4 * c + 2], s[4 * c + 3]),
      MatrixRow(2, 3, 1, 1, s[4 * c + 1], s[4 * c + 2], s[4 * c + 3], s[4 * c]),
      MatrixRow(2, 3, 1, 1, s[4 * c + 2], s[4 * c + 3], s[4 * c], s[4 * c + 1]),
      MatrixRow(2, 3, 1, 1, s[4 * c + 3], s[4 * c], s[4 * c + 1], s[4 * c + 2])]
  {
    hide MatrixRow, MixColumns;
    MixedEntry(s, c, 0);
    MixedEntry(s, c, 1);
    MixedEntry(s, c, 2);
    MixedEntry(s, c, 3);
  }

  lemma MixedEntry(s: Block, c: nat, r: nat)
    requires c < 4 && r < 4
    ensures MixColumns(s)[4 * c + r]
         == MatrixRow(2, 3, 1, 1,
                      s[4 * c + r], s[4 * c + (r + 1) % 4], s[4 * c + (r + 2) % 4], s[4 * c + (r + 3) % 4])
  {
    hide MatrixRow;
    InColumn(c, r);
  }

  /** One full round is undone by the inverse transformations in reverse order. */
  lemma RoundInverse(sbox: SBox, inv: SBox, w: Schedule, s: Block, round: nat)
    requires Inverse(sbox, inv) && round <= 14
    ensures var t := AddRoundKey(MixColumns(ShiftRows(SubBytes(sbox, s))), w, round);
      InvMixColumns(AddRoundKey(t, w, round)) == ShiftRows(SubBytes(sbox, s))
    ensures SubBytes(inv, InvShiftRows(ShiftRows(SubBytes(sbox, s)))) == s
  {
    hide AddRoundKey, MixColumns, ShiftRows, SubBytes, InvMixColumns, InvShiftRows;
    AddRoundKeyTwice(MixColumns(ShiftRows(SubBytes(sbox, s))), w, round);
    MixColumnsInverse(ShiftRows(SubBytes(sbox, s)));
    ShiftRowsInverse(SubBytes(sbox, s));
    SubBytesInverse(sbox, inv, s);
  }

  /** After n inverse rounds the decryption is at the input of ShiftRows of encryption round 14 - n. */
  lemma {:induction false} InvRoundsOfCipher(sbox: SBox, inv: SBox, w: Schedule, s: Block, n: nat)
    requires Inverse(sbox, inv) && n <= 13
    ensures InvRounds(inv, w, Cipher(sbox, w, s), n) == ShiftRows(SubBytes(sbox, Rounds(sbox, w, s, 13 - n)))
  {
    hide AddRoundKey, MixColumns, ShiftRows, SubBytes, InvMixColumns, InvShiftRows;
    if n == 0 {
      AddRoundKeyTwice(ShiftRows(SubBytes(sbox, Rounds(sbox, w, s, 13))), w, 14);
    } else {
      InvRoundsOfCipher(sbox, inv, w, s, n - 1);
      RoundInverse(sbox, inv, w, Rounds(sbox, w, s, 14 - n), 14 - n);
      RoundInverse(sbox, inv, w, Rounds(sbox, w, s, 13 - n), 14 - n);
    }
  }

  /** Decryption undoes encryption for every state and every 240-byte schedule. */
  lemma DecryptEncrypt(sbox: SBox, inv: SBox, w: Schedule, s: Block)
    requires Inverse(sbox, inv)
    ensures InvCipher(inv, w, Cipher(sbox, w, s)) == s
  {
    hide AddRoundKey, MixColumns, ShiftRows, SubBytes, InvMixColumns, InvShiftRows;
    InvRoundsOfCipher(sbox, inv, w, s, 13);
    RoundInverse(sbox, inv, w, Rounds(sbox, w, s, 0), 0);
    AddRoundKeyTwice(s, w, 0);
  }

  /** Encryption from the output of n encryption rounds of a decrypted state. */
  lemma {:induction false} RoundsOfInvCipher(sbox: SBox, inv: SBox, w: Schedule, s: Block, n: nat)
    requires Inverse(sbox, inv) && n <= 13
    ensures Rounds(sbox, w, InvCipher(inv, w, s), n) == SubBytes(inv, InvShiftRows(InvRounds(inv, w, s, 13 - n)))
  {
    hide AddRoundKey, MixColumns, ShiftRows, SubBytes, InvMixColumns, InvShiftRows;
    var t := SubBytes(inv, InvShiftRows(InvRounds(inv, w, s, 13 - n)));
    if n == 0 {
      AddRoundKeyTwice(t, w, 0);
    } else {
      RoundsOfInvCipher(sbox, inv, w, s, n - 1);
      var u := InvRounds(inv, w, s, 14 - n);
      SubBytesInverse(sbox, inv, InvShiftRows(u));
      ShiftRowsInverse(u);
      MixColumnsInverse(AddRoundKey(t, w, n));
      AddRoundKeyTwice(t, w, n);
    }
  }

  /** Encryption undoes decryption for every state and every 240-byte schedule. */
  lemma EncryptDecrypt(sbox: SBox, inv: SBox, w: Schedule, s: Block)
    requires Inverse(sbox, inv)
    ensures Cipher(sbox, w, InvCipher(inv, w, s)) == s
  {
    hide AddRoundKey, MixColumns, ShiftRows, SubBytes, InvMixColumns, InvShiftRows;
    RoundsOfInvCipher(sbox, inv, w, s, 13);
    SubBytesInverse(sbox, inv, InvShiftRows(InvRounds(inv, w, s, 0)));
    ShiftRowsInverse(InvRounds(inv, w, s, 0));
    AddRoundKeyTwice(s, w, 14);
  }
}
