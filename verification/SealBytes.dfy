/** AES-256-GCM-SIV byte by byte, RFC 8452 sections 4 and 5: which bytes go through the block cipher, and where each
    byte of the keys, the tag, the ciphertext and the plaintext comes from. */
module SealBytes {
  import opened Bits
  import opened Field
  import opened XPowers
  import opened ByteTypes
  import opened Bytes
  import opened Outcomes
  import opened Hash
  import opened GcmSiv

  // ----- key derivation -----

  lemma {:induction false} DerivedAt(E: BlockCipher, key: Key, nonce: Nonce, n: nat, j: nat)
    requires n <= 0x100 && j < 8 * n
    ensures Derived(E, key, nonce, n)[j] == E(key, [j / 8, 0, 0, 0] + nonce)[j % 8]
  {
    hide DerivedBytes;
    if j < 8 * n - 8 {
      DerivedAt(E, key, nonce, n - 1, j);
    } else {
      assert j / 8 == n - 1 && j % 8 == j - 8 * (n - 1);
      DerivedPart(E, key, nonce, n - 1);
    }
  }

  lemma DerivedPart(E: BlockCipher, key: Key, nonce: Nonce, i: byte)
    ensures DerivedBytes(E, key, nonce, i) == E(key, [i, 0, 0, 0] + nonce)[..8]
  {
    CounterPrefix(i);
  }

  /** The authentication key is the first halves of the cipher outputs for counters 0 and 1. */
  lemma AuthKeyByte(E: BlockCipher, key: Key, nonce: Nonce, j: nat)
    requires j < 16
    ensures AuthKey(E, key, nonce)[j] == E(key, [j / 8, 0, 0, 0] + nonce)[j % 8]
  {
    hide Derived;
    DerivedAt(E, key, nonce, 6, j);
  }

  /** The encryption key is the first halves of the cipher outputs for counters 2 to 5. */
  lemma EncKeyByte(E: BlockCipher, key: Key, nonce: Nonce, j: nat)
    requires j < 32
    ensures EncKey(E, key, nonce)[j] == E(key, [2 + j / 8, 0, 0, 0] + nonce)[j % 8]
  {
    hide Derived;
    DerivedAt(E, key, nonce, 6, 16 + j);
  }

  // ----- the tag -----

  /** Padding keeps every byte and adds zeros. */
  lemma PaddedByte(b: bytes, i: nat)
    requires i < |Pad16(b)|
    ensures Pad16(b)[i] == if i < |b| then b[i] else 0
  {
  }

  /** The length block holds the two bit lengths, little-endian, in eight bytes each. */
  lemma LengthByte(aad: bytes, pt: bytes, j: nat)
    requires j < 8
    ensures LengthBlock(aad, pt)[j] == Shr(8 * |aad|, 8 * j) % 0x100
    ensures LengthBlock(aad, pt)[8 + j] == Shr(8 * |pt|, 8 * j) % 0x100
  {
    hide LeBytes, Shr;
    LeBytesAt(8 * |aad|, 8, j);
    LeBytesAt(8 * |pt|, 8, j);
  }

  /** The tag is the cipher of the block b whose bytes are those of the hash s over the padded associated data, the
      padded plaintext and the length block, with the nonce added to the first twelve and the top bit cleared. */
  lemma TagByPowerSum(E: BlockCipher, authKey: Block, encKey: Key, nonce: Nonce, pt: bytes, aad: bytes,
                      s: Block, b: Block)
    requires s == FromElem(PowerSum(Prime(ToElem(authKey)),
                                    ToElems(Blocks(Pad16(aad)) + Blocks(Pad16(pt)) + [LengthBlock(aad, pt)])))
    requires forall i :: 0 <= i < 12 ==> b[i] == Eor(s[i], nonce[i])
    requires b[12] == s[12] && b[13] == s[13] && b[14] == s[14] && b[15] == s[15] % 0x80
    ensures Tag(E, authKey, encKey, nonce, pt, aad) == E(encKey, b)
  {
    hide Eor, Pad16, Blocks, LengthBlock, Encoding, PowerSum, Polyval, FromElem, ToElem, Prime;
    EncodingBlocks(aad, pt);
    PolyvalIsPowerSum(ToElem(authKey), ToElems(Blocks(Encoding(aad, pt))));
    assert TagBase(s, nonce) == b;
  }

  // ----- counter mode -----

  lemma CounterBlockIs(tag: Block, i: nat, c: Block)
    requires Le(c[..4]) == (Le(tag[..4]) + i) % 0x1_0000_0000
    requires c[4..15] == tag[4..15] && c[15] == tag[15] % 0x80 + 0x80
    ensures CounterBlock(tag, i) == c
  {
    hide Le, LeBytes;
    LeBytesOfLe(c[..4]);
    assert |c[..4]| == 4;
    assert c == c[..4] + c[4..15] + [c[15]];
  }

  /** Byte n of the data is combined with byte n % 16 of the cipher of block c, whose low four bytes count on from
      those of the tag and whose other bytes are those of the tag with the top bit set. */
  lemma CtrByte(E: BlockCipher, encKey: Key, tag: Block, data: bytes, n: nat, c: Block)
    requires n < |data|
    requires Le(c[..4]) == (Le(tag[..4]) + n / 16) % 0x1_0000_0000
    requires c[4..15] == tag[4..15] && c[15] == tag[15] % 0x80 + 0x80
    ensures Ctr(E, encKey, tag, data)[n] == Eor(data[n], E(encKey, c)[n % 16])
  {
    hide Eor, CounterBlock;
    CounterBlockIs(tag, n / 16, c);
  }

  // ----- the composition -----

  /** Encryption raises exactly when a bit length needs more than 64 bits. */
  lemma EncryptRaises(E: BlockCipher, key: Key, nonce: Nonce, pt: bytes, aad: bytes)
    ensures Encrypt(E, key, nonce, pt, aad).Raised? <==> |aad| >= Shl(1, 61) || |pt| >= Shl(1, 61)
  {
    EightTimes();
  }

  /** Decryption raises exactly when a bit length needs more than 64 bits. */
  lemma DecryptRaises(E: BlockCipher, key: Key, nonce: Nonce, ct: bytes, tag: Block, aad: bytes)
    ensures Decrypt(E, key, nonce, ct, tag, aad).Raised? <==> |aad| >= Shl(1, 61) || |ct| >= Shl(1, 61)
  {
    EightTimes();
  }

  lemma EightTimes()
    ensures 8 * Shl(1, 61) == TWO64
  {
    WordPowers();
    PowerProduct(61, 3);
  }

  /** Encryption: byte n of the ciphertext is byte n of the plaintext combined with the cipher of the block c that
      counts on from the tag. */
  lemma EncryptByte(E: BlockCipher, key: Key, nonce: Nonce, pt: bytes, aad: bytes, ct: bytes, tag: Block,
                    n: nat, c: Block)
    requires Encrypt(E, key, nonce, pt, aad) == Ok((ct, tag)) && n < |pt|
    requires Le(c[..4]) == (Le(tag[..4]) + n / 16) % 0x1_0000_0000
    requires c[4..15] == tag[4..15] && c[15] == tag[15] % 0x80 + 0x80
    ensures |ct| == |pt| && ct[n] == Eor(pt[n], E(EncKey(E, key, nonce), c)[n % 16])
  {
    hide Eor, Le, Ctr, Tag, AuthKey, EncKey, Fits;
    CtrByte(E, EncKey(E, key, nonce), tag, pt, n, c);
  }

  /** Encryption: the tag is the cipher of the block b of the hash s over the plaintext. */
  lemma EncryptTag(E: BlockCipher, key: Key, nonce: Nonce, pt: bytes, aad: bytes, ct: bytes, tag: Block,
                   s: Block, b: Block)
    requires Encrypt(E, key, nonce, pt, aad) == Ok((ct, tag))
    requires s == FromElem(PowerSum(Prime(ToElem(AuthKey(E, key, nonce))),
                                    ToElems(Blocks(Pad16(aad)) + Blocks(Pad16(pt)) + [LengthBlock(aad, pt)])))
    requires forall i :: 0 <= i < 12 ==> b[i] == Eor(s[i], nonce[i])
    requires b[12] == s[12] && b[13] == s[13] && b[14] == s[14] && b[15] == s[15] % 0x80
    ensures |ct| == |pt| && tag == E(EncKey(E, key, nonce), b)
  {
    hide Eor, Ctr, Tag, AuthKey, EncKey, PowerSum, FromElem, ToElem, ToElems, Blocks, Pad16, LengthBlock, Prime, Fits;
    TagByPowerSum(E, AuthKey(E, key, nonce), EncKey(E, key, nonce), nonce, pt, aad, s, b);
  }

  /** Decryption: byte n of the candidate plaintext is byte n of the ciphertext combined with the cipher of the block c
      that counts on from the received tag, whatever that tag is. */
  lemma DecryptByte(E: BlockCipher, key: Key, nonce: Nonce, ct: bytes, tag: Block, aad: bytes, n: nat, c: Block)
    requires |aad| < Shl(1, 61) && n < |ct| < Shl(1, 61)
    requires Le(c[..4]) == (Le(tag[..4]) + n / 16) % 0x1_0000_0000
    requires c[4..15] == tag[4..15] && c[15] == tag[15] % 0x80 + 0x80
    ensures var r := Decrypt(E, key, nonce, ct, tag, aad);
      r.Ok? && |r.value.0| == |ct| && r.value.0[n] == Eor(ct[n], E(EncKey(E, key, nonce), c)[n % 16])
  {
    hide Eor, Le, Ctr, Tag, AuthKey, EncKey;
    DecryptRaises(E, key, nonce, ct, tag, aad);
    CtrByte(E, EncKey(E, key, nonce), tag, ct, n, c);
  }

  /** Decryption: the verdict compares the received tag with the cipher of the block b of the hash s over the
      candidate plaintext. */
  lemma DecryptVerdict(E: BlockCipher, key: Key, nonce: Nonce, ct: bytes, tag: Block, aad: bytes,
                       pt: bytes, valid: bool, s: Block, b: Block)
    requires Decrypt(E, key, nonce, ct, tag, aad) == Ok((pt, valid))
    requires s == FromElem(PowerSum(Prime(ToElem(AuthKey(E, key, nonce))),
                                    ToElems(Blocks(Pad16(aad)) + Blocks(Pad16(pt)) + [LengthBlock(aad, pt)])))
    requires forall i :: 0 <= i < 12 ==> b[i] == Eor(s[i], nonce[i])
    requires b[12] == s[12] && b[13] == s[13] && b[14] == s[14] && b[15] == s[15] % 0x80
    ensures |pt| == |ct| && (valid <==> tag == E(EncKey(E, key, nonce), b))
  {
    hide Eor, Ctr, Tag, AuthKey, EncKey, PowerSum, FromElem, ToElem, ToElems, Blocks, Pad16, LengthBlock, Prime, Fits;
    TagByPowerSum(E, AuthKey(E, key, nonce), EncKey(E, key, nonce), nonce, pt, aad, s, b);
  }
}
