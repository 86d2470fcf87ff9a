/** Whole uses of the library: machines are allocated with the shipped tables, keyed, loaded and run, and what
    they compute is compared with the reference and with the oracle. */
module RoundTrip {
  import opened ByteTypes
  import opened Outcomes
  import opened Hash
  import opened Aes
  import opened GcmSiv
  import opened KeySchedule
  import opened OracleField
  import opened TableData
  import AesOracle
  import AesMachine
  import PolyvalMachine
  import GcmSivMachine

  /** The master key is installed and expanded, and nonce and plaintext are put in their buffers. */
  method LoadMachine(key: Key, nonce: Nonce, pt: bytes) returns (m: GcmSivMachine.Machine)
    requires |pt| <= 64
    ensures fresh(m) && fresh(m.aes) && fresh(m.aes.aesState) && fresh(m.aes.aesExpandedKey)
    ensures fresh(m.aes.aesCurrentKey)
    ensures fresh(m.pv) && fresh(m.pv.acc) && fresh(m.pv.temp) && fresh(m.pv.mulInput)
    ensures fresh(m.pv.h) && fresh(m.pv.htable)
    ensures m.Valid() && m.Ready() && m.aes.aesSbox == AES_SBOX && m.aes.aesCurrentKey[..] == key
    ensures m.nonce == nonce && m.ptLen == |pt| && m.ptBuf[..m.ptLen] == pt
  {
    hide Expand, AES_SBOX, AES_INV_SBOX;
    m := new GcmSivMachine.Machine(AES_SBOX, AES_INV_SBOX);
    m.LoadKey(key);
    m.aes.KeyExpansion();
    m.nonce := nonce;
    m.ptBuf := pt + Zeros(64 - |pt|);
    m.ptLen := |pt|;
    assert m.ptBuf[..m.ptLen] == pt;
  }

  /** The machine encrypts as the reference does with AES-256, and decrypts what it has encrypted. */
  method EncryptAndDecrypt(key: Key, nonce: Nonce, pt: bytes)
    returns (reference: Outcome<(bytes, Block)>, ct: bytes, tag: Block, plain: bytes, valid: bool)
    requires |pt| <= 64
    ensures reference == Encrypt(Aes256(AES_SBOX), key, nonce, pt, []) == Ok((ct, tag))
    ensures plain == pt && valid
  {
    hide Expand, Aes256, Encrypt, Decrypt, AES_SBOX, AES_INV_SBOX;
    reference := EncryptReference(Aes256(AES_SBOX), key, nonce, pt, []);
    var m := LoadMachine(key, nonce, pt);
    var a := m.Encrypt(key);
    ct, tag := m.ctBuf[..m.ptLen], m.tag;
    DecryptAcceptsExactly(Aes256(AES_SBOX), key, nonce, pt, ct, tag, []);
    a := m.Decrypt(key, ct);
    plain, valid := m.decBuf[..m.ptLen], a == 0;
  }

  /** The oracle builds its S-box and its constant, and agrees with the machine on ciphertext and tag. */
  method EncryptAsOracle(key: Key, nonce: Nonce, pt: bytes)
    returns (sbox: SBox, oracle: Outcome<(bytes, Block)>, ct: bytes, tag: Block, plain: bytes, valid: bool)
    requires |pt| <= 64
    ensures sbox == AES_SBOX && oracle == Ok((ct, tag))
    ensures plain == pt && valid
  {
    hide Expand, Aes256, Encrypt, AES_SBOX;
    sbox := BuildShippedSbox();
    var constant := ImportConstant();
    oracle := EncryptOracle(Aes256(sbox), key, nonce, pt, [], constant.value);
    var reference;
    reference, ct, tag, plain, valid := EncryptAndDecrypt(key, nonce, pt);
  }

  /** One block through the cipher and back, on a schedule that the machine has expanded itself. */
  method EncryptAndDecryptBlock(key: Key, block: Block) returns (oracle: Block, ct: Block, plain: Block)
    ensures oracle == ct == Cipher(AES_SBOX, Expand(AES_SBOX, key), block)
    ensures plain == block
  {
    hide Expand, Cipher, InvCipher, AES_SBOX, AES_INV_SBOX;
    oracle := AesOracle.EncryptBlock(AES_SBOX, key, block);
    var m := new AesMachine.Machine(AES_SBOX, AES_INV_SBOX);
    LoadBytes(m.aesCurrentKey, key);
    LoadBytes(m.aesState, block);
    m.KeyExpansion();
    m.EncryptBlock();
    ct := m.aesState[..];
    TablesInverse();
    DecryptEncrypt(AES_SBOX, AES_INV_SBOX, m.aesExpandedKey[..], block);
    m.DecryptBlock();
    plain := m.aesState[..];
  }

  /** A message hashed by a fresh POLYVAL machine has the oracle's hash. */
  method HashAsOracle(h: Block, msg: bytes) returns (oracle: Outcome<Block>, hash: Block)
    requires |msg| % 16 == 0
    ensures oracle == Ok(hash)
  {
    hide HashBlocks, Blocks;
    var constant := ImportConstant();
    oracle := PolyvalOracle(h, msg, constant.value);
    var m := new PolyvalMachine.Machine();
    LoadBytes(m.h, h);
    m.PrecomputeTable();
    m.HashMessage(Blocks(msg));
    hash := m.acc[..];
  }

  /** The caller fills a buffer. */
  method LoadBytes(buffer: array<byte>, content: bytes)
    requires buffer.Length == |content|
    modifies buffer
    ensures buffer[..] == content
  {
    for i := 0 to |content|
      invariant buffer[..i] == content[..i]
    {
      buffer[i] := content[i];
    }
  }
}
