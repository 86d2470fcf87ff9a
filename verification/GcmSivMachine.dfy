/** AES-256-GCM-SIV on the 6502, src/gcm_siv.s: the two machines driven over the message buffers. */
module GcmSivMachine {
  import opened Field
  import opened ByteTypes
  import opened Bytes
  import opened Registers
  import opened Outcomes
  import opened Aes
  import opened KeySchedule
  import opened XPowers
  import opened NibbleTable
  import opened Hash
  import opened GcmSiv
  import opened CounterBytes
  import AesMachine
  import PolyvalMachine

  const MAX_PT_LEN: byte := 64

  class Machine {
    const aes: AesMachine.Machine
    const pv: PolyvalMachine.Machine
    var nonce: Nonce
    var ptBuf: bytes
    var ctBuf: bytes
    var decBuf: bytes
    var ptLen: byte
    var tag: Block
    var tagAcc: Block
    var authKey: Block
    var encKey: Key
    var counter: Block
    var keystream: Block
    var blockIdx: byte
    var ctIdx: byte
    var ksIdx: byte
    var tagValid: byte
    var verifyTag: Block
    var savedKey: Key
    var expEncKey: Schedule
    var savedExp: Schedule
    var deriveCtr: byte

    /** The components are well formed and share no memory; the message buffers have 64 bytes. */
    ghost predicate Valid()
      reads this
    {
      && aes.Valid() && pv.Valid()
      && aes.aesState !in {pv.acc, pv.mulInput, pv.h, pv.temp}
      && aes.aesExpandedKey != pv.htable
      && |ptBuf| == 64 && |ctBuf| == 64 && |decBuf| == 64
    }

    constructor (sbox: SBox, invSbox: SBox)
      ensures Valid() && aes.aesSbox == sbox && aes.aesInvSbox == invSbox
      ensures fresh(aes) && fresh(aes.aesState) && fresh(aes.aesExpandedKey) && fresh(aes.aesCurrentKey)
      ensures fresh(pv) && fresh(pv.acc) && fresh(pv.temp) && fresh(pv.mulInput) && fresh(pv.h) && fresh(pv.htable)
    {
      aes := new AesMachine.Machine(sbox, invSbox);
      pv := new PolyvalMachine.Machine();
      nonce := Zeros(12);
      ptBuf, ctBuf, decBuf := Zeros(64), Zeros(64), Zeros(64);
      tag, tagAcc, authKey, counter, keystream, verifyTag :=
        Zeros(16), Zeros(16), Zeros(16), Zeros(16), Zeros(16), Zeros(16);
      encKey, savedKey := Zeros(32), Zeros(32);
      expEncKey, savedExp := Zeros(240), Zeros(240);
      ptLen, blockIdx, ctIdx, ksIdx, tagValid, deriveCtr := 0, 0, 0, 0, 0, 0;
    }

    /** The block cipher that the AES routines compute. */
    ghost function E(): BlockCipher
    {
      Aes256(aes.aesSbox)
    }

    /** The documented precondition: the schedule of the master key is in place. */
    ghost predicate Ready()
      requires Valid()
      reads this, aes.aesExpandedKey, aes.aesCurrentKey
    {
      aes.aesExpandedKey[..] == Expand(aes.aesSbox, aes.aesCurrentKey[..])
    }

    /** A block is copied into the AES state. */
    method LoadState(b: Block)
      requires Valid()
      modifies aes.aesState
      ensures aes.aesState[..] == b
    {
      var x: byte := 0;
      while x != 16
        invariant x <= 16
        invariant forall i :: 0 <= i < x ==> aes.aesState[i] == b[i]
        decreases 16 - x
      {
        aes.aesState[x] := b[x];
        x := Inc(x);
      }
    }

    /** A schedule is copied into place. */
    method LoadSchedule(w: Schedule)
      requires Valid()
      modifies aes.aesExpandedKey
      ensures aes.aesExpandedKey[..] == w
    {
      var x: byte := 0;
      while x != 240
        invariant x <= 240
        invariant forall i :: 0 <= i < x ==> aes.aesExpandedKey[i] == w[i]
        decreases 240 - x
      {
        aes.aesExpandedKey[x] := w[x];
        x := Inc(x);
      }
    }

    method LoadKey(k: Key)
      requires Valid()
      modifies aes.aesCurrentKey
      ensures aes.aesCurrentKey[..] == k
    {
      var x: byte := 0;
      while x != 32
        invariant x <= 32
        invariant forall i :: 0 <= i < x ==> aes.aesCurrentKey[i] == k[i]
        decreases 32 - x
      {
        aes.aesCurrentKey[x] := k[x];
        x := Inc(x);
      }
    }

    /** gcmsiv_gen_keystream: one block through the cipher, and the counter stepped by a carry chain. */
    method GenKeystream(ghost w: Schedule)
      requires Valid() && aes.aesExpandedKey[..] == w
      modifies aes, aes.aesState, this`keystream, this`counter
      ensures keystream == Cipher(aes.aesSbox, w, old(counter))
      ensures counter == IncBytes(old(counter[..4])) + old(counter[4..])
    {
      hide Cipher;
      LoadState(counter);
      aes.EncryptBlock();
      keystream := aes.aesState[..];
      ghost var c := counter;
      counter := counter[0 := Inc(counter[0])];
      if counter[0] == 0 {
        counter := counter[1 := Inc(counter[1])];
        if counter[1] == 0 {
          counter := counter[2 := Inc(counter[2])];
          if counter[2] == 0 {
            counter := counter[3 := Inc(counter[3])];
          }
        }
      }
      CarryChain(c, counter);
    }

    /** One derivation block through the cipher of the master key. */
    method DeriveBlock(ghost key: Key) returns (eight: bytes)
      requires Valid() && Ready() && key == aes.aesCurrentKey[..] && deriveCtr < 6
      modifies aes, aes.aesState
      ensures eight == DerivedBytes(E(), key, nonce, deriveCtr)
    {
      hide Cipher, Expand;
      CounterPrefix(deriveCtr);
      LoadState([deriveCtr, 0, 0, 0] + nonce);
      aes.EncryptBlock();
      eight := aes.aesState[..8];
    }

    /** The eight bytes go to the place that the counter selects. */
    method StoreEight(eight: bytes)
      requires |eight| == 8 && deriveCtr < 6
      modifies this`authKey, this`encKey
      ensures (authKey + encKey)[..8 * deriveCtr + 8] == old(authKey + encKey)[..8 * deriveCtr] + eight
    {
      if deriveCtr == 0 {
        authKey := eight + authKey[8..];
      } else if deriveCtr == 1 {
        authKey := authKey[..8] + eight;
      } else if deriveCtr == 2 {
        encKey := eight + encKey[8..];
      } else if deriveCtr == 3 {
        encKey := encKey[..8] + eight + encKey[16..];
      } else if deriveCtr == 4 {
        encKey := encKey[..16] + eight + encKey[24..];
      } else {
        encKey := encKey[..24] + eight;
      }
    }

    /** The derivation loop. */
    method DeriveLoop(ghost key: Key)
      requires Valid() && Ready() && key == aes.aesCurrentKey[..]
      modifies aes, aes.aesState, this`authKey, this`encKey, this`deriveCtr
      ensures authKey == AuthKey(E(), key, nonce) && encKey == EncKey(E(), key, nonce)
    {
      hide DerivedBytes, Expand, Aes256;
      deriveCtr := 0;
      while deriveCtr < 6
        invariant deriveCtr <= 6 && Ready()
        invariant (authKey + encKey)[..8 * deriveCtr] == Derived(E(), key, nonce, deriveCtr)
      {
        var eight := DeriveBlock(key);
        StoreEight(eight);
        deriveCtr := Inc(deriveCtr);
      }
      SplitKeys(authKey, encKey, Derived(E(), key, nonce, 6));
    }

    /** gcmsiv_derive_keys: the derived key is expanded in place of the master key, which then returns. */
    method DeriveKeys(ghost key: Key)
      requires Valid() && Ready() && key == aes.aesCurrentKey[..]
      modifies aes, aes.aesState, aes.aesExpandedKey, aes.aesCurrentKey
      modifies this`authKey, this`encKey, this`deriveCtr, this`savedKey, this`expEncKey
      ensures Ready() && aes.aesCurrentKey[..] == key
      ensures authKey == AuthKey(E(), key, nonce) && encKey == EncKey(E(), key, nonce)
      ensures expEncKey == Expand(aes.aesSbox, encKey)
    {
      hide AuthKey, EncKey, Expand, Aes256;
      DeriveLoop(key);
      savedKey := aes.aesCurrentKey[..];
      LoadKey(encKey);
      aes.KeyExpansion();
      expEncKey := aes.aesExpandedKey[..];
      LoadKey(savedKey);
      aes.KeyExpansion();
    }

    /** gcmsiv_install_enc_key */
    method InstallEncKey()
      requires Valid()
      modifies aes.aesExpandedKey, this`savedExp
      ensures savedExp == old(aes.aesExpandedKey[..]) && aes.aesExpandedKey[..] == expEncKey
    {
      savedExp := aes.aesExpandedKey[..];
      LoadSchedule(expEncKey);
    }

    /** The nonce is added to the first twelve bytes of the state and the top bit of its last byte cleared. */
    method MaskState(ghost hash: Block)
      requires Valid() && aes.aesState[..] == hash
      modifies aes.aesState
      ensures aes.aesState[..] == TagBase(hash, nonce)
    {
      hide Eor, ClearTop;
      var x: byte := 0;
      while x != 12
        invariant x <= 12
        invariant forall i :: 0 <= i < x ==> aes.aesState[i] == Eor(hash[i], nonce[i])
        invariant forall i :: x <= i < 16 ==> aes.aesState[i] == hash[i]
        decreases 12 - x
      {
        aes.aesState[x] := Eor(aes.aesState[x], nonce[x]);
        x := Inc(x);
      }
      aes.aesState[15] := ClearTop(aes.aesState[15]);
    }

    /** gcmsiv_finalize_tag */
    method FinalizeTag()
      requires Valid() && expEncKey == Expand(aes.aesSbox, encKey)
      modifies aes, aes.aesState, aes.aesExpandedKey, this`savedExp, this`tag
      ensures tag == E()(encKey, TagBase(tagAcc, nonce))
      ensures aes.aesExpandedKey[..] == old(aes.aesExpandedKey[..])
    {
      hide Cipher, Expand, TagBase;
      LoadState(tagAcc);
      MaskState(tagAcc);
      InstallEncKey();
      aes.EncryptBlock();
      LoadSchedule(savedExp);
      tag := aes.aesState[..];
    }

    /** The schedule of the derived key is in place of the master key's. */
    ghost predicate Installed()
      reads this, aes.aesExpandedKey
    {
      aes.aesExpandedKey[..] == expEncKey && expEncKey == Expand(aes.aesSbox, encKey)
    }

    /** Byte n of the keystream that the tag starts. */
    ghost function Stream(n: nat): byte
      reads this
    {
      KeystreamByte(E(), encKey, tag, n)
    }

    /** When the keystream block is used up the next one is generated. */
    method RefillKeystream(ghost n: nat)
      requires Valid() && Installed() && ksIdx <= 16 && KeystreamAt(n, ksIdx)
      modifies aes, aes.aesState, this`counter, this`keystream, this`ksIdx
      ensures ksIdx == n % 16 && KeystreamAt(n, ksIdx)
    {
      hide Cipher, Expand, CounterBlock;
      if ksIdx >= 16 {
        NextCounter(tag, n / 16);
        GenKeystream(expEncKey);
        ksIdx := 0;
      }
    }

    /** One byte of counter mode. */
    method CtrByte(input: byte, ghost n: nat) returns (output: byte)
      requires Valid() && Installed() && n == ctIdx && n < 64 && ksIdx <= 16 && KeystreamAt(n, ksIdx)
      modifies aes, aes.aesState, this`counter, this`keystream, this`ctIdx, this`ksIdx
      ensures ctIdx == n + 1 && ksIdx <= 16 && KeystreamAt(n + 1, ksIdx)
      ensures output == Eor(input, Stream(n))
    {
      hide Aes256, KeystreamState, KeystreamByte, Eor;
      RefillKeystream(n);
      KeystreamUse(E(), encKey, tag, counter, keystream, n);
      output := Eor(input, keystream[ksIdx]);
      ctIdx := Inc(ctIdx);
      ksIdx := Inc(ksIdx);
    }

    /** The byte loop of gcmsiv_ctr_encrypt and gcmsiv_ctr_decrypt, from one buffer into another. */
    method CtrRun(input: bytes, output: bytes) returns (out: bytes)
      requires Valid() && ptLen <= 64 && |input| == |output| == 64
      requires expEncKey == Expand(aes.aesSbox, encKey)
      modifies aes, aes.aesState, aes.aesExpandedKey, this`savedExp
      modifies this`counter, this`keystream, this`ctIdx, this`ksIdx
      ensures |out| == 64 && out[ptLen..] == output[ptLen..]
      ensures out[..ptLen] == Ctr(E(), encKey, tag, input[..ptLen])
      ensures aes.aesExpandedKey[..] == old(aes.aesExpandedKey[..])
    {
      hide Expand, CounterBlock, KeystreamByte, KeystreamAt, Eor, SetTop;
      InstallEncKey();
      StartCounter();
      out := output;
      while ctIdx < ptLen
        invariant ctIdx <= ptLen && ksIdx <= 16 && |out| == 64
        invariant KeystreamAt(ctIdx, ksIdx)
        invariant forall i :: 0 <= i < ctIdx ==> out[i] == Eor(input[i], Stream(i))
        invariant out[ptLen..] == output[ptLen..]
        invariant Installed() && savedExp == old(aes.aesExpandedKey[..])
        decreases ptLen - ctIdx
      {
        var x := ctIdx;
        var b := CtrByte(input[x], x);
        out := out[x := b];
      }
      LoadSchedule(savedExp);
    }

    /** The counter block starts as the tag with its top bit set, and no keystream is left. */
    method StartCounter()
      requires Valid()
      modifies this`counter, this`ctIdx, this`ksIdx
      ensures ctIdx == 0 && ksIdx == 16 && KeystreamAt(0, 16)
    {
      hide CounterBlock, SetTop;
      FirstCounter(tag);
      counter := tag[15 := SetTop(tag[15])];
      ctIdx := 0;
      ksIdx := 16;
    }

    ghost predicate KeystreamAt(n: nat, used: nat)
      reads this
    {
      KeystreamState(E(), encKey, tag, counter, keystream, n, used)
    }

    /** The auth key becomes the POLYVAL key. */
    method LoadHashKey()
      requires Valid()
      modifies pv.h
      ensures pv.h[..] == authKey
    {
      var x: byte := 0;
      while x != 16
        invariant x <= 16
        invariant forall i :: 0 <= i < x ==> pv.h[i] == authKey[i]
        decreases 16 - x
      {
        pv.h[x] := authKey[x];
        x := Inc(x);
      }
    }

    /** Up to 16 bytes of plaintext from blockIdx on, and zeros after its end. */
    method StageBlock()
      requires Valid() && blockIdx < ptLen <= 64
      modifies pv.temp
      ensures pv.temp[..] == PaddedChunk(ptBuf[..ptLen], blockIdx)
    {
      var x, y: byte := 0, blockIdx;
      while x != 16 && y < ptLen
        invariant x <= 16 && y == blockIdx + x && y <= ptLen
        invariant forall i :: 0 <= i < x ==> pv.temp[i] == ptBuf[blockIdx + i]
        decreases 16 - x
      {
        pv.temp[x] := ptBuf[y];
        y := Inc(y);
        x := Inc(x);
      }
      ghost var n := x;
      while x != 16
        invariant n <= x <= 16
        invariant forall i :: 0 <= i < n ==> pv.temp[i] == ptBuf[blockIdx + i]
        invariant forall i :: n <= i < x ==> pv.temp[i] == 0
        decreases 16 - x
      {
        pv.temp[x] := 0;
        x := Inc(x);
      }
      FilledChunk(ptBuf[..ptLen], blockIdx, n, pv.temp[..]);
    }

    /** The length block: no associated data, and the bit length of the plaintext in bytes 8 and 9. */
    method StageLengths()
      requires Valid()
      modifies pv.temp
      ensures pv.temp[..] == LengthBlock([], Zeros(ptLen))
    {
      var x: byte := 0;
      while x != 16
        invariant x <= 16
        invariant forall i :: 0 <= i < x ==> pv.temp[i] == 0
        decreases 16 - x
      {
        pv.temp[x] := 0;
        x := Inc(x);
      }
      LengthBytes(ptLen);
      pv.temp[8] := Asl(Asl(Asl(ptLen)));
      pv.temp[9] := Lsr(Lsr(Lsr(Lsr(Lsr(ptLen)))));
    }

    /** One block is staged and absorbed. */
    method AbsorbOne(ghost key: Elem, ghost pt: bytes)
      requires Valid() && blockIdx < ptLen <= 64 && blockIdx % 16 == 0 && pt == ptBuf[..ptLen]
      requires IsTableOf(pv.Table(), Prime(key)) && pv.Value(pv.acc) == AbsorbedUpTo(key, pt, blockIdx)
      modifies pv, pv.acc, pv.temp, pv.mulInput, this`blockIdx
      ensures pv.Value(pv.acc) == AbsorbedUpTo(key, pt, blockIdx)
      ensures blockIdx == old(blockIdx) + 16
    {
      hide IsTableOf, AbsorbedUpTo, ToElem, PaddedChunk, Dot, Add, Prime;
      StageBlock();
      NextAbsorbed(key, pt, blockIdx);
      pv.Update(key);
      blockIdx := (blockIdx + 16) % 0x100;
    }

    /** The block loop: subtract, stop at zero or below, absorb a block, compare. */
    method AbsorbPlaintext(ghost key: Elem, ghost pt: bytes)
      requires Valid() && ptLen <= 64 && pt == ptBuf[..ptLen]
      requires IsTableOf(pv.Table(), Prime(key)) && pv.Value(pv.acc) == 0
      modifies pv, pv.acc, pv.temp, pv.mulInput, this`blockIdx
      ensures pv.Value(pv.acc) == Polyval(key, ToElems(Blocks(Pad16(pt))))
    {
      hide IsTableOf, AbsorbedUpTo, ToElem, Polyval, ToElems, Pad16, Blocks, Prime;
      blockIdx := 0;
      EmptyPrefix(key, pt);
      var more := true;
      while more
        invariant blockIdx % 16 == 0 && blockIdx <= 64
        invariant !more ==> blockIdx >= ptLen
        invariant pv.Value(pv.acc) == AbsorbedUpTo(key, pt, blockIdx)
        decreases 64 - blockIdx, more
      {
        var remaining := (0x100 + ptLen - blockIdx) % 0x100;
        Remaining(ptLen, blockIdx);
        if remaining == 0 || !Plus(remaining) {
          break;
        }
        AbsorbOne(key, pt);
        more := blockIdx < ptLen;
      }
      AllAbsorbed(key, pt, blockIdx);
    }

    /** gcmsiv_compute_tag_base */
    method ComputeTagBase()
      requires Valid() && ptLen <= 64
      modifies pv, pv.acc, pv.temp, pv.mulInput, pv.h, pv.htable, this`blockIdx, this`tagAcc
      ensures tagAcc == HashBlocks(authKey, Blocks(Encoding([], ptBuf[..ptLen])))
    {
      hide IsTableOf, Polyval, ToElems, Pad16, Blocks, ToElem, Prime, Encoding, LengthBlock, FromElem, Dot, Add;
      ghost var key := ToElem(authKey);
      LoadHashKey();
      pv.PrecomputeTable();
      pv.Init();
      AbsorbPlaintext(key, ptBuf[..ptLen]);
      StageLengths();
      pv.Update(key);
      tagAcc := pv.acc[..];
      EncodedHash(key, ptBuf[..ptLen]);
      BlockRoundTrip(tagAcc);
    }

    /** gcmsiv_compute_tag_base and gcmsiv_finalize_tag: the tag of the plaintext buffer. */
    method ComputeTag()
      requires Valid() && ptLen <= 64 && expEncKey == Expand(aes.aesSbox, encKey)
      modifies aes, aes.aesState, aes.aesExpandedKey, pv, pv.acc, pv.temp, pv.mulInput, pv.h, pv.htable
      modifies this`blockIdx, this`tagAcc, this`savedExp, this`tag
      ensures tag == Tag(E(), authKey, encKey, nonce, ptBuf[..ptLen], [])
      ensures aes.aesExpandedKey[..] == old(aes.aesExpandedKey[..])
    {
      hide Expand, TagBase, HashBlocks, Blocks, Encoding, Aes256;
      ComputeTagBase();
      FinalizeTag();
    }

    /** The steps of gcmsiv_encrypt for an accepted length. */
    method EncryptAccepted(ghost key: Key)
      requires Valid() && Ready() && key == aes.aesCurrentKey[..] && ptLen <= MAX_PT_LEN
      modifies this, aes, aes.aesState, aes.aesExpandedKey, aes.aesCurrentKey
      modifies pv, pv.acc, pv.temp, pv.mulInput, pv.h, pv.htable
      ensures Valid() && Ready() && aes.aesCurrentKey[..] == key
      ensures nonce == old(nonce) && ptBuf == old(ptBuf) && ptLen == old(ptLen)
      ensures tag == Tag(E(), AuthKey(E(), key, nonce), EncKey(E(), key, nonce), nonce, ptBuf[..ptLen], [])
      ensures ctBuf[..ptLen] == Ctr(E(), EncKey(E(), key, nonce), tag, ptBuf[..ptLen])
      ensures ctBuf[ptLen..] == old(ctBuf)[ptLen..]
    {
      hide Expand, AuthKey, EncKey, Tag, Ctr, Aes256;
      DeriveKeys(key);
      ComputeTag();
      ctBuf := CtrRun(ptBuf, ctBuf);
    }

    /** gcmsiv_encrypt: 0 on success, 1 and no change for a length above 64. */
    method Encrypt(ghost key: Key) returns (a: byte)
      requires Valid() && Ready() && key == aes.aesCurrentKey[..]
      modifies this, aes, aes.aesState, aes.aesExpandedKey, aes.aesCurrentKey
      modifies pv, pv.acc, pv.temp, pv.mulInput, pv.h, pv.htable
      ensures Valid() && Ready() && aes.aesCurrentKey[..] == key
      ensures nonce == old(nonce) && ptBuf == old(ptBuf) && ptLen == old(ptLen)
      ensures a == if ptLen <= MAX_PT_LEN then 0 else 1
      ensures a == 0 ==> GcmSiv.Encrypt(E(), key, nonce, ptBuf[..ptLen], []) == Ok((ctBuf[..ptLen], tag))
      ensures a == 0 ==> ctBuf[ptLen..] == old(ctBuf)[ptLen..]
      ensures a == 1 ==> unchanged(this, aes, aes.aesState, aes.aesExpandedKey)
      ensures a == 1 ==> unchanged(pv, pv.acc, pv.temp, pv.mulInput, pv.h, pv.htable)
    {
      hide Expand, AuthKey, EncKey, Tag, Ctr, Aes256;
      if ptLen >= MAX_PT_LEN + 1 {
        return 1;
      }
      EncryptAccepted(key);
      return 0;
    }

    /** The comparison and both outcomes: the plaintext is kept only when the tags agree. */
    method Verify() returns (a: byte)
      requires Valid()
      modifies this`tagValid, this`tag, this`decBuf
      ensures tag == verifyTag
      ensures old(tag) == verifyTag ==> a == 0 && tagValid == 1 && decBuf == old(decBuf)
      ensures old(tag) != verifyTag ==> a == 1 && tagValid == 0 && decBuf == Zeros(64)
    {
      var x: byte := 0;
      while x != 16 && tag[x] == verifyTag[x]
        invariant x <= 16 && tag[..x] == verifyTag[..x]
        decreases 16 - x
      {
        x := Inc(x);
      }
      if x == 16 {
        tagValid := 1;
        a := 0;
      } else {
        tagValid := 0;
        decBuf := Zeros(64);
        a := 1;
      }
      tag := verifyTag;
    }

    /** The ciphertext is decrypted, the received tag saved and the candidate plaintext staged for hashing. */
    method DecryptIntoBuffers()
      requires Valid() && ptLen <= 64 && expEncKey == Expand(aes.aesSbox, encKey)
      modifies aes, aes.aesState, aes.aesExpandedKey, this`savedExp, this`counter, this`keystream
      modifies this`ctIdx, this`ksIdx, this`decBuf, this`verifyTag, this`ptBuf
      ensures Valid() && verifyTag == tag && ptBuf[..ptLen] == decBuf[..ptLen]
      ensures decBuf[..ptLen] == Ctr(E(), encKey, tag, ctBuf[..ptLen])
      ensures ptBuf[ptLen..] == old(ptBuf)[ptLen..] && decBuf[ptLen..] == old(decBuf)[ptLen..]
      ensures aes.aesExpandedKey[..] == old(aes.aesExpandedKey[..])
    {
      hide Expand, Ctr, Aes256;
      decBuf := CtrRun(ctBuf, decBuf);
      verifyTag := tag;
      ptBuf := decBuf[..ptLen] + ptBuf[ptLen..];
    }

    /** The steps before the comparison: the candidate plaintext, and the tag that belongs to it. */
    method Recompute(ghost key: Key, ghost ct: bytes, ghost received: Block)
      requires Valid() && Ready() && key == aes.aesCurrentKey[..]
      requires ptLen <= 64 && ct == ctBuf[..ptLen] && received == tag
      modifies this, aes, aes.aesState, aes.aesExpandedKey, aes.aesCurrentKey
      modifies pv, pv.acc, pv.temp, pv.mulInput, pv.h, pv.htable
      ensures Valid() && Ready() && aes.aesCurrentKey[..] == key
      ensures nonce == old(nonce) && ctBuf == old(ctBuf) && ptLen == old(ptLen) && tagValid == old(tagValid)
      ensures verifyTag == received && ptBuf[..ptLen] == decBuf[..ptLen]
      ensures decBuf[..ptLen] == Ctr(E(), EncKey(E(), key, nonce), received, ct)
      ensures ptBuf[ptLen..] == old(ptBuf)[ptLen..] && decBuf[ptLen..] == old(decBuf)[ptLen..]
      ensures tag == Tag(E(), AuthKey(E(), key, nonce), EncKey(E(), key, nonce), nonce, decBuf[..ptLen], [])
    {
      hide Expand, AuthKey, EncKey, Tag, Ctr, Aes256;
      DeriveKeys(key);
      DecryptIntoBuffers();
      ComputeTag();
    }

    /** gcmsiv_decrypt: 0 and the plaintext exactly when the tag is right, otherwise 1 and a wiped buffer.
        The candidate plaintext stays in the plaintext buffer, whether or not the tag is right. */
    method Decrypt(ghost key: Key, ghost ct: bytes) returns (a: byte)
      requires Valid() && Ready() && key == aes.aesCurrentKey[..]
      requires ptLen <= MAX_PT_LEN ==> ct == ctBuf[..ptLen]
      modifies this, aes, aes.aesState, aes.aesExpandedKey, aes.aesCurrentKey
      modifies pv, pv.acc, pv.temp, pv.mulInput, pv.h, pv.htable
      ensures Valid() && Ready() && aes.aesCurrentKey[..] == key
      ensures nonce == old(nonce) && ctBuf == old(ctBuf) && ptLen == old(ptLen) && tag == old(tag)
      ensures ptLen > MAX_PT_LEN ==> a == 1
      ensures ptLen <= MAX_PT_LEN ==>
        var r := GcmSiv.Decrypt(E(), key, nonce, ct, tag, []); r.Ok? && (a == 0 <==> r.value.1)
      ensures a == 0 ==> tagValid == 1 && Ok((decBuf[..ptLen], true)) == GcmSiv.Decrypt(E(), key, nonce, ct, tag, [])
      ensures a == 0 ==> decBuf[ptLen..] == old(decBuf)[ptLen..]
      ensures a != 0 ==> a == 1 && tagValid == 0 && decBuf == Zeros(64)
      ensures ptLen <= MAX_PT_LEN ==> ptBuf[..ptLen] == Ctr(E(), EncKey(E(), key, nonce), tag, ct)
      ensures ptLen <= MAX_PT_LEN ==> ptBuf[ptLen..] == old(ptBuf)[ptLen..]
      ensures ptLen > MAX_PT_LEN ==> unchanged(aes, aes.aesState, aes.aesExpandedKey)
      ensures ptLen > MAX_PT_LEN ==> unchanged(pv, pv.acc, pv.temp, pv.mulInput, pv.h, pv.htable)
      ensures ptLen > MAX_PT_LEN ==> unchanged(`authKey, `encKey, `expEncKey, `savedKey, `savedExp, `deriveCtr)
      ensures ptLen > MAX_PT_LEN ==> unchanged(`counter, `keystream, `blockIdx, `ctIdx, `ksIdx)
      ensures ptLen > MAX_PT_LEN ==> unchanged(`ptBuf, `tagAcc, `verifyTag)
    {
      hide Expand, AuthKey, EncKey, Tag, Ctr, Aes256;
      tagValid := 0;
      if ptLen >= MAX_PT_LEN + 1 {
        decBuf := Zeros(64);
        return 1;
      }
      Recompute(key, ct, tag);
      a := Verify();
    }

    /** What the machine encrypts it decrypts: the plaintext comes back for every key, nonce and length. */
    method EncryptThenDecrypt(ghost key: Key, ghost pt: bytes) returns (a: byte)
      requires Valid() && Ready() && key == aes.aesCurrentKey[..] && ptLen <= MAX_PT_LEN && pt == ptBuf[..ptLen]
      modifies this, aes, aes.aesState, aes.aesExpandedKey, aes.aesCurrentKey
      modifies pv, pv.acc, pv.temp, pv.mulInput, pv.h, pv.htable
      ensures Valid() && Ready() && aes.aesCurrentKey[..] == key
      ensures a == 0 && ptLen == old(ptLen) && decBuf[..ptLen] == pt
    {
      hide Expand, Aes256, GcmSiv.Encrypt, GcmSiv.Decrypt;
      a := Encrypt(key);
      DecryptAcceptsExactly(E(), key, nonce, pt, ctBuf[..ptLen], tag, []);
      a := Decrypt(key, ctBuf[..ptLen]);
    }
  }

  /** After n bytes: the counter is at the next block, and the unused keystream is that of the current one. */
  ghost predicate KeystreamState(E: BlockCipher, encKey: Key, tag: Block, counter: Block, keystream: Block,
                                 n: nat, used: nat)
  {
    if used == 16 then n % 16 == 0 && counter == CounterBlock(tag, n / 16)
    else n % 16 == used && counter == CounterBlock(tag, n / 16 + 1) && keystream == E(encKey, CounterBlock(tag, n / 16))
  }

  /** The next byte of the keystream, and the state when it has been used. */
  lemma KeystreamUse(E: BlockCipher, encKey: Key, tag: Block, counter: Block, keystream: Block, n: nat)
    requires KeystreamState(E, encKey, tag, counter, keystream, n, n % 16)
    ensures keystream[n % 16] == KeystreamByte(E, encKey, tag, n)
    ensures KeystreamState(E, encKey, tag, counter, keystream, n + 1, n % 16 + 1)
  {
    hide CounterBlock;
    NextIndex(n);
  }

  /** The block and the offset of the next byte. */
  lemma NextIndex(n: nat)
    ensures n % 16 < 15 ==> (n + 1) % 16 == n % 16 + 1 && (n + 1) / 16 == n / 16
    ensures n % 16 == 15 ==> (n + 1) % 16 == 0 && (n + 1) / 16 == n / 16 + 1
  {
  }

  lemma SplitKeys(a: Block, k: Key, all: bytes)
    requires |all| == 48 && (a + k)[..48] == all
    ensures a == all[..16] && k == all[16..]
  {
    assert (a + k)[..48] == a + k;
  }

  /** The 16 bytes from offset i on, padded with zeros. */
  function PaddedChunk(pt: bytes, i: nat): Block
    requires i <= |pt|
  {
    if i + 16 <= |pt| then pt[i..i + 16] else pt[i..] + Zeros(16 - (|pt| - i))
  }

  lemma FilledChunk(pt: bytes, i: nat, n: nat, t: Block)
    requires i <= |pt| && n <= 16 && ((n == 16 && i + 16 <= |pt|) || i + n == |pt|)
    requires forall k :: 0 <= k < n ==> t[k] == pt[i + k]
    requires forall k :: n <= k < 16 ==> t[k] == 0
    ensures t == PaddedChunk(pt, i)
  {
    assert t[..n] == pt[i..i + n];
    assert t == t[..n] + t[n..];
    assert t[n..] == Zeros(16 - n);
  }

  lemma Halves(n: nat)
    ensures n / 2 / 2 == n / 4
  {
  }

  /** Three shifts left and five shifts right split eight times the length into two bytes. */
  lemma ShiftedLength(n: byte)
    ensures Asl(Asl(Asl(n))) == 8 * n % 0x100
    ensures Lsr(Lsr(Lsr(Lsr(Lsr(n))))) == 8 * n / 0x100
  {
    AslThrice(n);
    LsrFive(n);
  }

  lemma AslThrice(n: byte)
    ensures Asl(Asl(Asl(n))) == 8 * n % 0x100
  {
    hide Asl;
    AslOfLow(n);
    AslOfLow(2 * n);
    AslOfLow(4 * n);
    assert n % 0x100 == n;
  }

  lemma LsrFive(n: byte)
    ensures Lsr(Lsr(Lsr(Lsr(Lsr(n))))) == 8 * n / 0x100
  {
    Halves(n);
    Halves(n / 4);
    assert n / 4 / 4 == n / 16;
    assert n / 16 / 2 == n / 32 == 8 * n / 0x100;
  }

  lemma LengthBytes(n: byte)
    ensures LengthBlock([], Zeros(n)) == Zeros(16)[8 := Asl(Asl(Asl(n)))][9 := Lsr(Lsr(Lsr(Lsr(Lsr(n)))))]
  {
    hide Asl, Lsr;
    ShiftedLength(n);
    LeBytesZero(8);
    TwoBytes(8 * n);
  }

  lemma TwoBytes(bits: nat)
    requires bits < 0x10000
    ensures LeBytes(bits, 8) == [bits % 0x100, bits / 0x100] + Zeros(6)
  {
    hide Zeros;
    LeBytesZero(6);
    assert LeBytes(bits, 8) == [bits % 0x100] + LeBytes(bits / 0x100, 7);
    assert LeBytes(bits / 0x100, 7) == [bits / 0x100] + LeBytes(0, 6);
  }

  /** The hash of the first i bytes' worth of padded blocks. */
  ghost function AbsorbedUpTo(key: Elem, pt: bytes, i: nat): Elem
  {
    var blocks := Blocks(Pad16(pt));
    Polyval(key, ToElems(blocks[..if i / 16 < |blocks| then i / 16 else |blocks|]))
  }

  /** The eight-bit difference is zero or has its sign bit set exactly when nothing is left. */
  lemma Remaining(len: byte, index: byte)
    requires len <= 64 && index <= 64
    ensures var r := (0x100 + len - index) % 0x100;
      r == 0 || !Plus(r) <==> index >= len
  {
  }

  lemma EmptyPrefix(key: Elem, pt: bytes)
    ensures AbsorbedUpTo(key, pt, 0) == 0
  {
  }

  lemma NextAbsorbed(key: Elem, pt: bytes, i: nat)
    requires i % 16 == 0 && i < |pt|
    ensures AbsorbedUpTo(key, pt, i + 16) == Dot(Add(AbsorbedUpTo(key, pt, i), ToElem(PaddedChunk(pt, i))), key)
  {
    hide Dot, Add, ToElem, Polyval, Blocks, Pad16, ToElems;
    var p := Pad16(pt);
    var blocks := Blocks(p);
    var n := i / 16;
    ChunkAt(pt, i);
    BlocksAt(p, n);
    assert p[16 * n..16 * n + 16] == p[i..][..16];
    assert blocks[n] == PaddedChunk(pt, i);
    PolyvalMachine.PolyvalNextBlock(key, blocks, n);
  }

  lemma AllAbsorbed(key: Elem, pt: bytes, i: nat)
    requires i % 16 == 0 && i >= |pt|
    ensures AbsorbedUpTo(key, pt, i) == Polyval(key, ToElems(Blocks(Pad16(pt))))
  {
    hide Polyval, ToElems, Pad16, Blocks;
    var blocks := Blocks(Pad16(pt));
    assert |blocks| <= i / 16;
    assert blocks[..|blocks|] == blocks;
  }

  lemma SameLengths(pt: bytes)
    ensures LengthBlock([], pt) == LengthBlock([], Zeros(|pt|))
  {
  }

  lemma EncodedBlocks(pt: bytes)
    ensures Blocks(Encoding([], pt)) == Blocks(Pad16(pt)) + [LengthBlock([], pt)]
  {
    hide Pad16, Encoding, LengthBlock;
    EncodingBlocks([], pt);
    NoPadding();
    assert [] + Blocks(Pad16(pt)) == Blocks(Pad16(pt));
  }

  lemma ToElemsSnoc(blocks: seq<Block>, b: Block)
    ensures ToElems(blocks + [b]) == ToElems(blocks) + [ToElem(b)]
  {
    hide ToElem;
  }

  /** The encoding without associated data: the padded plaintext, then the length block. */
  lemma EncodedHash(key: Elem, pt: bytes)
    ensures Polyval(key, ToElems(Blocks(Encoding([], pt))))
         == Dot(Add(Polyval(key, ToElems(Blocks(Pad16(pt)))), ToElem(LengthBlock([], Zeros(|pt|)))), key)
  {
    hide Dot, Add, ToElem, ToElems, Polyval, Pad16, Encoding, Blocks, LengthBlock;
    var blocks, l := Blocks(Pad16(pt)), LengthBlock([], pt);
    SameLengths(pt);
    EncodedBlocks(pt);
    ToElemsSnoc(blocks, l);
    PolyvalSnoc(key, ToElems(blocks), ToElem(l));
  }

  lemma NoPadding()
    ensures Pad16([]) == []
  {
  }
}
