/** AES-256-GCM-SIV, RFC 8452 sections 4 and 5, over an arbitrary block cipher. */
module GcmSiv {
  import opened Bits
  import opened Field
  import opened ByteTypes
  import opened Bytes
  import opened Outcomes
  import opened OracleField
  import opened Hash

  type Nonce = n: bytes | |n| == 12 witness Zeros(12)
  type BlockCipher = (Key, Block) -> Block

  const TWO32: nat := 0x1_0000_0000
  const TWO64: nat := 0x1_0000_0000_0000_0000

  // ----- key derivation -----

  /** The eight bytes that counter i contributes. */
  function DerivedBytes(E: BlockCipher, key: Key, nonce: Nonce, i: nat): (b: bytes)
    ensures |b| == 8
  {
    E(key, LeBytes(i, 4) + nonce)[..8]
  }

  /** The bytes of the counters below n, in order. */
  function Derived(E: BlockCipher, key: Key, nonce: Nonce, n: nat): (b: bytes)
    ensures |b| == 8 * n
  {
    if n == 0 then [] else Derived(E, key, nonce, n - 1) + DerivedBytes(E, key, nonce, n - 1)
  }

  lemma CounterPrefix(i: byte)
    ensures LeBytes(i, 4) == [i, 0, 0, 0]
  {
    assert LeBytes(i, 1) == [i];
    assert LeBytes(0, 0) == [] && LeBytes(0, 1) == [0] && LeBytes(0, 2) == [0, 0] && LeBytes(0, 3) == [0, 0, 0];
  }

  function AuthKey(E: BlockCipher, key: Key, nonce: Nonce): Block
  {
    Derived(E, key, nonce, 6)[..16]
  }

  function EncKey(E: BlockCipher, key: Key, nonce: Nonce): Key
  {
    Derived(E, key, nonce, 6)[16..]
  }

  /** The reference: two keys grow while the counter runs. */
  method DeriveKeysReference(E: BlockCipher, key: Key, nonce: Nonce) returns (authKey: Block, encKey: Key)
    ensures authKey == AuthKey(E, key, nonce) && encKey == EncKey(E, key, nonce)
  {
    hide DerivedBytes;
    var auth: bytes, enc: bytes := [], [];
    for ctr := 0 to 6
      invariant |auth| == (if ctr < 2 then 8 * ctr else 16) && |enc| == 8 * ctr - |auth|
      invariant auth + enc == Derived(E, key, nonce, ctr)
    {
      var eight := NextEight(E, key, nonce, ctr);
      if ctr < 2 {
        auth := auth + eight;
      } else {
        assert auth + (enc + eight) == (auth + enc) + eight;
        enc := enc + eight;
      }
    }
    authKey, encKey := auth, enc;
  }

  /** struct.pack("<I", ctr) + nonce through the cipher, and the first half of the result. */
  method NextEight(E: BlockCipher, key: Key, nonce: Nonce, ctr: nat) returns (eight: bytes)
    ensures eight == DerivedBytes(E, key, nonce, ctr)
  {
    var block := LeBytes(ctr, 4) + nonce;
    var out := E(key, block);
    eight := out[..8];
  }

  /** The oracle: one 48-byte string, cut in two. */
  method DeriveKeysOracle(E: BlockCipher, key: Key, nonce: Nonce) returns (authKey: Block, encKey: Key)
    ensures authKey == AuthKey(E, key, nonce) && encKey == EncKey(E, key, nonce)
  {
    hide DerivedBytes;
    var out: bytes := [];
    for i := 0 to 6
      invariant out == Derived(E, key, nonce, i)
    {
      var eight := NextEight(E, key, nonce, i);
      out := out + eight;
    }
    authKey, encKey := out[..16], out[16..48];
  }

  // ----- the authenticated encoding -----

  /** Zero bytes up to the next multiple of 16. */
  function Pad16(b: bytes): (p: bytes)
    ensures |p| % 16 == 0 && |b| <= |p| < |b| + 16 && p[..|b|] == b
  {
    b + Zeros((16 - |b| % 16) % 16)
  }

  /** Whether a bit length fits the 64-bit field; struct.pack raises otherwise. */
  predicate Fits(b: bytes)
  {
    8 * |b| < TWO64
  }

  function LengthBlock(aad: bytes, pt: bytes): Block
  {
    LeBytes(8 * |aad|, 8) + LeBytes(8 * |pt|, 8)
  }

  lemma WholeBlocks(m: nat, n: nat)
    requires m % 16 == 0 && n % 16 == 0
    ensures (m + n + 16) % 16 == 0 && (m + n) % 16 == 0
  {
    var a, c := m / 16, n / 16;
    assert m + n == 16 * (a + c);
    MultipleOf16(a + c);
    MultipleOf16(a + c + 1);
  }

  lemma MultipleOf16(k: nat)
    ensures 16 * k % 16 == 0
  {
  }

  function Encoding(aad: bytes, pt: bytes): (e: bytes)
    ensures |e| % 16 == 0
  {
    WholeBlocks(|Pad16(aad)|, |Pad16(pt)|);
    Pad16(aad) + Pad16(pt) + LengthBlock(aad, pt)
  }

  lemma WordPowers()
    ensures Shl(1, 32) == TWO32 && Shl(1, 64) == TWO64
  {
    PowerSixtyFour();
    PowerProduct(32, 32);
    PowerProduct(8, 8);
    PowerProduct(16, 16);
  }

  lemma LengthsRecovered(aad: bytes, pt: bytes)
    requires Fits(aad) && Fits(pt)
    ensures Le(LengthBlock(aad, pt)[..8]) == 8 * |aad| && Le(LengthBlock(aad, pt)[8..]) == 8 * |pt|
  {
    WordPowers();
    LeOfLeBytes(8 * |aad|, 8);
    LeOfLeBytes(8 * |pt|, 8);
  }

  /** Different (aad, plaintext) pairs have different encodings. */
  lemma EncodingInjective(aad: bytes, pt: bytes, aad': bytes, pt': bytes)
    requires Fits(aad) && Fits(pt) && Fits(aad') && Fits(pt')
    ensures Encoding(aad, pt) == Encoding(aad', pt') <==> aad == aad' && pt == pt'
  {
    hide Encoding;
    if Encoding(aad, pt) == Encoding(aad', pt') {
      EncodingDecodes(aad, pt, aad', pt');
    }
  }

  lemma EncodingDecodes(aad: bytes, pt: bytes, aad': bytes, pt': bytes)
    requires Fits(aad) && Fits(pt) && Fits(aad') && Fits(pt')
    requires Encoding(aad, pt) == Encoding(aad', pt')
    ensures aad == aad' && pt == pt'
  {
    hide LengthBlock, Pad16, Le;
    var e := Encoding(aad, pt);
    var e' := Encoding(aad', pt');
    assert e[|e| - 16..] == LengthBlock(aad, pt);
    assert e'[|e'| - 16..] == LengthBlock(aad', pt');
    LengthsRecovered(aad, pt);
    LengthsRecovered(aad', pt');
    assert |aad| == |aad'| && |pt| == |pt'|;
    EncodingParts(aad, pt);
    EncodingParts(aad', pt');
  }

  /** Where the encoding holds the two strings. */
  lemma EncodingParts(aad: bytes, pt: bytes)
    ensures var e := Encoding(aad, pt); var n := Padded(|aad|);
      |e| == n + Padded(|pt|) + 16 && e[..|aad|] == aad && e[n..n + |pt|] == pt
  {
    hide Pad16, LengthBlock, Padded;
    PadLength(aad);
    PadLength(pt);
    var e, n := Encoding(aad, pt), Padded(|aad|);
    assert e[..|aad|] == Pad16(aad)[..|aad|];
    assert e[n..n + |pt|] == Pad16(pt)[..|pt|];
  }

  lemma PadLength(b: bytes)
    ensures |Pad16(b)| == Padded(|b|)
  {
  }

  function Padded(n: nat): (p: nat)
    ensures n <= p
  {
    n + (16 - n % 16) % 16
  }

  // ----- the tag -----

  /** b & 0x7F */
  function ClearTop(b: byte): byte
  {
    b % 0x80
  }

  /** b | 0x80 */
  function SetTop(b: byte): byte
  {
    if b < 0x80 then b + 0x80 else b
  }

  /** The hash with the nonce added to its first twelve bytes and its top bit cleared. */
  function TagBase(hash: Block, nonce: Nonce): Block
  {
    seq(16, i requires 0 <= i < 16 =>
      if i < 12 then Eor(hash[i], nonce[i]) else if i == 15 then ClearTop(hash[i]) else hash[i])
  }

  function Tag(E: BlockCipher, authKey: Block, encKey: Key, nonce: Nonce, pt: bytes, aad: bytes): Block
  {
    E(encKey, TagBase(HashBlocks(authKey, Blocks(Encoding(aad, pt))), nonce))
  }

  /** The loops over the nonce and the last byte, shared by both implementations. */
  method MaskHash(hash: Block, nonce: Nonce) returns (base: Block)
    ensures base == TagBase(hash, nonce)
  {
    hide Eor;
    var s: bytes := hash;
    for i := 0 to 12
      invariant |s| == 16
      invariant forall j :: 0 <= j < 16 ==> s[j] == if j < i then Eor(hash[j], nonce[j]) else hash[j]
    {
      s := s[i := Eor(s[i], nonce[i])];
    }
    base := s[15 := ClearTop(s[15])];
  }

  /** The blocks of the padded string from offset i on. */
  ghost function BlocksFrom(b: bytes, i: nat): seq<Block>
    requires i % 16 == 0 && i <= |Pad16(b)|
  {
    Blocks(Pad16(b)[i..])
  }

  /** The reference's loop over one string: 16-byte chunks, the last one padded. */
  method PaddedChunks(b: bytes) returns (blocks: seq<bytes>)
    ensures blocks == Blocks(Pad16(b))
  {
    hide Pad16, Blocks, BlocksFrom;
    blocks := [];
    var i := 0;
    StartOfBlocks(b);
    while i < |b|
      invariant i % 16 == 0 && i <= |Pad16(b)|
      invariant blocks + BlocksFrom(b, i) == Blocks(Pad16(b))
    {
      var chunk := NextChunk(b, i);
      assert blocks + ([chunk] + BlocksFrom(b, i + 16)) == (blocks + [chunk]) + BlocksFrom(b, i + 16);
      blocks := blocks + [chunk];
      i := i + 16;
    }
    NothingLeft(b, i);
  }

  lemma StartOfBlocks(b: bytes)
    ensures BlocksFrom(b, 0) == Blocks(Pad16(b))
  {
    assert Pad16(b)[0..] == Pad16(b);
  }

  method NextChunk(b: bytes, i: nat) returns (chunk: bytes)
    requires i % 16 == 0 && i < |b|
    ensures |chunk| == 16 && i + 16 <= |Pad16(b)|
    ensures BlocksFrom(b, i) == [chunk] + BlocksFrom(b, i + 16)
  {
    hide Blocks, Pad16;
    ChunkAt(b, i);
    FirstBlock(Pad16(b)[i..]);
    assert Pad16(b)[i..][16..] == Pad16(b)[i + 16..];
    chunk := b[i..if i + 16 < |b| then i + 16 else |b|];
    if |chunk| < 16 {
      chunk := chunk + Zeros(16 - |chunk|);
    }
    assert chunk == Pad16(b)[i..][..16];
  }

  lemma FirstBlock(m: bytes)
    requires m != [] && |m| % 16 == 0
    ensures |m| >= 16 && Blocks(m) == [m[..16]] + Blocks(m[16..])
  {
    NextMultiple(0, |m|);
  }

  lemma NextMultiple(m: nat, n: nat)
    requires m % 16 == 0 && n % 16 == 0 && m < n
    ensures m + 16 <= n && (n - m) % 16 == 0
  {
    assert m == 16 * (m / 16) && n == 16 * (n / 16);
    MultipleOf16(n / 16 - m / 16);
  }

  lemma OnlyMultiple(m: nat, n: nat)
    requires m % 16 == 0 && n % 16 == 0 && m < n < m + 32
    ensures n == m + 16
  {
    assert m == 16 * (m / 16) && n == 16 * (n / 16);
  }

  lemma PaddedToNext(b: bytes, i: nat)
    requires i % 16 == 0 && i < |b| < i + 16
    ensures |Pad16(b)| == i + 16 && Pad16(b)[i..] == b[i..] + Zeros(16 - (|b| - i))
  {
    hide Zeros;
    OnlyMultiple(i, |Pad16(b)|);
  }

  lemma ChunkAt(b: bytes, i: nat)
    requires i % 16 == 0 && i < |b|
    ensures i + 16 <= |Pad16(b)| && |Pad16(b)[i..]| % 16 == 0
    ensures Pad16(b)[i..][..16]
         == if i + 16 <= |b| then b[i..i + 16] else b[i..] + Zeros(16 - (|b| - i))
  {
    var p := Pad16(b);
    NextMultiple(i, |p|);
    assert p[i..][..16] == p[i..i + 16];
    if i + 16 <= |b| {
      assert p[i..i + 16] == p[..|b|][i..i + 16];
    } else {
      PaddedToNext(b, i);
    }
  }

  lemma NothingLeft(b: bytes, i: nat)
    requires i % 16 == 0 && |b| <= i <= |Pad16(b)|
    ensures BlocksFrom(b, i) == []
  {
  }

  lemma {:induction false} BlocksConcat(a: bytes, b: bytes)
    requires |a| % 16 == 0 && |b| % 16 == 0
    ensures |a + b| % 16 == 0 && Blocks(a + b) == Blocks(a) + Blocks(b)
  {
    WholeBlocks(|a|, |b|);
    if a == [] {
      assert a + b == b;
    } else {
      NextMultiple(0, |a|);
      BlocksConcat(a[16..], b);
      assert (a + b)[16..] == a[16..] + b && (a + b)[..16] == a[..16];
    }
  }

  /** gcmsiv_compute_tag of the reference: it raises when a bit length does not fit its field. */
  method ComputeTagReference(E: BlockCipher, authKey: Block, encKey: Key, nonce: Nonce, pt: bytes, aad: bytes)
    returns (r: Outcome<Block>)
    ensures r.Ok? <==> Fits(aad) && Fits(pt)
    ensures r.Ok? ==> r.value == Tag(E, authKey, encKey, nonce, pt, aad)
  {
    hide Pad16, TagBase, HashBlocks, LengthBlock, Blocks;
    var blocks := PaddedChunks(aad);
    var more := PaddedChunks(pt);
    blocks := blocks + more;
    if !Fits(aad) || !Fits(pt) {
      return Raised;
    }
    blocks := blocks + [LengthBlock(aad, pt)];
    EncodingBlocks(aad, pt);
    var hash := PolyvalReference(authKey, blocks);
    var base := MaskHash(hash.value, nonce);
    return Ok(E(encKey, base));
  }

  lemma EncodingBlocks(aad: bytes, pt: bytes)
    ensures Blocks(Encoding(aad, pt)) == Blocks(Pad16(aad)) + Blocks(Pad16(pt)) + [LengthBlock(aad, pt)]
  {
    hide Pad16, LengthBlock;
    WholeBlocks(|Pad16(aad)|, |Pad16(pt)|);
    BlocksConcat(Pad16(aad), Pad16(pt));
    BlocksConcat(Pad16(aad) + Pad16(pt), LengthBlock(aad, pt));
    var l := LengthBlock(aad, pt);
    assert l[16..] == [] && l[..16] == l;
  }

  /** gcmsiv_tag of the oracle: one padded string through its own hash. */
  method ComputeTagOracle(E: BlockCipher, authKey: Block, encKey: Key, nonce: Nonce, pt: bytes, aad: bytes,
                          xInv128: InverseConstant)
    returns (r: Outcome<Block>)
    ensures r.Ok? <==> Fits(aad) && Fits(pt)
    ensures r.Ok? ==> r.value == Tag(E, authKey, encKey, nonce, pt, aad)
  {
    hide Pad16, TagBase, HashBlocks, LengthBlock, Blocks;
    if !Fits(aad) || !Fits(pt) {
      return Raised;
    }
    var hash := PolyvalOracle(authKey, Encoding(aad, pt), xInv128);
    var base := MaskHash(hash.value, nonce);
    return Ok(E(encKey, base));
  }

  // ----- counter mode -----

  /** The counter block number i: 32-bit little-endian counter, bytes 4 to 14 of the tag, top bit set. */
  function CounterBlock(tag: Block, i: nat): Block
  {
    LeBytes((Le(tag[..4]) + i) % TWO32, 4) + tag[4..15] + [SetTop(tag[15])]
  }

  function KeystreamByte(E: BlockCipher, encKey: Key, tag: Block, i: nat): byte
  {
    E(encKey, CounterBlock(tag, i / 16))[i % 16]
  }

  /** Counter mode, byte by byte. */
  function Ctr(E: BlockCipher, encKey: Key, tag: Block, data: bytes): (out: bytes)
    ensures |out| == |data|
  {
    seq(|data|, i requires 0 <= i < |data| => Eor(data[i], KeystreamByte(E, encKey, tag, i)))
  }

  lemma CtrTwice(E: BlockCipher, encKey: Key, tag: Block, data: bytes)
    ensures Ctr(E, encKey, tag, Ctr(E, encKey, tag, data)) == data
  {
    hide Xor, KeystreamByte;
    var out := Ctr(E, encKey, tag, Ctr(E, encKey, tag, data));
    forall i | 0 <= i < |data|
      ensures out[i] == data[i]
    {
      XorCancel(data[i], KeystreamByte(E, encKey, tag, i));
    }
  }

  lemma LeFourBound(b: bytes)
    requires |b| == 4
    ensures Le(b) < TWO32
  {
    LeBound(b);
    WordPowers();
  }

  lemma FirstCounter(tag: Block)
    ensures CounterBlock(tag, 0) == tag[15 := SetTop(tag[15])]
  {
    hide Le, LeBytes, SetTop;
    var low := tag[..4];
    LeFourBound(low);
    LeBytesOfLe(low);
    assert (Le(low) + 0) % TWO32 == Le(low) && |low| == 4;
    assert LeBytes(Le(low), 4) == low;
    assert CounterBlock(tag, 0) == low + tag[4..15] + [SetTop(tag[15])];
    assert low + tag[4..15] + [SetTop(tag[15])] == tag[15 := SetTop(tag[15])];
  }

  lemma CounterValue(tag: Block, i: nat)
    ensures Le(CounterBlock(tag, i)[..4]) == (Le(tag[..4]) + i) % TWO32
  {
    hide Le, LeBytes, SetTop;
    WordPowers();
    var c := (Le(tag[..4]) + i) % TWO32;
    LeOfLeBytes(c, 4);
    assert CounterBlock(tag, i)[..4] == LeBytes(c, 4);
  }

  lemma WrapAdd(a: nat, i: nat)
    ensures ((a + i) % TWO32 + 1) % TWO32 == (a + i + 1) % TWO32
  {
  }

  /** The 32-bit increment of bytes 0 to 3 steps to the next counter block. */
  method IncrementCounter(counter: Block, ghost tag: Block, ghost i: nat) returns (next: Block)
    requires counter == CounterBlock(tag, i)
    ensures next == CounterBlock(tag, i + 1)
  {
    hide Le, LeBytes, SetTop;
    CounterValue(tag, i);
    WrapAdd(Le(tag[..4]), i);
    var c := Le(counter[..4]);
    c := (c + 1) % TWO32;
    next := LeBytes(c, 4) + counter[4..];
  }

  /** The byte loop of the reference: one chunk against one keystream block. */
  method XorChunk(data: bytes, from: nat, keystream: Block) returns (out: bytes)
    requires from <= |data|
    ensures |out| == if from + 16 <= |data| then 16 else |data| - from
    ensures forall j :: 0 <= j < |out| ==> out[j] == Eor(data[from + j], keystream[j])
  {
    hide Eor;
    var chunk := data[from..if from + 16 < |data| then from + 16 else |data|];
    out := [];
    for j := 0 to |chunk|
      invariant |out| == j
      invariant forall k :: 0 <= k < j ==> out[k] == Eor(chunk[k], keystream[k])
    {
      out := out + [Eor(chunk[j], keystream[j])];
    }
  }

  lemma CtrNextChunk(E: BlockCipher, encKey: Key, tag: Block, data: bytes, i: nat, chunk: bytes)
    requires i % 16 == 0 && i < |data|
    requires |chunk| == if i + 16 <= |data| then 16 else |data| - i
    requires forall j :: 0 <= j < |chunk| ==> chunk[j] == Eor(data[i + j], E(encKey, CounterBlock(tag, i / 16))[j])
    ensures Ctr(E, encKey, tag, data)[..i] + chunk == Ctr(E, encKey, tag, data)[..i + |chunk|]
  {
    hide Eor, CounterBlock;
    forall j | 0 <= j < |chunk|
      ensures chunk[j] == Ctr(E, encKey, tag, data)[i + j]
    {
      assert (i + j) / 16 == i / 16 && (i + j) % 16 == j;
    }
  }

  /** gcmsiv_ctr_encrypt of the reference. */
  method CtrReference(E: BlockCipher, encKey: Key, tag: Block, plaintext: bytes) returns (ciphertext: bytes)
    ensures ciphertext == Ctr(E, encKey, tag, plaintext)
  {
    hide Eor, CounterBlock, Ctr, SetTop;
    if plaintext == [] {
      return [];
    }
    FirstCounter(tag);
    var counter: Block := tag[15 := SetTop(tag[15])];
    ciphertext := [];
    var i := 0;
    while i < |plaintext|
      invariant i % 16 == 0 && counter == CounterBlock(tag, i / 16)
      invariant ciphertext == Ctr(E, encKey, tag, plaintext)[..if i < |plaintext| then i else |plaintext|]
    {
      var keystream := E(encKey, counter);
      var chunk := XorChunk(plaintext, i, keystream);
      CtrNextChunk(E, encKey, tag, plaintext, i, chunk);
      ciphertext := ciphertext + chunk;
      counter := IncrementCounter(counter, tag, i / 16);
      i := i + 16;
    }
  }

  /** ctr of the oracle: chunk and keystream are zipped, and empty data needs no special case. */
  method CtrOracle(E: BlockCipher, encKey: Key, tag: Block, data: bytes) returns (out: bytes)
    ensures out == Ctr(E, encKey, tag, data)
  {
    hide Eor, CounterBlock, Ctr, SetTop;
    FirstCounter(tag);
    var blk: Block := tag[15 := SetTop(tag[15])];
    out := [];
    var i := 0;
    while i < |data|
      invariant i % 16 == 0 && blk == CounterBlock(tag, i / 16)
      invariant out == Ctr(E, encKey, tag, data)[..if i < |data| then i else |data|]
    {
      var ks := E(encKey, blk);
      var chunk := data[i..if i + 16 < |data| then i + 16 else |data|];
      var zipped := seq(|chunk|, j requires 0 <= j < |chunk| => Eor(chunk[j], ks[j]));
      CtrNextChunk(E, encKey, tag, data, i, zipped);
      out := out + zipped;
      blk := IncrementCounter(blk, tag, i / 16);
      i := i + 16;
    }
  }

  /** Two counter blocks are the same exactly when their numbers agree modulo 2^32. */
  lemma CounterBlocksRepeat(tag: Block, i: nat, j: nat)
    ensures CounterBlock(tag, i) == CounterBlock(tag, j) <==> i % TWO32 == j % TWO32
  {
    hide Le, LeBytes, SetTop;
    CounterValue(tag, i);
    CounterValue(tag, j);
    SameOffset(Le(tag[..4]), i, j);
  }

  lemma SameOffset(a: nat, i: nat, j: nat)
    ensures (a + i) % TWO32 == (a + j) % TWO32 <==> i % TWO32 == j % TWO32
  {
  }

  /** The block that is encrypted to a tag is never a counter block: their top bits differ. */
  lemma TagBaseIsNoCounter(hash: Block, nonce: Nonce, tag: Block, i: nat)
    ensures TagBase(hash, nonce) != CounterBlock(tag, i)
  {
    hide Eor, Le, LeBytes;
    assert TagBase(hash, nonce)[15] < 0x80;
    assert CounterBlock(tag, i)[15] >= 0x80;
  }

  // ----- the composition -----

  /** The ciphertext and the tag, or an exception when a length does not fit its field. */
  function Encrypt(E: BlockCipher, key: Key, nonce: Nonce, pt: bytes, aad: bytes): Outcome<(bytes, Block)>
  {
    if !Fits(aad) || !Fits(pt) then Raised
    else
      var encKey := EncKey(E, key, nonce);
      var tag := Tag(E, AuthKey(E, key, nonce), encKey, nonce, pt, aad);
      Ok((Ctr(E, encKey, tag, pt), tag))
  }

  /** The candidate plaintext, and whether its tag is the received one. */
  function Decrypt(E: BlockCipher, key: Key, nonce: Nonce, ct: bytes, tag: Block, aad: bytes): Outcome<(bytes, bool)>
  {
    if !Fits(aad) || !Fits(ct) then Raised
    else
      var encKey := EncKey(E, key, nonce);
      var pt := Ctr(E, encKey, tag, ct);
      Ok((pt, tag == Tag(E, AuthKey(E, key, nonce), encKey, nonce, pt, aad)))
  }

  method EncryptReference(E: BlockCipher, key: Key, nonce: Nonce, pt: bytes, aad: bytes)
    returns (r: Outcome<(bytes, Block)>)
    ensures r == Encrypt(E, key, nonce, pt, aad)
  {
    hide AuthKey, EncKey, Tag, Ctr, Fits;
    var authKey, encKey := DeriveKeysReference(E, key, nonce);
    var tag := ComputeTagReference(E, authKey, encKey, nonce, pt, aad);
    if tag.Raised? {
      return Raised;
    }
    var ct := CtrReference(E, encKey, tag.value, pt);
    return Ok((ct, tag.value));
  }

  method DecryptReference(E: BlockCipher, key: Key, nonce: Nonce, ct: bytes, tag: Block, aad: bytes)
    returns (r: Outcome<(bytes, bool)>)
    ensures r == Decrypt(E, key, nonce, ct, tag, aad)
  {
    hide AuthKey, EncKey, Tag, Ctr;
    var authKey, encKey := DeriveKeysReference(E, key, nonce);
    var pt := CtrReference(E, encKey, tag, ct);
    var expected := ComputeTagReference(E, authKey, encKey, nonce, pt, aad);
    if expected.Raised? {
      return Raised;
    }
    return Ok((pt, tag == expected.value));
  }

  method EncryptOracle(E: BlockCipher, key: Key, nonce: Nonce, pt: bytes, aad: bytes, xInv128: InverseConstant)
    returns (r: Outcome<(bytes, Block)>)
    ensures r == Encrypt(E, key, nonce, pt, aad)
  {
    hide AuthKey, EncKey, Tag, Ctr, Fits;
    var authKey, encKey := DeriveKeysOracle(E, key, nonce);
    var tag := ComputeTagOracle(E, authKey, encKey, nonce, pt, aad, xInv128);
    if tag.Raised? {
      return Raised;
    }
    var ct := CtrOracle(E, encKey, tag.value, pt);
    return Ok((ct, tag.value));
  }

  method DecryptOracle(E: BlockCipher, key: Key, nonce: Nonce, ct: bytes, tag: Block, aad: bytes,
                       xInv128: InverseConstant)
    returns (r: Outcome<(bytes, bool)>)
    ensures r == Decrypt(E, key, nonce, ct, tag, aad)
  {
    hide AuthKey, EncKey, Tag, Ctr;
    var authKey, encKey := DeriveKeysOracle(E, key, nonce);
    var pt := CtrOracle(E, encKey, tag, ct);
    var expected := ComputeTagOracle(E, authKey, encKey, nonce, pt, aad, xInv128);
    if expected.Raised? {
      return Raised;
    }
    return Ok((pt, expected.value == tag));
  }

  /** Decryption accepts exactly what encryption produces. */
  lemma DecryptAcceptsExactly(E: BlockCipher, key: Key, nonce: Nonce, pt: bytes, ct: bytes, tag: Block, aad: bytes)
    ensures Decrypt(E, key, nonce, ct, tag, aad) == Ok((pt, true))
       <==> Encrypt(E, key, nonce, pt, aad) == Ok((ct, tag))
  {
    hide AuthKey, EncKey, Tag, Ctr;
    var encKey := EncKey(E, key, nonce);
    CtrTwice(E, encKey, tag, pt);
    CtrTwice(E, encKey, tag, ct);
  }
}
