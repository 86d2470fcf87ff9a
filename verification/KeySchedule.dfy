/** The AES-256 key schedule, FIPS 197 section 5.2. */
module KeySchedule {
  import opened ByteTypes
  import opened Gf256
  import opened Aes

  type Word = w: bytes | |w| == 4 witness Zeros(4)

  function SubWord(sbox: SBox, t: Word): Word
  {
    [sbox[t[0]], sbox[t[1]], sbox[t[2]], sbox[t[3]]]
  }

  function RotWord(t: Word): Word
  {
    [t[1], t[2], t[3], t[0]]
  }

  function EorWord(a: Word, b: Word): Word
  {
    [Eor(a[0], b[0]), Eor(a[1], b[1]), Eor(a[2], b[2]), Eor(a[3], b[3])]
  }

  /** The round constants: powers of x. */
  function Rcon(j: nat): byte
  {
    if j == 0 then 1 else XTime(Rcon(j - 1))
  }

  /** What the previous word t contributes to word i. */
  function Temp(sbox: SBox, t: Word, i: nat): Word
    requires i >= 8
  {
    if i % 8 == 0 then
      var u := SubWord(sbox, RotWord(t));
      [Eor(u[0], Rcon(i / 8 - 1)), u[1], u[2], u[3]]
    else if i % 8 == 4 then SubWord(sbox, t)
    else t
  }

  function WordAt(w: bytes, i: nat): Word
    requires 4 * i + 4 <= |w|
  {
    w[4 * i..4 * i + 4]
  }

  function NextWord(sbox: SBox, w: bytes, i: nat): Word
    requires i >= 8 && 4 * i <= |w|
  {
    EorWord(WordAt(w, i - 8), Temp(sbox, WordAt(w, i - 1), i))
  }

  /** The first n words of the schedule. */
  function Words(sbox: SBox, key: Key, n: nat): (w: bytes)
    requires n >= 8
    ensures |w| == 4 * n
    decreases n
  {
    if n == 8 then key
    else
      var w := Words(sbox, key, n - 1);
      w + NextWord(sbox, w, n - 1)
  }

  function Expand(sbox: SBox, key: Key): Schedule
  {
    Words(sbox, key, 60)
  }

  /** The recurrence of FIPS 197 with its starting words. */
  ghost predicate IsSchedule(sbox: SBox, key: Key, w: Schedule)
  {
    && w[..32] == key
    && forall i {:trigger WordAt(w, i)} :: 8 <= i < 60 ==> WordAt(w, i) == NextWord(sbox, w, i)
  }

  lemma {:induction false} WordsPrefix(sbox: SBox, key: Key, m: nat, n: nat)
    requires 8 <= m <= n
    ensures Words(sbox, key, n)[..4 * m] == Words(sbox, key, m)
    decreases n
  {
    hide NextWord;
    if m == n {
    } else {
      WordsPrefix(sbox, key, m, n - 1);
      var w := Words(sbox, key, n - 1);
      assert Words(sbox, key, n)[..4 * m] == w[..4 * m];
    }
  }

  lemma NextWordPrefix(sbox: SBox, w: bytes, v: bytes, i: nat)
    requires i >= 8 && |v| == 4 * i <= |w| && w[..4 * i] == v
    ensures NextWord(sbox, w, i) == NextWord(sbox, v, i)
  {
    assert WordAt(w, i - 8) == WordAt(v, i - 8);
    assert WordAt(w, i - 1) == WordAt(v, i - 1);
  }

  lemma ExpandIsSchedule(sbox: SBox, key: Key)
    ensures IsSchedule(sbox, key, Expand(sbox, key))
  {
    hide NextWord;
    var w := Expand(sbox, key);
    WordsPrefix(sbox, key, 8, 60);
    forall i | 8 <= i < 60
      ensures WordAt(w, i) == NextWord(sbox, w, i)
    {
      WordsPrefix(sbox, key, i, 60);
      WordsPrefix(sbox, key, i + 1, 60);
      NextWordPrefix(sbox, w, Words(sbox, key, i), i);
      assert WordAt(w, i) == w[..4 * (i + 1)][4 * i..];
    }
  }

  /** The recurrence determines the schedule. */
  lemma {:induction false} ScheduleUnique(sbox: SBox, key: Key, w: Schedule, n: nat)
    requires IsSchedule(sbox, key, w) && 8 <= n <= 60
    ensures w[..4 * n] == Words(sbox, key, n)
    decreases n
  {
    hide NextWord;
    if n == 8 {
    } else {
      ScheduleUnique(sbox, key, w, n - 1);
      NextWordPrefix(sbox, w, Words(sbox, key, n - 1), n - 1);
      assert w[..4 * n] == w[..4 * (n - 1)] + WordAt(w, n - 1);
    }
  }

  /** A 240-byte string is the schedule of a key exactly when it satisfies the recurrence. */
  lemma ScheduleCharacterised(sbox: SBox, key: Key, w: Schedule)
    ensures IsSchedule(sbox, key, w) <==> w == Expand(sbox, key)
  {
    ExpandIsSchedule(sbox, key);
    if IsSchedule(sbox, key, w) {
      ScheduleUnique(sbox, key, w, 60);
      assert w[..240] == w;
    }
  }

  /** AES-256 as a block cipher of a key and a block. */
  function Aes256(sbox: SBox): (Key, Block) -> Block
  {
    (key: Key, block: Block) => Cipher(sbox, Expand(sbox, key), block)
  }
}
