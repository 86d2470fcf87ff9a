/** Bytes are the integers below 256, as in Python, and byte strings are sequences of them. */
module ByteTypes {
  import opened Bits

  type byte = n: nat | n < 0x100
  type bytes = seq<byte>
  type Key = k: bytes | |k| == 32 witness Zeros(32)
  type Block = b: bytes | |b| == 16 witness Zeros(16)

  function Zeros(n: nat): (z: bytes)
    ensures |z| == n
  {
    seq(n, _ => 0)
  }

  /** Exclusive or of two bytes. */
  function Eor(a: byte, b: byte): byte
  {
    assert Shl(1, 8) == 0x100;
    XorBound(a, b, 8);
    Xor(a, b)
  }
}
