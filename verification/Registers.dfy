/** Eight-bit registers of the 6502: increments, decrements and shifts wrap modulo 256. */
module Registers {
  import opened ByteTypes

  /** inx, iny, inc */
  function Inc(x: byte): byte
  {
    if x == 0xFF then 0 else x + 1
  }

  /** dex, dey, dec */
  function Dec(x: byte): byte
  {
    if x == 0 then 0xFF else x - 1
  }

  /** asl, with the bit that leaves the register dropped */
  function Asl(a: byte): byte
  {
    if a < 0x80 then 2 * a else 2 * a - 0x100
  }

  /** lsr */
  function Lsr(a: byte): byte
  {
    a / 2
  }

  /** The condition of bpl: bit 7 is clear. */
  predicate Plus(x: byte)
  {
    x < 0x80
  }

  /** The bit that leaves the register does not matter. */
  lemma AslOfLow(m: nat)
    ensures Asl(m % 0x100) == 2 * m % 0x100
  {
    var q, r := m / 0x100, m % 0x100;
    assert 2 * m == 2 * r + 0x100 * (2 * q);
    WholeMultiple(2 * r, 2 * q);
  }

  lemma WholeMultiple(r: nat, q: nat)
    ensures (r + 0x100 * q) % 0x100 == r % 0x100
  {
  }
}
