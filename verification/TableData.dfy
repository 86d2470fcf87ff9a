/** The two substitution tables of src/tables.s: they are the S-box of FIPS 197 section 5.1.1 and its inverse. */
module TableData {
  import opened ByteTypes
  import opened Aes
  import opened SubstitutionBox
  import opened SboxEntries

  const SBOX_0: seq<byte> :=
    [0x63, 0x7C, 0x77, 0x7B, 0xF2, 0x6B, 0x6F, 0xC5, 0x30, 0x01, 0x67, 0x2B, 0xFE, 0xD7, 0xAB, 0x76]
  const SBOX_1: seq<byte> :=
    [0xCA, 0x82, 0xC9, 0x7D, 0xFA, 0x59, 0x47, 0xF0, 0xAD, 0xD4, 0xA2, 0xAF, 0x9C, 0xA4, 0x72, 0xC0]
  const SBOX_2: seq<byte> :=
    [0xB7, 0xFD, 0x93, 0x26, 0x36, 0x3F, 0xF7, 0xCC, 0x34, 0xA5, 0xE5, 0xF1, 0x71, 0xD8, 0x31, 0x15]
  const SBOX_3: seq<byte> :=
    [0x04, 0xC7, 0x23, 0xC3, 0x18, 0x96, 0x05, 0x9A, 0x07, 0x12, 0x80, 0xE2, 0xEB, 0x27, 0xB2, 0x75]
  const SBOX_4: seq<byte> :=
    [0x09, 0x83, 0x2C, 0x1A, 0x1B, 0x6E, 0x5A, 0xA0, 0x52, 0x3B, 0xD6, 0xB3, 0x29, 0xE3, 0x2F, 0x84]
  const SBOX_5: seq<byte> :=
    [0x53, 0xD1, 0x00, 0xED, 0x20, 0xFC, 0xB1, 0x5B, 0x6A, 0xCB, 0xBE, 0x39, 0x4A, 0x4C, 0x58, 0xCF]
  const SBOX_6: seq<byte> :=
    [0xD0, 0xEF, 0xAA, 0xFB, 0x43, 0x4D, 0x33, 0x85, 0x45, 0xF9, 0x02, 0x7F, 0x50, 0x3C, 0x9F, 0xA8]
  const SBOX_7: seq<byte> :=
    [0x51, 0xA3, 0x40, 0x8F, 0x92, 0x9D, 0x38, 0xF5, 0xBC, 0xB6, 0xDA, 0x21, 0x10, 0xFF, 0xF3, 0xD2]
  const SBOX_8: seq<byte> :=
    [0xCD, 0x0C, 0x13, 0xEC, 0x5F, 0x97, 0x44, 0x17, 0xC4, 0xA7, 0x7E, 0x3D, 0x64, 0x5D, 0x19, 0x73]
  const SBOX_9: seq<byte> :=
    [0x60, 0x81, 0x4F, 0xDC, 0x22, 0x2A, 0x90, 0x88, 0x46, 0xEE, 0xB8, 0x14, 0xDE, 0x5E, 0x0B, 0xDB]
  const SBOX_A: seq<byte> :=
    [0xE0, 0x32, 0x3A, 0x0A, 0x49, 0x06, 0x24, 0x5C, 0xC2, 0xD3, 0xAC, 0x62, 0x91, 0x95, 0xE4, 0x79]
  const SBOX_B: seq<byte> :=
    [0xE7, 0xC8, 0x37, 0x6D, 0x8D, 0xD5, 0x4E, 0xA9, 0x6C, 0x56, 0xF4, 0xEA, 0x65, 0x7A, 0xAE, 0x08]
  const SBOX_C: seq<byte> :=
    [0xBA, 0x78, 0x25, 0x2E, 0x1C, 0xA6, 0xB4, 0xC6, 0xE8, 0xDD, 0x74, 0x1F, 0x4B, 0xBD, 0x8B, 0x8A]
  const SBOX_D: seq<byte> :=
    [0x70, 0x3E, 0xB5, 0x66, 0x48, 0x03, 0xF6, 0x0E, 0x61, 0x35, 0x57, 0xB9, 0x86, 0xC1, 0x1D, 0x9E]
  const SBOX_E: seq<byte> :=
    [0xE1, 0xF8, 0x98, 0x11, 0x69, 0xD9, 0x8E, 0x94, 0x9B, 0x1E, 0x87, 0xE9, 0xCE, 0x55, 0x28, 0xDF]
  const SBOX_F: seq<byte> :=
    [0x8C, 0xA1, 0x89, 0x0D, 0xBF, 0xE6, 0x42, 0x68, 0x41, 0x99, 0x2D, 0x0F, 0xB0, 0x54, 0xBB, 0x16]

  const INV_SBOX_0: seq<byte> :=
    [0x52, 0x09, 0x6A, 0xD5, 0x30, 0x36, 0xA5, 0x38, 0xBF, 0x40, 0xA3, 0x9E, 0x81, 0xF3, 0xD7, 0xFB]
  const INV_SBOX_1: seq<byte> :=
    [0x7C, 0xE3, 0x39, 0x82, 0x9B, 0x2F, 0xFF, 0x87, 0x34, 0x8E, 0x43, 0x44, 0xC4, 0xDE, 0xE9, 0xCB]
  const INV_SBOX_2: seq<byte> :=
    [0x54, 0x7B, 0x94, 0x32, 0xA6, 0xC2, 0x23, 0x3D, 0xEE, 0x4C, 0x95, 0x0B, 0x42, 0xFA, 0xC3, 0x4E]
  const INV_SBOX_3: seq<byte> :=
    [0x08, 0x2E, 0xA1, 0x66, 0x28, 0xD9, 0x24, 0xB2, 0x76, 0x5B, 0xA2, 0x49, 0x6D, 0x8B, 0xD1, 0x25]
  const INV_SBOX_4: seq<byte> :=
    [0x72, 0xF8, 0xF6, 0x64, 0x86, 0x68, 0x98, 0x16, 0xD4, 0xA4, 0x5C, 0xCC, 0x5D, 0x65, 0xB6, 0x92]
  const INV_SBOX_5: seq<byte> :=
    [0x6C, 0x70, 0x48, 0x50, 0xFD, 0xED, 0xB9, 0xDA, 0x5E, 0x15, 0x46, 0x57, 0xA7, 0x8D, 0x9D, 0x84]
  const INV_SBOX_6: seq<byte> :=
    [0x90, 0xD8, 0xAB, 0x00, 0x8C, 0xBC, 0xD3, 0x0A, 0xF7, 0xE4, 0x58, 0x05, 0xB8, 0xB3, 0x45, 0x06]
  const INV_SBOX_7: seq<byte> :=
    [0xD0, 0x2C, 0x1E, 0x8F, 0xCA, 0x3F, 0x0F, 0x02, 0xC1, 0xAF, 0xBD, 0x03, 0x01, 0x13, 0x8A, 0x6B]
  const INV_SBOX_8: seq<byte> :=
    [0x3A, 0x91, 0x11, 0x41, 0x4F, 0x67, 0xDC, 0xEA, 0x97, 0xF2, 0xCF, 0xCE, 0xF0, 0xB4, 0xE6, 0x73]
  const INV_SBOX_9: seq<byte> :=
    [0x96, 0xAC, 0x74, 0x22, 0xE7, 0xAD, 0x35, 0x85, 0xE2, 0xF9, 0x37, 0xE8, 0x1C, 0x75, 0xDF, 0x6E]
  const INV_SBOX_A: seq<byte> :=
    [0x47, 0xF1, 0x1A, 0x71, 0x1D, 0x29, 0xC5, 0x89, 0x6F, 0xB7, 0x62, 0x0E, 0xAA, 0x18, 0xBE, 0x1B]
  const INV_SBOX_B: seq<byte> :=
    [0xFC, 0x56, 0x3E, 0x4B, 0xC6, 0xD2, 0x79, 0x20, 0x9A, 0xDB, 0xC0, 0xFE, 0x78, 0xCD, 0x5A, 0xF4]
  const INV_SBOX_C: seq<byte> :=
    [0x1F, 0xDD, 0xA8, 0x33, 0x88, 0x07, 0xC7, 0x31, 0xB1, 0x12, 0x10, 0x59, 0x27, 0x80, 0xEC, 0x5F]
  const INV_SBOX_D: seq<byte> :=
    [0x60, 0x51, 0x7F, 0xA9, 0x19, 0xB5, 0x4A, 0x0D, 0x2D, 0xE5, 0x7A, 0x9F, 0x93, 0xC9, 0x9C, 0xEF]
  const INV_SBOX_E: seq<byte> :=
    [0xA0, 0xE0, 0x3B, 0x4D, 0xAE, 0x2A, 0xF5, 0xB0, 0xC8, 0xEB, 0xBB, 0x3C, 0x83, 0x53, 0x99, 0x61]
  const INV_SBOX_F: seq<byte> :=
    [0x17, 0x2B, 0x04, 0x7E, 0xBA, 0x77, 0xD6, 0x26, 0xE1, 0x69, 0x14, 0x63, 0x55, 0x21, 0x0C, 0x7D]

  const SBOX_ROWS: seq<seq<byte>> := [
    SBOX_0, SBOX_1, SBOX_2, SBOX_3, SBOX_4, SBOX_5, SBOX_6, SBOX_7,
    SBOX_8, SBOX_9, SBOX_A, SBOX_B, SBOX_C, SBOX_D, SBOX_E, SBOX_F]

  const INV_SBOX_ROWS: seq<seq<byte>> := [
    INV_SBOX_0, INV_SBOX_1, INV_SBOX_2, INV_SBOX_3, INV_SBOX_4, INV_SBOX_5, INV_SBOX_6, INV_SBOX_7,
    INV_SBOX_8, INV_SBOX_9, INV_SBOX_A, INV_SBOX_B, INV_SBOX_C, INV_SBOX_D, INV_SBOX_E, INV_SBOX_F]

  /** Sixteen lines of sixteen bytes, one after the other. */
  function Flat(rows: seq<seq<byte>>): SBox
    requires |rows| == 16 && forall i :: 0 <= i < 16 ==> |rows[i]| == 16
  {
    seq(0x100, b requires 0 <= b < 0x100 => rows[b / 16][b % 16])
  }

  const AES_SBOX: SBox := Flat(SBOX_ROWS)
  const AES_INV_SBOX: SBox := Flat(INV_SBOX_ROWS)

  /** A line of the S-box, for the bytes from base on. */
  ghost predicate Forward(row: seq<byte>, base: nat)
    requires base <= 0xF0
  {
    |row| == 16 && forall i :: 0 <= i < 16 ==> row[i] == SubByte(base + i)
  }

  /** A line of the inverse table. */
  ghost predicate Backward(row: seq<byte>, base: nat)
    requires base <= 0xF0
  {
    |row| == 16 && forall i :: 0 <= i < 16 ==> SubByte(row[i]) == base + i
  }

  lemma Forward0()
    ensures Forward(SBOX_0, 0x00)
  {
    hide SubByte;
    Entry(0x00, 0x63); Entry(0x01, 0x7C); Entry(0x02, 0x77); Entry(0x03, 0x7B);
    Entry(0x04, 0xF2); Entry(0x05, 0x6B); Entry(0x06, 0x6F); Entry(0x07, 0xC5);
    Entry(0x08, 0x30); Entry(0x09, 0x01); Entry(0x0A, 0x67); Entry(0x0B, 0x2B);
    Entry(0x0C, 0xFE); Entry(0x0D, 0xD7); Entry(0x0E, 0xAB); Entry(0x0F, 0x76);
  }

  lemma Forward1()
    ensures Forward(SBOX_1, 0x10)
  {
    hide SubByte;
    Entry(0x10, 0xCA); Entry(0x11, 0x82); Entry(0x12, 0xC9); Entry(0x13, 0x7D);
    Entry(0x14, 0xFA); Entry(0x15, 0x59); Entry(0x16, 0x47); Entry(0x17, 0xF0);
    Entry(0x18, 0xAD); Entry(0x19, 0xD4); Entry(0x1A, 0xA2); Entry(0x1B, 0xAF);
    Entry(0x1C, 0x9C); Entry(0x1D, 0xA4); Entry(0x1E, 0x72); Entry(0x1F, 0xC0);
  }

  lemma Forward2()
    ensures Forward(SBOX_2, 0x20)
  {
    hide SubByte;
    Entry(0x20, 0xB7); Entry(0x21, 0xFD); Entry(0x22, 0x93); Entry(0x23, 0x26);
    Entry(0x24, 0x36); Entry(0x25, 0x3F); Entry(0x26, 0xF7); Entry(0x27, 0xCC);
    Entry(0x28, 0x34); Entry(0x29, 0xA5); Entry(0x2A, 0xE5); Entry(0x2B, 0xF1);
    Entry(0x2C, 0x71); Entry(0x2D, 0xD8); Entry(0x2E, 0x31); Entry(0x2F, 0x15);
  }

  lemma Forward3()
    ensures Forward(SBOX_3, 0x30)
  {
    hide SubByte;
    Entry(0x30, 0x04); Entry(0x31, 0xC7); Entry(0x32, 0x23); Entry(0x33, 0xC3);
    Entry(0x34, 0x18); Entry(0x35, 0x96); Entry(0x36, 0x05); Entry(0x37, 0x9A);
    Entry(0x38, 0x07); Entry(0x39, 0x12); Entry(0x3A, 0x80); Entry(0x3B, 0xE2);
    Entry(0x3C, 0xEB); Entry(0x3D, 0x27); Entry(0x3E, 0xB2); Entry(0x3F, 0x75);
  }

  lemma Forward4()
    ensures Forward(SBOX_4, 0x40)
  {
    hide SubByte;
    Entry(0x40, 0x09); Entry(0x41, 0x83); Entry(0x42, 0x2C); Entry(0x43, 0x1A);
    Entry(0x44, 0x1B); Entry(0x45, 0x6E); Entry(0x46, 0x5A); Entry(0x47, 0xA0);
    Entry(0x48, 0x52); Entry(0x49, 0x3B); Entry(0x4A, 0xD6); Entry(0x4B, 0xB3);
    Entry(0x4C, 0x29); Entry(0x4D, 0xE3); Entry(0x4E, 0x2F); Entry(0x4F, 0x84);
  }

  lemma Forward5()
    ensures Forward(SBOX_5, 0x50)
  {
    hide SubByte;
    Entry(0x50, 0x53); Entry(0x51, 0xD1); Entry(0x52, 0x00); Entry(0x53, 0xED);
    Entry(0x54, 0x20); Entry(0x55, 0xFC); Entry(0x56, 0xB1); Entry(0x57, 0x5B);
    Entry(0x58, 0x6A); Entry(0x59, 0xCB); Entry(0x5A, 0xBE); Entry(0x5B, 0x39);
    Entry(0x5C, 0x4A); Entry(0x5D, 0x4C); Entry(0x5E, 0x58); Entry(0x5F, 0xCF);
  }

  lemma Forward6()
    ensures Forward(SBOX_6, 0x60)
  {
    hide SubByte;
    Entry(0x60, 0xD0); Entry(0x61, 0xEF); Entry(0x62, 0xAA); Entry(0x63, 0xFB);
    Entry(0x64, 0x43); Entry(0x65, 0x4D); Entry(0x66, 0x33); Entry(0x67, 0x85);
    Entry(0x68, 0x45); Entry(0x69, 0xF9); Entry(0x6A, 0x02); Entry(0x6B, 0x7F);
    Entry(0x6C, 0x50); Entry(0x6D, 0x3C); Entry(0x6E, 0x9F); Entry(0x6F, 0xA8);
  }

  lemma Forward7()
    ensures Forward(SBOX_7, 0x70)
  {
    hide SubByte;
    Entry(0x70, 0x51); Entry(0x71, 0xA3); Entry(0x72, 0x40); Entry(0x73, 0x8F);
    Entry(0x74, 0x92); Entry(0x75, 0x9D); Entry(0x76, 0x38); Entry(0x77, 0xF5);
    Entry(0x78, 0xBC); Entry(0x79, 0xB6); Entry(0x7A, 0xDA); Entry(0x7B, 0x21);
    Entry(0x7C, 0x10); Entry(0x7D, 0xFF); Entry(0x7E, 0xF3); Entry(0x7F, 0xD2);
  }

  lemma Forward8()
    ensures Forward(SBOX_8, 0x80)
  {
    hide SubByte;
    Entry(0x80, 0xCD); Entry(0x81, 0x0C); Entry(0x82, 0x13); Entry(0x83, 0xEC);
    Entry(0x84, 0x5F); Entry(0x85, 0x97); Entry(0x86, 0x44); Entry(0x87, 0x17);
    Entry(0x88, 0xC4); Entry(0x89, 0xA7); Entry(0x8A, 0x7E); Entry(0x8B, 0x3D);
    Entry(0x8C, 0x64); Entry(0x8D, 0x5D); Entry(0x8E, 0x19); Entry(0x8F, 0x73);
  }

  lemma Forward9()
    ensures Forward(SBOX_9, 0x90)
  {
    hide SubByte;
    Entry(0x90, 0x60); Entry(0x91, 0x81); Entry(0x92, 0x4F); Entry(0x93, 0xDC);
    Entry(0x94, 0x22); Entry(0x95, 0x2A); Entry(0x96, 0x90); Entry(0x97, 0x88);
    Entry(0x98, 0x46); Entry(0x99, 0xEE); Entry(0x9A, 0xB8); Entry(0x9B, 0x14);
    Entry(0x9C, 0xDE); Entry(0x9D, 0x5E); Entry(0x9E, 0x0B); Entry(0x9F, 0xDB);
  }

  lemma ForwardA()
    ensures Forward(SBOX_A, 0xA0)
  {
    hide SubByte;
    Entry(0xA0, 0xE0); Entry(0xA1, 0x32); Entry(0xA2, 0x3A); Entry(0xA3, 0x0A);
    Entry(0xA4, 0x49); Entry(0xA5, 0x06); Entry(0xA6, 0x24); Entry(0xA7, 0x5C);
    Entry(0xA8, 0xC2); Entry(0xA9, 0xD3); Entry(0xAA, 0xAC); Entry(0xAB, 0x62);
    Entry(0xAC, 0x91); Entry(0xAD, 0x95); Entry(0xAE, 0xE4); Entry(0xAF, 0x79);
  }

  lemma ForwardB()
    ensures Forward(SBOX_B, 0xB0)
  {
    hide SubByte;
    Entry(0xB0, 0xE7); Entry(0xB1, 0xC8); Entry(0xB2, 0x37); Entry(0xB3, 0x6D);
    Entry(0xB4, 0x8D); Entry(0xB5, 0xD5); Entry(0xB6, 0x4E); Entry(0xB7, 0xA9);
    Entry(0xB8, 0x6C); Entry(0xB9, 0x56); Entry(0xBA, 0xF4); Entry(0xBB, 0xEA);
    Entry(0xBC, 0x65); Entry(0xBD, 0x7A); Entry(0xBE, 0xAE); Entry(0xBF, 0x08);
  }

  lemma ForwardC()
    ensures Forward(SBOX_C, 0xC0)
  {
    hide SubByte;
    Entry(0xC0, 0xBA); Entry(0xC1, 0x78); Entry(0xC2, 0x25); Entry(0xC3, 0x2E);
    Entry(0xC4, 0x1C); Entry(0xC5, 0xA6); Entry(0xC6, 0xB4); Entry(0xC7, 0xC6);
    Entry(0xC8, 0xE8); Entry(0xC9, 0xDD); Entry(0xCA, 0x74); Entry(0xCB, 0x1F);
    Entry(0xCC, 0x4B); Entry(0xCD, 0xBD); Entry(0xCE, 0x8B); Entry(0xCF, 0x8A);
  }

  lemma ForwardD()
    ensures Forward(SBOX_D, 0xD0)
  {
    hide SubByte;
    Entry(0xD0, 0x70); Entry(0xD1, 0x3E); Entry(0xD2, 0xB5); Entry(0xD3, 0x66);
    Entry(0xD4, 0x48); Entry(0xD5, 0x03); Entry(0xD6, 0xF6); Entry(0xD7, 0x0E);
    Entry(0xD8, 0x61); Entry(0xD9, 0x35); Entry(0xDA, 0x57); Entry(0xDB, 0xB9);
    Entry(0xDC, 0x86); Entry(0xDD, 0xC1); Entry(0xDE, 0x1D); Entry(0xDF, 0x9E);
  }

  lemma ForwardE()
    ensures Forward(SBOX_E, 0xE0)
  {
    hide SubByte;
    Entry(0xE0, 0xE1); Entry(0xE1, 0xF8); Entry(0xE2, 0x98); Entry(0xE3, 0x11);
    Entry(0xE4, 0x69); Entry(0xE5, 0xD9); Entry(0xE6, 0x8E); Entry(0xE7, 0x94);
    Entry(0xE8, 0x9B); Entry(0xE9, 0x1E); Entry(0xEA, 0x87); Entry(0xEB, 0xE9);
    Entry(0xEC, 0xCE); Entry(0xED, 0x55); Entry(0xEE, 0x28); Entry(0xEF, 0xDF);
  }

  lemma ForwardF()
    ensures Forward(SBOX_F, 0xF0)
  {
    hide SubByte;
    Entry(0xF0, 0x8C); Entry(0xF1, 0xA1); Entry(0xF2, 0x89); Entry(0xF3, 0x0D);
    Entry(0xF4, 0xBF); Entry(0xF5, 0xE6); Entry(0xF6, 0x42); Entry(0xF7, 0x68);
    Entry(0xF8, 0x41); Entry(0xF9, 0x99); Entry(0xFA, 0x2D); Entry(0xFB, 0x0F);
    Entry(0xFC, 0xB0); Entry(0xFD, 0x54); Entry(0xFE, 0xBB); Entry(0xFF, 0x16);
  }

  lemma Backward0()
    ensures Backward(INV_SBOX_0, 0x00)
  {
    hide SubByte;
    Entry(0x52, 0x00); Entry(0x09, 0x01); Entry(0x6A, 0x02); Entry(0xD5, 0x03);
    Entry(0x30, 0x04); Entry(0x36, 0x05); Entry(0xA5, 0x06); Entry(0x38, 0x07);
    Entry(0xBF, 0x08); Entry(0x40, 0x09); Entry(0xA3, 0x0A); Entry(0x9E, 0x0B);
    Entry(0x81, 0x0C); Entry(0xF3, 0x0D); Entry(0xD7, 0x0E); Entry(0xFB, 0x0F);
  }

  lemma Backward1()
    ensures Backward(INV_SBOX_1, 0x10)
  {
    hide SubByte;
    Entry(0x7C, 0x10); Entry(0xE3, 0x11); Entry(0x39, 0x12); Entry(0x82, 0x13);
    Entry(0x9B, 0x14); Entry(0x2F, 0x15); Entry(0xFF, 0x16); Entry(0x87, 0x17);
    Entry(0x34, 0x18); Entry(0x8E, 0x19); Entry(0x43, 0x1A); Entry(0x44, 0x1B);
    Entry(0xC4, 0x1C); Entry(0xDE, 0x1D); Entry(0xE9, 0x1E); Entry(0xCB, 0x1F);
  }

  lemma Backward2()
    ensures Backward(INV_SBOX_2, 0x20)
  {
    hide SubByte;
    Entry(0x54, 0x20); Entry(0x7B, 0x21); Entry(0x94, 0x22); Entry(0x32, 0x23);
    Entry(0xA6, 0x24); Entry(0xC2, 0x25); Entry(0x23, 0x26); Entry(0x3D, 0x27);
    Entry(0xEE, 0x28); Entry(0x4C, 0x29); Entry(0x95, 0x2A); Entry(0x0B, 0x2B);
    Entry(0x42, 0x2C); Entry(0xFA, 0x2D); Entry(0xC3, 0x2E); Entry(0x4E, 0x2F);
  }

  lemma Backward3()
    ensures Backward(INV_SBOX_3, 0x30)
  {
    hide SubByte;
    Entry(0x08, 0x30); Entry(0x2E, 0x31); Entry(0xA1, 0x32); Entry(0x66, 0x33);
    Entry(0x28, 0x34); Entry(0xD9, 0x35); Entry(0x24, 0x36); Entry(0xB2, 0x37);
    Entry(0x76, 0x38); Entry(0x5B, 0x39); Entry(0xA2, 0x3A); Entry(0x49, 0x3B);
    Entry(0x6D, 0x3C); Entry(0x8B, 0x3D); Entry(0xD1, 0x3E); Entry(0x25, 0x3F);
  }

  lemma Backward4()
    ensures Backward(INV_SBOX_4, 0x40)
  {
    hide SubByte;
    Entry(0x72, 0x40); Entry(0xF8, 0x41); Entry(0xF6, 0x42); Entry(0x64, 0x43);
    Entry(0x86, 0x44); Entry(0x68, 0x45); Entry(0x98, 0x46); Entry(0x16, 0x47);
    Entry(0xD4, 0x48); Entry(0xA4, 0x49); Entry(0x5C, 0x4A); Entry(0xCC, 0x4B);
    Entry(0x5D, 0x4C); Entry(0x65, 0x4D); Entry(0xB6, 0x4E); Entry(0x92, 0x4F);
  }

  lemma Backward5()
    ensures Backward(INV_SBOX_5, 0x50)
  {
    hide SubByte;
    Entry(0x6C, 0x50); Entry(0x70, 0x51); Entry(0x48, 0x52); Entry(0x50, 0x53);
    Entry(0xFD, 0x54); Entry(0xED, 0x55); Entry(0xB9, 0x56); Entry(0xDA, 0x57);
    Entry(0x5E, 0x58); Entry(0x15, 0x59); Entry(0x46, 0x5A); Entry(0x57, 0x5B);
    Entry(0xA7, 0x5C); Entry(0x8D, 0x5D); Entry(0x9D, 0x5E); Entry(0x84, 0x5F);
  }

  lemma Backward6()
    ensures Backward(INV_SBOX_6, 0x60)
  {
    hide SubByte;
    Entry(0x90, 0x60); Entry(0xD8, 0x61); Entry(0xAB, 0x62); Entry(0x00, 0x63);
    Entry(0x8C, 0x64); Entry(0xBC, 0x65); Entry(0xD3, 0x66); Entry(0x0A, 0x67);
    Entry(0xF7, 0x68); Entry(0xE4, 0x69); Entry(0x58, 0x6A); Entry(0x05, 0x6B);
    Entry(0xB8, 0x6C); Entry(0xB3, 0x6D); Entry(0x45, 0x6E); Entry(0x06, 0x6F);
  }

  lemma Backward7()
    ensures Backward(INV_SBOX_7, 0x70)
  {
    hide SubByte;
    Entry(0xD0, 0x70); Entry(0x2C, 0x71); Entry(0x1E, 0x72); Entry(0x8F, 0x73);
    Entry(0xCA, 0x74); Entry(0x3F, 0x75); Entry(0x0F, 0x76); Entry(0x02, 0x77);
    Entry(0xC1, 0x78); Entry(0xAF, 0x79); Entry(0xBD, 0x7A); Entry(0x03, 0x7B);
    Entry(0x01, 0x7C); Entry(0x13, 0x7D); Entry(0x8A, 0x7E); Entry(0x6B, 0x7F);
  }

  lemma Backward8()
    ensures Backward(INV_SBOX_8, 0x80)
  {
    hide SubByte;
    Entry(0x3A, 0x80); Entry(0x91, 0x81); Entry(0x11, 0x82); Entry(0x41, 0x83);
    Entry(0x4F, 0x84); Entry(0x67, 0x85); Entry(0xDC, 0x86); Entry(0xEA, 0x87);
    Entry(0x97, 0x88); Entry(0xF2, 0x89); Entry(0xCF, 0x8A); Entry(0xCE, 0x8B);
    Entry(0xF0, 0x8C); Entry(0xB4, 0x8D); Entry(0xE6, 0x8E); Entry(0x73, 0x8F);
  }

  lemma Backward9()
    ensures Backward(INV_SBOX_9, 0x90)
  {
    hide SubByte;
    Entry(0x96, 0x90); Entry(0xAC, 0x91); Entry(0x74, 0x92); Entry(0x22, 0x93);
    Entry(0xE7, 0x94); Entry(0xAD, 0x95); Entry(0x35, 0x96); Entry(0x85, 0x97);
    Entry(0xE2, 0x98); Entry(0xF9, 0x99); Entry(0x37, 0x9A); Entry(0xE8, 0x9B);
    Entry(0x1C, 0x9C); Entry(0x75, 0x9D); Entry(0xDF, 0x9E); Entry(0x6E, 0x9F);
  }

  lemma BackwardA()
    ensures Backward(INV_SBOX_A, 0xA0)
  {
    hide SubByte;
    Entry(0x47, 0xA0); Entry(0xF1, 0xA1); Entry(0x1A, 0xA2); Entry(0x71, 0xA3);
    Entry(0x1D, 0xA4); Entry(0x29, 0xA5); Entry(0xC5, 0xA6); Entry(0x89, 0xA7);
    Entry(0x6F, 0xA8); Entry(0xB7, 0xA9); Entry(0x62, 0xAA); Entry(0x0E, 0xAB);
    Entry(0xAA, 0xAC); Entry(0x18, 0xAD); Entry(0xBE, 0xAE); Entry(0x1B, 0xAF);
  }

  lemma BackwardB()
    ensures Backward(INV_SBOX_B, 0xB0)
  {
    hide SubByte;
    Entry(0xFC, 0xB0); Entry(0x56, 0xB1); Entry(0x3E, 0xB2); Entry(0x4B, 0xB3);
    Entry(0xC6, 0xB4); Entry(0xD2, 0xB5); Entry(0x79, 0xB6); Entry(0x20, 0xB7);
    Entry(0x9A, 0xB8); Entry(0xDB, 0xB9); Entry(0xC0, 0xBA); Entry(0xFE, 0xBB);
    Entry(0x78, 0xBC); Entry(0xCD, 0xBD); Entry(0x5A, 0xBE); Entry(0xF4, 0xBF);
  }

  lemma BackwardC()
    ensures Backward(INV_SBOX_C, 0xC0)
  {
    hide SubByte;
    Entry(0x1F, 0xC0); Entry(0xDD, 0xC1); Entry(0xA8, 0xC2); Entry(0x33, 0xC3);
    Entry(0x88, 0xC4); Entry(0x07, 0xC5); Entry(0xC7, 0xC6); Entry(0x31, 0xC7);
    Entry(0xB1, 0xC8); Entry(0x12, 0xC9); Entry(0x10, 0xCA); Entry(0x59, 0xCB);
    Entry(0x27, 0xCC); Entry(0x80, 0xCD); Entry(0xEC, 0xCE); Entry(0x5F, 0xCF);
  }

  lemma BackwardD()
    ensures Backward(INV_SBOX_D, 0xD0)
  {
    hide SubByte;
    Entry(0x60, 0xD0); Entry(0x51, 0xD1); Entry(0x7F, 0xD2); Entry(0xA9, 0xD3);
    Entry(0x19, 0xD4); Entry(0xB5, 0xD5); Entry(0x4A, 0xD6); Entry(0x0D, 0xD7);
    Entry(0x2D, 0xD8); Entry(0xE5, 0xD9); Entry(0x7A, 0xDA); Entry(0x9F, 0xDB);
    Entry(0x93, 0xDC); Entry(0xC9, 0xDD); Entry(0x9C, 0xDE); Entry(0xEF, 0xDF);
  }

  lemma BackwardE()
    ensures Backward(INV_SBOX_E, 0xE0)
  {
    hide SubByte;
    Entry(0xA0, 0xE0); Entry(0xE0, 0xE1); Entry(0x3B, 0xE2); Entry(0x4D, 0xE3);
    Entry(0xAE, 0xE4); Entry(0x2A, 0xE5); Entry(0xF5, 0xE6); Entry(0xB0, 0xE7);
    Entry(0xC8, 0xE8); Entry(0xEB, 0xE9); Entry(0xBB, 0xEA); Entry(0x3C, 0xEB);
    Entry(0x83, 0xEC); Entry(0x53, 0xED); Entry(0x99, 0xEE); Entry(0x61, 0xEF);
  }

  lemma BackwardF()
    ensures Backward(INV_SBOX_F, 0xF0)
  {
    hide SubByte;
    Entry(0x17, 0xF0); Entry(0x2B, 0xF1); Entry(0x04, 0xF2); Entry(0x7E, 0xF3);
    Entry(0xBA, 0xF4); Entry(0x77, 0xF5); Entry(0xD6, 0xF6); Entry(0x26, 0xF7);
    Entry(0xE1, 0xF8); Entry(0x69, 0xF9); Entry(0x14, 0xFA); Entry(0x63, 0xFB);
    Entry(0x55, 0xFC); Entry(0x21, 0xFD); Entry(0x0C, 0xFE); Entry(0x7D, 0xFF);
  }

  lemma ForwardLines()
    ensures forall k :: 0 <= k < 16 ==> Forward(SBOX_ROWS[k], 16 * k)
  {
    hide SubByte, Forward;
    Forward0(); Forward1(); Forward2(); Forward3(); Forward4(); Forward5(); Forward6(); Forward7();
    Forward8(); Forward9(); ForwardA(); ForwardB(); ForwardC(); ForwardD(); ForwardE(); ForwardF();
  }

  lemma BackwardLines()
    ensures forall k :: 0 <= k < 16 ==> Backward(INV_SBOX_ROWS[k], 16 * k)
  {
    hide SubByte, Backward;
    Backward0(); Backward1(); Backward2(); Backward3(); Backward4(); Backward5(); Backward6(); Backward7();
    Backward8(); Backward9(); BackwardA(); BackwardB(); BackwardC(); BackwardD(); BackwardE(); BackwardF();
  }

  /** The shipped S-box: entry b is the affine image of the field inverse of b. */
  lemma SboxEntry(b: byte)
    ensures AES_SBOX[b] == SubByte(b)
  {
    hide SubByte;
    var k, i := b / 0x10, b % 0x10;
    ForwardLines();
    assert Forward(SBOX_ROWS[k], 16 * k);
    assert SBOX_ROWS[k][i] == SubByte(16 * k + i);
  }

  lemma InvSboxEntry(s: byte)
    ensures SubByte(AES_INV_SBOX[s]) == s
  {
    hide SubByte;
    var k, i := s / 0x10, s % 0x10;
    BackwardLines();
    assert Backward(INV_SBOX_ROWS[k], 16 * k);
    assert SubByte(INV_SBOX_ROWS[k][i]) == 16 * k + i;
  }

  /** The two shipped tables undo each other. */
  lemma TablesInverse()
    ensures Inverse(AES_SBOX, AES_INV_SBOX)
  {
    hide SubByte;
    forall b: byte
      ensures AES_INV_SBOX[AES_SBOX[b]] == b && AES_SBOX[AES_INV_SBOX[b]] == b
    {
      SboxEntry(b);
      InvSboxEntry(SubByte(b));
      SubByteInjective(AES_INV_SBOX[SubByte(b)], b);
      InvSboxEntry(b);
      SboxEntry(AES_INV_SBOX[b]);
    }
  }

  /** The oracle's loop builds the table that the assembly ships. */
  method BuildShippedSbox() returns (sbox: SBox)
    ensures sbox == AES_SBOX
  {
    hide SubByte;
    sbox := BuildSbox();
    forall b: byte
      ensures sbox[b] == AES_SBOX[b]
    {
      SboxEntry(b);
    }
  }
}
