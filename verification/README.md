# POLYVAL, AES-256 and AES-256-GCM-SIV for the 6502: a verified model

The repository computes POLYVAL (RFC 8452 section 3), AES-256 (FIPS 197) and AES-256-GCM-SIV (RFC 8452
sections 4 and 5) on a 6502, and keeps two independent Python versions of the same mathematics beside the
assembly: a reference with bit-serial and nibble-table arithmetic, and an oracle with schoolbook arithmetic.
This project models all three and proves that they compute the same functions, for all operands, keys,
messages and lengths.

How the parts fit together:

- **Numbers.** Python integers are `nat`; shifts and exclusive or are defined bit by bit (`Bits`), so that a
  number is also a polynomial over GF(2) (`Polynomials`). Bytes are the numbers below 256 (`ByteTypes`,
  `Bytes`), and the eight-bit wrap-around of the 6502 is written out (`Registers`).
- **The POLYVAL field.** `Field` holds the two reduced shifts and the residue modulo the field polynomial,
  `Multiplication` the ring they generate, `XPowers` the powers of x and the constant x^-128. Nothing depends
  on the polynomial being irreducible. That x^(2^128) = x is settled by squaring x 128 times: `Words` and
  `Squaring` put the square on 128-bit words, `Orbit` evaluates it, and `Frobenius` draws the consequences for
  every element.
- **Five forms of one product.** `ReferenceField` (bit-serial), `NibbleTable` (precomputed table and Horner
  loop), `OracleField` (carry-less product, reduction, x^-128), `Ghash` (GHASH on reversed bytes) and
  `PolyvalMachine` (the COMPACT assembly) each are proved equal to `Dot(a, b)`, which is a * b * x^-128.
- **The hash.** `Hash` relates the running hash to its closed form and shows that it is linear, and how it
  acts on concatenations.
- **AES.** `Gf256` and `Aes` are the cipher on values, with the proof that decryption and encryption undo each
  other for every schedule; `KeySchedule` characterises the schedule by its recurrence; `AesOracle` is the
  Python cipher; `AesMachine` is the assembly, routine by routine, in place. `SubstitutionBox` (with
  `Generator`, `AffineMap` and `Tables`) shows that the loop which builds the S-box stops, visits every
  nonzero byte, and yields a permutation. `TableData` holds the two tables of the assembly byte by byte and
  shows that they are that S-box and its inverse (`ByteWords` and `SboxEntries` evaluate the entries).
- **GCM-SIV.** `GcmSiv` is the composition over an arbitrary block cipher, in both Python forms;
  `GcmSivMachine` drives the two machines as the assembly does (`CounterBytes` has its carry chain) and meets
  the same specification with AES-256 as the cipher. `RoundTrip` has whole uses of the machines, from allocation
  on, and compares them with the reference and the oracle.
- **Down to bytes.** What the specification functions compute is also stated without them, so that no proof
  rests on a helper alone: the two field products by their polynomial (`Multiplication.GfMulMeaning`,
  `Gf256.MulMeaning`), the hash by its defining equation (`Hash.HashOfNext`), the S-box bit by bit (`SboxBits`),
  AES round by round and byte by byte (`CipherBytes`, `ScheduleBytes`), and keys, tag, counter mode and the two
  compositions of GCM-SIV (`SealBytes`).

A method is one routine or loop of the source. It is proved against a function on values, and what the source
promises of that function is proved beside it. `Raised` stands for a Python exception.

Points where the code and its own texts differ; the model follows the code:

- The banner of the assembly encryption (src/aes_encrypt.s:55-57) lists the scratch bytes aes_mc_a0..b3 as
  clobbered, which the code never writes, and omits polyval_aes_col, polyval_aes_tmp1..4 and polyval_zp_temp,
  which it does write (src/aes_encrypt.s:150-238). The banner of the decryption (src/aes_decrypt.s:52-56)
  omits polyval_aes_col, polyval_aes_tmp1 and polyval_zp_temp. The `modifies` clauses of
  `AesMachine.Machine.EncryptBlock` and `AesMachine.Machine.DecryptBlock` name what is written.
- RFC 8452 authenticates associated data. The assembly does not take any, as its own header admits;
  `GcmSivMachine` is GCM-SIV with empty associated data, while `GcmSiv` has it.
- The nibble loop of the assembly skips table entry 0 instead of adding it. That agrees with the Python loop
  only when entry 0 is zero, which `PolyvalMachine.Machine.XorTableEntry` therefore requires and
  `PolyvalMachine.Machine.PrecomputeTable` establishes.

## Model

| member | source | states |
|---|---|---|
| Polynomials.ClmulLoop | tools/hazmat_oracle.py:76-83 | the shift-left/shift-right loop computes the carry-less product of any two integers |
| Polynomials.ClmulComm | tools/hazmat_oracle.py:76-83 | the carry-less product is commutative although the loop treats its operands differently |
| Polynomials.ClmulAssoc | tools/hazmat_oracle.py:76-83 | the carry-less product is associative |
| Polynomials.ClmulBitLength | tools/hazmat_oracle.py:76-83 | degrees add: the product of nonzero polynomials is nonzero and its bit length is known |
| Bits.XorAt | tools/hazmat_oracle.py:76-83 | bit i of an exclusive or is the sum modulo 2 of the bits i of its operands |
| Polynomials.ClmulShl | tools/hazmat_oracle.py:76-83 | the product by the single bit k is the shift by k, so that with the distributive laws every product is a sum of shifts |
| Multiplication.Reduce | tools/hazmat_oracle.py:86-91 | the reduction loop ends below 2^128 with a value congruent to its argument modulo the field polynomial |
| Multiplication.ResidueUnique | tools/hazmat_oracle.py:86-91 | there is exactly one element below 2^128 congruent to a given value |
| Multiplication.CongruentIffSameResidue | tools/hazmat_oracle.py:86-91 | two values differ by a multiple of the field polynomial if and only if they reduce to the same element |
| Multiplication.FieldPolynomial | tools/hazmat_oracle.py:63-65 | the field polynomial is x^128 + x^127 + x^126 + x^121 + 1 |
| Multiplication.GfMulMeaning | tools/hazmat_oracle.py:86-95 | the product is the one 128-bit value that differs from the carry-less product by a multiple of that polynomial, written out |
| Field.ResidueLinear | tools/hazmat_oracle.py:86-91 | reduction of an exclusive or is the exclusive or of the reductions, for values of any length |
| Multiplication.GfMulComm | tools/hazmat_oracle.py:94-95 | the field product is commutative |
| Multiplication.GfMulAssoc | tools/hazmat_oracle.py:94-95 | the field product is associative |
| Multiplication.GfMulDistLeft | tools/hazmat_oracle.py:94-95 | the field product distributes over exclusive or |
| Multiplication.GfMulUnit | tools/hazmat_oracle.py:94-95 | 1 is the unit and 0 annihilates |
| OracleField.GfMulByReduction | tools/hazmat_oracle.py:94-95 | product then reduction, as the two loops run, is the field product |
| Field.DoubleLinear | tools/polyval_reference.py:97-107 | the reduced left shift is linear |
| Field.RightShiftLinear | tools/polyval_reference.py:110-119 | the reduced right shift is linear |
| Field.DoubleRightShift | tools/polyval_reference.py:97-119 | shifting right and then left restores every element |
| Field.RightShiftDouble | tools/polyval_reference.py:97-119 | shifting left and then right restores every element |
| Multiplication.RightShiftIsDivision | tools/polyval_reference.py:30-35 | the reduced right shift is the product by the constant 0xE1 << 120, which is x^-1 |
| ReferenceField.PolyvalRightShift1 | tools/polyval_reference.py:110-119 | the shift divides by x: doubling its result gives back the argument |
| ReferenceField.PolyvalShiftLeft4 | tools/polyval_reference.py:122-130 | four reduced doublings, which together are the field product by x^4 |
| ReferenceField.ReduceTable | tools/polyval_reference.py:133-169 | entry i of the computed reduction table is i * x^128 reduced, for all sixteen i |
| ReferenceField.PolyvalShiftLeft4SinglePass | tools/polyval_reference.py:133-169 | the single-pass shift with the table equals four reduced doublings on every 128-bit value |
| ReferenceField.PolyvalDot | tools/polyval_reference.py:54-72 | the bit-serial right-shift loop computes a * b * x^-128 for all operands |
| XPowers.DoubleNIsMul | tools/polyval_reference.py:97-130 | any number n of reduced doublings is the field product by x^n |
| XPowers.XInv128Identity | tools/hazmat_oracle.py:307-315 | x^-128 = 1 + x^-1 + x^-2 + x^-7 |
| XPowers.SevenShiftsSuffice | API.md:457-461 | 128 reduced right shifts of H equal H ^ R(H) ^ R^2(H) ^ R^7(H), for every H |
| XPowers.DotIsMulByPrime | tools/polyval_reference.py:185-188 | a POLYVAL product by H is a plain field product by H' = H * x^-128 |
| XPowers.DotMeaning | tools/polyval_reference.py:54-72 | the POLYVAL product is the one element r with r * x^128 congruent to a * b modulo the field polynomial |
| NibbleTable.PolyvalPrecomputeTable | tools/polyval_reference.py:172-198 | 128 shifts and the doubling loop make entry i equal to H' * i for all sixteen i |
| NibbleTable.TableIsLinear | tools/test_hazmat_fuzz.py:229-235 | in such a table the entry at i ^ j is the exclusive or of the entries at i and j |
| NibbleTable.HornerIsMul | tools/polyval_reference.py:201-228 | Horner evaluation over the nibbles of an operand, with the table of m, is the product by m |
| NibbleTable.PolyvalMultiplyTable | tools/polyval_reference.py:201-228 | with the table of H the byte loop returns the POLYVAL product by H; with any table it returns the Horner sum |
| NibbleTable.PrecomputeThenMultiply | tools/polyval_reference.py:54-228 | precomputation followed by the nibble loop equals the bit-serial product for all pairs of operands |
| OracleField.InvX128 | tools/hazmat_oracle.py:98-107 | square-and-multiply returns x^(2^128 - 129) |
| OracleField.InverseOfX128 | tools/hazmat_oracle.py:110-111 | an element passes the import-time assertion if and only if it is x^-128 |
| OracleField.AssertionMeaning | tools/hazmat_oracle.py:98-111 | the computed constant passes if and only if x^(2^128 - 1) = 1 |
| Orbit.SquaringsFixX | tools/hazmat_oracle.py:98-107 | x squared 128 times is x |
| Frobenius.OrderOfX | tools/hazmat_oracle.py:98-107 | x^(2^128 - 1) = 1, the group order on which the exponent of the inversion relies |
| Frobenius.FrobeniusFixes | tools/hazmat_oracle.py:98-107 | every element is its own power with exponent 2^128 |
| Frobenius.InvertibleIffOrder | tools/hazmat_oracle.py:98-107 | an element has an inverse if and only if its power with exponent 2^128 - 1 is 1 |
| OracleField.ImportConstant | tools/hazmat_oracle.py:98-111 | importing the oracle succeeds, and its constant is x^-128 |
| OracleField.OracleDot | tools/hazmat_oracle.py:114-116 | with a constant that has passed the assertion the schoolbook form equals the bit-serial product |
| OracleField.MulXPolyval | tools/hazmat_oracle.py:119-121 | doubling on byte strings is the reduced left shift through the little-endian encoding |
| Bytes.BlockRoundTrip | tools/hazmat_oracle.py:68-73 | encoding the number of a 16-byte block gives the block back |
| Bytes.ElemRoundTrip | tools/polyval_reference.py:44-51 | decoding the bytes of a 128-bit number gives the number back |
| Bytes.BeOfReverse | tools/hazmat_oracle.py:339-346 | a reversed string read big-endian is the string read little-endian |
| Bytes.ReverseAt | tools/hazmat_oracle.py:339-346 | byte k of the reversed string is the byte k places from the end |
| Bytes.LeAt | tools/hazmat_oracle.py:68-73 | byte i of a string is bits 8i to 8i + 7 of its number |
| Bytes.LeBytesAt | tools/hazmat_oracle.py:68-73 | byte i of an encoded number, however long the number is, is bits 8i to 8i + 7 |
| Hash.PolyvalIsPowerSum | tools/polyval_reference.py:75-94 | the running hash is the sum of the blocks times descending powers of H', for every message length |
| Hash.PolyvalLinear | tools/polyval_reference.py:75-94 | the hash is linear in messages of equal length |
| Hash.PolyvalConcat | tools/polyval_reference.py:75-94 | the hash of A then B is the hash of A times H' once per block of B, plus the hash of B |
| Hash.HashOfNothing | tools/polyval_reference.py:75-94 | the hash of no blocks is sixteen zero bytes |
| Hash.HashOfNext | tools/polyval_reference.py:75-94 | RFC 8452 section 3 on bytes: t is the hash after one more block b if and only if t * x^128 is congruent to (s ^ b) * h modulo the field polynomial, s being the hash before |
| Hash.BlocksAt | tools/hazmat_oracle.py:124-131 | block n of a message is its bytes 16n to 16n + 15 |
| Hash.PolyvalReference | tools/polyval_reference.py:75-94 | the reference returns the hash, and raises exactly when some block does not have 16 bytes |
| Hash.PolyvalOracle | tools/hazmat_oracle.py:124-131 | the oracle returns the same hash of the blocks of the message, and raises exactly when its length is no multiple of 16 |
| Ghash.GhashMul | tools/hazmat_oracle.py:330-337 | the loop computes the GHASH sum over the bits of b from the top |
| Ghash.GhashProductIsDoubledDot | tools/hazmat_oracle.py:330-337 | the GHASH product is x times the POLYVAL product |
| Ghash.GhashWithShiftedKey | tools/hazmat_oracle.py:339-343 | with the key shifted right once the two products coincide |
| Ghash.GhashRelation | tools/hazmat_oracle.py:326-346 | RFC 8452 Appendix A: GHASH with mulX_GHASH of the reversed key over reversed blocks, reversed back, is POLYVAL, for every key and list of blocks |
| Gf256.XTimeLinear | tools/hazmat_oracle.py:163-165 | doubling in GF(2^8) is linear |
| Gf256.MulDist | src/aes_decrypt.s:264-317 | the product of a byte by a sum of polynomials is the sum of the products |
| Gf256.MulCompose | src/aes_decrypt.s:264-317 | multiplying twice is multiplying by the carry-less product |
| Gf256.MulAssoc | tools/hazmat_oracle.py:138-157 | the product of bytes is associative |
| Gf256.MulComm | tools/hazmat_oracle.py:138-157 | the product of bytes is commutative |
| Gf256.MulMeaning | tools/hazmat_oracle.py:163-165 | the product is the one byte that differs from the carry-less product by a multiple of x^8 + x^4 + x^3 + x + 1 |
| Aes.ShiftRowsInverse | src/aes_decrypt.s:109-148 | the two row shifts undo each other in either order |
| Aes.MatrixProduct | src/aes_decrypt.s:153-259 | composing two circulant mixes is mixing with the product of their matrices |
| Aes.ColumnInverse | src/aes_decrypt.s:153-259 | the matrix (0e 0b 0d 09) undoes (02 03 01 01) on every column, and the other way round |
| Aes.MixColumnsInverse | src/aes_decrypt.s:153-259 | inverse MixColumns undoes MixColumns on every state, and the other way round |
| Aes.DecryptEncrypt | src/aes_decrypt.s:64-90 | decryption undoes encryption for every state and every 240-byte schedule, given inverse tables |
| Aes.EncryptDecrypt | src/aes_decrypt.s:64-90 | encryption undoes decryption for every state and every 240-byte schedule, given inverse tables |
| CipherBytes.FirstRoundByte | tools/hazmat_oracle.py:185-187 | before the first round every byte of the state is the input byte plus the key byte |
| CipherBytes.RoundByte | tools/hazmat_oracle.py:188-198 | byte r of column c after round n is 2 * a0 + 3 * a1 + a2 + a3 plus its key byte, the a being the substituted bytes of the state before, one column further right in each row below |
| CipherBytes.CipherByte | tools/hazmat_oracle.py:188-199 | every byte of the ciphertext is a substituted byte of the state after round 13, moved by the shifts, plus its key byte |
| CipherBytes.FirstInvRoundByte | src/aes_decrypt.s:64-68 | decryption starts by adding the last round key |
| CipherBytes.InvRoundByte | src/aes_decrypt.s:70-84 | byte r of column c after an inverse round is the row (0e 0b 0d 09) times the bytes shifted back, substituted and added to the round key |
| CipherBytes.InvCipherByte | src/aes_decrypt.s:86-90 | every byte of the plaintext is a substituted byte, shifted back, plus the first round key |
| KeySchedule.ExpandIsSchedule | src/aes_encrypt.s:283-405 | the expanded key satisfies the recurrence of FIPS 197 section 5.2 at every word |
| KeySchedule.ScheduleUnique | src/aes_encrypt.s:283-405 | the recurrence determines every prefix of the schedule |
| KeySchedule.ScheduleCharacterised | src/aes_encrypt.s:283-405 | a 240-byte string is the schedule of a key if and only if it starts with the key and satisfies the recurrence |
| ScheduleBytes.NextByte | src/aes_encrypt.s:283-405 | byte k of the next word in table and round constant only: rotated, substituted and with 2^(i/8-1) added in words 8, 16, .., substituted in words 12, 20, .. |
| ScheduleBytes.ScheduleByte | tools/hazmat_oracle.py:168-182 | every byte of the expanded key from the bytes 32 and 3, 4 or 7 places before it, the table and the round constant |
| CipherBytes.Aes256Byte | tools/hazmat_oracle.py:185-199 | the block cipher of a key is the cipher with the schedule of that key |
| AesOracle.ScheduleTemp | tools/hazmat_oracle.py:168-182 | rotation, substitution and round constant by word index, with the constant carried along by doubling |
| AesOracle.ExpandKey | tools/hazmat_oracle.py:168-182 | the growing list of words, cut into fifteen round keys, is the schedule |
| AesOracle.ColumnFormulaIsMatrixRow | tools/hazmat_oracle.py:185-199 | a ^ t ^ xtime(a ^ b) with t the sum of the column is the row (02 03 01 01) times the column |
| AesOracle.MixColumnsOracle | tools/hazmat_oracle.py:185-199 | the oracle's MixColumns is the matrix product on every state |
| AesOracle.EncryptBlock | tools/hazmat_oracle.py:185-199 | the oracle's cipher is AES-256 for every key, block and substitution table |
| AesMachine.Machine.SubBytesInPlace | src/aes_encrypt.s:92-101 | each byte of the state is replaced by its table entry |
| AesMachine.Machine.InvSubBytesInPlace | src/aes_decrypt.s:95-104 | each byte of the state is replaced by its entry in the inverse table |
| AesMachine.Machine.ShiftRowsInPlace | src/aes_encrypt.s:106-145 | the moves through accumulator and stack are ShiftRows, and the stack is balanced |
| AesMachine.Machine.InvShiftRowsInPlace | src/aes_decrypt.s:109-148 | the moves are inverse ShiftRows, and the stack is balanced |
| AesMachine.Machine.GfMul2 | src/aes_encrypt.s:224-229 | the product by 2 in GF(2^8) |
| AesMachine.Machine.GfMul3 | src/aes_encrypt.s:234-238 | the product by 3, using the shared temporary |
| AesMachine.Machine.GfMul09 | src/aes_decrypt.s:264-270 | the product by 9, using the shared temporary |
| AesMachine.Machine.GfMul0B | src/aes_decrypt.s:275-285 | the product by 0B; the stack is restored |
| AesMachine.Machine.GfMul0D | src/aes_decrypt.s:290-300 | the product by 0D; the stack is restored |
| AesMachine.Machine.GfMul0E | src/aes_decrypt.s:305-317 | the product by 0E; the stack is restored |
| AesMachine.Multiples | src/aes_decrypt.s:264-317 | the sums of doublings that the routines form are the field products by 3, 9, 0B, 0D and 0E |
| AesMachine.Machine.MixColumnAt | src/aes_encrypt.s:150-219 | overwriting one column byte by byte mixes exactly that column |
| AesMachine.Machine.MixColumnsInPlace | src/aes_encrypt.s:150-219 | the column loop is MixColumns of the state on entry |
| AesMachine.Machine.InvMixColumnsInPlace | src/aes_decrypt.s:153-259 | the column loop is inverse MixColumns of the state on entry; the stack is balanced |
| AesMachine.Machine.AddRoundKeyInPlace | src/aes_encrypt.s:243-260 | the eight-bit offset 16 * round addresses the right round key for every round |
| AesMachine.Machine.EncryptBlock | src/aes_encrypt.s:62-87 | for every state and schedule the state becomes its AES-256 encryption; neither key nor schedule is written |
| AesMachine.Machine.DecryptBlock | src/aes_decrypt.s:64-90 | for every state and schedule the state becomes its decryption; neither key nor schedule is written |
| AesMachine.Machine.EncryptThenDecrypt | src/aes_decrypt.s:64-90 | both routines in turn restore the state and leave the schedule unchanged |
| AesMachine.Machine.DecryptThenEncrypt | src/aes_encrypt.s:62-87 | so do they in the other order |
| AesMachine.Machine.TransformTemps | src/aes_encrypt.s:283-405 | the branches on the word counter apply RotWord, SubWord and round constant where the standard does |
| AesMachine.Machine.ExpandOneWord | src/aes_encrypt.s:283-405 | one turn extends a correct prefix by one correct word, reading only final words, with offsets that fit a register |
| AesMachine.Machine.KeyExpansion | src/aes_encrypt.s:283-405 | the buffer holds the schedule of the current key, which is not written |
| AesMachine.RconTable | src/tables.s:60-61 | the ten table bytes are the successive powers of x |
| Generator.OrderOfThree | tools/hazmat_oracle.py:138-157 | no power of 3 with an exponent strictly between 0 and 255 is 1 |
| Generator.ThreeGenerates | tools/hazmat_oracle.py:138-157 | every nonzero byte is a power of 3 |
| Generator.PowersDiffer | tools/hazmat_oracle.py:138-157 | powers less than 255 apart differ, so the loop enters no byte twice |
| AffineMap.AffineInjective | tools/hazmat_oracle.py:149-151 | the five-term sum folded to a byte, plus 63, takes no value twice |
| Tables.Onto | tools/hazmat_oracle.py:138-157 | an injective table of 256 bytes takes every value |
| Tables.InverseTable | tools/hazmat_oracle.py:138-160 | an injective table, such as the constructed one, has a table that undoes it on both sides |
| SubstitutionBox.TriplePower | tools/hazmat_oracle.py:142-143 | the masked shift formula is the field product by 3 |
| SubstitutionBox.SevenFactors | tools/hazmat_oracle.py:144-147 | the three shift-and-adds followed by one more multiply by 1 + x^8 |
| SubstitutionBox.DivideByThree | tools/hazmat_oracle.py:144-149 | the four lines divide by 3 in GF(2^8), that is, multiply by F6 |
| SubstitutionBox.AffineStep | tools/hazmat_oracle.py:150-151 | the shifts, fold and mask compute the affine map modulo x^8 + 1 |
| SubstitutionBox.SubByteInjective | tools/hazmat_oracle.py:138-157 | inverse followed by affine map takes no value twice |
| SboxBits.SubByteBit | tools/hazmat_oracle.py:138-157 | FIPS 197 section 5.1.1: bit i of an S-box value is the sum of the bits i, i + 4, i + 5, i + 6 and i + 7 of the field inverse and of bit i of 63 |
| SubstitutionBox.BuildSbox | tools/hazmat_oracle.py:138-157 | the loop stops, every entry is the affine image of the field inverse of its index, and the table is a permutation with an inverse table |
| TableData.SboxEntry | src/tables.s:18-34 | each of the 256 bytes of the S-box is the affine image of the field inverse of its index |
| TableData.InvSboxEntry | src/tables.s:39-55 | each of the 256 bytes of the inverse table is the byte whose S-box entry is its index |
| TableData.TablesInverse | src/tables.s:18-55 | the two tables undo each other on every byte, as decryption requires |
| TableData.BuildShippedSbox | tools/hazmat_oracle.py:138-160 | the table that the oracle builds is the table of the assembly, byte for byte |
| PolyvalMachine.Machine.Init | src/polyval_compact.s:85-93 | the accumulator becomes zero |
| PolyvalMachine.Machine.DoubleAcc | src/polyval_compact.s:108-145 | sixteen rotations and two corrections are the reduced left shift of the 128-bit value, which is its product by x |
| PolyvalMachine.Machine.RightShiftBuffer | src/polyval_compact.s:160-180 | sixteen rotations and one correction are the reduced right shift, for either buffer |
| PolyvalMachine.Machine.ShiftLeft4 | src/polyval_compact.s:182-214 | four reduced doublings, which together multiply the accumulator by x^4 |
| PolyvalMachine.Machine.XorTableEntry | src/polyval_compact.s:236-258 | the entry of the nibble is added, nibble 0 being skipped |
| PolyvalMachine.Machine.Multiply | src/polyval_compact.s:292-325 | the byte loop is the Horner sum over all 32 nibbles of the old accumulator |
| PolyvalMachine.Machine.XorTempIntoAcc | src/polyval_compact.s:330-338 | the staged block is added to the accumulator |
| PolyvalMachine.Machine.Update | src/polyval_compact.s:364-366 | with the table of H in place one call maps acc to (acc + block) * H * x^-128 |
| PolyvalMachine.Machine.KeyToPrime | src/polyval_compact.s:425-511 | seven shifts and three additions turn H into H * x^-128 |
| PolyvalMachine.Machine.BuildPair | src/polyval_compact.s:425-511 | one turn of the build loop extends a correct table by two correct entries |
| PolyvalMachine.Machine.PrecomputeTable | src/polyval_compact.s:425-511 | the 256 bytes hold the sixteen multiples of H', and H is preserved |
| PolyvalMachine.Machine.HashMessage | src/polyval_compact.s:364-372 | for every list of blocks the accumulator ends as the POLYVAL of the message |
| GcmSiv.DeriveKeysReference | tools/polyval_reference.py:242-264 | two keys grown by six block calls are the two halves of the derived string |
| GcmSiv.DeriveKeysOracle | tools/hazmat_oracle.py:215-219 | one 48-byte string cut in two gives the same keys |
| SealBytes.AuthKeyByte | tools/polyval_reference.py:252-259 | byte j of the authentication key is byte j mod 8 of the cipher of the counter j / 8, as four little-endian bytes, followed by the nonce |
| SealBytes.EncKeyByte | tools/polyval_reference.py:252-261 | byte j of the encryption key is byte j mod 8 of the cipher of the counter 2 + j / 8 followed by the nonce |
| GcmSiv.EncodingInjective | tools/hazmat_oracle.py:222-232 | pairs of strings whose bit lengths fit 64 bits have the same encoding if and only if they are equal |
| GcmSiv.PaddedChunks | tools/polyval_reference.py:276-297 | the chunk-and-pad loop yields the blocks of the padded string |
| GcmSiv.EncodingBlocks | tools/polyval_reference.py:276-297 | the block list of the encoding is that of both padded strings and the length block |
| SealBytes.PaddedByte | tools/hazmat_oracle.py:222-223 | padding keeps the bytes and adds zeros |
| SealBytes.LengthByte | tools/hazmat_oracle.py:227 | the length block is the bit lengths of associated data and plaintext in eight little-endian bytes each |
| GcmSiv.ComputeTagReference | tools/polyval_reference.py:267-312 | the reference tag, raising exactly when a bit length does not fit 64 bits |
| GcmSiv.ComputeTagOracle | tools/hazmat_oracle.py:226-232 | the oracle tag is the same, with the same exceptions |
| SealBytes.TagByPowerSum | tools/polyval_reference.py:276-312 | the tag is the cipher of the closed power sum over associated data, plaintext and length block, with the nonce added to bytes 0 to 11 and the top bit of byte 15 cleared |
| GcmSiv.CtrTwice | tools/polyval_reference.py:315-339 | counter mode undoes itself on data of any length |
| GcmSiv.CounterValue | tools/polyval_reference.py:315-339 | the low 32 bits of counter block i are the initial value plus i, modulo 2^32 |
| GcmSiv.CounterBlocksRepeat | tools/hazmat_oracle.py:235-245 | two counter blocks of one tag are equal if and only if their numbers agree modulo 2^32 |
| GcmSiv.TagBaseIsNoCounter | tools/hazmat_oracle.py:226-245 | the block encrypted to a tag is never a counter block |
| GcmSiv.IncrementCounter | tools/polyval_reference.py:315-339 | the wrapping increment steps from one counter block to the next |
| GcmSiv.CtrReference | tools/polyval_reference.py:315-339 | byte i is encrypted with byte i mod 16 of the cipher of counter block i / 16; length is preserved |
| GcmSiv.CtrOracle | tools/hazmat_oracle.py:235-245 | the oracle's loop produces the same bytes |
| SealBytes.CounterBlockIs | tools/polyval_reference.py:320-337 | counter block i is the one whose low 32 bits are those of the tag plus i, whose bytes 4 to 14 are those of the tag, and whose last byte is that of the tag with the top bit set |
| SealBytes.CtrByte | tools/polyval_reference.py:315-339 | byte n of the output is byte n of the data plus byte n mod 16 of the cipher of such a block |
| GcmSiv.EncryptReference | tools/polyval_reference.py:342-351 | the reference encryption is the composition, with its exceptions, for every block cipher |
| GcmSiv.DecryptReference | tools/polyval_reference.py:354-369 | the reference decryption is the composition, with its exceptions |
| GcmSiv.EncryptOracle | tools/hazmat_oracle.py:248-251 | the oracle encryption is the same function |
| GcmSiv.DecryptOracle | tools/hazmat_oracle.py:254-258 | the oracle decryption is the same function |
| SealBytes.EncryptRaises | tools/polyval_reference.py:342-351 | encryption raises if and only if associated data or plaintext has 2^61 bytes or more |
| SealBytes.EncryptByte | tools/polyval_reference.py:342-351 | each byte of the ciphertext is the plaintext byte plus a byte of the cipher of a block that counts on from the returned tag |
| SealBytes.EncryptTag | tools/polyval_reference.py:342-351 | the returned tag is the cipher of the masked hash of associated data and plaintext under the derived keys, and the ciphertext has the length of the plaintext |
| SealBytes.DecryptRaises | tools/polyval_reference.py:354-369 | decryption raises if and only if associated data or ciphertext has 2^61 bytes or more |
| SealBytes.DecryptByte | tools/polyval_reference.py:354-369 | each byte of the candidate plaintext comes from the ciphertext and the received tag, whether or not that tag is right |
| SealBytes.DecryptVerdict | tools/polyval_reference.py:354-369 | the verdict is whether the received tag is the cipher of the masked hash of the candidate plaintext |
| GcmSiv.DecryptAcceptsExactly | tools/polyval_reference.py:342-369 | decryption returns (pt, true) if and only if encryption of pt returns the ciphertext and tag |
| CounterBytes.IncBytesValue | src/gcm_siv.s:690-718 | the carry chain adds one modulo the width, for any number of bytes |
| CounterBytes.NextCounter | src/gcm_siv.s:690-718 | on a counter block the chain gives the next counter block |
| GcmSivMachine.Machine.GenKeystream | src/gcm_siv.s:690-718 | the keystream is the cipher of the counter, which is then incremented through its low four bytes |
| GcmSivMachine.Machine.DeriveKeys | src/gcm_siv.s:194-329 | both derived keys and the schedule of the encryption key are right; the master key and its schedule return |
| GcmSivMachine.Machine.ComputeTagBase | src/gcm_siv.s:373-478 | the tag base is the POLYVAL of the encoding of the plaintext buffer, for every length up to 64 |
| GcmSivMachine.Machine.FinalizeTag | src/gcm_siv.s:513-556 | the tag is the cipher of the masked base under the encryption key; the schedule of the master key returns |
| GcmSivMachine.Machine.CtrRun | src/gcm_siv.s:635-685 | the first ptLen bytes are counter mode of the input, the rest of the output buffer is kept |
| GcmSivMachine.Machine.Encrypt | src/gcm_siv.s:122-150 | for lengths up to 64 the machine computes GCM-SIV encryption with AES-256; above 64 it returns 1 and writes nothing |
| GcmSivMachine.Machine.Verify | src/gcm_siv.s:833-883 | the bytewise comparison accepts exactly equal tags, wipes the plaintext otherwise, and restores the received tag |
| GcmSivMachine.Machine.Decrypt | src/gcm_siv.s:797-897 | it returns 0 and the plaintext exactly when GCM-SIV decryption accepts, otherwise 1 and a zeroed buffer; key, schedule, ciphertext and tag return unchanged; whenever the length is at most 64 the plaintext buffer ends with the candidate plaintext, on a failed tag too, and both buffers keep the bytes behind it on success; for a length above 64 nothing but the tag flag and the zeroed buffer is written |
| GcmSivMachine.Machine.EncryptThenDecrypt | src/gcm_siv.s:797-897 | what the machine encrypts it decrypts, for every key, nonce, plaintext and length up to 64 |
| RoundTrip.EncryptAndDecrypt | tools/test_gcmsiv_polyval.py:291-336 | from a fresh machine with the shipped tables: for every key, nonce and plaintext up to 64 bytes the machine's ciphertext and tag are those of the reference with AES-256, and decrypting them gives the plaintext and a valid tag |
| RoundTrip.EncryptAsOracle | tools/test_hazmat_fuzz.py:255-272 | the machine's ciphertext and tag are also those of the oracle, run with the S-box it builds and the constant it computes at import |
| RoundTrip.EncryptAndDecryptBlock | src/aes_decrypt.s:37-90 | from a fresh machine with the shipped tables: expanding a key and encrypting a block gives the oracle's AES-256, and decrypting gives the block back, for every key and block |
| RoundTrip.HashAsOracle | tools/test_hazmat_fuzz.py:133-144 | from a fresh machine: precomputing the table and absorbing the blocks gives the oracle's hash, for every hash key and every message of whole blocks |

## Left out

- Aes.DecryptEncrypt: holds for any two tables that undo each other; `TableData.TablesInverse` shows that the shipped ones do.
- AesMachine.Machine.ShiftRowsInPlace: each group of load and store instructions that rotates or swaps bytes is one method with its indices as parameters.
- PolyvalMachine.Machine.RightShiftBuffer: the source has this loop twice, for the key buffer and for the staging buffer; one method takes the buffer.
- GcmSivMachine.Machine.CtrRun: the source has this loop twice, for encryption and decryption; one method takes the two buffers.
- GcmSivMachine.Machine.Encrypt: the message, key and tag buffers of this layer are sequence-valued fields, so copy loops between them are whole assignments and an overlap of buffers is not expressible.
- The LONG and SHORT profiles: their unrolled and wider-table multiplications are not modelled; COMPACT shares its algorithm with the reference.
- The index registers of the POLYVAL routines: they are local variables, so that the callees of the multiplication preserve X and Y holds by construction; their saving on the stack (src/polyval_compact.s:119-145, 204-214, 236-258) is not modelled. `AesMachine` has the stack.
- Processor flags, instruction encoding, cycle counts, interrupts and the linker's placement of buffers: routines are modelled on bytes, registers and carries.
- The `cryptography` package and the cross-checks against it: the block cipher of `GcmSiv` is an arbitrary function of key and block.
- Published sample vectors, irreducibility of the field polynomial, forgery bounds and timing.
- Drivers, benchmarks, release scanners and the demo program.
