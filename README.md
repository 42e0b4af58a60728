# S-AES in Dafny

A model of a small C implementation of Simplified AES (S-AES), the 16-bit teaching
version of AES, together with the hexadecimal parser its command line uses. Everything
lives in `saes_1900779.c`. The model proves the following:

- `DEC(ENC(p, k), k) == p` and `ENC(DEC(c, k), k) == c` for every 16-bit block and key.
- Every layer has its partner: the inverse S-box, the self-inverse `shiftRows`, the
  inverse mixing matrix, and the key schedule run backwards.
- The worked example of S-AES holds: key 0x4AF5, plaintext 0xD728, ciphertext 0x24EC.

Files and modules:

- `galois.dfy`, module `GaloisField`: GF(2^4) modulo x^4 + x + 1. The loop of
  `multiply_GF2_4` is the method `MultiplyGf`. It is proved against the closed-form
  product `GfMul`, which is in turn proved equal to the textbook carry-less product
  reduced modulo the polynomial.
- `matrix.dfy`, module `Matrices`: 2x2 matrices over the field. `multiplyMatrices` is the
  method `MultiplyMatrices`, which fills an `array2` in place. Its inner loop is
  `AccumulateEntry`.
- `sbox.dfy`, module `SBoxes`: the tables `sBox` and `inverseSBox`.
- `layers.dfy`, module `Layers`: `substituteNibbles`, `substituteNibblesInverse` and
  `shiftRows` on 16-bit blocks, written with the code's own masks and shifts.
- `mix.dfy`, module `Mixing`: the packing of a block into the 2x2 state matrix and back,
  the two mixing matrices, and the proof that they undo each other.
- `keyschedule.dfy`, module `KeySchedule`: `RotNib`, `SubNib`, and the schedule that `ENC`
  and `DEC` both write out inline, modelled once as `KeyExpansion`. It also holds the
  schedule as it behaves where `char` is signed (see Findings).
- `cipher.dfy`, module `Cipher`: `ENC` and `DEC`, once as functions (`Encrypt`, `Decrypt`)
  and once as methods (`Enc`, `Dec`). The methods mix through real arrays exactly as the
  code does. That mixing step, shared by both, is `MixWithArrays`.
- `hex.dfy`, module `HexParsing`: `charToDigit` and `hexStringToShort`. The `short`
  accumulator is an `int` whose conversion back to `short` is written out as reduction
  modulo 2^16.

The code (`saes_1900779.c` lines 141, 146, 173 and 176) puts matrix entry (1, 0) at
bits 11-8 and entry (0, 1) at bits 7-4, so each byte of the block is one column.
`Mixing.BlockToMatrix` and `Mixing.MatrixToBlock` use this packing, and the worked example
comes out right with it.

Assumptions:

- The 8-bit words of the key schedule are unsigned, which is the S-AES intent.
- A `short[2][2]` cell holds a nibble, which is all the code ever stores in one.

## Model

| member | source | states |
|---|---|---|
| GaloisField.GfMulIsPolynomialProduct | saes_1900779.c:5 | the field product is the carry-less product of the two polynomials reduced modulo x^4 + x + 1 (`MODULUS`) |
| GaloisField.GfMulIdentityAndZero | saes_1900779.c:35-58 | 1 is the identity and 0 annihilates, on either side |
| GaloisField.GfMulCommutes | saes_1900779.c:35-58 | the product does not depend on the order of the operands |
| GaloisField.MulStepInRange | saes_1900779.c:41-54 | one iteration keeps `result`, `a` and `b` within 0..15 (the XOR with the modulus clears the bit shifted out); it multiplies `a` by x, halves `b`, and adds `a` to `result` when the low bit of `b` is set |
| GaloisField.MulAfterFourIsProduct | saes_1900779.c:39-55 | after the four iterations, `result` is the field product of the original operands |
| GaloisField.MultiplyGf | saes_1900779.c:35-58 | `multiply_GF2_4` on nibble operands returns a nibble, and it is their field product |
| Matrices.MatMulEntry | saes_1900779.c:66-71 | entry (i, j) of the product is first[i][0]·second[0][j] + first[i][1]·second[1][j] |
| Matrices.PartialSumComplete | saes_1900779.c:68-71 | the running XOR of the k-loop, after both terms, is that entry |
| Matrices.AccumulateEntry | saes_1900779.c:66-71 | the innermost loop leaves the product's entry (i, j) in `result[i][j]` and changes no other entry |
| Matrices.MultiplyMatrices | saes_1900779.c:60-74 | `multiplyMatrices` fills `result` with the product first · second over GF(2^4) |
| SBoxes.SBoxesAreInverse | saes_1900779.c:8-18 | `inverseSBox[sBox[n]] == n` and `sBox[inverseSBox[n]] == n` for every nibble |
| SBoxes.SubInjective | saes_1900779.c:8-18 | both tables are one-to-one (both directions of the equivalence) |
| Layers.MaskedNibbles | saes_1900779.c:80-89 | the masked and shifted table indices are the four nibbles of the block |
| Layers.SubstituteNibbles | saes_1900779.c:77-92 | body follows lines 77-92 step for step; its meaning is stated in `Layers.SubstituteNibblesAt` |
| Layers.SubstituteNibblesAt | saes_1900779.c:77-92 | each output nibble of `substituteNibbles` is the `sBox` entry of the input nibble in the same position |
| Layers.SubstituteNibblesInverse | saes_1900779.c:94-109 | body follows lines 94-109 step for step; its meaning is stated in `Layers.SubstituteNibblesInverseAt` |
| Layers.SubstituteNibblesInverseAt | saes_1900779.c:94-109 | each output nibble of `substituteNibblesInverse` is the `inverseSBox` entry of the input nibble in the same position |
| Layers.SubstituteNibblesRoundTrip | saes_1900779.c:77-109 | the two substitution layers undo each other, in either order, for every block |
| Layers.ShiftRows | saes_1900779.c:111-117 | body follows lines 111-117 step for step; its meaning is stated in `Layers.ShiftRowsAt` and `Layers.ShiftRowsInvolution` |
| Layers.ShiftRowsAt | saes_1900779.c:111-117 | `shiftRows` keeps the bits under 0xF0F0 and exchanges the nibbles at bits 3-0 and 11-8 |
| Layers.ShiftRowsInvolution | saes_1900779.c:111-117 | applying `shiftRows` twice gives the input back |
| Mixing.BlockToMatrix | saes_1900779.c:173 | body follows line 173 step for step; its meaning is stated in `Mixing.ShiftMatrixEntries` and `Mixing.PackingRoundTrip` |
| Mixing.MatrixToBlock | saes_1900779.c:176 | body follows line 176 step for step; its meaning is stated in `Mixing.PackingRoundTrip` |
| Mixing.ShiftMatrixEntries | saes_1900779.c:173 | the masked and shifted entries of `shiftMatrix` are the entries of the packed state matrix |
| Mixing.PackingRoundTrip | saes_1900779.c:173-176 | packing a block into the matrix and unpacking it are inverse to each other |
| Mixing.InverseMixUndoesForward | saes_1900779.c:140-176 | {{9, 2}, {2, 9}} · ({{1, 4}, {4, 1}} · m) == m for every matrix m |
| Mixing.ForwardMixUndoesInverse | saes_1900779.c:140-176 | {{1, 4}, {4, 1}} · ({{9, 2}, {2, 9}} · m) == m for every matrix m |
| Mixing.MixRoundTrip | saes_1900779.c:140-176 | under the code's packing, mixing with the inverse matrix after the forward one returns the block, and so does the other order |
| KeySchedule.RotNib | saes_1900779.c:20-25 | body follows lines 20-25 step for step; its meaning is stated in `KeySchedule.RotNibSwaps` |
| KeySchedule.RotNibSwaps | saes_1900779.c:20-25 | `RotNib` exchanges the two nibbles of a word |
| KeySchedule.RotNibInvolution | saes_1900779.c:20-25 | applying `RotNib` twice gives the word back |
| KeySchedule.SubNib | saes_1900779.c:27-32 | body follows lines 27-32 step for step; its meaning is stated in `KeySchedule.SubNibAt` |
| KeySchedule.SubNibAt | saes_1900779.c:27-32 | `SubNib` applies `sBox` to the high and the low nibble independently |
| KeySchedule.JoinOfWords | saes_1900779.c:121-122 | a 16-bit value is its high word shifted up 8 and or-ed with its low word |
| KeySchedule.WordsOfJoin | saes_1900779.c:128-129 | the high and low words of w2 shifted up 8 and or-ed with w3 are w2 and w3 |
| KeySchedule.PreviousOfNext | saes_1900779.c:123-124 | the words (w0, w1) are recovered from (w2, w3) of the next round |
| KeySchedule.NextOfPrevious | saes_1900779.c:123-124 | every pair (w2, w3) is the round after some pair (w0, w1) |
| KeySchedule.PreviousRoundKeyOfJoin | saes_1900779.c:128 | running a round backwards on the round key built from w2 and w3 works word by word |
| KeySchedule.NextRoundKeyOfJoin | saes_1900779.c:128 | a round on the key built from w0 and w1 works word by word |
| KeySchedule.PreviousOfNextRoundKey | saes_1900779.c:121-128 | a round of the schedule on 16-bit round keys is one-to-one: running it backwards recovers the key |
| KeySchedule.NextOfPreviousRoundKey | saes_1900779.c:121-128 | a round of the schedule is onto: every 16-bit value is the round key after some key |
| KeySchedule.KeyExpansion | saes_1900779.c:159-167 | body follows lines 159-167 step for step; its meaning is stated in `KeySchedule.KeyExpansionFirstRound`, `KeySchedule.FirstRoundKeyDeterminesKey` and `KeySchedule.KnownKeySchedule` |
| KeySchedule.KeyExpansionFirstRound | saes_1900779.c:159-166 | key0 is the key, and key1 is one round after it with the constant 0b10000000 |
| KeySchedule.FirstRoundKeyDeterminesKey | saes_1900779.c:159-166 | the key is recovered from key1 alone |
| KeySchedule.KnownKeySchedule | saes_1900779.c:159-167 | key 0x4AF5 gives key1 = 0xDD28 and key2 = 0x87AF |
| KeySchedule.SignedCharScheduleDiffers | saes_1900779.c:161-166 | where `char` is signed, key 0x0000 gives key1 = 0xFF19, not 0x1919, and the first round run backwards no longer gives the key |
| KeySchedule.SignedCharSecondRoundKeyAgrees | saes_1900779.c:161-167 | where `char` is signed, key 0x0000 still gives key2 = 0x0D14, the same as with unsigned words: w4 = 0xFF0D loses its upper byte in the shift and w5 = 0x0014 has none |
| Cipher.AddRoundKeyTwice | saes_1900779.c:169 | adding the same round key twice gives the state back |
| Cipher.Encrypt | saes_1900779.c:157-186 | body follows lines 157-186 step for step, with the mixing as a matrix product; its meaning is stated in `Cipher.DecryptEncrypt` and `Cipher.KnownEncryption` |
| Cipher.Decrypt | saes_1900779.c:119-155 | body follows lines 119-155 step for step, with the mixing as a matrix product; its meaning is stated in `Cipher.EncryptDecrypt` and `Cipher.KnownDecryption` |
| Cipher.DecryptEncrypt | saes_1900779.c:119-186 | `DEC(ENC(p, k), k) == p` for every block and key |
| Cipher.EncryptDecrypt | saes_1900779.c:119-186 | `ENC(DEC(c, k), k) == c` for every block and key, so for each key `ENC` is a bijection with inverse `DEC` |
| Cipher.MixWithArrays | saes_1900779.c:172-176 | filling `mix` and `shiftMatrix`, multiplying into `mixedMatrix` and unpacking gives the block mixed by the constant matrix |
| Cipher.Enc | saes_1900779.c:157-186 | `ENC` step by step, with the array product, computes the pipeline AddRoundKey, substitute, shift, mix, AddRoundKey, substitute, shift, AddRoundKey |
| Cipher.Dec | saes_1900779.c:119-155 | `DEC` step by step, with the array product, computes the inverse layers in reverse order with the round keys reversed |
| Cipher.KnownMixOutput | saes_1900779.c:169-176 | in the worked example, the first round's mixing output is 0xF633 |
| Cipher.KnownEncryption | saes_1900779.c:157-186 | `ENC(0xD728, 0x4AF5) == 0x24EC` |
| Cipher.KnownInverseMixOutput | saes_1900779.c:140-146 | in the worked example, the inverse mixing takes 0xF633 back to 0x2EEE |
| Cipher.KnownDecryption | saes_1900779.c:119-155 | `DEC(0x24EC, 0x4AF5) == 0xD728` |
| HexParsing.CharToDigit | saes_1900779.c:188-207 | `charToDigit` answers a value in -1..15 |
| HexParsing.CharToDigitOfDigit | saes_1900779.c:190-201 | '0'-'9', 'A'-'F' and 'a'-'f' are read as their values 0..15 |
| HexParsing.CharToDigitOnlyDigits | saes_1900779.c:188-207 | only those characters are read as digits, and every other character gives -1 (both directions) |
| HexParsing.Terminated | saes_1900779.c:213 | the loop reads the characters before the first NUL, or all of them when there is none |
| HexParsing.ToShort | saes_1900779.c:221 | the conversion back into `short` lands in -32768..32767 |
| HexParsing.ToShortMultiple | saes_1900779.c:221 | the conversion to `short` ignores multiples of 2^16 |
| HexParsing.Accumulate | saes_1900779.c:211-223 | body follows the loop of lines 211-223 one character at a time; its meaning is stated in `HexParsing.AccumulateFails` and `HexParsing.AccumulateValue` |
| HexParsing.HexToShort | saes_1900779.c:209-226 | body follows lines 209-226; its meaning is stated in `HexParsing.HexToShortInvalid` and `HexParsing.HexToShortValue` |
| HexParsing.HexStringToShort | saes_1900779.c:209-226 | the loop over the string answers what the accumulation specifies: -1 at the first invalid character, otherwise the accumulated `short` |
| HexParsing.AccumulateFails | saes_1900779.c:213-219 | the parse fails exactly when some character before the terminator is not a hexadecimal digit |
| HexParsing.AccumulateValue | saes_1900779.c:211-223 | on digits, the loop leaves the big-endian number of the digits (after the starting accumulator) reduced into `short` |
| HexParsing.ToShortIsMinusOne | saes_1900779.c:221 | the `short` of a number is -1 exactly when its low 16 bits are 0xFFFF |
| HexParsing.HexToShortInvalid | saes_1900779.c:216-225 | the answer is -1 exactly when a character is invalid, or when all characters are digits whose number is 0xFFFF modulo 2^16 |
| HexParsing.HexToShortValue | saes_1900779.c:209-226 | on a string of digits, the answer is the string's hexadecimal number reduced modulo 2^16 into `short` |
| HexParsing.AccumulateAppend | saes_1900779.c:213-223 | parsing p followed by q is parsing q from the accumulator p leaves |
| HexParsing.LastFourDigits | saes_1900779.c:221 | only the last four digits survive: the answer on a digit string is that of its last four characters |
| HexParsing.ParseFormatted | saes_1900779.c:209-226 | parsing the four upper-case hexadecimal digits of a 16-bit value gives the `short` with those bits |
| HexParsing.InvalidGivesSentinel | saes_1900779.c:205-218 | an invalid character ("G") gives the error answer -1 |
| HexParsing.AllOnesGivesSentinel | saes_1900779.c:209-226 | the valid input "FFFF" also gives -1, so the error answer cannot be told apart from it |

## Left out

- `main` (saes_1900779.c:228-247) is not modelled. It does argument indexing without
  checking `argc`, dispatches with `strcmp`, and prints with `printf`. `HexParsing.FormatHex`
  writes out only the four-digit form, as the partner of the parser.
- The conversion of the parser's `short` into `unsigned short` in `main` is not modelled
  (saes_1900779.c:231-232). It turns the error answer -1 into the key or block 0xFFFF.
- The diagnostic `fprintf` to `stderr` in `charToDigit` is output only. The model keeps
  the returned value.
- HexParsing.CharToDigit: the answer is modelled as the `int` -1, which is how the
  comparison `digit == -1` reads it where `char` is signed. Where `char` is unsigned, the
  returned `char` -1 becomes 255, the check never fires, and the invalid character is
  or-ed in as 255. That platform is not modelled.
- HexParsing.ShiftIn: `result << 4` on a negative `short` is undefined behaviour in C. It
  is modelled as multiplication by 16, which is what two's-complement targets do.
- KeySchedule.KeyExpansionFirstRound: only the first round is stated as a round of the
  schedule. `KeyExpansion` builds key2 from w4 and w5 exactly as the code does, but no
  lemma states that key2 is the round after key1 with the constant 0b00110000: the
  verifier runs out of resource on `key2 == NextRoundKey(key1, Rcon2)` in every form
  written (with the words bound by `var`, as a step lemma on words, and fully expanded).
  key2 is pinned only for the worked example, by `KeySchedule.KnownKeySchedule`.
- GaloisField.MultiplyGf: operands outside 0..15 are not modelled, and the method requires
  nibbles. The code only ever passes matrix entries, which are nibbles.
- Matrices.MultiplyMatrices: `result` must be a different array from both inputs. The code
  always passes three distinct local arrays, so aliasing is not modelled.
- Signed `char` in the key schedule is not the model's main reading. The words are
  unsigned; the signed behaviour is modelled only as the Finding below.
- Timing and side-channel behaviour are not modelled.

## Findings

| source | as written | input that shows it | evidently intended | confidence | as-written member | corrected member |
|---|---|---|---|---|---|---|
| saes_1900779.c:123-125, 161-163 | `SubNib` returns a plain `char`; where `char` is signed, a result of 0x80 or more is sign-extended when it is XORed into the `unsigned short` words, so w2 and w3, and depending on the second `SubNib` result also w4 and w5, can carry 0xFF in the upper byte; for key 0, w2 = w3 = 0xFF19, w4 = 0xFF0D and w5 = 0x0014, so key1 is wrong while key2 = 0x0D14 comes out the same under both readings | key 0x0000: SubNib(RotNib(0)) = 0x99, w2 = 0xFF19, key1 = 0xFF19, and the first round run backwards gives 0xF0E6 instead of the key | key1 = 0x1919, with the words unsigned 8-bit values as S-AES defines them, and the first round recoverable | not executed | KeySchedule.SignedCharScheduleDiffers | KeySchedule.FirstRoundKeyDeterminesKey |
