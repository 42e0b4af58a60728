/** The two-round S-AES pipelines `ENC` and `DEC`: the round keys of the schedule, the
    substitution, row-shift and mixing layers, and the round-key additions (XOR). */
module Cipher {
  import opened GaloisField
  import opened Matrices
  import opened Layers
  import opened Mixing
  import opened KeySchedule

  /** AddRoundKey: the XOR of a round key into the state (`^ key0` and so on in the code). */
  function AddRoundKey(state: Block, roundKey: Block): Block {
    state ^ roundKey
  }

  /** Adding the same round key twice gives the state back. */
  lemma AddRoundKeyTwice(state: Block, roundKey: Block)
    ensures AddRoundKey(AddRoundKey(state, roundKey), roundKey) == state
  {
  }

  /** `ENC`, as the sequence of layers it applies. */
  function Encrypt(plaintext: Block, key: Block): Block {
    var keys := KeyExpansion(key);
    var addround0 := AddRoundKey(plaintext, keys.key0);
    var sBox1 := SubstituteNibbles(addround0);
    var shift1 := ShiftRows(sBox1);
    var mixed1 := Mix(shift1, ForwardMix);
    var addround1 := AddRoundKey(mixed1, keys.key1);
    var sBox2 := SubstituteNibbles(addround1);
    var shift2 := ShiftRows(sBox2);
    AddRoundKey(shift2, keys.key2)
  }

  /** `DEC`: the inverse layers in the reverse order, with the round keys reversed. */
  function Decrypt(cipher: Block, key: Block): Block {
    var keys := KeyExpansion(key);
    var addround0 := AddRoundKey(cipher, keys.key2);
    var shift1 := ShiftRows(addround0);
    var sBox1 := SubstituteNibblesInverse(shift1);
    var addround1 := AddRoundKey(sBox1, keys.key1);
    var mixed1 := Mix(addround1, InverseMix);
    var shift2 := ShiftRows(mixed1);
    var sBox2 := SubstituteNibblesInverse(shift2);
    AddRoundKey(sBox2, keys.key0)
  }

  /** Decryption with the same key undoes encryption, for every block and every key. */
  lemma DecryptEncrypt(plaintext: Block, key: Block)
    ensures Decrypt(Encrypt(plaintext, key), key) == plaintext
  {
    var keys := KeyExpansion(key);
    var addround0 := AddRoundKey(plaintext, keys.key0);
    var sBox1 := SubstituteNibbles(addround0);
    var mixed1 := Mix(ShiftRows(sBox1), ForwardMix);
    var addround1 := AddRoundKey(mixed1, keys.key1);
    var sBox2 := SubstituteNibbles(addround1);
    AddRoundKeyTwice(ShiftRows(sBox2), keys.key2);
    ShiftRowsInvolution(sBox2);
    SubstituteNibblesRoundTrip(addround1);
    AddRoundKeyTwice(mixed1, keys.key1);
    MixRoundTrip(ShiftRows(sBox1));
    ShiftRowsInvolution(sBox1);
    SubstituteNibblesRoundTrip(addround0);
    AddRoundKeyTwice(plaintext, keys.key0);
  }

  /** Encryption with the same key undoes decryption: for every key, `ENC` is a bijection
      on 16-bit blocks with `DEC` as its inverse. */
  lemma EncryptDecrypt(cipher: Block, key: Block)
    ensures Encrypt(Decrypt(cipher, key), key) == cipher
  {
    var keys := KeyExpansion(key);
    var addround0 := AddRoundKey(cipher, keys.key2);
    var sBox1 := SubstituteNibblesInverse(ShiftRows(addround0));
    var addround1 := AddRoundKey(sBox1, keys.key1);
    var mixed1 := Mix(addround1, InverseMix);
    var sBox2 := SubstituteNibblesInverse(ShiftRows(mixed1));
    AddRoundKeyTwice(sBox2, keys.key0);
    SubstituteNibblesRoundTrip(ShiftRows(mixed1));
    ShiftRowsInvolution(mixed1);
    MixRoundTrip(addround1);
    AddRoundKeyTwice(sBox1, keys.key1);
    SubstituteNibblesRoundTrip(ShiftRows(addround0));
    ShiftRowsInvolution(addround0);
    AddRoundKeyTwice(cipher, keys.key2);
  }

  /** The mixing step written out in both `ENC` and `DEC`: the constant `mix` array, the
      state packed into `shiftMatrix`, their product in `mixedMatrix` by `multiplyMatrices`,
      and the product unpacked into a block. */
  method MixWithArrays(state: Block, constant: Matrix) returns (mixed: Block)
    ensures mixed == Mix(state, constant)
  {
    var mix := new Nibble[2, 2];
    mix[0, 0], mix[0, 1], mix[1, 0], mix[1, 1] := constant.m00, constant.m01, constant.m10, constant.m11;
    var shiftMatrix := new Nibble[2, 2];
    shiftMatrix[0, 0], shiftMatrix[0, 1] := ((state & 0xF000) >> 12) as Nibble, ((state & 0x00F0) >> 4) as Nibble;
    shiftMatrix[1, 0], shiftMatrix[1, 1] := ((state & 0x0F00) >> 8) as Nibble, (state & 0x000F) as Nibble;
    var mixedMatrix := new Nibble[2, 2];
    ShiftMatrixEntries(state);
    assert Load(mix) == constant && Load(shiftMatrix) == BlockToMatrix(state);
    MultiplyMatrices(mix, shiftMatrix, mixedMatrix);
    mixed := ((mixedMatrix[0, 0] as Block) << 12) | ((mixedMatrix[1, 0] as Block) << 8)
      | ((mixedMatrix[0, 1] as Block) << 4) | (mixedMatrix[1, 1] as Block);
  }

  /** `ENC` step by step, mixing with the array {{1, 4}, {4, 1}}. */
  method Enc(plaintext: Block, key: Block) returns (cipher: Block)
    ensures cipher == Encrypt(plaintext, key)
  {
    var keys := KeyExpansion(key);
    var addround0 := AddRoundKey(plaintext, keys.key0);
    var sBox1 := SubstituteNibbles(addround0);
    var shift1 := ShiftRows(sBox1);
    var mixed1 := MixWithArrays(shift1, ForwardMix);
    var addround1 := AddRoundKey(mixed1, keys.key1);
    var sBox2 := SubstituteNibbles(addround1);
    var shift2 := ShiftRows(sBox2);
    cipher := AddRoundKey(shift2, keys.key2);
  }

  /** `DEC` step by step, mixing with the array {{9, 2}, {2, 9}}. */
  method Dec(cipher: Block, key: Block) returns (plaintext: Block)
    ensures plaintext == Decrypt(cipher, key)
  {
    var keys := KeyExpansion(key);
    var addround0 := AddRoundKey(cipher, keys.key2);
    var shift1 := ShiftRows(addround0);
    var sBox1 := SubstituteNibblesInverse(shift1);
    var addround1 := AddRoundKey(sBox1, keys.key1);
    var mixed1 := MixWithArrays(addround1, InverseMix);
    var shift2 := ShiftRows(mixed1);
    var sBox2 := SubstituteNibblesInverse(shift2);
    plaintext := AddRoundKey(sBox2, keys.key0);
  }

  /* The worked example of S-AES: the block 0xD728 under the key 0x4AF5. */

  /** The mixing layer of the first round gives 0xF633. */
  lemma KnownMixOutput()
    ensures Mix(ShiftRows(SubstituteNibbles(AddRoundKey(0xD728, 0x4AF5))), ForwardMix) == 0xF633
  {
  }

  lemma KnownEncryption()
    ensures Encrypt(0xD728, 0x4AF5) == 0x24EC
  {
    KnownKeySchedule();
    KnownMixOutput();
  }

  /** In `DEC` the inverse mixing layer takes 0xF633 back to 0x2EEE. */
  lemma KnownInverseMixOutput()
    ensures Mix(0xF633, InverseMix) == 0x2EEE
  {
  }

  lemma KnownDecryption()
    ensures Decrypt(0x24EC, 0x4AF5) == 0xD728
  {
    KnownKeySchedule();
    assert SubstituteNibblesInverse(ShiftRows(AddRoundKey(0x24EC, 0x87AF))) == 0x2B1B;
    assert AddRoundKey(0x2B1B, 0xDD28) == 0xF633;
    KnownInverseMixOutput();
    assert SubstituteNibblesInverse(ShiftRows(0x2EEE)) == 0x9DDD;
  }
}
