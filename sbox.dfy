/** The two 4-bit substitution tables of S-AES (`sBox`, `inverseSBox`). */
module SBoxes {
  import opened GaloisField

  /** `sBox`: the nibble substitution of the encryption direction. */
  const SBox: seq<Nibble> := [0x9, 0x4, 0xA, 0xB, 0xD, 0x1, 0x8, 0x5, 0x6, 0x2, 0x0, 0x3, 0xC, 0xE, 0xF, 0x7]

  /** `inverseSBox`: the nibble substitution of the decryption direction. */
  const InverseSBox: seq<Nibble> := [0xA, 0x5, 0x9, 0xB, 0x1, 0x7, 0x8, 0xF, 0x6, 0x0, 0x2, 0x3, 0xC, 0x4, 0xD, 0xE]

  /** Looking a nibble up in `sBox`. */
  function Sub(n: Nibble): Nibble {
    SBox[n as int]
  }

  /** Looking a nibble up in `inverseSBox`. */
  function InvSub(n: Nibble): Nibble {
    InverseSBox[n as int]
  }

  /** The tables are inverse permutations of the 16 nibbles: each undoes the other. */
  lemma SBoxesAreInverse(n: Nibble)
    ensures InvSub(Sub(n)) == n
    ensures Sub(InvSub(n)) == n
  {
  }

  /** Hence both substitutions are one-to-one. */
  lemma SubInjective(m: Nibble, n: Nibble)
    ensures Sub(m) == Sub(n) <==> m == n
    ensures InvSub(m) == InvSub(n) <==> m == n
  {
  }
}
