/** The layers that act on a whole 16-bit block: nibble substitution and the nibble swap
    `shiftRows`. Nibble k of a block is bits 4k+3..4k, so nibble 3 is the top four bits. */
module Layers {
  import opened GaloisField
  import opened SBoxes

  type Block = bv16

  /** Nibble k of a block. */
  function NibbleAt(x: Block, k: nat): Nibble
    requires k < 4
  {
    if k == 0 then (x & 0xF) as Nibble
    else if k == 1 then ((x >> 4) & 0xF) as Nibble
    else if k == 2 then ((x >> 8) & 0xF) as Nibble
    else (x >> 12) as Nibble
  }

  /** The block whose nibbles, from the top, are n3, n2, n1, n0. */
  function FromNibbles(n3: Nibble, n2: Nibble, n1: Nibble, n0: Nibble): Block {
    ((n3 as Block) << 12) | ((n2 as Block) << 8) | ((n1 as Block) << 4) | (n0 as Block)
  }

  /** A block is determined by its nibbles, and FromNibbles places each nibble where
      NibbleAt reads it back. */
  lemma NibblesOfFromNibbles(n3: Nibble, n2: Nibble, n1: Nibble, n0: Nibble)
    ensures var x := FromNibbles(n3, n2, n1, n0);
      NibbleAt(x, 3) == n3 && NibbleAt(x, 2) == n2 && NibbleAt(x, 1) == n1 && NibbleAt(x, 0) == n0
  {
  }

  lemma FromNibblesOfBlock(x: Block)
    ensures FromNibbles(NibbleAt(x, 3), NibbleAt(x, 2), NibbleAt(x, 1), NibbleAt(x, 0)) == x
  {
  }

  /** The table index the code computes for each nibble, by masking and shifting, is the
      value of that nibble. */
  lemma MaskedNibbles(x: Block)
    ensures (x & 0x000F) as int == NibbleAt(x, 0) as int
    ensures ((x & 0x00F0) >> 4) as int == NibbleAt(x, 1) as int
    ensures ((x & 0x0F00) >> 8) as int == NibbleAt(x, 2) as int
    ensures ((x & 0xF000) >> 12) as int == NibbleAt(x, 3) as int
  {
  }

  /** Or-ing the nibbles together lowest first, as the substitution layers do, builds the
      same block as FromNibbles. */
  lemma OrNibbles(n0: Nibble, n1: Nibble, n2: Nibble, n3: Nibble)
    ensures (n0 as Block) | ((n1 as Block) << 4) | ((n2 as Block) << 8) | ((n3 as Block) << 12)
            == FromNibbles(n3, n2, n1, n0)
  {
  }

  /** `substituteNibbles`: masks out the four nibbles, looks each up in `sBox` and puts the
      results back in the same positions. */
  function SubstituteNibbles(input: Block): Block
  {
    var firstNibble := input & 0x000F;
    var secondNibble := input & 0x00F0;
    var thirdNibble := input & 0x0F00;
    var fourthNibble := input & 0xF000;
    var firstSubstituted := SBox[firstNibble as int];
    var secondSubstituted := SBox[(secondNibble >> 4) as int];
    var thirdSubstituted := SBox[(thirdNibble >> 8) as int];
    var fourthSubstituted := SBox[(fourthNibble >> 12) as int];
    (firstSubstituted as Block) | ((secondSubstituted as Block) << 4)
      | ((thirdSubstituted as Block) << 8) | ((fourthSubstituted as Block) << 12)
  }

  /** Each output nibble of `substituteNibbles` is the `sBox` entry of the input nibble in
      the same position, and depends on nothing else. */
  lemma SubstituteNibblesAt(x: Block)
    ensures var r := SubstituteNibbles(x);
      NibbleAt(r, 0) == Sub(NibbleAt(x, 0)) && NibbleAt(r, 1) == Sub(NibbleAt(x, 1))
      && NibbleAt(r, 2) == Sub(NibbleAt(x, 2)) && NibbleAt(r, 3) == Sub(NibbleAt(x, 3))
  {
    MaskedNibbles(x);
    var n0, n1, n2, n3 := Sub(NibbleAt(x, 0)), Sub(NibbleAt(x, 1)), Sub(NibbleAt(x, 2)), Sub(NibbleAt(x, 3));
    assert SubstituteNibbles(x) == FromNibbles(n3, n2, n1, n0) by {
      OrNibbles(n0, n1, n2, n3);
    }
    NibblesOfFromNibbles(n3, n2, n1, n0);
  }

  /** `substituteNibblesInverse`: the same masking as `substituteNibbles`, looking each
      nibble up in `inverseSBox`. */
  function SubstituteNibblesInverse(input: Block): Block {
    var firstNibble := input & 0x000F;
    var secondNibble := input & 0x00F0;
    var thirdNibble := input & 0x0F00;
    var fourthNibble := input & 0xF000;
    var firstSubstituted := InverseSBox[firstNibble as int];
    var secondSubstituted := InverseSBox[(secondNibble >> 4) as int];
    var thirdSubstituted := InverseSBox[(thirdNibble >> 8) as int];
    var fourthSubstituted := InverseSBox[(fourthNibble >> 12) as int];
    (firstSubstituted as Block) | ((secondSubstituted as Block) << 4)
      | ((thirdSubstituted as Block) << 8) | ((fourthSubstituted as Block) << 12)
  }

  /** Each output nibble of `substituteNibblesInverse` is the `inverseSBox` entry of the
      input nibble in the same position. */
  lemma SubstituteNibblesInverseAt(x: Block)
    ensures var r := SubstituteNibblesInverse(x);
      NibbleAt(r, 0) == InvSub(NibbleAt(x, 0)) && NibbleAt(r, 1) == InvSub(NibbleAt(x, 1))
      && NibbleAt(r, 2) == InvSub(NibbleAt(x, 2)) && NibbleAt(r, 3) == InvSub(NibbleAt(x, 3))
  {
    MaskedNibbles(x);
    var n0, n1, n2, n3 := InvSub(NibbleAt(x, 0)), InvSub(NibbleAt(x, 1)), InvSub(NibbleAt(x, 2)), InvSub(NibbleAt(x, 3));
    assert SubstituteNibblesInverse(x) == FromNibbles(n3, n2, n1, n0) by {
      OrNibbles(n0, n1, n2, n3);
    }
    NibblesOfFromNibbles(n3, n2, n1, n0);
  }

  /** Blocks with the same four nibbles are equal. */
  lemma BlockExtensionality(x: Block, y: Block)
    requires NibbleAt(x, 0) == NibbleAt(y, 0) && NibbleAt(x, 1) == NibbleAt(y, 1)
    requires NibbleAt(x, 2) == NibbleAt(y, 2) && NibbleAt(x, 3) == NibbleAt(y, 3)
    ensures x == y
  {
    FromNibblesOfBlock(x);
    FromNibblesOfBlock(y);
  }

  /** The two substitution layers undo each other, in either order. */
  lemma SubstituteNibblesRoundTrip(x: Block)
    ensures SubstituteNibblesInverse(SubstituteNibbles(x)) == x
    ensures SubstituteNibbles(SubstituteNibblesInverse(x)) == x
  {
    var s, t := SubstituteNibbles(x), SubstituteNibblesInverse(x);
    SubstituteNibblesAt(x);
    SubstituteNibblesInverseAt(x);
    SubstituteNibblesInverseAt(s);
    SubstituteNibblesAt(t);
    SBoxesAreInverse(NibbleAt(x, 0));
    SBoxesAreInverse(NibbleAt(x, 1));
    SBoxesAreInverse(NibbleAt(x, 2));
    SBoxesAreInverse(NibbleAt(x, 3));
    BlockExtensionality(SubstituteNibblesInverse(s), x);
    BlockExtensionality(SubstituteNibbles(t), x);
  }

  /** `shiftRows`: moves nibble 0 to position 2 and nibble 2 to position 0, keeping the
      bits under the mask 0xF0F0. */
  function ShiftRows(input: Block): Block {
    var firstNibble := (input & 0x000F) << 8;
    var thirdNibble := (input & 0x0F00) >> 8;
    (input & 0xF0F0) | firstNibble | thirdNibble
  }

  /** `shiftRows` leaves nibbles 1 and 3 (the bits under 0xF0F0) alone and exchanges
      nibbles 0 and 2. */
  lemma ShiftRowsAt(x: Block)
    ensures ShiftRows(x) & 0xF0F0 == x & 0xF0F0
    ensures NibbleAt(ShiftRows(x), 1) == NibbleAt(x, 1) && NibbleAt(ShiftRows(x), 3) == NibbleAt(x, 3)
    ensures NibbleAt(ShiftRows(x), 0) == NibbleAt(x, 2) && NibbleAt(ShiftRows(x), 2) == NibbleAt(x, 0)
  {
  }

  /** Exchanging the same two nibbles twice restores the block. */
  lemma ShiftRowsInvolution(x: Block)
    ensures ShiftRows(ShiftRows(x)) == x
  {
    ShiftRowsAt(x);
    ShiftRowsAt(ShiftRows(x));
    BlockExtensionality(ShiftRows(ShiftRows(x)), x);
  }
}
