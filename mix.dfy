/** The MixColumns layer: the block is packed into a 2x2 matrix over GF(2^4), multiplied
    on the left by a constant matrix, and unpacked again. */
module Mixing {
  import opened GaloisField
  import opened Matrices
  import opened Layers

  /** The packing of the code: the top nibble is entry (0, 0), the next entry (1, 0), then
      (0, 1), and the lowest nibble entry (1, 1). Each byte of the block is one column. */
  function BlockToMatrix(x: Block): Matrix {
    Matrix(NibbleAt(x, 3), NibbleAt(x, 1), NibbleAt(x, 2), NibbleAt(x, 0))
  }

  /** The unpacking of the code, the inverse of BlockToMatrix. */
  function MatrixToBlock(m: Matrix): Block {
    FromNibbles(m.m00, m.m10, m.m01, m.m11)
  }

  lemma PackingRoundTrip(x: Block, m: Matrix)
    ensures MatrixToBlock(BlockToMatrix(x)) == x
    ensures BlockToMatrix(MatrixToBlock(m)) == m
  {
    FromNibblesOfBlock(x);
    NibblesOfFromNibbles(m.m00, m.m10, m.m01, m.m11);
  }

  /** The entries the code writes into `shiftMatrix`, by masking and shifting the block,
      are the nibbles BlockToMatrix puts there. */
  lemma ShiftMatrixEntries(x: Block)
    ensures ((x & 0xF000) >> 12) as Nibble == BlockToMatrix(x).m00
    ensures ((x & 0x00F0) >> 4) as Nibble == BlockToMatrix(x).m01
    ensures ((x & 0x0F00) >> 8) as Nibble == BlockToMatrix(x).m10
    ensures (x & 0x000F) as Nibble == BlockToMatrix(x).m11
  {
  }

  /** `mix` of `ENC`. */
  const ForwardMix := Matrix(1, 4, 4, 1)

  /** `mix` of `DEC`. */
  const InverseMix := Matrix(9, 2, 2, 9)

  /** Mixing a block with a matrix: the product m * state, on the packed state. */
  function Mix(x: Block, m: Matrix): Block {
    MatrixToBlock(MatMul(m, BlockToMatrix(x)))
  }

  /* The mixing matrices are inverse to each other, shown one column at a time. The field
     facts are proved on flat terms (no product nested inside another), then lifted to Dot:
     nested products make the bit-vector reasoning far more expensive. */

  lemma ForwardColumnFieldFacts(a: Nibble, b: Nibble)
    ensures var c, d := GfMul(1, a) ^ GfMul(4, b), GfMul(4, a) ^ GfMul(1, b);
      GfMul(9, c) ^ GfMul(2, d) == a && GfMul(2, c) ^ GfMul(9, d) == b
  {
  }

  lemma InverseColumnFieldFacts(a: Nibble, b: Nibble)
    ensures var c, d := GfMul(9, a) ^ GfMul(2, b), GfMul(2, a) ^ GfMul(9, b);
      GfMul(1, c) ^ GfMul(4, d) == a && GfMul(4, c) ^ GfMul(1, d) == b
  {
  }

  lemma ForwardColumnFlat(a: Nibble, b: Nibble, c: Nibble, d: Nibble)
    requires c == GfMul(1, a) ^ GfMul(4, b) && d == GfMul(4, a) ^ GfMul(1, b)
    ensures GfMul(9, c) ^ GfMul(2, d) == a && GfMul(2, c) ^ GfMul(9, d) == b
  {
    ForwardColumnFieldFacts(a, b);
  }

  lemma InverseColumnFlat(a: Nibble, b: Nibble, c: Nibble, d: Nibble)
    requires c == GfMul(9, a) ^ GfMul(2, b) && d == GfMul(2, a) ^ GfMul(9, b)
    ensures GfMul(1, c) ^ GfMul(4, d) == a && GfMul(4, c) ^ GfMul(1, d) == b
  {
    InverseColumnFieldFacts(a, b);
  }

  /** A column (a, b) mixed by {{1, 4}, {4, 1}} into (c, d) is restored by {{9, 2}, {2, 9}}. */
  lemma ForwardColumnUndone(a: Nibble, b: Nibble, c: Nibble, d: Nibble)
    requires c == Dot(1, 4, a, b) && d == Dot(4, 1, a, b)
    ensures Dot(9, 2, c, d) == a && Dot(2, 9, c, d) == b
  {
    ForwardColumnFlat(a, b, c, d);
  }

  /** A column (a, b) mixed by {{9, 2}, {2, 9}} into (c, d) is restored by {{1, 4}, {4, 1}}. */
  lemma InverseColumnUndone(a: Nibble, b: Nibble, c: Nibble, d: Nibble)
    requires c == Dot(9, 2, a, b) && d == Dot(2, 9, a, b)
    ensures Dot(1, 4, c, d) == a && Dot(4, 1, c, d) == b
  {
    InverseColumnFlat(a, b, c, d);
  }

  /** The inverse mixing matrix undoes the forward one. */
  lemma InverseMixUndoesForward(m: Matrix)
    ensures MatMul(InverseMix, MatMul(ForwardMix, m)) == m
  {
    var f := MatMul(ForwardMix, m);
    ForwardColumnUndone(m.m00, m.m10, f.m00, f.m10);
    ForwardColumnUndone(m.m01, m.m11, f.m01, f.m11);
  }

  /** The forward mixing matrix undoes the inverse one. */
  lemma ForwardMixUndoesInverse(m: Matrix)
    ensures MatMul(ForwardMix, MatMul(InverseMix, m)) == m
  {
    var g := MatMul(InverseMix, m);
    InverseColumnUndone(m.m00, m.m10, g.m00, g.m10);
    InverseColumnUndone(m.m01, m.m11, g.m01, g.m11);
  }

  /** Mixing with {{9, 2}, {2, 9}} undoes mixing with {{1, 4}, {4, 1}}, and the other way
      round, under the packing of the code. */
  lemma MixRoundTrip(x: Block)
    ensures Mix(Mix(x, ForwardMix), InverseMix) == x
    ensures Mix(Mix(x, InverseMix), ForwardMix) == x
  {
    var m := BlockToMatrix(x);
    PackingRoundTrip(x, MatMul(ForwardMix, m));
    PackingRoundTrip(x, MatMul(InverseMix, m));
    InverseMixUndoesForward(m);
    ForwardMixUndoesInverse(m);
    PackingRoundTrip(x, m);
  }
}
