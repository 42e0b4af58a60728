/** 2x2 matrices over GF(2^4) and their product, the arithmetic of the MixColumns layer. */
module Matrices {
  import opened GaloisField

  /** A 2x2 matrix of field elements; mRC is the entry in row R, column C. */
  datatype Matrix = Matrix(m00: Nibble, m01: Nibble, m10: Nibble, m11: Nibble)
  {
    /** The entry in row i, column j. */
    function At(i: nat, j: nat): Nibble
      requires i < 2 && j < 2
    {
      if i == 0 then (if j == 0 then m00 else m01) else (if j == 0 then m10 else m11)
    }
  }

  /** A row (r0, r1) times a column (c0, c1): the field sum (XOR) r0 * c0 + r1 * c1. */
  function Dot(r0: Nibble, r1: Nibble, c0: Nibble, c1: Nibble): Nibble {
    GfMul(r0, c0) ^ GfMul(r1, c1)
  }

  /** The matrix product over the field: entry (i, j) is row i of p times column j of q. */
  function MatMul(p: Matrix, q: Matrix): Matrix {
    Matrix(Dot(p.m00, p.m01, q.m00, q.m10), Dot(p.m00, p.m01, q.m01, q.m11),
           Dot(p.m10, p.m11, q.m00, q.m10), Dot(p.m10, p.m11, q.m01, q.m11))
  }

  /** Entry (i, j) of the product p * q: p[i][0] * q[0][j] + p[i][1] * q[1][j]. */
  lemma MatMulEntry(p: Matrix, q: Matrix, i: nat, j: nat)
    requires i < 2 && j < 2
    ensures MatMul(p, q).At(i, j) == Dot(p.At(i, 0), p.At(i, 1), q.At(0, j), q.At(1, j))
  {
  }

  /** The sum of the first k products p[i][k'] * q[k'][j] of entry (i, j). */
  function PartialSum(p: Matrix, q: Matrix, i: nat, j: nat, k: nat): Nibble
    requires i < 2 && j < 2 && k <= 2
  {
    if k == 0 then 0 else PartialSum(p, q, i, j, k - 1) ^ GfMul(p.At(i, k - 1), q.At(k - 1, j))
  }

  /** Both products summed. */
  lemma PartialSumComplete(p: Matrix, q: Matrix, i: nat, j: nat)
    requires i < 2 && j < 2
    ensures PartialSum(p, q, i, j, 2) == Dot(p.At(i, 0), p.At(i, 1), q.At(0, j), q.At(1, j))
  {
    assert PartialSum(p, q, i, j, 1) == GfMul(p.At(i, 0), q.At(0, j));
  }

  /** A `short[2][2]` of the code. Every value the code stores in one is a nibble, so the
      cells are modelled as nibbles. */
  ghost predicate Is2x2(m: array2<Nibble>) {
    m.Length0 == 2 && m.Length1 == 2
  }

  /** The matrix an array holds. */
  ghost function Load(m: array2<Nibble>): (r: Matrix)
    reads m
    requires Is2x2(m)
    ensures forall i, j | 0 <= i < 2 && 0 <= j < 2 :: r.At(i, j) == m[i, j]
  {
    Matrix(m[0, 0], m[0, 1], m[1, 0], m[1, 1])
  }

  /** Matrices with the same entries are equal. */
  lemma MatrixExtensionality(m: Matrix, n: Matrix)
    requires forall i, j | 0 <= i < 2 && 0 <= j < 2 :: m.At(i, j) == n.At(i, j)
    ensures m == n
  {
    assert m.At(0, 0) == n.At(0, 0) && m.At(0, 1) == n.At(0, 1);
    assert m.At(1, 0) == n.At(1, 0) && m.At(1, 1) == n.At(1, 1);
  }

  /** Adding the `char` product of two array entries continues the running sum. */
  lemma AddProduct(p: Matrix, q: Matrix, i: nat, j: nat, k: nat, entry: Nibble, x: Nibble, y: Nibble, product: bv8)
    requires i < 2 && j < 2 && k < 2
    requires entry == PartialSum(p, q, i, j, k) && x == p.At(i, k) && y == q.At(k, j)
    requires product < 16 && product as Nibble == GfMul((x as bv8) as Nibble, (y as bv8) as Nibble)
    ensures entry ^ product as Nibble == PartialSum(p, q, i, j, k + 1)
  {
    assert (x as bv8) as Nibble == x && (y as bv8) as Nibble == y;
  }

  /** The innermost loop of `multiplyMatrices`: clears entry (i, j) of `result` and adds
      into it the products first[i][k] * second[k][j] for k = 0, 1. No other entry changes. */
  method AccumulateEntry(first: array2<Nibble>, second: array2<Nibble>, result: array2<Nibble>, i: nat, j: nat)
    requires Is2x2(first) && Is2x2(second) && Is2x2(result)
    requires result != first && result != second
    requires i < 2 && j < 2
    modifies result
    ensures result[i, j] == MatMul(Load(first), Load(second)).At(i, j)
    ensures forall i', j' | 0 <= i' < 2 && 0 <= j' < 2 && (i' != i || j' != j) ::
      result[i', j'] == old(result[i', j'])
  {
    ghost var p, q := Load(first), Load(second);
    result[i, j] := 0;
    for k := 0 to 2
      invariant forall i', j' | 0 <= i' < 2 && 0 <= j' < 2 && (i' != i || j' != j) ::
        result[i', j'] == old(result[i', j'])
      invariant result[i, j] == PartialSum(p, q, i, j, k)
    {
      var product := MultiplyGf(first[i, k] as bv8, second[k, j] as bv8);
      AddProduct(p, q, i, j, k, result[i, j], first[i, k], second[k, j], product);
      result[i, j] := result[i, j] ^ product as Nibble;
    }
    PartialSumComplete(p, q, i, j);
    MatMulEntry(p, q, i, j);
  }

  /** `multiplyMatrices`: fills `result` in place, entry by entry, with the product
      first * second over the field. The inputs are left as they were. */
  method MultiplyMatrices(first: array2<Nibble>, second: array2<Nibble>, result: array2<Nibble>)
    requires Is2x2(first) && Is2x2(second) && Is2x2(result)
    requires result != first && result != second
    modifies result
    ensures Load(result) == MatMul(Load(first), Load(second))
  {
    ghost var product := MatMul(Load(first), Load(second));
    for i := 0 to 2
      invariant forall i', j' | 0 <= i' < i && 0 <= j' < 2 :: result[i', j'] == product.At(i', j')
    {
      for j := 0 to 2
        invariant forall i', j' | 0 <= i' < i && 0 <= j' < 2 :: result[i', j'] == product.At(i', j')
        invariant forall j' | 0 <= j' < j :: result[i, j'] == product.At(i, j')
      {
        AccumulateEntry(first, second, result, i, j);
      }
    }
    MatrixExtensionality(Load(result), product);
  }
}
