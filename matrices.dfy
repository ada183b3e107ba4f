/**
  Square matrices over exact reals and their ordinary (not elementwise) powers.
  These stand in for the numpy arrays handed to the clustering engine and for
  `np.linalg.matrix_power`, with exact arithmetic in place of floating point.
 */
module Matrices {

  /** A matrix as a sequence of rows. */
  type Matrix = seq<seq<real>>

  /** Every row has as many entries as the matrix has rows. */
  predicate IsSquare(M: Matrix) {
    forall i :: 0 <= i < |M| ==> |M[i]| == |M|
  }

  /** The partial inner product: the sum of A[i][t] * B[t][j] for t in [0, l). */
  function Dot(A: Matrix, B: Matrix, i: nat, j: nat, l: nat): real
    requires IsSquare(A) && IsSquare(B) && |A| == |B|
    requires i < |A| && j < |A| && l <= |A|
  {
    if l == 0 then 0.0 else Dot(A, B, i, j, l - 1) + A[i][l - 1] * B[l - 1][j]
  }

  /** The matrix product A * B of two n-by-n matrices. */
  function Mul(A: Matrix, B: Matrix): (P: Matrix)
    requires IsSquare(A) && IsSquare(B) && |A| == |B|
    ensures IsSquare(P) && |P| == |A|
  {
    seq(|A|, i requires 0 <= i < |A| =>
      seq(|A|, j requires 0 <= j < |A| => Dot(A, B, i, j, |A|)))
  }

  /**
    The m-th power of M for m >= 1: M itself for m = 1, and M^(m-1) * M after
    that. It is again a square matrix of the same size, so its cells can be
    scanned with the same row and column bounds as M.
   */
  function Power(M: Matrix, m: nat): (P: Matrix)
    requires IsSquare(M) && m >= 1
    ensures IsSquare(P) && |P| == |M|
    decreases m
  {
    if m == 1 then M else Mul(Power(M, m - 1), M)
  }
}
