/**
 * The value model shared by every operation of the matrix calculator: a matrix
 * is a sequence of rows of exact real entries, and every user-facing operation
 * either produces a value or one of four kinds of diagnostic.
 */
module Matrices {

  /** Rows of cells; only the first row's length is ever consulted by the calculator. */
  type Matrix = seq<seq<real>>

  /** The column count as the calculator reads it: the length of the first row. */
  function Cols(m: Matrix): (n: nat) {
    if |m| == 0 then 0 else |m[0]|
  }

  /** Every row has as many cells as the first one. */
  predicate IsRect(m: Matrix) {
    forall r | 0 <= r < |m| :: |m[r]| == Cols(m)
  }

  /** Rectangular with as many columns as rows. */
  predicate IsSquare(m: Matrix) {
    forall r | 0 <= r < |m| :: |m[r]| == |m|
  }

  /**
   * The kinds of diagnostic the calculator shows instead of a result; the
   * operation that reports one determines its wording.
   */
  datatype Error =
    | NotBuilt       // an operand has no rows: its grid was never generated, or was generated with no rows or no columns
    | ShapeMismatch  // operand shapes do not fit the operation
    | NotSquare      // determinant or inverse of a non-square matrix
    | Singular       // inverse of a matrix whose determinant is exactly zero

  datatype Result<T> = Ok(value: T) | Err(error: Error)

  /** The cofactor sign: +1 for an even position, -1 for an odd one. */
  function Sign(k: nat): (s: real) {
    if k % 2 == 0 then 1.0 else -1.0
  }

  /** The n-by-n identity matrix. */
  function Identity(n: nat): (id: Matrix)
    ensures IsSquare(id) && |id| == n
  {
    seq(n, r => seq(n, c => if r == c then 1.0 else 0.0))
  }

  /** A 2 x 2 matrix is the display of its four cells. */
  lemma WrittenOut(P: Matrix, a: real, b: real, c: real, d: real)
    requires |P| == 2 && |P[0]| == 2 && |P[1]| == 2
    requires P[0][0] == a && P[0][1] == b && P[1][0] == c && P[1][1] == d
    ensures P == [[a, b], [c, d]]
  {
    assert P[0] == [a, b];
    assert P[1] == [c, d];
  }

  /** The 2 x 2 identity, written out. */
  lemma IdentityTwo()
    ensures Identity(2) == [[1.0, 0.0], [0.0, 1.0]]
  {
    assert Identity(2)[0] == [1.0, 0.0];
    assert Identity(2)[1] == [0.0, 1.0];
  }
}
