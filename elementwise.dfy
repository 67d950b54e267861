/**
 * Element-wise addition and subtraction of two matrices of the same shape
 * (the `addMatrices` and `subtractMatrices` buttons).
 */
module Elementwise {
  import opened Matrices

  /** Both operands have the same row count and the same column count. */
  predicate SameShape(A: Matrix, B: Matrix) {
    IsRect(A) && IsRect(B) && |A| == |B| && Cols(A) == Cols(B)
  }

  /** Reference definition of the sum: cell by cell, in A's shape. */
  function Sum(A: Matrix, B: Matrix): (s: Matrix)
    requires SameShape(A, B)
    ensures SameShape(s, A)
  {
    seq(|A|, r requires 0 <= r < |A| => seq(Cols(A), c requires 0 <= c < Cols(A) => A[r][c] + B[r][c]))
  }

  /** Reference definition of the difference: cell by cell, in A's shape. */
  function Difference(A: Matrix, B: Matrix): (d: Matrix)
    requires SameShape(A, B)
    ensures SameShape(d, A)
  {
    seq(|A|, r requires 0 <= r < |A| => seq(Cols(A), c requires 0 <= c < Cols(A) => A[r][c] - B[r][c]))
  }

  /** Every cell negated. */
  function Negated(A: Matrix): (n: Matrix)
    requires IsRect(A)
    ensures SameShape(n, A)
  {
    seq(|A|, r requires 0 <= r < |A| => seq(Cols(A), c requires 0 <= c < Cols(A) => -A[r][c]))
  }

  /**
   * The add button: NotBuilt when either operand has no rows, then ShapeMismatch
   * when the row counts or the first rows' lengths differ, otherwise the sum,
   * built row by row and cell by cell.
   */
  method AddMatrices(A: Matrix, B: Matrix) returns (res: Result<Matrix>)
    requires IsRect(A) && IsRect(B)
    ensures |A| == 0 || |B| == 0 ==> res == Err(NotBuilt)
    ensures |A| > 0 && |B| > 0 ==> (res == Err(ShapeMismatch) <==> !SameShape(A, B))
    ensures |A| > 0 && |B| > 0 && SameShape(A, B) ==> res.Ok?
    ensures res.Ok? ==> SameShape(A, B) && |A| > 0 && res.value == Sum(A, B)
    ensures res.Ok? ==> forall r, c | 0 <= r < |A| && 0 <= c < Cols(A) ::
                          |res.value[r]| == Cols(A) && res.value[r][c] == A[r][c] + B[r][c]
  {
    if |A| == 0 || |B| == 0 {
      return Err(NotBuilt);
    }
    if |A| != |B| || |A[0]| != |B[0]| {
      return Err(ShapeMismatch);
    }
    var result: Matrix := [];
    for r := 0 to |A|
      invariant |result| == r
      invariant forall i | 0 <= i < r :: result[i] == Sum(A, B)[i]
    {
      var row: seq<real> := [];
      for c := 0 to |A[0]|
        invariant |row| == c
        invariant forall j | 0 <= j < c :: row[j] == A[r][j] + B[r][j]
      {
        row := row + [A[r][c] + B[r][c]];
      }
      assert row == Sum(A, B)[r];
      result := result + [row];
    }
    return Ok(result);
  }

  /**
   * The subtract button: the same gates as addition, then the cell-by-cell
   * difference A - B.
   */
  method SubtractMatrices(A: Matrix, B: Matrix) returns (res: Result<Matrix>)
    requires IsRect(A) && IsRect(B)
    ensures |A| == 0 || |B| == 0 ==> res == Err(NotBuilt)
    ensures |A| > 0 && |B| > 0 ==> (res == Err(ShapeMismatch) <==> !SameShape(A, B))
    ensures |A| > 0 && |B| > 0 && SameShape(A, B) ==> res.Ok?
    ensures res.Ok? ==> SameShape(A, B) && |A| > 0 && res.value == Difference(A, B)
    ensures res.Ok? ==> forall r, c | 0 <= r < |A| && 0 <= c < Cols(A) ::
                          |res.value[r]| == Cols(A) && res.value[r][c] == A[r][c] - B[r][c]
  {
    if |A| == 0 || |B| == 0 {
      return Err(NotBuilt);
    }
    if |A| != |B| || |A[0]| != |B[0]| {
      return Err(ShapeMismatch);
    }
    var result: Matrix := [];
    for r := 0 to |A|
      invariant |result| == r
      invariant forall i | 0 <= i < r :: result[i] == Difference(A, B)[i]
    {
      var row: seq<real> := [];
      for c := 0 to |A[0]|
        invariant |row| == c
        invariant forall j | 0 <= j < c :: row[j] == A[r][j] - B[r][j]
      {
        row := row + [A[r][c] - B[r][c]];
      }
      assert row == Difference(A, B)[r];
      result := result + [row];
    }
    return Ok(result);
  }

  /** Addition does not depend on the order of its operands. */
  lemma AddCommutes(A: Matrix, B: Matrix)
    requires SameShape(A, B)
    ensures Sum(A, B) == Sum(B, A)
  {
    forall r | 0 <= r < |A| ensures Sum(A, B)[r] == Sum(B, A)[r] {
      assert forall c | 0 <= c < Cols(A) :: Sum(A, B)[r][c] == Sum(B, A)[r][c];
    }
  }

  /** Swapping the operands of a subtraction negates the result. */
  lemma SubtractAntiCommutes(A: Matrix, B: Matrix)
    requires SameShape(A, B)
    ensures Difference(A, B) == Negated(Difference(B, A))
  {
    var D := Difference(B, A);
    assert IsRect(D);
    forall r | 0 <= r < |A| ensures Difference(A, B)[r] == Negated(D)[r] {
      assert forall c | 0 <= c < Cols(A) :: Difference(A, B)[r][c] == Negated(D)[r][c];
    }
  }

  /** Subtracting B undoes adding B. */
  lemma SubtractUndoesAdd(A: Matrix, B: Matrix)
    requires SameShape(A, B)
    ensures SameShape(Sum(A, B), B) && Difference(Sum(A, B), B) == A
  {
    var S := Sum(A, B);
    assert SameShape(S, B);
    forall r | 0 <= r < |A| ensures Difference(S, B)[r] == A[r] {
      assert forall c | 0 <= c < Cols(A) :: Difference(S, B)[r][c] == A[r][c];
    }
  }
}
