/**
 * Transposition (the `transposeMatrix` buttons). The loop is shared with the
 * inverse, which transposes its cofactor matrix the same way.
 */
module Transposition {
  import opened Matrices

  /** Reference definition: row c of the result is column c of m. */
  function Transposed(m: Matrix): (t: Matrix)
    requires IsRect(m)
    ensures IsRect(t) && |t| == Cols(m) && (Cols(m) > 0 ==> Cols(t) == |m|)
  {
    seq(Cols(m), c requires 0 <= c < Cols(m) => seq(|m|, r requires 0 <= r < |m| => m[r][c]))
  }

  /**
   * Builds the transpose one result row at a time: result row c collects
   * m[r][c] for r in order.
   */
  method Transpose(m: Matrix) returns (t: Matrix)
    requires IsRect(m)
    ensures t == Transposed(m)
    ensures |t| == Cols(m) && forall c | 0 <= c < |t| :: |t[c]| == |m|
    ensures forall r, c | 0 <= r < |m| && 0 <= c < Cols(m) :: t[c][r] == m[r][c]
  {
    t := [];
    for c := 0 to Cols(m)
      invariant |t| == c
      invariant forall i | 0 <= i < c :: t[i] == Transposed(m)[i]
    {
      var row: seq<real> := [];
      for r := 0 to |m|
        invariant |row| == r
        invariant forall j | 0 <= j < r :: row[j] == m[j][c]
      {
        row := row + [m[r][c]];
      }
      assert row == Transposed(m)[c];
      t := t + [row];
    }
  }

  /**
   * The transpose button: NotBuilt when the matrix has no rows, otherwise its
   * transpose, which need not be square.
   */
  method TransposeMatrix(m: Matrix) returns (res: Result<Matrix>)
    requires IsRect(m)
    ensures res.Err? <==> |m| == 0
    ensures res.Err? ==> res.error == NotBuilt
    ensures res.Ok? ==> res.value == Transposed(m)
    ensures res.Ok? ==> |res.value| == Cols(m) &&
                        forall r, c | 0 <= r < |m| && 0 <= c < Cols(m) ::
                          |res.value[c]| == |m| && res.value[c][r] == m[r][c]
  {
    if |m| == 0 {
      return Err(NotBuilt);
    }
    var t := Transpose(m);
    return Ok(t);
  }

  /** Transposing twice gives back any matrix with at least one column. */
  lemma TransposeInvolution(m: Matrix)
    requires IsRect(m) && Cols(m) > 0
    ensures Transposed(Transposed(m)) == m
  {
    var t := Transposed(m);
    assert Cols(t) == |m|;
    forall r | 0 <= r < |m| ensures Transposed(t)[r] == m[r] {
      assert forall c | 0 <= c < Cols(m) :: Transposed(t)[r][c] == m[r][c];
    }
  }

  /** A matrix with rows but no columns transposes to the empty matrix, so the involution needs a column. */
  lemma TransposeLosesEmptyRows()
    ensures Transposed(Transposed([[]])) == [] != [[]]
  {
  }
}
