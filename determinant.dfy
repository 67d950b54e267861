/**
 * Minors and the recursive Laplace-expansion determinant (the `minor`,
 * `determinant` and `determinantMatrix` functions).
 */
module Determinants {
  import opened Matrices

  /**
   * The sequence with the element at index k filtered out; an index outside
   * the sequence filters out nothing.
   */
  function Without<T>(s: seq<T>, k: int): (w: seq<T>)
    ensures 0 <= k < |s| ==> |w| == |s| - 1
    ensures 0 <= k < |s| ==> forall i | 0 <= i < |w| :: w[i] == s[if i < k then i else i + 1]
    ensures !(0 <= k < |s|) ==> w == s
  {
    if 0 <= k < |s| then s[..k] + s[k + 1..] else s
  }

  /** The matrix with one row and then, in every remaining row, one column filtered out. */
  function Minor(m: Matrix, row: int, col: int): (mm: Matrix)
    ensures IsSquare(m) && 0 <= row < |m| && 0 <= col < |m| ==> IsSquare(mm) && |mm| == |m| - 1
  {
    var rows := Without(m, row);
    seq(|rows|, i requires 0 <= i < |rows| => Without(rows[i], col))
  }

  /**
   * The minor of an R x C matrix at in-range indices is (R-1) x (C-1), and the
   * remaining rows and columns keep their relative order.
   */
  lemma MinorEntry(m: Matrix, row: nat, col: nat)
    requires IsRect(m) && row < |m| && col < Cols(m)
    ensures |Minor(m, row, col)| == |m| - 1
    ensures forall i | 0 <= i < |m| - 1 :: |Minor(m, row, col)[i]| == Cols(m) - 1
    ensures forall i, j | 0 <= i < |m| - 1 && 0 <= j < Cols(m) - 1 ::
              Minor(m, row, col)[i][j] ==
              m[i + (if i >= row then 1 else 0)][j + (if j >= col then 1 else 0)]
  {
    forall i | 0 <= i < |m| - 1
      ensures |Minor(m, row, col)[i]| == Cols(m) - 1
      ensures forall j | 0 <= j < Cols(m) - 1 ::
                Minor(m, row, col)[i][j] == m[i + (if i >= row then 1 else 0)][j + (if j >= col then 1 else 0)]
    {
      MinorRow(m, row, col, i);
    }
  }

  /** Row i of a minor is source row i (or i + 1, past the deleted row) with one column filtered out. */
  lemma MinorRow(m: Matrix, row: nat, col: nat, i: nat)
    requires IsRect(m) && row < |m| && col < Cols(m) && i < |m| - 1
    ensures |Minor(m, row, col)| == |m| - 1
    ensures Minor(m, row, col)[i] == Without(m[i + (if i >= row then 1 else 0)], col)
    ensures |m[i + (if i >= row then 1 else 0)]| == Cols(m)
  {
    var rows := Without(m, row);
    assert rows[i] == m[i + (if i >= row then 1 else 0)];
  }

  /**
   * The determinant: the entry itself for 1 x 1, the cross product for 2 x 2,
   * and first-row Laplace expansion for anything larger.
   */
  function Det(m: Matrix): (det: real)
    requires IsSquare(m) && |m| >= 1
    decreases |m|, 1
  {
    if |m| == 1 then m[0][0]
    else if |m| == 2 then m[0][0] * m[1][1] - m[0][1] * m[1][0]
    else Expansion(m, |m|)
  }

  /** The first k terms of the first-row expansion, accumulated left to right from 0. */
  function Expansion(m: Matrix, k: nat): (sum: real)
    requires IsSquare(m) && |m| >= 2 && k <= |m|
    decreases |m|, 0, k
  {
    if k == 0 then 0.0
    else Expansion(m, k - 1) + ExpansionTerm(m, k - 1)
  }

  /** The term of column c: its sign, times m[0][c], times the determinant of the minor at (0, c). */
  function ExpansionTerm(m: Matrix, c: nat): (term: real)
    requires IsSquare(m) && |m| >= 2 && c < |m|
    decreases |m|, 0, 0
  {
    Sign(c) * m[0][c] * Det(Minor(m, 0, c))
  }

  /**
   * The determinant as computed: the two base cases, then a running total
   * over the columns of row 0 whose every term recurses on a minor.
   */
  method Determinant(m: Matrix) returns (det: real)
    requires IsSquare(m) && |m| >= 1
    ensures det == Det(m)
    decreases |m|
  {
    var n := |m|;
    if n == 1 {
      return m[0][0];
    }
    if n == 2 {
      return m[0][0] * m[1][1] - m[0][1] * m[1][0];
    }
    det := 0.0;
    for c := 0 to n
      invariant det == Expansion(m, c)
    {
      var sub := Determinant(Minor(m, 0, c));
      ExpansionStep(m, c, sub);
      det := det + Sign(c) * m[0][c] * sub;
    }
  }

  /** One more column of the expansion adds that column's term. */
  lemma ExpansionStep(m: Matrix, c: nat, sub: real)
    requires IsSquare(m) && |m| >= 2 && c < |m|
    requires IsSquare(Minor(m, 0, c)) && |Minor(m, 0, c)| >= 1 && sub == Det(Minor(m, 0, c))
    ensures Expansion(m, c + 1) == Expansion(m, c) + Sign(c) * m[0][c] * sub
  {
  }

  /**
   * The determinant button: NotBuilt when the matrix has no rows, NotSquare
   * when its row count differs from its first row's length, otherwise the
   * determinant.
   */
  method DeterminantMatrix(m: Matrix) returns (res: Result<real>)
    requires IsRect(m)
    ensures res == Err(NotBuilt) <==> |m| == 0
    ensures res == Err(NotSquare) <==> |m| > 0 && Cols(m) != |m|
    ensures res.Ok? <==> |m| > 0 && IsSquare(m)
    ensures res.Ok? ==> IsSquare(m) && |m| > 0 && res.value == Det(m)
  {
    if |m| == 0 {
      return Err(NotBuilt);
    }
    if |m| != |m[0]| {
      return Err(NotSquare);
    }
    var det := Determinant(m);
    return Ok(det);
  }

  /** The 2 x 2 shortcut is the first-row expansion over 1 x 1 minors. */
  lemma TwoByTwoIsExpansion(m: Matrix)
    requires IsSquare(m) && |m| == 2
    ensures Det(m) == Expansion(m, 2)
  {
    MinorEntry(m, 0, 0);
    MinorEntry(m, 0, 1);
    assert Det(Minor(m, 0, 0)) == m[1][1];
    assert Det(Minor(m, 0, 1)) == m[1][0];
    assert Expansion(m, 1) == m[0][0] * m[1][1];
  }

  /** For every size from 2 up, the determinant is the first-row expansion. */
  lemma DetIsExpansion(m: Matrix)
    requires IsSquare(m) && |m| >= 2
    ensures Det(m) == Expansion(m, |m|)
  {
    if |m| == 2 {
      TwoByTwoIsExpansion(m);
    }
  }

  /** Deleting the first row and column of an identity leaves the next smaller identity. */
  lemma MinorOfIdentity(n: nat)
    requires n >= 1
    ensures Minor(Identity(n), 0, 0) == Identity(n - 1)
  {
    var I := Identity(n);
    MinorEntry(I, 0, 0);
    var mm := Minor(I, 0, 0);
    forall i | 0 <= i < n - 1 ensures mm[i] == Identity(n - 1)[i] {
      assert forall j | 0 <= j < n - 1 :: mm[i][j] == I[i + 1][j + 1];
    }
  }

  /** In the expansion of an identity only column 0 contributes. */
  lemma {:induction false} ExpansionOfIdentity(n: nat, k: nat)
    requires 2 <= n && 1 <= k <= n
    ensures Expansion(Identity(n), k) == Det(Identity(n - 1))
  {
    if k == 1 {
      MinorOfIdentity(n);
    } else {
      ExpansionOfIdentity(n, k - 1);
      assert Identity(n)[0][k - 1] == 0.0;
    }
  }

  /** The identity of every size from 1 up has determinant 1. */
  lemma {:induction false} DetOfIdentity(n: nat)
    requires n >= 1
    ensures Det(Identity(n)) == 1.0
  {
    if n >= 2 {
      DetIsExpansion(Identity(n));
      ExpansionOfIdentity(n, n);
      DetOfIdentity(n - 1);
    }
  }

  /** A matrix whose first row is all zero has determinant 0, so it has no inverse. */
  lemma ZeroRowIsSingular(m: Matrix)
    requires IsSquare(m) && |m| >= 1
    requires forall c | 0 <= c < |m| :: m[0][c] == 0.0
    ensures Det(m) == 0.0
  {
    if |m| >= 3 {
      DetIsExpansion(m);
      ExpansionOfZeroRow(m, |m|);
    }
  }

  /** Every term of the expansion along an all-zero first row vanishes. */
  lemma {:induction false} ExpansionOfZeroRow(m: Matrix, k: nat)
    requires IsSquare(m) && |m| >= 2 && k <= |m|
    requires forall c | 0 <= c < |m| :: m[0][c] == 0.0
    ensures Expansion(m, k) == 0.0
  {
    if k > 0 {
      ExpansionOfZeroRow(m, k - 1);
      assert m[0][k - 1] == 0.0;
    }
  }
}
