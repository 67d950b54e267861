/**
 * Row-by-column matrix multiplication (the `multiplyMatrices` button).
 */
module Multiply {
  import opened Matrices

  /** Column c of B, top to bottom. */
  function Column(B: Matrix, c: nat): (col: seq<real>)
    requires IsRect(B) && c < Cols(B)
    ensures |col| == |B|
  {
    seq(|B|, k requires 0 <= k < |B| => B[k][c])
  }

  /**
   * The sum of the first k products u[j] * v[j], accumulated left to right
   * starting from 0, as the running `sum` of the multiplication loop does.
   */
  function DotPrefix(u: seq<real>, v: seq<real>, k: nat): (dot: real)
    requires k <= |u| && k <= |v|
  {
    if k == 0 then 0.0 else DotPrefix(u, v, k - 1) + u[k - 1] * v[k - 1]
  }

  /** The inner dimensions agree: A has as many columns as B has rows. */
  predicate Conformable(A: Matrix, B: Matrix) {
    IsRect(A) && IsRect(B) && Cols(A) == |B|
  }

  /** Reference definition of the product: rows(A) x cols(B), each cell a dot product. */
  function Product(A: Matrix, B: Matrix): (p: Matrix)
    requires Conformable(A, B)
    ensures IsRect(p) && |p| == |A| && (|A| > 0 ==> Cols(p) == Cols(B))
  {
    seq(|A|, r requires 0 <= r < |A| =>
      seq(Cols(B), c requires 0 <= c < Cols(B) => DotPrefix(A[r], Column(B, c), |B|)))
  }

  /**
   * The multiply button: NotBuilt when either operand has no rows, then
   * ShapeMismatch exactly when A's column count differs from B's row count,
   * otherwise the product, with each cell summed over k by a running total.
   */
  method MultiplyMatrices(A: Matrix, B: Matrix) returns (res: Result<Matrix>)
    requires IsRect(A) && IsRect(B)
    ensures |A| == 0 || |B| == 0 ==> res == Err(NotBuilt)
    ensures |A| > 0 && |B| > 0 ==> (res == Err(ShapeMismatch) <==> Cols(A) != |B|)
    ensures |A| > 0 && |B| > 0 && Cols(A) == |B| ==> res.Ok?
    ensures res.Ok? ==> Conformable(A, B) && |A| > 0 && |B| > 0 && res.value == Product(A, B)
    ensures res.Ok? ==> |res.value| == |A| && forall r, c | 0 <= r < |A| && 0 <= c < Cols(B) ::
                          |res.value[r]| == Cols(B) &&
                          res.value[r][c] == DotPrefix(A[r], Column(B, c), Cols(A))
  {
    if |A| == 0 || |B| == 0 {
      return Err(NotBuilt);
    }
    if |A[0]| != |B| {
      return Err(ShapeMismatch);
    }
    var result: Matrix := [];
    for r := 0 to |A|
      invariant |result| == r
      invariant forall i | 0 <= i < r :: result[i] == Product(A, B)[i]
    {
      var row: seq<real> := [];
      for c := 0 to |B[0]|
        invariant |row| == c
        invariant forall j | 0 <= j < c :: row[j] == DotPrefix(A[r], Column(B, j), |B|)
      {
        var sum := 0.0;
        for k := 0 to |A[0]|
          invariant sum == DotPrefix(A[r], Column(B, c), k)
        {
          sum := sum + A[r][k] * B[k][c];
        }
        row := row + [sum];
      }
      assert row == Product(A, B)[r];
      result := result + [row];
    }
    return Ok(result);
  }

  /** A dot product against a unit vector picks out one component. */
  lemma {:induction false} DotWithUnit(u: seq<real>, e: seq<real>, i: nat, k: nat)
    requires k <= |u| && k <= |e|
    requires forall j | 0 <= j < |e| :: e[j] == if j == i then 1.0 else 0.0
    ensures DotPrefix(u, e, k) == if i < k then u[i] else 0.0
  {
    if k > 0 {
      DotWithUnit(u, e, i, k - 1);
    }
  }

  /** The dot product is symmetric in its two vectors. */
  lemma {:induction false} DotSwap(u: seq<real>, v: seq<real>, k: nat)
    requires k <= |u| && k <= |v|
    ensures DotPrefix(u, v, k) == DotPrefix(v, u, k)
  {
    if k > 0 {
      DotSwap(u, v, k - 1);
    }
  }

  /** Multiplying on the right by the identity of matching size gives A back. */
  lemma RightIdentity(A: Matrix)
    requires IsRect(A)
    ensures Conformable(A, Identity(Cols(A))) && Product(A, Identity(Cols(A))) == A
  {
    var n := Cols(A);
    var I := Identity(n);
    assert Cols(I) == n;
    forall r | 0 <= r < |A| ensures Product(A, I)[r] == A[r] {
      forall c | 0 <= c < n ensures Product(A, I)[r][c] == A[r][c] {
        DotWithUnit(A[r], Column(I, c), c, n);
      }
    }
  }

  /** Multiplying on the left by the identity of matching size gives A back. */
  lemma LeftIdentity(A: Matrix)
    requires IsRect(A)
    ensures Conformable(Identity(|A|), A) && Product(Identity(|A|), A) == A
  {
    var n := |A|;
    var I := Identity(n);
    forall r | 0 <= r < n ensures Product(I, A)[r] == A[r] {
      forall c | 0 <= c < Cols(A) ensures Product(I, A)[r][c] == A[r][c] {
        DotSwap(I[r], Column(A, c), n);
        DotWithUnit(Column(A, c), I[r], r, n);
      }
    }
  }

  /** A dot product of length two, written out. */
  lemma DotOfTwo(u: seq<real>, v: seq<real>)
    requires |u| >= 2 && |v| >= 2
    ensures DotPrefix(u, v, 2) == u[0] * v[0] + u[1] * v[1]
  {
    assert DotPrefix(u, v, 1) == u[0] * v[0];
  }

  /** One cell of the product of two 2 x 2 matrices. */
  lemma ProductCell(A: Matrix, B: Matrix, r: nat, k: nat)
    requires IsSquare(A) && |A| == 2 && IsSquare(B) && |B| == 2 && r < 2 && k < 2
    ensures Conformable(A, B) && |Product(A, B)| == 2 && |Product(A, B)[r]| == 2
    ensures Product(A, B)[r][k] == A[r][0] * B[0][k] + A[r][1] * B[1][k]
  {
    var col := Column(B, k);
    assert Product(A, B)[r][k] == DotPrefix(A[r], col, 2);
    assert col[0] == B[0][k] && col[1] == B[1][k];
    DotOfTwo(A[r], col);
  }

  /** The product of two 2 x 2 matrices, written out cell by cell. */
  lemma ProductOfTwo(A: Matrix, B: Matrix)
    requires IsSquare(A) && |A| == 2 && IsSquare(B) && |B| == 2
    ensures Conformable(A, B)
    ensures Product(A, B) == [[A[0][0] * B[0][0] + A[0][1] * B[1][0], A[0][0] * B[0][1] + A[0][1] * B[1][1]],
                              [A[1][0] * B[0][0] + A[1][1] * B[1][0], A[1][0] * B[0][1] + A[1][1] * B[1][1]]]
  {
    ProductCell(A, B, 0, 0);
    ProductCell(A, B, 0, 1);
    ProductCell(A, B, 1, 0);
    ProductCell(A, B, 1, 1);
    WrittenOut(Product(A, B), A[0][0] * B[0][0] + A[0][1] * B[1][0], A[0][0] * B[0][1] + A[0][1] * B[1][1],
                              A[1][0] * B[0][0] + A[1][1] * B[1][0], A[1][0] * B[0][1] + A[1][1] * B[1][1]);
  }
}
