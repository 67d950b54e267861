/**
 * The cofactor/adjugate inverse (the `inverse` and `inverseMatrix` functions).
 */
module Inverse {
  import opened Matrices
  import opened Transposition
  import opened Determinants
  import opened Multiply

  /** The signed determinant of the minor at (r, c). */
  function Cofactor(m: Matrix, r: nat, c: nat): (cof: real)
    requires IsSquare(m) && |m| >= 2 && r < |m| && c < |m|
  {
    Sign(r + c) * Det(Minor(m, r, c))
  }

  /** The matrix of all cofactors, in place. */
  function CofactorMatrix(m: Matrix): (cm: Matrix)
    requires IsSquare(m) && |m| >= 2
    ensures IsSquare(cm) && |cm| == |m|
  {
    seq(|m|, r requires 0 <= r < |m| => seq(|m|, c requires 0 <= c < |m| => Cofactor(m, r, c)))
  }

  /** The adjugate: the transposed cofactor matrix. */
  function Adjugate(m: Matrix): (adj: Matrix)
    requires IsSquare(m) && |m| >= 2
    ensures IsSquare(adj) && |adj| == |m|
  {
    Transposed(CofactorMatrix(m))
  }

  /** Every cell divided by d. */
  function DividedBy(M: Matrix, d: real): (q: Matrix)
    requires d != 0.0
    ensures |q| == |M| && forall r | 0 <= r < |M| :: |q[r]| == |M[r]|
  {
    seq(|M|, r requires 0 <= r < |M| => seq(|M[r]|, c requires 0 <= c < |M[r]| => M[r][c] / d))
  }

  /**
   * Reference definition of the inverse: the reciprocal of the single entry
   * for a 1 x 1 matrix, the adjugate divided by the determinant otherwise.
   */
  function InverseOf(m: Matrix): (inv: Matrix)
    requires IsSquare(m) && |m| >= 1 && Det(m) != 0.0
    ensures IsSquare(inv) && |inv| == |m|
  {
    if |m| == 1 then [[1.0 / m[0][0]]] else DividedBy(Adjugate(m), Det(m))
  }

  /** The first loop of the inverse: every cofactor, row by row. */
  method Cofactors(m: Matrix) returns (cofactors: Matrix)
    requires IsSquare(m) && |m| >= 2
    ensures cofactors == CofactorMatrix(m)
  {
    var n := |m|;
    cofactors := [];
    for r := 0 to n
      invariant |cofactors| == r
      invariant forall i | 0 <= i < r :: cofactors[i] == CofactorMatrix(m)[i]
    {
      var row: seq<real> := [];
      for c := 0 to n
        invariant |row| == c
        invariant forall j | 0 <= j < c :: row[j] == Cofactor(m, r, j)
      {
        var minorMat := Minor(m, r, c);
        var sub := Determinant(minorMat);
        assert Sign(r + c) * sub == Cofactor(m, r, c);
        row := row + [Sign(r + c) * sub];
      }
      assert row == CofactorMatrix(m)[r];
      cofactors := cofactors + [row];
    }
  }

  /** The last loop of the inverse: every cell divided by d. */
  method DivideCells(M: Matrix, d: real) returns (q: Matrix)
    requires IsRect(M) && d != 0.0
    ensures q == DividedBy(M, d)
    ensures |q| == |M| && forall r, c | 0 <= r < |M| && 0 <= c < Cols(M) ::
              |q[r]| == Cols(M) && q[r][c] * d == M[r][c]
  {
    q := [];
    for r := 0 to |M|
      invariant |q| == r
      invariant forall i | 0 <= i < r :: q[i] == DividedBy(M, d)[i]
    {
      var row: seq<real> := [];
      for c := 0 to Cols(M)
        invariant |row| == c
        invariant forall j | 0 <= j < c :: row[j] == M[r][j] / d
      {
        row := row + [M[r][c] / d];
      }
      assert row == DividedBy(M, d)[r];
      q := q + [row];
    }
  }

  /**
   * The inverse of a matrix with non-zero determinant: the reciprocal of the
   * single entry for 1 x 1; otherwise the cofactor matrix, transposed, with
   * every cell divided by the determinant.
   */
  method Inverse(m: Matrix) returns (inv: Matrix)
    requires IsSquare(m) && |m| >= 1 && Det(m) != 0.0
    ensures inv == InverseOf(m)
  {
    var n := |m|;
    var det := Determinant(m);
    if n == 1 {
      return [[1.0 / m[0][0]]];
    }
    var cofactors := Cofactors(m);
    var cofactorsT := Transpose(cofactors);
    inv := DivideCells(cofactorsT, det);
  }

  /** Cell (r, c) of the inverse of an n x n matrix, n >= 2, is cofactor (c, r) over the determinant. */
  lemma InverseEntry(m: Matrix, r: nat, c: nat)
    requires IsSquare(m) && |m| >= 2 && Det(m) != 0.0 && r < |m| && c < |m|
    ensures InverseOf(m)[r][c] == Cofactor(m, c, r) / Det(m)
  {
    assert Adjugate(m)[r][c] == CofactorMatrix(m)[c][r];
  }

  /**
   * The inverse button: NotBuilt when the matrix has no rows, NotSquare when
   * its row count differs from its first row's length, Singular exactly when
   * the determinant is zero, otherwise the inverse.
   */
  method InverseMatrix(m: Matrix) returns (res: Result<Matrix>)
    requires IsRect(m)
    ensures res == Err(NotBuilt) <==> |m| == 0
    ensures res == Err(NotSquare) <==> |m| > 0 && Cols(m) != |m|
    ensures res == Err(Singular) <==> |m| > 0 && IsSquare(m) && Det(m) == 0.0
    ensures |m| > 0 && IsSquare(m) && Det(m) != 0.0 ==> res.Ok?
    ensures res.Ok? ==> IsSquare(m) && |m| > 0 && Det(m) != 0.0 && res.value == InverseOf(m)
  {
    if |m| == 0 {
      return Err(NotBuilt);
    }
    if |m| != |m[0]| {
      return Err(NotSquare);
    }
    var det := Determinant(m);
    if det == 0.0 {
      return Err(Singular);
    }
    var inv := Inverse(m);
    return Ok(inv);
  }

  /** A 1 x 1 inverse is a two-sided inverse. */
  lemma OneByOneInverse(m: Matrix)
    requires IsSquare(m) && |m| == 1 && Det(m) != 0.0
    ensures Conformable(m, InverseOf(m)) && Product(m, InverseOf(m)) == Identity(1)
    ensures Conformable(InverseOf(m), m) && Product(InverseOf(m), m) == Identity(1)
  {
    ReciprocalProducts(m, InverseOf(m));
  }

  /** The products of a non-zero 1 x 1 matrix with the matrix of its reciprocal. */
  lemma ReciprocalProducts(m: Matrix, inv: Matrix)
    requires IsSquare(m) && |m| == 1 && m[0][0] != 0.0 && inv == [[1.0 / m[0][0]]]
    ensures Conformable(m, inv) && Product(m, inv) == Identity(1)
    ensures Conformable(inv, m) && Product(inv, m) == Identity(1)
  {
    var P := Product(m, inv);
    var Q := Product(inv, m);
    assert P[0][0] == DotPrefix(m[0], Column(inv, 0), 1) == m[0][0] * (1.0 / m[0][0]) == 1.0;
    assert Q[0][0] == DotPrefix(inv[0], Column(m, 0), 1) == (1.0 / m[0][0]) * m[0][0] == 1.0;
    assert P[0] == Identity(1)[0] && Q[0] == Identity(1)[0];
  }

  /** A cofactor of a 2 x 2 matrix is the signed entry opposite it. */
  lemma TwoByTwoCofactor(m: Matrix, r: nat, c: nat)
    requires IsSquare(m) && |m| == 2 && r < 2 && c < 2
    ensures Cofactor(m, r, c) == Sign(r + c) * m[1 - r][1 - c]
  {
    MinorEntry(m, r, c);
  }

  /** The inverse of a 2 x 2 matrix, cell by cell. */
  lemma TwoByTwoInverseEntries(m: Matrix)
    requires IsSquare(m) && |m| == 2 && Det(m) != 0.0
    ensures var d := m[0][0] * m[1][1] - m[0][1] * m[1][0];
            d != 0.0 &&
            InverseOf(m) == [[m[1][1] / d, -m[0][1] / d], [-m[1][0] / d, m[0][0] / d]]
  {
    var inv := InverseOf(m);
    forall r, c | 0 <= r < 2 && 0 <= c < 2 ensures inv[r][c] == Cofactor(m, c, r) / Det(m) {
      InverseEntry(m, r, c);
    }
    AdjugateOverDeterminant(m, inv, Det(m));
  }

  /** Assembles a 2 x 2 matrix whose cells are the transposed cofactors over D. */
  lemma AdjugateOverDeterminant(m: Matrix, inv: Matrix, D: real)
    requires IsSquare(m) && |m| == 2 && D != 0.0 && IsSquare(inv) && |inv| == 2
    requires forall r, c | 0 <= r < 2 && 0 <= c < 2 :: inv[r][c] == Cofactor(m, c, r) / D
    ensures inv == [[m[1][1] / D, -m[0][1] / D], [-m[1][0] / D, m[0][0] / D]]
  {
    TwoByTwoCofactor(m, 0, 0);
    TwoByTwoCofactor(m, 0, 1);
    TwoByTwoCofactor(m, 1, 0);
    TwoByTwoCofactor(m, 1, 1);
    assert inv[0][0] == m[1][1] / D && inv[0][1] == -m[0][1] / D;
    assert inv[1][0] == -m[1][0] / D && inv[1][1] == m[0][0] / D;
    WrittenOut(inv, m[1][1] / D, -m[0][1] / D, -m[1][0] / D, m[0][0] / D);
  }

  /** A 2 x 2 inverse is a right inverse and a left inverse. */
  lemma TwoByTwoInverse(m: Matrix)
    requires IsSquare(m) && |m| == 2 && Det(m) != 0.0
    ensures Conformable(m, InverseOf(m)) && Product(m, InverseOf(m)) == Identity(2)
    ensures Conformable(InverseOf(m), m) && Product(InverseOf(m), m) == Identity(2)
  {
    TwoByTwoInverseEntries(m);
    AdjugateProducts(m, InverseOf(m));
  }

  /** Multiplying by a fraction over D multiplies the numerator. */
  lemma MulDiv(x: real, y: real, D: real)
    requires D != 0.0
    ensures x * (y / D) == (x * y) / D
    ensures (y / D) * x == (y * x) / D
  {
  }

  /** Two fractions over D add up over D. */
  lemma AddDiv(x: real, y: real, D: real)
    requires D != 0.0
    ensures x / D + y / D == (x + y) / D
  {
  }

  /** Negating one factor negates the product. */
  lemma MulNeg(x: real, y: real)
    ensures x * -y == -(x * y) && -y * x == -(y * x)
  {
  }

  /** The diagonal cells of a 2 x 2 matrix times its adjugate over D = ad - bc. */
  lemma CrossOne(a: real, b: real, c: real, d: real, D: real)
    requires D == a * d - b * c && D != 0.0
    ensures a * (d / D) + b * (-c / D) == 1.0 && (d / D) * a + (-b / D) * c == 1.0
  {
    MulDiv(a, d, D);
    MulDiv(b, -c, D);
    AddDiv(a * d, b * -c, D);
    MulDiv(a, d, D);
    MulDiv(c, -b, D);
    AddDiv(d * a, -b * c, D);
    MulNeg(b, c);
    assert D / D == 1.0;
  }

  /** The off-diagonal cells of a 2 x 2 matrix times its adjugate over D. */
  lemma CrossZero(a: real, b: real, D: real)
    requires D != 0.0
    ensures a * (-b / D) + b * (a / D) == 0.0 && (-b / D) * a + (a / D) * b == 0.0
  {
    MulDiv(a, -b, D);
    MulDiv(b, a, D);
    AddDiv(a * -b, b * a, D);
    MulNeg(a, b);
  }

  /** The products of a 2 x 2 matrix with its adjugate divided by its determinant. */
  lemma AdjugateProducts(m: Matrix, inv: Matrix)
    requires IsSquare(m) && |m| == 2
    requires var d := m[0][0] * m[1][1] - m[0][1] * m[1][0];
             d != 0.0 && inv == [[m[1][1] / d, -m[0][1] / d], [-m[1][0] / d, m[0][0] / d]]
    ensures Conformable(m, inv) && Product(m, inv) == Identity(2)
    ensures Conformable(inv, m) && Product(inv, m) == Identity(2)
  {
    var a, b, c, d := m[0][0], m[0][1], m[1][0], m[1][1];
    var D := a * d - b * c;
    WrittenOut(m, a, b, c, d);
    WrittenOut(inv, d / D, -b / D, -c / D, a / D);
    IdentityTwo();
    RightProduct(a, b, c, d, D);
    LeftProduct(a, b, c, d, D);
  }

  /** [[a, b], [c, d]] times its adjugate over D = ad - bc is the identity. */
  lemma RightProduct(a: real, b: real, c: real, d: real, D: real)
    requires D == a * d - b * c && D != 0.0
    ensures Conformable([[a, b], [c, d]], [[d / D, -b / D], [-c / D, a / D]])
    ensures Product([[a, b], [c, d]], [[d / D, -b / D], [-c / D, a / D]]) == [[1.0, 0.0], [0.0, 1.0]]
  {
    var m: Matrix := [[a, b], [c, d]];
    var inv: Matrix := [[d / D, -b / D], [-c / D, a / D]];
    ProductOfTwo(m, inv);
    CrossOne(a, b, c, d, D);
    CrossZero(a, b, D);
    CrossZero(d, c, D);
    CrossOne(d, c, b, a, D);
    WrittenOut(Product(m, inv), 1.0, 0.0, 0.0, 1.0);
  }

  /** The adjugate of [[a, b], [c, d]] over D = ad - bc, times the matrix, is the identity. */
  lemma LeftProduct(a: real, b: real, c: real, d: real, D: real)
    requires D == a * d - b * c && D != 0.0
    ensures Conformable([[d / D, -b / D], [-c / D, a / D]], [[a, b], [c, d]])
    ensures Product([[d / D, -b / D], [-c / D, a / D]], [[a, b], [c, d]]) == [[1.0, 0.0], [0.0, 1.0]]
  {
    var m: Matrix := [[a, b], [c, d]];
    var inv: Matrix := [[d / D, -b / D], [-c / D, a / D]];
    ProductOfTwo(inv, m);
    CrossOne(a, b, c, d, D);
    CrossZero(d, b, D);
    CrossZero(a, c, D);
    CrossOne(d, c, b, a, D);
    WrittenOut(Product(inv, m), 1.0, 0.0, 0.0, 1.0);
  }

  /** Regrouping a product of three factors. */
  lemma Regroup(s: real, x: real, y: real)
    ensures s * x * y == x * (s * y)
  {
  }

  /** The first k terms of the determinant's expansion pair row 0 with the cofactors of row 0. */
  lemma {:induction false} ExpansionIsCofactorSum(m: Matrix, k: nat)
    requires IsSquare(m) && |m| >= 2 && k <= |m|
    ensures Expansion(m, k) == DotPrefix(m[0], CofactorMatrix(m)[0], k)
  {
    if k > 0 {
      ExpansionIsCofactorSum(m, k - 1);
      var y := Det(Minor(m, 0, k - 1));
      assert CofactorMatrix(m)[0][k - 1] == Sign(k - 1) * y;
      Regroup(Sign(k - 1), m[0][k - 1], y);
    }
  }

  /** Dividing every component of one vector by D divides its dot products by D. */
  lemma {:induction false} DotWithDividedVector(u: seq<real>, v: seq<real>, w: seq<real>, D: real, k: nat)
    requires D != 0.0 && k <= |u| && k <= |v| && k <= |w|
    requires forall j | 0 <= j < k :: v[j] == w[j] / D
    ensures DotPrefix(u, v, k) == DotPrefix(u, w, k) / D
  {
    if k > 0 {
      DotWithDividedVector(u, v, w, D, k - 1);
      MulDiv(u[k - 1], w[k - 1], D);
      AddDiv(DotPrefix(u, w, k - 1), u[k - 1] * w[k - 1], D);
    }
  }

  /** Entry (0, 0) of m times its inverse is 1, for every size. */
  lemma InverseFirstDiagonal(m: Matrix)
    requires IsSquare(m) && |m| >= 1 && Det(m) != 0.0
    ensures Conformable(m, InverseOf(m)) && Product(m, InverseOf(m))[0][0] == 1.0
  {
    if |m| == 1 {
      OneByOneInverse(m);
    } else {
      var inv := InverseOf(m);
      var cof := CofactorMatrix(m)[0];
      InverseFirstColumn(m);
      ExpansionIsCofactorSum(m, |m|);
      DetIsExpansion(m);
      DotOverItself(m[0], Column(inv, 0), cof, Det(m));
      assert Product(m, inv)[0][0] == DotPrefix(m[0], Column(inv, 0), |m|);
    }
  }

  /** Column 0 of the inverse is row 0 of the cofactor matrix over the determinant. */
  lemma InverseFirstColumn(m: Matrix)
    requires IsSquare(m) && |m| >= 2 && Det(m) != 0.0
    ensures IsRect(InverseOf(m)) && Cols(InverseOf(m)) == |m|
    ensures |Column(InverseOf(m), 0)| == |m| && |CofactorMatrix(m)[0]| == |m|
    ensures forall j | 0 <= j < |m| :: Column(InverseOf(m), 0)[j] == CofactorMatrix(m)[0][j] / Det(m)
  {
    forall j | 0 <= j < |m| ensures Column(InverseOf(m), 0)[j] == CofactorMatrix(m)[0][j] / Det(m) {
      InverseEntry(m, j, 0);
    }
  }

  /** A vector dotted with w divided by its own dot product with w gives 1. */
  lemma DotOverItself(u: seq<real>, v: seq<real>, w: seq<real>, D: real)
    requires D != 0.0 && |u| == |v| == |w|
    requires DotPrefix(u, w, |u|) == D
    requires forall j | 0 <= j < |v| :: v[j] == w[j] / D
    ensures DotPrefix(u, v, |u|) == 1.0
  {
    DotWithDividedVector(u, v, w, D, |u|);
    SelfQuotient(D);
  }

  /** A non-zero number over itself is 1. */
  lemma SelfQuotient(D: real)
    requires D != 0.0
    ensures D / D == 1.0
  {
  }
}
