# Matrix calculator engine, modelled in Dafny

This project models the arithmetic core of a browser matrix calculator
(`script.js`). The calculator has two input grids, A and B, and buttons for
the following operations:

- add and subtract (`addMatrices`, `subtractMatrices`);
- multiply (`multiplyMatrices`);
- transpose (`transposeMatrix`);
- determinant (`determinantMatrix`, with the recursive `determinant` and its `minor` helper);
- inverse (`inverseMatrix`, with the cofactor/adjugate `inverse`).

Each button reads its operands from the page, validates them, computes, and
prints either a result or a diagnostic. In the model:

- Matrices are `seq<seq<real>>` under a rectangularity precondition (`IsRect`).
  The source never checks that rows have equal length. It only reads the
  first row's length.
- Entries are exact `real`s. The source uses IEEE-754 doubles.
- The operands are parameters. The printed outcome is a
  `Result<T> = Ok(value) | Err(error)`. Its four error kinds, `NotBuilt`,
  `ShapeMismatch`, `NotSquare` and `Singular`, stand for the source's seven
  diagnostic strings: add, subtract and multiply each have their own
  shape-mismatch text, and determinant and inverse their own not-square
  text. The method that returns the error identifies which one is shown.
- The code that builds result arrays with nested `for` loops is modelled as
  methods with loops:
  - add and subtract;
  - multiply, with its running `sum`;
  - transpose;
  - the three loops of `inverse`;
  - the `det +=` loop of `determinant`.
  Each method is proved to compute a reference function: `Sum`,
  `Difference`, `Product`, `Transposed`, `CofactorMatrix`, `DividedBy`,
  `InverseOf` and `Det`.
- `minor` (a `filter`/`map` expression) is a function (`Minor`).
- The determinant is specified by the mutually recursive `Det` and
  `Expansion` (first-row Laplace expansion).

Modules:

- `Matrices`: shared vocabulary.
- `Elementwise`: add and subtract.
- `Multiply`: multiplication.
- `Transposition`: transpose.
- `Determinants`: minor and determinant.
- `Inverse`: the inverse.
- `Scenarios`: worked examples.

Two behaviours of the code deserve a note:

- "Not built" means exactly "no rows" (`length === 0`). A matrix with rows
  but no columns passes the not-built check of every operation, although
  the page itself never produces one (`getMatrixValues` returns either `[]`
  or a matrix with at least one column). The determinant and inverse
  buttons reject it as not square, and multiplication rejects it as
  operand A with a shape mismatch. The transpose of such a matrix has no
  rows, so transposing twice returns `[]`, not the original.
  `TransposeInvolution` therefore requires at least one column, and
  `TransposeLosesEmptyRows` shows the exception.
- The inverse button rejects a matrix as singular only when the determinant
  is exactly zero.

## Model

| member | source | states |
|---|---|---|
| Elementwise.Sum | script.js:65-71 | The reference sum that `AddMatrices` computes has A's shape |
| Elementwise.Difference | script.js:86-92 | The reference difference that `SubtractMatrices` computes has A's shape |
| Elementwise.AddMatrices | script.js:54-73 | NotBuilt when either operand has no rows; otherwise ShapeMismatch exactly when row counts or column counts differ, and a result whenever they agree; that result is `Sum(A, B)`: A's shape, cell (r, c) being A[r][c] + B[r][c] |
| Elementwise.SubtractMatrices | script.js:75-94 | The same gates as addition, a result whenever the shapes agree, and that result is `Difference(A, B)`: cell (r, c) is A[r][c] - B[r][c] |
| Elementwise.AddCommutes | script.js:65-71 | Addition is commutative: the sum of A and B equals the sum of B and A |
| Elementwise.SubtractAntiCommutes | script.js:86-92 | A - B is the cell-wise negation of B - A |
| Elementwise.SubtractUndoesAdd | script.js:86-92 | Subtracting B from the sum of A and B gives A back |
| Multiply.Product | script.js:107-117 | The reference product that `MultiplyMatrices` computes is rows(A) x cols(B) |
| Multiply.MultiplyMatrices | script.js:96-119 | NotBuilt when either operand has no rows; otherwise ShapeMismatch exactly when cols(A) differs from rows(B), and a result whenever they agree; that result is `Product(A, B)`: rows(A) x cols(B), cell (r, c) being the left-to-right sum over k of A[r][k] * B[k][c], which the running `sum` computes |
| Multiply.DotWithUnit | script.js:111-115 | A sum of products against a unit vector picks out the one matching component |
| Multiply.DotSwap | script.js:111-115 | The sum of products is symmetric in its two vectors |
| Multiply.RightIdentity | script.js:107-117 | A times the identity of size cols(A) is A, for every rectangular A including the empty one |
| Multiply.LeftIdentity | script.js:107-117 | The identity of size rows(A) times A is A, for every rectangular A including the empty one |
| Multiply.ProductOfTwo | script.js:107-117 | The product of two 2 x 2 matrices is the familiar four-cell formula |
| Transposition.Transposed | script.js:127-133 | The reference transpose that `Transpose` computes is rectangular with cols(M) rows, each of rows(M) cells |
| Transposition.Transpose | script.js:127-133 | The result is cols(M) x rows(M) and cell (c, r) is M[r][c] |
| Transposition.TransposeMatrix | script.js:121-135 | NotBuilt exactly when the matrix has no rows; otherwise its transpose, which need not be square |
| Transposition.TransposeInvolution | script.js:127-133 | Transposing twice gives back every matrix with at least one column |
| Transposition.TransposeLosesEmptyRows | script.js:127-133 | A matrix with a row but no columns does not survive two transpositions |
| Determinants.Without | script.js:163 | Filtering out index k shortens a sequence by one and keeps the other elements in order; an index outside the sequence filters out nothing |
| Determinants.Minor | script.js:162-164 | The minor of an n x n matrix at in-range indices is (n-1) x (n-1) |
| Determinants.MinorEntry | script.js:163 | Cell (i, j) of the minor at (row, col) is M[i + (i >= row ? 1 : 0)][j + (j >= col ? 1 : 0)], so the remaining rows and columns keep their order |
| Determinants.Determinant | script.js:151-160 | The recursive determinant, with its `det +=` loop over the first row, equals the reference determinant `Det` (m[0][0] for 1 x 1, the cross product for 2 x 2, the first-row expansion `Expansion` beyond); it terminates because each minor is one smaller |
| Determinants.ExpansionStep | script.js:157 | The proof step of the `det +=` loop: one more column of row 0 adds that column's signed term, given the minor's determinant computed by the recursive call |
| Determinants.DeterminantMatrix | script.js:137-149 | NotBuilt exactly when there are no rows; NotSquare exactly when the row count differs from the first row's length; otherwise the determinant |
| Determinants.TwoByTwoIsExpansion | script.js:154-158 | The 2 x 2 shortcut agrees with first-row expansion over 1 x 1 minors |
| Determinants.DetIsExpansion | script.js:152-159 | For every size from 2 up, the determinant is the first-row Laplace expansion with sign + for even columns and - for odd ones; by definition from 3 up, and for 2 x 2 through `TwoByTwoIsExpansion` |
| Determinants.MinorOfIdentity | script.js:163 | Removing row 0 and column 0 of the n x n identity leaves the (n-1) x (n-1) identity |
| Determinants.ExpansionOfIdentity | script.js:155-158 | In the expansion of an identity only column 0 contributes |
| Determinants.DetOfIdentity | script.js:151-160 | The identity of every size n >= 1 has determinant 1 |
| Determinants.ZeroRowIsSingular | script.js:151-160 | A matrix whose first row is zero has determinant 0, so the inverse button reports it singular |
| Determinants.ExpansionOfZeroRow | script.js:155-158 | Every prefix of the expansion along a zero first row is 0 |
| Inverse.CofactorMatrix | script.js:189-196 | The cofactor matrix of an n x n matrix is n x n |
| Inverse.Adjugate | script.js:197-203 | The transposed cofactor matrix is n x n |
| Inverse.DividedBy | script.js:204-210 | Dividing every cell keeps the shape |
| Inverse.InverseOf | script.js:185-212 | The inverse of an n x n matrix with non-zero determinant is n x n |
| Inverse.Cofactors | script.js:189-196 | The first loop fills cell (r, c) with the sign of r + c times the determinant of the minor at (r, c) |
| Inverse.DivideCells | script.js:204-210 | The last loop produces cells that, multiplied by the determinant, give back the transposed cofactors |
| Inverse.Inverse | script.js:185-212 | The reciprocal for 1 x 1; otherwise cofactors, then their transpose, then every cell divided by the determinant, which is the reference inverse |
| Inverse.InverseEntry | script.js:188-211 | For n >= 2, cell (r, c) of the inverse is the sign of r + c times the determinant of the minor at (c, r), over the determinant |
| Inverse.InverseMatrix | script.js:166-183 | NotBuilt exactly when there are no rows; NotSquare exactly when the row count differs from the first row's length; Singular exactly when the matrix is square with determinant 0; a result for every non-empty square matrix with non-zero determinant, and that result is `InverseOf(m)`, so the division never divides by zero |
| Inverse.OneByOneInverse | script.js:188 | The 1 x 1 inverse [[1 / m]] is a left and a right inverse |
| Inverse.TwoByTwoCofactor | script.js:193-194 | A cofactor of a 2 x 2 matrix is the signed entry diagonally opposite |
| Inverse.TwoByTwoInverseEntries | script.js:185-212 | The inverse of [[a, b], [c, d]] is [[d, -b], [-c, a]] over ad - bc |
| Inverse.TwoByTwoInverse | script.js:185-212 | A 2 x 2 inverse is a left and a right inverse: both products are the identity |
| Inverse.AdjugateProducts | script.js:204-210 | The adjugate of a 2 x 2 matrix over its determinant, multiplied on either side, gives the identity |
| Inverse.RightProduct | script.js:204-210 | [[a, b], [c, d]] times [[d, -b], [-c, a]] / (ad - bc) is the identity |
| Inverse.LeftProduct | script.js:204-210 | [[d, -b], [-c, a]] / (ad - bc) times [[a, b], [c, d]] is the identity |
| Inverse.ExpansionIsCofactorSum | script.js:189-196 | The first-row expansion of the determinant is row 0 of the matrix paired with row 0 of the cofactor matrix |
| Inverse.InverseFirstColumn | script.js:197-210 | Column 0 of the inverse is row 0 of the cofactors over the determinant |
| Inverse.InverseFirstDiagonal | script.js:185-212 | For every size, cell (0, 0) of M times its inverse is 1 |
| Scenarios.SampleSumAndDifference | script.js:65-71 | [[1, 2], [3, 4]] plus [[5, 6], [7, 8]] is [[6, 8], [10, 12]]; minus it is all -4 |
| Scenarios.SampleProduct | script.js:107-117 | [[1, 2], [3, 4]] times [[5, 6], [7, 8]] is [[19, 22], [43, 50]] |
| Scenarios.SampleRectangularProduct | script.js:103 | A 2 x 3 matrix times a 3 x 2 matrix is 2 x 2, while the sum of the two is a shape mismatch |
| Scenarios.SampleInverse | script.js:185-212 | [[1, 2], [3, 4]] has determinant -2 and inverse [[-2, 1], [1.5, -0.5]] |
| Scenarios.SampleSingular | script.js:176-180 | [[1, 2], [2, 4]] has determinant 0, so the inverse button reports it singular |

## Left out

- Page plumbing is not modelled: building the input grids (`createMatrixInputs`), clearing them (`clearAll`, `clearMatrix`) and the button wiring. These are UI code with no arithmetic.
- `getMatrixValues` is not modelled. It reads the grid cells and parses them with `parseInt` and `Number`. The matrices are parameters instead, and its empty result is the zero-row matrix.
- `displayResult` is not modelled, nor its message strings. It renders text. The outcomes are `Result` values instead.
- IEEE-754 behaviour is not modelled: rounding, `-0`, `Infinity` and `NaN`. Entries are exact reals, so a singular matrix whose floating-point determinant comes out near zero but not zero is not represented.
- Ragged input is excluded by the `IsRect` precondition. Such input reads `undefined` cells in the source, and the source never produces it from a grid.
- Inverse.InverseFirstDiagonal: M times its inverse is proved to equal the identity in full only for 1 x 1 and 2 x 2 matrices (`OneByOneInverse`, `TwoByTwoInverse`). For larger sizes only cell (0, 0) is proved. The other cells need Laplace expansion along arbitrary rows and the vanishing of expansions with a repeated row, and the code never relies on this property.
- Inverse.Inverse: requires a non-zero determinant and a square matrix. Its only caller, `inverseMatrix`, guarantees both before calling.
- Transposition.TransposeInvolution: requires at least one column, because the code maps a matrix with rows but no columns to `[]`.
