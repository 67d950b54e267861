/**
 * The worked examples of the calculator, stated on the reference definitions
 * the buttons are proved to compute.
 */
module Scenarios {
  import opened Matrices
  import opened Elementwise
  import opened Multiply
  import opened Determinants
  import opened Inverse

  /** [[1, 2], [3, 4]] plus and minus [[5, 6], [7, 8]]. */
  lemma SampleSumAndDifference()
    ensures SameShape([[1.0, 2.0], [3.0, 4.0]], [[5.0, 6.0], [7.0, 8.0]])
    ensures Sum([[1.0, 2.0], [3.0, 4.0]], [[5.0, 6.0], [7.0, 8.0]]) == [[6.0, 8.0], [10.0, 12.0]]
    ensures Difference([[1.0, 2.0], [3.0, 4.0]], [[5.0, 6.0], [7.0, 8.0]]) == [[-4.0, -4.0], [-4.0, -4.0]]
  {
    var A: Matrix := [[1.0, 2.0], [3.0, 4.0]];
    var B: Matrix := [[5.0, 6.0], [7.0, 8.0]];
    WrittenOut(Sum(A, B), 6.0, 8.0, 10.0, 12.0);
    WrittenOut(Difference(A, B), -4.0, -4.0, -4.0, -4.0);
  }

  /** [[1, 2], [3, 4]] times [[5, 6], [7, 8]]. */
  lemma SampleProduct()
    ensures Conformable([[1.0, 2.0], [3.0, 4.0]], [[5.0, 6.0], [7.0, 8.0]])
    ensures Product([[1.0, 2.0], [3.0, 4.0]], [[5.0, 6.0], [7.0, 8.0]]) == [[19.0, 22.0], [43.0, 50.0]]
  {
    ProductOfTwo([[1.0, 2.0], [3.0, 4.0]], [[5.0, 6.0], [7.0, 8.0]]);
  }

  /** A 2 x 3 matrix times a 3 x 2 matrix is 2 x 2, while their shapes rule out a sum. */
  lemma SampleRectangularProduct(A: Matrix, B: Matrix)
    requires IsRect(A) && |A| == 2 && Cols(A) == 3
    requires IsRect(B) && |B| == 3 && Cols(B) == 2
    ensures Conformable(A, B) && |Product(A, B)| == 2 && forall r | 0 <= r < 2 :: |Product(A, B)[r]| == 2
    ensures !SameShape(A, B)
  {
  }

  /** The determinant and inverse of [[1, 2], [3, 4]]. */
  lemma SampleInverse()
    ensures IsSquare([[1.0, 2.0], [3.0, 4.0]]) && Det([[1.0, 2.0], [3.0, 4.0]]) == -2.0
    ensures InverseOf([[1.0, 2.0], [3.0, 4.0]]) == [[-2.0, 1.0], [1.5, -0.5]]
  {
    TwoByTwoInverseEntries([[1.0, 2.0], [3.0, 4.0]]);
  }

  /** [[1, 2], [2, 4]] is singular. */
  lemma SampleSingular()
    ensures IsSquare([[1.0, 2.0], [2.0, 4.0]]) && Det([[1.0, 2.0], [2.0, 4.0]]) == 0.0
  {
  }
}
