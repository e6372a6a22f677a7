/**
 * spmv_csr (serial.c): y = A * x for a matrix A in CSR form. Values are
 * exact reals; the source accumulates single-precision floats.
 */
module SpmvKernel {

  /**
   * The half-open slot range [lo, hi) can be read: when it is not empty it lies
   * inside col_ind and values, and every column in it indexes x (of length xLen).
   */
  predicate SegmentFits(colInd: seq<int>, values: seq<real>, xLen: int, lo: int, hi: int)
  {
    lo < hi ==> 0 <= lo && hi <= |colInd| && hi <= |values| &&
                forall k :: lo <= k < hi ==> 0 <= colInd[k] < xLen
  }

  /** Every row range [rowPtr[i], rowPtr[i + 1]) of the first numRows rows can be read. */
  predicate Fits(rowPtr: seq<int>, colInd: seq<int>, values: seq<real>, numRows: nat, xLen: int)
  {
    numRows < |rowPtr| &&
    forall i :: 0 <= i < numRows ==> SegmentFits(colInd, values, xLen, rowPtr[i], rowPtr[i + 1])
  }

  /** The sum of values[k] * x[colInd[k]] over [lo, hi), accumulated from lo upward; 0 when empty. */
  function Dot(colInd: seq<int>, values: seq<real>, x: seq<real>, lo: int, hi: int): real
    requires SegmentFits(colInd, values, |x|, lo, hi)
    decreases hi - lo
  {
    if hi <= lo then 0.0 else Dot(colInd, values, x, lo, hi - 1) + values[hi - 1] * x[colInd[hi - 1]]
  }

  /** y = A * x over the first numRows rows, built row after row. */
  function MatVec(rowPtr: seq<int>, colInd: seq<int>, values: seq<real>, x: seq<real>, numRows: nat): (y: seq<real>)
    requires Fits(rowPtr, colInd, values, numRows, |x|)
    ensures |y| == numRows
  {
    if numRows == 0 then []
    else MatVec(rowPtr, colInd, values, x, numRows - 1) + [Dot(colInd, values, x, rowPtr[numRows - 1], rowPtr[numRows])]
  }

  /** Row i of A * x is the dot product over row i's slot range [rowPtr[i], rowPtr[i + 1]). */
  lemma {:induction false} MatVecAt(rowPtr: seq<int>, colInd: seq<int>, values: seq<real>, x: seq<real>, numRows: nat)
    requires Fits(rowPtr, colInd, values, numRows, |x|)
    ensures forall i :: 0 <= i < numRows ==>
      MatVec(rowPtr, colInd, values, x, numRows)[i] == Dot(colInd, values, x, rowPtr[i], rowPtr[i + 1])
  {
    if numRows > 0 {
      MatVecAt(rowPtr, colInd, values, x, numRows - 1);
    }
  }

  /**
   * spmv_csr: for each of the numRows rows, accumulate the row's products
   * into dotProduct and store it in y[i]. Only y[0..numRows) is written.
   */
  method SpmvCsr(rowPtr: array<int>, colInd: array<int>, values: array<real>, numRows: nat,
                 x: array<real>, y: array<real>)
    requires Fits(rowPtr[..], colInd[..], values[..], numRows, x.Length)
    requires numRows <= y.Length
    requires y != x && y != values
    modifies y
    ensures y[..numRows] == MatVec(rowPtr[..], colInd[..], values[..], x[..], numRows)
    ensures forall k :: numRows <= k < y.Length ==> y[k] == old(y[k])
  {
    for i := 0 to numRows
      invariant y[..i] == MatVec(rowPtr[..], colInd[..], values[..], x[..], i)
      invariant forall k :: numRows <= k < y.Length ==> y[k] == old(y[k])
    {
      var dotProduct := 0.0;
      var rowStart := rowPtr[i];
      var rowEnd := rowPtr[i + 1];
      assert SegmentFits(colInd[..], values[..], x.Length, rowStart, rowEnd);
      var j := rowStart;
      while j < rowEnd
        invariant j == rowStart || rowStart < j <= rowEnd
        invariant dotProduct == Dot(colInd[..], values[..], x[..], rowStart, j)
      {
        dotProduct := dotProduct + values[j] * x[colInd[j]];
        j := j + 1;
      }
      ghost var done := y[..i];
      y[i] := dotProduct;
      assert y[..i + 1] == done + [dotProduct];
    }
  }
}
