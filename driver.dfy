/**
 * The repetition loop of main (serial.c): x starts as all ones and y as all
 * zeros; each repetition computes y = A * x, copies y into x and zeroes y.
 */
module Repetition {
  import opened SpmvKernel

  /** The initial vector: n ones. */
  function Ones(n: nat): seq<real>
  {
    seq(n, _ => 1.0)
  }

  /** A cleared output buffer: n zeros. */
  function Zeros(n: nat): seq<real>
  {
    seq(n, _ => 0.0)
  }

  /** A applied reps times to x (x itself when reps <= 0). */
  function Power(rowPtr: seq<int>, colInd: seq<int>, values: seq<real>, numRows: nat, reps: int, x: seq<real>): (r: seq<real>)
    requires |x| == numRows && Fits(rowPtr, colInd, values, numRows, numRows)
    ensures |r| == numRows
    decreases reps
  {
    if reps <= 0 then x else MatVec(rowPtr, colInd, values, Power(rowPtr, colInd, values, numRows, reps - 1, x), numRows)
  }

  /**
   * The end of one repetition: copy y into x and clear y, slot by slot. (The
   * copy loop's index shadows the repetition counter in the source; it is
   * block-scoped.)
   */
  method CopyBack(x: array<real>, y: array<real>)
    requires x.Length == y.Length && x != y
    modifies x, y
    ensures x[..] == old(y[..])
    ensures y[..] == Zeros(y.Length)
  {
    for i := 0 to x.Length
      invariant forall k :: 0 <= k < i ==> x[k] == old(y[k]) && y[k] == 0.0
      invariant forall k :: i <= k < y.Length ==> y[k] == old(y[k])
    {
      x[i] := y[i];
      y[i] := 0.0;
    }
  }

  /**
   * Allocate x and y, set them to ones and zeros, then run the numRepeat
   * repetitions. A numRepeat of zero or less (atoi of the argument) runs none.
   */
  method Iterate(rowPtr: array<int>, colInd: array<int>, values: array<real>, numRows: nat, numRepeat: int)
    returns (x: array<real>, y: array<real>)
    requires Fits(rowPtr[..], colInd[..], values[..], numRows, numRows)
    ensures fresh(x) && fresh(y)
    ensures x.Length == numRows && y.Length == numRows
    ensures x[..] == Power(rowPtr[..], colInd[..], values[..], numRows, numRepeat, Ones(numRows))
    ensures numRepeat <= 0 ==> x[..] == Ones(numRows)
    ensures y[..] == Zeros(numRows)
  {
    ghost var rp, ci, vs := rowPtr[..], colInd[..], values[..];
    x := new real[numRows];
    y := new real[numRows];
    for i := 0 to numRows
      invariant forall k :: 0 <= k < i ==> x[k] == 1.0 && y[k] == 0.0
    {
      x[i] := 1.0;
      y[i] := 0.0;
    }
    assert x[..] == Ones(numRows) && y[..] == Zeros(numRows);
    var rep := 0;
    while rep < numRepeat
      invariant rep == 0 || rep <= numRepeat
      invariant rowPtr[..] == rp && colInd[..] == ci && values[..] == vs
      invariant x[..] == Power(rp, ci, vs, numRows, rep, Ones(numRows))
      invariant y[..] == Zeros(numRows)
    {
      ghost var prev := x[..];
      SpmvCsr(rowPtr, colInd, values, numRows, x, y);
      ghost var next := y[..];
      assert next == y[..numRows] == MatVec(rp, ci, vs, prev, numRows);
      assert Power(rp, ci, vs, numRows, rep + 1, Ones(numRows)) == MatVec(rp, ci, vs, prev, numRows);
      CopyBack(x, y);
      assert x[..] == next;
      rep := rep + 1;
    }
  }

  /** Running a + b repetitions is running b repetitions on the result of a. */
  lemma {:induction false} PowerAdditive(rowPtr: seq<int>, colInd: seq<int>, values: seq<real>, numRows: nat,
                                         a: nat, b: nat, x: seq<real>)
    requires |x| == numRows && Fits(rowPtr, colInd, values, numRows, numRows)
    ensures Power(rowPtr, colInd, values, numRows, a + b, x)
         == Power(rowPtr, colInd, values, numRows, b, Power(rowPtr, colInd, values, numRows, a, x))
  {
    if b > 0 {
      var y := Power(rowPtr, colInd, values, numRows, a, x);
      var z := Power(rowPtr, colInd, values, numRows, a + (b - 1), x);
      PowerAdditive(rowPtr, colInd, values, numRows, a, b - 1, x);
      assert a + b - 1 == a + (b - 1);
      assert Power(rowPtr, colInd, values, numRows, a + b, x) == MatVec(rowPtr, colInd, values, z, numRows);
    }
  }

  /**
   * A row with an empty slot range yields 0 on every repetition, whatever the
   * vector it is applied to.
   */
  lemma {:induction false} EmptyRowStaysZero(rowPtr: seq<int>, colInd: seq<int>, values: seq<real>, numRows: nat,
                          i: nat, reps: int, x: seq<real>)
    requires |x| == numRows && Fits(rowPtr, colInd, values, numRows, numRows)
    requires i < numRows && rowPtr[i + 1] <= rowPtr[i] && reps >= 1
    ensures Power(rowPtr, colInd, values, numRows, reps, x)[i] == 0.0
  {
    MatVecAt(rowPtr, colInd, values, Power(rowPtr, colInd, values, numRows, reps - 1, x), numRows);
  }
}
