/**
 * The program as a whole (main in serial.c without its printing and timing):
 * read_matrix followed by the repetition loop, and the statement that the CSR
 * arrays multiply exactly like the triplet list they were built from.
 */
module EndToEnd {
  import opened CsrSpec
  import opened CsrBuild
  import opened SpmvKernel
  import opened Repetition

  /** Sum of e.value * x[e.col] over the first c entries of es, accumulated from the front. */
  function EntriesDot(es: seq<Entry>, x: seq<real>, c: nat): real
    requires c <= |es| && forall j :: 0 <= j < |es| ==> 0 <= es[j].col < |x|
  {
    if c == 0 then 0.0 else EntriesDot(es, x, c - 1) + es[c - 1].value * x[es[c - 1].col]
  }

  /** The dot product over the first c entries ignores the entries after them. */
  lemma {:induction false} EntriesDotPrefix(a: seq<Entry>, b: seq<Entry>, x: seq<real>, c: nat)
    requires c <= |a| && forall j :: 0 <= j < |a + b| ==> 0 <= (a + b)[j].col < |x|
    ensures forall j :: 0 <= j < |a| ==> 0 <= a[j].col < |x|
    ensures EntriesDot(a + b, x, c) == EntriesDot(a, x, c)
  {
    forall j | 0 <= j < |a|
      ensures 0 <= a[j].col < |x|
    {
      PrefixIndex(a, b, j);
    }
    if c > 0 {
      EntriesDotPrefix(a, b, x, c - 1);
      PrefixIndex(a, b, c - 1);
    }
  }

  /** The triplet matrix applied reps times to the all-ones vector. */
  function TripletPower(ts: seq<Triplet>, numRows: nat, reps: int): (x: seq<real>)
    requires ColsInRange(ts, numRows)
    ensures |x| == numRows
    decreases reps
  {
    if reps <= 0 then Ones(numRows) else TripletProduct(ts, numRows, TripletPower(ts, numRows, reps - 1))
  }

  /** When numVals is the triplet count, the CSR arrays can be read for a vector of any length the columns fit. */
  lemma {:induction false} BuiltMatrixFits(ts: seq<Triplet>, numRows: nat, numVals: int, xLen: int)
    requires RowsInRange(ts, numRows) && ColsInRange(ts, xLen) && |ts| == numVals
    ensures Fits(RowPtr(Histogram(ts, numRows), numVals), ColIndOf(ts, numRows), ValuesOf(ts, numRows), numRows, xLen)
  {
    var rp := RowPtr(Histogram(ts, numRows), numVals);
    forall i | 0 <= i < numRows
      ensures SegmentFits(ColIndOf(ts, numRows), ValuesOf(ts, numRows), xLen, rp[i], rp[i + 1])
    {
      RowSegmentHoldsRowEntries(ts, numRows, numVals, i);
    }
  }

  lemma {:induction false} RowEntriesCols(ts: seq<Triplet>, r: int, t: nat, xLen: int)
    requires t <= |ts| && ColsInRange(ts, xLen)
    ensures forall j :: 0 <= j < |RowEntries(ts, r, t)| ==> 0 <= RowEntries(ts, r, t)[j].col < xLen
  {
    if t > 0 {
      RowEntriesCols(ts, r, t - 1, xLen);
    }
  }

  /** Row r of the triplet product is the dot product over row r's entries in file order. */
  lemma {:induction false} RowProductIsEntriesDot(ts: seq<Triplet>, r: int, t: nat, x: seq<real>)
    requires t <= |ts| && ColsInRange(ts, |x|)
    ensures forall j :: 0 <= j < |RowEntries(ts, r, t)| ==> 0 <= RowEntries(ts, r, t)[j].col < |x|
    ensures RowProduct(ts, r, t, x) == EntriesDot(RowEntries(ts, r, t), x, |RowEntries(ts, r, t)|)
  {
    RowEntriesCols(ts, r, t, |x|);
    if t > 0 {
      var prev := RowEntries(ts, r, t - 1);
      RowProductIsEntriesDot(ts, r, t - 1, x);
      if ts[t - 1].row - 1 == r {
        var e := Entry(ts[t - 1].col - 1, ts[t - 1].value);
        assert RowEntries(ts, r, t) == prev + [e];
        EntriesDotPrefix(prev, [e], x, |prev|);
        AppendIndex(prev, [e], |prev|);
      } else {
        assert RowEntries(ts, r, t) == prev;
      }
    }
  }

  /** A slot range holding the entries es, slot by slot, has the dot product of es. */
  lemma {:induction false} DotOverEntries(colInd: seq<int>, values: seq<real>, x: seq<real>, lo: int, es: seq<Entry>, c: nat)
    requires c <= |es| && SegmentFits(colInd, values, |x|, lo, lo + c)
    requires forall j :: 0 <= j < |es| ==> 0 <= es[j].col < |x|
    requires forall j :: 0 <= j < c ==> colInd[lo + j] == es[j].col && values[lo + j] == es[j].value
    ensures Dot(colInd, values, x, lo, lo + c) == EntriesDot(es, x, c)
  {
    if c > 0 {
      DotOverEntries(colInd, values, x, lo, es, c - 1);
      assert colInd[lo + (c - 1)] == es[c - 1].col && values[lo + (c - 1)] == es[c - 1].value;
      assert lo + (c - 1) == lo + c - 1;
    }
  }

  /**
   * The CSR arrays read_matrix builds multiply every vector exactly like the
   * triplet list: row r of A * x sums value * x[col - 1] over row r's triplets.
   */
  lemma {:induction false} CsrProductMatchesTriplets(ts: seq<Triplet>, numRows: nat, numVals: int, x: seq<real>)
    requires RowsInRange(ts, numRows) && ColsInRange(ts, |x|) && |ts| == numVals
    ensures Fits(RowPtr(Histogram(ts, numRows), numVals), ColIndOf(ts, numRows), ValuesOf(ts, numRows), numRows, |x|)
    ensures MatVec(RowPtr(Histogram(ts, numRows), numVals), ColIndOf(ts, numRows), ValuesOf(ts, numRows), x, numRows)
         == TripletProduct(ts, numRows, x)
  {
    var rp := RowPtr(Histogram(ts, numRows), numVals);
    var ci, vs := ColIndOf(ts, numRows), ValuesOf(ts, numRows);
    BuiltMatrixFits(ts, numRows, numVals, |x|);
    var y := MatVec(rp, ci, vs, x, numRows);
    MatVecAt(rp, ci, vs, x, numRows);
    forall i | 0 <= i < numRows
      ensures y[i] == TripletProduct(ts, numRows, x)[i]
    {
      var es := RowEntries(ts, i, |ts|);
      RowSegmentHoldsRowEntries(ts, numRows, numVals, i);
      RowProductIsEntriesDot(ts, i, |ts|, x);
      DotOverEntries(ci, vs, x, rp[i], es, |es|);
    }
  }

  /** Repeating the CSR product from the all-ones vector is repeating the triplet product. */
  lemma {:induction false} PowerMatchesTriplets(ts: seq<Triplet>, numRows: nat, numVals: int, reps: int)
    requires RowsInRange(ts, numRows) && ColsInRange(ts, numRows) && |ts| == numVals
    ensures Fits(RowPtr(Histogram(ts, numRows), numVals), ColIndOf(ts, numRows), ValuesOf(ts, numRows), numRows, numRows)
    ensures Power(RowPtr(Histogram(ts, numRows), numVals), ColIndOf(ts, numRows), ValuesOf(ts, numRows), numRows, reps, Ones(numRows))
         == TripletPower(ts, numRows, reps)
    decreases reps
  {
    var rp := RowPtr(Histogram(ts, numRows), numVals);
    var ci, vs := ColIndOf(ts, numRows), ValuesOf(ts, numRows);
    BuiltMatrixFits(ts, numRows, numVals, numRows);
    if reps > 0 {
      var prev := Power(rp, ci, vs, numRows, reps - 1, Ones(numRows));
      PowerMatchesTriplets(ts, numRows, numVals, reps - 1);
      CsrProductMatchesTriplets(ts, numRows, numVals, prev);
      assert Power(rp, ci, vs, numRows, reps, Ones(numRows)) == MatVec(rp, ci, vs, prev, numRows);
    }
  }

  /**
   * main without printing and timing: build the CSR arrays from the triplet
   * lines, then run numRepeat repetitions from the all-ones vector.
   */
  method Benchmark(numRows: nat, numVals: nat, ts: seq<Triplet>, numRepeat: int)
    returns (rowPtr: array<int>, colInd: array<int>, values: array<real>, x: array<real>)
    requires RowsInRange(ts, numRows) && ColsInRange(ts, numRows) && |ts| == numVals
    ensures fresh(rowPtr) && fresh(colInd) && fresh(values) && fresh(x)
    ensures rowPtr[..] == RowPtr(Histogram(ts, numRows), numVals)
    ensures colInd[..] == ColIndOf(ts, numRows) && values[..] == ValuesOf(ts, numRows)
    ensures x[..] == TripletPower(ts, numRows, numRepeat)
  {
    rowPtr, colInd, values := ReadMatrix(numRows, numVals, ts);
    assert colInd[..] == ColIndOf(ts, numRows);
    assert values[..] == values[..|ts|];
    PowerMatchesTriplets(ts, numRows, numVals, numRepeat);
    var y;
    x, y := Iterate(rowPtr, colInd, values, numRows, numRepeat);
  }

  /**
   * A matrix with the single non-zero v at 0-indexed (i, j), applied to the
   * all-ones vector, gives v in row i and 0 in every other row.
   */
  lemma {:induction false} SingleEntryProduct(numRows: nat, i: nat, j: nat, v: real)
    requires i < numRows && j < numRows
    ensures var ts := [Triplet(i + 1, j + 1, v)];
            Fits(RowPtr(Histogram(ts, numRows), 1), ColIndOf(ts, numRows), ValuesOf(ts, numRows), numRows, numRows) &&
            forall k :: 0 <= k < numRows ==>
              MatVec(RowPtr(Histogram(ts, numRows), 1), ColIndOf(ts, numRows), ValuesOf(ts, numRows), Ones(numRows), numRows)[k]
              == if k == i then v else 0.0
  {
    var ts := [Triplet(i + 1, j + 1, v)];
    CsrProductMatchesTriplets(ts, numRows, 1, Ones(numRows));
    forall k | 0 <= k < numRows
      ensures TripletProduct(ts, numRows, Ones(numRows))[k] == if k == i then v else 0.0
    {
      assert RowProduct(ts, k, 1, Ones(numRows)) == RowProduct(ts, k, 0, Ones(numRows)) + (if i == k then v * 1.0 else 0.0);
    }
  }

  /**
   * The triplets (1, 1, 3.0) and (2, 2, 4.0) of the 2 x 2 matrix diag(3, 4)
   * give row_ptr [0, 1, 2], col_ind [0, 1] and values [3.0, 4.0].
   */
  lemma DiagonalExampleArrays()
    ensures RowPtr(Histogram([Triplet(1, 1, 3.0), Triplet(2, 2, 4.0)], 2), 2) == [0, 1, 2]
    ensures ColIndOf([Triplet(1, 1, 3.0), Triplet(2, 2, 4.0)], 2) == [0, 1]
    ensures ValuesOf([Triplet(1, 1, 3.0), Triplet(2, 2, 4.0)], 2) == [3.0, 4.0]
  {
    var ts := [Triplet(1, 1, 3.0), Triplet(2, 2, 4.0)];
    assert RowIdx(ts, 0, 2) == [0];
    assert RowIdx(ts, 1, 2) == [1];
    assert Order(ts, 2, 2) == [0, 1];
    var h := Histogram(ts, 2);
    assert h == [1, 1];
    assert RowPtr(h, 2) == [SumTo(h, 0), SumTo(h, 1), 2];
  }

  /** With diag(3, 4), one repetition gives [3.0, 4.0] and two give [9.0, 16.0]. */
  lemma DiagonalExampleRepetitions()
    ensures TripletPower([Triplet(1, 1, 3.0), Triplet(2, 2, 4.0)], 2, 1) == [3.0, 4.0]
    ensures TripletPower([Triplet(1, 1, 3.0), Triplet(2, 2, 4.0)], 2, 2) == [9.0, 16.0]
  {
    var ts := [Triplet(1, 1, 3.0), Triplet(2, 2, 4.0)];
    assert TripletPower(ts, 2, 0) == [1.0, 1.0];
    assert TripletPower(ts, 2, 1) == TripletProduct(ts, 2, [1.0, 1.0]);
    assert TripletPower(ts, 2, 2) == TripletProduct(ts, 2, [3.0, 4.0]);
  }
}
