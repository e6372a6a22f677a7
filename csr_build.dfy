/**
 * read_matrix (serial.c): the imperative construction of the three CSR arrays
 * from the triplet list. The file is modelled as the sequence of its triplet
 * lines; pass 2 re-reads the same sequence, as the source rewinds the file.
 */
module CsrBuild {
  import opened CsrSpec

  /** Pass 1: zero a histogram of numRows slots and count every triplet's row into it. */
  method CountRowOccurrences(ts: seq<Triplet>, numRows: nat) returns (occ: array<int>)
    requires RowsInRange(ts, numRows)
    ensures fresh(occ) && occ.Length == numRows
    ensures occ[..] == Histogram(ts, numRows)
  {
    occ := new int[numRows];
    for i := 0 to numRows
      invariant forall r :: 0 <= r < i ==> occ[r] == 0
    {
      occ[i] := 0;
    }
    var t := 0;
    while t < |ts|
      invariant 0 <= t <= |ts|
      invariant forall r :: 0 <= r < numRows ==> occ[r] == Count(ts, r, t)
    {
      var row := ts[t].row - 1;
      occ[row] := occ[row] + 1;
      t := t + 1;
    }
  }

  /** The running index: row_ptr[i] is the sum of occ[0..i), and row_ptr[numRows] is numVals. */
  method SetRowPtr(occ: array<int>, numVals: int) returns (rowPtr: array<int>)
    ensures fresh(rowPtr) && rowPtr.Length == occ.Length + 1
    ensures rowPtr[..] == RowPtr(occ[..], numVals)
  {
    var n := occ.Length;
    rowPtr := new int[n + 1];
    var index := 0;
    var i := 0;
    while i < n
      invariant 0 <= i <= n
      invariant index == SumTo(occ[..], i)
      invariant forall k :: 0 <= k < i ==> rowPtr[k] == SumTo(occ[..], k)
    {
      rowPtr[i] := index;
      index := index + occ[i];
      i := i + 1;
    }
    rowPtr[n] := numVals;
  }

  /**
   * The sentinel probe: starting at base, step forward to the first slot of
   * colInd still holding -1, and return its offset from base.
   */
  method ProbeFreeSlot(colInd: array<int>, base: int) returns (i: int)
    requires 0 <= base
    requires exists k :: base <= k < colInd.Length && colInd[k] == -1
    ensures 0 <= i && base + i < colInd.Length && colInd[base + i] == -1
    ensures forall k :: base <= k < base + i ==> colInd[k] != -1
  {
    ghost var free :| base <= free < colInd.Length && colInd[free] == -1;
    i := 0;
    while colInd[i + base] != -1
      invariant 0 <= i && base + i <= free
      invariant forall k :: base <= k < base + i ==> colInd[k] != -1
      decreases free - base - i
    {
      i := i + 1;
    }
  }

  /**
   * The state of col_ind/values after pass 2 has placed the first t
   * triplets: a slot of the placement holds its triplet once that triplet has
   * been read and the sentinel -1 until then; slots past |ts| stay -1.
   */
  ghost predicate Filled(ts: seq<Triplet>, numRows: nat, cs: seq<int>, vs: seq<real>, t: nat)
  {
    var o := Placement(ts, numRows);
    |o| == |ts| <= |cs| == |vs| && t <= |ts| &&
    (forall k :: 0 <= k < |ts| ==> cs[k] == if o[k] < t then ts[o[k]].col - 1 else -1) &&
    (forall k :: 0 <= k < |ts| && o[k] < t ==> vs[k] == ts[o[k]].value) &&
    (forall k :: |ts| <= k < |cs| ==> cs[k] == -1)
  }

  /** Before pass 2 reads anything, an all-sentinel col_ind is Filled with no triplet. */
  lemma {:induction false} FilledAtStart(ts: seq<Triplet>, numRows: nat, cs: seq<int>, vs: seq<real>)
    requires RowsInRange(ts, numRows) && |ts| <= |cs| == |vs|
    requires forall k :: 0 <= k < |cs| ==> cs[k] == -1
    ensures Filled(ts, numRows, cs, vs, 0)
  {
    OrderFullLength(ts, numRows, |ts|);
  }

  /**
   * In a Filled state, the first sentinel at or after row_ptr[row] of triplet
   * t is the slot the placement gives t, and it lies inside the row.
   */
  lemma {:induction false} FirstFreeIsPlacementSlot(ts: seq<Triplet>, numRows: nat, numVals: nat, cs: seq<int>, vs: seq<real>,
                                                     t: nat, r: int, slot: int)
    requires RowsInRange(ts, numRows) && ColsNonZero(ts) && t < |ts| <= numVals
    requires Filled(ts, numRows, cs, vs, t)
    requires r == ts[t].row - 1 && slot == RowPtr(Histogram(ts, numRows), numVals)[r] + Count(ts, r, t)
    ensures 0 <= RowPtr(Histogram(ts, numRows), numVals)[r] <= slot
    ensures slot < RowPtr(Histogram(ts, numRows), numVals)[r + 1] <= numVals
    ensures slot < |ts| && Placement(ts, numRows)[slot] == t && cs[slot] == -1
    ensures forall k :: RowPtr(Histogram(ts, numRows), numVals)[r] <= k < slot ==> cs[k] != -1
  {
    var start := RowPtr(Histogram(ts, numRows), numVals)[r];
    ProbeStaysInRow(ts, numRows, numVals, t);
    PlacementSlot(ts, numRows, numVals, t, r, slot);
    FilledSlots(ts, numRows, cs, vs, t, start, slot);
  }

  /** Triplet t's probe target is its slot in the placement, after slots holding earlier triplets. */
  lemma {:induction false} PlacementSlot(ts: seq<Triplet>, numRows: nat, numVals: nat, t: nat, r: int, slot: int)
    requires RowsInRange(ts, numRows) && t < |ts|
    requires r == ts[t].row - 1 && slot == RowPtr(Histogram(ts, numRows), numVals)[r] + Count(ts, r, t)
    ensures 0 <= RowPtr(Histogram(ts, numRows), numVals)[r] <= slot < |ts| == |Placement(ts, numRows)|
    ensures Placement(ts, numRows)[slot] == t
    ensures forall k :: RowPtr(Histogram(ts, numRows), numVals)[r] <= k < slot ==> Placement(ts, numRows)[k] < t
  {
    var o := Placement(ts, numRows);
    RowPtrIsOrderLength(ts, numRows, numVals, r);
    SlotOfTriplet(ts, numRows, t, r);
    EarlierSlots(ts, numRows, t, r);
    OrderFullLength(ts, numRows, |ts|);
    assert o == Order(ts, numRows, |ts|);
  }

  /**
   * In a Filled state for t, the placement slot of t still holds the sentinel
   * and the slots before it that hold earlier triplets do not.
   */
  lemma {:induction false} FilledSlots(ts: seq<Triplet>, numRows: nat, cs: seq<int>, vs: seq<real>, t: nat, start: int, slot: int)
    requires ColsNonZero(ts) && Filled(ts, numRows, cs, vs, t)
    requires 0 <= start <= slot < |ts| && Placement(ts, numRows)[slot] == t
    requires forall k :: start <= k < slot ==> Placement(ts, numRows)[k] < t
    ensures cs[slot] == -1
    ensures forall k :: start <= k < slot ==> cs[k] != -1
  {
    var o := Placement(ts, numRows);
    forall k | start <= k < slot
      ensures cs[k] != -1
    {
      assert o[k] < t;
      assert cs[k] == ts[o[k]].col - 1;
    }
  }

  /** Writing triplet t into its placement slot turns a Filled state for t into one for t + 1. */
  lemma {:induction false} FillStep(ts: seq<Triplet>, numRows: nat, cs: seq<int>, vs: seq<real>, t: nat, slot: nat)
    requires RowsInRange(ts, numRows) && t < |ts|
    requires Filled(ts, numRows, cs, vs, t)
    requires slot < |ts| && Placement(ts, numRows)[slot] == t
    ensures Filled(ts, numRows, cs[slot := ts[t].col - 1], vs[slot := ts[t].value], t + 1)
  {
    PlacementDistinct(ts, numRows);
  }

  /** After the last triplet, a Filled state is exactly the finished CSR arrays. */
  lemma FilledAtEnd(ts: seq<Triplet>, numRows: nat, cs: seq<int>, vs: seq<real>)
    requires Filled(ts, numRows, cs, vs, |ts|)
    ensures cs == ColIndOf(ts, numRows) + Sentinels(|cs| - |ts|)
    ensures vs[..|ts|] == ValuesOf(ts, numRows)
  {
  }

  /**
   * One step of pass 2: probe from row_ptr[row] for the first free slot and
   * write triplet t's 0-indexed column and value there.
   */
  method PlaceTriplet(ts: seq<Triplet>, numRows: nat, numVals: nat, rowPtr: array<int>,
                      colInd: array<int>, values: array<real>, t: nat)
    requires RowsInRange(ts, numRows) && ColsNonZero(ts) && t < |ts| <= numVals
    requires rowPtr[..] == RowPtr(Histogram(ts, numRows), numVals) && rowPtr != colInd
    requires Filled(ts, numRows, colInd[..], values[..], t)
    modifies colInd, values
    ensures Filled(ts, numRows, colInd[..], values[..], t + 1)
  {
    var row := ts[t].row - 1;
    var column := ts[t].col - 1;
    ghost var cs, vs := colInd[..], values[..];
    ghost var slot := rowPtr[row] + Count(ts, row, t);
    FirstFreeIsPlacementSlot(ts, numRows, numVals, cs, vs, t, row, slot);
    FillStep(ts, numRows, cs, vs, t, slot);
    var i := ProbeFreeSlot(colInd, rowPtr[row]);
    assert rowPtr[row] + i == slot;
    colInd[i + rowPtr[row]] := column;
    values[i + rowPtr[row]] := ts[t].value;
    assert colInd[..] == cs[slot := column];
    assert values[..] == vs[slot := ts[t].value];
  }

  /**
   * Pass 2: fill col_ind with the sentinel, then place each triplet, in file
   * order, into the first free slot at or after row_ptr[row].
   */
  method FillColumns(ts: seq<Triplet>, numRows: nat, numVals: nat, rowPtr: array<int>)
    returns (colInd: array<int>, values: array<real>)
    requires RowsInRange(ts, numRows) && ColsNonZero(ts) && |ts| <= numVals
    requires rowPtr[..] == RowPtr(Histogram(ts, numRows), numVals)
    ensures fresh(colInd) && fresh(values)
    ensures colInd.Length == numVals && values.Length == numVals
    ensures colInd[..] == FinishedColInd(ts, numRows, numVals)
    ensures values[..|ts|] == ValuesOf(ts, numRows)
  {
    colInd := new int[numVals];
    values := new real[numVals];
    for k := 0 to numVals
      invariant forall j :: 0 <= j < k ==> colInd[j] == -1
    {
      colInd[k] := -1;
    }
    FilledAtStart(ts, numRows, colInd[..], values[..]);
    var t := 0;
    while t < |ts|
      invariant 0 <= t <= |ts|
      invariant Filled(ts, numRows, colInd[..], values[..], t)
    {
      PlaceTriplet(ts, numRows, numVals, rowPtr, colInd, values, t);
      t := t + 1;
    }
    FilledAtEnd(ts, numRows, colInd[..], values[..]);
  }

  /**
   * read_matrix: build row_ptr, col_ind and values from the header's numRows
   * and numVals and the triplet lines ts.
   */
  method ReadMatrix(numRows: nat, numVals: nat, ts: seq<Triplet>)
    returns (rowPtr: array<int>, colInd: array<int>, values: array<real>)
    requires RowsInRange(ts, numRows) && ColsNonZero(ts) && |ts| <= numVals
    ensures fresh(rowPtr) && fresh(colInd) && fresh(values)
    ensures rowPtr.Length == numRows + 1 && colInd.Length == numVals && values.Length == numVals
    ensures rowPtr[..] == RowPtr(Histogram(ts, numRows), numVals)
    ensures colInd[..] == FinishedColInd(ts, numRows, numVals)
    ensures values[..|ts|] == ValuesOf(ts, numRows)
  {
    var occ := CountRowOccurrences(ts, numRows);
    rowPtr := SetRowPtr(occ, numVals);
    colInd, values := FillColumns(ts, numRows, numVals, rowPtr);
  }
}
