/**
 * Plating samples onto a plate, as `create_sample_plate_process` in
 * labman/db/tests/integration_tests.py does it: sample number idx (0-based)
 * goes to the 1-based well (idx div num_cols + 1, idx mod num_cols + 1), so
 * the wells fill left to right across a row before the next row starts, and
 * plating stops at the first sample whose row would lie below the plate.
 */
module SamplePlating {
  import opened DivMod

  /** A 1-based well position, the (i, j) given to `update_well`. */
  datatype Well = Well(row: int, col: int)

  /** One `update_well(i, j, sample)` call: the sample put into the well. */
  datatype Placement<S> = Placement(well: Well, sample: S)

  /** The number of a well when the plate is read row by row, each row left to right (0-based). */
  function IndexOf(w: Well, numCols: int): int {
    (w.row - 1) * numCols + (w.col - 1)
  }

  /** The well that receives sample number idx (0-based). */
  function WellOf(idx: nat, numCols: int): (w: Well)
    requires numCols > 0
    ensures w.row >= 1 && 1 <= w.col <= numCols
    ensures IndexOf(w, numCols) == idx
  {
    Well(idx / numCols + 1, idx % numCols + 1)
  }

  /** Every well of a plate with numCols columns is the well of its own row-major number. */
  lemma WellOfIndexOf(w: Well, numCols: int)
    requires numCols > 0 && w.row >= 1 && 1 <= w.col <= numCols
    ensures IndexOf(w, numCols) >= 0
    ensures WellOf(IndexOf(w, numCols), numCols) == w
  {
    MulAtLeast(numCols, w.row);
    DivModUnique(IndexOf(w, numCols), numCols, w.row - 1, w.col - 1);
  }

  /** Well v comes before well w in row-major order. */
  predicate Before(v: Well, w: Well) {
    v.row < w.row || (v.row == w.row && v.col < w.col)
  }

  /** A later sample goes to a later well: either further along the same row or in a later row. */
  lemma WellOfRowMajor(a: nat, b: nat, numCols: int)
    requires numCols > 0 && a < b
    ensures Before(WellOf(a, numCols), WellOf(b, numCols))
  {
    DivMonotone(a, b, numCols);
  }

  /** The number of wells of a plate; a configuration without rows holds nothing. */
  function Capacity(numRows: int, numCols: int): int {
    if numRows <= 0 then 0 else numRows * numCols
  }

  /** The row of sample idx lies on the plate exactly when idx is smaller than the number of wells. */
  lemma RowFits(idx: nat, numRows: int, numCols: int)
    requires numCols > 0
    ensures WellOf(idx, numCols).row <= numRows <==> idx < Capacity(numRows, numCols)
  {
    if numRows > 0 {
      if idx < numRows * numCols {
        DivModUnique(numRows * numCols, numCols, numRows, 0);
        DivMonotone(idx, numRows * numCols - 1, numCols);
        DivModUnique(numRows * numCols - 1, numCols, numRows - 1, numCols - 1);
      } else {
        DivModUnique(numRows * numCols, numCols, numRows, 0);
        DivMonotone(numRows * numCols, idx, numCols);
      }
    }
  }

  function Min(a: int, b: int): int {
    if a <= b then a else b
  }

  /**
   * The plating loop: enumerate the samples, compute each one's well, stop
   * at the first one whose row exceeds the plate, and place the others.
   */
  method PlateSamples<S>(samples: seq<S>, numRows: int, numCols: int) returns (placed: seq<Placement<S>>)
    requires numCols > 0
    ensures |placed| == Min(|samples|, Capacity(numRows, numCols))
    ensures forall k :: 0 <= k < |placed| ==> placed[k] == Placement(WellOf(k, numCols), samples[k])
    ensures forall k :: 0 <= k < |placed| ==>
              1 <= placed[k].well.row <= numRows && 1 <= placed[k].well.col <= numCols
    ensures |placed| < |samples| ==> WellOf(|placed|, numCols).row > numRows
    ensures forall k, k' :: 0 <= k < k' < |placed| ==> Before(placed[k].well, placed[k'].well)
    ensures forall k, k' :: 0 <= k < |placed| && 0 <= k' < |placed| && k != k' ==>
              placed[k].well != placed[k'].well
  {
    placed := [];
    var idx := 0;
    while idx < |samples|
      invariant 0 <= idx <= |samples| && |placed| == idx
      invariant idx <= Capacity(numRows, numCols)
      invariant forall k :: 0 <= k < idx ==> placed[k] == Placement(WellOf(k, numCols), samples[k])
      invariant forall k :: 0 <= k < idx ==> WellOf(k, numCols).row <= numRows
    {
      var i := idx / numCols + 1;
      var j := idx % numCols + 1;
      if i > numRows {
        RowFits(idx, numRows, numCols);
        break;
      }
      RowFits(idx, numRows, numCols);
      placed := placed + [Placement(Well(i, j), samples[idx])];
      idx := idx + 1;
    }
    forall k, k' | 0 <= k < k' < |placed|
      ensures Before(placed[k].well, placed[k'].well)
    {
      WellOfRowMajor(k, k', numCols);
    }
  }
}
