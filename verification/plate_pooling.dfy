/**
 * The input list of a plate pool, as `create_plate_pool_process` in
 * labman/db/tests/integration_tests.py builds it: the layout of the plate is
 * read row by row (`chain.from_iterable`), empty positions are skipped, and
 * every well contributes one entry naming its composition, an input volume
 * of 1 and a percentage of output of 1/9.
 */
module PlatePooling {
  import opened Wrappers

  /** One entry of the pooling input list. */
  datatype PoolInput<C> = PoolInput(composition: C, inputVolume: int, percentageOfOutput: real)

  /** The input volume every entry requests. */
  const InputVolume: int := 1

  /** The share of the pool every entry is declared to make up. */
  const PercentageOfOutput: real := 1.0 / 9.0

  // ---------------------------------------------------------------------------
  // Reading a layout row by row
  // ---------------------------------------------------------------------------

  /** `chain.from_iterable`: the rows of a layout, one after another. */
  function Flatten<T>(rows: seq<seq<T>>): seq<T> {
    if |rows| == 0 then [] else rows[0] + Flatten(rows[1..])
  }

  lemma {:induction false} FlattenAppend<T>(a: seq<seq<T>>, b: seq<seq<T>>)
    ensures Flatten(a + b) == Flatten(a) + Flatten(b)
  {
    if |a| == 0 {
      assert a + b == b;
    } else {
      assert (a + b)[0] == a[0];
      assert (a + b)[1..] == a[1..] + b;
      calc {
        Flatten(a + b);
        a[0] + Flatten(a[1..] + b);
        { FlattenAppend(a[1..], b); }
        a[0] + (Flatten(a[1..]) + Flatten(b));
        (a[0] + Flatten(a[1..])) + Flatten(b);
      }
    }
  }

  /** The position in the flattened layout of the first cell of row i. */
  function RowStart<T>(rows: seq<seq<T>>, i: nat): nat
    requires i <= |rows|
  {
    |Flatten(rows[..i])|
  }

  /** Row i occupies the |rows[i]| positions right after RowStart(rows, i). */
  lemma RowStartStep<T>(rows: seq<seq<T>>, i: nat)
    requires i < |rows|
    ensures RowStart(rows, i + 1) == RowStart(rows, i) + |rows[i]|
    ensures Flatten(rows) == Flatten(rows[..i]) + rows[i] + Flatten(rows[i + 1..])
  {
    assert rows[..i + 1] == rows[..i] + [rows[i]];
    FlattenAppend(rows[..i], [rows[i]]);
    assert Flatten([rows[i]]) == rows[i] + Flatten([]);
    assert rows == rows[..i + 1] + rows[i + 1..];
    FlattenAppend(rows[..i + 1], rows[i + 1..]);
  }

  /** Cell (i, j) of the layout is element RowStart(rows, i) + j of the flattened layout. */
  lemma FlattenCell<T>(rows: seq<seq<T>>, i: nat, j: nat)
    requires i < |rows| && j < |rows[i]|
    ensures RowStart(rows, i) + j < |Flatten(rows)|
    ensures Flatten(rows)[RowStart(rows, i) + j] == rows[i][j]
  {
    RowStartStep(rows, i);
  }

  lemma {:induction false} RowStartMonotone<T>(rows: seq<seq<T>>, i: nat, i': nat)
    requires i <= i' <= |rows|
    ensures RowStart(rows, i) <= RowStart(rows, i')
    decreases i' - i
  {
    if i < i' {
      RowStartStep(rows, i);
      RowStartMonotone(rows, i + 1, i');
    }
  }

  /** Reading the flattened layout visits the cells row by row, each row left to right. */
  lemma FlattenRowMajor<T>(rows: seq<seq<T>>, i: nat, j: nat, i': nat, j': nat)
    requires i < |rows| && j < |rows[i]| && i' < |rows| && j' < |rows[i']|
    requires i < i' || (i == i' && j < j')
    ensures RowStart(rows, i) + j < RowStart(rows, i') + j'
  {
    if i < i' {
      RowStartStep(rows, i);
      RowStartMonotone(rows, i + 1, i');
    }
  }

  /** Every position of the flattened layout is some cell (i, j) of the layout. */
  lemma {:induction false} FlattenPosition<T>(rows: seq<seq<T>>, t: nat) returns (i: nat, j: nat)
    requires t < |Flatten(rows)|
    ensures i < |rows| && j < |rows[i]|
    ensures RowStart(rows, i) + j == t
    decreases |rows|
  {
    if t < |rows[0]| {
      i, j := 0, t;
      assert rows[..0] == [];
    } else {
      var i', j' := FlattenPosition(rows[1..], t - |rows[0]|);
      i, j := i' + 1, j';
      assert rows[..i] == [rows[0]] + rows[1..][..i'];
      FlattenAppend([rows[0]], rows[1..][..i']);
      assert Flatten([rows[0]]) == rows[0] + Flatten([]);
    }
  }

  // ---------------------------------------------------------------------------
  // Skipping the empty positions
  // ---------------------------------------------------------------------------

  /** The wells of a row of cells, in order, leaving out the empty positions. */
  function Present<W>(cells: seq<Option<W>>): seq<W> {
    if |cells| == 0 then []
    else if cells[|cells| - 1].Some? then Present(cells[..|cells| - 1]) + [cells[|cells| - 1].value]
    else Present(cells[..|cells| - 1])
  }

  /**
   * The positions of the wells among the cells, in increasing order: exactly
   * the non-empty positions, each once, and the k-th of them holds the k-th
   * well Present lists.
   */
  function PresentPositions<W>(cells: seq<Option<W>>): (ps: seq<nat>)
    ensures |ps| == |Present(cells)|
    ensures forall k :: 0 <= k < |ps| ==> ps[k] < |cells| && cells[ps[k]] == Some(Present(cells)[k])
    ensures forall k, k' :: 0 <= k < k' < |ps| ==> ps[k] < ps[k']
    ensures forall t :: 0 <= t < |cells| && cells[t].Some? ==> t in ps
  {
    if |cells| == 0 then []
    else
      var init := cells[..|cells| - 1];
      var rest := PresentPositions(init);
      assert forall t :: 0 <= t < |init| && init[t].Some? ==> t in rest;
      if cells[|cells| - 1].Some? then rest + [|cells| - 1] else rest
  }

  /**
   * Every well of the layout, at row i and column j, is listed once among the
   * non-empty cells of the flattened layout, at its row-major position.
   */
  lemma WellListedOnce<W>(layout: seq<seq<Option<W>>>, i: nat, j: nat)
    requires i < |layout| && j < |layout[i]| && layout[i][j].Some?
    ensures RowStart(layout, i) + j in PresentPositions(Flatten(layout))
    ensures forall k ::
              (0 <= k < |PresentPositions(Flatten(layout))| &&
               PresentPositions(Flatten(layout))[k] == RowStart(layout, i) + j) ==>
              Present(Flatten(layout))[k] == layout[i][j].value
  {
    FlattenCell(layout, i, j);
  }

  /**
   * Conversely, every listed well comes from a non-empty cell (i, j) of the
   * layout, found at that cell's row-major position.
   */
  lemma EntryComesFromWell<W>(layout: seq<seq<Option<W>>>, k: nat) returns (i: nat, j: nat)
    requires k < |Present(Flatten(layout))|
    ensures i < |layout| && j < |layout[i]| && layout[i][j].Some?
    ensures PresentPositions(Flatten(layout))[k] == RowStart(layout, i) + j
    ensures Present(Flatten(layout))[k] == layout[i][j].value
  {
    var ps := PresentPositions(Flatten(layout));
    i, j := FlattenPosition(layout, ps[k]);
    FlattenCell(layout, i, j);
  }

  // ---------------------------------------------------------------------------
  // The input list
  // ---------------------------------------------------------------------------

  /**
   * The loop over the flattened layout: every non-empty cell appends an
   * entry for its well's composition; empty cells add nothing.
   */
  method PlatePoolInputs<W, C>(layout: seq<seq<Option<W>>>, compositionOf: W -> C)
    returns (inputs: seq<PoolInput<C>>)
    ensures |inputs| == |Present(Flatten(layout))|
    ensures forall k :: 0 <= k < |inputs| ==>
              inputs[k].composition == compositionOf(Present(Flatten(layout))[k])
    ensures forall k :: 0 <= k < |inputs| ==>
              inputs[k].inputVolume == 1 && inputs[k].percentageOfOutput == 1.0 / 9.0
  {
    var cells := Flatten(layout);
    inputs := [];
    var t := 0;
    while t < |cells|
      invariant 0 <= t <= |cells|
      invariant |inputs| == |Present(cells[..t])|
      invariant forall k :: 0 <= k < |inputs| ==> inputs[k].composition == compositionOf(Present(cells[..t])[k])
      invariant forall k :: 0 <= k < |inputs| ==>
                  inputs[k].inputVolume == InputVolume && inputs[k].percentageOfOutput == PercentageOfOutput
    {
      assert cells[..t + 1][..t] == cells[..t];
      if cells[t].Some? {
        inputs := inputs + [PoolInput(compositionOf(cells[t].value), InputVolume, PercentageOfOutput)];
      }
      t := t + 1;
    }
    assert cells[..t] == cells;
  }

  /** The percentages of the entries, added up. */
  function TotalPercentage<C>(inputs: seq<PoolInput<C>>): real {
    if |inputs| == 0 then 0.0
    else TotalPercentage(inputs[..|inputs| - 1]) + inputs[|inputs| - 1].percentageOfOutput
  }

  /**
   * The declared percentages add up to one ninth per entry, so they make up
   * the whole pool exactly when the plate has nine wells.
   */
  lemma {:induction false} TotalPercentageOfPlatePool<C>(inputs: seq<PoolInput<C>>)
    requires forall k :: 0 <= k < |inputs| ==> inputs[k].percentageOfOutput == 1.0 / 9.0
    ensures TotalPercentage(inputs) == |inputs| as real / 9.0
    ensures TotalPercentage(inputs) == 1.0 <==> |inputs| == 9
  {
    if |inputs| > 0 {
      TotalPercentageOfPlatePool(inputs[..|inputs| - 1]);
    }
  }
}
