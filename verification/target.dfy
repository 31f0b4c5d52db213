/** `add_target`: the binary label of each row says whether the next row's
close is strictly above this row's close.

The label is the integer cast of `close.shift(-1) > close`. Shifting moves
a missing value into the last row, and any comparison with a missing value
is false, so the last row, and every row next to a missing close, is
labelled 0. Labels are stored as the cells 1.0 and 0.0. */
module Target {
  import opened Frame

  const Up: Cell := Some(1.0)
  const Flat: Cell := Some(0.0)

  /** The column name `add_target` writes. */
  const TargetColumn := "target"

  /** The label of a row with close `now` followed by a row with close `next`. */
  function Label(now: Cell, next: Cell): Cell {
    if now.Some? && next.Some? && next.value > now.value then Up else Flat
  }

  /** Row `i` is followed by a row whose close is present and strictly above
      its own present close. */
  predicate Rises(close: seq<Cell>, i: int) {
    && 0 <= i
    && i + 1 < |close|
    && close[i].Some?
    && close[i + 1].Some?
    && close[i + 1].value > close[i].value
  }

  /** The target column for the close column `close`. */
  function Labels(close: seq<Cell>): (r: seq<Cell>)
    ensures |r| == |close|
    ensures forall i :: 0 <= i < |r| ==> (r[i] == Up <==> Rises(close, i))
    ensures forall i :: 0 <= i < |r| ==> (r[i] == Flat <==> !Rises(close, i))
    ensures |r| > 0 ==> r[|r| - 1] == Flat
    decreases |close|
  {
    if |close| < 2 then seq(|close|, _ => Flat)
    else
      var rest := Labels(close[1..]);
      assert forall i :: 0 < i < |close| ==> (Rises(close, i) <==> Rises(close[1..], i - 1));
      [Label(close[0], close[1])] + rest
  }

  /** `add_target`. `None` stands for the KeyError raised when there is no
      `close` column. Otherwise the rows, their timestamps and every other
      column are kept, and `target` holds 1 exactly at the rows followed by
      a strictly higher close and 0 everywhere else, the last row included. */
  function AddTarget(t: Table): (r: Option<Table>)
    requires WellFormed(t)
    ensures r.None? <==> "close" !in t.columns
    ensures r.Some? ==> WellFormed(r.value) && |r.value.rows| == |t.rows|
    ensures r.Some? ==> forall i :: 0 <= i < |t.rows| ==> r.value.rows[i].timestamp == t.rows[i].timestamp
    ensures r.Some? && TargetColumn in t.columns ==> r.value.columns == t.columns
    ensures r.Some? && TargetColumn !in t.columns ==> r.value.columns == t.columns + [TargetColumn]
    ensures r.Some? ==> forall n :: n in t.columns && n != TargetColumn ==> Named(r.value, n) == Named(t, n)
    ensures r.Some? ==> forall i :: 0 <= i < |t.rows| ==>
              (Named(r.value, TargetColumn)[i] == Up <==> Rises(Named(t, "close"), i))
    ensures r.Some? ==> forall i :: 0 <= i < |t.rows| ==> Named(r.value, TargetColumn)[i] in {Up, Flat}
    ensures r.Some? && |t.rows| > 0 ==> Named(r.value, TargetColumn)[|t.rows| - 1] == Flat
  {
    if "close" !in t.columns then None
    else Some(AddColumn(t, TargetColumn, Labels(Named(t, "close"))))
  }

  /** Labels are local: the label of row `i` depends on the closes of rows
      `i` and `i + 1` only, so cutting the column after row `i + 1` does not
      change it. */
  lemma LabelsLocal(close: seq<Cell>, i: nat, n: nat)
    requires i + 1 < n <= |close|
    ensures Labels(close)[i] == Labels(close[..n])[i]
  {
    assert Rises(close, i) <==> Rises(close[..n], i);
  }

  /** Strictly rising closes are labelled 1 everywhere but the last row. */
  lemma RisingCloses(close: seq<Cell>)
    requires forall i :: 0 <= i < |close| ==> close[i].Some?
    requires forall i :: 0 <= i < |close| - 1 ==> close[i].value < close[i + 1].value
    ensures forall i :: 0 <= i < |close| - 1 ==> Labels(close)[i] == Up
  {
    assert forall i :: 0 <= i < |close| - 1 ==> Rises(close, i);
  }

  /** A rise, then a fall: 1.0, 2.0, 1.5 is labelled 1, 0, 0. */
  lemma RiseThenFall()
    ensures Labels([Some(1.0), Some(2.0), Some(1.5)]) == [Up, Flat, Flat]
  {
    var c: seq<Cell> := [Some(1.0), Some(2.0), Some(1.5)];
    assert Rises(c, 0) && !Rises(c, 1);
  }
}
