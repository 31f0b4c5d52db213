/** `add_indicators`: the column structure of the indicator stage and the
definedness of its simple moving averages.

Columns are written in the order SMA50, SMA200, RSI, MACD, H-L, H-C, L-C, TR,
ATR, and the four true-range helpers are then dropped. The moving averages
are the trailing means of `close` over 50 and 200 rows, missing until a full
window of present closes exists; they are computed here in exact real
arithmetic. The values of RSI, MACD, ATR and the helpers are floating-point
numerics outside this model: a `Numeric` function supplies them. */
module Indicators {
  import opened Frame
  import opened Filling

  const ShortWindow: nat := 50
  const LongWindow: nat := 200

  /** The names of the two moving-average columns. */
  const Sma50: string := "SMA50"
  const Sma200: string := "SMA200"

  /** The columns `add_indicators` leaves behind. */
  const IndicatorColumns: seq<string> := [Sma50, Sma200, "RSI", "MACD", "ATR"]

  /** The helper columns of the true-range computation, dropped at the end. */
  const HelperColumns: set<string> := {"H-L", "H-C", "L-C", "TR"}

  /** The columns read from the input frame. */
  predicate HasPrices(t: Table) {
    "close" in t.columns && "high" in t.columns && "low" in t.columns
  }

  /** `Numeric(name, t, i)` is the value of indicator column `name` in row
      `i`, computed from the input frame `t`. */
  type Numeric = (string, Table, nat) -> Cell

  function NumericColumn(numeric: Numeric, name: string, t: Table): (c: seq<Cell>)
    ensures |c| == |t.rows|
  {
    seq(|t.rows|, i requires 0 <= i < |t.rows| => numeric(name, t, i))
  }

  /** The sum of the present values of `s`. */
  function Total(s: seq<Cell>): real {
    if s == [] then 0.0 else (if s[0].Some? then s[0].value else 0.0) + Total(s[1..])
  }

  /** `rolling(w).mean()` at row `i`: the mean of the `w` closes ending at row
      `i`, or missing when fewer than `w` rows exist or one of them is missing. */
  function RollingMean(c: seq<Cell>, w: nat, i: nat): Cell
    requires 0 < w && i < |c|
  {
    if i + 1 < w then None
    else if forall k :: i + 1 - w <= k <= i ==> c[k].Some? then Some(Total(c[i + 1 - w..i + 1]) / w as real)
    else None
  }

  /** `c.rolling(w).mean()`: the mean of each row's window of `w` rows. */
  function Rolling(c: seq<Cell>, w: nat): (r: seq<Cell>)
    requires 0 < w
    ensures |r| == |c|
  {
    seq(|c|, i requires 0 <= i < |c| => RollingMean(c, w, i))
  }

  /** With every close present, a `w`-row moving average is missing in rows
      0 to w - 2 and defined from row w - 1 on (rows 0..48 and 49.. for SMA50,
      0..198 and 199.. for SMA200). */
  lemma RollingDefinedness(c: seq<Cell>, w: nat)
    requires 0 < w && AllPresent(c)
    ensures forall i :: 0 <= i < |c| ==> (Rolling(c, w)[i].Some? <==> w - 1 <= i)
  {
  }

  /** A missing close inside a window leaves that row's average missing. */
  lemma RollingGap(c: seq<Cell>, w: nat, i: nat, k: nat)
    requires 0 < w && i < |c| && k <= i && i < k + w && c[k].None?
    ensures Rolling(c, w)[i].None?
  {
  }

  lemma {:induction false} TotalConstant(s: seq<Cell>, v: real)
    requires forall k :: 0 <= k < |s| ==> s[k] == Some(v)
    ensures Total(s) == |s| as real * v
  {
    if s != [] {
      TotalConstant(s[1..], v);
    }
  }

  /** Over a window of equal closes the moving average is that close. */
  lemma RollingOfConstant(c: seq<Cell>, w: nat, i: nat, v: real)
    requires 0 < w && w - 1 <= i < |c|
    requires forall k :: i + 1 - w <= k <= i ==> c[k] == Some(v)
    ensures Rolling(c, w)[i] == Some(v)
  {
    var window := c[i + 1 - w..i + 1];
    TotalConstant(window, v);
    assert |window| == w;
    assert Total(window) / w as real == v;
  }

  /** One `df[name] = values` statement. */
  datatype Assignment = Assignment(name: string, values: seq<Cell>)

  function Names(steps: seq<Assignment>): (names: seq<string>)
    ensures |names| == |steps|
    ensures forall k :: 0 <= k < |steps| ==> names[k] == steps[k].name
  {
    seq(|steps|, k requires 0 <= k < |steps| => steps[k].name)
  }

  predicate Fits(t: Table, steps: seq<Assignment>) {
    forall k :: 0 <= k < |steps| ==> |steps[k].values| == |t.rows|
  }

  /** The assignments `steps`, carried out in order: afterwards the columns
      are the old ones plus the assigned ones. */
  function Assign(t: Table, steps: seq<Assignment>): (r: Table)
    requires WellFormed(t) && Fits(t, steps)
    ensures WellFormed(r)
    ensures |r.rows| == |t.rows|
    ensures forall i :: 0 <= i < |r.rows| ==> r.rows[i].timestamp == t.rows[i].timestamp
    ensures forall n :: n in r.columns <==> n in t.columns || n in Names(steps)
    ensures |r.columns| >= |t.columns|
    decreases |steps|
  {
    if steps == [] then t
    else
      assert Names(steps) == [steps[0].name] + Names(steps[1..]);
      Assign(AddColumn(t, steps[0].name, steps[0].values), steps[1..])
  }

  /** An old column that no assignment names keeps its cells. */
  lemma {:induction false} AssignKeeps(t: Table, steps: seq<Assignment>)
    requires WellFormed(t) && Fits(t, steps)
    ensures forall n :: n in t.columns && n !in Names(steps) ==> Named(Assign(t, steps), n) == Named(t, n)
    decreases |steps|
  {
    if steps != [] {
      var t1 := AddColumn(t, steps[0].name, steps[0].values);
      AssignKeeps(t1, steps[1..]);
      assert Names(steps) == [steps[0].name] + Names(steps[1..]);
    }
  }

  /** With distinct names, each assigned column holds exactly its values. */
  lemma {:induction false} AssignWrites(t: Table, steps: seq<Assignment>, k: nat)
    requires WellFormed(t) && Fits(t, steps) && Distinct(Names(steps)) && k < |steps|
    ensures Named(Assign(t, steps), steps[k].name) == steps[k].values
    decreases |steps|
  {
    var t1 := AddColumn(t, steps[0].name, steps[0].values);
    assert Names(steps) == [steps[0].name] + Names(steps[1..]);
    if k == 0 {
      AssignKeeps(t1, steps[1..]);
    } else {
      AssignWrites(t1, steps[1..], k - 1);
    }
  }

  /** With distinct names none of which the table has yet, the assigned
      columns are appended in order. */
  lemma {:induction false} AssignFresh(t: Table, steps: seq<Assignment>)
    requires WellFormed(t) && Fits(t, steps) && Distinct(t.columns + Names(steps))
    ensures Assign(t, steps).columns == t.columns + Names(steps)
    decreases |steps|
  {
    if steps != [] {
      var name, names, rest := steps[0].name, Names(steps), Names(steps[1..]);
      assert names == [name] + rest;
      assert t.columns + names == (t.columns + [name]) + rest;
      DistinctConcat(t.columns, names);
      assert name in names;
      AssignFresh(AddColumn(t, name, steps[0].values), steps[1..]);
    }
  }

  /** With distinct names none of which the table has yet, every row keeps
      its old cells in front. */
  lemma {:induction false} AssignPrefix(t: Table, steps: seq<Assignment>)
    requires WellFormed(t) && Fits(t, steps) && Distinct(t.columns + Names(steps))
    ensures forall i :: 0 <= i < |t.rows| ==> t.rows[i].cells <= Assign(t, steps).rows[i].cells
    decreases |steps|
  {
    if steps != [] {
      var name, names, rest := steps[0].name, Names(steps), Names(steps[1..]);
      assert names == [name] + rest;
      assert t.columns + names == (t.columns + [name]) + rest;
      DistinctConcat(t.columns, names);
      assert name in names;
      AssignPrefix(AddColumn(t, name, steps[0].values), steps[1..]);
    }
  }

  /** The nine assignments of `add_indicators`, in source order. */
  function Steps(t: Table, numeric: Numeric): (steps: seq<Assignment>)
    requires WellFormed(t) && "close" in t.columns
    ensures Fits(t, steps)
  {
    var close := Named(t, "close");
    [ Assignment(Sma50, Rolling(close, ShortWindow)),
      Assignment(Sma200, Rolling(close, LongWindow)),
      Assignment("RSI", NumericColumn(numeric, "RSI", t)),
      Assignment("MACD", NumericColumn(numeric, "MACD", t)),
      Assignment("H-L", NumericColumn(numeric, "H-L", t)),
      Assignment("H-C", NumericColumn(numeric, "H-C", t)),
      Assignment("L-C", NumericColumn(numeric, "L-C", t)),
      Assignment("TR", NumericColumn(numeric, "TR", t)),
      Assignment("ATR", NumericColumn(numeric, "ATR", t)) ]
  }

  const Written: seq<string> := [Sma50, Sma200, "RSI", "MACD", "H-L", "H-C", "L-C", "TR", "ATR"]

  lemma StepNames(t: Table, numeric: Numeric)
    requires WellFormed(t) && "close" in t.columns
    ensures Names(Steps(t, numeric)) == Written
    ensures Distinct(Written)
    ensures forall n :: n in Written <==> n in IndicatorColumns || n in HelperColumns
  {
  }

  lemma IndicatorsAreNotHelpers()
    ensures forall n :: n in IndicatorColumns ==> n !in HelperColumns && n in Written
  {
    forall n | n in IndicatorColumns ensures n !in HelperColumns {
      assert n == "SMA50" || n == "SMA200" || n == "RSI" || n == "MACD" || n == "ATR";
      assert "RSI"[0] != "H-L"[0] && "RSI"[0] != "H-C"[0] && "RSI"[0] != "L-C"[0];
      assert "ATR"[0] != "H-L"[0] && "ATR"[0] != "H-C"[0] && "ATR"[0] != "L-C"[0];
      assert |"MACD"| != |"H-L"| && |"SMA50"| != |"H-L"| && |"SMA200"| != |"H-L"|;
      assert "MACD" != "TR" && "SMA50" != "TR" && "SMA200" != "TR" && "RSI" != "TR" && "ATR" != "TR";
    }
  }

  /** `add_indicators`. `None` stands for the KeyError raised when `close`,
      `high` or `low` is absent. Otherwise the row count and timestamps are
      kept, the five indicator columns are present and none of the four
      helper columns survives. */
  function AddIndicators(t: Table, numeric: Numeric): (r: Option<Table>)
    requires WellFormed(t)
    ensures r.None? <==> !HasPrices(t)
    ensures r.Some? ==> WellFormed(r.value) && |r.value.rows| == |t.rows|
    ensures r.Some? ==> forall i :: 0 <= i < |t.rows| ==> r.value.rows[i].timestamp == t.rows[i].timestamp
    ensures r.Some? ==> forall n :: n in IndicatorColumns ==> n in r.value.columns
    ensures r.Some? ==> forall n :: n in HelperColumns ==> n !in r.value.columns
    ensures r.Some? ==> forall n :: n in t.columns && n !in HelperColumns ==> n in r.value.columns
    ensures r.Some? ==> forall n :: n in r.value.columns <==> (n in t.columns || n in IndicatorColumns) && n !in HelperColumns
  {
    if !HasPrices(t) then None
    else
      StepNames(t, numeric);
      IndicatorsAreNotHelpers();
      Some(DropColumns(Widened(t, numeric), HelperColumns))
  }

  /** The cells `add_indicators` produces: every input column that is not
      an indicator or helper name keeps its cells, and SMA50 / SMA200 are the
      50- and 200-row moving averages of `close`. */
  lemma IndicatorValues(t: Table, numeric: Numeric)
    requires WellFormed(t) && HasPrices(t)
    ensures forall n :: n in t.columns && n !in HelperColumns && n !in IndicatorColumns ==>
              Named(AddIndicators(t, numeric).value, n) == Named(t, n)
    ensures Named(AddIndicators(t, numeric).value, Sma50) == Rolling(Named(t, "close"), ShortWindow)
    ensures Named(AddIndicators(t, numeric).value, Sma200) == Rolling(Named(t, "close"), LongWindow)
  {
    IndicatorsAreNotHelpers();
    WidenedColumns(t, numeric);
  }

  /** The frame after all nine assignments, before the helpers are dropped. */
  function Widened(t: Table, numeric: Numeric): (w: Table)
    requires WellFormed(t) && "close" in t.columns
    ensures WellFormed(w) && |w.rows| == |t.rows|
    ensures forall i :: 0 <= i < |t.rows| ==> w.rows[i].timestamp == t.rows[i].timestamp
    ensures forall n :: n in w.columns <==> n in t.columns || n in Written
  {
    StepNames(t, numeric);
    Assign(t, Steps(t, numeric))
  }

  /** The widened frame holds the five indicator columns and the input
      columns; input columns that are not overwritten keep their cells, and
      SMA50 / SMA200 are the moving averages of `close`. */
  lemma WidenedColumns(t: Table, numeric: Numeric)
    requires WellFormed(t) && "close" in t.columns
    ensures forall n :: n in t.columns && n !in HelperColumns && n !in IndicatorColumns ==>
              Named(Widened(t, numeric), n) == Named(t, n)
    ensures Named(Widened(t, numeric), Sma50) == Rolling(Named(t, "close"), ShortWindow)
    ensures Named(Widened(t, numeric), Sma200) == Rolling(Named(t, "close"), LongWindow)
  {
    var steps := Steps(t, numeric);
    StepNames(t, numeric);
    AssignKeeps(t, steps);
    AssignWrites(t, steps, 0);
    AssignWrites(t, steps, 1);
  }

  /** `Written` in three runs: indicators, helpers, then ATR. */
  const WrittenIndicators: seq<string> := [Sma50, Sma200, "RSI", "MACD"]
  const WrittenHelpers: seq<string> := ["H-L", "H-C", "L-C", "TR"]

  lemma WrittenSplit()
    ensures Written == WrittenIndicators + WrittenHelpers + ["ATR"]
    ensures IndicatorColumns == WrittenIndicators + ["ATR"]
  {
  }

  lemma KeepWrittenIndicators()
    ensures Keep(WrittenIndicators, WrittenIndicators, HelperColumns) == WrittenIndicators
  {
    IndicatorsAreNotHelpers();
    KeepNothing(WrittenIndicators, WrittenIndicators, HelperColumns);
  }

  lemma DropWrittenHelpers()
    ensures Keep(WrittenHelpers, WrittenHelpers, HelperColumns) == []
  {
    KeepAll(WrittenHelpers, WrittenHelpers, HelperColumns);
  }

  lemma KeepLastIndicator()
    ensures Keep(["ATR"], ["ATR"], HelperColumns) == ["ATR"]
  {
    IndicatorsAreNotHelpers();
    KeepNothing(["ATR"], ["ATR"], HelperColumns);
  }

  /** Dropping the helpers from the written names leaves the indicators. */
  lemma KeepWritten()
    ensures Keep(Written, Written, HelperColumns) == IndicatorColumns
  {
    var a, b, c := WrittenIndicators, WrittenHelpers, ["ATR"];
    WrittenSplit();
    KeepWrittenIndicators();
    DropWrittenHelpers();
    KeepLastIndicator();
    KeepAppend(a, b, a, b, HelperColumns);
    KeepAppend(a + b, c, a + b, c, HelperColumns);
  }

  /** A row whose first cells belong to kept columns keeps them in front. */
  lemma KeepRowPrefix(cells: seq<Cell>, cols: seq<string>, extra: seq<Cell>, names: seq<string>, drop: set<string>)
    requires |cells| == |cols| && |extra| == |names|
    requires forall j :: 0 <= j < |cols| ==> cols[j] !in drop
    ensures Keep(cells + extra, cols + names, drop) == cells + Keep(extra, names, drop)
  {
    KeepAppend(cells, extra, cols, names, drop);
    KeepNothing(cells, cols, drop);
  }

  /** On a frame with none of the written names, widening appends the nine
      written columns in order. */
  lemma WidenedFreshColumns(t: Table, numeric: Numeric)
    requires WellFormed(t) && "close" in t.columns
    requires forall j :: 0 <= j < |t.columns| ==> t.columns[j] !in Written
    ensures Widened(t, numeric).columns == t.columns + Written
  {
    StepNames(t, numeric);
    DistinctConcat(t.columns, Written);
    AssignFresh(t, Steps(t, numeric));
  }

  /** On a frame with none of the written names, widening leaves the
      original cells in front. */
  lemma WidenedFreshCells(t: Table, numeric: Numeric)
    requires WellFormed(t) && "close" in t.columns
    requires forall j :: 0 <= j < |t.columns| ==> t.columns[j] !in Written
    ensures forall i :: 0 <= i < |t.rows| ==> t.rows[i].cells <= Widened(t, numeric).rows[i].cells
  {
    StepNames(t, numeric);
    DistinctConcat(t.columns, Written);
    AssignPrefix(t, Steps(t, numeric));
  }

  /** With no indicator or helper name in `t`, the result's columns are the
      input's followed by the five indicators. */
  lemma FreshColumns(t: Table, numeric: Numeric)
    requires WellFormed(t) && HasPrices(t)
    requires forall j :: 0 <= j < |t.columns| ==> t.columns[j] !in Written
    ensures DropColumns(Widened(t, numeric), HelperColumns).columns == t.columns + IndicatorColumns
  {
    StepNames(t, numeric);
    WidenedFreshColumns(t, numeric);
    KeepAppend(t.columns, Written, t.columns, Written, HelperColumns);
    KeepNothing(t.columns, t.columns, HelperColumns);
    KeepWritten();
  }

  /** With no indicator or helper name in `t`, each result row starts with
      the input row's cells. */
  lemma FreshCells(t: Table, numeric: Numeric)
    requires WellFormed(t) && HasPrices(t)
    requires forall j :: 0 <= j < |t.columns| ==> t.columns[j] !in Written
    ensures forall i :: 0 <= i < |t.rows| ==>
              t.rows[i].cells <= DropColumns(Widened(t, numeric), HelperColumns).rows[i].cells
  {
    WidenedFreshColumns(t, numeric);
    WidenedFreshCells(t, numeric);
    var w := Widened(t, numeric);
    forall i | 0 <= i < |t.rows|
      ensures t.rows[i].cells <= DropColumns(w, HelperColumns).rows[i].cells
    {
      FreshRow(t, w, i);
    }
  }

  lemma FreshRow(t: Table, w: Table, i: nat)
    requires WellFormed(t) && WellFormed(w) && i < |t.rows| == |w.rows|
    requires forall j :: 0 <= j < |t.columns| ==> t.columns[j] !in Written
    requires w.columns == t.columns + Written
    requires t.rows[i].cells <= w.rows[i].cells
    ensures t.rows[i].cells <= DropColumns(w, HelperColumns).rows[i].cells
  {
    var extra := w.rows[i].cells[|t.columns|..];
    assert w.rows[i].cells == t.rows[i].cells + extra;
    KeepRowPrefix(t.rows[i].cells, t.columns, extra, Written, HelperColumns);
    DropRow(w, HelperColumns, i);
  }

  /** On a frame that has none of the indicator or helper names yet, the
      result is the input with exactly SMA50, SMA200, RSI, MACD and ATR
      appended, in that order; every original cell is unchanged. */
  lemma FreshIndicators(t: Table, numeric: Numeric)
    requires WellFormed(t) && HasPrices(t)
    requires forall j :: 0 <= j < |t.columns| ==> t.columns[j] !in HelperColumns && t.columns[j] !in IndicatorColumns
    ensures AddIndicators(t, numeric).Some?
    ensures AddIndicators(t, numeric).value.columns == t.columns + IndicatorColumns
    ensures forall i :: 0 <= i < |t.rows| ==>
              t.rows[i].cells <= AddIndicators(t, numeric).value.rows[i].cells
  {
    StepNames(t, numeric);
    FreshColumns(t, numeric);
    FreshCells(t, numeric);
  }
}
