/** The table model shared by the fetcher and the preprocessing stages.

A pandas DataFrame is reduced to a timestamp key per row plus named value
columns whose cells may be missing. `None` plays the part of NaN. Column
operations follow pandas: assigning to an existing column name overwrites
that column in place, assigning to a new name appends it, and dropping
removes the named columns. */
module Frame {

  datatype Option<+T> = None | Some(value: T)

  /** A value cell; `None` is a missing (NaN) value. */
  type Cell = Option<real>

  /** Timestamps are abstract, totally ordered instants. */
  type Time = int

  datatype Row = Row(timestamp: Time, cells: seq<Cell>)

  datatype Table = Table(columns: seq<string>, rows: seq<Row>)

  /** The frame with no columns and no rows, as built by `pd.DataFrame()`. */
  const EmptyFrame: Table := Table([], [])

  predicate Distinct<T(==)>(s: seq<T>) {
    forall i, j :: 0 <= i < j < |s| ==> s[i] != s[j]
  }

  /** A concatenation is duplicate-free exactly when both parts are and
      they share no element. */
  lemma DistinctConcat<T>(a: seq<T>, b: seq<T>)
    ensures Distinct(a + b) <==> Distinct(a) && Distinct(b) && forall x :: x in a ==> x !in b
  {
    var c := a + b;
    if Distinct(a) && Distinct(b) && forall x :: x in a ==> x !in b {
      forall i, j | 0 <= i < j < |c| ensures c[i] != c[j] {
        if j < |a| {
          assert c[i] == a[i] && c[j] == a[j];
        } else if i < |a| {
          assert c[i] == a[i] && c[j] == b[j - |a|] && a[i] in a;
        } else {
          assert c[i] == b[i - |a|] && c[j] == b[j - |a|];
        }
      }
    }
    if Distinct(c) {
      forall i, j | 0 <= i < j < |a| ensures a[i] != a[j] {
        assert c[i] == a[i] && c[j] == a[j];
      }
      forall i, j | 0 <= i < j < |b| ensures b[i] != b[j] {
        assert c[|a| + i] == b[i] && c[|a| + j] == b[j];
      }
      forall x | x in a ensures x !in b {
        var i :| 0 <= i < |a| && a[i] == x;
        assert c[i] == x;
        assert forall j :: 0 <= j < |b| ==> c[|a| + j] == b[j];
      }
    }
  }

  /** Every row has one cell per column, and column names are unique. */
  predicate WellFormed(t: Table) {
    && Distinct(t.columns)
    && forall i :: 0 <= i < |t.rows| ==> |t.rows[i].cells| == |t.columns|
  }

  /** The set of timestamps that occur in `rows`. */
  function Times(rows: seq<Row>): set<Time> {
    set r | r in rows :: r.timestamp
  }

  /** Position of the first column called `name`. */
  function IndexOf(names: seq<string>, name: string): (k: nat)
    requires name in names
    ensures k < |names| && names[k] == name
    ensures forall j :: 0 <= j < k ==> names[j] != name
  {
    if names[0] == name then 0 else 1 + IndexOf(names[1..], name)
  }

  /** The cells of column `j`, top to bottom. */
  function Column(t: Table, j: nat): (c: seq<Cell>)
    requires WellFormed(t) && j < |t.columns|
    ensures |c| == |t.rows|
    ensures forall i :: 0 <= i < |c| ==> c[i] == t.rows[i].cells[j]
  {
    seq(|t.rows|, i requires 0 <= i < |t.rows| => t.rows[i].cells[j])
  }

  /** The column called `name`. */
  function Named(t: Table, name: string): (c: seq<Cell>)
    requires WellFormed(t) && name in t.columns
    ensures |c| == |t.rows|
  {
    Column(t, IndexOf(t.columns, name))
  }

  /** `df[name] = values`: overwrite the column called `name` if there is
      one, otherwise append a new column at the right. */
  function AddColumn(t: Table, name: string, values: seq<Cell>): (r: Table)
    requires WellFormed(t) && |values| == |t.rows|
    ensures WellFormed(r)
    ensures |r.rows| == |t.rows|
    ensures forall i :: 0 <= i < |r.rows| ==> r.rows[i].timestamp == t.rows[i].timestamp
    ensures name in t.columns ==> r.columns == t.columns
    ensures name !in t.columns ==> r.columns == t.columns + [name]
    ensures name !in t.columns ==>
              forall i :: 0 <= i < |r.rows| ==> r.rows[i].cells == t.rows[i].cells + [values[i]]
    ensures Named(r, name) == values
    ensures forall i, j :: 0 <= i < |r.rows| && 0 <= j < |t.columns| && t.columns[j] != name ==>
              r.rows[i].cells[j] == t.rows[i].cells[j]
    ensures forall n :: n in t.columns && n != name ==> Named(r, n) == Named(t, n)
  {
    if name in t.columns then
      var k := IndexOf(t.columns, name);
      Table(t.columns, seq(|t.rows|, i requires 0 <= i < |t.rows| =>
                             Row(t.rows[i].timestamp, t.rows[i].cells[k := values[i]])))
    else
      var r := Table(t.columns + [name], seq(|t.rows|, i requires 0 <= i < |t.rows| =>
                                               Row(t.rows[i].timestamp, t.rows[i].cells + [values[i]])));
      assert IndexOf(r.columns, name) == |t.columns|;
      forall n | n in t.columns ensures IndexOf(r.columns, n) == IndexOf(t.columns, n) {
        IndexOfPrefix(t.columns, [name], n);
      }
      r
  }

  lemma {:induction false} IndexOfPrefix(a: seq<string>, b: seq<string>, name: string)
    requires name in a
    ensures IndexOf(a + b, name) == IndexOf(a, name)
  {
    if a[0] != name {
      assert (a + b)[1..] == a[1..] + b;
      IndexOfPrefix(a[1..], b, name);
    }
  }

  /** The elements of `xs` whose name in the parallel sequence `names` is not in `drop`. */
  function Keep<T>(xs: seq<T>, names: seq<string>, drop: set<string>): (r: seq<T>)
    requires |xs| == |names|
    ensures |r| <= |xs|
  {
    if xs == [] then []
    else (if names[0] in drop then [] else [xs[0]]) + Keep(xs[1..], names[1..], drop)
  }

  lemma {:induction false} KeepSameLength<T, U>(xs: seq<T>, ys: seq<U>, names: seq<string>, drop: set<string>)
    requires |xs| == |names| && |ys| == |names|
    ensures |Keep(xs, names, drop)| == |Keep(ys, names, drop)|
  {
    if xs != [] {
      KeepSameLength(xs[1..], ys[1..], names[1..], drop);
    }
  }

  lemma {:induction false} KeepMembers(names: seq<string>, drop: set<string>)
    ensures forall n :: n in Keep(names, names, drop) <==> n in names && n !in drop
    ensures Distinct(names) ==> Distinct(Keep(names, names, drop))
  {
    if names != [] {
      KeepMembers(names[1..], drop);
      assert names == [names[0]] + names[1..];
    }
  }

  /** Past a first name other than `name`, the position of `name` is one
      more than its position in the rest. */
  lemma IndexOfCons(names: seq<string>, name: string)
    requires name in names && names[0] != name
    ensures name in names[1..] && IndexOf(names, name) == 1 + IndexOf(names[1..], name)
  {
    assert names == [names[0]] + names[1..];
  }

  /** Every name of `k` is in `names`, and they come in the order of `names`. */
  predicate InOrder(names: seq<string>, k: seq<string>) {
    && (forall n :: n in k ==> n in names)
    && (forall i, j :: 0 <= i < j < |k| ==> IndexOf(names, k[i]) < IndexOf(names, k[j]))
  }

  /** Dropping names keeps the others in their order. */
  lemma {:induction false} KeepOrder(names: seq<string>, drop: set<string>)
    requires Distinct(names)
    ensures InOrder(names, Keep(names, names, drop))
  {
    if names != [] {
      var rest := Keep(names[1..], names[1..], drop);
      assert Distinct(names[1..]) by {
        forall i, j | 0 <= i < j < |names| - 1 ensures names[1..][i] != names[1..][j] {
          assert names[1..][i] == names[i + 1] && names[1..][j] == names[j + 1];
        }
      }
      KeepOrder(names[1..], drop);
      KeepOrderBehind(names, rest);
      if names[0] !in drop {
        KeepOrderFront(names, rest);
      }
    }
  }

  /** A first name that occurs nowhere else shifts every other position by one. */
  lemma KeepOrderBehind(names: seq<string>, rest: seq<string>)
    requires names != [] && Distinct(names)
    requires InOrder(names[1..], rest)
    ensures InOrder(names, rest) && names[0] !in rest
  {
    forall n | n in rest ensures n != names[0] && IndexOf(names, n) == 1 + IndexOf(names[1..], n) {
      var m := IndexOf(names[1..], n);
      assert names[m + 1] == n;
      IndexOfCons(names, n);
    }
  }

  /** Keeping the first name puts it ahead of the rest. */
  lemma KeepOrderFront(names: seq<string>, rest: seq<string>)
    requires names != []
    requires InOrder(names, rest) && names[0] !in rest
    ensures InOrder(names, [names[0]] + rest)
  {
    var k := [names[0]] + rest;
    assert IndexOf(names, names[0]) == 0;
    forall i | 0 < i < |k| ensures k[i] == rest[i - 1] {
    }
    forall i, j | 0 <= i < j < |k| ensures IndexOf(names, k[i]) < IndexOf(names, k[j]) {
      assert k[j] == rest[j - 1];
      if i > 0 {
        assert k[i] == rest[i - 1];
      }
    }
  }

  lemma {:induction false} KeepAppend<T>(xs: seq<T>, ys: seq<T>, nx: seq<string>, ny: seq<string>, drop: set<string>)
    requires |xs| == |nx| && |ys| == |ny|
    ensures Keep(xs + ys, nx + ny, drop) == Keep(xs, nx, drop) + Keep(ys, ny, drop)
  {
    if xs == [] {
      assert xs + ys == ys && nx + ny == ny;
    } else {
      assert (xs + ys)[1..] == xs[1..] + ys;
      assert (nx + ny)[1..] == nx[1..] + ny;
      KeepAppend(xs[1..], ys, nx[1..], ny, drop);
    }
  }

  lemma {:induction false} KeepNothing<T>(xs: seq<T>, names: seq<string>, drop: set<string>)
    requires |xs| == |names|
    requires forall j :: 0 <= j < |names| ==> names[j] !in drop
    ensures Keep(xs, names, drop) == xs
  {
    if xs != [] {
      KeepNothing(xs[1..], names[1..], drop);
    }
  }

  lemma {:induction false} KeepAll<T>(xs: seq<T>, names: seq<string>, drop: set<string>)
    requires |xs| == |names|
    requires forall j :: 0 <= j < |names| ==> names[j] in drop
    ensures Keep(xs, names, drop) == []
  {
    if xs != [] {
      KeepAll(xs[1..], names[1..], drop);
    }
  }

  /** `df.drop(list(drop), axis=1)`: remove every column whose name is in
      `drop`. Dropping a name that is not a column raises a KeyError, so
      every dropped name must be a column. */
  function DropColumns(t: Table, drop: set<string>): (r: Table)
    requires WellFormed(t)
    requires forall n :: n in drop ==> n in t.columns
    ensures WellFormed(r)
    ensures |r.rows| == |t.rows|
    ensures forall i :: 0 <= i < |r.rows| ==> r.rows[i].timestamp == t.rows[i].timestamp
    ensures forall n :: n in r.columns <==> n in t.columns && n !in drop
    ensures forall n :: n in r.columns ==> Named(r, n) == Named(t, n)
    ensures forall i, j :: 0 <= i < j < |r.columns| ==>
              IndexOf(t.columns, r.columns[i]) < IndexOf(t.columns, r.columns[j])
  {
    KeepMembers(t.columns, drop);
    KeepOrder(t.columns, drop);
    var r := Table(Keep(t.columns, t.columns, drop),
                   seq(|t.rows|, i requires 0 <= i < |t.rows| =>
                         Row(t.rows[i].timestamp, Keep(t.rows[i].cells, t.columns, drop))));
    assert forall i :: 0 <= i < |r.rows| ==> |r.rows[i].cells| == |r.columns| by {
      forall i | 0 <= i < |r.rows| {
        KeepSameLength(t.rows[i].cells, t.columns, t.columns, drop);
      }
    }
    forall n | n in r.columns ensures Named(r, n) == Named(t, n) {
      forall i | 0 <= i < |t.rows| ensures Named(r, n)[i] == Named(t, n)[i] {
        KeepSameLength(t.rows[i].cells, t.columns, t.columns, drop);
        KeepIndex(t.rows[i].cells, t.columns, drop, n);
      }
    }
    r
  }

  /** A row of the dropped table is the row with the dropped cells removed. */
  lemma DropRow(t: Table, drop: set<string>, i: nat)
    requires WellFormed(t) && i < |t.rows|
    requires forall n :: n in drop ==> n in t.columns
    ensures DropColumns(t, drop).rows[i].cells == Keep(t.rows[i].cells, t.columns, drop)
  {
  }

  /** Dropping columns moves a kept column but not its cells. */
  lemma {:induction false} KeepIndex<T>(xs: seq<T>, names: seq<string>, drop: set<string>, name: string)
    requires |xs| == |names| && |Keep(xs, names, drop)| == |Keep(names, names, drop)|
    requires name in names && name in Keep(names, names, drop)
    ensures Keep(xs, names, drop)[IndexOf(Keep(names, names, drop), name)] == xs[IndexOf(names, name)]
  {
    KeepMembers(names, drop);
    if names[0] == name {
      assert Keep(names, names, drop)[0] == name;
    } else {
      assert names == [names[0]] + names[1..];
      KeepMembers(names[1..], drop);
      KeepSameLength(xs[1..], names[1..], names[1..], drop);
      KeepIndex(xs[1..], names[1..], drop, name);
      KeepIndexStep(xs, names, drop, name);
    }
  }

  /** The step of `KeepIndex` past a first column other than `name`. */
  lemma KeepIndexStep<T>(xs: seq<T>, names: seq<string>, drop: set<string>, name: string)
    requires |xs| == |names| > 0 && names[0] != name
    requires name in names[1..] && name in Keep(names[1..], names[1..], drop)
    requires name in Keep(names, names, drop)
    requires |Keep(xs[1..], names[1..], drop)| == |Keep(names[1..], names[1..], drop)|
    requires Keep(xs[1..], names[1..], drop)[IndexOf(Keep(names[1..], names[1..], drop), name)]
             == xs[1..][IndexOf(names[1..], name)]
    ensures Keep(xs, names, drop)[IndexOf(Keep(names, names, drop), name)] == xs[IndexOf(names, name)]
  {
    IndexOfCons(names, name);
    assert xs[1..][IndexOf(names[1..], name)] == xs[IndexOf(names, name)];
    if names[0] in drop {
      assert Keep(names, names, drop) == Keep(names[1..], names[1..], drop);
      assert Keep(xs, names, drop) == Keep(xs[1..], names[1..], drop);
    } else {
      KeepIndexKept(xs, names, drop, name);
    }
  }

  /** `KeepIndexStep` when the first column is kept: both kept sequences
      gain one element in front, so the position moves by one. */
  lemma KeepIndexKept<T>(xs: seq<T>, names: seq<string>, drop: set<string>, name: string)
    requires |xs| == |names| > 0 && names[0] != name && names[0] !in drop
    requires name in Keep(names[1..], names[1..], drop) && name in Keep(names, names, drop)
    requires |Keep(xs[1..], names[1..], drop)| == |Keep(names[1..], names[1..], drop)|
    ensures Keep(xs, names, drop)[IndexOf(Keep(names, names, drop), name)]
            == Keep(xs[1..], names[1..], drop)[IndexOf(Keep(names[1..], names[1..], drop), name)]
  {
    var kx, kn := Keep(xs, names, drop), Keep(names, names, drop);
    var kx', kn' := Keep(xs[1..], names[1..], drop), Keep(names[1..], names[1..], drop);
    assert kn == [names[0]] + kn' && kx == [xs[0]] + kx';
    IndexOfCons(kn, name);
    assert kn[1..] == kn';
    var j := IndexOf(kn', name);
    assert kx[1 + j] == kx'[j];
  }
}
