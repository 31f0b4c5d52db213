/** `clean_data`: sort by timestamp, drop rows whose timestamp already
occurred, then forward-fill and back-fill every value column.

The input is never changed: every stage builds a new table. */
module Cleaning {
  import opened Frame
  import opened Sorting
  import opened Filling

  /** No two rows share a timestamp. */
  predicate DistinctTimes(rows: seq<Row>) {
    forall i, j :: 0 <= i < j < |rows| ==> rows[i].timestamp != rows[j].timestamp
  }

  /** `drop_duplicates(subset="timestamp")` with the timestamps in `seen`
      already taken: keeps the first row of each timestamp not yet seen. */
  function DedupeFrom(rows: seq<Row>, seen: set<Time>): (r: seq<Row>)
    ensures Times(r) == Times(rows) - seen
    ensures DistinctTimes(r)
    ensures forall i :: 0 <= i < |r| ==> r[i] in rows
    ensures |r| <= |rows|
    ensures SortedByTime(rows) ==> StrictlyIncreasing(r)
    decreases |rows|
  {
    if rows == [] then []
    else
      var x := rows[0];
      TimesCons(x, rows[1..]);
      assert rows == [x] + rows[1..];
      if x.timestamp in seen then
        DedupeFrom(rows[1..], seen)
      else
        var rest := DedupeFrom(rows[1..], seen + {x.timestamp});
        TimesCons(x, rest);
        KeepFirst(x, rows[1..], rest, seen);
        [x] + rest
  }

  lemma TimesCons(x: Row, s: seq<Row>)
    ensures Times([x] + s) == {x.timestamp} + Times(s)
  {
    assert forall y :: y in [x] + s <==> y == x || y in s;
  }

  /** The step of `DedupeFrom` that keeps `x`. */
  lemma KeepFirst(x: Row, tail: seq<Row>, rest: seq<Row>, seen: set<Time>)
    requires x.timestamp !in seen
    requires Times(rest) == Times(tail) - (seen + {x.timestamp})
    requires DistinctTimes(rest)
    requires forall i :: 0 <= i < |rest| ==> rest[i] in tail
    requires SortedByTime([x] + tail) ==> StrictlyIncreasing(rest)
    ensures DistinctTimes([x] + rest)
    ensures SortedByTime([x] + tail) ==> StrictlyIncreasing([x] + rest)
  {
    var r := [x] + rest;
    assert forall i :: 0 <= i < |rest| ==> rest[i].timestamp != x.timestamp by {
      forall i | 0 <= i < |rest| ensures rest[i].timestamp != x.timestamp {
        assert rest[i].timestamp in Times(rest);
      }
    }
    assert forall i :: 0 < i < |r| ==> r[i] == rest[i - 1];
    if SortedByTime([x] + tail) {
      forall i | 0 <= i < |rest| ensures x.timestamp <= rest[i].timestamp {
        var k :| 0 <= k < |tail| && tail[k] == rest[i];
        assert ([x] + tail)[0] == x && ([x] + tail)[k + 1] == tail[k];
      }
    }
  }

  /** `drop_duplicates(subset="timestamp")`: one row per distinct timestamp,
      taken from the input, in input order (`DropDuplicatesKeepsFirst` says
      which row: the first of its timestamp). */
  function DropDuplicateTimes(rows: seq<Row>): (r: seq<Row>)
    ensures Times(r) == Times(rows)
    ensures DistinctTimes(r)
    ensures forall i :: 0 <= i < |r| ==> r[i] in rows
    ensures |r| <= |rows|
    ensures SortedByTime(rows) ==> StrictlyIncreasing(r)
  {
    DedupeFrom(rows, {})
  }

  /** The position of the first row with timestamp `time`, or `|rows|` when
      there is none. */
  function FirstIndex(rows: seq<Row>, time: Time): (k: nat)
    ensures k <= |rows|
    ensures k < |rows| ==> rows[k].timestamp == time
    ensures forall m :: 0 <= m < k ==> rows[m].timestamp != time
    ensures k == |rows| <==> time !in Times(rows)
  {
    if rows == [] then 0
    else if rows[0].timestamp == time then 0
    else
      TimesCons(rows[0], rows[1..]);
      assert rows == [rows[0]] + rows[1..];
      1 + FirstIndex(rows[1..], time)
  }

  /** Every row of `r` is the first row of its timestamp in `rows`, and the
      rows of `r` come in the order of those first occurrences. */
  predicate KeepsFirsts(rows: seq<Row>, r: seq<Row>) {
    && (forall i :: 0 <= i < |r| ==>
          FirstIndex(rows, r[i].timestamp) < |rows| && rows[FirstIndex(rows, r[i].timestamp)] == r[i])
    && (forall i, j :: 0 <= i < j < |r| ==>
          FirstIndex(rows, r[i].timestamp) < FirstIndex(rows, r[j].timestamp))
  }

  /** The first occurrence in `[x] + tail`: at the front for the timestamp
      of `x`, one place behind its first occurrence in `tail` for any other. */
  lemma FirstIndexCons(x: Row, tail: seq<Row>, time: Time)
    ensures FirstIndex([x] + tail, time) == if time == x.timestamp then 0 else 1 + FirstIndex(tail, time)
  {
    assert ([x] + tail)[1..] == tail;
  }

  /** Putting a row `x` in front of the input moves every first occurrence
      of another timestamp one place back. */
  lemma KeepsFirstsBehind(x: Row, tail: seq<Row>, rest: seq<Row>)
    requires KeepsFirsts(tail, rest)
    requires forall i :: 0 <= i < |rest| ==> rest[i].timestamp != x.timestamp
    ensures KeepsFirsts([x] + tail, rest)
  {
    forall i | 0 <= i < |rest|
      ensures FirstIndex([x] + tail, rest[i].timestamp) == 1 + FirstIndex(tail, rest[i].timestamp)
    {
      FirstIndexCons(x, tail, rest[i].timestamp);
    }
  }

  /** The first row of the input is the first occurrence of its timestamp,
      ahead of every other. */
  lemma KeepsFirstsFront(x: Row, tail: seq<Row>, rest: seq<Row>)
    requires KeepsFirsts([x] + tail, rest)
    requires forall i :: 0 <= i < |rest| ==> rest[i].timestamp != x.timestamp
    ensures KeepsFirsts([x] + tail, [x] + rest)
  {
    var rows, r := [x] + tail, [x] + rest;
    FirstIndexCons(x, tail, x.timestamp);
    forall i | 0 <= i < |rest| ensures FirstIndex(rows, rest[i].timestamp) > 0 {
      FirstIndexCons(x, tail, rest[i].timestamp);
    }
    forall i | 0 < i < |r| ensures r[i] == rest[i - 1] {
    }
    forall i | 0 <= i < |r|
      ensures FirstIndex(rows, r[i].timestamp) < |rows| && rows[FirstIndex(rows, r[i].timestamp)] == r[i]
    {
      if i > 0 {
        assert r[i] == rest[i - 1];
      }
    }
    forall i, j | 0 <= i < j < |r|
      ensures FirstIndex(rows, r[i].timestamp) < FirstIndex(rows, r[j].timestamp)
    {
      assert r[j] == rest[j - 1];
      if i > 0 {
        assert r[i] == rest[i - 1];
      }
    }
  }

  /** `DedupeFrom` keeps the first row of each timestamp, and keeps them in
      the order of their first occurrence. */
  lemma {:induction false} DedupeFirst(rows: seq<Row>, seen: set<Time>)
    ensures KeepsFirsts(rows, DedupeFrom(rows, seen))
    decreases |rows|
  {
    if rows != [] {
      var x, tail := rows[0], rows[1..];
      assert rows == [x] + tail;
      var s := if x.timestamp in seen then seen else seen + {x.timestamp};
      var rest := DedupeFrom(tail, s);
      DedupeFirst(tail, s);
      forall i | 0 <= i < |rest| ensures rest[i].timestamp != x.timestamp {
        assert rest[i].timestamp in Times(rest);
      }
      KeepsFirstsBehind(x, tail, rest);
      if x.timestamp !in seen {
        KeepsFirstsFront(x, tail, rest);
      }
    }
  }

  /** `drop_duplicates(subset="timestamp")` keeps the first row of each
      timestamp (`keep="first"`), in the order of first occurrence. Together
      with `DropDuplicateTimes` keeping every timestamp once, this fixes the
      result. */
  lemma DropDuplicatesKeepsFirst(rows: seq<Row>)
    ensures forall i :: 0 <= i < |DropDuplicateTimes(rows)| ==>
              && FirstIndex(rows, DropDuplicateTimes(rows)[i].timestamp) < |rows|
              && rows[FirstIndex(rows, DropDuplicateTimes(rows)[i].timestamp)] == DropDuplicateTimes(rows)[i]
    ensures forall i, j :: 0 <= i < j < |DropDuplicateTimes(rows)| ==>
              FirstIndex(rows, DropDuplicateTimes(rows)[i].timestamp) < FirstIndex(rows, DropDuplicateTimes(rows)[j].timestamp)
    ensures forall k :: 0 <= k < |rows| && FirstIndex(rows, rows[k].timestamp) == k ==> rows[k] in DropDuplicateTimes(rows)
  {
    var r := DropDuplicateTimes(rows);
    DedupeFirst(rows, {});
    forall k | 0 <= k < |rows| && FirstIndex(rows, rows[k].timestamp) == k
      ensures rows[k] in r
    {
      assert rows[k].timestamp in Times(r);
      var y :| y in r && y.timestamp == rows[k].timestamp;
      var i :| 0 <= i < |r| && r[i] == y;
    }
  }

  /** Rows with pairwise distinct timestamps pass unchanged. */
  lemma {:induction false} DedupeDistinct(rows: seq<Row>, seen: set<Time>)
    requires DistinctTimes(rows)
    requires forall i :: 0 <= i < |rows| ==> rows[i].timestamp !in seen
    ensures DedupeFrom(rows, seen) == rows
  {
    if rows != [] {
      DedupeDistinct(rows[1..], seen + {rows[0].timestamp});
    }
  }

  /** The frame after sorting and de-duplication, before filling. */
  function SortedUnique(t: Table): (r: Table)
    requires WellFormed(t)
    ensures WellFormed(r) && r.columns == t.columns
    ensures StrictlyIncreasing(r.rows)
    ensures Times(r.rows) == Times(t.rows)
    ensures forall i :: 0 <= i < |r.rows| ==> r.rows[i] in t.rows
    ensures |r.rows| <= |t.rows|
  {
    var sorted := SortByTime(t.rows);
    assert forall x :: x in sorted <==> x in t.rows by {
      forall x ensures x in sorted <==> x in t.rows {
        assert x in sorted <==> x in multiset(sorted);
      }
    }
    assert Times(sorted) == Times(t.rows);
    Table(t.columns, DropDuplicateTimes(sorted))
  }

  /** Fills every value column of `t`. */
  function FillTable(t: Table): (r: Table)
    requires WellFormed(t)
    ensures WellFormed(r) && r.columns == t.columns
    ensures |r.rows| == |t.rows|
    ensures forall i :: 0 <= i < |r.rows| ==> r.rows[i].timestamp == t.rows[i].timestamp
    ensures forall j :: 0 <= j < |t.columns| ==> Column(r, j) == Fill(Column(t, j))
  {
    var cols := seq(|t.columns|, j requires 0 <= j < |t.columns| => Fill(Column(t, j)));
    Table(t.columns, seq(|t.rows|, i requires 0 <= i < |t.rows| =>
                           Row(t.rows[i].timestamp,
                               seq(|t.columns|, j requires 0 <= j < |t.columns| => cols[j][i]))))
  }

  /** Present cells of `src` survive in `dst`, which has the same timestamp. */
  predicate Agrees(src: Row, dst: Row) {
    && src.timestamp == dst.timestamp
    && |src.cells| == |dst.cells|
    && forall j :: 0 <= j < |src.cells| && src.cells[j].Some? ==> dst.cells[j] == src.cells[j]
  }

  /** `x` keeps the timestamp and every present value of some row of `t`. */
  ghost predicate Inherited(t: Table, x: Row) {
    exists k :: 0 <= k < |t.rows| && Agrees(t.rows[k], x)
  }

  /** `clean_data`. The result has strictly increasing timestamps, exactly
      one row per distinct input timestamp, no invented rows (each output row
      keeps every present value of one input row with its timestamp), and
      every column is either entirely present or entirely missing. */
  function CleanData(t: Table): (r: Table)
    requires WellFormed(t)
    ensures WellFormed(r) && r.columns == t.columns
    ensures StrictlyIncreasing(r.rows)
    ensures Times(r.rows) == Times(t.rows)
    ensures |r.rows| <= |t.rows|
    ensures forall i :: 0 <= i < |r.rows| ==> Inherited(t, r.rows[i])
    ensures forall j :: 0 <= j < |r.columns| ==> AllPresent(Column(r, j)) || AllMissing(Column(r, j))
  {
    var u := SortedUnique(t);
    var r := FillTable(u);
    SameTimes(u.rows, r.rows);
    FillTableAgrees(u);
    FillTableSettles(u);
    AgreesWithInput(t, u.rows, r.rows);
    r
  }

  lemma SameTimes(a: seq<Row>, b: seq<Row>)
    requires |a| == |b|
    requires forall i :: 0 <= i < |a| ==> a[i].timestamp == b[i].timestamp
    ensures Times(a) == Times(b)
    ensures StrictlyIncreasing(a) ==> StrictlyIncreasing(b)
  {
    assert forall i :: 0 <= i < |b| ==> b[i].timestamp in Times(a);
    assert forall i :: 0 <= i < |a| ==> a[i].timestamp in Times(b);
  }

  /** Filling keeps every present cell. */
  lemma FillTableAgrees(t: Table)
    requires WellFormed(t)
    ensures forall i :: 0 <= i < |t.rows| ==> Agrees(t.rows[i], FillTable(t).rows[i])
  {
    var r := FillTable(t);
    forall i, j | 0 <= i < |r.rows| && 0 <= j < |t.columns| && t.rows[i].cells[j].Some?
      ensures r.rows[i].cells[j] == t.rows[i].cells[j]
    {
      assert Column(r, j)[i] == Fill(Column(t, j))[i];
      assert NearestEarlier(Column(t, j), i, i);
    }
  }

  /** After filling, each column is entirely present or entirely missing. */
  lemma FillTableSettles(t: Table)
    requires WellFormed(t)
    ensures forall j :: 0 <= j < |t.columns| ==>
              AllPresent(Column(FillTable(t), j)) || AllMissing(Column(FillTable(t), j))
  {
    var r := FillTable(t);
    forall j | 0 <= j < |t.columns|
      ensures AllPresent(Column(r, j)) || AllMissing(Column(r, j))
    {
      assert Column(r, j) == Fill(Column(t, j));
    }
  }

  lemma AgreesWithInput(t: Table, u: seq<Row>, r: seq<Row>)
    requires |u| == |r|
    requires forall i :: 0 <= i < |u| ==> u[i] in t.rows
    requires forall i :: 0 <= i < |u| ==> Agrees(u[i], r[i])
    ensures forall i :: 0 <= i < |r| ==> Inherited(t, r[i])
  {
    forall i | 0 <= i < |r| ensures Inherited(t, r[i]) {
      var k :| 0 <= k < |t.rows| && t.rows[k] == u[i];
      assert 0 <= k < |t.rows| && Agrees(t.rows[k], r[i]);
    }
  }

  /** Every column of the cleaned frame is the filled column of the sorted,
      de-duplicated frame, so the fill rules of `Filling.Fill` apply to it row by
      row; in particular a cleaned column is entirely missing exactly when the
      sorted, de-duplicated column was. */
  lemma CleanDataColumns(t: Table, j: nat)
    requires WellFormed(t) && j < |t.columns|
    ensures Column(CleanData(t), j) == Fill(Column(SortedUnique(t), j))
    ensures AllMissing(Column(CleanData(t), j)) <==> AllMissing(Column(SortedUnique(t), j))
  {
    var c := Column(SortedUnique(t), j);
    if !AllMissing(c) && |c| > 0 {
      assert Fill(c)[0].Some?;
    }
  }

  /** Sorting and de-duplicating a frame with strictly increasing
      timestamps changes nothing. */
  lemma SortedUniqueSettled(t: Table)
    requires WellFormed(t) && StrictlyIncreasing(t.rows)
    ensures SortedUnique(t) == t
  {
    StrictlyIncreasingIsSorted(t.rows);
    SortSortedIdentity(t.rows);
    DedupeDistinct(t.rows, {});
  }

  /** Filling a table whose columns are each entirely present or entirely
      missing changes nothing. */
  lemma FillTableSettled(t: Table)
    requires WellFormed(t)
    requires forall j :: 0 <= j < |t.columns| ==> AllPresent(Column(t, j)) || AllMissing(Column(t, j))
    ensures FillTable(t) == t
  {
    var r := FillTable(t);
    forall i | 0 <= i < |t.rows| ensures r.rows[i] == t.rows[i] {
      forall j | 0 <= j < |t.columns| ensures r.rows[i].cells[j] == t.rows[i].cells[j] {
        FillSettled(Column(t, j));
        assert Column(r, j)[i] == Column(t, j)[i];
      }
    }
  }

  /** Cleaning a clean frame changes nothing. */
  lemma CleanDataIdempotent(t: Table)
    requires WellFormed(t)
    ensures CleanData(CleanData(t)) == CleanData(t)
  {
    var r := CleanData(t);
    SortedUniqueSettled(r);
    FillTableSettled(r);
  }
}
