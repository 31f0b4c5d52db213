/** Ordering of rows by timestamp, as done by `sort_values("timestamp")`.

pandas' default sort is not stable, so the only promises are that the result
is ascending by timestamp and a permutation of the input. The insertion sort
below is one such sort; nothing else in the model depends on which of the
equal-timestamp rows it puts first. */
module Sorting {
  import opened Frame

  predicate SortedByTime(rows: seq<Row>) {
    forall i, j :: 0 <= i < j < |rows| ==> rows[i].timestamp <= rows[j].timestamp
  }

  predicate StrictlyIncreasing(rows: seq<Row>) {
    forall i, j :: 0 <= i < j < |rows| ==> rows[i].timestamp < rows[j].timestamp
  }

  /** Places `x` into the ascending sequence `s`. */
  function Insert(x: Row, s: seq<Row>): (r: seq<Row>)
    requires SortedByTime(s)
    ensures SortedByTime(r)
    ensures multiset(r) == multiset(s) + multiset{x}
    ensures |r| == |s| + 1
    ensures r[0] == x || (s != [] && r[0] == s[0])
  {
    if s == [] then [x]
    else if x.timestamp <= s[0].timestamp then
      SortedCons(x, s);
      [x] + s
    else
      var rest := Insert(x, s[1..]);
      InsertBehind(x, s, rest);
      [s[0]] + rest
  }

  /** The step of `Insert` that keeps the head of `s` in front. */
  lemma InsertBehind(x: Row, s: seq<Row>, rest: seq<Row>)
    requires s != [] && SortedByTime(s) && s[0].timestamp < x.timestamp
    requires SortedByTime(rest) && |rest| == |s|
    requires multiset(rest) == multiset(s[1..]) + multiset{x}
    requires rest[0] == x || (|s| > 1 && rest[0] == s[1])
    ensures SortedByTime([s[0]] + rest)
    ensures multiset([s[0]] + rest) == multiset(s) + multiset{x}
  {
    assert s == [s[0]] + s[1..];
    SortedCons(s[0], rest);
  }

  /** A row no later than the head of an ascending sequence can go in front. */
  lemma SortedCons(y: Row, r: seq<Row>)
    requires SortedByTime(r)
    requires r != [] ==> y.timestamp <= r[0].timestamp
    ensures SortedByTime([y] + r)
  {
    var c := [y] + r;
    forall i, j | 0 <= i < j < |c| ensures c[i].timestamp <= c[j].timestamp {
      if i > 0 {
        assert c[i] == r[i - 1] && c[j] == r[j - 1];
      } else {
        assert c[j] == r[j - 1];
      }
    }
  }

  function SortByTime(s: seq<Row>): (r: seq<Row>)
    ensures SortedByTime(r)
    ensures multiset(r) == multiset(s)
    ensures |r| == |s|
  {
    if s == [] then []
    else
      assert s == [s[0]] + s[1..];
      Insert(s[0], SortByTime(s[1..]))
  }

  /** Sorting rows whose timestamps already strictly increase leaves them as
      they are, so cleaning a clean frame does not reorder it. With no tied
      timestamps there is only one ascending order, so this holds for any
      sort, stable or not. */
  lemma {:induction false} SortSortedIdentity(s: seq<Row>)
    requires StrictlyIncreasing(s)
    ensures SortByTime(s) == s
  {
    if s != [] {
      SortSortedIdentity(s[1..]);
      StrictlyIncreasingIsSorted(s);
      assert s == [s[0]] + s[1..];
    }
  }

  lemma StrictlyIncreasingIsSorted(s: seq<Row>)
    requires StrictlyIncreasing(s)
    ensures SortedByTime(s)
  {
  }
}
