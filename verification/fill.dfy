/** Filling of missing cells in one column: `fillna(method="ffill")` followed
by `fillna(method="bfill")`.

Forward fill copies the nearest present value above a missing cell into it;
back fill then copies the nearest present value below into the cells that
are still missing, which can only be the leading ones. A column with no
present value stays entirely missing. */
module Filling {
  import opened Frame

  /** `k` is the last present position at or above `i`. */
  ghost predicate NearestEarlier(c: seq<Cell>, i: int, k: int) {
    && 0 <= k <= i < |c|
    && c[k].Some?
    && forall m :: k < m <= i ==> c[m].None?
  }

  /** `k` is the first present position at or below `i`. */
  ghost predicate NearestLater(c: seq<Cell>, i: int, k: int) {
    && 0 <= i <= k < |c|
    && c[k].Some?
    && forall m :: i <= m < k ==> c[m].None?
  }

  /** No cell at or above `i` is present. */
  ghost predicate MissingThrough(c: seq<Cell>, i: int) {
    forall m :: 0 <= m <= i && m < |c| ==> c[m].None?
  }

  /** No cell at or below `i` is present. */
  ghost predicate MissingFrom(c: seq<Cell>, i: int) {
    forall m :: 0 <= m && i <= m < |c| ==> c[m].None?
  }

  predicate AllMissing(c: seq<Cell>) {
    forall i :: 0 <= i < |c| ==> c[i].None?
  }

  predicate AllPresent(c: seq<Cell>) {
    forall i :: 0 <= i < |c| ==> c[i].Some?
  }

  /** Forward fill. */
  function FFill(c: seq<Cell>): (r: seq<Cell>)
    ensures |r| == |c|
    ensures forall i :: 0 <= i < |c| ==> (r[i].None? <==> MissingThrough(c, i))
    ensures forall i, k :: NearestEarlier(c, i, k) ==> r[i] == c[k]
    decreases |c|
  {
    if c == [] then []
    else
      var n := |c| - 1;
      var p := FFill(c[..n]);
      var v := if c[n].Some? then c[n] else if p == [] then None else p[n - 1];
      var r := p + [v];
      assert forall i, k :: NearestEarlier(c, i, k) && i < n ==> NearestEarlier(c[..n], i, k);
      assert forall k :: NearestEarlier(c, n, k) && k < n ==> NearestEarlier(c[..n], n - 1, k);
      r
  }

  /** Back fill. */
  function BFill(c: seq<Cell>): (r: seq<Cell>)
    ensures |r| == |c|
    ensures forall i :: 0 <= i < |c| ==> (r[i].None? <==> MissingFrom(c, i))
    ensures forall i, k :: NearestLater(c, i, k) ==> r[i] == c[k]
    decreases |c|
  {
    if c == [] then []
    else
      var s := BFill(c[1..]);
      var v := if c[0].Some? then c[0] else if s == [] then None else s[0];
      var r := [v] + s;
      assert forall i, k :: NearestLater(c, i, k) && 0 < i ==> NearestLater(c[1..], i - 1, k - 1);
      assert forall k :: NearestLater(c, 0, k) && 0 < k ==> NearestLater(c[1..], 0, k - 1);
      r
  }

  /** `fillna(method="ffill").fillna(method="bfill")` on one column. A present
      cell keeps its value; a missing cell takes the nearest present value
      above it or, when there is none above, the nearest one below; the
      column ends with a missing cell only if it had no present cell. */
  function Fill(c: seq<Cell>): (r: seq<Cell>)
    ensures |r| == |c|
    ensures forall i, k :: NearestEarlier(c, i, k) ==> r[i] == c[k]
    ensures forall i, k :: MissingThrough(c, i) && NearestLater(c, i, k) ==> r[i] == c[k]
    ensures AllMissing(c) ==> AllMissing(r)
    ensures !AllMissing(c) ==> AllPresent(r)
  {
    var f := FFill(c);
    FillFacts(c, f);
    BFill(f)
  }

  lemma FillFacts(c: seq<Cell>, f: seq<Cell>)
    requires f == FFill(c)
    ensures forall i, k :: NearestEarlier(c, i, k) ==> BFill(f)[i] == c[k]
    ensures forall i, k :: MissingThrough(c, i) && NearestLater(c, i, k) ==> BFill(f)[i] == c[k]
    ensures AllMissing(c) ==> AllMissing(BFill(f))
    ensures !AllMissing(c) ==> AllPresent(BFill(f))
  {
    var b := BFill(f);
    forall i, k | NearestEarlier(c, i, k) ensures b[i] == c[k] {
      assert NearestLater(f, i, i);
    }
    forall i, k | MissingThrough(c, i) && NearestLater(c, i, k) ensures b[i] == c[k] {
      assert NearestEarlier(c, k, k);
      forall m | i <= m < k ensures f[m].None? {
        assert MissingThrough(c, m);
      }
      assert NearestLater(f, i, k);
    }
    if AllMissing(c) {
      forall i | 0 <= i < |b| ensures b[i].None? {
        forall m | 0 <= m && i <= m < |f| ensures f[m].None? {
          assert MissingThrough(c, m);
        }
      }
    } else {
      var k :| 0 <= k < |c| && c[k].Some?;
      forall i | 0 <= i < |b| ensures b[i].Some? {
        assert !MissingThrough(c, k);
        assert f[k].Some?;
        if i <= k {
          assert !MissingFrom(f, i);
        } else {
          assert !MissingThrough(c, i);
          assert f[i].Some?;
          assert !MissingFrom(f, i);
        }
      }
    }
  }

  /** A column that is entirely present or entirely missing is left as it is. */
  lemma FillSettled(c: seq<Cell>)
    requires AllPresent(c) || AllMissing(c)
    ensures Fill(c) == c
  {
    var r := Fill(c);
    forall i | 0 <= i < |c| ensures r[i] == c[i] {
      if c[i].Some? {
        assert NearestEarlier(c, i, i);
      }
    }
  }

  /** Filling twice is the same as filling once. */
  lemma FillIdempotent(c: seq<Cell>)
    ensures Fill(Fill(c)) == Fill(c)
  {
    FillSettled(Fill(c));
  }
}
