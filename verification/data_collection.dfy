/** `fetch_live_data`: retrieval of candles by paging backwards in time.

The broker is abstracted as a provider: a function from a request (instrument,
count, granularity and an optional `to` boundary) to a response, which is
either a page of raw candles or an exception. An exception stands for every
failure the fetcher catches: the request itself, or the conversion of a page
it returned. The fetcher also returns the log of requests it issued, so that
its contract can speak about the paging. */
module DataCollection {
  import opened Frame
  import opened Sorting

  /** The provider's page limit. */
  const MaxBatch: int := 5000

  /** The granularity used for an unrecognised timeframe. */
  const DefaultGranularity: string := "H1"

  /** The recognised timeframes; each maps to the granularity of the same name. */
  const TimeframeMap: map<string, string> := map["M15" := "M15", "H1" := "H1", "H4" := "H4", "D" := "D"]

  /** `TIMEFRAME_MAP.get(timeframe, "H1")`: a recognised timeframe is passed
      through as it is, anything else falls back to one hour. */
  function Granularity(timeframe: string): (g: string)
    ensures g in {"M15", "H1", "H4", "D"}
    ensures g == timeframe <==> timeframe in {"M15", "H1", "H4", "D"}
    ensures timeframe !in {"M15", "H1", "H4", "D"} ==> g == "H1"
  {
    if timeframe in TimeframeMap then TimeframeMap[timeframe] else DefaultGranularity
  }

  /** A candle as the provider returns it, with its mid prices already parsed. */
  datatype RawCandle = RawCandle(time: Time, complete: bool,
                                 open: real, high: real, low: real, close: real, volume: int)

  datatype Request = Request(instrument: string, count: int, granularity: string, to: Option<Time>)

  datatype Response = Page(candles: seq<RawCandle>) | Raised

  type Provider = Request -> Response

  /** A response that carries at least one candle; any other response ends the paging. */
  predicate Answered(r: Response) {
    r.Page? && |r.candles| > 0
  }

  /** The columns of a fetched frame besides the timestamp. */
  const PriceColumns: seq<string> := ["open", "high", "low", "close", "volume"]

  function ToRow(c: RawCandle): Row {
    Row(c.time, [Some(c.open), Some(c.high), Some(c.low), Some(c.close), Some(c.volume as real)])
  }

  /** `x` is the row of a complete candle of `page`. */
  ghost predicate FromComplete(page: seq<RawCandle>, x: Row) {
    exists k :: 0 <= k < |page| && page[k].complete && x == ToRow(page[k])
  }

  /** The number of complete candles in `page`. */
  function CompleteCount(page: seq<RawCandle>): (n: nat)
    ensures n <= |page|
  {
    if page == [] then 0
    else (if page[0].complete then 1 else 0) + CompleteCount(page[1..])
  }

  /** The rows built from one page: the complete candles only, in page order,
      one row per complete candle (`CompleteRowsOrder` fixes where each goes). */
  function CompleteRows(page: seq<RawCandle>): (r: seq<Row>)
    ensures |r| == CompleteCount(page)
    ensures forall k :: 0 <= k < |page| && page[k].complete ==> ToRow(page[k]) in r
    ensures forall i :: 0 <= i < |r| ==> FromComplete(page, r[i])
  {
    if page == [] then []
    else
      var rest := CompleteRows(page[1..]);
      assert forall i :: 0 <= i < |rest| ==> FromComplete(page, rest[i]) by {
        forall i | 0 <= i < |rest| ensures FromComplete(page, rest[i]) {
          var k :| 0 <= k < |page[1..]| && page[1..][k].complete && rest[i] == ToRow(page[1..][k]);
          assert page[k + 1] == page[1..][k];
        }
      }
      assert forall k :: 1 <= k < |page| ==> page[k] == page[1..][k - 1];
      if page[0].complete then
        assert FromComplete(page, ToRow(page[0]));
        [ToRow(page[0])] + rest
      else rest
  }

  /** The complete candle at `k` is row number "complete candles before `k`"
      of its page. With `|CompleteRows(page)| == CompleteCount(page)` this
      fixes every row: the rows are the complete candles, in page order. */
  lemma {:induction false} CompleteRowsOrder(page: seq<RawCandle>, k: nat)
    requires k < |page| && page[k].complete
    ensures CompleteCount(page[..k]) < |CompleteRows(page)|
    ensures CompleteRows(page)[CompleteCount(page[..k])] == ToRow(page[k])
  {
    if k > 0 {
      CompleteRowsOrder(page[1..], k - 1);
      assert page[..k][1..] == page[1..][..k - 1];
      assert page[..k][0] == page[0];
      assert page[1..][k - 1] == page[k];
    }
  }

  function PageRows(r: Response): seq<Row> {
    if r.Page? then CompleteRows(r.candles) else []
  }

  /** Everything collected for the requests in `log`: the complete rows of
      each page, in request order. */
  function Harvest(provider: Provider, log: seq<Request>): seq<Row> {
    if log == [] then []
    else Harvest(provider, log[..|log| - 1]) + PageRows(provider(log[|log| - 1]))
  }

  /** The total count asked for by the requests in `log`. */
  function Requested(log: seq<Request>): int {
    if log == [] then 0 else Requested(log[..|log| - 1]) + log[|log| - 1].count
  }

  /** The last request of `log` raised. */
  predicate Failed(provider: Provider, log: seq<Request>) {
    |log| > 0 && provider(log[|log| - 1]).Raised?
  }

  function Min(a: int, b: int): int {
    if a <= b then a else b
  }

  /** The size of the `i`-th request for `n` candles, as long as no page is empty. */
  function BatchSize(n: int, i: nat): int {
    Min(n - MaxBatch * i, MaxBatch)
  }

  /** The number of requests needed for `n` candles: the ceiling of n / 5000. */
  function BatchCount(n: int): nat {
    if n <= 0 then 0 else (n + MaxBatch - 1) / MaxBatch
  }

  /** The batch sizes the loop asks for when no page is empty, written as the
      loop computes them: take min(remaining, 5000) until nothing remains. */
  function Plan(n: int): seq<int>
    decreases n
  {
    if n <= 0 then [] else [Min(n, MaxBatch)] + Plan(n - Min(n, MaxBatch))
  }

  function Sum(s: seq<int>): int {
    if s == [] then 0 else s[0] + Sum(s[1..])
  }

  lemma BatchCountStep(n: int)
    requires n > MaxBatch
    ensures BatchCount(n) == BatchCount(n - MaxBatch) + 1
  {
  }

  lemma BatchCountExact(n: int, k: int)
    requires n > 0 && MaxBatch * (k - 1) < n <= MaxBatch * k
    ensures BatchCount(n) == k
  {
  }

  lemma BatchCountAbove(n: int, k: nat)
    ensures MaxBatch * k < n ==> k + 1 <= BatchCount(n)
  {
  }

  /** The loop's batch sizes have the closed form `BatchSize`: ceil(n / 5000)
      batches, each of 1 to 5000 candles, all full but the last, adding up to
      `n` exactly. */
  lemma {:induction false} PlanClosedForm(n: int)
    ensures |Plan(n)| == BatchCount(n)
    ensures forall i :: 0 <= i < |Plan(n)| ==> Plan(n)[i] == BatchSize(n, i)
    ensures forall i :: 0 <= i < |Plan(n)| ==> 1 <= Plan(n)[i] <= MaxBatch
    ensures Sum(Plan(n)) == if n > 0 then n else 0
    decreases n
  {
    if n > 0 {
      if n <= MaxBatch {
        assert Plan(n) == [n];
      } else {
        PlanClosedForm(n - MaxBatch);
        BatchCountStep(n);
        var p := Plan(n);
        assert p == [MaxBatch] + Plan(n - MaxBatch);
        forall i | 0 < i < |p| ensures p[i] == BatchSize(n, i) {
          assert p[i] == Plan(n - MaxBatch)[i - 1];
        }
      }
    }
  }

  /** Twelve thousand candles are fetched as 5000, 5000 and 2000. */
  lemma TwelveThousand()
    ensures Plan(12000) == [5000, 5000, 2000]
    ensures BatchCount(12000) == 3
  {
    assert Plan(2000) == [2000];
    assert Plan(7000) == [5000, 2000];
  }

  /** A page never holds more candles than were asked for. */
  predicate PageFits(r: Response, count: int) {
    r.Page? ==> |r.candles| <= count
  }

  /** When every page fits its request, no more rows are collected than were requested. */
  lemma {:induction false} HarvestBound(provider: Provider, log: seq<Request>)
    requires forall i :: 0 <= i < |log| ==> log[i].count >= 0 && PageFits(provider(log[i]), log[i].count)
    ensures |Harvest(provider, log)| <= Requested(log)
  {
    if log != [] {
      var n := |log| - 1;
      HarvestBound(provider, log[..n]);
    }
  }

  /** `x` is the row of a complete candle of some page answered to `log`. */
  ghost predicate Collected(provider: Provider, log: seq<Request>, x: Row) {
    exists i :: 0 <= i < |log| && provider(log[i]).Page? && FromComplete(provider(log[i]).candles, x)
  }

  /** Candle `k` of the page answered to request `i` is complete. */
  predicate CompleteCandle(provider: Provider, log: seq<Request>, i: int, k: int) {
    && 0 <= i < |log|
    && provider(log[i]).Page?
    && 0 <= k < |provider(log[i]).candles|
    && provider(log[i]).candles[k].complete
  }

  /** Every harvested row is the row of a complete candle of some page. */
  lemma {:induction false} HarvestSound(provider: Provider, log: seq<Request>)
    ensures forall x :: x in Harvest(provider, log) ==> Collected(provider, log, x)
  {
    if log != [] {
      var n := |log| - 1;
      var front := log[..n];
      HarvestSound(provider, front);
      forall x | x in Harvest(provider, log) ensures Collected(provider, log, x) {
        if x in Harvest(provider, front) {
          var i :| 0 <= i < |front| && provider(front[i]).Page? && FromComplete(provider(front[i]).candles, x);
          assert log[i] == front[i];
        } else {
          assert x in PageRows(provider(log[n]));
        }
      }
    }
  }

  /** Every complete candle of every page is harvested. */
  lemma {:induction false} HarvestComplete(provider: Provider, log: seq<Request>)
    ensures forall i, k :: CompleteCandle(provider, log, i, k) ==>
              ToRow(provider(log[i]).candles[k]) in Harvest(provider, log)
  {
    if log != [] {
      var n := |log| - 1;
      var front := log[..n];
      HarvestComplete(provider, front);
      forall i, k | CompleteCandle(provider, log, i, k)
        ensures ToRow(provider(log[i]).candles[k]) in Harvest(provider, log)
      {
        if i < n {
          assert front[i] == log[i];
          assert CompleteCandle(provider, front, i, k);
        }
      }
    }
  }

  lemma Snoc(provider: Provider, log: seq<Request>, r: Request)
    ensures Requested(log + [r]) == Requested(log) + r.count
    ensures Harvest(provider, log + [r]) == Harvest(provider, log) + PageRows(provider(r))
  {
    assert (log + [r])[..|log|] == log;
  }

  /** The counting facts of the paging loop: how many requests went out and
      how much they asked for, against what `remaining` says is left. */
  ghost predicate Counted(candles: int, remaining: int, stopped: bool, log: seq<Request>) {
    && |log| <= BatchCount(candles)
    && (candles <= 0 ==> log == [])
    && (candles > 0 ==> Requested(log) <= candles)
    && (candles > 0 && log == [] ==> remaining == candles && !stopped)
    && (!stopped ==> remaining == candles - Requested(log))
    && (!stopped && remaining > 0 ==> Requested(log) == MaxBatch * |log|)
    && (!stopped && remaining <= 0 && candles > 0 ==> MaxBatch * (|log| - 1) < candles <= MaxBatch * |log|)
  }

  /** One request of min(remaining, 5000) candles keeps the counts in step,
      whether the loop stops after it or goes on. */
  lemma CountedStep(candles: int, remaining: int, log: seq<Request>, r: Request)
    requires Counted(candles, remaining, false, log) && remaining > 0
    requires Requested(log + [r]) == Requested(log) + r.count
    requires r.count == Min(remaining, MaxBatch)
    ensures r.count == BatchSize(candles, |log|) && 1 <= r.count <= MaxBatch
    ensures Counted(candles, remaining, true, log + [r])
    ensures Counted(candles, remaining - r.count, false, log + [r])
  {
    BatchCountAbove(candles, |log|);
  }

  /** Every request in `log` is for `pair` at `granularity`, and the `i`-th
      asks for `BatchSize(candles, i)` candles, between 1 and 5000. */
  ghost predicate WellSized(log: seq<Request>, pair: string, granularity: string, candles: int) {
    forall i :: 0 <= i < |log| ==>
      && log[i].instrument == pair && log[i].granularity == granularity
      && log[i].count == BatchSize(candles, i) && 1 <= log[i].count <= MaxBatch
  }

  /** The first request has no `to` boundary; every request but the last got
      a non-empty page, whose first candle's time is the next request's `to`. */
  ghost predicate Threaded(provider: Provider, log: seq<Request>) {
    && (|log| > 0 ==> log[0].to == None)
    && forall i :: 0 <= i < |log| - 1 ==>
         Answered(provider(log[i])) && log[i + 1].to == Some(provider(log[i]).candles[0].time)
  }

  lemma WellSizedStep(log: seq<Request>, pair: string, granularity: string, candles: int, r: Request)
    requires WellSized(log, pair, granularity, candles)
    requires r.instrument == pair && r.granularity == granularity
    requires r.count == BatchSize(candles, |log|) && 1 <= r.count <= MaxBatch
    ensures WellSized(log + [r], pair, granularity, candles)
  {
  }

  lemma ThreadedStep(provider: Provider, log: seq<Request>, r: Request)
    requires Threaded(provider, log)
    requires log == [] ==> r.to == None
    requires log != [] ==> Answered(provider(log[|log| - 1])) &&
                           r.to == Some(provider(log[|log| - 1]).candles[0].time)
    ensures Threaded(provider, log + [r])
  {
    var l := log + [r];
    forall i | 0 <= i < |l| - 1
      ensures Answered(provider(l[i])) && l[i + 1].to == Some(provider(l[i]).candles[0].time)
    {
      assert l[i] == log[i];
    }
  }

  /** The state of the paging loop after the requests in `log`: `remaining`
      and `to` as the loop keeps them, `stopped` once an empty page or an
      exception has ended it, `rows` and `failed` as collected so far. */
  ghost predicate Paging(provider: Provider, pair: string, granularity: string, candles: int,
                         remaining: int, to: Option<Time>, stopped: bool,
                         rows: seq<Row>, log: seq<Request>, failed: bool) {
    && WellSized(log, pair, granularity, candles)
    && Threaded(provider, log)
    && Counted(candles, remaining, stopped, log)
    && (stopped ==> |log| > 0 && !Answered(provider(log[|log| - 1])))
    && (!stopped && log != [] ==> Answered(provider(log[|log| - 1])))
    && (!stopped && log == [] ==> to == None)
    && (!stopped && log != [] ==> to == Some(provider(log[|log| - 1]).candles[0].time))
    && rows == Harvest(provider, log)
    && (failed <==> Failed(provider, log))
  }

  /** The facts every branch of one loop iteration relies on. */
  lemma PagingRequest(provider: Provider, pair: string, granularity: string, candles: int,
                      remaining: int, to: Option<Time>, rows: seq<Row>, log: seq<Request>, failed: bool,
                      request: Request)
    requires Paging(provider, pair, granularity, candles, remaining, to, false, rows, log, failed)
    requires remaining > 0 && request == Request(pair, Min(remaining, MaxBatch), granularity, to)
    ensures !failed
    ensures Harvest(provider, log + [request]) == rows + PageRows(provider(request))
    ensures WellSized(log + [request], pair, granularity, candles)
    ensures Threaded(provider, log + [request])
    ensures Counted(candles, remaining, true, log + [request])
    ensures Counted(candles, remaining - request.count, false, log + [request])
  {
    Snoc(provider, log, request);
    CountedStep(candles, remaining, log, request);
    WellSizedStep(log, pair, granularity, candles, request);
    ThreadedStep(provider, log, request);
  }

  /** An exception ends the loop and marks the fetch as failed. */
  lemma PagingRaised(provider: Provider, pair: string, granularity: string, candles: int,
                     remaining: int, to: Option<Time>, rows: seq<Row>, log: seq<Request>, failed: bool,
                     request: Request)
    requires Paging(provider, pair, granularity, candles, remaining, to, false, rows, log, failed)
    requires remaining > 0 && request == Request(pair, Min(remaining, MaxBatch), granularity, to)
    requires provider(request).Raised?
    ensures Paging(provider, pair, granularity, candles, remaining, to, true, rows, log + [request], true)
  {
    PagingRequest(provider, pair, granularity, candles, remaining, to, rows, log, failed, request);
  }

  /** An empty page ends the loop; what was collected is kept. */
  lemma PagingEmpty(provider: Provider, pair: string, granularity: string, candles: int,
                    remaining: int, to: Option<Time>, rows: seq<Row>, log: seq<Request>, failed: bool,
                    request: Request)
    requires Paging(provider, pair, granularity, candles, remaining, to, false, rows, log, failed)
    requires remaining > 0 && request == Request(pair, Min(remaining, MaxBatch), granularity, to)
    requires provider(request) == Page([])
    ensures Paging(provider, pair, granularity, candles, remaining, to, true,
                   rows + CompleteRows([]), log + [request], failed)
  {
    PagingRequest(provider, pair, granularity, candles, remaining, to, rows, log, failed, request);
  }

  /** A non-empty page is collected, its first candle's time becomes the
      next `to`, and its batch is taken off `remaining`. */
  lemma PagingNext(provider: Provider, pair: string, granularity: string, candles: int,
                   remaining: int, to: Option<Time>, rows: seq<Row>, log: seq<Request>, failed: bool,
                   request: Request)
    requires Paging(provider, pair, granularity, candles, remaining, to, false, rows, log, failed)
    requires remaining > 0 && request == Request(pair, Min(remaining, MaxBatch), granularity, to)
    requires Answered(provider(request))
    ensures Paging(provider, pair, granularity, candles, remaining - request.count,
                   Some(provider(request).candles[0].time), false,
                   rows + CompleteRows(provider(request).candles), log + [request], failed)
  {
    PagingRequest(provider, pair, granularity, candles, remaining, to, rows, log, failed, request);
  }

  /** What the loop guarantees once it has ended. */
  lemma PagingDone(provider: Provider, pair: string, granularity: string, candles: int,
                   remaining: int, to: Option<Time>, stopped: bool,
                   rows: seq<Row>, log: seq<Request>, failed: bool)
    requires Paging(provider, pair, granularity, candles, remaining, to, stopped, rows, log, failed)
    requires remaining <= 0 || stopped
    ensures forall i :: 0 <= i < |log| ==> log[i].instrument == pair && log[i].granularity == granularity
    ensures forall i :: 0 <= i < |log| ==> 1 <= log[i].count <= MaxBatch
    ensures forall i :: 0 <= i < |log| ==> log[i].count == BatchSize(candles, i)
    ensures |log| <= BatchCount(candles)
    ensures Requested(log) <= if candles > 0 then candles else 0
    ensures candles <= 0 <==> log == []
    ensures |log| > 0 && Answered(provider(log[|log| - 1])) ==>
              Requested(log) == candles && MaxBatch * (|log| - 1) < candles <= MaxBatch * |log|
  {
  }

  /** The paging loop of `fetch_live_data` (the `while remaining > 0` loop).

      Requests go out while `remaining > 0`, each for min(remaining, 5000)
      candles; the first carries no `to` boundary and every later one carries
      the time of the first candle of the previous page (counted before
      incomplete candles are dropped). An empty page or an exception ends the
      loop. `rows` holds the complete rows of every page, in request order. */
  method PageBackwards(provider: Provider, pair: string, candles: int, granularity: string)
    returns (rows: seq<Row>, log: seq<Request>, failed: bool)
    ensures forall i :: 0 <= i < |log| ==> log[i].instrument == pair && log[i].granularity == granularity
    ensures forall i :: 0 <= i < |log| ==> 1 <= log[i].count <= MaxBatch
    ensures forall i :: 0 <= i < |log| ==> log[i].count == BatchSize(candles, i)
    ensures |log| <= BatchCount(candles)
    ensures Requested(log) <= if candles > 0 then candles else 0
    ensures candles <= 0 <==> log == []
    ensures |log| > 0 ==> log[0].to == None
    ensures forall i :: 0 <= i < |log| - 1 ==>
              Answered(provider(log[i])) && log[i + 1].to == Some(provider(log[i]).candles[0].time)
    ensures |log| > 0 && Answered(provider(log[|log| - 1])) ==>
              Requested(log) == candles && MaxBatch * (|log| - 1) < candles <= MaxBatch * |log|
    ensures rows == Harvest(provider, log)
    ensures failed <==> Failed(provider, log)
  {
    var remaining := candles;
    var to: Option<Time> := None;
    var stopped := false;
    rows, log, failed := [], [], false;
    while remaining > 0 && !stopped
      invariant Paging(provider, pair, granularity, candles, remaining, to, stopped, rows, log, failed)
      decreases remaining + if stopped then 0 else 1
    {
      var batch := Min(remaining, MaxBatch);
      var request := Request(pair, batch, granularity, to);
      var response := provider(request);
      match response {
        case Raised =>
          PagingRaised(provider, pair, granularity, candles, remaining, to, rows, log, failed, request);
          failed := true;
          stopped := true;
        case Page(data) =>
          if |data| == 0 {
            PagingEmpty(provider, pair, granularity, candles, remaining, to, rows, log, failed, request);
            stopped := true;
          } else {
            PagingNext(provider, pair, granularity, candles, remaining, to, rows, log, failed, request);
            to := Some(data[0].time);
            remaining := remaining - batch;
          }
          rows := rows + CompleteRows(data);
      }
      log := log + [request];
    }
    PagingDone(provider, pair, granularity, candles, remaining, to, stopped, rows, log, failed);
  }

  /** `fetch_live_data(pair, candles, timeframe)`.

      Pages backwards as `PageBackwards` describes. An exception discards
      everything and yields the empty frame. Otherwise the complete candles of
      all pages come back sorted by time, or the empty frame when there are
      none. If no page is empty, exactly ceil(candles / 5000) requests are
      made, with the batch sizes of `Plan`. */
  method FetchLiveData(provider: Provider, pair: string, candles: int, timeframe: string)
    returns (frame: Table, log: seq<Request>)
    ensures forall i :: 0 <= i < |log| ==> log[i].instrument == pair && log[i].granularity == Granularity(timeframe)
    ensures forall i :: 0 <= i < |log| ==> 1 <= log[i].count <= MaxBatch
    ensures forall i :: 0 <= i < |log| ==> log[i].count == BatchSize(candles, i)
    ensures |log| <= BatchCount(candles)
    ensures Requested(log) <= if candles > 0 then candles else 0
    ensures candles <= 0 ==> log == [] && frame == EmptyFrame
    ensures candles > 0 ==> |log| > 0
    ensures |log| > 0 ==> log[0].to == None
    ensures forall i :: 0 <= i < |log| - 1 ==>
              Answered(provider(log[i])) && log[i + 1].to == Some(provider(log[i]).candles[0].time)
    ensures (forall i :: 0 <= i < |log| ==> Answered(provider(log[i]))) ==>
              |log| == |Plan(candles)| && forall i :: 0 <= i < |log| ==> log[i].count == Plan(candles)[i]
    ensures Failed(provider, log) ==> frame == EmptyFrame
    ensures !Failed(provider, log) && Harvest(provider, log) == [] ==> frame == EmptyFrame
    ensures !Failed(provider, log) && Harvest(provider, log) != [] ==>
              && frame.columns == PriceColumns
              && SortedByTime(frame.rows)
              && multiset(frame.rows) == multiset(Harvest(provider, log))
    ensures forall x :: x in frame.rows ==> Collected(provider, log, x)
    ensures !Failed(provider, log) ==>
              forall i, k :: CompleteCandle(provider, log, i, k) ==>
                ToRow(provider(log[i]).candles[k]) in frame.rows
    ensures (forall i :: 0 <= i < |log| ==> PageFits(provider(log[i]), log[i].count)) ==>
              |frame.rows| <= if candles > 0 then candles else 0
  {
    var rows, failed;
    rows, log, failed := PageBackwards(provider, pair, candles, Granularity(timeframe));
    if failed || rows == [] {
      frame := EmptyFrame;
    } else {
      frame := Table(PriceColumns, SortByTime(rows));
      assert forall x :: x in frame.rows <==> x in rows by {
        forall x ensures x in frame.rows <==> x in rows {
          assert x in frame.rows <==> x in multiset(frame.rows);
        }
      }
    }
    HarvestSound(provider, log);
    HarvestComplete(provider, log);
    if forall i :: 0 <= i < |log| ==> PageFits(provider(log[i]), log[i].count) {
      HarvestBound(provider, log);
    }
    if forall i :: 0 <= i < |log| ==> Answered(provider(log[i])) {
      PlanClosedForm(candles);
      if candles > 0 {
        BatchCountExact(candles, |log|);
      }
    }
  }

  /** The default candle count of `fetch_live_data`. */
  const DefaultCandles: int := 200

  /** `fetch_live_data(pair)` with the default arguments: 200 candles of the
      one-hour timeframe. They fit one page, so exactly one request goes out,
      with no `to` boundary, and the frame holds that page's complete candles
      sorted by time, unless the request raised. */
  method FetchDefault(provider: Provider, pair: string) returns (frame: Table, log: seq<Request>)
    ensures log == [Request(pair, DefaultCandles, "H1", None)]
    ensures provider(log[0]).Raised? ==> frame == EmptyFrame
    ensures provider(log[0]).Page? && CompleteRows(provider(log[0]).candles) == [] ==> frame == EmptyFrame
    ensures provider(log[0]).Page? && CompleteRows(provider(log[0]).candles) != [] ==>
              && frame.columns == PriceColumns
              && SortedByTime(frame.rows)
              && multiset(frame.rows) == multiset(CompleteRows(provider(log[0]).candles))
  {
    frame, log := FetchLiveData(provider, pair, DefaultCandles, DefaultGranularity);
    assert BatchCount(DefaultCandles) == 1;
    assert log[..0] == [];
  }
}
