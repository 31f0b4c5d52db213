# Forex candle fetching and preprocessing, modelled in Dafny

This project models the data path of a forex prediction tool. It covers two parts.

**Fetching candles.** `fetch_live_data` pages backwards through a broker's candle history:
- It asks for at most 5000 candles per request.
- Each request after the first carries a `to` boundary: the time of the first candle of the previous page.
- It keeps only complete candles, and returns them sorted by time.
- `TIMEFRAME_MAP` turns the caller's timeframe into the broker's granularity.

**Preprocessing the frame.** Three stages run on the fetched frame:
- `clean_data` sorts by timestamp, drops repeated timestamps, then forward-fills and back-fills missing values.
- `add_indicators` writes five indicator columns and four temporary helper columns, then drops the helpers.
- `add_target` adds a 0/1 label that says whether the next close is higher.

The model is organised as follows:
- A frame is a `Frame.Table`: a list of column names plus rows. Each row has a timestamp key and one `Option<real>` cell per column, where `None` stands for NaN.
- The broker is a `DataCollection.Provider`: a function from a request to either a page of raw candles or an exception.
- Every stage is a pure function of its input, except the paging loop, which is a method with loop invariants.

| file | module | models |
|---|---|---|
| frame.dfy | `Frame` | tables, column lookup, `df[name] = values`, `df.drop(names, axis=1)` |
| sorting.dfy | `Sorting` | `sort_values("timestamp")` |
| fill.dfy | `Filling` | `fillna(method="ffill").fillna(method="bfill")` on one column |
| cleaning.dfy | `Cleaning` | `clean_data` |
| data_collection.dfy | `DataCollection` | `TIMEFRAME_MAP` and `fetch_live_data` |
| indicators.dfy | `Indicators` | the column structure of `add_indicators` and its moving averages |
| target.dfy | `Target` | `add_target` |

Behaviour of the code worth noting, all of it modelled as the code does it:
- **The last row's `target` is 0, not undefined.** `shift(-1)` puts NaN in the last row, the comparison with NaN is false, and `astype(int)` turns false into 0.
- **Which row survives among equal timestamps is not fixed.** `sort_values` uses an unstable sort by default, so the surviving row is not necessarily the earliest input row. `Cleaning.CleanData` only promises that each output row agrees with some input row that has the same timestamp.
- **"A column ends with missing cells only if it was entirely missing" holds for the sorted, de-duplicated frame.** It does not hold for the raw input: de-duplication can drop the only row where a column had a value.
- **If no page has a complete candle, the result is the empty frame.** `pd.concat` of frames with no columns has no `timestamp` column. The resulting `KeyError` is caught, so `fetch_live_data` returns the empty frame, exactly as it does after an exception.

## Model

| member | source | states |
|---|---|---|
| DataCollection.Granularity | src/data_collection.py:15-35 | The result is one of M15, H1, H4 or D. It equals the timeframe exactly when the timeframe is one of those four; any other timeframe gives H1. |
| DataCollection.CompleteRows | src/data_collection.py:59-70 | A page yields exactly as many rows as it has complete candles. The row of every complete candle is among them, and every row is the row of a complete candle. |
| DataCollection.CompleteRowsOrder | src/data_collection.py:59-70 | The row of the complete candle at position k is row number "complete candles before k". With the row count, this fixes every row: the complete candles, in page order. |
| DataCollection.PlanClosedForm | src/data_collection.py:41-76 | When every page is non-empty, the loop's batch sequence has ceil(n / 5000) entries. Entry i is min(n - 5000·i, 5000) and lies between 1 and 5000. The entries add up to n, or to 0 when n ≤ 0. |
| DataCollection.TwelveThousand | src/data_collection.py:41-42 | 12000 candles are requested as 5000, 5000 and 2000: three requests. |
| DataCollection.HarvestBound | src/data_collection.py:41-76 | When no page is longer than its request, the rows collected are no more than the candles requested. |
| DataCollection.HarvestSound | src/data_collection.py:59-72 | Every collected row is the row of a complete candle of some page. |
| DataCollection.HarvestComplete | src/data_collection.py:59-72 | Every complete candle of every page is collected. |
| DataCollection.PageBackwards | src/data_collection.py:36-76 | Properties of the request log. (1) Each request is for the pair at the granularity. (2) Request i asks for min(candles - 5000·i, 5000) candles, between 1 and 5000. (3) There are at most ceil(candles / 5000) requests, together asking for at most `candles`. (4) No request is made exactly when candles ≤ 0. (5) The first request has no `to`. (6) Every earlier request got a non-empty page whose first candle's time is the next request's `to`. (7) If the last page was non-empty, exactly `candles` were asked for. (8) The collected rows are the complete rows of all pages, in order. (9) `failed` holds exactly when the last request raised. |
| DataCollection.FetchLiveData | src/data_collection.py:35-89 | The request log has properties (1) to (6) of `PageBackwards`: pair and granularity, each request's size, the request count, the total asked for, the empty log for candles ≤ 0, and the `to` chain. When every page is non-empty, the batch sizes are exactly the loop's plan. An exception, or no complete candle at all, gives the empty frame. Otherwise the frame holds the collected rows sorted by time, as a permutation. Every row is a complete candle, and without an exception every complete candle is present. When pages fit their requests, there are at most `candles` rows. |
| DataCollection.FetchDefault | src/data_collection.py:22 | With the defaults of 200 candles and timeframe H1, exactly one request goes out: 200 one-hour candles of the pair, with no `to`. If it raised, or its page had no complete candle, the frame is empty. Otherwise the frame holds that page's complete rows, sorted by time, as a permutation. |
| Sorting.SortByTime | src/data_preprocessing.py:17 | The result is ascending by timestamp and a permutation of the input. |
| Sorting.SortSortedIdentity | src/data_preprocessing.py:17 | Sorting rows whose timestamps already strictly increase leaves them unchanged. This is the only ascending order, so any sort agrees. |
| Filling.FFill | src/data_preprocessing.py:20 | A forward-filled cell is missing exactly when no cell at or above it is present. Otherwise it holds the nearest present value at or above it. |
| Filling.BFill | src/data_preprocessing.py:20 | A back-filled cell is missing exactly when no cell at or below it is present. Otherwise it holds the nearest present value at or below it. |
| Filling.Fill | src/data_preprocessing.py:20 | A present cell keeps its value. A missing cell takes the nearest earlier present value, or the nearest later one if there is none earlier. A column with any present cell ends fully present; a column with none stays fully missing. |
| Filling.FillSettled | src/data_preprocessing.py:20 | Filling a column that is fully present or fully missing changes nothing. |
| Filling.FillIdempotent | src/data_preprocessing.py:20 | Filling twice equals filling once. |
| Cleaning.DropDuplicateTimes | src/data_preprocessing.py:17 | The result has the same set of timestamps, no timestamp twice, and only input rows. On ascending input, its timestamps strictly increase. |
| Cleaning.DropDuplicatesKeepsFirst | src/data_preprocessing.py:17 | `keep="first"`: each kept row is the first row of its timestamp in the sequence it is given, and the kept rows come in the order of those first occurrences. Conversely, every such first row is kept. In `clean_data` that sequence is the sorted one. |
| Cleaning.DedupeDistinct | src/data_preprocessing.py:17 | Rows whose timestamps are already distinct pass through unchanged. |
| Cleaning.CleanData | src/data_preprocessing.py:14-22 | Columns are unchanged. Timestamps strictly increase, with exactly the input's set of timestamps and no more rows than the input. Each row keeps every present value of an input row with its timestamp. Every column ends fully present or fully missing. |
| Cleaning.CleanDataColumns | src/data_preprocessing.py:17-20 | Each cleaned column is the filled column of the sorted, de-duplicated frame. It is fully missing exactly when that column was. |
| Cleaning.CleanDataIdempotent | src/data_preprocessing.py:14-22 | Cleaning a cleaned frame changes nothing. |
| Frame.AddColumn | src/data_preprocessing.py:37-59 | Assigning a column keeps the rows and timestamps and leaves every other column's cells alone. An existing name is overwritten in place; a new name is appended at the right. The named column then holds the values. |
| Frame.DropColumns | src/data_preprocessing.py:62 | Every dropped name must be a column, as `drop` raises KeyError otherwise. Dropping keeps the rows and timestamps. A name remains a column exactly when it was one and is not dropped. The remaining columns keep their relative order, and every one keeps its cells. |
| Indicators.RollingDefinedness | src/data_preprocessing.py:37-38 | With every close present, a w-row moving average is missing in rows 0 to w-2 and defined from row w-1 on. For SMA50 that is rows 0..48 and 49 on; for SMA200, rows 0..198 and 199 on. |
| Indicators.RollingGap | src/data_preprocessing.py:37-38 | A missing close inside a row's window leaves that row's moving average missing. |
| Indicators.RollingOfConstant | src/data_preprocessing.py:37-38 | Over a full window of equal closes, the moving average is that close. |
| Indicators.AddIndicators | src/data_preprocessing.py:34-64 | The function fails exactly when `close`, `high` or `low` is absent. Otherwise rows and timestamps are kept, and SMA50, SMA200, RSI, MACD and ATR are columns. H-L, H-C, L-C and TR are not. Every input column other than a helper is still present. The columns are exactly the input's columns and the five indicators, less the helpers. |
| Indicators.IndicatorValues | src/data_preprocessing.py:37-62 | Input columns other than indicator or helper names keep their cells. SMA50 and SMA200 are the 50- and 200-row moving averages of `close`. |
| Indicators.FreshIndicators | src/data_preprocessing.py:34-64 | On a frame with none of the nine written names, the columns become the input's columns followed by SMA50, SMA200, RSI, MACD and ATR. Every original cell is unchanged. |
| Target.Labels | src/data_preprocessing.py:75 | A label is 1 exactly when the next close is present and strictly above this row's present close; otherwise it is 0. The last label is 0. |
| Target.AddTarget | src/data_preprocessing.py:69-76 | The function fails exactly when `close` is absent. Otherwise rows, timestamps and every other column are kept, and `target` is appended or overwritten. `target` is 1 exactly at rows followed by a strictly higher close, and 0 elsewhere, including the last row. |
| Target.LabelsLocal | src/data_preprocessing.py:75 | A row's label depends only on its own close and the next one. |
| Target.RisingCloses | src/data_preprocessing.py:75 | Strictly rising closes are labelled 1 in every row but the last. |
| Target.RiseThenFall | src/data_preprocessing.py:72-75 | The closes 1.0, 2.0, 1.5 are labelled 1, 0, 0. |

## Left out

- The broker client, the dotenv and API-key loading, the HTTP request, and the error `print` (src/data_collection.py:1-12, 52-53, 88). These are I/O. The provider function and its `Raised` answer stand in for them.
- The `"price": "M"` request parameter. It never changes, and the provider is free to depend on it.
- The provider is a pure function of the request. A real broker can answer the same request differently over time. Within one run, only the first request (the one without `to`) is certain to be sent once. A later request repeats when a page begins at its own `to`, and the model then assumes the broker answers the repeat exactly as it did the first time.
- `if to_time:` tests the truthiness of a time string. The model assumes every candle time is truthy, so `to` is sent from the second request on.
- Parsing of prices and volumes, and `pd.to_datetime`. Timestamps are integers and prices are reals, already parsed. A failed `float` or `int` conversion (src/data_collection.py:63-67) raises inside the loop, and the model counts it as the page raising. A `pd.to_datetime` failure (src/data_collection.py:80) happens only after the loop. The code therefore still sends every remaining request, whereas the model's log stops at the page that fails to parse. The frame is empty either way.
- Index handling (`ignore_index`, `reset_index`) and dtypes. The model has no row index, and volume and `target` are stored as reals.
- The values of RSI, MACD, ATR and the helper columns, including the `1e-9` guard and the NaN handling of `where`, `ewm` and `max(axis=1)`. These are floating-point numerics. A `Numeric` parameter supplies them, and only the columns they occupy are modelled.
- Indicators.IndicatorValues: the SMA values are exact real means, not floating-point results.
- The timestamp column is a key that is never missing and is not filled. `clean_data` on a frame without a `timestamp` column, such as the empty frame from a failed fetch, raises `KeyError` in the code. `Cleaning.CleanData` returns that frame unchanged instead.
- Frames with repeated column names. `Frame.WellFormed` excludes them, and pandas allows them.
- Which of several rows with equal timestamps `sort_values` puts first. `Sorting.SortByTime` is one valid ascending permutation. The contracts of `FetchLiveData`, `FetchDefault`, `CleanData`, `CleanDataIdempotent` and `SortSortedIdentity` hold for every valid ascending order.
