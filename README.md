# Seoul subway ridership pipeline — a Dafny model

This project models the sequential core of a small data pipeline. The pipeline collects daily boarding and alighting counts per subway station from the Seoul open-data service `CardSubwayStatsNew`. It then cleans the table and picks each station's busiest record. Three source files are modelled:

- **`src/api/subway_fetcher.py`** (modules `Url` and `SubwayFetcher`):
  - the request URL with its percent-encoded route and station filters;
  - decoding of one service response;
  - enumeration of the days of a date range;
  - paging through one day in fixed windows;
  - merging of the days' rows in the order their tasks complete.

  The network is a function from a URL to a response. `fetch_subway_data` returns the raw `row` value of whatever JSON type, and `PageOutcome` is the step of `fetch_day_date` that tests it with `not rows` and extends the day's list by it. A day's pages come from a *page source* `(day, start, end) -> Result<rows, error>`: that step applied to one request. The thread pool's completion order is an arbitrary permutation `order` of the date indices. `FetchDayData` and `MergeDays` are the source's loops, written as `while` loops. Each is proved against a recursive specification function.
- **`src/preprocess/clean_subway_data.py`** (modules `Frames` and `CleanSubwayData`):
  - the column check and renaming;
  - the `%Y%m%d` and numeric coercions;
  - `dropna` over five key fields;
  - first-occurrence `drop_duplicates` over `(date, line, station)`;
  - the `weekday` / `weekpart` columns.

  A DataFrame is a table of labelled columns over positional rows (`Frames.Table`). The frame that `load_raw_data` and `add_derived_columns` update in place is the class `Frames.Frame`. Its `AssignColumn` method is pandas' `df[name] = values`.
- **`src/analyze/peak_station_analysis.py`** (module `PeakStationAnalysis`): `total = ride + getoff` is added to the caller's frame. Then come the sort by station and by total (high to low), `groupby('station').first()`, and the projection onto `station, line, date, total`.

Supporting modules:
- `Wrappers`: `Option` and `Result`.
- `Digits`: decimal digit strings, Python's `str(int)` and `int(str)`.
- `Calendar`: proleptic-Gregorian days with `datetime`'s ordinals, `weekday()`, `strftime("%Y%m%d")` and `strptime(.., "%Y-%m-%d")`.

## Model

| member | source | states |
|---|---|---|
| Url.BuildUrl | src/api/subway_fetcher.py:16-20 | The definition of `build_url`: base URL, key, data type, service name, window, day and the two quoted filters joined by '/'. It has no contract of its own; `BuildUrlLayout` states its layout. |
| Url.BuildUrlLayout | src/api/subway_fetcher.py:16-20 | The URL is the base URL, then '/', then exactly the eight segments key, data type, `CardSubwayStatsNew`, start, end, day, quoted route and quoted station, in that order (split back at '/'). Empty filters give empty trailing segments. |
| Url.Quote | src/api/subway_fetcher.py:17-18 | The definition of `quote` with its default safe character '/': UTF-8 bytes, unreserved bytes and '/' kept, every other byte written `%XX` in upper-case hex. Its properties are `QuoteKeepsSafeText`, `UnquoteQuote` and `QuoteAlphabet`. |
| Url.QuoteKeepsSafeText | src/api/subway_fetcher.py:17-18 | `quote` leaves text made only of unreserved characters (section 2.3 of RFC 3986) and '/' unchanged; the empty filter stays empty. |
| Url.UnquoteQuote | src/api/subway_fetcher.py:17-18 | Percent-decoding the quoted filter gives back the filter's UTF-8 bytes, so the encoding loses nothing. |
| Url.QuoteAlphabet | src/api/subway_fetcher.py:17-19 | A quoted filter holds only unreserved characters, '/', '%' and hex digits, and it holds a '/' exactly when the filter does. |
| Url.UnquoteQuoteBytes | src/api/subway_fetcher.py:17-18 | Byte-level round trip of percent-encoding. |
| Url.SplitJoin | src/api/subway_fetcher.py:19 | Joining slash-free segments with '/' and splitting again gives the segments back. |
| SubwayFetcher.DecodeResponse | src/api/subway_fetcher.py:26-34 | A status other than 200 is exactly the `BadStatus` error, and a 200 body that is not JSON exactly `NotJson`. The ValueError `MissingServiceKey` happens exactly when Python's `in` test finds no `CardSubwayStatsNew` in the body: a missing key, a list without that string, or a string without it. The TypeError `BodyTypeError` happens exactly for a body that is not an object and either passes that test or cannot be tested (null, a boolean, a number). Success happens exactly when the body is an object whose `CardSubwayStatsNew` value is an object. The result is then that object's `row` value, whatever its JSON type, or `[]` when there is none. |
| SubwayFetcher.PageOutcome | src/api/subway_fetcher.py:49-55 | A raised exception ends the day with that error. A falsy `row` (null, false, 0, "", [] or {}) ends the day with no rows, as `if not rows: break` does. Rows are added and the loop goes on exactly for a non-empty list or string: a list adds its items in order, a string adds its characters one by one. A truthy number or `true` makes `extend` raise. |
| SubwayFetcher.DecodeServiceBody | src/api/subway_fetcher.py:29-34 | Decoding a well-formed service body yields its `row` list, and extending by it adds exactly its rows, in order. |
| SubwayFetcher.FetchSubwayData | src/api/subway_fetcher.py:22-34 | The one request goes to the URL `build_url` gives. The result is a transport failure exactly when that request raises, and a `BadStatus` error exactly when it answers with a status other than 200. It succeeds exactly when the answer is a 200 JSON object whose `CardSubwayStatsNew` value is an object. |
| SubwayFetcher.FetchServiceRows | src/api/subway_fetcher.py:49-52 | When the service answers the built URL with a body holding `rows`, the page adds exactly `rows` to the day. |
| SubwayFetcher.GetAllDates | src/api/subway_fetcher.py:36-41 | It succeeds exactly when both texts parse as `%Y-%m-%d`. Otherwise the error names the start text if that one fails, and else the end text. On success there are `days(end) - days(start) + 1` entries, or none when the end comes first. Entry `i` is the eight-digit text of the day `start + i`. |
| SubwayFetcher.DateRange | src/api/subway_fetcher.py:39-41 | The definition of the list comprehension over `range(delta.days + 1)`. It has no contract of its own; `DateRangeLength`, `DateRangeEntries`, `DateRangeFirst`, `DateRangeLast`, `DateRangeConsecutive` and `DateRangeAscending` state its properties. |
| SubwayFetcher.DateRangeLength | src/api/subway_fetcher.py:39-41 | The range is empty exactly when the end is before the start; no error is raised. Otherwise it has `days(end) - days(start) + 1` entries. |
| SubwayFetcher.DateRangeEntries | src/api/subway_fetcher.py:41 | Every entry is eight ASCII digits that parse back to the day `start + i`. |
| SubwayFetcher.DateRangeFirst | src/api/subway_fetcher.py:41 | The first entry is the start day. |
| SubwayFetcher.DateRangeLast | src/api/subway_fetcher.py:41 | The last entry is the end day. |
| SubwayFetcher.DateRangeConsecutive | src/api/subway_fetcher.py:41 | Each entry is the day after the previous one: no gaps and no repeats. |
| SubwayFetcher.DateRangeAscending | src/api/subway_fetcher.py:41 | The entries ascend strictly. |
| SubwayFetcher.WindowsContiguous | src/api/subway_fetcher.py:46-47 | Each window starts right after the previous one ends. `Window` itself ensures that every window is `chunk_size` wide. |
| SubwayFetcher.FetchDayData | src/api/subway_fetcher.py:43-57 | The loop's rows and its requested windows equal the recursive specification `DayRows` / `DayRequests`. |
| SubwayFetcher.RequestsFromWindows | src/api/subway_fetcher.py:45-47 | From page `p` on, call `k` requests window `p + k`, and at most the remaining pages are requested. |
| SubwayFetcher.RequestsFromStops | src/api/subway_fetcher.py:48-55 | Every call but the last returned rows. The last call failed or came back empty unless it used up the pages. |
| SubwayFetcher.RequestsFromRows | src/api/subway_fetcher.py:49-52 | The rows gathered are the requested pages' rows, concatenated in order. |
| SubwayFetcher.DayRequestsSpec | src/api/subway_fetcher.py:43-57 | For one day: call `k` requests `[k*chunk+1, (k+1)*chunk]`; at most `max_page` calls are made and at least one when `max_page > 0`. Pagination stops at the first empty or failed page; the failure is swallowed. The day's rows are the in-order concatenation of the pages before the stop. |
| SubwayFetcher.StopsAtEmptyPage | src/api/subway_fetcher.py:45-55 | Two non-empty pages followed by an empty third give exactly the first two pages, and nothing past the third window is requested. |
| SubwayFetcher.FirstPageFailure | src/api/subway_fetcher.py:53-57 | A failed first request gives no rows and no second request. |
| SubwayFetcher.PermutationInRange | src/api/subway_fetcher.py:64-65 | A completion order over the submitted dates lists each date index once and only valid indices. |
| SubwayFetcher.FetchAllData | src/api/subway_fetcher.py:59-74 | A bad date range fails with the parse error. Otherwise the result is the merge of the days' frames in completion order, and the completed dates are the date list once each. |
| SubwayFetcher.MergeDays | src/api/subway_fetcher.py:61-74 | The loop's result equals `Merged` for the completion order, and the dates it logs are each date exactly once. |
| SubwayFetcher.Merged | src/api/subway_fetcher.py:61-74 | The definition of the merge: the non-empty day frames, in completion order, concatenated, or the concat error when there is none. It has no contract of its own; `MergeDays`, `MergeOrderIndependent` and `MergeFailsWhenNothingKept` state its properties. |
| SubwayFetcher.KeptBag | src/api/subway_fetcher.py:68-70 | The appended frames, flattened, form exactly the bag of the non-empty frames of the completed tasks. |
| SubwayFetcher.KeptNone | src/api/subway_fetcher.py:69-70 | Nothing is appended exactly when every completed task returned an empty frame. |
| SubwayFetcher.BagOfPermutation | src/api/subway_fetcher.py:65 | What the tasks contribute, as a bag, does not depend on the order they complete in. |
| SubwayFetcher.MergeOrderIndependent | src/api/subway_fetcher.py:64-74 | The concat raises exactly when every day is empty. Otherwise any two completion orders give the same bag of rows, whose size is the sum of the non-empty days' row counts. |
| SubwayFetcher.MergeFailsWhenNothingKept | src/api/subway_fetcher.py:74 | `pd.concat` of an empty list fails exactly when no day yielded rows. |
| SubwayFetcher.BagSize | src/api/subway_fetcher.py:69-74 | The bag of all contributions has as many rows as the non-empty days together. |
| SubwayFetcher.CompletedOnce | src/api/subway_fetcher.py:64-66 | Each submitted date completes exactly once. |
| Calendar.ParseCompactFormat | src/api/subway_fetcher.py:41 | A formatted day parses back to itself under the strict `%Y%m%d` reading. |
| Calendar.Format | src/api/subway_fetcher.py:41 | `strftime("%Y%m%d")` gives eight ASCII digits for every valid day. |
| Calendar.FormatParseCompact | src/preprocess/clean_subway_data.py:26-27 | A text the strict `%Y%m%d` reading accepts is the formatted text of the day it yields. |
| Calendar.ParseDashedPadded | src/api/subway_fetcher.py:37-38 | `strptime(.., "%Y-%m-%d")` accepts the zero-padded text of every valid day and yields that day. |
| Calendar.ParseDashed | src/api/subway_fetcher.py:37-38 | A text `strptime(.., "%Y-%m-%d")` accepts always yields a valid day. |
| Calendar.OrdinalOrder | src/api/subway_fetcher.py:39 | Ordinal order is calendar order, and equal ordinals mean equal days, so `e_date - s_date` counts days. |
| Calendar.AddDaysReaches | src/api/subway_fetcher.py:41 | Adding `days(e) - days(d)` days to `d` reaches `e`. |
| Calendar.NextDayStep | src/api/subway_fetcher.py:41 | The next day is valid and its ordinal is one more. |
| Calendar.WeekdayNext | src/preprocess/clean_subway_data.py:47 | The weekday lies in 0..6 and moves on by one each day, wrapping after Sunday. |
| Calendar.KnownMonday | src/preprocess/clean_subway_data.py:47 | 2024-01-01 has weekday 0, so Monday is 0. |
| Calendar.Weekday | src/preprocess/clean_subway_data.py:47 | `weekday()` lies in 0..6. |
| Digits.ParseIntText | src/preprocess/clean_subway_data.py:29-30 | The integer reading of `str(n)` is `n`. |
| CleanSubwayData.LoadedFails | src/preprocess/clean_subway_data.py:19-22 | Loading fails exactly when a source column is missing, and the error names exactly `expected - actual`. |
| CleanSubwayData.RenamedColumns | src/preprocess/clean_subway_data.py:7-14 | Labels outside the map keep their place and name. Once every source column is present, each one reappears under its short name holding the same cells. |
| CleanSubwayData.RenamedColumn | src/preprocess/clean_subway_data.py:24 | One renamed source column holds the same cells as before. |
| CleanSubwayData.RenamedTargets | src/preprocess/clean_subway_data.py:7-14 | After the check, the six short names are all columns of the renamed frame. |
| CleanSubwayData.CoerceDateExact | src/preprocess/clean_subway_data.py:26-27 | A cell becomes a day exactly when it is the eight-digit text of that day and the day lies in the pandas timestamp range; anything else becomes null. |
| CleanSubwayData.CoerceNumberExact | src/preprocess/clean_subway_data.py:29-30 | A cell becomes a number exactly when it is an integer text, and every integer's text comes back as itself; anything else becomes null. |
| CleanSubwayData.CoercedStep | src/preprocess/clean_subway_data.py:26-30 | Coercing one more column keeps the others as they were. |
| CleanSubwayData.LoadedColumns | src/preprocess/clean_subway_data.py:16-32 | On success the columns are the renamed labels in order and the rows are as many as were read. Every column holds its read cells put through the coercion its label calls for. |
| CleanSubwayData.LoadedCoerced | src/preprocess/clean_subway_data.py:26-30 | Exactly date, registered_at, ride and getoff are coerced. |
| CleanSubwayData.LoadRawData | src/preprocess/clean_subway_data.py:16-32 | The method fails exactly as `Loaded` does. On success it returns a fresh, well-formed frame holding `Loaded`'s table. |
| CleanSubwayData.Loaded | src/preprocess/clean_subway_data.py:16-32 | The definition of `load_raw_data`'s result: the column check, the rename and the four coercions. It has no contract of its own; `LoadedFails`, `LoadedColumns` and `LoadedCoerced` state its properties. |
| CleanSubwayData.CleanDataFails | src/preprocess/clean_subway_data.py:37 | `dropna` raises exactly when a subset column is missing, and names those columns. |
| CleanSubwayData.CleanData | src/preprocess/clean_subway_data.py:34-44 | The definition of `clean_data`: `dropna` over the five fields, then `drop_duplicates` over date, line and station. It has no contract of its own; the `CleanData*` lemmas state its properties. |
| CleanSubwayData.CleanDataSubseq | src/preprocess/clean_subway_data.py:37-39 | The columns stay the same. The rows are an order-preserving subsequence of the input, so the count never grows. |
| CleanSubwayData.CleanDataComplete | src/preprocess/clean_subway_data.py:37 | Every output row has date, line, station, ride and getoff present. |
| CleanSubwayData.CleanDataUnique | src/preprocess/clean_subway_data.py:39 | No two output rows share `(date, line, station)`. |
| CleanSubwayData.CleanDataKeepsFirst | src/preprocess/clean_subway_data.py:37-39 | The output has exactly the keys of the complete input rows, and each output row is the first complete input row with its key. By position: output row `j` is input row `p[j]` for strictly increasing positions `p`. Those positions are exactly the complete rows that no earlier complete row shares `(date, line, station)` with, so the output is fixed row for row. |
| CleanSubwayData.CleanDataIdempotent | src/preprocess/clean_subway_data.py:34-44 | Cleaning a cleaned frame changes nothing. |
| CleanSubwayData.DerivedShape | src/preprocess/clean_subway_data.py:46-49 | The row count and every other column are unchanged, and both new labels are present. |
| CleanSubwayData.Derived | src/preprocess/clean_subway_data.py:46-49 | The definition of the two added columns. It has no contract of its own; `DerivedShape` and `DerivedSpec` state its properties. |
| CleanSubwayData.DerivedSpec | src/preprocess/clean_subway_data.py:47-48 | `weekday` is the date's weekday in 0..6 with Monday 0, or null for a missing date. `weekpart` is "weekday" exactly when the weekday is below 5 and "weekend" otherwise, a missing date included. |
| CleanSubwayData.WeekdayCellMonday | src/preprocess/clean_subway_data.py:47 | 2024-01-01 maps to weekday 0, and the cell's weekday advances by one each day modulo 7. |
| CleanSubwayData.AddDerivedColumns | src/preprocess/clean_subway_data.py:46-49 | A missing `date` column or a non-datetime one raises and leaves the frame unchanged. Otherwise the caller's frame becomes `Derived` of its old contents. |
| Frames.WithColumnSpec | src/preprocess/clean_subway_data.py:26-30 | `df[name] = values` keeps the frame well formed and its row count. Afterwards the column holds `values`, every other column keeps its place and cells, and the label list grows by `name` exactly when it was new. |
| Frames.WithColumn | src/preprocess/clean_subway_data.py:26-30 | The definition of `df[name] = values` on a table. It has no contract of its own; `WithColumnSpec` states its properties, including that the column then reads back as `values`. |
| Frames.Frame.AssignColumn | src/preprocess/clean_subway_data.py:47-48 | The in-place assignment leaves the frame holding `WithColumn` of its old contents. |
| Frames.DropNaSpec | src/preprocess/clean_subway_data.py:37 | `dropna(subset)` keeps an order-preserving subsequence. Every kept row is complete, and every complete row keeps exactly as many copies as it had in the input. |
| Frames.DropNaRows | src/preprocess/clean_subway_data.py:37 | The definition of `dropna(subset)` on rows. It has no contract of its own; `DropNaSpec` and `DropNaPositions` state its properties. |
| Frames.DropNaCounts | src/preprocess/clean_subway_data.py:37 | Each complete row keeps all its copies, and no incomplete row keeps any. |
| Frames.DropNaPositions | src/preprocess/clean_subway_data.py:37 | The output is the input at strictly increasing positions, and those are exactly the positions of the complete rows. |
| Frames.DropNaKeepsComplete | src/preprocess/clean_subway_data.py:37 | `dropna` leaves rows that are all complete unchanged. |
| Frames.DedupSubseq | src/preprocess/clean_subway_data.py:39 | `drop_duplicates(subset)` keeps an order-preserving subsequence. |
| Frames.DedupKeys | src/preprocess/clean_subway_data.py:39 | The keys present after de-duplication are exactly those present before. |
| Frames.DedupDistinct | src/preprocess/clean_subway_data.py:39 | After de-duplication no key repeats. |
| Frames.DedupKeepsFirst | src/preprocess/clean_subway_data.py:39 | Each kept row is the first input row with its key. |
| Frames.DedupRows | src/preprocess/clean_subway_data.py:39 | The definition of `drop_duplicates(subset)` with `keep='first'`. It has no contract of its own; the `Dedup*` lemmas state its properties. |
| Frames.DedupPositions | src/preprocess/clean_subway_data.py:39 | The output is the input at strictly increasing positions, and those are exactly the rows no earlier row shares the key with, so pandas' first-occurrence result is fixed row for row. |
| Frames.DropDedupPositions | src/preprocess/clean_subway_data.py:37-39 | `dropna` then `drop_duplicates`: the output is the input at strictly increasing positions, and those are exactly the complete rows no earlier complete row shares the key with. |
| Frames.DedupKeepsDistinct | src/preprocess/clean_subway_data.py:39 | De-duplication leaves rows with distinct keys unchanged. |
| Frames.MissingLabels | src/preprocess/clean_subway_data.py:37 | The labels a lookup reports missing are exactly the wanted ones that are not columns. |
| PeakStationAnalysis.WithTotalSpec | src/analyze/peak_station_analysis.py:8 | Every row gets `total = ride + getoff`, missing when either count is missing. No other column changes, and no row is added or removed. |
| PeakStationAnalysis.WithTotal | src/analyze/peak_station_analysis.py:8 | The definition of `df['total'] = df['ride'] + df['getoff']` on a table. It has no contract of its own; `WithTotalSpec` states its properties. |
| PeakStationAnalysis.FindPeakPerStation | src/analyze/peak_station_analysis.py:7-16 | A missing `ride` or `getoff` raises before anything changes. Otherwise `total` is added to the caller's frame, and the result is computed from the frame as it now is. |
| PeakStationAnalysis.PeaksAfterTotal | src/analyze/peak_station_analysis.py:9-15 | After the total is added, the chain raises exactly when station, line or date is missing. Otherwise it yields the peak table. |
| PeakStationAnalysis.Peaks | src/analyze/peak_station_analysis.py:10-14 | The definition of the sort, group and projection chain, with its KeyError. It has no contract of its own; `PeaksAfterTotal` states its properties. |
| PeakStationAnalysis.PeakTable | src/analyze/peak_station_analysis.py:10-14 | The definition of the peak table once the columns exist. It has no contract of its own; `PeakStations`, `PeakTotal`, `PeakPick` and `PeakSameRow` state its properties. |
| PeakStationAnalysis.PeakStations | src/analyze/peak_station_analysis.py:10-14 | The columns are exactly station, line, date, total, in that order. There is one row per present station value, and the stations ascend strictly. |
| PeakStationAnalysis.PeakTotal | src/analyze/peak_station_analysis.py:10-12 | A station's total is the largest total among its input rows, and missing exactly when none of them has one. |
| PeakStationAnalysis.PeakPick | src/analyze/peak_station_analysis.py:10-12 | A station's line and date are each the first present value in sorted order: missing exactly when no row of the station has one. Otherwise the value comes from a row of the station that no other such row outranks and that outranks every such row before it. |
| PeakStationAnalysis.PeakSameRow | src/analyze/peak_station_analysis.py:10-13 | When every row of a station has its line and date, both come from one input row of that station that attains the largest total. With every total present, that row's total is the station's total. |
| PeakStationAnalysis.BestSpec | src/analyze/peak_station_analysis.py:10-12 | `first()` picks a row exactly when the group has a present value. No eligible row has a higher total than the pick, and every earlier eligible row has a lower one (the sort is stable). |
| PeakStationAnalysis.StationsSpec | src/analyze/peak_station_analysis.py:11-13 | The group keys are the distinct present station values, in ascending order. |
| PeakStationAnalysis.InsertSpec | src/analyze/peak_station_analysis.py:11 | Inserting a key into an ascending key list keeps it ascending, adds that key and nothing else. |
| PeakStationAnalysis.CellLessTransitive | src/analyze/peak_station_analysis.py:10 | The station order is transitive. |
| PeakStationAnalysis.CellLessTotal | src/analyze/peak_station_analysis.py:10 | Any two distinct present keys are ordered. |
| PeakStationAnalysis.StrLessTransitive | src/analyze/peak_station_analysis.py:10 | Python's string order is transitive. |
| PeakStationAnalysis.StrLessTotal | src/analyze/peak_station_analysis.py:10 | Any two distinct strings are ordered. |

## Left out

- HTTP, environment and the API key: `requests.get` and its 10-second timeout, `load_dotenv`/`os.getenv` and the import-time assert on the key (src/api/subway_fetcher.py:10-12, 24). The network is the parameter `net`, and the key is a parameter.
- Concurrency: `ThreadPoolExecutor`, `as_completed` and `tqdm`. Completion order is an arbitrary permutation `order` given to `FetchAllData`, and the merge loop runs sequentially.
- SubwayFetcher.Merged: a day whose records `pd.DataFrame(day_data)` cannot build is not modelled. That call sits outside the `try` of `fetch_day_date`, so such a day raises inside `future.result()`, and the `except` at lines 71-72 drops it. An example is object records mixed with numbers or with the characters of a string `row`. The model keeps that day's records.
- File I/O and logging: `read_csv`, `to_csv`, every `print`, and the `run()` drivers. `LoadRawData` receives the table `read_csv(path, dtype=str)` would produce, with every present cell a `Text`.
- pandas internals: the column union and index reset of `pd.concat`. Merged rows are a sequence of opaque JSON records, and a day's `DataFrame(day_data)` is its record list. `FrameIsEmpty` (`df.empty`) is true for a list of empty objects as well as for the empty list. Other record lists that pandas also reads as empty, such as a list of empty arrays, are not modelled.
- Integer width: counts are unbounded integers. The int64 overflow of `ride + getoff` and of `to_numeric` is not modelled.
- CleanSubwayData.CoerceNumber: `to_numeric` also accepts decimals, exponents, surrounding spaces, signs and `inf`. The model only accepts optionally signed decimal integers, and every other text becomes null.
- CleanSubwayData.CoerceDate: `to_datetime(format='%Y%m%d')` is modelled as exactly eight ASCII digits naming a valid day between 1677-09-22 and 2262-04-11. pandas' leniency towards other digit counts is not modelled.
- Calendar.ParseDashed: the year is exactly four ASCII digits. Unicode digits that `strptime`'s `\d` also accepts are not modelled.
- Calendar.Format: the year is always written with four digits. glibc's `strftime` writes years before 1000 unpadded; that is not modelled.
- SubwayFetcher.PageOutcome: Python extends the day by the keys of a non-empty object `row`, in document order, and goes on to the next page. JSON objects are unordered maps here, so the model ends the day at such a page with `ObjectRow`.
- CleanSubwayData.DateLike: tables carry no dtypes, so the `.dt` check looks at the cells. A column holding only nulls passes the check, whatever its dtype would be in pandas.
- CleanSubwayData.LoadRawData: it requires the renamed labels to be distinct once every source column is present. pandas would allow a duplicate label, for example a raw table that already has a `date` column besides `USE_YMD`. The model does not cover such a table.
- PeakStationAnalysis.TotalCell: a text `ride` or `getoff` would concatenate strings in pandas. The model gives a missing total instead, because after loading both columns hold only numbers or nulls.
- PeakStationAnalysis.CellLess: sorting a station column that mixes kinds (text with numbers) raises a `TypeError` in pandas. The model orders the kinds instead.
- Python's `datetime` objects and `timedelta` arithmetic are replaced by ordinal arithmetic on `Calendar.Date`. JSON numbers are modelled as integers.

The merge, the date list and the output behave as follows:
- The merged rows are not re-sorted by date. They come in completion order.
- A reversed date range gives an empty date list, which then makes the concat raise. It is not reported as an error of its own.
- Failed days are not collected into a failure report.
- The output is not written atomically.
