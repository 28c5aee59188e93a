/**
  Paginated ingestion of the card-subway statistics service: decoding one
  response, enumerating the days of a range, paging through one day, and
  merging the days' rows as their tasks complete.
 */
module SubwayFetcher {
  import opened Wrappers
  import opened Digits
  import opened Calendar
  import Url

  /** A decoded JSON value (numbers are modelled as integers). */
  datatype Json =
    | JNull
    | JBool(b: bool)
    | JNumber(n: int)
    | JString(s: string)
    | JArray(items: seq<Json>)
    | JObject(fields: map<string, Json>)

  /** One raw row of the service; the core never looks inside it. */
  type Record = Json

  /** An HTTP response: its status and its body, `None` when the body is not JSON. */
  datatype Response = Response(status: int, body: Option<Json>)

  /** The exceptions one page of `fetch_day_date`'s loop can end in. */
  datatype FetchError =
    | TransportFailure     // `requests.get` raised (connection error, timeout)
    | BadStatus(code: int) // RuntimeError for a status other than 200
    | NotJson              // `response.json()` raised
    | MissingServiceKey    // ValueError: the body does not contain `CardSubwayStatsNew`
    | BodyTypeError        // TypeError: `in` or `[...]` on a body that is not an object
    | ServiceNotObject     // AttributeError: `.get("row", [])` on something that is not a dict
    | NotIterable          // TypeError: `day_data.extend` of a number or `true`
    | ObjectRow            // a non-empty object `row`, whose keys `extend` would add (not modelled)

  const ServiceKey := "CardSubwayStatsNew"
  const DefaultMaxPage := 50
  const DefaultChunkSize := 1000

  // ---------------------------------------------------------------------
  // Response decoding (`fetch_subway_data` after the HTTP call)

  /** `p` occurs in `s` as a contiguous piece (Python's `p in s` on strings). */
  predicate IsInfix(p: string, s: string)
    decreases |s|
  {
    |p| <= |s| && (s[..|p|] == p || IsInfix(p, s[1..]))
  }

  /** Python's `key in body`; `None` when `in` raises TypeError (null, booleans, numbers). */
  function Contains(body: Json, key: string): Option<bool>
  {
    match body
    case JObject(fields) => Some(key in fields)
    case JArray(items) => Some(JString(key) in items)
    case JString(s) => Some(IsInfix(key, s))
    case _ => None
  }

  /**
    What `fetch_subway_data` returns for a response: the raw value of
    `row` inside the service object, of whatever JSON type, or the
    exception it raises.
   */
  function DecodeResponse(resp: Response): (r: Result<Json, FetchError>)
    ensures resp.status != 200 <==> r == Failure(BadStatus(resp.status))
    ensures r == Failure(NotJson) <==> resp.status == 200 && resp.body.None?
    ensures r == Failure(MissingServiceKey) <==>
              resp.status == 200 && resp.body.Some? && Contains(resp.body.value, ServiceKey) == Some(false)
    ensures r == Failure(BodyTypeError) <==>
              resp.status == 200 && resp.body.Some? && !resp.body.value.JObject? &&
              Contains(resp.body.value, ServiceKey) != Some(false)
    ensures r.Success? <==>
              resp.status == 200 && resp.body.Some? && resp.body.value.JObject? &&
              ServiceKey in resp.body.value.fields && resp.body.value.fields[ServiceKey].JObject?
    ensures r.Success? ==>
              var service := resp.body.value.fields[ServiceKey].fields;
              && ("row" in service ==> r.value == service["row"])
              && ("row" !in service ==> r.value == JArray([]))
  {
    if resp.status != 200 then Failure(BadStatus(resp.status))
    else match resp.body
      case None => Failure(NotJson)
      case Some(json) =>
        match Contains(json, ServiceKey)
        case None => Failure(BodyTypeError)
        case Some(found) =>
          if !found then Failure(MissingServiceKey)
          else if !json.JObject? then Failure(BodyTypeError)
          else
            var service := json.fields[ServiceKey];
            if !service.JObject? then Failure(ServiceNotObject)
            else if "row" in service.fields then Success(service.fields["row"])
            else Success(JArray([]))
  }

  /** Python's truth value of a JSON value: `not rows` holds exactly when this is false. */
  predicate Truthy(v: Json)
  {
    match v
    case JNull => false
    case JBool(b) => b
    case JNumber(n) => n != 0
    case JString(s) => |s| > 0
    case JArray(items) => |items| > 0
    case JObject(fields) => |fields| > 0
  }

  /**
    One pass of `fetch_day_date`'s `try` block after the request: the rows
    `day_data.extend(rows)` adds, `Success([])` when `not rows` breaks the
    loop, or the exception that breaks it.
   */
  function PageOutcome(res: Result<Json, FetchError>): (r: Result<seq<Record>, FetchError>)
    ensures res.Failure? ==> r == Failure(res.error)
    ensures r == Success([]) <==> res.Success? && !Truthy(res.value)
    ensures r.Success? && |r.value| > 0 <==>
              res.Success? && Truthy(res.value) && (res.value.JArray? || res.value.JString?)
    ensures res.Success? && res.value.JArray? ==> r == Success(res.value.items)
    ensures res.Success? && res.value.JString? ==>
              r.Success? && |r.value| == |res.value.s| &&
              forall i :: 0 <= i < |r.value| ==> r.value[i] == JString([res.value.s[i]])
  {
    match res
    case Failure(e) => Failure(e)
    case Success(v) =>
      if !Truthy(v) then Success([])
      else match v
        case JArray(items) => Success(items)
        case JString(s) => Success(Characters(s))
        case JObject(_) => Failure(ObjectRow)
        case _ => Failure(NotIterable)
  }

  /** Iterating a Python string: its characters, each a one-character string. */
  function Characters(s: string): (r: seq<Record>)
    ensures |r| == |s| && forall i :: 0 <= i < |s| ==> r[i] == JString([s[i]])
  {
    if |s| == 0 then [] else [JString([s[0]])] + Characters(s[1..])
  }

  /** The body the service sends for a window holding `rows`. */
  function ServiceBody(rows: seq<Record>): Json
  {
    JObject(map[ServiceKey := JObject(map["row" := JArray(rows)])])
  }

  /** Decoding a well-formed service body and extending by it gives back exactly its rows, in order. */
  lemma DecodeServiceBody(rows: seq<Record>)
    ensures DecodeResponse(Response(200, Some(ServiceBody(rows)))) == Success(JArray(rows))
    ensures PageOutcome(DecodeResponse(Response(200, Some(ServiceBody(rows))))) == Success(rows)
  {
    assert Contains(ServiceBody(rows), ServiceKey) == Some(true);
  }

  /** The network: a URL to a response, or `None` when the request raised. */
  type Network = string -> Option<Response>

  /**
    `fetch_subway_data`: one request for the window `[startIdx, endIdx]` of
    day `ymd`, sent to the URL `build_url` gives.
   */
  function FetchSubwayData(net: Network, apiKey: string, ymd: string, startIdx: int, endIdx: int,
                           route: string, station: string, dataType: string): (r: Result<Json, FetchError>)
    ensures var resp := net(Url.BuildUrl(apiKey, ymd, startIdx, endIdx, route, station, dataType));
      && (r == Failure(TransportFailure) <==> resp.None?)
      && (r.Failure? && r.error.BadStatus? <==> resp.Some? && resp.value.status != 200)
      && (r.Success? <==>
            resp.Some? && resp.value.status == 200 && resp.value.body.Some? &&
            resp.value.body.value.JObject? && ServiceKey in resp.value.body.value.fields &&
            resp.value.body.value.fields[ServiceKey].JObject?)
  {
    match net(Url.BuildUrl(apiKey, ymd, startIdx, endIdx, route, station, dataType))
    case None => Failure(TransportFailure)
    case Some(resp) => DecodeResponse(resp)
  }

  /** A service answering the built URL with `rows` makes the page add exactly those rows. */
  lemma FetchServiceRows(net: Network, apiKey: string, ymd: string, startIdx: int, endIdx: int,
                         route: string, station: string, dataType: string, rows: seq<Record>)
    requires net(Url.BuildUrl(apiKey, ymd, startIdx, endIdx, route, station, dataType)) ==
             Some(Response(200, Some(ServiceBody(rows))))
    ensures PageOutcome(FetchSubwayData(net, apiKey, ymd, startIdx, endIdx, route, station, dataType)) == Success(rows)
  {
    DecodeServiceBody(rows);
  }

  // ---------------------------------------------------------------------
  // Date enumeration (`get_all_dates`)

  datatype DateError = InvalidDate(text: string)

  /**
    `get_all_dates(start_date, end_date)`; `Failure` stands for the
    ValueError of `strptime`, naming the first text that does not parse.
    Otherwise the dates are the days from start to end, one each, as
    `YYYYMMDD` texts, and none when the end comes first.
   */
  function GetAllDates(startDate: string, endDate: string): (r: Result<seq<string>, DateError>)
    ensures r.Success? <==> ParseDashed(startDate).Some? && ParseDashed(endDate).Some?
    ensures r.Failure? ==> r.error == InvalidDate(if ParseDashed(startDate).None? then startDate else endDate)
    ensures r.Success? ==>
              var s, e := ParseDashed(startDate).value, ParseDashed(endDate).value;
              && |r.value| == (if Before(e, s) then 0 else Ordinal(e) - Ordinal(s) + 1)
              && forall i :: 0 <= i < |r.value| ==>
                   ParseCompact(r.value[i]).Some? && Ordinal(ParseCompact(r.value[i]).value) == Ordinal(s) + i
  {
    match ParseDashed(startDate)
    case None => Failure(InvalidDate(startDate))
    case Some(s) =>
      match ParseDashed(endDate)
      case None => Failure(InvalidDate(endDate))
      case Some(e) =>
        DateRangeLength(s, e);
        DateRangeEntries(s, e);
        Success(DateRange(s, e))
  }

  /** The days from `s` to `e` inclusive as `YYYYMMDD` texts; empty when `e` is before `s`. */
  function DateRange(s: Date, e: Date): seq<string>
    requires IsValid(s) && IsValid(e)
  {
    var n := Ordinal(e) - Ordinal(s);
    if n < 0 then []
    else
      OrdinalRange(e);
      seq(n + 1, i requires 0 <= i <= n => Format(AddDays(s, i)))
  }

  /** The range has `days(e) - days(s) + 1` entries, and none when `e` is before `s` (no error is raised). */
  lemma DateRangeLength(s: Date, e: Date)
    requires IsValid(s) && IsValid(e)
    ensures Before(e, s) <==> DateRange(s, e) == []
    ensures !Before(e, s) ==> |DateRange(s, e)| == Ordinal(e) - Ordinal(s) + 1
  {
    OrdinalOrder(e, s);
  }

  /** Entry `i` is the day `s + i`, written as eight digits. */
  lemma DateRangeEntries(s: Date, e: Date)
    requires IsValid(s) && IsValid(e)
    ensures forall i :: 0 <= i < |DateRange(s, e)| ==>
              && |DateRange(s, e)[i]| == 8 && AllDigits(DateRange(s, e)[i])
              && ParseCompact(DateRange(s, e)[i]).Some?
              && Ordinal(ParseCompact(DateRange(s, e)[i]).value) == Ordinal(s) + i
  {
    var r := DateRange(s, e);
    forall i | 0 <= i < |r|
      ensures |r[i]| == 8 && AllDigits(r[i])
      ensures ParseCompact(r[i]).Some? && Ordinal(ParseCompact(r[i]).value) == Ordinal(s) + i
    {
      OrdinalRange(e);
      ParseCompactFormat(AddDays(s, i));
    }
  }

  /** Entry `i` is the text of `s + i` days (a step the lemmas below share). */
  lemma DateRangeAt(s: Date, e: Date, i: int)
    requires IsValid(s) && IsValid(e) && 0 <= i < |DateRange(s, e)|
    ensures Ordinal(s) + i <= Ordinal(e) <= MaxOrdinal
    ensures DateRange(s, e)[i] == Format(AddDays(s, i))
  {
    OrdinalRange(e);
  }

  /** The first entry is `s`. */
  lemma DateRangeFirst(s: Date, e: Date)
    requires IsValid(s) && IsValid(e)
    ensures DateRange(s, e) != [] ==> DateRange(s, e)[0] == Format(s)
  {
    if DateRange(s, e) != [] {
      DateRangeAt(s, e, 0);
      OrdinalOrder(AddDays(s, 0), s);
    }
  }

  /** The last entry is `e`. */
  lemma DateRangeLast(s: Date, e: Date)
    requires IsValid(s) && IsValid(e)
    ensures DateRange(s, e) != [] ==> DateRange(s, e)[|DateRange(s, e)| - 1] == Format(e)
  {
    var r := DateRange(s, e);
    var n := Ordinal(e) - Ordinal(s);
    if n >= 0 {
      assert |r| == n + 1;
      DateRangeAt(s, e, n);
      AddDaysReaches(s, e);
    }
  }

  /** `x` is a day's text and `y` is the text of the day after it. */
  predicate NextDayText(x: string, y: string)
  {
    ParseCompact(x).Some? && ParseCompact(y) == Some(NextDay(ParseCompact(x).value))
  }

  lemma DateRangeStep(s: Date, e: Date, i: int)
    requires IsValid(s) && IsValid(e) && 0 <= i < |DateRange(s, e)| - 1
    ensures NextDayText(DateRange(s, e)[i], DateRange(s, e)[i + 1])
  {
    DateRangeAt(s, e, i);
    DateRangeAt(s, e, i + 1);
    var d := AddDays(s, i);
    ParseCompactFormat(d);
    ParseCompactFormat(AddDays(s, i + 1));
    NextDayStep(d);
    OrdinalOrder(NextDay(d), AddDays(s, i + 1));
  }

  /** Each entry is the day after the one before it, so there is no gap and no repeat. */
  lemma DateRangeConsecutive(s: Date, e: Date)
    requires IsValid(s) && IsValid(e)
    ensures forall i :: 0 <= i < |DateRange(s, e)| - 1 ==> NextDayText(DateRange(s, e)[i], DateRange(s, e)[i + 1])
  {
    var r := DateRange(s, e);
    forall i | 0 <= i < |r| - 1 ensures NextDayText(r[i], r[i + 1]) {
      DateRangeStep(s, e, i);
    }
  }

  /** `x` and `y` are texts of days, and the day of `x` comes first. */
  predicate DayBefore(x: string, y: string)
  {
    ParseCompact(x).Some? && ParseCompact(y).Some? && Before(ParseCompact(x).value, ParseCompact(y).value)
  }

  lemma DateRangePair(s: Date, e: Date, i: int, j: int)
    requires IsValid(s) && IsValid(e) && 0 <= i < j < |DateRange(s, e)|
    ensures DayBefore(DateRange(s, e)[i], DateRange(s, e)[j])
  {
    DateRangeAt(s, e, i);
    DateRangeAt(s, e, j);
    var a, b := AddDays(s, i), AddDays(s, j);
    ParseCompactFormat(a);
    ParseCompactFormat(b);
    OrdinalOrder(a, b);
  }

  /** Every entry is a day's text, and the days ascend strictly. */
  predicate AscendingDays(r: seq<string>)
  {
    forall i, j :: 0 <= i < j < |r| ==> DayBefore(r[i], r[j])
  }

  /** The entries ascend strictly. */
  lemma DateRangeAscending(s: Date, e: Date)
    requires IsValid(s) && IsValid(e)
    ensures AscendingDays(DateRange(s, e))
  {
    var r := DateRange(s, e);
    forall i, j | 0 <= i < j < |r| ensures DayBefore(r[i], r[j]) {
      DateRangePair(s, e, i, j);
    }
    assert AscendingDays(r);
  }

  // ---------------------------------------------------------------------
  // Paging through one day (`fetch_day_date`)

  /** A page request `(day, start index, end index)` and what it returns. */
  type PageSource = (string, int, int) -> Result<seq<Record>, FetchError>

  /** The page source `fetch_day_date` uses: `fetch_subway_data` with its default filters, then the `extend` step. */
  function ServicePages(net: Network, apiKey: string): PageSource
  {
    (ymd, startIdx, endIdx) => PageOutcome(FetchSubwayData(net, apiKey, ymd, startIdx, endIdx, "", "", "json"))
  }

  /** The index window of the `page`-th request (0-based). */
  function Window(page: int, chunkSize: int): (w: (int, int))
    ensures w.1 - w.0 + 1 == chunkSize
  {
    (page * chunkSize + 1, (page + 1) * chunkSize)
  }

  /** Consecutive windows are contiguous and do not overlap. */
  lemma WindowsContiguous(page: int, chunkSize: int)
    ensures Window(page + 1, chunkSize).0 == Window(page, chunkSize).1 + 1
  {
  }

  /** True when the page answered with at least one row (pagination goes on). */
  predicate Continues(res: Result<seq<Record>, FetchError>) { res.Success? && |res.value| > 0 }

  /** The rows collected from page `page` on. */
  function RowsFrom(source: PageSource, ymd: string, maxPage: int, chunkSize: int, page: int): seq<Record>
    decreases maxPage - page
  {
    if page >= maxPage then []
    else
      var w := Window(page, chunkSize);
      var res := source(ymd, w.0, w.1);
      if Continues(res) then res.value + RowsFrom(source, ymd, maxPage, chunkSize, page + 1) else []
  }

  /** The windows requested from page `page` on. */
  function RequestsFrom(source: PageSource, ymd: string, maxPage: int, chunkSize: int, page: int): seq<(int, int)>
    decreases maxPage - page
  {
    if page >= maxPage then []
    else
      var w := Window(page, chunkSize);
      if Continues(source(ymd, w.0, w.1)) then [w] + RequestsFrom(source, ymd, maxPage, chunkSize, page + 1) else [w]
  }

  /** The rows of one day. */
  function DayRows(source: PageSource, ymd: string, maxPage: int, chunkSize: int): seq<Record>
  {
    RowsFrom(source, ymd, maxPage, chunkSize, 0)
  }

  /** The windows one day requests, in order. */
  function DayRequests(source: PageSource, ymd: string, maxPage: int, chunkSize: int): seq<(int, int)>
  {
    RequestsFrom(source, ymd, maxPage, chunkSize, 0)
  }

  /** The rows of the pages `windows` answered, concatenated in order (a failed page adds none). */
  function PagesRows(source: PageSource, ymd: string, windows: seq<(int, int)>): seq<Record>
  {
    if |windows| == 0 then []
    else
      var res := source(ymd, windows[0].0, windows[0].1);
      (if res.Success? then res.value else []) + PagesRows(source, ymd, windows[1..])
  }

  /**
    `fetch_day_date(use_ymd, max_page, chunk_size)`: request windows of
    `chunkSize` indices one after the other, and stop at the first page that
    is empty or fails, or after `maxPage` pages. A failure is swallowed and
    the rows gathered so far are kept. `calls` logs the windows requested.
   */
  method FetchDayData(source: PageSource, ymd: string, maxPage: int, chunkSize: int)
    returns (dayData: seq<Record>, ghost calls: seq<(int, int)>)
    ensures dayData == DayRows(source, ymd, maxPage, chunkSize)
    ensures calls == DayRequests(source, ymd, maxPage, chunkSize)
  {
    dayData, calls := [], [];
    var page := 0;
    while page < maxPage
      invariant page >= 0
      invariant dayData + RowsFrom(source, ymd, maxPage, chunkSize, page) == DayRows(source, ymd, maxPage, chunkSize)
      invariant calls + RequestsFrom(source, ymd, maxPage, chunkSize, page) == DayRequests(source, ymd, maxPage, chunkSize)
      decreases maxPage - page
    {
      var start := page * chunkSize + 1;
      var end := (page + 1) * chunkSize;
      calls := calls + [(start, end)];
      var res := source(ymd, start, end);
      if res.Failure? {
        break;
      }
      if |res.value| == 0 {
        break;
      }
      dayData := dayData + res.value;
      page := page + 1;
    }
  }

  /** From page `page` on, call `k` requests window `page + k`, and at most the remaining pages are requested. */
  lemma {:induction false} RequestsFromWindows(source: PageSource, ymd: string, maxPage: int, chunkSize: int, page: int)
    requires 0 <= page
    ensures var calls := RequestsFrom(source, ymd, maxPage, chunkSize, page);
      && (page < maxPage ==> 1 <= |calls| <= maxPage - page)
      && (page >= maxPage ==> calls == [])
      && (forall k :: 0 <= k < |calls| ==> calls[k] == Window(page + k, chunkSize))
    decreases maxPage - page
  {
    if page < maxPage {
      var w := Window(page, chunkSize);
      var calls := RequestsFrom(source, ymd, maxPage, chunkSize, page);
      if Continues(source(ymd, w.0, w.1)) {
        RequestsFromWindows(source, ymd, maxPage, chunkSize, page + 1);
        var rest := RequestsFrom(source, ymd, maxPage, chunkSize, page + 1);
        assert calls == [w] + rest;
        forall k | 1 <= k < |calls| ensures calls[k] == Window(page + k, chunkSize) {
          assert calls[k] == rest[k - 1];
        }
      }
    }
  }

  /** Every call but the last returned rows; the last, unless it used up the pages, did not. */
  lemma {:induction false} RequestsFromStops(source: PageSource, ymd: string, maxPage: int, chunkSize: int, page: int)
    requires 0 <= page
    ensures var calls := RequestsFrom(source, ymd, maxPage, chunkSize, page);
      && (forall k :: 0 <= k < |calls| - 1 ==> Continues(source(ymd, calls[k].0, calls[k].1)))
      && (|calls| > 0 && page + |calls| < maxPage ==>
            !Continues(source(ymd, calls[|calls| - 1].0, calls[|calls| - 1].1)))
    decreases maxPage - page
  {
    if page < maxPage {
      var w := Window(page, chunkSize);
      var calls := RequestsFrom(source, ymd, maxPage, chunkSize, page);
      if Continues(source(ymd, w.0, w.1)) {
        RequestsFromStops(source, ymd, maxPage, chunkSize, page + 1);
        var rest := RequestsFrom(source, ymd, maxPage, chunkSize, page + 1);
        assert calls == [w] + rest;
        forall k | 1 <= k < |calls| - 1 ensures Continues(source(ymd, calls[k].0, calls[k].1)) {
          assert calls[k] == rest[k - 1];
        }
        if |rest| > 0 {
          assert calls[|calls| - 1] == rest[|rest| - 1];
        }
      }
    }
  }

  /** The rows from page `page` on are the rows of the pages requested, in order. */
  lemma {:induction false} RequestsFromRows(source: PageSource, ymd: string, maxPage: int, chunkSize: int, page: int)
    requires 0 <= page
    ensures RowsFrom(source, ymd, maxPage, chunkSize, page) == PagesRows(source, ymd, RequestsFrom(source, ymd, maxPage, chunkSize, page))
    decreases maxPage - page
  {
    if page < maxPage {
      var w := Window(page, chunkSize);
      var calls := RequestsFrom(source, ymd, maxPage, chunkSize, page);
      if Continues(source(ymd, w.0, w.1)) {
        RequestsFromRows(source, ymd, maxPage, chunkSize, page + 1);
        assert calls[1..] == RequestsFrom(source, ymd, maxPage, chunkSize, page + 1);
      } else {
        assert calls == [w];
        var res := source(ymd, w.0, w.1);
        assert calls[1..] == [];
        if res.Success? {
          assert res.value == [];
        }
      }
    }
  }

  /**
    Call `k` requests the window `[k*chunkSize + 1, (k+1)*chunkSize]`; at
    most `maxPage` calls are made; every call but the last returned rows;
    the last call, unless it was the `maxPage`-th, failed or came back
    empty (so no later window is requested); and the day's rows are the
    in-order concatenation of the pages requested.
   */
  lemma DayRequestsSpec(source: PageSource, ymd: string, maxPage: int, chunkSize: int)
    ensures var calls := DayRequests(source, ymd, maxPage, chunkSize);
      && |calls| <= (if maxPage > 0 then maxPage else 0)
      && (maxPage > 0 ==> |calls| >= 1)
      && (forall k :: 0 <= k < |calls| ==> calls[k] == (k * chunkSize + 1, (k + 1) * chunkSize))
      && (forall k :: 0 <= k < |calls| - 1 ==> Continues(source(ymd, calls[k].0, calls[k].1)))
      && (0 < |calls| < maxPage ==> !Continues(source(ymd, calls[|calls| - 1].0, calls[|calls| - 1].1)))
      && DayRows(source, ymd, maxPage, chunkSize) == PagesRows(source, ymd, calls)
  {
    RequestsFromWindows(source, ymd, maxPage, chunkSize, 0);
    RequestsFromStops(source, ymd, maxPage, chunkSize, 0);
    RequestsFromRows(source, ymd, maxPage, chunkSize, 0);
  }

  /**
    A day whose first two windows return rows and whose third is empty
    yields exactly the first two pages, and nothing past the third window
    is requested.
   */
  lemma StopsAtEmptyPage(source: PageSource, ymd: string, p1: seq<Record>, p2: seq<Record>)
    requires source(ymd, 1, 1000) == Success(p1) && |p1| > 0
    requires source(ymd, 1001, 2000) == Success(p2) && |p2| > 0
    requires source(ymd, 2001, 3000) == Success([])
    ensures DayRows(source, ymd, DefaultMaxPage, DefaultChunkSize) == p1 + p2
    ensures DayRequests(source, ymd, DefaultMaxPage, DefaultChunkSize) == [(1, 1000), (1001, 2000), (2001, 3000)]
  {
    var r2 := RowsFrom(source, ymd, 50, 1000, 2);
    assert r2 == [];
    var r1 := RowsFrom(source, ymd, 50, 1000, 1);
    assert r1 == p2 + r2;
    assert RowsFrom(source, ymd, 50, 1000, 0) == p1 + r1;
    assert p2 + [] == p2;
    assert RequestsFrom(source, ymd, 50, 1000, 2) == [(2001, 3000)];
    assert RequestsFrom(source, ymd, 50, 1000, 1) == [(1001, 2000), (2001, 3000)];
  }

  /** A day whose first request fails yields no rows and makes no second request. */
  lemma FirstPageFailure(source: PageSource, ymd: string, err: FetchError)
    requires source(ymd, 1, 1000) == Failure(err)
    ensures DayRows(source, ymd, DefaultMaxPage, DefaultChunkSize) == []
    ensures DayRequests(source, ymd, DefaultMaxPage, DefaultChunkSize) == [(1, 1000)]
  {
  }

  // ---------------------------------------------------------------------
  // Merging the days (`fetch_all_data_parallel`)

  datatype IngestError =
    | BadRange(dateError: DateError) // `get_all_dates` raised
    | NothingToConcatenate           // `pd.concat([])` raised: no day produced a row

  /**
    `pd.DataFrame(day_data).empty`: a frame is empty when it has no rows or
    no columns, and rows that are all empty objects give no columns.
   */
  predicate FrameIsEmpty(rows: seq<Record>)
  {
    forall i :: 0 <= i < |rows| ==> rows[i] == JObject(map[])
  }

  function Indices(n: nat): (r: seq<nat>)
    ensures |r| == n && forall i :: 0 <= i < n ==> r[i] == i
  {
    seq(n, i requires 0 <= i < n => i)
  }

  /** The completion order: each submitted task, named by its index in the date list, completes exactly once. */
  predicate IsPermutation(order: seq<nat>, n: nat)
  {
    multiset(order) == multiset(Indices(n))
  }

  predicate InRange(order: seq<nat>, n: nat) { forall j :: 0 <= j < |order| ==> order[j] < n }

  lemma PermutationInRange(order: seq<nat>, n: nat)
    requires IsPermutation(order, n)
    ensures InRange(order, n) && |order| == n
  {
    forall j | 0 <= j < |order| ensures order[j] < n {
      assert order[j] in multiset(order);
      assert order[j] in multiset(Indices(n));
    }
    assert |multiset(order)| == |multiset(Indices(n))|;
  }

  /** The frame one day's task returns. */
  function DayFrame(source: PageSource, ymd: string): seq<Record>
  {
    DayRows(source, ymd, DefaultMaxPage, DefaultChunkSize)
  }

  /** The frames the tasks return, by date index. */
  function DayFrames(source: PageSource, dates: seq<string>): (frames: seq<seq<Record>>)
    ensures |frames| == |dates|
    ensures forall i :: 0 <= i < |dates| ==> frames[i] == DayFrame(source, dates[i])
  {
    seq(|dates|, i requires 0 <= i < |dates| => DayFrame(source, dates[i]))
  }

  /** The dates of the tasks listed in `order`, in completion order. */
  function Completed(dates: seq<string>, order: seq<nat>): (r: seq<string>)
    requires InRange(order, |dates|)
    ensures |r| == |order|
  {
    if |order| == 0 then [] else Completed(dates, order[..|order| - 1]) + [dates[order[|order| - 1]]]
  }

  /** `all_results` after the tasks listed in `order` have completed: their non-empty frames, in completion order. */
  function Kept(frames: seq<seq<Record>>, order: seq<nat>): seq<seq<Record>>
    requires InRange(order, |frames|)
  {
    if |order| == 0 then []
    else
      var prev := Kept(frames, order[..|order| - 1]);
      var frame := frames[order[|order| - 1]];
      if FrameIsEmpty(frame) then prev else prev + [frame]
  }

  function Flatten(frames: seq<seq<Record>>): seq<Record>
  {
    if |frames| == 0 then [] else Flatten(frames[..|frames| - 1]) + frames[|frames| - 1]
  }

  /** The outcome of the merge for one completion order. */
  function Merged(frames: seq<seq<Record>>, order: seq<nat>): Result<seq<Record>, IngestError>
    requires InRange(order, |frames|)
  {
    var kept := Kept(frames, order);
    if |kept| == 0 then Failure(NothingToConcatenate) else Success(Flatten(kept))
  }

  /**
    `fetch_all_data_parallel(start_date, end_date, ...)` up to the CSV
    write: every date is submitted once, the tasks' frames are taken in the
    completion order `order`, non-empty frames are appended, and the
    appended frames are concatenated, which raises when there are none.
    `completed` logs the dates in the order their results were taken.
   */
  method FetchAllData(source: PageSource, startDate: string, endDate: string, order: seq<nat>)
    returns (r: Result<seq<Record>, IngestError>, ghost completed: seq<string>)
    requires GetAllDates(startDate, endDate).Success? ==> IsPermutation(order, |GetAllDates(startDate, endDate).value|)
    ensures GetAllDates(startDate, endDate).Failure? ==> r == Failure(BadRange(GetAllDates(startDate, endDate).error))
    ensures GetAllDates(startDate, endDate).Success? ==>
              var dates := GetAllDates(startDate, endDate).value;
              && InRange(order, |dates|)
              && r == Merged(DayFrames(source, dates), order)
              && multiset(completed) == multiset(dates)
  {
    var dateList := GetAllDates(startDate, endDate);
    if dateList.Failure? {
      return Failure(BadRange(dateList.error)), [];
    }
    PermutationInRange(order, |dateList.value|);
    r, completed := MergeDays(source, dateList.value, order);
  }

  /** The task loop of `fetch_all_data_parallel`, for a date list already built. */
  method MergeDays(source: PageSource, dates: seq<string>, order: seq<nat>)
    returns (r: Result<seq<Record>, IngestError>, ghost completed: seq<string>)
    requires IsPermutation(order, |dates|) && InRange(order, |dates|)
    ensures r == Merged(DayFrames(source, dates), order)
    ensures completed == Completed(dates, order) && multiset(completed) == multiset(dates)
  {
    ghost var frames := DayFrames(source, dates);
    var allResults: seq<seq<Record>> := [];
    completed := [];
    var j := 0;
    while j < |order|
      invariant 0 <= j <= |order|
      invariant allResults == Kept(frames, order[..j])
      invariant completed == Completed(dates, order[..j])
    {
      var date := dates[order[j]];
      var frame;
      ghost var calls;
      frame, calls := FetchDayData(source, date, DefaultMaxPage, DefaultChunkSize);
      assert frame == frames[order[j]];
      if !FrameIsEmpty(frame) {
        allResults := allResults + [frame];
      }
      completed := completed + [date];
      assert order[..j + 1][..j] == order[..j];
      j := j + 1;
    }
    assert order[..j] == order;
    if |allResults| == 0 {
      r := Failure(NothingToConcatenate);
    } else {
      r := Success(Flatten(allResults));
    }
    CompletedOnce(dates, order);
  }

  // ---------------------------------------------------------------------
  // Order independence of the merge

  /** The bag of what the tasks listed in `order` add, each task `i` adding `f(i)`. */
  function BagOf<T>(f: nat -> multiset<T>, order: seq<nat>): multiset<T>
  {
    if |order| == 0 then multiset{} else BagOf(f, order[..|order| - 1]) + f(order[|order| - 1])
  }

  lemma {:induction false} BagOfRemove<T>(f: nat -> multiset<T>, b: seq<nat>, k: nat)
    requires k < |b|
    ensures BagOf(f, b) == BagOf(f, b[..k] + b[k + 1..]) + f(b[k])
  {
    var last := |b| - 1;
    if k == last {
      assert b[..k] + b[k + 1..] == b[..last];
    } else {
      var init := b[..last];
      BagOfRemove(f, init, k);
      var removed := b[..k] + b[k + 1..];
      assert removed[..|removed| - 1] == init[..k] + init[k + 1..];
      assert removed[|removed| - 1] == b[last];
      assert init[k] == b[k];
    }
  }

  /** A bag built task by task depends only on which tasks there are, not on their order. */
  lemma {:induction false} BagOfPermutation<T>(f: nat -> multiset<T>, a: seq<nat>, b: seq<nat>)
    requires multiset(a) == multiset(b)
    ensures BagOf(f, a) == BagOf(f, b)
    decreases |a|
  {
    if |a| == 0 {
      assert |b| == |multiset(b)| == 0;
    } else {
      var x := a[|a| - 1];
      var init := a[..|a| - 1];
      assert a == init + [x];
      assert multiset(init) == multiset(a) - multiset{x};
      assert x in multiset(b);
      var k :| 0 <= k < |b| && b[k] == x;
      var rest := b[..k] + b[k + 1..];
      assert b == b[..k] + [x] + b[k + 1..];
      assert multiset(rest) == multiset(b) - multiset{x};
      BagOfPermutation(f, init, rest);
      BagOfRemove(f, b, k);
    }
  }

  /** What each task adds to the merged rows: its frame's rows unless the frame is empty. */
  function Contributions(frames: seq<seq<Record>>): nat -> multiset<Record>
  {
    (i: nat) => if i < |frames| && !FrameIsEmpty(frames[i]) then multiset(frames[i]) else multiset{}
  }

  /** What each task is: its date. */
  function DateOf(dates: seq<string>): nat -> multiset<string>
  {
    (i: nat) => if i < |dates| then multiset{dates[i]} else multiset{}
  }

  /** The merged rows, as a bag, are the contributions of the tasks in `order`. */
  lemma {:induction false} KeptBag(frames: seq<seq<Record>>, order: seq<nat>)
    requires InRange(order, |frames|)
    ensures multiset(Flatten(Kept(frames, order))) == BagOf(Contributions(frames), order)
  {
    if |order| > 0 {
      var init := order[..|order| - 1];
      KeptBag(frames, init);
      var frame := frames[order[|order| - 1]];
      var prev := Kept(frames, init);
      if !FrameIsEmpty(frame) {
        assert (prev + [frame])[..|prev|] == prev;
        assert Flatten(prev + [frame]) == Flatten(prev) + frame;
      }
    }
  }

  /** Nothing is kept exactly when every task in `order` came back empty. */
  lemma {:induction false} KeptNone(frames: seq<seq<Record>>, order: seq<nat>)
    requires InRange(order, |frames|)
    ensures |Kept(frames, order)| == 0 <==> forall j :: 0 <= j < |order| ==> FrameIsEmpty(frames[order[j]])
  {
    if |order| > 0 {
      var init := order[..|order| - 1];
      KeptNone(frames, init);
      if |Kept(frames, order)| == 0 {
        forall j | 0 <= j < |order| ensures FrameIsEmpty(frames[order[j]]) {
          if j < |order| - 1 { assert order[j] == init[j]; }
        }
      }
    }
  }

  /** The rows of the non-empty frames, counted over the date list in its own order. */
  function TotalRows(frames: seq<seq<Record>>): nat
  {
    if |frames| == 0 then 0
    else
      var frame := frames[|frames| - 1];
      TotalRows(frames[..|frames| - 1]) + (if FrameIsEmpty(frame) then 0 else |frame|)
  }

  lemma {:induction false} BagSize(frames: seq<seq<Record>>, k: nat)
    requires k <= |frames|
    ensures |BagOf(Contributions(frames), Indices(k))| == TotalRows(frames[..k])
  {
    if k > 0 {
      assert Indices(k)[..k - 1] == Indices(k - 1);
      BagSize(frames, k - 1);
      assert frames[..k][..k - 1] == frames[..k - 1];
    }
  }

  lemma PermutationCovers(order: seq<nat>, n: nat)
    requires IsPermutation(order, n)
    ensures forall i :: 0 <= i < n ==> i in order
  {
    forall i | 0 <= i < n ensures i in order {
      assert Indices(n)[i] == i;
      assert i in multiset(Indices(n));
      assert i in multiset(order);
    }
  }

  /**
    Whatever the completion order: the merge fails exactly when no day
    produced a non-empty frame; otherwise the merged rows are the same bag
    of rows, and their number is the sum of the non-empty days' row counts.
   */
  lemma MergeOrderIndependent(frames: seq<seq<Record>>, order: seq<nat>, other: seq<nat>)
    requires IsPermutation(order, |frames|) && IsPermutation(other, |frames|)
    ensures InRange(order, |frames|) && InRange(other, |frames|)
    ensures Merged(frames, order).Failure? <==> forall i :: 0 <= i < |frames| ==> FrameIsEmpty(frames[i])
    ensures Merged(frames, order).Failure? ==> Merged(frames, order).error == NothingToConcatenate
    ensures Merged(frames, order).Success? ==>
              && Merged(frames, other).Success?
              && multiset(Merged(frames, order).value) == multiset(Merged(frames, other).value)
              && |Merged(frames, order).value| == TotalRows(frames)
  {
    PermutationInRange(order, |frames|);
    PermutationInRange(other, |frames|);
    MergeFailsWhenNothingKept(frames, order);
    MergeFailsWhenNothingKept(frames, other);
    var f := Contributions(frames);
    KeptBag(frames, order);
    KeptBag(frames, other);
    BagOfPermutation(f, order, Indices(|frames|));
    BagOfPermutation(f, other, Indices(|frames|));
    BagSize(frames, |frames|);
    assert frames[..|frames|] == frames;
  }

  lemma MergeFailsWhenNothingKept(frames: seq<seq<Record>>, order: seq<nat>)
    requires IsPermutation(order, |frames|) && InRange(order, |frames|)
    ensures Merged(frames, order).Failure? <==> forall i :: 0 <= i < |frames| ==> FrameIsEmpty(frames[i])
  {
    KeptNone(frames, order);
    PermutationCovers(order, |frames|);
    if forall j :: 0 <= j < |order| ==> FrameIsEmpty(frames[order[j]]) {
      forall i | 0 <= i < |frames| ensures FrameIsEmpty(frames[i]) {
        assert i in order;
        var j :| 0 <= j < |order| && order[j] == i;
      }
    }
  }

  lemma {:induction false} DatesOf(dates: seq<string>, order: seq<nat>)
    requires InRange(order, |dates|)
    ensures multiset(Completed(dates, order)) == BagOf(DateOf(dates), order)
  {
    if |order| > 0 {
      DatesOf(dates, order[..|order| - 1]);
    }
  }

  lemma {:induction false} CompletedIndices(dates: seq<string>, n: nat)
    requires n <= |dates|
    ensures Completed(dates, Indices(n)) == dates[..n]
  {
    if n > 0 {
      assert Indices(n)[..n - 1] == Indices(n - 1);
      CompletedIndices(dates, n - 1);
      assert dates[..n] == dates[..n - 1] + [dates[n - 1]];
    }
  }

  /** Every date completes exactly once, whatever the completion order. */
  lemma CompletedOnce(dates: seq<string>, order: seq<nat>)
    requires IsPermutation(order, |dates|)
    requires InRange(order, |dates|)
    ensures multiset(Completed(dates, order)) == multiset(dates)
  {
    DatesOf(dates, order);
    DatesOf(dates, Indices(|dates|));
    BagOfPermutation(DateOf(dates), order, Indices(|dates|));
    CompletedIndices(dates, |dates|);
    assert dates[..|dates|] == dates;
  }
}
