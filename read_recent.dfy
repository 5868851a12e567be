/** The read handler: the 100 most recent entries, from the datetime index
    when it answers in full, otherwise from a paged scan sorted newest first. */
module ReadRecent {
  import opened Wrappers
  import opened Store
  import opened DatetimeOrder

  /** The query limit, the scan's accumulation threshold and the truncation length. */
  const RecentLimit: nat := 100

  const ThroughputExceeded := "ProvisionedThroughputExceededException"
  const ResourceNotFound := "ResourceNotFoundException"

  // The fallback scan, specified page by page.

  /** The items the scan of page `k` returns (none for a failed page). */
  function PageItems(v: ScanView, k: nat): seq<LogEntry>
  {
    if k < |v.pages| && v.pages[k].ScanPage? then v.pages[k].items else []
  }

  /** The scan of page `k` raised. */
  predicate PageFailed(v: ScanView, k: nat)
  {
    k < |v.pages| && v.pages[k].ScanFailed?
  }

  /** The scan of page `k` returned a `LastEvaluatedKey`. */
  predicate HasNext(v: ScanView, k: nat)
  {
    k + 1 < |v.pages|
  }

  /** The in-order concatenation of the first `n` pages. */
  function Gathered(v: ScanView, n: nat): seq<LogEntry>
  {
    if n == 0 then [] else Gathered(v, n - 1) + PageItems(v, n - 1)
  }

  /** After `n` scans the loop ends: the last scan raised, returned no
      `LastEvaluatedKey`, or at least `RecentLimit` items have accumulated. */
  predicate StopsAfter(v: ScanView, n: nat)
    requires n >= 1
  {
    PageFailed(v, n - 1) || !HasNext(v, n - 1) || |Gathered(v, n)| >= RecentLimit
  }

  function MaxPages(v: ScanView): nat
  {
    if |v.pages| == 0 then 1 else |v.pages|
  }

  /** The number of scans made, counting from the `n`-th: the first count at
      which the loop ends. */
  function ScanCallsFrom(v: ScanView, n: nat): (r: nat)
    requires 1 <= n <= MaxPages(v)
    ensures n <= r <= MaxPages(v)
    ensures StopsAfter(v, r)
    ensures forall m :: n <= m < r ==> !StopsAfter(v, m)
    decreases |v.pages| - n
  {
    if StopsAfter(v, n) then n else ScanCallsFrom(v, n + 1)
  }

  /** The number of scan requests the fallback makes. */
  function ScanCalls(v: ScanView): nat
  {
    ScanCallsFrom(v, 1)
  }

  /** A scan after `n` that did not end the loop: page `n` exists, and its
      items follow those gathered so far. */
  lemma ScanStep(v: ScanView, n: nat)
    requires 1 <= n <= MaxPages(v) && !StopsAfter(v, n)
    ensures n + 1 <= MaxPages(v)
    ensures Gathered(v, n + 1) == Gathered(v, n) + PageItems(v, n)
  {
  }

  /** The scan of page `n - 1` in terms of the pages. */
  lemma ScanAt(v: ScanView, n: nat)
    requires 1 <= n
    ensures Scan(v, Some(n - 1)).Failed? == PageFailed(v, n - 1)
    ensures Scan(v, Some(n - 1)).Failed? ==> Scan(v, Some(n - 1)).error == v.pages[n - 1].error
    ensures Scan(v, Some(n - 1)).Page? ==> Scan(v, Some(n - 1)).next == if HasNext(v, n - 1) then Some(n) else None
    ensures Scan(v, Some(n - 1)).Page? ==> Scan(v, Some(n - 1)).items == PageItems(v, n - 1)
  {
  }

  /** The `ExclusiveStartKey` of each of the first `n` scan requests: none for
      the first, then the position of each following page. */
  function StartKeys(n: nat): (keys: seq<Option<Cursor>>)
    ensures |keys| == n
  {
    if n == 0 then [] else if n == 1 then [None] else StartKeys(n - 1) + [Some(n - 1)]
  }

  lemma {:induction false} StartKeysAt(n: nat, k: nat)
    requires k < n
    ensures StartPage(StartKeys(n)[k]) == k
    ensures k == 0 ==> StartKeys(n)[k] == None
  {
    if n > 1 && k < n - 1 {
      StartKeysAt(n - 1, k);
    }
  }

  /** Every scan request after the first passes the `LastEvaluatedKey` of the
      page before it, for as long as the loop has run without stopping. */
  lemma ScanRequestsChain(v: ScanView, n: nat)
    requires 1 <= n && forall m :: 1 <= m < n ==> !StopsAfter(v, m)
    ensures var keys := StartKeys(n);
            && keys[0] == None
            && forall k :: 0 <= k < n - 1 ==> Scan(v, keys[k]).Page? && keys[k + 1] == Scan(v, keys[k]).next
  {
    var keys := StartKeys(n);
    StartKeysAt(n, 0);
    forall k | 0 <= k < n - 1
      ensures Scan(v, keys[k]).Page? && keys[k + 1] == Scan(v, keys[k]).next
    {
      StartKeysAt(n, k);
      StartKeysAt(n, k + 1);
      assert !StopsAfter(v, k + 1);
    }
  }

  /** The loop's outcome after `n` scans: the error of the last scan if it
      raised, otherwise the items of the `n` pages read. */
  function OutcomeAfter(v: ScanView, n: nat): Result<seq<LogEntry>, StoreError>
    requires n >= 1
  {
    if PageFailed(v, n - 1) then Failure(v.pages[n - 1].error) else Success(Gathered(v, n))
  }

  /** A loop that has not stopped has read no failing page. */
  lemma NoFailureBeforeStop(v: ScanView, n: nat)
    requires forall m :: 1 <= m < n ==> !StopsAfter(v, m)
    ensures forall k :: 0 <= k < n - 1 ==> !PageFailed(v, k)
  {
    forall k | 0 <= k < n - 1 ensures !PageFailed(v, k) {
      assert !StopsAfter(v, k + 1);
    }
  }

  /** What the fallback scan loop yields: the outcome of the pages read up to
      the first count at which the loop stops. A failure is the error of a
      page that was scanned. A success read no failing page, and holds either
      the whole table or at least `RecentLimit` items. */
  function Fallback(v: ScanView): (r: Result<seq<LogEntry>, StoreError>)
    ensures r.Failure? ==> exists k :: 0 <= k < ScanCalls(v) && PageFailed(v, k) && v.pages[k].error == r.error
    ensures r.Success? ==> forall k :: 0 <= k < ScanCalls(v) ==> !PageFailed(v, k)
    ensures r.Success? ==> (ScanCalls(v) == MaxPages(v) && r.value == Gathered(v, |v.pages|)) || |r.value| >= RecentLimit
  {
    NoFailureBeforeStop(v, ScanCalls(v));
    OutcomeAfter(v, ScanCalls(v))
  }

  /** The first count at which the loop stops is `ScanCalls`, so a run that
      stops there has the outcome `Fallback` describes. */
  lemma FirstStopIsScanCalls(v: ScanView, n: nat)
    requires 1 <= n <= MaxPages(v) && StopsAfter(v, n)
    requires forall m :: 1 <= m < n ==> !StopsAfter(v, m)
    ensures ScanCalls(v) == n
    ensures Fallback(v) == OutcomeAfter(v, n)
  {
  }

  /** The scan loop of the fallback. `starts` records the `ExclusiveStartKey` of
      each scan request, `None` for the first; the loop stops after its last
      request and after none before, and yields the outcome of the pages read. */
  method ScanUntilEnough(v: ScanView) returns (r: Result<seq<LogEntry>, StoreError>, starts: seq<Option<Cursor>>)
    ensures 1 <= |starts| <= MaxPages(v) && starts == StartKeys(|starts|)
    ensures StopsAfter(v, |starts|) && forall m :: 1 <= m < |starts| ==> !StopsAfter(v, m)
    ensures r == OutcomeAfter(v, |starts|)
  {
    var response := Scan(v, None);
    starts := [None];
    var n := 1;
    var items := if response.Page? then response.items else [];
    ScanAt(v, 1);
    while response.Page? && response.next.Some? && |items| < RecentLimit
      invariant 1 <= n <= MaxPages(v) && starts == StartKeys(n)
      invariant response == Scan(v, Some(n - 1))
      invariant response.Page? ==> items == Gathered(v, n)
      invariant forall m :: 1 <= m < n ==> !StopsAfter(v, m)
      decreases |v.pages| - n
    {
      ScanAt(v, n);
      var start := response.next;
      ScanStep(v, n);
      response := Scan(v, start);
      starts := starts + [start];
      n := n + 1;
      if response.Page? {
        items := items + response.items;
      }
    }
    ScanAt(v, n);
    r := if response.Failed? then Failure(response.error) else Success(items);
  }

  // The response.

  /** The response body: the entries with their count and the path label, or an error. */
  datatype RecentBody = Logs(count: nat, logs: seq<LogEntry>, queryMethod: string) | ErrorBody(error: string)

  /** `create_response(status_code, body)`, without the fixed headers. */
  datatype Response = Response(statusCode: nat, body: RecentBody)

  /** A 200 response carrying `logs`. */
  function Found(logs: seq<LogEntry>): (resp: Response)
    ensures resp.statusCode == 200 && resp.body.Logs? && resp.body.logs == logs
    ensures resp.body.count == |resp.body.logs|
    ensures resp.body.queryMethod == "gsi_query" <==> |logs| > 0
  {
    Response(200, Logs(|logs|, logs, if |logs| > 0 then "gsi_query" else "scan_fallback"))
  }

  /** The mapping of a store error to a response. */
  function ErrorResponse(e: StoreError): (resp: Response)
    ensures resp.body.ErrorBody?
    ensures resp.statusCode == 429 <==> e == ClientError(ThroughputExceeded)
    ensures resp.statusCode != 429 ==> resp.statusCode == 500
    ensures resp.body.error == "Database table not found" <==> e == ClientError(ResourceNotFound)
    ensures resp.body.error == "Internal server error" <==> e == Unexpected
    ensures resp.statusCode == 429 ==> resp.body.error == "Rate limit exceeded, please retry"
    ensures e.ClientError? && e.code != ThroughputExceeded && e.code != ResourceNotFound
            ==> resp.body.error == "Failed to retrieve log entries"
  {
    match e
    case ClientError(code) =>
      if code == ThroughputExceeded then Response(429, ErrorBody("Rate limit exceeded, please retry"))
      else if code == ResourceNotFound then Response(500, ErrorBody("Database table not found"))
      else Response(500, ErrorBody("Failed to retrieve log entries"))
    case Unexpected => Response(500, ErrorBody("Internal server error"))
  }

  /** The fallback runs when the index returned fewer than `RecentLimit` items
      and no `LastEvaluatedKey`. */
  predicate TakesFallback(q: QueryReply)
    requires q.QueryOk?
  {
    |q.items| < RecentLimit && !q.hasMore
  }

  /** The handler's answer, given the index query's reply and the table as the
      scan sees it. */
  function Respond(q: QueryReply, v: ScanView): (resp: Response)
    ensures resp.statusCode in {200, 429, 500}
    ensures resp.statusCode == 200 <==> resp.body.Logs?
    ensures resp.body.Logs? ==> resp.body.count == |resp.body.logs|
    ensures resp.body.Logs? ==> (resp.body.queryMethod == "gsi_query" <==> resp.body.count > 0)
  {
    match q
    case QueryFailed(e) => ErrorResponse(e)
    case QueryOk(items, _) =>
      if TakesFallback(q) then
        match Fallback(v)
        case Failure(e) => ErrorResponse(e)
        case Success(scanned) => Found(MostRecent(scanned, RecentLimit))
      else
        Found(items)
  }

  /** `lambda_handler`. */
  method Handle(q: QueryReply, v: ScanView) returns (resp: Response)
    ensures resp == Respond(q, v)
  {
    match q
    case QueryFailed(e) =>
      resp := ErrorResponse(e);
    case QueryOk(items, hasMore) =>
      if |items| < RecentLimit && !hasMore {
        var scanned, starts := ScanUntilEnough(v);
        FirstStopIsScanCalls(v, |starts|);
        match scanned
        case Failure(e) =>
          resp := ErrorResponse(e);
        case Success(all) =>
          resp := Found(MostRecent(all, RecentLimit));
      } else {
        resp := Found(items);
      }
  }

  // Properties of the response.

  /** When the index answers in full (100 items, or a `LastEvaluatedKey`), its
      items are returned as they are, in index order. */
  lemma IndexPathAsIs(q: QueryReply, v: ScanView)
    requires q.QueryOk? && !TakesFallback(q)
    ensures Respond(q, v) == Found(q.items)
  {
  }

  /** No response holds more than 100 entries, provided the index query honours
      its limit of 100. */
  lemma AtMostRecentLimit(q: QueryReply, v: ScanView)
    requires q.QueryOk? ==> |q.items| <= RecentLimit
    ensures Respond(q, v).body.Logs? ==> Respond(q, v).body.count <= RecentLimit
  {
  }

  /** The fallback's answer: the min(100, k) most recent of the k scanned
      items, newest first, each of them scanned, and none of the scanned items
      left out more recent than one returned. */
  lemma FallbackMostRecent(q: QueryReply, v: ScanView)
    requires q.QueryOk? && TakesFallback(q) && Fallback(v).Success?
    ensures var scanned := Fallback(v).value;
            var resp := Respond(q, v);
            && resp.statusCode == 200
            && NewestFirst(resp.body.logs)
            && resp.body.count == (if |scanned| < RecentLimit then |scanned| else RecentLimit)
            && multiset(resp.body.logs) <= multiset(scanned)
            && forall x, y :: x in multiset(scanned) - multiset(resp.body.logs) && y in resp.body.logs ==> NoOlder(y, x)
  {
  }

  /** A failing store call ends the request with its error response: nothing
      partial is returned. */
  lemma ErrorsEndTheRequest(q: QueryReply, v: ScanView)
    ensures q.QueryFailed? ==> Respond(q, v) == ErrorResponse(q.error)
    ensures q.QueryOk? && TakesFallback(q) && Fallback(v).Failure? ==> Respond(q, v) == ErrorResponse(Fallback(v).error)
  {
  }

  /** A table whose scan returns one page holding everything: the fallback
      reads that page alone and returns the most recent 100 of it. */
  lemma OnePageHoldsAll(q: QueryReply, items: seq<LogEntry>)
    requires q.QueryOk? && TakesFallback(q)
    ensures Fallback(ScanView([ScanPage(items)])) == Success(items)
    ensures Respond(q, ScanView([ScanPage(items)])) == Found(MostRecent(items, RecentLimit))
  {
    assert Gathered(ScanView([ScanPage(items)]), 1) == items;
  }

  /** Two pages of 50, the first with a `LastEvaluatedKey`: both are read and
      all 100 items are returned. */
  lemma TwoPagesOfFifty(q: QueryReply, a: seq<LogEntry>, b: seq<LogEntry>)
    requires q.QueryOk? && TakesFallback(q) && |a| == 50 && |b| == 50
    ensures Fallback(ScanView([ScanPage(a), ScanPage(b)])) == Success(a + b)
    ensures Respond(q, ScanView([ScanPage(a), ScanPage(b)])).body.count == 100
  {
    var v := ScanView([ScanPage(a), ScanPage(b)]);
    assert Gathered(v, 1) == a;
    assert Gathered(v, 2) == a + b;
    assert ScanCallsFrom(v, 1) == 2;
  }

  /** An empty table: the index returns nothing, the fallback scans one empty
      page, and the answer is 200 with no entries. */
  lemma EmptyTable()
    ensures Respond(QueryOk([], false), ScanView([ScanPage([])])) == Response(200, Logs(0, [], "scan_fallback"))
  {
    assert Gathered(ScanView([ScanPage([])]), 1) == [];
  }

  /** Each scan asks for at most 100 items, so the loop, which stops once 100
      have accumulated, holds fewer than 200 when it ends. */
  lemma ScanAccumulatesUnder200(v: ScanView)
    requires forall k :: 0 <= k < |v.pages| && v.pages[k].ScanPage? ==> |v.pages[k].items| <= RecentLimit
    ensures Fallback(v).Success? ==> |Fallback(v).value| < 2 * RecentLimit
  {
    var n := ScanCalls(v);
    assert |PageItems(v, n - 1)| <= RecentLimit;
    assert Gathered(v, n) == Gathered(v, n - 1) + PageItems(v, n - 1);
    if n > 1 {
      assert !StopsAfter(v, n - 1);
    }
  }
}
