/** The log table as the two handlers see it: the entry they write and read,
    the errors the store reports, and the store's answers to a put, to the
    datetime-index query and to a paged scan. */
module Store {
  import opened Wrappers
  import opened Json

  /** One stored log entry: the item `put_item` writes and the handlers echo. */
  datatype LogEntry = LogEntry(id: string, datetime: string, severity: string, message: Value)

  /** What a failed store call raises: a `ClientError` with its error code, or
      any other exception. */
  datatype StoreError = ClientError(code: string) | Unexpected

  /** The table the ingest handler writes to. `items` is what the store holds;
      `putRequests` records every `put_item` call it has received, in order. */
  class Table {
    var items: seq<LogEntry>
    var putRequests: seq<LogEntry>

    constructor (initial: seq<LogEntry>)
      ensures items == initial && putRequests == []
    {
      items := initial;
      putRequests := [];
    }

    /** `put_item(Item=entry)`. The store's answer is `reply`: `None` when the
        write is accepted, otherwise the error it raises; only an accepted
        write adds the entry. */
    method PutItem(entry: LogEntry, reply: Option<StoreError>) returns (failure: Option<StoreError>)
      modifies this
      ensures failure == reply
      ensures putRequests == old(putRequests) + [entry]
      ensures items == if reply.None? then old(items) + [entry] else old(items)
    {
      putRequests := putRequests + [entry];
      if reply.None? {
        items := items + [entry];
      }
      failure := reply;
    }
  }

  /** The answer to the query on the datetime index: the items it returned, in
      the index's order, and whether it returned a `LastEvaluatedKey`. */
  datatype QueryReply = QueryOk(items: seq<LogEntry>, hasMore: bool) | QueryFailed(error: StoreError)

  /** The store's answer to one scan request. */
  datatype ScanReply = ScanPage(items: seq<LogEntry>) | ScanFailed(error: StoreError)

  /** The continuation key of a scan, standing for the position of the next page. */
  type Cursor = nat

  /** The table as a paged scan sees it: `pages[k]` answers the scan that starts
      at cursor `k`, and the first scan (no start key) starts at page 0. */
  datatype ScanView = ScanView(pages: seq<ScanReply>)

  /** One scan response: its items and its `LastEvaluatedKey`, or the error. */
  datatype ScanResult = Page(items: seq<LogEntry>, next: Option<Cursor>) | Failed(error: StoreError)

  function StartPage(start: Option<Cursor>): nat
  {
    match start
    case None => 0
    case Some(k) => k
  }

  /** `scan(ExclusiveStartKey=start)`: the page at the start position, carrying a
      key for the following page exactly when there is one. A position past the
      last page reads as an empty last page. */
  function Scan(v: ScanView, start: Option<Cursor>): (r: ScanResult)
    ensures r.Page? && r.next.Some? ==> r.next.value == StartPage(start) + 1 < |v.pages|
    ensures r.Failed? ==> StartPage(start) < |v.pages|
  {
    var k := StartPage(start);
    if k < |v.pages| then
      match v.pages[k]
      case ScanPage(items) => Page(items, if k + 1 < |v.pages| then Some(k + 1) else None)
      case ScanFailed(e) => Failed(e)
    else
      Page([], None)
  }
}
