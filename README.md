# Simple-Service-Log request handlers in Dafny

This project models the two request handlers of a small log service. Both work
on a DynamoDB table of log entries.

- **Ingest** (`lambda/ingest/index.py`) takes one request body. It runs a fixed
  chain of checks: `severity` is present, `message` is present, the lowercased
  severity is one of `info`, `warning` or `error`, and the message length is at
  most 10240. It then builds an entry `{id, datetime, severity, message}`,
  writes it with a single `put_item`, and echoes it with status 200. A
  rejected request gets 400. A store `ClientError` gets 500 "Failed to store
  log entry". Any other exception gets 500 "Internal server error".
- **Read recent** (`lambda/read_recent/index.py`) first queries the datetime
  index with a limit of 100. It falls back only when that query returned fewer
  than 100 items and no `LastEvaluatedKey`. The fallback is a paged scan. It
  follows `LastEvaluatedKey` until the key is absent or at least 100 items have
  accumulated. It then sorts the accumulated items by `datetime`, newest first,
  and keeps the first 100. The answer is `{count, logs, query_method}`, or a
  429 or 500 error chosen by the store error.

The table is an abstract store, and its answers are inputs to the model:

- `Store.Table` is a class. Its `PutItem` method takes the store's reply to
  the write and appends the entry only when the write is accepted. It also
  records every request it receives, so "exactly one write" and "no write"
  can be stated.
- The answer to the index query is a `QueryReply` value.
- The table as the scan sees it is a `ScanView`, a sequence of pages. The
  cursor is the position of the next page, and the last page has no
  continuation key.
- The fresh id (`uuid4`) and the current time are parameters of the ingest
  handler. The 30-day window is part of what the query reply already holds.
- `datetime` values are strings compared as Python compares `str`
  (`DatetimeOrder.StrLe`). The model proves that this order is reflexive,
  total, transitive and antisymmetric.

The code does not do the following, and neither does the model:

- Ingest does not filter message content.
- Ingest does not retry a throttled write.
- Ingest does not answer 429; every store `ClientError` on ingest is a 500.
- The fallback does not return the 100 most recent entries of the whole
  table, only those of the scanned prefix.

The `query_method` label is `"gsi_query"` for every non-empty answer, including
one the fallback scan produced. The model keeps that behaviour.

The files:

- `wrappers.dfy` holds `Option` and `Result`.
- `json.dfy` holds decoded JSON values and Python's `len` on them.
- `store.dfy` holds the entry, the store errors, the table and the store's
  replies.
- `datetime_order.dfy` holds the string order and the newest-first sort.
- `ingest.dfy` and `read_recent.dfy` hold the two handlers.

## Model

| member | source | states |
|---|---|---|
| `Json.Len` | lambda/ingest/index.py:58 | `len` has a value exactly for strings, lists and dicts; on any other value it raises |
| `Store.Table.PutItem` | lambda/ingest/index.py:73 | the request is recorded; the table grows by exactly the entry when the store accepts the write, and stays unchanged otherwise |
| `Store.Scan` | lambda/read_recent/index.py:53-61 | a scan response carries a continuation key only when a later page exists, and the key points at the page right after the one returned |
| `Ingest.Lower` | lambda/ingest/index.py:47 | `.lower()` keeps the length, lowercases each character in place, and leaves no capital A to Z |
| `Ingest.LowerIdempotent` | lambda/ingest/index.py:47 | lowercasing an already lowercased severity changes nothing |
| `Ingest.RejectionText` | lambda/ingest/index.py:42-85 | the "Invalid JSON: " and "Missing required field: " texts carry the decoder's message and the field name unchanged after their fixed prefix |
| `Ingest.RejectionTextIdentifies` | lambda/ingest/index.py:42-85 | two rejections with the same `error` text are the same rejection, so the text tells which check failed |
| `Ingest.Decide` | lambda/ingest/index.py:35-70 | the checks let an entry through exactly when the body decoded and is `Acceptable`; the entry has the given id and time, the lowercased severity (one of the three valid ones) and the message unchanged |
| `Ingest.Respond` | lambda/ingest/index.py:33-95 | the status is always 200, 400 or 500; 200 holds exactly when the checks pass and the write succeeds, and then the body echoes the written entry; 400 holds exactly when a check rejects; every non-200 body is an error |
| `Ingest.Handle` | lambda/ingest/index.py:33-95 | answers as `Respond`; makes exactly one `put_item`, of the built entry, when the checks pass and none otherwise; the table gains exactly the echoed entry on 200 and is untouched on every other outcome |
| `Ingest.MissingSeverityFirst` | lambda/ingest/index.py:41-42 | without `severity` the answer is 400 "Missing required field: severity", whatever else the body holds |
| `Ingest.MissingMessageSecond` | lambda/ingest/index.py:44-45 | with `severity` present and `message` missing, the answer is 400 "Missing required field: message", even if the severity is not a string |
| `Ingest.InvalidSeverityRejected` | lambda/ingest/index.py:47-55 | a string severity whose lowercase form is not valid gets 400 "Invalid severity...", whatever the message |
| `Ingest.LengthBound` | lambda/ingest/index.py:58-59 | for any decoded body with a valid severity and a message that has a length (a string, list or object), the answer is 400 "Message exceeds maximum length of 10KB" exactly when that length exceeds 10240 |
| `Ingest.StringLengthBound` | lambda/ingest/index.py:58-59 | for a string message, the too-long rejection happens exactly when the message is longer than 10240, so 10240 itself passes |
| `Ingest.UppercaseSeverityStoredLowercased` | lambda/ingest/index.py:47-68 | "INFO" is accepted and the entry is stored and echoed with severity "info" |
| `Ingest.SuccessEchoesEntry` | lambda/ingest/index.py:62-82 | an acceptable body with an accepted write gets 200 "Log entry created successfully", echoing the fresh id, the time, the lowercased severity and the unchanged message |
| `Ingest.EchoResubmits` | lambda/ingest/index.py:47-70 | sending an echoed entry's severity and message again is accepted again with the same severity and message |
| `Ingest.FaultsAre500` | lambda/ingest/index.py:87-95 | an exception outside validation gets 500 "Internal server error"; a failed write gets 500 "Failed to store log entry" for a `ClientError` and 500 "Internal server error" for anything else |
| `Ingest.NonStringSeverityIs500` | lambda/ingest/index.py:93-95 | `.lower()` on a present severity that is not a string raises, and the answer is 500 "Internal server error" |
| `Ingest.MalformedIs400` | lambda/ingest/index.py:84-85 | a body that fails to decode gets 400 "Invalid JSON: " followed by the decoder's message, and nothing is written |
| `Ingest.MessageWithoutLengthIs500` | lambda/ingest/index.py:58 | with a valid severity, a message that has no `len` (a number, a boolean or null) raises, and the answer is 500 "Internal server error" |
| `Ingest.NumericMessageIs500` | lambda/ingest/index.py:58 | a numeric message with severity "info" gets 500 "Internal server error" |
| `DatetimeOrder.StrLe` | lambda/read_recent/index.py:65-68 | Python's `str` order on `datetime`: a string is `<=` every string it is a prefix of |
| `DatetimeOrder.StrLeFirstDifference` | lambda/read_recent/index.py:65-68 | at the first position where two strings differ, the smaller character decides, in both directions |
| `DatetimeOrder.StrLeReflexive` | lambda/read_recent/index.py:67 | every datetime string is `<=` itself |
| `DatetimeOrder.StrLeTotal` | lambda/read_recent/index.py:67 | any two datetime strings are comparable |
| `DatetimeOrder.StrLeTransitive` | lambda/read_recent/index.py:67 | the string order is transitive |
| `DatetimeOrder.StrLeAntisymmetric` | lambda/read_recent/index.py:67 | two strings that are each `<=` the other are equal |
| `DatetimeOrder.InsertNewestFirst` | lambda/read_recent/index.py:65-68 | inserting into a newest-first sequence keeps it newest first and adds exactly that entry |
| `DatetimeOrder.SortNewestFirst` | lambda/read_recent/index.py:65-68 | the sorted items are a permutation of the input, non-increasing by `datetime` |
| `DatetimeOrder.PrefixIsNewest` | lambda/read_recent/index.py:69 | cutting a newest-first sequence leaves nothing behind the cut that is more recent than anything before it |
| `DatetimeOrder.MostRecent` | lambda/read_recent/index.py:65-69 | the result has min(n, k) entries, is newest first, is a sub-multiset of the k inputs, and no input it leaves out is more recent than any entry it keeps |
| `ReadRecent.ScanCallsFrom` | lambda/read_recent/index.py:53-62 | the scan count is where the loop first stops: the last scan raised, had no `LastEvaluatedKey`, or at least 100 items had accumulated; none of the earlier counts stops it, and it never passes the last page |
| `ReadRecent.ScanStep` | lambda/read_recent/index.py:57-62 | a scan that does not end the loop is followed by a read of the next page, whose items are appended in order |
| `ReadRecent.StartKeysAt` | lambda/read_recent/index.py:53-59 | the k-th scan request starts at page k, and the first has no start key |
| `ReadRecent.ScanRequestsChain` | lambda/read_recent/index.py:53-61 | for as long as the loop has run without stopping, the first scan has no start key and every later scan passes the `LastEvaluatedKey` of the page before it |
| `ReadRecent.FirstStopIsScanCalls` | lambda/read_recent/index.py:53-62 | a run of the loop that stops after `n` scans and not before has made exactly `ScanCalls` scans, so its outcome is `Fallback` |
| `ReadRecent.Fallback` | lambda/read_recent/index.py:53-62 | a failed fallback carries the error of a page it scanned; a successful one scanned no failing page, and holds either every page of the table or at least 100 items |
| `ReadRecent.ScanUntilEnough` | lambda/read_recent/index.py:53-62 | the loop stops after its last scan and after none before, never passes the last page, and yields the error of the scan that raised or the in-order concatenation of exactly the pages read; its start keys are `None` and then the position of each following page |
| `ReadRecent.Found` | lambda/read_recent/index.py:71-78 | a 200 answer has `count == len(logs)` and `query_method` "gsi_query" exactly when it has entries |
| `ReadRecent.ErrorResponse` | lambda/read_recent/index.py:80-97 | 429 "Rate limit exceeded, please retry" exactly for `ProvisionedThroughputExceededException`, 500 for everything else; "Database table not found" exactly for `ResourceNotFoundException`; "Failed to retrieve log entries" for any other `ClientError`; "Internal server error" exactly for a non-`ClientError` |
| `ReadRecent.TakesFallback` | lambda/read_recent/index.py:51 | the scan runs only when the index returned fewer than 100 items and no `LastEvaluatedKey`; with `IndexPathAsIs` and `FallbackMostRecent`, an index answer in full is returned as it is and any other is replaced by the scan's result |
| `ReadRecent.Respond` | lambda/read_recent/index.py:34-97 | the status is 200, 429 or 500, and 200 exactly when entries are returned; every such answer has `count == len(logs)` and `query_method` "gsi_query" exactly when `count > 0` |
| `ReadRecent.Handle` | lambda/read_recent/index.py:34-97 | the handler, running the scan loop only on the fallback path, answers as `Respond` |
| `ReadRecent.IndexPathAsIs` | lambda/read_recent/index.py:48-51 | when the index returns 100 items or a continuation key, those items are returned as they are, in index order |
| `ReadRecent.AtMostRecentLimit` | lambda/read_recent/index.py:41-69 | no answer holds more than 100 entries, given that the index query honours its limit |
| `ReadRecent.FallbackMostRecent` | lambda/read_recent/index.py:65-69 | the fallback returns the min(100, k) most recent of the k scanned items, newest first; each was scanned, and no scanned item left out is more recent than one returned |
| `ReadRecent.ErrorsEndTheRequest` | lambda/read_recent/index.py:80-97 | a failed query, or a failed scan in the fallback, gives that error's response and no partial result |
| `ReadRecent.OnePageHoldsAll` | lambda/read_recent/index.py:53-69 | when one page holds the whole table, the fallback reads it alone and returns its 100 most recent items |
| `ReadRecent.TwoPagesOfFifty` | lambda/read_recent/index.py:53-62 | two pages of 50, the first with a continuation key, are both read and give a count of 100 |
| `ReadRecent.EmptyTable` | lambda/read_recent/index.py:48-76 | an empty table gives 200 with count 0, no logs and "scan_fallback" |
| `ReadRecent.ScanAccumulatesUnder200` | lambda/read_recent/index.py:53-62 | when every scan page honours `Limit=100`, the loop ends holding fewer than 200 items |

## Left out

- AWS setup and calls are replaced by the abstract store. This covers `boto3.resource`, the `TABLE_NAME` lookup, the index name and the key condition. The store's answers are inputs.
- JSON text decoding and encoding (`json.loads`, `json.dumps`, `DecimalEncoder`) are left out. A body is either a decode failure with the decoder's message, or the decoded object's fields.
- Bodies that decode to something other than an object are not modelled. This covers lists, strings and numbers, and the handler's `event.get('body', event)` choice between a string body and a dict.
- JSON numbers are integers in the model. Floating-point values are not represented.
- `uuid4()` and `datetime.now()` are parameters. So is the 30-day threshold, which only the query uses.
- Response headers (CORS and `Content-Type`) are constant data and are left out. `create_response` is the `Response` constructor.
- The `print` calls in the error branches are server-side logging and are left out.
- `Ingest.Lower`: lowercases only A to Z. Python's `str.lower` also lowercases other letters. Outside A to Z, only the Kelvin sign (to `k`) and the dotted capital I (to `i` plus a combining dot) lowercase to ASCII letters, and neither can produce "info", "warning" or "error". So the accepted severities and the stored value are the same, but the model does not prove this.
- `Ingest.RejectionText`: Python lists the severities in set order, which string-hash randomisation varies between processes. The model fixes one order.
- `DatetimeOrder.SortNewestFirst`: the model does not prove stability, that is, that entries with equal `datetime` keep their input order. The definition inserts each entry ahead of the equal ones after it, as Python's stable `sorted` does.
- `ReadRecent.AtMostRecentLimit`: the bound on the index path depends on the store honouring `Limit=100`, so it is stated under that assumption.
- A scanned item without a `datetime` key, which would make the sort raise, is not modelled. Every stored entry has one.
- `scripts/invoke_with_sigv4.py` and `docs/load_tests.py` are not part of this model. They are HTTP clients and a load generator.
- Strings cannot hold a lone surrogate such as `"\ud800"`. `json.loads` accepts one in a message or a severity, but such bodies are not modelled.
- Entries are not checked for unique ids, because `uuid4` is outside the model.
