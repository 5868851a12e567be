/** The ingest handler: validates one request body, builds a log entry, writes
    it to the table with a single `put_item` and echoes it back. */
module Ingest {
  import opened Wrappers
  import opened Json
  import opened Store

  /** The accepted severities, after lowercasing. */
  const ValidSeverities: set<string> := {"info", "warning", "error"}

  /** The longest accepted message, as `len` counts it. */
  const MaxMessageLength: nat := 10240

  const CreatedText := "Log entry created successfully"
  const StoreFailedText := "Failed to store log entry"
  const InternalErrorText := "Internal server error"

  function LowerChar(c: char): char
  {
    if 'A' <= c <= 'Z' then (c as int + 32) as char else c
  }

  /** `str.lower()` on the letters A to Z: the same length, each character
      lowercased in place, and no capital letter left. */
  function Lower(s: string): (r: string)
    ensures |r| == |s|
    ensures forall i :: 0 <= i < |s| ==> r[i] == LowerChar(s[i])
    ensures forall i :: 0 <= i < |r| ==> !('A' <= r[i] <= 'Z')
  {
    if s == [] then [] else [LowerChar(s[0])] + Lower(s[1..])
  }

  lemma {:induction false} LowerIdempotent(s: string)
    ensures Lower(Lower(s)) == Lower(s)
  {
    if s != [] {
      LowerIdempotent(s[1..]);
      assert Lower(s)[1..] == Lower(s[1..]);
    }
  }

  /** The request body: text that failed to decode as JSON (with the decoder's
      message), or the decoded object's fields. */
  datatype RequestBody = Malformed(detail: string) | Decoded(fields: map<string, Value>)

  /** Why a request is answered 400. */
  datatype Rejection =
    | InvalidJson(detail: string)
    | MissingField(field: string)
    | InvalidSeverity
    | MessageTooLong

  /** The outcome of the checks: a 400 rejection, an exception that is not a
      store error (a non-string severity meets `.lower()`, a message without a
      length meets `len`), or the entry to write. */
  datatype Decision = Reject(reason: Rejection) | Fault | Write(entry: LogEntry)

  /** `', '.join(VALID_SEVERITIES)`, in one fixed order. */
  const SeverityList := "info, warning, error"

  /** The texts of the invalid-severity and too-long rejections. */
  const InvalidSeverityText := "Invalid severity. Must be one of: " + SeverityList
  const TooLongText := "Message exceeds maximum length of 10KB"

  /** The text of each rejection's `error` field. A decode failure and a
      missing field keep their detail after a fixed prefix. */
  function RejectionText(reason: Rejection): (text: string)
    ensures reason.InvalidJson? ==> |text| >= 14 && text[..14] == "Invalid JSON: " && text[14..] == reason.detail
    ensures reason.MissingField? ==> |text| >= 24 && text[..24] == "Missing required field: " && text[24..] == reason.field
  {
    match reason
    case InvalidJson(detail) => "Invalid JSON: " + detail
    case MissingField(field) => "Missing required field: " + field
    case InvalidSeverity => InvalidSeverityText
    case MessageTooLong => TooLongText
  }

  /** The second character of each rejection's text, and the ninth of the
      two that start "Invalid ". */
  lemma RejectionTextMarks(r: Rejection)
    ensures |RejectionText(r)| >= 14
    ensures RejectionText(r)[1] == match r
      case InvalidJson(_) => 'n' case InvalidSeverity => 'n'
      case MissingField(_) => 'i' case MessageTooLong => 'e'
    ensures r.InvalidJson? ==> RejectionText(r)[8] == 'J'
    ensures r.InvalidSeverity? ==> RejectionText(r)[8] == 's'
  {
    var t := RejectionText(r);
    match r
    case InvalidJson(_) =>
      assert t[1] == t[..14][1] && t[8] == t[..14][8];
    case MissingField(_) =>
      assert t[1] == t[..24][1];
    case InvalidSeverity =>
      assert t[..9] == "Invalid s";
      assert t[1] == t[..9][1] && t[8] == t[..9][8];
    case MessageTooLong =>
      assert TooLongText[..7] == "Message";
      assert t[1] == TooLongText[..7][1];
  }

  /** Different rejections have different texts, so the client can tell from
      the `error` field which check failed and, for a decode failure or a
      missing field, recover the decoder's message or the field's name. */
  lemma RejectionTextIdentifies(a: Rejection, b: Rejection)
    requires RejectionText(a) == RejectionText(b)
    ensures a == b
  {
    var t := RejectionText(a);
    RejectionTextMarks(a);
    RejectionTextMarks(b);
    match a
    case InvalidJson(d) =>
      assert t[14..] == d;
    case MissingField(f) =>
      assert t[24..] == f;
    case _ =>
  }

  /** A request the handler accepts: both fields present, a string severity
      whose lowercase form is valid, and a message with a length of at most
      `MaxMessageLength`. */
  predicate Acceptable(fields: map<string, Value>)
  {
    && "severity" in fields && "message" in fields
    && fields["severity"].Str? && Lower(fields["severity"].s) in ValidSeverities
    && Len(fields["message"]).Some? && Len(fields["message"]).value <= MaxMessageLength
  }

  /** The checks in their order, then the entry, with `id` and `now` standing
      for the fresh identifier and the current time. */
  function Decide(body: RequestBody, id: string, now: string): (d: Decision)
    ensures d.Write? <==> body.Decoded? && Acceptable(body.fields)
    ensures d.Write? ==> d.entry == LogEntry(id, now, Lower(body.fields["severity"].s), body.fields["message"])
    ensures d.Write? ==> d.entry.severity in ValidSeverities
  {
    match body
    case Malformed(detail) => Reject(InvalidJson(detail))
    case Decoded(fields) =>
      if "severity" !in fields then Reject(MissingField("severity"))
      else if "message" !in fields then Reject(MissingField("message"))
      else if !fields["severity"].Str? then Fault
      else
        var severity := Lower(fields["severity"].s);
        var message := fields["message"];
        if severity !in ValidSeverities then Reject(InvalidSeverity)
        else
          match Len(message)
          case None => Fault
          case Some(n) =>
            if n > MaxMessageLength then Reject(MessageTooLong)
            else Write(LogEntry(id, now, severity, message))
  }

  /** The response body: the confirmation with the written entry, or an error. */
  datatype IngestBody = Created(message: string, logEntry: LogEntry) | ErrorBody(error: string)

  /** `create_response(status_code, body)`, without the fixed headers. */
  datatype Response = Response(statusCode: nat, body: IngestBody)

  /** The handler's answer for a body, a fresh id, the current time and the
      store's reply to the write (consulted only when the write happens). */
  function Respond(body: RequestBody, id: string, now: string, putReply: Option<StoreError>): (resp: Response)
    ensures resp.statusCode in {200, 400, 500}
    ensures resp.statusCode == 200 <==> Decide(body, id, now).Write? && putReply.None?
    ensures resp.statusCode == 200 ==> resp.body == Created(CreatedText, Decide(body, id, now).entry)
    ensures resp.statusCode == 400 <==> Decide(body, id, now).Reject?
    ensures resp.statusCode != 200 ==> resp.body.ErrorBody?
  {
    match Decide(body, id, now)
    case Reject(reason) => Response(400, ErrorBody(RejectionText(reason)))
    case Fault => Response(500, ErrorBody(InternalErrorText))
    case Write(entry) =>
      match putReply
      case None => Response(200, Created(CreatedText, entry))
      case Some(ClientError(_)) => Response(500, ErrorBody(StoreFailedText))
      case Some(Unexpected) => Response(500, ErrorBody(InternalErrorText))
  }

  /** `lambda_handler`: runs the checks and, when they pass, makes the one
      `put_item` call and reports its outcome. */
  method Handle(table: Table, body: RequestBody, id: string, now: string, putReply: Option<StoreError>)
    returns (resp: Response)
    modifies table
    ensures resp == Respond(body, id, now, putReply)
    ensures table.putRequests == old(table.putRequests) + (if Decide(body, id, now).Write? then [Decide(body, id, now).entry] else [])
    ensures table.items == old(table.items) + (if resp.statusCode == 200 then [resp.body.logEntry] else [])
  {
    var decision := Decide(body, id, now);
    match decision
    case Reject(reason) =>
      resp := Response(400, ErrorBody(RejectionText(reason)));
    case Fault =>
      resp := Response(500, ErrorBody(InternalErrorText));
    case Write(entry) =>
      var failure := table.PutItem(entry, putReply);
      match failure
      case None =>
        resp := Response(200, Created(CreatedText, entry));
      case Some(ClientError(_)) =>
        resp := Response(500, ErrorBody(StoreFailedText));
      case Some(Unexpected) =>
        resp := Response(500, ErrorBody(InternalErrorText));
  }

  // Properties of the check order, the normalisation and the error mapping.

  /** A missing severity is reported before anything else is looked at. */
  lemma MissingSeverityFirst(fields: map<string, Value>, id: string, now: string, putReply: Option<StoreError>)
    requires "severity" !in fields
    ensures Respond(Decoded(fields), id, now, putReply) == Response(400, ErrorBody("Missing required field: severity"))
  {
  }

  /** With a severity present, a missing message is reported next, whatever the
      severity holds. */
  lemma MissingMessageSecond(fields: map<string, Value>, id: string, now: string, putReply: Option<StoreError>)
    requires "severity" in fields && "message" !in fields
    ensures Respond(Decoded(fields), id, now, putReply) == Response(400, ErrorBody("Missing required field: message"))
  {
  }

  /** A string severity whose lowercase form is not valid is rejected, whatever
      the message. */
  lemma InvalidSeverityRejected(fields: map<string, Value>, id: string, now: string, putReply: Option<StoreError>)
    requires "severity" in fields && "message" in fields
    requires fields["severity"].Str? && Lower(fields["severity"].s) !in ValidSeverities
    ensures Respond(Decoded(fields), id, now, putReply)
         == Response(400, ErrorBody(InvalidSeverityText))
  {
  }

  /** With a valid severity, a message that has a length is rejected for
      length exactly when that length exceeds 10240, whatever else the body
      holds and whether the message is a string, a list or an object. */
  lemma LengthBound(fields: map<string, Value>, id: string, now: string, putReply: Option<StoreError>)
    requires "severity" in fields && "message" in fields
    requires fields["severity"].Str? && Lower(fields["severity"].s) in ValidSeverities
    requires Len(fields["message"]).Some?
    ensures (Respond(Decoded(fields), id, now, putReply) == Response(400, ErrorBody(TooLongText)))
            <==> Len(fields["message"]).value > MaxMessageLength
  {
  }

  /** For a string message, a length of 10240 is accepted and 10241 is not. */
  lemma StringLengthBound(severity: string, message: string, id: string, now: string, putReply: Option<StoreError>)
    requires Lower(severity) in ValidSeverities
    ensures var resp := Respond(Decoded(map["severity" := Str(severity), "message" := Str(message)]), id, now, putReply);
            (resp == Response(400, ErrorBody("Message exceeds maximum length of 10KB"))) <==> |message| > 10240
  {
  }

  /** Severity is compared case-insensitively and stored lowercased. */
  lemma UppercaseSeverityStoredLowercased(message: string, id: string, now: string)
    requires |message| <= 10240
    ensures Respond(Decoded(map["severity" := Str("INFO"), "message" := Str(message)]), id, now, None)
         == Response(200, Created(CreatedText, LogEntry(id, now, "info", Str(message))))
  {
    assert Lower("INFO") == "info";
  }

  /** An accepted request echoes the entry that was written: the fresh id, the
      current time, the lowercased severity and the message unchanged. */
  lemma SuccessEchoesEntry(body: RequestBody, id: string, now: string)
    requires body.Decoded? && Acceptable(body.fields)
    ensures var resp := Respond(body, id, now, None);
            && resp.statusCode == 200
            && resp.body.message == CreatedText
            && resp.body.logEntry.id == id && resp.body.logEntry.datetime == now
            && resp.body.logEntry.severity == Lower(body.fields["severity"].s)
            && resp.body.logEntry.message == body.fields["message"]
  {
  }

  /** Submitting an echoed entry's severity and message again is accepted and
      yields the same severity and message: the stored severity is already in
      normal form. */
  lemma EchoResubmits(body: RequestBody, id: string, now: string, id': string, now': string)
    requires body.Decoded? && Acceptable(body.fields)
    ensures var e := Decide(body, id, now).entry;
            Decide(Decoded(map["severity" := Str(e.severity), "message" := e.message]), id', now')
            == Write(LogEntry(id', now', e.severity, e.message))
  {
    LowerIdempotent(body.fields["severity"].s);
  }

  /** Exceptions that are not validation failures map to 500, and only a
      `ClientError` from the write is reported as a storage failure. */
  lemma FaultsAre500(body: RequestBody, id: string, now: string, putReply: Option<StoreError>)
    ensures Decide(body, id, now).Fault? ==> Respond(body, id, now, putReply) == Response(500, ErrorBody(InternalErrorText))
    ensures Decide(body, id, now).Write? && putReply.Some? ==>
              Respond(body, id, now, putReply)
              == Response(500, ErrorBody(if putReply.value.ClientError? then StoreFailedText else InternalErrorText))
  {
  }

  /** `.lower()` on a severity that is not a string raises, which the handler
      answers with 500. */
  lemma NonStringSeverityIs500(fields: map<string, Value>, id: string, now: string, putReply: Option<StoreError>)
    requires "severity" in fields && "message" in fields && !fields["severity"].Str?
    ensures Respond(Decoded(fields), id, now, putReply) == Response(500, ErrorBody(InternalErrorText))
  {
  }

  /** A body that does not decode as JSON is answered 400 with the decoder's
      message, and nothing is written. */
  lemma MalformedIs400(detail: string, id: string, now: string, putReply: Option<StoreError>)
    ensures Respond(Malformed(detail), id, now, putReply) == Response(400, ErrorBody("Invalid JSON: " + detail))
    ensures !Decide(Malformed(detail), id, now).Write?
  {
  }

  /** `len` on a message that has no length (a number, a boolean or null)
      raises once the severity is valid, which the handler answers with 500. */
  lemma MessageWithoutLengthIs500(fields: map<string, Value>, id: string, now: string, putReply: Option<StoreError>)
    requires "severity" in fields && "message" in fields
    requires fields["severity"].Str? && Lower(fields["severity"].s) in ValidSeverities
    requires Len(fields["message"]).None?
    ensures Respond(Decoded(fields), id, now, putReply) == Response(500, ErrorBody(InternalErrorText))
  {
  }

  /** A numeric message with the severity "info" gets 500. */
  lemma NumericMessageIs500(n: int, id: string, now: string, putReply: Option<StoreError>)
    ensures Respond(Decoded(map["severity" := Str("info"), "message" := Num(n)]), id, now, putReply)
         == Response(500, ErrorBody(InternalErrorText))
  {
    assert Lower("info") == "info";
  }
}
