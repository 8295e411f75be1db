/**
 * `handleRequest`: read the parameters, validate, and answer 400 with the messages, or test
 * the point, record it and answer 200; a failure while reading the body answers 500. The
 * request environment, the body read and the clocks are inputs.
 */
module Handler {
  import opened Wrappers
  import opened Numbers
  import opened OrderedMaps
  import opened FormParams
  import opened Validator
  import opened Geometry
  import opened HistoryStore
  import opened Json

  /**
   * One request: `QUERY_STRING`, `REQUEST_METHOD`, `CONTENT_LENGTH`, and what `readBody`
   * delivered (`None` when it threw, with `failure` the exception's message).
   */
  datatype Request = Request(
    query: Option<string>, requestMethod: string, contentLength: Option<string>,
    body: Option<string>, failure: string)

  /** `toMillis(nanos)`: nanos / 10^6, exactly. */
  function ToMillis(nanos: int): (ms: Decimal)
    ensures Value(ms) * 1000000.0 == nanos as real
  {
    assert Pow10(6) == 1000000;
    Decimal(nanos, 6)
  }

  /** `readBody` was called and threw. */
  predicate BodyFails(req: Request) {
    ReadsBody(req.requestMethod, req.contentLength) && req.body.None?
  }

  /** The parameters `readParams` returns when it does not throw. */
  function ParamsOf(req: Request): OrderedMap<string, string> {
    RequestParams(req.query, req.requestMethod, req.contentLength, req.body.GetOr(""))
  }

  const InternalErrorPrefix: string := "Internal error: "

  /** The new history and the response, for a request handled against `history`. */
  function Outcome(req: Request, now: string, elapsedNanos: int, history: seq<HitRecord>)
    : (seq<HitRecord>, Response)
  {
    var ms := ToMillis(elapsedNanos);
    if BodyFails(req) then
      (history, Response(500, "Internal Server Error", ErrorBody([InternalErrorPrefix + req.failure], now, ms, history)))
    else
      match ValidationOf(ParamsOf(req).entries)
      case Invalid(errors) => (history, Response(400, "Bad Request", ErrorBody(errors, now, ms, history)))
      case Valid(x, y, r) =>
        var rec := HitRecord(x, y, r, CheckHit(Value(x), Value(y), Value(r)), now, ms);
        var h := Added(history, rec);
        (h, Response(200, "OK", SuccessBody(rec, h)))
  }

  /**
   * `handleRequest()`. `now` is the formatted wall-clock time and `elapsedNanos` the
   * monotonic clock difference at the point the source reads them.
   */
  method HandleRequest(history: History, req: Request, now: string, elapsedNanos: int)
    returns (resp: Response)
    requires history.Valid()
    modifies history
    ensures history.Valid()
    ensures (history.records, resp) == Outcome(req, now, elapsedNanos, old(history.records))
  {
    if BodyFails(req) {
      var ms := ToMillis(elapsedNanos);
      var errors := [InternalErrorPrefix + req.failure];
      var snapshot := history.Snapshot();
      resp := WriteErrorResponse(500, "Internal Server Error", errors, now, ms, snapshot);
      return;
    }
    var params := ReadParams(req.query, req.requestMethod, req.contentLength, req.body.GetOr(""));
    var validation := Validate(params);
    if validation.Invalid? {
      var ms := ToMillis(elapsedNanos);
      var snapshot := history.Snapshot();
      resp := WriteErrorResponse(400, "Bad Request", validation.errors, now, ms, snapshot);
      return;
    }
    var x, y, r := validation.x, validation.y, validation.r;
    var hit := CheckHit(Value(x), Value(y), Value(r));
    var ms := ToMillis(elapsedNanos);
    var rec := HitRecord(x, y, r, hit, now, ms);
    history.Add(rec);
    var snapshot := history.Snapshot();
    resp := WriteSuccessResponse(rec, snapshot);
  }

  // ---------------------------------------------------------------------------------------
  // Properties

  /** The history changes only on a 200, and a 200 comes exactly from an accepted request. */
  lemma OnlyAcceptedRequestsRecorded(req: Request, now: string, elapsedNanos: int, history: seq<HitRecord>)
    ensures Outcome(req, now, elapsedNanos, history).1.status in {200, 400, 500}
    ensures Outcome(req, now, elapsedNanos, history).1.status != 200 ==> Outcome(req, now, elapsedNanos, history).0 == history
    ensures Outcome(req, now, elapsedNanos, history).1.status == 200 <==>
      !BodyFails(req) && ValidationOf(ParamsOf(req).entries).Valid?
  {
  }

  /**
   * A 200 records the accepted point with the hit test's verdict, as the newest entry of a
   * history still within its limit, and that history is what the body lists.
   */
  lemma AcceptedPointRecorded(req: Request, now: string, elapsedNanos: int, history: seq<HitRecord>)
    requires |history| <= Limit
    requires Outcome(req, now, elapsedNanos, history).1.status == 200
    ensures var (h, resp) := Outcome(req, now, elapsedNanos, history);
      var rec := h[|h| - 1];
      && |h| <= Limit
      && Accepts(ParamsOf(req).entries, rec.x, rec.y, rec.r)
      && rec.hit == CheckHit(Value(rec.x), Value(rec.y), Value(rec.r))
      && resp.body == SuccessBody(rec, h)
  {
    var v := ValidationOf(ParamsOf(req).entries);
    var rec := HitRecord(v.x, v.y, v.r, CheckHit(Value(v.x), Value(v.y), Value(v.r)), now, ToMillis(elapsedNanos));
    AddedShape(history, rec);
    ValidIff(ParamsOf(req).entries, v.x, v.y, v.r);
  }

  /**
   * The `data` member of a 200 body, read back as JSON, carries the hit test's verdict on the
   * accepted point and x as `toPlainString` writes it, which parses back to the accepted x
   * when its scale is not negative.
   */
  lemma SuccessReportsHit(req: Request, now: string, elapsedNanos: int, history: seq<HitRecord>)
    requires Outcome(req, now, elapsedNanos, history).1.status == 200
    ensures var resp := Outcome(req, now, elapsedNanos, history).1;
      var v := ValidationOf(ParamsOf(req).entries);
      var data := ReadSuccessData(resp.body);
      && v.Valid?
      && Accepts(ParamsOf(req).entries, v.x, v.y, v.r)
      && data.Some?
      && data.value.hit == CheckHit(Value(v.x), Value(v.y), Value(v.r))
      && data.value.x == FormatDecimal(v.x)
      && (v.x.scale >= 0 ==> ParseBigDecimal(data.value.x) == Some(v.x))
  {
    var v := ValidationOf(ParamsOf(req).entries);
    var rec := HitRecord(v.x, v.y, v.r, CheckHit(Value(v.x), Value(v.y), Value(v.r)), now, ToMillis(elapsedNanos));
    assert Outcome(req, now, elapsedNanos, history).1.body == SuccessBody(rec, Added(history, rec));
    SuccessDataReadsBack(rec, Added(history, rec));
    ValidIff(ParamsOf(req).entries, v.x, v.y, v.r);
    if v.x.scale >= 0 {
      PlainStringRoundTrip(v.x);
    }
  }

  /** A 400 lists the validation messages, and they read back from the body unchanged. */
  lemma RejectionListsErrors(req: Request, now: string, elapsedNanos: int, history: seq<HitRecord>)
    requires Outcome(req, now, elapsedNanos, history).1.status == 400
    ensures var resp := Outcome(req, now, elapsedNanos, history).1;
      var errors := ValidationOf(ParamsOf(req).entries).errors;
      exists rest ::
        && resp.body == ErrorPrefix + QuotedList(errors) + rest
        && ReadStrings(QuotedList(errors) + rest) == Some((errors, rest))
  {
    var errors := ValidationOf(ParamsOf(req).entries).errors;
    ErrorBodyReadsBack(errors, now, ToMillis(elapsedNanos), history);
  }
}
