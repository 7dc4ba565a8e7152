/**
 * Ready-made JSON responses for handlers. Models `vercel_runtime/src/http.rs`.
 * Each helper is a builder chain: a fixed status, the single header
 * `content-type: application/json`, and a text body holding a JSON object.
 */
module ResponseHelpers {
  import opened Wrappers
  import opened HttpTypes
  import opened Json
  import opened ResponseConversion

  /** The error object every error helper sends: `{"message": ..., "code": ...}`. */
  datatype APIError = APIError(message: string, code: string)

  /** The object `not_found` sends: `{"found": ...}`. */
  datatype Found = Found(found: bool)

  const NOT_FOUND: Found := Found(false)

  /** `Body::from(APIError)`: the struct's fields in declaration order, `message` then `code`. */
  function APIErrorBody(e: APIError, quote: Quote): (b: Body)
    ensures b.Text?
  {
    Text(ObjectText([("message", quote(e.message)), ("code", quote(e.code))], quote))
  }

  /** `Body::from(Found)`. */
  function FoundBody(f: Found, quote: Quote): (b: Body)
    ensures b.Text?
  {
    Text(ObjectText([("found", BoolText(f.found))], quote))
  }

  /** The response every helper builds: the given status, the JSON content type, the given body. */
  function JsonResponse(status: StatusCode, body: Body): Response<Body>
  {
    Response(Parts(status, JsonContentType()), body)
  }

  /** `ok(val)`, where `toJson` is `serde_json::to_string` for the value's type. */
  function Ok<T>(val: T, toJson: T -> string): (r: Response<Body>)
    ensures r.parts.status == 200 && r.parts.headers == JsonContentType()
    ensures r.body == Text(toJson(val))
  {
    JsonResponse(200, Text(toJson(val)))
  }

  /** `bad_request(message)`. */
  function BadRequest(message: string, quote: Quote): (r: Response<Body>)
    ensures r.parts.status == 400 && r.parts.headers == JsonContentType()
    ensures r.body == APIErrorBody(APIError(message, "bad_request"), quote)
  {
    JsonResponse(400, APIErrorBody(APIError(message, "bad_request"), quote))
  }

  /** `not_found()`: a successful lookup that found nothing, so status 200. */
  function NotFound(quote: Quote): (r: Response<Body>)
    ensures r.parts.status == 200 && r.parts.headers == JsonContentType()
    ensures r.body == FoundBody(Found(false), quote)
  {
    JsonResponse(200, FoundBody(NOT_FOUND, quote))
  }

  /** `endpoint_not_found()`. */
  function EndpointNotFound(quote: Quote): (r: Response<Body>)
    ensures r.parts.status == 404 && r.parts.headers == JsonContentType()
    ensures r.body == APIErrorBody(APIError("Not found", "not_found"), quote)
  {
    JsonResponse(404, APIErrorBody(APIError("Not found", "not_found"), quote))
  }

  /** `unauthorized()`. */
  function Unauthorized(quote: Quote): (r: Response<Body>)
    ensures r.parts.status == 401 && r.parts.headers == JsonContentType()
    ensures r.body == APIErrorBody(APIError("Unauthorized", "unauthorized"), quote)
  {
    JsonResponse(401, APIErrorBody(APIError("Unauthorized", "unauthorized"), quote))
  }

  /** `internal_server_error(err)`; the error is only logged, and logging is not modelled. */
  function InternalServerError<E>(err: E, quote: Quote): (r: Response<Body>)
    ensures r.parts.status == 500 && r.parts.headers == JsonContentType()
    ensures r.body == APIErrorBody(APIError("Internal server error", "internal_server_error"), quote)
  {
    JsonResponse(500, APIErrorBody(APIError("Internal server error", "internal_server_error"), quote))
  }

  /** The text of an error object whose message and code need no escaping. */
  function ErrorObjectJson(message: string, code: string): string
  {
    "{\"message\":\"" + message + "\",\"code\":\"" + code + "\"}"
  }

  /** With a well-behaved escaper, an error object reads `{"message":"...","code":"..."}`, message first. */
  lemma APIErrorText(e: APIError, quote: Quote)
    requires QuotesPlainVerbatim(quote)
    requires IsPlain(e.message) && IsPlain(e.code)
    ensures APIErrorBody(e, quote) == Text(ErrorObjectJson(e.message, e.code))
  {
    var m := "\"" + e.message + "\"";
    var c := "\"" + e.code + "\"";
    assert quote("message") == "\"message\"" && quote("code") == "\"code\"" by {
      assert IsPlain("message") && IsPlain("code");
    }
    assert quote(e.message) == m && quote(e.code) == c;
    assert Members([("message", m), ("code", c)], quote) == "\"message\"" + ":" + m + "," + ("\"code\"" + ":" + c) by {
      var fields := [("message", m), ("code", c)];
      assert fields[1..] == [("code", c)];
    }
    ErrorObjectLayout(e.message, e.code);
  }

  /** The error object's pieces, put together, read as its template text. */
  lemma ErrorObjectLayout(x: string, y: string)
    ensures "{" + ("\"message\"" + ":" + ("\"" + x + "\"") + "," + ("\"code\"" + ":" + ("\"" + y + "\""))) + "}"
         == ErrorObjectJson(x, y)
  {
  }

  /** `bad_request("X")` sends status 400 and `{"message":"X","code":"bad_request"}`. */
  lemma BadRequestText(message: string, quote: Quote)
    requires QuotesPlainVerbatim(quote) && IsPlain(message)
    ensures BadRequest(message, quote).parts.status == 400
    ensures BadRequest(message, quote).body == Text(ErrorObjectJson(message, "bad_request"))
  {
    APIErrorText(APIError(message, "bad_request"), quote);
  }

  /** `not_found()` sends status 200 and `{"found":false}`. */
  lemma NotFoundText(quote: Quote)
    requires QuotesPlainVerbatim(quote)
    ensures NotFound(quote).parts.status == 200
    ensures NotFound(quote).body == Text("{\"found\":false}")
  {
  }

  /** `endpoint_not_found()` sends status 404 and `{"message":"Not found","code":"not_found"}`. */
  lemma EndpointNotFoundText(quote: Quote)
    requires QuotesPlainVerbatim(quote)
    ensures EndpointNotFound(quote).parts.status == 404
    ensures EndpointNotFound(quote).body == Text(ErrorObjectJson("Not found", "not_found"))
  {
    APIErrorText(APIError("Not found", "not_found"), quote);
  }

  /** `unauthorized()` sends status 401 and `{"message":"Unauthorized","code":"unauthorized"}`. */
  lemma UnauthorizedText(quote: Quote)
    requires QuotesPlainVerbatim(quote)
    ensures Unauthorized(quote).parts.status == 401
    ensures Unauthorized(quote).body == Text(ErrorObjectJson("Unauthorized", "unauthorized"))
  {
    APIErrorText(APIError("Unauthorized", "unauthorized"), quote);
  }

  /** `internal_server_error` sends status 500 and a fixed generic error object. */
  lemma InternalServerErrorText<E>(err: E, quote: Quote)
    requires QuotesPlainVerbatim(quote)
    ensures InternalServerError(err, quote).parts.status == 500
    ensures InternalServerError(err, quote).body == Text(ErrorObjectJson("Internal server error", "internal_server_error"))
  {
    APIErrorText(APIError("Internal server error", "internal_server_error"), quote);
  }

  /** The error passed to `internal_server_error` never reaches the response. */
  lemma InternalServerErrorHidesError<E>(err1: E, err2: E, quote: Quote)
    ensures InternalServerError(err1, quote) == InternalServerError(err2, quote)
  {
  }

  /** The two "not found" helpers are different responses: a 200 with a flag, and a 404 with an error. */
  lemma NotFoundIsNotEndpointNotFound(quote: Quote)
    requires QuotesPlainVerbatim(quote)
    ensures NotFound(quote).parts.status == 200 && EndpointNotFound(quote).parts.status == 404
    ensures NotFound(quote).body != EndpointNotFound(quote).body
  {
    NotFoundText(quote);
    EndpointNotFoundText(quote);
    assert NotFound(quote).body.text[2] == 'f';
    assert EndpointNotFound(quote).body.text[2] == 'm';
  }

  /** `ok(val)` is the same response as `val.into_response()` for a JSON value. */
  lemma OkIsJsonIntoResponse<T>(val: T, toJson: T -> string)
    ensures Ok(val, toJson) == JsonIntoResponse(val, toJson)
  {
  }

  /**
   * A helper's response is a JSON text response, so the event built from it
   * carries its status, the single `content-type: application/json` header, the
   * text body and no encoding marker.
   */
  lemma JsonResponseOnTheWire(status: StatusCode, text: string)
    ensures var e := FromResponse(JsonResponse(status, Text(text)), Identity);
      && e.body == Some(Text(text)) && e.encoding == None
      && Serialize(e) ==
           Success([("statusCode", Number(status)),
                    ("headers", Object([("content-type", "application/json")])),
                    ("body", Payload(Text(text)))])
  {
    JsonContentTypeEntries();
    var o: WireObject := [("statusCode", Number(status)),
                         ("headers", Object([("content-type", "application/json")])),
                         ("body", Payload(Text(text)))];
    assert Layout(Number(status), Some(Object([("content-type", "application/json")])), Some(Payload(Text(text))), None) == o;
  }

  /** Every helper builds a JSON text response with the single JSON content-type header. */
  lemma HelpersAreJsonText<T, E>(val: T, toJson: T -> string, message: string, err: E, quote: Quote)
    ensures Ok(val, toJson) == JsonResponse(200, Ok(val, toJson).body) && Ok(val, toJson).body.Text?
    ensures BadRequest(message, quote) == JsonResponse(400, BadRequest(message, quote).body)
    ensures BadRequest(message, quote).body.Text?
    ensures NotFound(quote) == JsonResponse(200, NotFound(quote).body) && NotFound(quote).body.Text?
    ensures EndpointNotFound(quote) == JsonResponse(404, EndpointNotFound(quote).body)
    ensures EndpointNotFound(quote).body.Text?
    ensures Unauthorized(quote) == JsonResponse(401, Unauthorized(quote).body) && Unauthorized(quote).body.Text?
    ensures InternalServerError(err, quote) == JsonResponse(500, InternalServerError(err, quote).body)
    ensures InternalServerError(err, quote).body.Text?
  {
  }

  /** Whichever helper built it, the event has a text body, no encoding marker, and serialises. */
  lemma HelperEventsCarryText(r: Response<Body>)
    requires exists status: StatusCode, text: string :: r == JsonResponse(status, Text(text))
    ensures var e := FromResponse(r, Identity);
      && e.body.Some? && e.body.value.Text? && e.encoding == None
      && Serialize(e).Success?
      && Field(Serialize(e).value, "headers") == Some(Object([("content-type", "application/json")]))
  {
    var status: StatusCode, text: string :| r == JsonResponse(status, Text(text));
    JsonResponseOnTheWire(status, text);
  }
}
