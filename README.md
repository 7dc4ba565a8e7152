# Verified model of the Vercel Rust runtime's response marshalling

The `vercel_runtime` crate lets a handler written against the `http` crate's
`Response<Body>` run as a function on the hosting platform. The handler's response
is turned into an `EventResponse`: status code, headers, optional body and an
optional `encoding` marker that is `"base64"` exactly for binary bodies. That
event is then serialised to JSON. The header map is written by
`serialize_headers`, and empty or absent fields are left out. On top of this the
crate has a few ready-made JSON responses: `ok`, `bad_request`, `not_found`,
`endpoint_not_found`, `unauthorized` and `internal_server_error`.

The model is in five modules:

- `Wrappers` (`wrappers.dfy`): `Option` and `Result`.
- `HttpTypes` (`http_types.dfy`): the values the conversion works on. `Body` is
  `Empty | Text | Binary`. A `HeaderMap` is a sequence of (name, bytes) entries in
  which a name may repeat. `Get`/`Index` give the first value for a name. `Keys`
  gives each distinct name once. `ToStr` is `HeaderValue::to_str`. There are also
  `Response` and its `Parts`.
- `Json` (`json.dfy`): what is needed of `serde_json`. String quoting is a
  function parameter `quote`, not a definition. A struct is written as its fields
  in declaration order.
- `ResponseConversion` (`response_conversion.dfy`): `vercel_runtime/src/response.rs`.
  It holds `EventResponse`, `Default`, `From<Response<T>>`, `serialize_headers`
  (a method with a loop), the struct's serialisation with its skip rules, and the
  three `IntoResponse` impls.
- `ResponseHelpers` (`response_helpers.dfy`): `vercel_runtime/src/http.rs`.

Calls into code outside this repository are function parameters:
- `into: T -> Body` is a type's `Into<Body>`.
- `toJson: T -> string` is `serde_json::to_string` for the value's type.
- `quote: string -> string` is serde_json's rendering of a string literal.

Facts about literal JSON text, such as `{"found":false}`, are proved under one
stated assumption, `Json.QuotesPlainVerbatim(quote)`: text with no quote, no
backslash and no control character is only wrapped in quotes.

`HttpTypes.IsVisibleStr` is the `http` crate's rule for `to_str`: every byte is
visible ASCII (0x20 to 0x7E) or a tab. That crate is not part of this model, so
this rule is an assumption.

Two things the code does that are easy to miss:
- Headers are not copied pair by pair. For a name that occurs more than once,
  only its first value is checked and written (`headers[key]`). Later values are
  dropped, even ones that are not valid strings
  (`ResponseConversion.RepeatedNameKeepsFirstValue`).
- A `Text("")` body is still written as a body. Only `Empty` is left out.

## Model

| member | source | states |
|---|---|---|
| `HttpTypes.Get` | vercel_runtime/src/response.rs:42 | a lookup by name finds a value exactly when some entry has that name |
| `HttpTypes.GetIsFirstValue` | vercel_runtime/src/response.rs:42 | `headers[key]` is the value of the first entry with that name; later values are shadowed |
| `HttpTypes.KeysAfter` | vercel_runtime/src/response.rs:41 | the names not yet seen, each once, and exactly those |
| `HttpTypes.Keys` | vercel_runtime/src/response.rs:41 | `headers.keys()` yields every distinct name exactly once and nothing else |
| `HttpTypes.KeysLenBounds` | vercel_runtime/src/response.rs:40 | `keys_len` is at most the number of entries, and is zero exactly when the map is empty |
| `HttpTypes.ToStr` | vercel_runtime/src/response.rs:42 | `to_str` succeeds exactly on visible-ASCII-or-tab values, and the string has the value's characters one per byte |
| `HttpTypes.ToStrRoundTrip` | vercel_runtime/src/response.rs:42-43 | the string written for a header carries exactly its bytes |
| `HttpTypes.FromStaticRoundTrip` | vercel_runtime/src/response.rs:111 | a header value written from printable ASCII text, like `application/json`, reads back as that text |
| `ResponseConversion.DefaultIsEmptyResponse` | vercel_runtime/src/response.rs:25-34 | the default event has status 200, no headers, no body and no encoding, and is the event of `Response::new(Body::Empty)` |
| `ResponseConversion.DefaultOnTheWire` | vercel_runtime/src/response.rs:10-34 | the default event serialises to the single field `statusCode: 200` |
| `ResponseConversion.FromResponse` | vercel_runtime/src/response.rs:48-66 | status and headers are copied; `encoding` is present iff the body is `Binary` and is then `"base64"`; the wire body is absent iff the body is `Empty` and is otherwise that same body |
| `ResponseConversion.FromResponseConsistent` | vercel_runtime/src/response.rs:54-58 | every converted event keeps the encoding invariant: marker with binary bodies only, never a present `Empty` body |
| `ResponseConversion.FromResponseRoundTrip` | vercel_runtime/src/response.rs:52-65 | the conversion loses nothing: status, headers and body can be read back from the event |
| `ResponseConversion.ConsistentEventIsConverted` | vercel_runtime/src/response.rs:52-65 | every event that keeps the invariant, with a three-digit status, is the conversion of exactly the response read back from it |
| `ResponseConversion.BodyKindsOnTheWire` | vercel_runtime/src/response.rs:54-58 | `Empty` gives no body and no marker, `Text("hello")` the same text and no marker, `Binary([0x00,0xFF])` the same bytes and `"base64"` |
| `ResponseConversion.EntriesForSpec` | vercel_runtime/src/response.rs:41-44 | writing a list of keys succeeds iff every key's first value is a string; it then writes one entry per key, in order, with that value's text, and otherwise fails with the `to_str` error |
| `ResponseConversion.HeaderEntriesSpec` | vercel_runtime/src/response.rs:36-46 | the header object is written iff every key's first value is a string; it then has `keys_len` entries, one per distinct name, each with the first value byte for byte; otherwise the serialisation fails as a whole |
| `ResponseConversion.SerializeHeaders` | vercel_runtime/src/response.rs:36-46 | the loop over `keys()` returns the header object above, stops with the error at the first value that is not a string, and never returns a partial map |
| `ResponseConversion.RepeatedNameKeepsFirstValue` | vercel_runtime/src/response.rs:41-42 | with the same name twice, only the first value is written, and an invalid later value does not cause a failure |
| `ResponseConversion.LayoutFields` | vercel_runtime/src/response.rs:12-23 | fields are written in declaration order, each skipped field is left out, and each written field reads back as its own value |
| `ResponseConversion.SerializeSpec` | vercel_runtime/src/response.rs:10-23 | an event fails to serialise only for a non-empty header map with a non-string value; otherwise `statusCode` comes first, then `headers` iff the map is non-empty, `body` iff present and `encoding` iff present, each with the event's value |
| `ResponseConversion.ConvertedResponseOnTheWire` | vercel_runtime/src/response.rs:10-66 | for any response, the serialised event has its status, a `headers` field iff it has headers, a `body` field iff its body is not `Empty`, and `encoding: "base64"` iff its body is `Binary` |
| `ResponseConversion.ResponseIntoResponse` | vercel_runtime/src/response.rs:89-97 | `into_response` on a `Response<B>` keeps the parts and converts only the body |
| `ResponseConversion.IntoResponseThenEvent` | vercel_runtime/src/response.rs:93-96 | converting the body first and the event afterwards gives the same event as the direct conversion |
| `ResponseConversion.IntoResponseOfBodyResponse` | vercel_runtime/src/response.rs:93-96 | `into_response` on a `Response<Body>` returns it unchanged |
| `ResponseConversion.BodyIntoResponse` | vercel_runtime/src/response.rs:99-106 | a bare body becomes a response with status 200, no headers and that body |
| `ResponseConversion.HelloIntoResponse` | vercel_runtime/src/response.rs:79-82 | `"hello".into_response().body()` equals `Response::new(Body::from("hello")).body()`, which is `Text("hello")` |
| `ResponseConversion.BodyIntoResponseOnTheWire` | vercel_runtime/src/response.rs:103-105 | a bare body's event serialises with status 200, no `headers` field, and the marker iff the body is binary |
| `ResponseConversion.JsonIntoResponse` | vercel_runtime/src/response.rs:108-119 | a JSON value becomes a status-200 response with `content-type: application/json` and its serialised text as a `Text` body |
| `ResponseConversion.JsonContentTypeEntries` | vercel_runtime/src/response.rs:110-111 | the JSON content-type header is written as the single entry `content-type: application/json` |
| `ResponseConversion.JsonIntoResponseOnTheWire` | vercel_runtime/src/response.rs:108-119 | a JSON value's event is exactly `statusCode: 200`, `headers: {content-type: application/json}` and the text body, without an encoding marker |
| `HttpTypes.Index` | vercel_runtime/src/response.rs:42 | `headers[key]`, defined only for a name the map holds; specified by `HttpTypes.GetIsFirstValue` |
| `HttpTypes.KeysLen` | vercel_runtime/src/response.rs:40 | `keys_len`, the number of distinct names; specified by `HttpTypes.KeysLenBounds` and `ResponseConversion.HeaderEntriesSpec` |
| `HttpTypes.IsEmpty` | vercel_runtime/src/response.rs:15 | `HeaderMap::is_empty`, no entries; specified by `HttpTypes.KeysLenBounds` and `ResponseConversion.SerializeSpec` |
| `HttpTypes.NewResponse` | vercel_runtime/src/response.rs:104 | `Response::new`: status 200, no headers; specified by `ResponseConversion.BodyIntoResponse` and `ResponseConversion.DefaultIsEmptyResponse` |
| `HttpTypes.BodyFromStr` | vercel_runtime/src/response.rs:115 | `Body::from(String)` gives a `Text` body; specified by `ResponseConversion.HelloIntoResponse` and `ResponseConversion.JsonIntoResponse` |
| `HttpTypes.BodyFromBytes` | vercel_runtime/src/response.rs:57 | `Body::from(Vec<u8>)` gives a `Binary` body; specified by `ResponseConversion.BodyKindsOnTheWire` |
| `ResponseConversion.Default` | vercel_runtime/src/response.rs:25-34 | `EventResponse::default()`; specified by `ResponseConversion.DefaultIsEmptyResponse` and `ResponseConversion.DefaultOnTheWire` |
| `ResponseConversion.EntriesFor` | vercel_runtime/src/response.rs:41-44 | the loop body of `serialize_headers` as a value; specified by `ResponseConversion.EntriesForSpec` |
| `ResponseConversion.HeaderEntries` | vercel_runtime/src/response.rs:36-46 | `serialize_headers` as a value; specified by `ResponseConversion.HeaderEntriesSpec`, and `ResponseConversion.SerializeHeaders` is proved equal to it |
| `ResponseConversion.HeadersValue` | vercel_runtime/src/response.rs:14-18 | the `headers` field, skipped for an empty map, otherwise written by `serialize_headers`; specified by `ResponseConversion.SerializeSpec` |
| `ResponseConversion.Layout` | vercel_runtime/src/response.rs:12-23 | the derived serializer's fields in declaration order with skipped ones left out; specified by `ResponseConversion.LayoutFields` |
| `ResponseConversion.Serialize` | vercel_runtime/src/response.rs:10-23 | the derived `Serialize` of `EventResponse` with its skip rules; specified by `ResponseConversion.SerializeSpec` |
| `ResponseHelpers.APIErrorBody` | vercel_runtime/src/http.rs:19-23 | an `APIError` becomes a `Text` body |
| `ResponseHelpers.APIErrorText` | vercel_runtime/src/http.rs:13-23 | an error object is `{"message":"…","code":"…"}`, `message` first, given plain text and the quoting assumption |
| `ResponseHelpers.FoundBody` | vercel_runtime/src/http.rs:43-47 | a `Found` becomes a `Text` body |
| `ResponseHelpers.Ok` | vercel_runtime/src/http.rs:6-11 | `ok(val)` has status 200, a single `content-type: application/json` header and body `Text(json(val))` |
| `ResponseHelpers.OkIsJsonIntoResponse` | vercel_runtime/src/http.rs:6-11 | `ok(val)` is the same response as `into_response` on the value's JSON |
| `ResponseHelpers.BadRequest` | vercel_runtime/src/http.rs:25-36 | status 400, the JSON content type, and the error object with the caller's message and code `bad_request` |
| `ResponseHelpers.BadRequestText` | vercel_runtime/src/http.rs:25-36 | `bad_request("X")` sends 400 and `{"message":"X","code":"bad_request"}` |
| `ResponseHelpers.NotFound` | vercel_runtime/src/http.rs:49-56 | status 200, not 404, the JSON content type, and the `Found { found: false }` object |
| `ResponseHelpers.NotFoundText` | vercel_runtime/src/http.rs:38-56 | `not_found()` sends 200 and `{"found":false}` |
| `ResponseHelpers.EndpointNotFound` | vercel_runtime/src/http.rs:58-69 | status 404, the JSON content type, the error object `Not found` / `not_found` |
| `ResponseHelpers.EndpointNotFoundText` | vercel_runtime/src/http.rs:58-69 | `endpoint_not_found()` sends 404 and `{"message":"Not found","code":"not_found"}` |
| `ResponseHelpers.NotFoundIsNotEndpointNotFound` | vercel_runtime/src/http.rs:51-69 | the two "not found" helpers differ in status (200 and 404) and in body |
| `ResponseHelpers.Unauthorized` | vercel_runtime/src/http.rs:71-82 | status 401, the JSON content type, the error object `Unauthorized` / `unauthorized` |
| `ResponseHelpers.UnauthorizedText` | vercel_runtime/src/http.rs:71-82 | `unauthorized()` sends 401 and `{"message":"Unauthorized","code":"unauthorized"}` |
| `ResponseHelpers.InternalServerError` | vercel_runtime/src/http.rs:84-96 | status 500, the JSON content type, the error object `Internal server error` / `internal_server_error` |
| `ResponseHelpers.InternalServerErrorText` | vercel_runtime/src/http.rs:84-96 | `internal_server_error(err)` sends 500 and the fixed generic error object |
| `ResponseHelpers.InternalServerErrorHidesError` | vercel_runtime/src/http.rs:84-96 | the response is the same for every `err`: the error text never reaches the client |
| `ResponseHelpers.JsonResponseOnTheWire` | vercel_runtime/src/http.rs:7-10 | a helper-shaped response becomes the event `statusCode`, `headers: {content-type: application/json}` and the text body: a body is present and there is no marker |
| `ResponseHelpers.HelpersAreJsonText` | vercel_runtime/src/http.rs:6-96 | every helper builds a response with its status, exactly the JSON content-type header and a `Text` body |
| `ResponseHelpers.HelperEventsCarryText` | vercel_runtime/src/http.rs:6-96 | every helper's event has a present `Text` body, no encoding marker, and serialises with the JSON content-type header |

## Left out

- JSON formatting by `serde_json`, for an arbitrary value and for string escaping. These are the parameters `toJson` and `quote`. The `.unwrap()` and `.expect()` panics on serialisation failure are therefore not modelled.
- Base64 encoding of binary bodies and the JSON text of a body. Both belong to the `Body` type's own serializer, which is not part of this model. The wire model records a body as the `Payload` value and sets only the `"base64"` marker.
- The JSON text of the event itself. The model stops at the ordered list of fields that the derived serializer emits.
- `http` crate internals: `StatusCode` and `HeaderName` validation, header-name lowercasing, and how `HeaderMap` hashes. The model's `keys()` order is first occurrence. The proved properties do not depend on it, beyond each distinct key once with its first value.
- Errors raised by the serializer itself, from the `?` on `serialize_map`, `serialize_entry` and `end`. The model's serializer always accepts. The only failure modelled is the `to_str` error.
- The `Response::builder()` failure paths behind `?`. The helpers are modelled as returning their response directly, which is the `Ok` case.
- `ResponseHelpers.APIErrorText`: like the other `…Text` lemmas, it describes the JSON text only for a `quote` that satisfies `QuotesPlainVerbatim`, because escaping is not modelled.
- The version and extensions of the `http` crate's `Parts`. `Parts` here holds only the status and the headers. `into_response` keeps the real `Parts` whole, but the event reads only these two fields.
- The `tracing::error!` record that `internal_server_error` emits before it builds its response. It is a logging effect with no modelled output.
- `lambda_http::Body` (used by the helpers) and `crate::body::Body` (used by the conversion) are modelled as one three-variant `Body` type.
- The `lambda_http` runtime and invocation plumbing, and the example handler.
