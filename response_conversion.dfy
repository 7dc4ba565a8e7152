/**
 * The runtime's side of a function invocation: a handler's `Response` is turned
 * into the platform's `EventResponse`, which is then serialised with its omission
 * rules. Models `vercel_runtime/src/response.rs`.
 */
module ResponseConversion {
  import opened Wrappers
  import opened HttpTypes

  type u16 = x: int | 0 <= x < 0x1_0000

  /**
   * The event the platform expects back. On the wire `headers` is left out when
   * the map is empty, and `body` and `encoding` are left out when absent.
   */
  datatype EventResponse = EventResponse(
    status_code: u16,
    headers: HeaderMap,
    body: Option<Body>,
    encoding: Option<string>)

  /** The marker that tells the platform the body is base64-encoded binary. */
  const BASE64: string := "base64"

  /** `EventResponse::default()`. */
  function Default(): EventResponse
  {
    EventResponse(200, [], None, None)
  }

  /** `EventResponse::from(response)`, where `into` is the body's `Into<Body>` conversion. */
  function FromResponse<T>(value: Response<T>, into: T -> Body): (e: EventResponse)
    ensures e.status_code == value.parts.status && e.headers == value.parts.headers
    ensures e.encoding.Some? <==> into(value.body).Binary?
    ensures e.body.None? <==> into(value.body).Empty?
    ensures e.body.Some? ==> e.body.value == into(value.body)
    ensures e.encoding.Some? ==> e.encoding.value == BASE64
  {
    var b := into(value.body);
    var (encoding, body) :=
      match b
      case Empty => (None, None)
      case Text(_) => (None, Some(b))
      case Binary(_) => (Some(BASE64), Some(b));
    EventResponse(value.parts.status, value.parts.headers, body, encoding)
  }

  function Identity(b: Body): Body
  {
    b
  }

  /** The invariant of every event built from a response: the marker goes with binary bodies only. */
  predicate Consistent(e: EventResponse)
  {
    && e.body != Some(Empty)
    && e.encoding == (if e.body.Some? && e.body.value.Binary? then Some(BASE64) else None)
  }

  /** The response an event was built from, as the platform reads it back. */
  function Recover(e: EventResponse): Response<Body>
    requires 100 <= e.status_code <= 999
  {
    Response(Parts(e.status_code, e.headers), e.body.GetOr(Empty))
  }

  /** The default event is the one built from `Response::new(Body::Empty)`. */
  lemma DefaultIsEmptyResponse()
    ensures Default() == FromResponse(NewResponse(Empty), Identity)
    ensures Consistent(Default()) && Default().status_code == 200
    ensures Default().headers == [] && Default().body == None && Default().encoding == None
  {
  }

  /** Every converted response satisfies the encoding invariant. */
  lemma FromResponseConsistent<T>(value: Response<T>, into: T -> Body)
    ensures Consistent(FromResponse(value, into))
  {
  }

  /** The conversion loses nothing: status, headers and body come back unchanged. */
  lemma FromResponseRoundTrip<T>(value: Response<T>, into: T -> Body)
    ensures Recover(FromResponse(value, into)) == Response(value.parts, into(value.body))
  {
  }

  /** Conversely every consistent event with a three-digit status is the conversion of a response. */
  lemma ConsistentEventIsConverted(e: EventResponse)
    requires Consistent(e) && 100 <= e.status_code <= 999
    ensures FromResponse(Recover(e), Identity) == e
  {
  }

  // ---- serialisation --------------------------------------------------------

  /** A value on the wire: only the shapes the event's fields take. */
  datatype WireValue =
    | Number(n: int)
    | Object(entries: seq<(string, string)>)
    | Payload(payload: Body)   // written by `Body`'s own serializer
    | Str(s: string)

  /** A JSON object as the serializer emits it: fields in emission order. */
  type WireObject = seq<(string, WireValue)>

  /** `S::Error::custom(cause)`. */
  datatype SerializeError = Custom(cause: ToStrError)

  type HeaderObject = seq<(string, string)>

  /** Every key's first value is accepted by `to_str`. */
  predicate AllValuesAreStrings(h: HeaderMap)
  {
    forall k :: k in Keys(h) ==> IsVisibleStr(Index(h, k))
  }

  /** The entries written for keys `ks`, in their order; the first value that is not a string aborts. */
  function EntriesFor(h: HeaderMap, ks: seq<HeaderName>): Result<HeaderObject, SerializeError>
    requires forall k :: k in ks ==> k in Names(h)
  {
    if ks == [] then Success([])
    else
      match ToStr(Index(h, ks[0]))
      case Failure(cause) => Failure(Custom(cause))
      case Success(s) =>
        match EntriesFor(h, ks[1..])
        case Failure(err) => Failure(err)
        case Success(rest) => Success([(ks[0], s)] + rest)
  }

  lemma {:induction false} EntriesForSpec(h: HeaderMap, ks: seq<HeaderName>)
    requires forall k :: k in ks ==> k in Names(h)
    ensures EntriesFor(h, ks).Success? <==> forall i :: 0 <= i < |ks| ==> IsVisibleStr(Index(h, ks[i]))
    ensures EntriesFor(h, ks).Failure? ==> EntriesFor(h, ks).error == Custom(NotVisibleAscii)
    ensures EntriesFor(h, ks).Success? ==>
      var es := EntriesFor(h, ks).value;
      |es| == |ks| && forall i :: 0 <= i < |ks| ==> es[i] == (ks[i], AsText(Index(h, ks[i])))
  {
    if ks != [] {
      EntriesForSpec(h, ks[1..]);
      if IsVisibleStr(Index(h, ks[0])) {
        if EntriesFor(h, ks[1..]).Success? {
          var es := EntriesFor(h, ks).value;
          forall i | 0 <= i < |ks| ensures es[i] == (ks[i], AsText(Index(h, ks[i]))) {
            if i > 0 {
              assert ks[1..][i - 1] == ks[i];
            }
          }
        } else {
          var i :| 0 <= i < |ks[1..]| && !IsVisibleStr(Index(h, ks[1..][i]));
          assert ks[1..][i] == ks[i + 1];
        }
      }
    }
  }

  /** The header object `serialize_headers` writes, as a value. */
  function HeaderEntries(h: HeaderMap): Result<HeaderObject, SerializeError>
  {
    EntriesFor(h, Keys(h))
  }

  function EntryNames(es: HeaderObject): (r: seq<string>)
    ensures |r| == |es| && forall i :: 0 <= i < |es| ==> r[i] == es[i].0
  {
    seq(|es|, i requires 0 <= i < |es| => es[i].0)
  }

  /**
   * Serialising the headers succeeds exactly when every key's first value is a
   * string. It then writes one entry per distinct key, `keys_len` in all, each
   * with that key's first value, byte for byte; otherwise it fails as a whole.
   */
  lemma HeaderEntriesSpec(h: HeaderMap)
    ensures HeaderEntries(h).Success? <==> AllValuesAreStrings(h)
    ensures HeaderEntries(h).Failure? ==> HeaderEntries(h).error == Custom(NotVisibleAscii)
    ensures HeaderEntries(h).Success? ==>
      var es := HeaderEntries(h).value;
      && |es| == KeysLen(h)
      && EntryNames(es) == Keys(h)
      && Distinct(EntryNames(es))
      && (forall k :: k in EntryNames(es) <==> k in Names(h))
      && forall i :: 0 <= i < |es| ==>
           es[i].0 in Names(h) && es[i].1 == AsText(Index(h, es[i].0)) && AsciiBytes(es[i].1) == Index(h, es[i].0)
  {
    var ks := Keys(h);
    EntriesForSpec(h, ks);
    if AllValuesAreStrings(h) {
      var es := HeaderEntries(h).value;
      assert EntryNames(es) == ks;
      forall i | 0 <= i < |es|
        ensures es[i].0 in Names(h) && es[i].1 == AsText(Index(h, es[i].0)) && AsciiBytes(es[i].1) == Index(h, es[i].0)
      {
        assert ks[i] in ks;
        ToStrRoundTrip(Index(h, ks[i]));
      }
    } else {
      var k :| k in ks && !IsVisibleStr(Index(h, k));
      var i :| 0 <= i < |ks| && ks[i] == k;
    }
  }

  /** `serialize_headers`: writes one entry per key, stopping at the first value that is not a string. */
  method SerializeHeaders(headers: HeaderMap) returns (r: Result<HeaderObject, SerializeError>)
    ensures r == HeaderEntries(headers)
    ensures r.Success? <==> AllValuesAreStrings(headers)
    ensures r.Success? ==>
      && |r.value| == KeysLen(headers)
      && forall j :: 0 <= j < |r.value| ==>
           r.value[j] == (Keys(headers)[j], AsText(Index(headers, Keys(headers)[j])))
  {
    var keys := Keys(headers);
    var entries: HeaderObject := [];
    EntriesForSpec(headers, keys);
    var i := 0;
    while i < |keys|
      invariant 0 <= i <= |keys|
      invariant |entries| == i
      invariant forall j :: 0 <= j < i ==>
        IsVisibleStr(Index(headers, keys[j])) && entries[j] == (keys[j], AsText(Index(headers, keys[j])))
    {
      var key := keys[i];
      var value := ToStr(Index(headers, key));
      if value.Failure? {
        assert keys[i] in keys;
        return Failure(Custom(value.error));
      }
      entries := entries + [(key, value.value)];
      i := i + 1;
    }
    forall k | k in keys ensures IsVisibleStr(Index(headers, k)) {
      var j :| 0 <= j < |keys| && keys[j] == k;
    }
    assert entries == HeaderEntries(headers).value;
    return Success(entries);
  }

  /** A field in front of `rest`, skipped when its value is absent. */
  function OptionalField(name: string, v: Option<WireValue>, rest: WireObject): WireObject
  {
    if v.Some? then [(name, v.value)] + rest else rest
  }

  /** The four fields of an event in declaration order, the skipped ones left out. */
  function Layout(status: WireValue, headers: Option<WireValue>, body: Option<WireValue>, encoding: Option<WireValue>): WireObject
  {
    [("statusCode", status)]
    + OptionalField("headers", headers, OptionalField("body", body, OptionalField("encoding", encoding, [])))
  }

  /** The `headers` field's value: absent for an empty map, otherwise the header object. */
  function HeadersValue(h: HeaderMap): Result<Option<WireValue>, SerializeError>
  {
    if IsEmpty(h) then Success(None)
    else
      match HeaderEntries(h)
      case Failure(err) => Failure(err)
      case Success(entries) => Success(Some(Object(entries)))
  }

  /** The derived `Serialize` of `EventResponse`: fields in declaration order, with the skip rules. */
  function Serialize(e: EventResponse): Result<WireObject, SerializeError>
  {
    match HeadersValue(e.headers)
    case Failure(err) => Failure(err)
    case Success(headers) =>
      Success(Layout(
        Number(e.status_code),
        headers,
        if e.body.Some? then Some(Payload(e.body.value)) else None,
        if e.encoding.Some? then Some(Str(e.encoding.value)) else None))
  }

  function FieldNames(o: WireObject): seq<string>
  {
    if o == [] then [] else [o[0].0] + FieldNames(o[1..])
  }

  /** The value of field `name`, if the object has one. */
  function Field(o: WireObject, name: string): (r: Option<WireValue>)
    ensures r.Some? <==> name in FieldNames(o)
  {
    if o == [] then None
    else if o[0].0 == name then Some(o[0].1)
    else Field(o[1..], name)
  }

  lemma {:induction false} FieldAppend(a: WireObject, b: WireObject, name: string)
    ensures Field(a + b, name) == if name in FieldNames(a) then Field(a, name) else Field(b, name)
  {
    if a != [] {
      assert (a + b)[1..] == a[1..] + b;
      FieldAppend(a[1..], b, name);
      assert FieldNames(a) == [a[0].0] + FieldNames(a[1..]);
    } else {
      assert a + b == b;
    }
  }

  function OptionalName(name: string, v: Option<WireValue>): seq<string>
  {
    if v.Some? then [name] else []
  }

  lemma OptionalFieldLookup(name: string, v: Option<WireValue>, rest: WireObject, m: string)
    ensures FieldNames(OptionalField(name, v, rest)) == OptionalName(name, v) + FieldNames(rest)
    ensures Field(OptionalField(name, v, rest), m) == if v.Some? && name == m then v else Field(rest, m)
  {
    if v.Some? {
      assert OptionalField(name, v, rest)[1..] == rest;
    }
  }

  /** Reading a laid-out object back gives each field's own value, in declaration order. */
  lemma LayoutFields(status: WireValue, headers: Option<WireValue>, body: Option<WireValue>, encoding: Option<WireValue>)
    ensures var o := Layout(status, headers, body, encoding);
      && FieldNames(o) == ["statusCode"] + OptionalName("headers", headers) + OptionalName("body", body) + OptionalName("encoding", encoding)
      && Field(o, "statusCode") == Some(status)
      && Field(o, "headers") == headers
      && Field(o, "body") == body
      && Field(o, "encoding") == encoding
  {
    var es := OptionalField("encoding", encoding, []);
    var bs := OptionalField("body", body, es);
    var hs := OptionalField("headers", headers, bs);
    var o := Layout(status, headers, body, encoding);
    assert o[1..] == hs;
    forall m | m in ["statusCode", "headers", "body", "encoding"]
      ensures Field(hs, m) == if m == "headers" then headers else if m == "body" then body else if m == "encoding" then encoding else None
    {
      OptionalFieldLookup("encoding", encoding, [], m);
      OptionalFieldLookup("body", body, es, m);
      OptionalFieldLookup("headers", headers, bs, m);
    }
    assert FieldNames(o) == ["statusCode"] + FieldNames(hs);
  }

  /**
   * Serialising an event fails only when its non-empty header map holds a value
   * that is not a string. Otherwise `statusCode` comes first, then `headers`
   * unless the map is empty, `body` unless it is absent and `encoding` unless it
   * is absent, each carrying the event's own value.
   */
  lemma SerializeSpec(e: EventResponse)
    ensures Serialize(e).Success? <==> IsEmpty(e.headers) || AllValuesAreStrings(e.headers)
    ensures Serialize(e).Failure? ==> Serialize(e).error == Custom(NotVisibleAscii)
    ensures Serialize(e).Success? ==>
      var o := Serialize(e).value;
      && FieldNames(o) ==
           ["statusCode"]
           + (if IsEmpty(e.headers) then [] else ["headers"])
           + (if e.body.Some? then ["body"] else [])
           + (if e.encoding.Some? then ["encoding"] else [])
      && Field(o, "statusCode") == Some(Number(e.status_code))
      && Field(o, "headers") == (if IsEmpty(e.headers) then None else Some(Object(HeaderEntries(e.headers).value)))
      && Field(o, "body") == (if e.body.Some? then Some(Payload(e.body.value)) else None)
      && Field(o, "encoding") == (if e.encoding.Some? then Some(Str(e.encoding.value)) else None)
  {
    HeaderEntriesSpec(e.headers);
    if Serialize(e).Success? {
      LayoutFields(
        Number(e.status_code),
        HeadersValue(e.headers).value,
        if e.body.Some? then Some(Payload(e.body.value)) else None,
        if e.encoding.Some? then Some(Str(e.encoding.value)) else None);
    }
  }

  /** Omission rules end to end: which fields a converted response puts on the wire. */
  lemma ConvertedResponseOnTheWire<T>(value: Response<T>, into: T -> Body)
    ensures var r := Serialize(FromResponse(value, into));
      && (r.Success? <==> IsEmpty(value.parts.headers) || AllValuesAreStrings(value.parts.headers))
      && (r.Success? ==>
           && Field(r.value, "statusCode") == Some(Number(value.parts.status))
           && ("headers" in FieldNames(r.value) <==> !IsEmpty(value.parts.headers))
           && (Field(r.value, "body") == if into(value.body).Empty? then None else Some(Payload(into(value.body))))
           && (Field(r.value, "encoding") == if into(value.body).Binary? then Some(Str(BASE64)) else None))
  {
    SerializeSpec(FromResponse(value, into));
  }

  /** The default event goes on the wire as `{"statusCode":200}` alone. */
  lemma DefaultOnTheWire()
    ensures Serialize(Default()) == Success([("statusCode", Number(200))])
  {
    assert Layout(Number(200), None, None, None) == [("statusCode", Number(200))];
  }

  /** The three body kinds: no body and no marker, the same text, the same bytes with the marker. */
  lemma BodyKindsOnTheWire(parts: Parts)
    ensures FromResponse(Response(parts, Empty), Identity).body == None
    ensures FromResponse(Response(parts, Empty), Identity).encoding == None
    ensures FromResponse(Response(parts, "hello"), BodyFromStr).body == Some(Text("hello"))
    ensures FromResponse(Response(parts, "hello"), BodyFromStr).encoding == None
    ensures FromResponse(Response(parts, [0x00, 0xFF]), BodyFromBytes).body == Some(Binary([0x00, 0xFF]))
    ensures FromResponse(Response(parts, [0x00, 0xFF]), BodyFromBytes).encoding == Some("base64")
  {
  }

  /** Under a repeated name only the first value is checked and written; a bad later value is ignored. */
  lemma RepeatedNameKeepsFirstValue()
    ensures HeaderEntries([("x-id", AsciiBytes("7")), ("x-id", [0x00])]) == Success([("x-id", "7")])
  {
    var h: HeaderMap := [("x-id", AsciiBytes("7")), ("x-id", [0x00])];
    var ks := Keys(h);
    assert ks == ["x-id"] by {
      var seen: set<HeaderName> := {} + {"x-id"};
      assert h[1..][0].0 in seen;
      assert h[1..][1..] == [];
      assert KeysAfter(h[1..], seen) == KeysAfter(h[1..][1..], seen) == [];
      assert ks == [h[0].0] + KeysAfter(h[1..], seen);
    }
    FromStaticRoundTrip("7");
    assert Index(h, "x-id") == AsciiBytes("7");
    assert ToStr(Index(h, ks[0])) == Success("7");
    assert ks[1..] == [];
    assert EntriesFor(h, ks[1..]) == Success([]);
    assert [(ks[0], "7")] + [] == [("x-id", "7")];
  }

  // ---- IntoResponse ---------------------------------------------------------

  /** `IntoResponse for Response<B>`: the parts are kept, only the body is converted. */
  function ResponseIntoResponse<B>(r: Response<B>, into: B -> Body): (out: Response<Body>)
    ensures out.parts == r.parts && out.body == into(r.body)
  {
    Response(r.parts, into(r.body))
  }

  /** `IntoResponse for B: Into<Body>`: `Response::new` around the converted body. */
  function BodyIntoResponse<B>(b: B, into: B -> Body): (out: Response<Body>)
    ensures out.parts.status == 200 && IsEmpty(out.parts.headers) && out.body == into(b)
  {
    NewResponse(into(b))
  }

  /** `IntoResponse for serde_json::Value`, where `toJson` is `serde_json::to_string`. */
  function JsonIntoResponse<J>(v: J, toJson: J -> string): (out: Response<Body>)
    ensures out.parts.status == 200 && out.parts.headers == JsonContentType()
    ensures out.body == Text(toJson(v))
  {
    Response(Parts(200, JsonContentType()), BodyFromStr(toJson(v)))
  }

  /** Converting the body first and the event afterwards gives the same event as converting at once. */
  lemma IntoResponseThenEvent<B>(r: Response<B>, into: B -> Body)
    ensures FromResponse(ResponseIntoResponse(r, into), Identity) == FromResponse(r, into)
  {
  }

  /** `IntoResponse` on a `Response<Body>` changes nothing. */
  lemma IntoResponseOfBodyResponse(r: Response<Body>)
    ensures ResponseIntoResponse(r, Identity) == r
  {
  }

  /** The documented example: `"hello".into_response().body() == Response::new(Body::from("hello")).body()`. */
  lemma HelloIntoResponse()
    ensures BodyIntoResponse("hello", BodyFromStr).body == NewResponse(BodyFromStr("hello")).body
    ensures BodyIntoResponse("hello", BodyFromStr).body == Text("hello")
  {
  }

  /** A bare body becomes an event with status 200, no `headers` field and the body's own encoding. */
  lemma BodyIntoResponseOnTheWire<B>(b: B, into: B -> Body)
    ensures var o := Serialize(FromResponse(BodyIntoResponse(b, into), Identity));
      && o.Success?
      && Field(o.value, "statusCode") == Some(Number(200))
      && "headers" !in FieldNames(o.value)
      && (Field(o.value, "encoding") == if into(b).Binary? then Some(Str(BASE64)) else None)
  {
    ConvertedResponseOnTheWire(BodyIntoResponse(b, into), Identity);
  }

  /** The `content-type` header goes on the wire as the single entry `content-type: application/json`. */
  lemma JsonContentTypeEntries()
    ensures HeaderEntries(JsonContentType()) == Success([("content-type", "application/json")])
  {
    var h := JsonContentType();
    var ks := Keys(h);
    assert ks == ["content-type"] by {
      assert KeysAfter(h[1..], {"content-type"}) == [];
    }
    FromStaticRoundTrip("application/json");
    assert Index(h, "content-type") == AsciiBytes("application/json");
    assert ToStr(Index(h, ks[0])) == Success("application/json");
    assert ks[1..] == [];
    assert EntriesFor(h, ks[1..]) == Success([]);
    assert ks[0] == "content-type";
    assert [(ks[0], "application/json")] + [] == [("content-type", "application/json")];
  }

  /** A JSON value becomes a text event with the JSON content type and no encoding marker. */
  lemma JsonIntoResponseOnTheWire<J>(v: J, toJson: J -> string)
    ensures Serialize(FromResponse(JsonIntoResponse(v, toJson), Identity)) ==
      Success([("statusCode", Number(200)),
               ("headers", Object([("content-type", "application/json")])),
               ("body", Payload(Text(toJson(v))))])
  {
    JsonContentTypeEntries();
    var body := Some(Payload(Text(toJson(v))));
    assert Layout(Number(200), Some(Object([("content-type", "application/json")])), body, None) ==
      [("statusCode", Number(200)),
       ("headers", Object([("content-type", "application/json")])),
       ("body", Payload(Text(toJson(v))))];
  }
}
