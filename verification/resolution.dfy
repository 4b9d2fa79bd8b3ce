/** How the value a request handler produces becomes a `Response`: strings,
    buffers and plain data are wrapped, a `Response` passes through, and
    everything else (including every thrown error) becomes the fixed 500
    response, unless the value caught is `null` or `undefined`: logging its
    `stack` then throws out of the `catch`, and no response is made. */
module Resolution {
  import opened Js
  import Headers
  import Messages

  // ---------------------------------------------------------------------
  // shouldSerializeIntoPOJO

  /** `Object.getPrototypeOf(obj)`, as far as the check distinguishes it. */
  datatype Proto = ArrayProto | ObjectProto | NullProto | OtherProto

  /** A value as the plain-data check sees it. For an object, `members` are
      the elements an array yields or the values `Object.values` lists. */
  datatype JsValue =
    | Primitive // `typeof` is not 'object': undefined, boolean, number, string, symbol, bigint, function
    | Null
    | Object(proto: Proto, toJSON: ToJson, members: seq<JsValue>)

  /** `obj.toJSON`: absent or falsy, a call that returns, or one that throws
      (a truthy `toJSON` that is not callable throws too). */
  datatype ToJson = NoToJson | Returns(result: JsValue) | Throws(error: Error)

  /** The prototypes whose objects are examined member by member. */
  predicate Examined(p: Proto) {
    p != OtherProto
  }

  /** The first verdict that is not `true`, in order; `true` if there is none. */
  function FirstVerdict(rs: seq<Result<bool>>): (r: Result<bool>)
    ensures r == Success(true) <==> forall i :: 0 <= i < |rs| ==> rs[i] == Success(true)
    ensures r != Success(true) ==> r in rs
  {
    if |rs| == 0 then Success(true)
    else if rs[0] == Success(true) then
      var rest := FirstVerdict(rs[1..]);
      assert forall i :: 1 <= i < |rs| ==> rs[i] == rs[1..][i - 1];
      rest
    else rs[0]
  }

  /** The check after `toJSON` has been applied: arrays and plain or
      null-prototype objects are accepted when all their members are,
      other objects are refused. */
  function Shape(p: Proto, members: seq<Result<bool>>): Result<bool> {
    if Examined(p) then FirstVerdict(members) else Success(false)
  }

  /** `shouldSerializeIntoPOJO(obj)`. `toJSON` is consulted once per level,
      and a thrown error propagates. */
  function Serializable(v: JsValue): Result<bool>
    decreases v
  {
    match v
    case Primitive => Success(true)
    case Null => Success(true)
    case Object(_, Throws(e), _) => Failure(e)
    case Object(p, NoToJson, ms) =>
      Shape(p, seq(|ms|, i requires 0 <= i < |ms| => Serializable(ms[i])))
    case Object(_, Returns(w), _) =>
      match w
      case Object(p, _, ms) =>
        Shape(p, seq(|ms|, i requires 0 <= i < |ms| => Serializable(ms[i])))
      case _ => Success(true)
  }

  /** The reference: data free of class instances. No `toJSON` throws, and
      every object reached (after its `toJSON`) is an array or a plain or
      null-prototype object whose members are plain data in turn. */
  ghost predicate PlainData(v: JsValue)
    decreases v
  {
    match v
    case Object(_, Throws(_), _) => false
    case Object(p, NoToJson, ms) =>
      Examined(p) && forall i :: 0 <= i < |ms| ==> PlainData(ms[i])
    case Object(_, Returns(Object(p, _, ms)), _) =>
      Examined(p) && forall i :: 0 <= i < |ms| ==> PlainData(ms[i])
    case _ => true
  }

  /** The check accepts exactly the plain data. */
  lemma {:induction false} SerializableIffPlain(v: JsValue)
    ensures Serializable(v) == Success(true) <==> PlainData(v)
    decreases v
  {
    match v
    case Object(p, NoToJson, ms) =>
      MembersIffPlain(v, p, ms);
    case Object(_, Returns(Object(p, t, ms)), _) =>
      MembersIffPlain(v, p, ms);
    case _ =>
  }

  lemma {:induction false} MembersIffPlain(v: JsValue, p: Proto, ms: seq<JsValue>)
    requires v.Object?
    requires v.toJSON.NoToJson? ==> v.proto == p && v.members == ms
    requires v.toJSON.Returns? ==> v.toJSON.result.Object? && v.toJSON.result.proto == p && v.toJSON.result.members == ms
    requires !v.toJSON.Throws?
    ensures Shape(p, seq(|ms|, i requires 0 <= i < |ms| => Serializable(ms[i]))) == Success(true)
      <==> Examined(p) && forall i :: 0 <= i < |ms| ==> PlainData(ms[i])
    decreases v, 0
  {
    var rs := seq(|ms|, i requires 0 <= i < |ms| => Serializable(ms[i]));
    forall i | 0 <= i < |ms|
      ensures rs[i] == Success(true) <==> PlainData(ms[i])
    {
      assert ms[i] < v;
      SerializableIffPlain(ms[i]);
    }
  }

  /** A class instance is refused, but one whose `toJSON` returns a
      primitive (a `Date`, say) is accepted; a member's class instance
      spoils the whole object. */
  lemma InstancesRefused()
    ensures Serializable(Object(OtherProto, NoToJson, [])) == Success(false)
    ensures Serializable(Object(OtherProto, Returns(Primitive), [])) == Success(true)
    ensures Serializable(Object(ObjectProto, NoToJson, [Primitive, Object(OtherProto, NoToJson, [])])) == Success(false)
  {
    var inner := Object(OtherProto, NoToJson, []);
    var ms := [Primitive, inner];
    var rs := seq(|ms|, i requires 0 <= i < |ms| => Serializable(ms[i]));
    assert rs[1] == Success(false);
  }

  // ---------------------------------------------------------------------
  // Classifying the handler's result

  /** What the handler's (awaited) result is. */
  datatype Returned =
    | Threw(error: Error)            // the handler threw or its promise rejected
    | StringValue(s: string)
    | NullValue
    | ResponseValue(response: Messages.Response)
    | BufferValue(buf: Messages.Buffer)
    | ObjectValue(value: JsValue)    // any other object
    | OtherValue                     // undefined, a number, a boolean, a function, a symbol or a bigint

  datatype Handler = NotAFunction | Handler(run: Messages.Request -> Returned)

  /** `JSON.stringify(value)`: a text, `undefined`, or a thrown error. */
  datatype Json = JsonText(text: string) | JsonUndefined | JsonThrows(error: Error)

  const TextPlain := "text/plain"
  const OctetStream := "application/octet-stream"
  const ApplicationJson := "application/json"

  /** `new Headers({'Content-Type': contentType})`. */
  function TypedHeaders(contentType: string): Result<Headers.Table> {
    Headers.ConstructCorrected(Headers.FromRecord([("Content-Type", Some(contentType))]))
  }

  /** The table those headers hold. */
  function ContentTypeTable(contentType: string): Headers.Table {
    Headers.Table(["content-type"], map["content-type" := contentType])
  }

  /** `new Response('', { status: 500 })`. */
  const ServerError := Messages.Response(500, "OK", Headers.Empty, Messages.Literal(""))

  lemma ServerErrorConstructed()
    ensures Messages.NewResponse(Messages.StringArg(""), Messages.ResponseInit(Some(500), None, Headers.NoInit)) == Success(ServerError)
  {
  }

  /** `new Response(body, { headers: new Headers({'Content-Type': contentType}) })`. */
  function Wrap(body: Messages.BodyArg, contentType: string): (r: Messages.Response)
    requires contentType in {TextPlain, OctetStream, ApplicationJson}
  {
    TypedHeadersTable(contentType);
    Messages.NewResponse(body, Messages.ResponseInit(None, None, Headers.FromTable(ContentTypeTable(contentType)))).value
  }

  /** The content types the classifier uses are valid header values, so the
      headers object is the one-entry table. */
  lemma TypedHeadersTable(contentType: string)
    requires contentType in {TextPlain, OctetStream, ApplicationJson}
    ensures TypedHeaders(contentType) == Success(ContentTypeTable(contentType))
  {
    var props := [("Content-Type", Some(contentType))];
    SingleRecord(Some(contentType));
    ContentTypesAreValues(contentType);
    AppendContentType(contentType);
    OneAppend(props, ContentTypeTable(contentType));
    assert TypedHeaders(contentType) == Headers.Construct(Headers.FromRecord(props));
  }

  /** Appending a one-pair list is one `append`. */
  lemma OneAppend(props: seq<(string, Option<string>)>, t: Headers.Table)
    requires |props| == 1
    requires Headers.Append(Headers.Empty, props[0].0, props[0].1) == Success(t)
    ensures Headers.AppendAll(Headers.Empty, props) == Success(t)
  {
    assert Headers.AppendAll(Headers.Empty, props) == Headers.AppendAll(t, props[1..]);
  }

  /** A record with one named property lists just that property. */
  lemma SingleRecord(v: Option<string>)
    ensures OwnEntries([("Content-Type", v)]) == [("Content-Type", v)]
  {
    var props := [("Content-Type", v)];
    assert !IsArrayIndex("Content-Type");
    assert Js.IndexEntries(props) == [];
    assert Js.NamedEntries(props) == props;
  }

  lemma ContentTypesAreValues(contentType: string)
    requires contentType in {TextPlain, OctetStream, ApplicationJson}
    ensures Headers.IsFieldValue(contentType)
  {
  }

  lemma AppendContentType(contentType: string)
    requires Headers.IsFieldValue(contentType)
    ensures Headers.Append(Headers.Empty, "Content-Type", Some(contentType)) == Success(ContentTypeTable(contentType))
  {
    Headers.ContentTypeName();
    assert Headers.Find(Headers.Empty, "content-type") == Headers.Absent;
    assert [] + ["content-type"] == ["content-type"];
  }

  /** Reading `stack` from `null` or `undefined`. */
  const NoStack := TypeError("Cannot read properties of undefined (reading 'stack')")

  /** The `catch` block: `console.error(e.stack)`, then the 500 response.
      The argument is evaluated before the call, so a nullish `e` makes the
      `catch` itself throw. */
  function Caught(e: Error): (r: Result<Messages.Response>)
    ensures r.Failure? <==> e.Nullish?
    ensures r.Failure? ==> r.error == NoStack
    ensures r.Success? ==> r.value == ServerError
  {
    if e.Nullish? then Failure(NoStack) else Success(ServerError)
  }

  /** The body of `handleIncomingReqHead`'s `try` block and its `catch`. */
  function Resolve(handler: Handler, request: Messages.Request, stringify: JsValue -> Json): (r: Result<Messages.Response>)
    ensures r.Failure? ==> r.error == NoStack
    ensures handler.NotAFunction? ==> r == Success(ServerError)
    ensures handler.Handler? ==> match handler.run(request)
      case Threw(e) => r == Caught(e)
      case NullValue => r == Success(ServerError)
      case OtherValue => r == Success(ServerError)
      case ResponseValue(x) => r == Success(x)
      case StringValue(s) =>
        r == Success(Messages.Response(200, "OK", ContentTypeTable(TextPlain), Messages.Literal(s)))
      case BufferValue(b) =>
        r == Success(Messages.Response(200, "OK", ContentTypeTable(OctetStream), Messages.Stream([Messages.Buf(b)])))
      case ObjectValue(v) =>
        match Serializable(v)
        case Failure(e) => r == Caught(e)
        case Success(false) => r == Success(ServerError)
        case Success(true) =>
          match stringify(v)
          case JsonThrows(e) => r == Caught(e)
          case JsonText(t) => r == Success(Messages.Response(200, "OK", ContentTypeTable(ApplicationJson), Messages.Literal(t)))
          case JsonUndefined => r == Success(Messages.Response(200, "OK", ContentTypeTable(ApplicationJson), Messages.NoBody))
  {
    match handler
    case NotAFunction => Caught(TypeError("Worker did not provide a valid handler"))
    case Handler(run) =>
      match run(request)
      case Threw(e) => Caught(e)
      case StringValue(s) => Success(Wrap(Messages.StringArg(s), TextPlain))
      case ResponseValue(x) => Success(x)
      case BufferValue(b) => Success(Wrap(Messages.BufferArg(b), OctetStream))
      case NullValue => Caught(TypeError("Response was an invalid object"))
      case OtherValue => Caught(TypeError("Invalid response type"))
      case ObjectValue(v) =>
        match Serializable(v)
        case Failure(e) => Caught(e)
        case Success(false) => Caught(TypeError("Response object must be a POJO"))
        case Success(true) =>
          match stringify(v)
          case JsonText(t) => Success(Wrap(Messages.StringArg(t), ApplicationJson))
          // `new Response(undefined, ...)` has neither body nor string
          case JsonUndefined => Success(Wrap(Messages.NoArg, ApplicationJson))
          case JsonThrows(e) => Caught(e)
  }

  /** The thrown value the `catch` block receives, if the `try` block throws. */
  function CaughtValue(handler: Handler, request: Messages.Request, stringify: JsValue -> Json): Option<Error> {
    match handler
    case NotAFunction => Some(TypeError("Worker did not provide a valid handler"))
    case Handler(run) =>
      match run(request)
      case Threw(e) => Some(e)
      case NullValue => Some(TypeError("Response was an invalid object"))
      case OtherValue => Some(TypeError("Invalid response type"))
      case ObjectValue(v) =>
        (match Serializable(v)
         case Failure(e) => Some(e)
         case Success(false) => Some(TypeError("Response object must be a POJO"))
         case Success(true) => if stringify(v).JsonThrows? then Some(stringify(v).error) else None)
      case _ => None
  }

  /** A response is made exactly unless the value caught is `null` or
      `undefined`; whenever something is caught, the response is the 500
      one. The bootstrap's own errors are never nullish, so only the
      handler, a `toJSON` or `JSON.stringify` can leave a request
      unanswered. */
  lemma UnansweredIffNullish(handler: Handler, request: Messages.Request, stringify: JsValue -> Json)
    ensures var r := Resolve(handler, request, stringify);
      var c := CaughtValue(handler, request, stringify);
      && (r.Failure? <==> c == Some(Nullish))
      && (c.Some? && r.Success? ==> r.value == ServerError)
      && (c == Some(Nullish) ==>
            handler.Handler? && (handler.run(request) == Threw(Nullish) || handler.run(request).ObjectValue?))
  {
  }

  /** An object the handler returns is sent as JSON exactly when it is plain
      data (and `JSON.stringify` produces a text for it). */
  lemma JsonIffPlain(run: Messages.Request -> Returned, request: Messages.Request, stringify: JsValue -> Json, v: JsValue)
    requires run(request) == ObjectValue(v) && stringify(v).JsonText?
    ensures var r := Resolve(Handler(run), request, stringify);
      r.Success? && r.value.headers == ContentTypeTable(ApplicationJson) <==> PlainData(v)
    ensures !PlainData(v) ==>
      Resolve(Handler(run), request, stringify) == if Serializable(v) == Failure(Nullish) then Failure(NoStack) else Success(ServerError)
  {
    SerializableIffPlain(v);
  }
}
