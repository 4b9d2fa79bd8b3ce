/** The outbound side: `fetch(input, init)`, `parseUrl`, and the per-fetch
    callback the host drives through `handleFetch`. The URL parser is the
    parameter `parse`, and the random boundary suffix of a multipart body is
    the parameter `n`. */
module Fetch {
  import opened Js
  import Headers
  import Messages
  import Multipart
  import FormData

  // ---------------------------------------------------------------------
  // parseUrl

  /** A URL as `new URL(...)` parses it; `port` is the port written in it. */
  datatype Url = Url(protocol: string, hostname: string, port: Option<nat>, pathname: string, search: string)

  /** The port a special scheme implies (section 4.1 of the WHATWG URL
      Standard lists `ftp:` 21, `http:` 80, `https:` 443, `ws:` 80 and `wss:`
      443; `file:` has none). */
  function DefaultPort(protocol: string): Option<nat> {
    if protocol == "ftp:" then Some(21)
    else if protocol == "http:" || protocol == "ws:" then Some(80)
    else if protocol == "https:" || protocol == "wss:" then Some(443)
    else None
  }

  /** The `port` getter: empty when no port was written or when the written
      one is the scheme's default. */
  function PortText(u: Url): (r: string)
    ensures r == "" <==> u.port.None? || u.port == DefaultPort(u.protocol)
  {
    if u.port.None? || u.port == DefaultPort(u.protocol) then "" else Decimal(u.port.value)
  }

  /** The port the URL actually addresses. */
  function EffectivePort(u: Url): Option<nat> {
    if u.port.Some? then u.port else DefaultPort(u.protocol)
  }

  datatype ParsedUrl = ParsedUrl(protocol: string, hostname: string, port: string, pathname: string)

  /** `parseUrl(url)` as written: an empty port becomes `'80'` whatever the
      scheme, and the query string is appended to the path. */
  function ParseUrlAsWritten(u: Url): (r: ParsedUrl)
    ensures r.protocol == u.protocol && r.hostname == u.hostname
    ensures r.pathname == u.pathname + u.search
    ensures PortText(u) != "" ==> r.port == PortText(u)
    ensures PortText(u) == "" ==> r.port == "80"
  {
    var port := PortText(u);
    ParsedUrl(u.protocol, u.hostname, if port == "" then "80" else port, u.pathname + u.search)
  }

  /** An `https:` URL without a port is sent to port 80. */
  lemma HttpsSentToPort80()
    ensures var u := Url("https:", "example.com", None, "/", "");
      && EffectivePort(u) == Some(443)
      && ParseUrlAsWritten(u).port == "80"
      && ParseUrlAsWritten(u).port != Decimal(443)
  {
    assert Decimal(443) == Decimal(44) + [DigitChar(3)];
  }

  /** `parseUrl` with the empty port filled from the scheme. */
  function ParseUrl(u: Url): (r: ParsedUrl)
    ensures r.protocol == u.protocol && r.hostname == u.hostname
    ensures r.pathname == u.pathname + u.search
  {
    var port := PortText(u);
    var filled := if port != "" then port
      else if DefaultPort(u.protocol).Some? then Decimal(DefaultPort(u.protocol).value)
      else "80";
    ParsedUrl(u.protocol, u.hostname, filled, u.pathname + u.search)
  }

  /** For the two schemes `fetch` accepts, the port handed to the host is the
      one the URL addresses. */
  lemma ParseUrlPort(u: Url)
    requires u.protocol in {"http:", "https:"}
    ensures ParseUrl(u).port == Decimal(EffectivePort(u).value)
  {
  }

  // ---------------------------------------------------------------------
  // The exchange table

  datatype Settlement = Pending | Fulfilled(response: Messages.Response) | Rejected(error: Error)

  /** The state the callback closure of one fetch holds: how its promise
      settled, the chunks written to the current writer (`None` before the
      first `meta`), whether that writer feeds the response the promise
      was fulfilled with, and whether it was closed. */
  datatype Exchange = Exchange(result: Settlement, writer: Option<seq<Messages.Chunk>>, feedsResult: bool, closed: bool)

  /** `increasingFetchId`, every exchange issued so far by id, and the ids
      with a callback in `fetchCbs`. */
  datatype Bridge = Bridge(lastId: nat, exchanges: map<int, Exchange>, registered: set<int>)

  const Initial := Bridge(0, map[], {})

  /** The ids issued are exactly 1..lastId; a registered id has not been
      closed. */
  ghost predicate Valid(b: Bridge) {
    && (forall k :: k in b.exchanges <==> 1 <= k <= b.lastId)
    && (forall k :: k in b.registered ==> k in b.exchanges && !b.exchanges[k].closed)
  }

  lemma InitialValid()
    ensures Valid(Initial)
  {
  }

  // ---------------------------------------------------------------------
  // fetch

  datatype FetchInput = UrlInput(url: string) | RequestInput(request: Messages.Request)

  datatype Mode = StringMode | StreamMode | NoneMode

  /** The calls `fetch` makes to the host's `_fetch`. */
  datatype WireCall =
    | Head(url: ParsedUrl, rawUrl: string, headers: Headers.Table, verb: string, body: Option<string>, id: int, mode: Mode)
    | BodyChunk(chunk: Messages.Chunk, id: int)
    | BodyEnd(id: int) // the trailing `false`

  /** The bridge after the call, the id allocated, the wire calls made, and
      the error the returned promise was rejected with, if `fetch` threw. */
  datatype Issued = Issued(bridge: Bridge, id: int, calls: seq<WireCall>, thrown: Option<Error>)

  const InvalidUrl := TypeError("Invalid URL")

  function UnsupportedProtocol(protocol: string): Error {
    TypeError("Unsupported protocol: \"" + protocol + "\"")
  }

  /** The wire calls for a request whose URL has been accepted. */
  function WireCalls(request: Messages.Request, parsed: ParsedUrl, id: int, n: nat): (r: (seq<WireCall>, Option<Error>))
    requires n < Multipart.RandomSpan
    ensures forall k :: 0 <= k < |r.0| ==> r.0[k].id == id
  {
    var verb := ToUpper(request.verb);
    match request.body
    case Literal(t) => ([Head(parsed, request.url, request.headers, verb, Some(t), id, StringMode)], None)
    case FormBody(f) =>
      var encoded := Multipart.Generate(f, n);
      (match Headers.Set(request.headers, "Content-Type", Some(encoded.contentType))
       case Failure(e) => ([], Some(e))
       case Success(h) => ([Head(parsed, request.url, h, verb, Some(encoded.body), id, StringMode)], None))
    case Stream(cs) =>
      var chunks := seq(|cs|, i requires 0 <= i < |cs| => BodyChunk(cs[i], id));
      ([Head(parsed, request.url, request.headers, verb, None, id, StreamMode)] + chunks + [BodyEnd(id)], None)
    case Transform(_) =>
      // the head goes out, then iterating the TransformStream itself throws
      ([Head(parsed, request.url, request.headers, verb, None, id, StreamMode)], Some(Messages.NotIterable))
    case NoBody => ([Head(parsed, request.url, request.headers, verb, None, id, NoneMode)], None)
  }

  /** `fetch(input, init)`. The id is taken and the callback registered before
      anything can throw, and a throw does not release them. */
  function Fetch(b: Bridge, input: FetchInput, init: Messages.RequestInit, parse: string -> Option<Url>, n: nat): (r: Issued)
    requires n < Multipart.RandomSpan
  {
    var id := b.lastId + 1;
    var (calls, err) := Send(input, init, parse, id, n);
    Issued(Bridge(id, b.exchanges[id := Exchange(Pending, None, false, false)], b.registered + {id}), id, calls, err)
  }

  /** The request `fetch` works on: the given one, or `new Request(input, init)`
      for a string. */
  function RequestOf(input: FetchInput, init: Messages.RequestInit): Result<Messages.Request> {
    match input
    case UrlInput(s) => Messages.NewRequest(s, init)
    case RequestInput(q) => Success(q)
  }

  /** Everything `fetch` does after registering the callback: build the
      request, parse and check its URL with `parseUrl` as written, and make
      the wire calls. Every refusal happens before anything is sent. */
  function Send(input: FetchInput, init: Messages.RequestInit, parse: string -> Option<Url>, id: int, n: nat): (r: (seq<WireCall>, Option<Error>))
    requires n < Multipart.RandomSpan
    ensures forall k :: 0 <= k < |r.0| ==> r.0[k].id == id
    ensures RequestOf(input, init).Failure? ==> r == ([], Some(RequestOf(input, init).error))
    ensures RequestOf(input, init).Success? && parse(RequestOf(input, init).value.url).None? ==>
      r == ([], Some(InvalidUrl))
    ensures RequestOf(input, init).Success? && parse(RequestOf(input, init).value.url).Some? ==>
      var u := parse(RequestOf(input, init).value.url).value;
      && (u.protocol !in {"http:", "https:"} ==> r == ([], Some(UnsupportedProtocol(u.protocol))))
      && (u.protocol in {"http:", "https:"} ==> r == WireCalls(RequestOf(input, init).value, ParseUrlAsWritten(u), id, n))
  {
    var request := RequestOf(input, init);
    if request.Failure? then ([], Some(request.error))
    else
      match parse(request.value.url)
      case None => ([], Some(InvalidUrl))
      case Some(u) =>
        var parsed := ParseUrlAsWritten(u);
        if parsed.protocol != "http:" && parsed.protocol != "https:" then
          ([], Some(UnsupportedProtocol(parsed.protocol)))
        else WireCalls(request.value, parsed, id, n)
  }

  /** A fetch of an `https:` URL without a port hands the host port "80",
      whatever the body. */
  lemma HttpsFetchSentToPort80(b: Bridge, s: string, init: Messages.RequestInit, parse: string -> Option<Url>, n: nat)
    requires n < Multipart.RandomSpan
    requires Messages.HeadersOf(init.headers).Success?
    requires parse(s).Some? && parse(s).value.protocol == "https:" && parse(s).value.port.None?
    ensures var r := Fetch(b, UrlInput(s), init, parse, n);
      && |r.calls| > 0 && r.calls[0].Head? && r.calls[0].url.port == "80"
      && EffectivePort(parse(s).value) == Some(443)
  {
    var request := Messages.NewRequest(s, init).value;
    var parsed := ParseUrlAsWritten(parse(s).value);
    WireModes(request, parsed, b.lastId + 1, n);
  }

  /** Each call takes the next id, registers it, and leaves every earlier
      exchange as it was; whatever happens afterwards, the id stays
      registered. */
  lemma FetchAllocates(b: Bridge, input: FetchInput, init: Messages.RequestInit, parse: string -> Option<Url>, n: nat)
    requires Valid(b) && n < Multipart.RandomSpan
    ensures var r := Fetch(b, input, init, parse, n);
      && Valid(r.bridge)
      && r.id == b.lastId + 1 && r.id !in b.exchanges
      && r.bridge.lastId == r.id
      && r.bridge.registered == b.registered + {r.id}
      && r.bridge.exchanges[r.id] == Exchange(Pending, None, false, false)
      && (forall k :: k in b.exchanges ==> k in r.bridge.exchanges && r.bridge.exchanges[k] == b.exchanges[k])
      && (forall k :: 0 <= k < |r.calls| ==> r.calls[k].id == r.id)
  {
  }

  /** Two fetches in a row get two consecutive ids. */
  lemma IdsIncrease(b: Bridge, x: FetchInput, y: FetchInput, init: Messages.RequestInit, parse: string -> Option<Url>, n: nat)
    requires Valid(b) && n < Multipart.RandomSpan
    ensures var first := Fetch(b, x, init, parse, n);
      var second := Fetch(first.bridge, y, init, parse, n);
      second.id == first.id + 1 && first.id in second.bridge.registered
  {
  }

  /** A URL with another scheme makes `fetch` reject, with nothing sent. */
  lemma UnsupportedProtocolRejected(b: Bridge, s: string, init: Messages.RequestInit, parse: string -> Option<Url>, n: nat)
    requires n < Multipart.RandomSpan
    requires Messages.HeadersOf(init.headers).Success?
    requires parse(s).Some? && parse(s).value.protocol !in {"http:", "https:"}
    ensures Fetch(b, UrlInput(s), init, parse, n).calls == []
    ensures Fetch(b, UrlInput(s), init, parse, n).thrown == Some(UnsupportedProtocol(parse(s).value.protocol))
    ensures b.lastId + 1 in Fetch(b, UrlInput(s), init, parse, n).bridge.registered
  {
  }

  /** The string, multipart and stream wire modes: a string body goes out in
      the head call, a FormData is encoded and its content type installed
      in the headers, a stream's chunks follow the head one by one and then
      the closing `false`. The method is upper-cased in every mode. */
  lemma WireModes(request: Messages.Request, parsed: ParsedUrl, id: int, n: nat)
    requires n < Multipart.RandomSpan
    ensures var (calls, err) := WireCalls(request, parsed, id, n);
      && (err.None? ==> |calls| > 0 && calls[0].Head? && calls[0].verb == ToUpper(request.verb) && calls[0].url == parsed)
      && (request.body.Literal? ==> err.None? && calls[0].body == Some(request.body.text) && calls[0].mode == StringMode)
      && (request.body.NoBody? ==> err.None? && calls[0].body == None && calls[0].mode == NoneMode)
      && (request.body.Stream? ==>
            && err.None? && |calls| == |request.body.chunks| + 2
            && calls[0].mode == StreamMode && calls[|calls| - 1] == BodyEnd(id)
            && forall i :: 0 <= i < |request.body.chunks| ==> calls[i + 1] == BodyChunk(request.body.chunks[i], id))
      && (request.body.FormBody? ==>
            var encoded := Multipart.Generate(request.body.form, n);
            && err.None? && calls[0].mode == StringMode && calls[0].body == Some(encoded.body)
            && Headers.Find(calls[0].headers, "content-type") == Headers.Present(encoded.contentType))
  {
    if request.body.FormBody? {
      FormContentTypeValid(request.body.form, n);
      Headers.ContentTypeName();
    }
  }

  /** The multipart content type is a valid header value. */
  lemma FormContentTypeValid(f: FormData.Form, n: nat)
    requires n < Multipart.RandomSpan
    ensures Headers.IsFieldValue(Multipart.Generate(f, n).contentType)
  {
    var b := Multipart.Boundary(n);
    var digits := b[|Multipart.BoundaryPrefix|..];
    assert b == Multipart.BoundaryPrefix + digits;
    assert Headers.IsFieldValue(digits) by {
      assert forall i :: 0 <= i < |digits| ==> IsDigit(digits[i]);
    }
    Headers.FieldValueConcat(Multipart.BoundaryPrefix, digits);
    Headers.FieldValueConcat("multipart/form-data; boundary=", b);
  }

  // ---------------------------------------------------------------------
  // The callback

  /** `fetchCbs[id](err, data, meta)`: `err` and `meta` are `None` when
      falsy, and `data` is `None` for `null`. */
  datatype Callback = Callback(err: Option<string>, data: Option<Messages.Chunk>, meta: Option<Messages.ResponseInit>)

  const NotAFunction := TypeError("fetchCbs[fetchId] is not a function")

  const NullWriter := TypeError("Cannot read properties of null (reading 'ready')")

  /** Settling an already settled promise changes nothing. */
  function Settle(s: Settlement, outcome: Settlement): Settlement {
    if s.Pending? then outcome else s
  }

  /** What the writer receives for a data chunk: an `ArrayBuffer` is wrapped
      in a `Uint8Array` over all of it. */
  function Received(c: Messages.Chunk): (r: Messages.Chunk)
    ensures c.Buf? ==> r.Buf? && r.buf.Uint8? && r.buf.Contents() == c.buf.Contents()
    ensures !c.Buf? ==> r == c
  {
    match c
    case Buf(ArrayBuf(bytes)) => Messages.Buf(Messages.Uint8([], bytes, []))
    case _ => c
  }

  /** `handleFetch(err, data, meta, id)`; a failure is an error thrown back
      into the host, and then the bridge is unchanged. */
  function Dispatch(b: Bridge, id: int, cb: Callback): (r: Result<Bridge>)
    requires Valid(b)
    ensures r.Success? ==> Valid(r.value)
  {
    if id !in b.registered then Failure(NotAFunction)
    else
      var x := b.exchanges[id];
      if cb.err.Some? then
        var y := x.(result := Settle(x.result, Rejected(PlainError(cb.err.value))));
        Success(b.(exchanges := b.exchanges[id := y]))
      else if cb.meta.Some? then
        match Messages.NewResponse(Messages.ReadableArg([]), cb.meta.value)
        case Failure(e) => Failure(e)
        case Success(response) =>
          var y := Exchange(Settle(x.result, Fulfilled(response)), Some([]), x.result.Pending?, false);
          Success(b.(exchanges := b.exchanges[id := y]))
      else if x.writer.None? then Failure(NullWriter)
      else if cb.data.None? then
        var y := x.(closed := true);
        Success(Bridge(b.lastId, b.exchanges[id := y], b.registered - {id}))
      else
        var y := x.(writer := Some(x.writer.value + [Received(cb.data.value)]));
        Success(b.(exchanges := b.exchanges[id := y]))
  }

  /** A callback touches only its own exchange, keeps the table valid, and
      deregisters its id exactly when it closes the stream. */
  lemma DispatchIsolated(b: Bridge, id: int, cb: Callback)
    requires Valid(b)
    ensures var r := Dispatch(b, id, cb);
      && (id !in b.registered ==> r == Failure(NotAFunction))
      && (r.Success? ==>
            && Valid(r.value) && r.value.lastId == b.lastId
            && (forall k :: k != id ==> (k in r.value.registered <==> k in b.registered))
            && (forall k :: k != id && k in b.exchanges ==> r.value.exchanges[k] == b.exchanges[k])
            && (id !in r.value.registered <==> r.value.exchanges[id].closed))
  {
  }

  /** The chunks the response a fetch resolved to will yield so far. */
  function ResponseBody(x: Exchange): Option<seq<Messages.Chunk>> {
    if x.result.Fulfilled? && x.feedsResult then x.writer else None
  }

  /** Data chunks reach the response in order, each through `Received`. */
  lemma {:induction false} DataInOrder(b: Bridge, id: int, ds: seq<Messages.Chunk>)
    requires Valid(b) && id in b.registered && b.exchanges[id].writer.Some?
    ensures var r := DispatchAll(b, id, ds);
      && r.Success? && id in r.value.registered
      && var x, y := b.exchanges[id], r.value.exchanges[id];
      && y.result == x.result && y.feedsResult == x.feedsResult
      && y.writer == Some(x.writer.value + ReceivedAll(ds))
    decreases |ds|
  {
    var w := b.exchanges[id].writer.value;
    if |ds| > 0 {
      DataStep(b, id, ds[0]);
      var b' := Dispatch(b, id, Callback(None, Some(ds[0]), None)).value;
      DataInOrder(b', id, ds[1..]);
      DispatchAllCons(b, id, ds);
      ReceivedAllCons(w, ds);
    } else {
      assert w + ReceivedAll(ds) == w;
    }
  }

  lemma DispatchAllCons(b: Bridge, id: int, ds: seq<Messages.Chunk>)
    requires Valid(b) && |ds| > 0
    requires Dispatch(b, id, Callback(None, Some(ds[0]), None)).Success?
    ensures DispatchAll(b, id, ds) == DispatchAll(Dispatch(b, id, Callback(None, Some(ds[0]), None)).value, id, ds[1..])
  {
  }

  lemma ReceivedAllCons(w: seq<Messages.Chunk>, ds: seq<Messages.Chunk>)
    requires |ds| > 0
    ensures w + [Received(ds[0])] + ReceivedAll(ds[1..]) == w + ReceivedAll(ds)
  {
    assert ReceivedAll(ds) == [Received(ds[0])] + ReceivedAll(ds[1..]);
  }

  lemma DataStep(b: Bridge, id: int, d: Messages.Chunk)
    requires Valid(b) && id in b.registered && b.exchanges[id].writer.Some?
    ensures var r := Dispatch(b, id, Callback(None, Some(d), None));
      && r.Success? && id in r.value.registered
      && var x, y := b.exchanges[id], r.value.exchanges[id];
      && y.result == x.result && y.feedsResult == x.feedsResult
      && y.writer == Some(x.writer.value + [Received(d)])
  {
  }

  function ReceivedAll(ds: seq<Messages.Chunk>): (r: seq<Messages.Chunk>)
    ensures |r| == |ds|
    ensures forall i :: 0 <= i < |ds| ==> r[i] == Received(ds[i])
  {
    seq(|ds|, i requires 0 <= i < |ds| => Received(ds[i]))
  }

  /** Data callbacks delivered one after another. */
  function DispatchAll(b: Bridge, id: int, ds: seq<Messages.Chunk>): (r: Result<Bridge>)
    requires Valid(b)
    ensures r.Success? ==> Valid(r.value)
    decreases |ds|
  {
    if |ds| == 0 then Success(b)
    else
      match Dispatch(b, id, Callback(None, Some(ds[0]), None))
      case Failure(e) => Failure(e)
      case Success(b') =>
        DispatchIsolated(b, id, Callback(None, Some(ds[0]), None));
        DispatchAll(b', id, ds[1..])
  }

  /** A whole exchange: the head resolves the fetch's promise with a response
      whose body yields the data chunks in order; the closing `null` closes
      it and releases the id, after which a callback for the id throws. */
  lemma Exchanged(b: Bridge, id: int, meta: Messages.ResponseInit, ds: seq<Messages.Chunk>)
    requires Valid(b) && id in b.registered && b.exchanges[id].result.Pending?
    requires Messages.HeadersOf(meta.headers).Success?
    ensures var headed := Dispatch(b, id, Callback(None, None, Some(meta)));
      && headed.Success?
      && var fed := DispatchAll(headed.value, id, ds);
      && fed.Success?
      && var done := Dispatch(fed.value, id, Callback(None, None, None));
      && done.Success?
      && done.value.exchanges[id].result == Fulfilled(Messages.NewResponse(Messages.ReadableArg([]), meta).value)
      && ResponseBody(done.value.exchanges[id]) == Some(ReceivedAll(ds))
      && done.value.exchanges[id].closed
      && id !in done.value.registered
      && Dispatch(done.value, id, Callback(None, None, None)) == Failure(NotAFunction)
  {
    var headed := Dispatch(b, id, Callback(None, None, Some(meta)));
    DispatchIsolated(b, id, Callback(None, None, Some(meta)));
    DataInOrder(headed.value, id, ds);
    var fed := DispatchAll(headed.value, id, ds);
    assert [] + ReceivedAll(ds) == ReceivedAll(ds);
    DispatchIsolated(fed.value, id, Callback(None, None, None));
  }

  /** An error from the host rejects a pending fetch but leaves its
      callback registered; once the promise has settled, later errors
      change nothing visible. */
  lemma ErrorKeepsRegistration(b: Bridge, id: int, message: string)
    requires Valid(b) && id in b.registered
    ensures var r := Dispatch(b, id, Callback(Some(message), None, None));
      && r.Success? && id in r.value.registered
      && (b.exchanges[id].result.Pending? ==> r.value.exchanges[id].result == Rejected(PlainError(message)))
      && (!b.exchanges[id].result.Pending? ==> r.value.exchanges[id].result == b.exchanges[id].result)
  {
  }
}
