/** Serving one inbound request (`handleIncomingReqHead` and
    `handleIncomingReqBody`): the request is registered under the host's id,
    the handler's result is resolved into a response, the response is
    handed to the host, and the id is released once its body is through.
    The chunks the host will deliver for the request body are the parameter
    `incoming`. */
module Inbound {
  import opened Js
  import Headers
  import Messages
  import Resolution

  /** The calls made into the host. */
  datatype HostCall =
    | StartResponse(id: int, response: Messages.Response, literal: Option<string>)
    | WriteResponse(id: int, bytes: Option<seq<byte>>) // `None` is the closing `null`

  /** The registry after the call, the host calls made, in order, and the
      error the handler's async function was rejected with, if any. */
  datatype Served = Served(inflight: map<int, Messages.Request>, calls: seq<HostCall>, thrown: Option<Error>)

  /** One `writeResponse(chunkAsArrayBuffer(chunk), id)` per chunk, stopping
      at the first chunk that cannot be converted. */
  function WriteAll(id: int, cs: seq<Messages.Chunk>, encode: string -> seq<byte>): (r: (seq<HostCall>, Option<Error>))
    ensures |r.0| <= |cs|
    ensures r.1.None? ==> |r.0| == |cs|
    ensures forall k :: 0 <= k < |r.0| ==>
      Messages.ChunkAsArrayBuffer(cs[k], encode).Success? &&
      r.0[k] == WriteResponse(id, Some(Messages.ChunkAsArrayBuffer(cs[k], encode).value))
  {
    if |cs| == 0 then ([], None)
    else
      match Messages.ChunkAsArrayBuffer(cs[0], encode)
      case Failure(e) => ([], Some(e))
      case Success(bytes) =>
        var rest := WriteAll(id, cs[1..], encode);
        ([WriteResponse(id, Some(bytes))] + rest.0, rest.1)
  }

  /** The writes stop exactly at the first chunk that is not a buffer (a
      string among them), and only then is there an error. */
  lemma {:induction false} WriteAllStops(id: int, cs: seq<Messages.Chunk>, encode: string -> seq<byte>)
    ensures var r := WriteAll(id, cs, encode);
      && (r.1.None? <==> forall k :: 0 <= k < |cs| ==> cs[k].Buf?)
      && (r.1.Some? ==> r.1.value == Messages.BadChunk && |r.0| < |cs| && !cs[|r.0|].Buf?)
      && (forall k :: 0 <= k < |r.0| ==> cs[k].Buf?)
  {
    if |cs| > 0 {
      WriteAllStops(id, cs[1..], encode);
      if cs[0].Buf? {
        assert forall k :: 1 <= k < |cs| ==> cs[k] == cs[1..][k - 1];
      }
    }
  }

  /** A string chunk stops the writes before anything is written for it. */
  lemma StringChunkStops(id: int, s: string, cs: seq<Messages.Chunk>, encode: string -> seq<byte>)
    ensures WriteAll(id, [Messages.Text(s)] + cs, encode) == ([], Some(Messages.BadChunk))
  {
    Messages.StringChunkRefused(s, encode);
  }

  /** The chunks the host is sent for a response body: the readable side of a
      TransformStream, or the stream itself. */
  function ResponseChunks(b: Messages.Body): seq<Messages.Chunk> {
    match b
    case Stream(cs) => cs
    case Transform(cs) => cs
    case FormBody(f) => Messages.FormChunks(f.entries)
    case _ => []
  }

  /** `response.body` is truthy. */
  predicate HasStream(b: Messages.Body) {
    b.Stream? || b.Transform? || b.FormBody?
  }

  /** The request `handleIncomingReqHead` builds. */
  function RequestFor(verb: string, url: string, headers: Headers.Init, incoming: seq<Messages.Chunk>): Result<Messages.Request> {
    Messages.NewRequest(url, Messages.RequestInit(Some(verb), headers, Messages.ReadableArg(incoming)))
  }

  /** `handleIncomingReqHead(id, fn, method, url, headers)`. */
  function HandleHead(
    inflight: map<int, Messages.Request>, id: int, handler: Resolution.Handler,
    verb: string, url: string, headers: Headers.Init, incoming: seq<Messages.Chunk>,
    stringify: Resolution.JsValue -> Resolution.Json, encode: string -> seq<byte>): (r: Served)
  {
    match RequestFor(verb, url, headers, incoming)
    case Failure(e) => Served(inflight, [], Some(e))
    case Success(request) =>
      var registered := inflight[id := request];
      match Resolution.Resolve(handler, request, stringify)
      // the `catch` block threw: nothing is sent and the id stays registered
      case Failure(e) => Served(registered, [], Some(e))
      case Success(response) => Answer(registered, id, response, encode)
  }

  /** Handing a response to the host, then releasing the id unless writing
      the body threw. */
  function Answer(registered: map<int, Messages.Request>, id: int, response: Messages.Response, encode: string -> seq<byte>): (r: Served)
  {
    if HasStream(response.body) then
      var (writes, err) := WriteAll(id, ResponseChunks(response.body), encode);
      if err.Some? then Served(registered, [StartResponse(id, response, None)] + writes, err)
      else Served(registered - {id}, [StartResponse(id, response, None)] + writes + [WriteResponse(id, None)], None)
    else
      var literal := if response.body.Literal? then Some(response.body.text) else None;
      Served(registered - {id}, [StartResponse(id, response, literal)], None)
  }

  /** The calls of an answer: all about the id, the start call first, and
      for a completed stream one write per chunk and then `null`; the id is
      kept exactly when a chunk could not be converted. */
  lemma AnswerCalls(registered: map<int, Messages.Request>, id: int, response: Messages.Response, encode: string -> seq<byte>)
    ensures var r := Answer(registered, id, response, encode);
      && |r.calls| > 0
      && r.calls[0] == StartResponse(id, response, if HasStream(response.body) || !response.body.Literal? then None else Some(response.body.text))
      && (forall k :: 0 <= k < |r.calls| ==> r.calls[k].id == id)
      && (r.thrown.None? ==> r.inflight == registered - {id})
      && (r.thrown.Some? ==> r.inflight == registered && r.thrown == Some(Messages.BadChunk) && HasStream(response.body))
      && (HasStream(response.body) && r.thrown.None? ==>
            |r.calls| == |ResponseChunks(response.body)| + 2
            && r.calls[|r.calls| - 1] == WriteResponse(id, None)
            && forall k :: 0 <= k < |ResponseChunks(response.body)| ==>
                 r.calls[k + 1] == WriteResponse(id, Some(Messages.ChunkAsArrayBuffer(ResponseChunks(response.body)[k], encode).value)))
      && (!HasStream(response.body) ==> |r.calls| == 1)
  {
    if HasStream(response.body) {
      WriteAllStops(id, ResponseChunks(response.body), encode);
    }
  }

  /** The registry: an id is held only while its response is being
      written; every other id is left alone. A failed request construction
      registers nothing; a chunk that cannot be sent, or a nullish value
      reaching the `catch` block, leaves the id registered. */
  lemma HandleHeadRegistry(
    inflight: map<int, Messages.Request>, id: int, handler: Resolution.Handler,
    verb: string, url: string, headers: Headers.Init, incoming: seq<Messages.Chunk>,
    stringify: Resolution.JsValue -> Resolution.Json, encode: string -> seq<byte>)
    ensures var r := HandleHead(inflight, id, handler, verb, url, headers, incoming, stringify, encode);
      var req := RequestFor(verb, url, headers, incoming);
      && (req.Failure? <==> Messages.HeadersOf(headers).Failure?)
      && (req.Failure? ==> r == Served(inflight, [], Some(req.error)))
      && (req.Success? ==> id in r.inflight <==> r.thrown.Some?)
      && (req.Success? && id in r.inflight ==> r.inflight[id] == req.value)
      && (req.Success? ==>
            var resolved := Resolution.Resolve(handler, req.value, stringify);
            && (r.calls == [] <==> resolved.Failure?)
            && (resolved.Failure? ==> r.thrown == Some(Resolution.NoStack))
            && (resolved.Success? && r.thrown.Some? ==> r.thrown == Some(Messages.BadChunk)))
      && (forall k :: k != id ==> (k in r.inflight <==> k in inflight))
      && (forall k :: k != id && k in inflight ==> r.inflight[k] == inflight[k])
  {
    var req := RequestFor(verb, url, headers, incoming);
    if req.Success? {
      var resolved := Resolution.Resolve(handler, req.value, stringify);
      if resolved.Success? {
        AnswerCalls(inflight[id := req.value], id, resolved.value, encode);
      }
    }
  }

  /** Every host call is about this request's id. When a response is made,
      the first call starts it, and a completed streamed response ends with
      the closing `null` after exactly one write per chunk; when none is
      made, no call happens at all. */
  lemma HandleHeadCalls(
    inflight: map<int, Messages.Request>, id: int, handler: Resolution.Handler,
    verb: string, url: string, headers: Headers.Init, incoming: seq<Messages.Chunk>,
    stringify: Resolution.JsValue -> Resolution.Json, encode: string -> seq<byte>)
    requires Messages.HeadersOf(headers).Success?
    ensures var r := HandleHead(inflight, id, handler, verb, url, headers, incoming, stringify, encode);
      var resolved := Resolution.Resolve(handler, RequestFor(verb, url, headers, incoming).value, stringify);
      && (forall k :: 0 <= k < |r.calls| ==> r.calls[k].id == id)
      && (resolved.Failure? ==> r.calls == [] && r.thrown == Some(resolved.error))
      && (resolved.Success? ==>
            var response := resolved.value;
            && |r.calls| > 0
            && r.calls[0].StartResponse? && r.calls[0].response == response
            && (HasStream(response.body) && r.thrown.None? ==>
                  |r.calls| == |ResponseChunks(response.body)| + 2
                  && r.calls[|r.calls| - 1] == WriteResponse(id, None)
                  && forall k :: 0 <= k < |ResponseChunks(response.body)| ==>
                       r.calls[k + 1] == WriteResponse(id, Some(Messages.ChunkAsArrayBuffer(ResponseChunks(response.body)[k], encode).value)))
            && (!HasStream(response.body) ==>
                  r.calls == [StartResponse(id, response, if response.body.Literal? then Some(response.body.text) else None)]))
  {
    var req := RequestFor(verb, url, headers, incoming);
    var resolved := Resolution.Resolve(handler, req.value, stringify);
    if resolved.Success? {
      AnswerCalls(inflight[id := req.value], id, resolved.value, encode);
    }
  }

  /** A handler whose promise rejects with `undefined` (or that throws
      `null`) gets no response at all: the `catch` block throws while
      logging, no host call is made, and the request stays registered. */
  lemma NullishRejectionUnanswered(
    inflight: map<int, Messages.Request>, id: int, run: Messages.Request -> Resolution.Returned,
    verb: string, url: string, incoming: seq<Messages.Chunk>,
    stringify: Resolution.JsValue -> Resolution.Json, encode: string -> seq<byte>)
    requires forall q :: run(q) == Resolution.Threw(Nullish)
    ensures var r := HandleHead(inflight, id, Resolution.Handler(run), verb, url, Headers.NoInit, incoming, stringify, encode);
      && r.calls == []
      && r.thrown == Some(Resolution.NoStack)
      && id in r.inflight
  {
    var req := RequestFor(verb, url, Headers.NoInit, incoming);
    assert req.Success?;
  }

  /** Any other thrown value is answered with the 500 response, sent as a
      start call carrying the empty literal, and the id is released. */
  lemma ThrowAnswered500(
    inflight: map<int, Messages.Request>, id: int, run: Messages.Request -> Resolution.Returned, e: Error,
    verb: string, url: string, incoming: seq<Messages.Chunk>,
    stringify: Resolution.JsValue -> Resolution.Json, encode: string -> seq<byte>)
    requires !e.Nullish? && forall q :: run(q) == Resolution.Threw(e)
    ensures HandleHead(inflight, id, Resolution.Handler(run), verb, url, Headers.NoInit, incoming, stringify, encode)
      == Served(inflight - {id}, [StartResponse(id, Resolution.ServerError, Some(""))], None)
  {
    var req := RequestFor(verb, url, Headers.NoInit, incoming);
    assert req.Success?;
    assert (inflight[id := req.value]) - {id} == inflight - {id};
  }

  /** A handler returning a string answers 200 with a text/plain literal
      body, sent in the start call alone. */
  lemma StringHandlerAnswer(
    inflight: map<int, Messages.Request>, id: int, run: Messages.Request -> Resolution.Returned, s: string,
    verb: string, url: string, incoming: seq<Messages.Chunk>,
    stringify: Resolution.JsValue -> Resolution.Json, encode: string -> seq<byte>)
    requires forall q :: run(q) == Resolution.StringValue(s)
    ensures HandleHead(inflight, id, Resolution.Handler(run), verb, url, Headers.NoInit, incoming, stringify, encode)
      == Served(inflight - {id}, [StartResponse(id,
           Messages.Response(200, "OK", Resolution.ContentTypeTable(Resolution.TextPlain), Messages.Literal(s)), Some(s))], None)
  {
    var req := Messages.NewRequest(url, Messages.RequestInit(Some(verb), Headers.NoInit, Messages.ReadableArg(incoming)));
    assert req.Success?;
    assert (inflight[id := req.value]) - {id} == inflight - {id};
  }

  const NoWriter := TypeError("Cannot read properties of undefined (reading 'ready')")

  /** `handleIncomingReqBody(id, body)` finds the writer through the request
      registered under `id`; for an id that is not registered the lookup
      yields undefined and reading `ready` from it throws. */
  function BodyTarget(inflight: map<int, Messages.Request>, id: int): (r: Result<Messages.Request>)
    ensures r.Success? <==> id in inflight
    ensures r.Success? ==> r.value == inflight[id]
    ensures r.Failure? ==> r.error.TypeError?
  {
    if id in inflight then Success(inflight[id]) else Failure(NoWriter)
  }

  /** Once a request has been answered, body chunks for its id have nowhere
      to go. */
  lemma BodyAfterAnswer(
    inflight: map<int, Messages.Request>, id: int, handler: Resolution.Handler,
    verb: string, url: string, headers: Headers.Init, incoming: seq<Messages.Chunk>,
    stringify: Resolution.JsValue -> Resolution.Json, encode: string -> seq<byte>)
    requires HandleHead(inflight, id, handler, verb, url, headers, incoming, stringify, encode).thrown.None?
    ensures BodyTarget(HandleHead(inflight, id, handler, verb, url, headers, incoming, stringify, encode).inflight, id).Failure?
  {
    HandleHeadRegistry(inflight, id, handler, verb, url, headers, incoming, stringify, encode);
  }
}
