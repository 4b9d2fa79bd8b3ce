# osgood worker bootstrap, modelled in Dafny

This project models the JavaScript bootstrap that every osgood worker runs,
`js/bootstrap/index.js`. The bootstrap sits between the host runtime and the
user's request handler. It covers four areas:

- **Inbound requests.** `handleIncomingReqHead` builds a `Request`, registers
  it under the host's id, runs the handler and classifies what it returns.
  That result becomes a `Response`, which goes back to the host as a start
  call followed by body chunks. `handleIncomingReqBody` feeds request body
  chunks to the registered request.
- **Outbound `fetch`.** `fetch` allocates an id, registers a callback in
  `fetchCbs`, parses the URL (`parseUrl`) and hands the request to the host in
  one of three wire modes: string, stream or none. A FormData body is encoded
  as multipart. The host then drives the callback through `handleFetch` with
  errors, the response head, data chunks and the closing `null`.
- **Fetch API classes.** `Headers` with its name and value normalisers,
  `Response` and `Request`, the shared body readers `text()` and
  `arrayBuffer()`, and `FormData`.
- **Helpers.** `btoa`/`atob`, `chunkAsArrayBuffer`, `isBufferish`,
  `shouldSerializeIntoPOJO` and `generateMultipartFormData`.

Modelling conventions:

- A stream is the finite sequence of chunks it yields.
- Library and host functions are parameters: `TextEncoder`, `TextDecoder`,
  `JSON.stringify`, the `URL` parser, `Math.random`, and the handler itself.
- A thrown error is a `Failure` carrying the error's class and message. Where
  the source keeps going after an `await`, the model returns the state reached
  together with the error.
- The two shared tables are explicit values threaded through the operations:
  the inbound registry `inFlightInbounds` and the outbound `fetchCbs`.

Modules:

| module | file | what it holds |
|---|---|---|
| `Js` | js.dfy | errors and `Result`, ASCII case mapping, decimal text, `Object.entries` key order |
| `Headers` | headers.dfy | the header table over an ordinary object, normalisers, constructor |
| `FormData` | formdata.dfy | the FormData entry list |
| `Multipart` | multipart.dfy | the multipart encoder and a decoder used as its partner |
| `Base64` | base64.dfy | `btoa`, `atob` as written, and the corrected `atob` |
| `Messages` | messages.dfy | `Response`, `Request`, the body readers, `chunkAsArrayBuffer` |
| `Resolution` | resolution.dfy | `shouldSerializeIntoPOJO` and classification of the handler's result |
| `Inbound` | inbound.dfy | `handleIncomingReqHead` and `handleIncomingReqBody` |
| `Fetch` | fetch.dfy | `parseUrl`, `fetch`, and the per-fetch callback behind `handleFetch` |

Two behaviours of the code are worth stating up front, because the model
keeps them:

- **Fetch registrations are not always released.** A `fetch` callback is
  removed only when the closing `null` arrives (index.js:370-372). An `err`
  callback (359-364) leaves it registered. So does a `fetch` call that throws
  after registering (382-389). `Fetch.ErrorKeepsRegistration` and
  `Fetch.FetchAllocates` state this.
- **Inbound registrations can outlive an error.** Two throws reach past
  `delete inFlightInbounds[reqId]` (321) and leave the request registered:
  - A response chunk cannot be converted (456-466), so the `for await` loop
    throws after the start call. Every string chunk is such a chunk (see
    Findings), and so is every array or plain object.
  - The value caught at 302 is `null` or `undefined`, for instance a handler
    returning `Promise.reject()`. Then `console.error(e.stack)` (303) throws
    while evaluating its argument, so no response is made and no host call
    happens. A `toJSON` or `JSON.stringify` throwing such a value has the
    same effect.

  `Inbound.HandleHeadRegistry`, `Inbound.StringChunkStops` and
  `Inbound.NullishRejectionUnanswered` state this.

## Model

| member | source | states |
|---|---|---|
| Js.ToLower | js/bootstrap/index.js:603 | lower-casing keeps the length and maps each character independently; ASCII upper-case letters and the Kelvin sign become lower case, all else is unchanged |
| Js.ToLowerIdempotent | js/bootstrap/index.js:603 | lower-casing an already lower-cased name changes nothing |
| Js.ToUpper | js/bootstrap/index.js:396 | ASCII lower-case letters of the method become upper case and every other character is kept |
| Js.Decimal | js/bootstrap/index.js:1005 | the decimal text of a number reads back as that number, has no leading zero and consists of digits only |
| Js.SortByIndex | js/bootstrap/index.js:591-593 | array-index keys end up in ascending numeric order, as a permutation of the input |
| Js.OwnEntriesSpec | js/bootstrap/index.js:551-553 | `Object.entries` lists each property exactly once: array-index keys first in ascending order, then the others in creation order |
| Headers.NormalizeName | js/bootstrap/index.js:599-608 | a name is accepted exactly when it is non-empty and its lower-cased form is an RFC 7230 token; the result is that lower-cased form; otherwise a TypeError |
| Headers.NormalizeNameIdempotent | js/bootstrap/index.js:599-608 | a normalised name normalises to itself |
| Headers.NormalizeValue | js/bootstrap/index.js:612-621 | a value is accepted exactly when it is defined and every character is HTAB, 0x20-0x7E or 0x80-0xFF; it is kept as given; otherwise a TypeError |
| Headers.Get | js/bootstrap/index.js:576-579 | fails exactly when the name is invalid; otherwise it looks up the lower-cased name on the backing object, inherited members included |
| Headers.Has | js/bootstrap/index.js:581-584 | fails exactly when `get` does; otherwise true exactly when `get` finds something, own or inherited |
| Headers.Set | js/bootstrap/index.js:560-564 | succeeds exactly when name and value are valid; afterwards the name holds exactly the new value, except `__proto__`, which is ignored; no other name changes |
| Headers.Append | js/bootstrap/index.js:566-574 | succeeds exactly when name and value are valid; afterwards the name holds the previous value joined with ", " and the new one; no other name changes |
| Headers.Delete | js/bootstrap/index.js:586-589 | succeeds exactly when the name is valid; the name is then gone from the own properties and no other name changes |
| Headers.MutatorsPreserveValid | js/bootstrap/index.js:560-589 | `set`, `append` and `delete` keep the table's invariant: names distinct, lower-case tokens other than `__proto__`, values valid field values |
| Headers.AppendThenGet | js/bootstrap/index.js:566-579 | two appends under a fresh name read back as "a, b" in append order; a following `set` replaces both |
| Headers.CaseInsensitive | js/bootstrap/index.js:599-608 | two names that lower-case alike behave identically under every operation |
| Headers.PrototypeLeaks | js/bootstrap/index.js:569-584 | on an empty table, `has` reports `constructor` and `__proto__`; appending to `constructor` joins onto the text of the `Object` function; setting `__proto__` has no effect |
| Headers.EntriesSpec | js/bootstrap/index.js:591-593 | iteration yields exactly the own (name, value) pairs |
| Headers.NumericNamesFirst | js/bootstrap/index.js:591-593 | iteration lists a numeric name before a name created earlier |
| Headers.EntriesOnce | js/bootstrap/index.js:591-593 | iteration yields each name once |
| Headers.CopyConstructorSplitsNames | js/bootstrap/index.js:534-537 | copying a table as written succeeds exactly when every name has at least two characters, and the copy's names then all have one character |
| Headers.CorrectedCopyReproduces | js/bootstrap/index.js:534-537 | with the loop over `entries()`, the copy holds exactly the source's names and values |
| FormData.New | js/bootstrap/index.js:891-895 | construction fails exactly when a form argument is given; otherwise the entry list is empty |
| FormData.Append | js/bootstrap/index.js:898-912 | fails with a TypeError exactly when a filename is given, leaving the entries alone; otherwise adds exactly one pair at the end |
| FormData.Set | js/bootstrap/index.js:915-918 | the entries become those left by deleting the name, followed by the new pair, so `getAll(name)` is exactly the new value and other names keep their values and relative order; with a filename only the deletion happens |
| FormData.Delete | js/bootstrap/index.js:921-931 | no entry of the name is left; every other name keeps its values in order; the length drops by the number removed |
| FormData.DeleteKeepsOrder | js/bootstrap/index.js:921-931 | deleting distributes over concatenation, so the surviving entries keep their relative order |
| FormData.KeepSpec | js/bootstrap/index.js:921-931 | the filter drops exactly the entries of the name |
| FormData.GetAll | js/bootstrap/index.js:943-953 | a value is listed exactly when a pair (name, value) is present, and there are no more values than entries |
| FormData.MatchingSplit | js/bootstrap/index.js:943-953 | the values of a concatenation are those of the first part followed by those of the second |
| FormData.Get | js/bootstrap/index.js:934-940 | found exactly when `getAll` is non-empty, and then it is the first value `getAll` lists |
| FormData.FirstIsHeadOfMatching | js/bootstrap/index.js:934-940 | the first-match scan agrees with the head of the list of all matches |
| FormData.Has | js/bootstrap/index.js:955-963 | true exactly when some entry has the name |
| FormData.AnyNamedSpec | js/bootstrap/index.js:955-963 | the scan in `has` is true exactly when some entry has the name |
| FormData.HasIffKey | js/bootstrap/index.js:955-978 | `has` agrees with `getAll` being non-empty and with the name being among `keys()` |
| FormData.Keys | js/bootstrap/index.js:974-978 | one name per entry, in entry order |
| FormData.Values | js/bootstrap/index.js:981-985 | one value per entry, in entry order |
| FormData.AppendThenQuery | js/bootstrap/index.js:898-953 | after an append, `getAll` is the previous values followed by the new one, `has` is true, and `get` is unchanged when the name was present and the new value otherwise |
| Multipart.Boundary | js/bootstrap/index.js:1005 | the boundary is the fixed prefix followed by exactly nine digits whose value lies between 100000000 and 999999998 |
| Multipart.Generate | js/bootstrap/index.js:1004-1026 | the content type names the boundary, and the body ends with the closing delimiter |
| Multipart.EmptyFormIsClosingOnly | js/bootstrap/index.js:1019 | an empty FormData encodes to the closing delimiter alone |
| Multipart.PartsConcat | js/bootstrap/index.js:1009-1017 | each entry contributes its own part, in order |
| Multipart.ParseGenerate | js/bootstrap/index.js:1009-1019 | entries whose names have no double quote and whose values have no carriage return are recovered from the body in order |
| Multipart.GenerateRoundTrip | js/bootstrap/index.js:1004-1026 | decoding the encoder's body with its boundary gives back the FormData's entries |
| Multipart.ValueInjectsPart | js/bootstrap/index.js:1014-1016 | without escaping, a value containing a delimiter reads back as two entries, the second chosen by the sender |
| Multipart.ForgedValueSplits | js/bootstrap/index.js:1013-1016 | the forged value's part is textually two parts |
| Base64.SextetIsIndexOf | js/bootstrap/index.js:845 | the six-bit value of a character is its position in the alphabet string, -1 when absent |
| Base64.Btoa | js/bootstrap/index.js:862-880 | fails with a TypeError exactly when some character is above 0xFF; otherwise the output has four characters per started group of three |
| Base64.EncodeGroupsShape | js/bootstrap/index.js:872-876 | the encoding is alphabet characters followed by the padding count of '=' |
| Base64.RefusedPaddingMeans | js/bootstrap/index.js:832 | the refused shapes are exactly an '=' that is not at the end, or three '=' at the end |
| Base64.BtoaPaddingAccepted | js/bootstrap/index.js:832 | no output of `btoa` has a refused padding shape |
| Base64.DecodeFullGroup | js/bootstrap/index.js:854-856 | decoding the four characters of a group gives back its three bytes |
| Base64.Substr0 | js/bootstrap/index.js:859 | `substr(0, len)` is the prefix of length `len` clamped to the string, empty for a negative length |
| Base64.Atob | js/bootstrap/index.js:831-860 | a refused padding shape gives a TypeError; a length of 1 mod 4 after removing '=' gives a plain Error |
| Base64.AtobRefuses | js/bootstrap/index.js:831-857 | `atob` throws exactly for a refused padding shape, a length of 1 mod 4 after removing '=', or a character outside the alphabet; only the length case is a plain Error |
| Base64.DecodeGroupsRefuses | js/bootstrap/index.js:844-857 | the decoding loop fails exactly when some character is outside the alphabet, always with a TypeError |
| Base64.DecodeGroupRefuses | js/bootstrap/index.js:845-852 | a group fails exactly when one of its characters is outside the alphabet; the 'A' standing in for a missing character never fails |
| Base64.AtobAfterBtoa | js/bootstrap/index.js:831-880 | decoding an encoding returns the input when its length is not a multiple of three, and otherwise the input without its last four characters |
| Base64.AtobLosesFullGroup | js/bootstrap/index.js:859 | "abc" encodes and then decodes to the empty string |
| Base64.AtobBtoaRoundTripIff | js/bootstrap/index.js:859 | the round trip through the literal `atob` holds exactly for the empty input and for lengths that are not a multiple of three |
| Base64.AtobCorrected | js/bootstrap/index.js:831-860 | the corrected decoder refuses exactly the inputs the literal one refuses |
| Base64.CorrectedRoundTrip | js/bootstrap/index.js:831-880 | the corrected decoder inverts `btoa` on every Latin-1 string |
| Messages.HeadersOf | js/bootstrap/index.js:684-687 | a `Headers` argument is taken as is, without copying; anything else goes through the constructor |
| Messages.NewResponse | js/bootstrap/index.js:677-696 | fails exactly when the headers do; status is 200 exactly when absent, 0 or 200; statusText is "OK" exactly when absent, empty or "OK"; a given non-zero status and non-empty statusText are kept; a ReadableStream is the body as is, a buffer a one-chunk stream of it, a string a literal, a TransformStream is kept as such, and anything else gives no body |
| Messages.NewRequest | js/bootstrap/index.js:699-720 | keeps the URL; the method is GET exactly when absent, empty or GET, and a given non-empty method is kept; a ReadableStream is the body as is, a buffer a one-chunk stream of it, a FormData a form body, a string a literal; a TransformStream or anything else gives no body |
| Messages.FormChunks | js/bootstrap/index.js:969-971 | iterating a FormData yields one `[name, value]` array per entry, in order |
| Messages.Drain | js/bootstrap/index.js:628 | the readers can iterate exactly the streamed and FormData bodies, a FormData yielding its `[name, value]` arrays; a message without `body`, a string one and a TransformStream one throw |
| Messages.ReadText | js/bootstrap/index.js:647-661 | `text()` fails exactly when the body cannot be iterated, and otherwise concatenates the chunks' texts in order |
| Messages.TextOfConcat | js/bootstrap/index.js:647-661 | reading the concatenation of two chunk lists gives the concatenation of their texts |
| Messages.TextOfStrings | js/bootstrap/index.js:649-659 | a stream of strings reads as their concatenation |
| Messages.StringBodyNotReadable | js/bootstrap/index.js:690-691 | `text()` on a Response built from a string throws, because the string is not its `body` |
| Messages.ReadArrayBuffer | js/bootstrap/index.js:624-645 | an unreadable body throws; with only strings and buffers the result is all their bytes concatenated in order; once a chunk has no `byteLength`, the result is empty if all chunks are empty and otherwise a RangeError; so a non-empty FormData always throws a RangeError |
| Messages.FormFlatten | js/bootstrap/index.js:634-640 | each `[name, value]` array of a FormData is copied as two elements, so the copies of a non-empty FormData are never empty |
| Messages.ObjectBuffer | js/bootstrap/index.js:460-467 | an object passes exactly when it has an `ArrayBuffer` as `buffer`, and is replaced by it; an `ArrayBuffer` itself throws the TypeError |
| Messages.ChunkAsArrayBuffer | js/bootstrap/index.js:454-471 | succeeds exactly for an `ArrayBuffer` or a view, a view being replaced by its whole underlying buffer; every other chunk, strings included, throws the TypeError |
| Messages.StringChunkRefused | js/bootstrap/index.js:456-466 | every string chunk, the empty one included, throws the TypeError |
| Messages.ChunkAsArrayBufferCorrected | js/bootstrap/index.js:454-471 | with the encoded string returned directly, exactly strings and buffers succeed, and buffers convert as before |
| Messages.ViewSendsWholeBuffer | js/bootstrap/index.js:461-462 | a view over the middle byte of a three-byte buffer sends all three bytes, while `arrayBuffer()` reads one |
| Messages.SentMatchesRead | js/bootstrap/index.js:454-471 | for an `ArrayBuffer` or a view over a whole buffer, the bytes sent to the host are those `arrayBuffer()` reads |
| Messages.CorrectedSentMatchesRead | js/bootstrap/index.js:454-471 | with the correction, the same holds for strings: the host is sent the encoded bytes `arrayBuffer()` reads |
| Resolution.FirstVerdict | js/bootstrap/index.js:229-244 | the loop's verdict is true exactly when every member's verdict is, and otherwise it is one of those verdicts |
| Resolution.SerializableIffPlain | js/bootstrap/index.js:209-246 | the check accepts exactly the values free of class instances, with `toJSON` applied once per level, and none of whose `toJSON` throws |
| Resolution.InstancesRefused | js/bootstrap/index.js:235-236 | a class instance is refused, unless its `toJSON` returns a primitive; a nested instance spoils the object around it |
| Resolution.ServerErrorConstructed | js/bootstrap/index.js:304 | the fallback is the Response built from an empty string and status 500, with statusText "OK" and no headers |
| Resolution.TypedHeadersTable | js/bootstrap/index.js:266-268 | the headers built for each of the three content types hold exactly one `content-type` entry |
| Resolution.Caught | js/bootstrap/index.js:302-305 | the `catch` block gives the 500 response, except for a caught `null` or `undefined`, where reading `stack` throws a TypeError |
| Resolution.Resolve | js/bootstrap/index.js:259-305 | a string becomes a 200 text/plain literal; a Response passes through; a buffer becomes a 200 octet-stream stream; plain data becomes application/json; null, other types, non-plain objects and a missing handler give the 500 fallback; a throw from the handler, a `toJSON` or `JSON.stringify` gives the 500 fallback unless the value thrown is `null` or `undefined`, which makes the whole step throw |
| Resolution.UnansweredIffNullish | js/bootstrap/index.js:259-305 | no response is made exactly when the value the `catch` receives is `null` or `undefined`, which only the handler, a `toJSON` or `JSON.stringify` can throw; any other caught value gives the 500 response |
| Resolution.JsonIffPlain | js/bootstrap/index.js:286-295 | an object the handler returns is sent as JSON exactly when it is plain data; otherwise the answer is the 500 fallback, or nothing if its `toJSON` threw `null` or `undefined` |
| Inbound.WriteAll | js/bootstrap/index.js:313-315 | each chunk is converted and written in order; writing stops early only with an error |
| Inbound.WriteAllStops | js/bootstrap/index.js:313-316 | writing fails exactly when some chunk is not a buffer, strings included, and it stops right at the first such chunk; every chunk written was a buffer |
| Inbound.StringChunkStops | js/bootstrap/index.js:313-315 | a stream starting with a string writes nothing and throws the TypeError |
| Inbound.HandleHeadRegistry | js/bootstrap/index.js:248-322 | a failing Request construction makes no host calls and registers nothing; otherwise the id stays registered exactly when the call throws: with no host call when the `catch` block threw, with the TypeError for a bad chunk otherwise; other ids are untouched |
| Inbound.HandleHeadCalls | js/bootstrap/index.js:302-319 | every host call carries the request's id; when no response is made there is no call; otherwise the first call starts the response, a completed stream is one write per chunk then `null`, and a bodiless response is a single start call carrying its literal |
| Inbound.AnswerCalls | js/bootstrap/index.js:307-321 | handing a response over starts it first, writes one chunk per call and then `null` for a completed stream, and releases the id unless a chunk could not be converted |
| Inbound.NullishRejectionUnanswered | js/bootstrap/index.js:302-303 | a handler rejecting with `undefined` gets no host call, the call throws a TypeError, and the request stays registered |
| Inbound.ThrowAnswered500 | js/bootstrap/index.js:302-321 | a handler throwing any other value is answered by one start call with the 500 response and the empty literal, and the id is released |
| Inbound.StringHandlerAnswer | js/bootstrap/index.js:265-271 | a handler returning a string is answered by one start call with status 200, a text/plain header and the string as literal, and the id is released |
| Inbound.BodyTarget | js/bootstrap/index.js:326-328 | a body chunk finds its writer exactly when the id is registered, and otherwise throws a TypeError |
| Inbound.BodyAfterAnswer | js/bootstrap/index.js:321-328 | after a completed answer, body chunks for that id throw |
| Fetch.ParseUrlAsWritten | js/bootstrap/index.js:338-349 | keeps protocol and hostname, appends the query to the path, keeps a non-default port, and otherwise uses "80" whatever the scheme |
| Fetch.HttpsSentToPort80 | js/bootstrap/index.js:344 | an https URL without a port addresses 443 but is handed over with port "80" |
| Fetch.ParseUrl | js/bootstrap/index.js:338-349 | the corrected parser keeps protocol and hostname and appends the query to the path |
| Fetch.ParseUrlPort | js/bootstrap/index.js:344 | with the correction, for http and https, the port handed over is the one the URL addresses |
| Fetch.InitialValid | js/bootstrap/index.js:351 | the empty table with the counter at 0 satisfies the invariant: ids issued are exactly 1 up to the counter, and registered ids are not closed |
| Fetch.FetchAllocates | js/bootstrap/index.js:352-358 | each fetch takes the next id, registers a pending callback and leaves earlier exchanges alone; the id stays registered even if the call throws; every wire call carries the id |
| Fetch.IdsIncrease | js/bootstrap/index.js:351-353 | two fetches in a row get consecutive ids, and the first stays registered |
| Fetch.UnsupportedProtocolRejected | js/bootstrap/index.js:385-389 | a URL with another scheme rejects with "Unsupported protocol", sends nothing, and keeps the id registered |
| Fetch.Send | js/bootstrap/index.js:382-439 | a failed Request construction, an unparsable URL and a scheme other than http or https each throw their error with nothing sent; otherwise the wire calls are those of the request with the URL parsed as written; every call carries the id |
| Fetch.HttpsFetchSentToPort80 | js/bootstrap/index.js:338-396 | fetching an https URL without a port sends a head call with port "80", although the URL addresses 443 |
| Fetch.WireCalls | js/bootstrap/index.js:391-439 | every wire call carries the fetch's id |
| Fetch.WireModes | js/bootstrap/index.js:391-439 | the head comes first with the upper-cased method; a string body rides in the head; a FormData is encoded with its content type installed; a stream sends one call per chunk, then `false` |
| Fetch.FormContentTypeValid | js/bootstrap/index.js:402-404 | the multipart content type is a valid header value, so installing it cannot fail |
| Fetch.Received | js/bootstrap/index.js:374-376 | an `ArrayBuffer` chunk reaches the writer as a Uint8Array over the same bytes; anything else as is |
| Fetch.Dispatch | js/bootstrap/index.js:358-379 | every callback keeps the invariant of the exchange table |
| Fetch.DispatchIsolated | js/bootstrap/index.js:177-179 | an unregistered id throws; a callback touches only its own exchange and deregisters it exactly when it closes the stream |
| Fetch.DispatchAll | js/bootstrap/index.js:373-377 | a run of data callbacks keeps the invariant of the exchange table |
| Fetch.ErrorKeepsRegistration | js/bootstrap/index.js:359-364 | an error rejects a pending fetch and leaves a settled one as it was; either way the callback stays registered |
| Fetch.DataInOrder | js/bootstrap/index.js:373-377 | data chunks reach the writer in order, each through the `ArrayBuffer` wrapping, without settling anything |
| Fetch.Exchanged | js/bootstrap/index.js:365-372 | head, data and `null` resolve the promise with the head's Response, whose body yields the data in order; the id is released and a further callback throws |

## Left out

- Console output and `inspect`, the timers, route patterns
  (`patternToRegExp`, `parseParamsFromUrlPath`) and the context object passed
  to the handler are not modelled. The one logging call that can change an
  exchange is `console.error(e.stack)` at index.js:303. Its argument throws
  for a caught `null` or `undefined`, and `Resolution.Caught` models that. The
  output itself is not modelled.
- Stream machinery is not modelled: backpressure, `writer.ready`, the
  interleaving of body callbacks with the handler, and `PassThrough`. The
  body of an inbound request is the chunk sequence the host will deliver,
  given up front. `StringReadable` is the one-chunk stream it yields.
- `handleIncomingReqBody` is modelled only as far as finding the writer
  (`Inbound.BodyTarget`). Closing or writing to the writer belongs to the
  stream machinery above.
- `json()` is `JSON.parse` over `text()`. JSON parsing is a library call and
  is not modelled.
- `TextEncoder`, `TextDecoder`, `JSON.stringify`, the `URL` parser and
  `Math.random` are parameters. The random boundary suffix is a number below
  899999999.
- Strings are sequences of UTF-16 code units drawn from the Basic
  Multilingual Plane. Surrogate pairs are not modelled. Lower-casing covers
  ASCII and the Kelvin sign, the only non-ASCII character whose lower case is
  ASCII. For header names that is exactly what the token check can observe.
- Engine wording of errors the engine raises is modelled as a fixed message:
  "body is not async iterable", reading `ready` from undefined or null,
  reading `stack` from null or undefined, "is
  not a function", "Invalid URL". Only the error class matters to the
  properties.
- A falsy non-string header name (undefined, null, 0, false, NaN) is
  represented by the empty string. Non-string header values are their
  `String()` text.
- Buffer-like values are `ArrayBuffer` and `Uint8Array` views. Other typed
  arrays, `DataView`, and arbitrary objects with a `buffer` property are not
  modelled separately. Chunks that are numbers, booleans or null are not
  modelled: every other chunk is an array of strings or an object without
  `byteLength`.
- Messages.ChunkCopy: `new Uint8Array(array)` copies one element per item
  of an array chunk; the model copies a 0 for each. Only the count can be
  observed: an array has no `byteLength`, so the result buffer has length 0
  and any copied element makes `set` throw.
- FormData `forEach`, `entries()` and `toString` are not modelled. They call
  user code or return fixed values. Names and values are strings: the source
  stores non-string values unconverted, which is not modelled.
- The global capture and deletion of the host hooks at start-up, and
  `IteratorMixin.mixin` itself, are not modelled. Its `keys()` is modelled
  where the `Headers` copy constructor uses it.
- A second response head for the same fetch replaces the writer. The model
  records this with `feedsResult`, which tells whether the current writer
  still feeds the Response the promise resolved with.
- Fetch.WireCalls: `input.headers.set('Content-Type', ...)` for a FormData
  body (index.js:404) updates the request's `Headers` object in place. When
  the caller passed a `Headers` object as `init.headers`, the request shares it
  (index.js:706-708), so the caller's object keeps the multipart content type
  and a later fetch with it sends that type again. The model has no object
  identity: the updated table appears only in the head call.
- Js.ToUpper: only ASCII letters are upper-cased. The engine's
  `toUpperCase` on the method (index.js:396, 410, 419, 432) also maps
  non-ASCII letters, for instance 'é' to 'É' and 'ſ' to 'S', and can change
  the length ('ß' becomes "SS"). The method is sent without any check, so
  this difference reaches the host; the model does not cover it.
- Messages.HeadersOf: a non-`Headers` argument goes through the corrected
  copy constructor. The only difference from the literal one is the
  copy-from-`Headers` case, which `HeadersOf` never reaches because it takes a
  `Headers` argument as is.
- Headers.CorrectedCopyReproduces: this excludes tables holding a
  `constructor` entry. For that name the corrected copy still joins onto the
  inherited value, as `append` does everywhere.
- Multipart.GenerateRoundTrip: this is stated for names without a double
  quote and values without a carriage return. Without escaping, other
  entries are ambiguous, as `Multipart.ValueInjectsPart` shows.

## Findings

The operations model the code as written, so `fetch`, `atob` and the
inbound path behave as the program does. The corrected members stand beside
them with the intended property proved. The exception is the `Headers`
copy constructor: `Messages.HeadersOf` and the typed headers of `Resolution`
use the corrected one, because neither reaches the copy-from-`Headers` case,
the only one where the two differ.

| source | as written | input that shows it | evidently intended | confidence | as-written member | corrected member |
|---|---|---|---|---|---|---|
| js/bootstrap/index.js:859 | `substr(0, bin.length + n - 4)` drops four bytes when the length without padding is a multiple of four (`n` is 0) | `atob(btoa("abc"))`, i.e. `atob("YWJj")`, returns "" | keep all bytes when `n` is 0 and drop `4 - n` bytes otherwise, so that `atob(btoa(s)) == s` | not executed | Base64.Atob, Base64.AtobBtoaRoundTripIff | Base64.AtobCorrected, Base64.CorrectedRoundTrip |
| js/bootstrap/index.js:344 | an empty `port` becomes '80' whatever the scheme | `fetch("https://example.com/")` hands the host port "80" | use the scheme's default port, 443 for `https:` | not executed | Fetch.ParseUrlAsWritten, Fetch.HttpsSentToPort80, Fetch.HttpsFetchSentToPort80 | Fetch.ParseUrl, Fetch.ParseUrlPort |
| js/bootstrap/index.js:456-466 | a string chunk is encoded into an `ArrayBuffer`, which then enters the `typeof chunk === 'object'` branch; an `ArrayBuffer` has no `buffer`, so the TypeError is thrown | a handler answering `new Response(stream)` where the stream yields "hi" gets a start call, no write, and a rejected handler with its id left registered | return the encoded buffer directly, as the error message ("body chunks must be strings, ...") says strings are accepted | not executed | Messages.ChunkAsArrayBuffer, Messages.StringChunkRefused, Inbound.StringChunkStops | Messages.ChunkAsArrayBufferCorrected, Messages.CorrectedSentMatchesRead |
| js/bootstrap/index.js:535 | the copy loop destructures each element of `keys()`, which yields name strings, so `[name, value]` are a name's first two characters | `new Headers(h)` with `h` holding `content-type: text/plain` gives `{ c: "o" }`; a one-character name makes it throw | iterate `entries()` so that the copy holds the same names and values | not executed | Headers.Construct, Headers.CopyConstructorSplitsNames | Headers.ConstructCorrected, Headers.CorrectedCopyReproduces |
