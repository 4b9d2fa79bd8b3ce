/** `Response`, `Request` and the body readers they share (`BodyMixin`).
    A stream is the finite sequence of chunks it yields; `TextEncoder` and
    `TextDecoder` are the parameters `encode` and `decode`. */
module Messages {
  import opened Js
  import Headers
  import FormData

  /** A binary object: an `ArrayBuffer`, or a `Uint8Array` viewing the
      `window` part of a buffer laid out as `before + window + after`. */
  datatype Buffer =
    | ArrayBuf(bytes: seq<byte>)
    | Uint8(before: seq<byte>, window: seq<byte>, after: seq<byte>)
  {
    /** The bytes the object stands for: `new Uint8Array(x)`, `byteLength`,
        and what `TextDecoder.decode` reads. */
    function Contents(): seq<byte> {
      match this
      case ArrayBuf(b) => b
      case Uint8(_, w, _) => w
    }

    /** `x.buffer` for a view, `x` itself for an `ArrayBuffer`. */
    function Underlying(): seq<byte> {
      match this
      case ArrayBuf(b) => b
      case Uint8(p, w, q) => p + w + q
    }
  }

  /** One chunk a body stream yields. `Arr` is an array of strings, such as
      the `[name, value]` pairs a FormData yields; `Opaque` is any other
      object (not buffer-like), with the text `String(x)` gives for it. */
  datatype Chunk = Text(s: string) | Buf(buf: Buffer) | Arr(items: seq<string>) | Opaque(repr: string)

  /** A chunk without `byteLength`: an array or a plain object. */
  predicate Unsized(c: Chunk) {
    c.Arr? || c.Opaque?
  }

  datatype Body =
    | NoBody                       // neither `body` nor `_bodyString`
    | Stream(chunks: seq<Chunk>)   // `body` is a ReadableStream
    | Transform(chunks: seq<Chunk>) // `body` is a TransformStream; its readable side yields `chunks`
    | Literal(text: string)        // `_bodyString`
    | FormBody(form: FormData.Form) // `body` is a FormData (requests only)

  /** The `body` argument of the constructors. */
  datatype BodyArg =
    | NoArg                        // undefined, null, a number, a plain object, ...
    | ReadableArg(chunks: seq<Chunk>) // a ReadableStream
    | TransformArg(chunks: seq<Chunk>) // a TransformStream
    | StringArg(s: string)
    | BufferArg(b: Buffer)
    | FormArg(form: FormData.Form)

  datatype Response = Response(status: int, statusText: string, headers: Headers.Table, body: Body)

  datatype Request = Request(url: string, verb: string, headers: Headers.Table, body: Body)

  /** `init` of `new Response(body, init)`: `None` stands for a missing or
      falsy member. */
  datatype ResponseInit = ResponseInit(status: Option<int>, statusText: Option<string>, headers: Headers.Init)

  datatype RequestInit = RequestInit(verb: Option<string>, headers: Headers.Init, body: BodyArg)

  /** `init.headers instanceof Headers ? init.headers : new Headers(init.headers)`. */
  function HeadersOf(init: Headers.Init): (r: Result<Headers.Table>)
    ensures init.FromTable? ==> r == Success(init.source)
    ensures !init.FromTable? ==> r == Headers.Construct(init)
  {
    if init.FromTable? then Success(init.source) else Headers.ConstructCorrected(init)
  }

  /** `new Response(body, init)`. */
  function NewResponse(body: BodyArg, init: ResponseInit): (r: Result<Response>)
    ensures r.Success? <==> HeadersOf(init.headers).Success?
    ensures r.Failure? ==> r.error == HeadersOf(init.headers).error
    ensures r.Success? ==>
      && r.value.headers == HeadersOf(init.headers).value
      && (r.value.status == 200 <==> init.status.None? || init.status.value in {0, 200})
      && (init.status.Some? && init.status.value != 0 ==> r.value.status == init.status.value)
      && (r.value.statusText == "OK" <==> init.statusText.None? || init.statusText.value in {"", "OK"})
      && (init.statusText.Some? && init.statusText.value != "" ==> r.value.statusText == init.statusText.value)
      && (body.ReadableArg? ==> r.value.body == Stream(body.chunks))
      && (body.TransformArg? ==> r.value.body == Transform(body.chunks))
      && (body.StringArg? ==> r.value.body == Literal(body.s))
      && (body.BufferArg? ==> r.value.body == Stream([Buf(body.b)]))
      && (body.NoArg? || body.FormArg? ==> r.value.body == NoBody)
  {
    var status := if init.status.None? || init.status.value == 0 then 200 else init.status.value;
    var statusText := if init.statusText.None? || init.statusText.value == "" then "OK" else init.statusText.value;
    var headers :- HeadersOf(init.headers);
    var b := match body
      case ReadableArg(cs) => Stream(cs)
      case TransformArg(cs) => Transform(cs)
      case StringArg(s) => Literal(s)
      // `new StringReadable(body)` yields the object itself as its one chunk
      case BufferArg(x) => Stream([Buf(x)])
      case _ => NoBody;
    Success(Response(status, statusText, headers, b))
  }

  /** `new Request(input, init)`. */
  function NewRequest(input: string, init: RequestInit): (r: Result<Request>)
    ensures r.Success? <==> HeadersOf(init.headers).Success?
    ensures r.Success? ==>
      && r.value.url == input
      && r.value.headers == HeadersOf(init.headers).value
      && (r.value.verb == "GET" <==> init.verb.None? || init.verb.value in {"", "GET"})
      && (init.verb.Some? && init.verb.value != "" ==> r.value.verb == init.verb.value)
      && (init.body.ReadableArg? ==> r.value.body == Stream(init.body.chunks))
      && (init.body.FormArg? ==> r.value.body == FormBody(init.body.form))
      && (init.body.StringArg? ==> r.value.body == Literal(init.body.s))
      && (init.body.BufferArg? ==> r.value.body == Stream([Buf(init.body.b)]))
      && (init.body.NoArg? || init.body.TransformArg? ==> r.value.body == NoBody)
  {
    var headers :- HeadersOf(init.headers);
    var verb := if init.verb.None? || init.verb.value == "" then "GET" else init.verb.value;
    var b := match init.body
      case ReadableArg(cs) => Stream(cs)
      case FormArg(f) => FormBody(f)
      case StringArg(s) => Literal(s)
      case BufferArg(x) => Stream([Buf(x)])
      // a TransformStream is neither a ReadableStream nor buffer-like
      case TransformArg(_) => NoBody
      case NoArg => NoBody;
    Success(Request(input, verb, headers, b))
  }

  // ---------------------------------------------------------------------
  // Reading a body

  /** Iterating a FormData yields its `[name, value]` arrays. */
  function FormChunks(es: seq<(string, string)>): (r: seq<Chunk>)
    ensures |r| == |es|
    ensures forall i :: 0 <= i < |es| ==> r[i] == Arr([es[i].0, es[i].1])
  {
    seq(|es|, i requires 0 <= i < |es| => Arr([es[i].0, es[i].1]))
  }

  /** `String(array)`: the items joined with commas. */
  function Joined(items: seq<string>): string {
    if |items| == 0 then ""
    else if |items| == 1 then items[0]
    else items[0] + "," + Joined(items[1..])
  }

  const NotIterable := TypeError("body is not async iterable")

  /** `for await (... of this.body)`: only `body` is iterated, so a message
      built from a string has nothing to iterate, and a TransformStream
      (not async iterable itself) cannot be read either. */
  function Drain(b: Body): (r: Result<seq<Chunk>>)
    ensures r.Failure? <==> b.NoBody? || b.Literal? || b.Transform?
    ensures b.Stream? ==> r == Success(b.chunks)
    ensures b.FormBody? ==> r == Success(FormChunks(b.form.entries))
  {
    match b
    case Stream(cs) => Success(cs)
    case FormBody(f) => Success(FormChunks(f.entries))
    case _ => Failure(NotIterable)
  }

  /** What `text()` appends for one chunk. */
  function ChunkText(c: Chunk, decode: seq<byte> -> string): string {
    match c
    case Text(s) => s
    case Buf(x) => decode(x.Contents())
    case Arr(items) => Joined(items)
    case Opaque(repr) => repr
  }

  function TextOf(cs: seq<Chunk>, decode: seq<byte> -> string): string {
    if |cs| == 0 then "" else ChunkText(cs[0], decode) + TextOf(cs[1..], decode)
  }

  /** `text()`. */
  function ReadText(b: Body, decode: seq<byte> -> string): (r: Result<string>)
    ensures r.Failure? <==> Drain(b).Failure?
    ensures r.Success? ==> r.value == TextOf(Drain(b).value, decode)
  {
    var cs :- Drain(b);
    Success(TextOf(cs, decode))
  }

  lemma {:induction false} TextOfConcat(a: seq<Chunk>, c: seq<Chunk>, decode: seq<byte> -> string)
    ensures TextOf(a + c, decode) == TextOf(a, decode) + TextOf(c, decode)
  {
    if |a| > 0 {
      assert (a + c)[1..] == a[1..] + c;
      TextOfConcat(a[1..], c, decode);
    } else {
      assert a + c == c;
    }
  }

  /** Reading a stream of strings as text concatenates them, in order. */
  lemma {:induction false} TextOfStrings(ss: seq<string>, decode: seq<byte> -> string)
    ensures TextOf(seq(|ss|, i requires 0 <= i < |ss| => Text(ss[i])), decode) == Concat(ss)
  {
    var cs := seq(|ss|, i requires 0 <= i < |ss| => Text(ss[i]));
    if |ss| > 0 {
      TextOfStrings(ss[1..], decode);
      assert cs[1..] == seq(|ss[1..]|, i requires 0 <= i < |ss[1..]| => Text(ss[1..][i]));
    }
  }

  function Concat(ss: seq<string>): string {
    if |ss| == 0 then "" else ss[0] + Concat(ss[1..])
  }

  /** A message built from a string cannot be read: its string is kept
      apart from `body`, and both readers iterate `body` only. */
  lemma StringBodyNotReadable(s: string, init: ResponseInit, decode: seq<byte> -> string)
    requires NewResponse(StringArg(s), init).Success?
    ensures ReadText(NewResponse(StringArg(s), init).value.body, decode) == Failure(NotIterable)
  {
  }

  // ---------------------------------------------------------------------
  // arrayBuffer()

  /** What `arrayBuffer()` pushes to `bufs` and `lengths` for one chunk: the
      bytes `new Uint8Array(buf)` copies and `buf.byteLength`. An array has
      no `byteLength` but is copied element by element, one byte per item;
      a plain object has neither, and its copy is empty. */
  function ChunkCopy(c: Chunk, encode: string -> seq<byte>): seq<byte> {
    match c
    case Text(s) => encode(s)
    case Buf(x) => x.Contents()
    case Arr(items) => seq(|items|, _ => 0)
    case Opaque(_) => []
  }

  function ChunkLength(c: Chunk, encode: string -> seq<byte>): Option<nat> {
    if Unsized(c) then None else Some(|ChunkCopy(c, encode)|)
  }

  /** The reference: every chunk's bytes, concatenated in order. */
  function Flatten(cs: seq<Chunk>, encode: string -> seq<byte>): seq<byte> {
    if |cs| == 0 then [] else ChunkCopy(cs[0], encode) + Flatten(cs[1..], encode)
  }

  predicate AnyUnsized(cs: seq<Chunk>) {
    exists i :: 0 <= i < |cs| && Unsized(cs[i])
  }

  const OutOfBounds := RangeError("offset is out of bounds")

  /** `arrayBuffer()`: the lengths are summed first (NaN, i.e. `None`, once
      a chunk has no `byteLength`), then each chunk is copied into a buffer
      of that total size (0 for NaN). */
  method ReadArrayBuffer(b: Body, encode: string -> seq<byte>) returns (r: Result<seq<byte>>)
    ensures Drain(b).Failure? ==> r == Failure(NotIterable)
    ensures Drain(b).Success? && !AnyUnsized(Drain(b).value) ==> r == Success(Flatten(Drain(b).value, encode))
    ensures Drain(b).Success? && AnyUnsized(Drain(b).value) ==>
      r == if Flatten(Drain(b).value, encode) == [] then Success([]) else Failure(OutOfBounds)
    ensures b.FormBody? ==> r == if b.form.entries == [] then Success([]) else Failure(OutOfBounds)
  {
    if b.FormBody? {
      FormFlatten(b.form.entries, encode);
      if b.form.entries != [] {
        assert Unsized(Drain(b).value[0]);
      }
    }
    if Drain(b).Failure? {
      return Failure(NotIterable);
    }
    var cs := Drain(b).value;
    var bufs, lengths, total := SumLengths(cs, encode);
    var size := if total.Some? then total.value else 0;
    r := CopyChunks(cs, encode, bufs, lengths, size);
  }

  /** Each `[name, value]` array of a FormData is copied as two elements. */
  lemma {:induction false} FormFlatten(es: seq<(string, string)>, encode: string -> seq<byte>)
    ensures |Flatten(FormChunks(es), encode)| == 2 * |es|
  {
    if |es| > 0 {
      FormFlatten(es[1..], encode);
      assert FormChunks(es)[1..] == FormChunks(es[1..]);
    }
  }

  /** The first loop of `arrayBuffer()`: collect each chunk's copy and
      length, and add the lengths up. */
  method SumLengths(cs: seq<Chunk>, encode: string -> seq<byte>)
    returns (bufs: seq<seq<byte>>, lengths: seq<Option<nat>>, total: Option<nat>)
    ensures |bufs| == |cs| && |lengths| == |cs|
    ensures forall k :: 0 <= k < |cs| ==> bufs[k] == ChunkCopy(cs[k], encode)
    ensures forall k :: 0 <= k < |cs| ==> lengths[k] == ChunkLength(cs[k], encode)
    ensures total.Some? <==> !AnyUnsized(cs)
    ensures total.Some? ==> total.value == |Flatten(cs, encode)|
  {
    bufs, lengths, total := [], [], Some(0);
    var i := 0;
    while i < |cs|
      invariant 0 <= i <= |cs|
      invariant Summed(cs, encode, i, bufs, lengths, total)
    {
      SumStep(cs, encode, i, bufs, lengths, total);
      var n := ChunkLength(cs[i], encode);
      bufs := bufs + [ChunkCopy(cs[i], encode)];
      lengths := lengths + [n];
      total := if total.Some? && n.Some? then Some(total.value + n.value) else None;
      i := i + 1;
    }
    assert cs[..i] == cs;
  }

  /** What the summing loop keeps after `i` chunks. */
  ghost predicate Summed(cs: seq<Chunk>, encode: string -> seq<byte>, i: nat, bufs: seq<seq<byte>>, lengths: seq<Option<nat>>, total: Option<nat>) {
    && i <= |cs|
    && |bufs| == i && |lengths| == i
    && (forall k :: 0 <= k < i ==> bufs[k] == ChunkCopy(cs[k], encode))
    && (forall k :: 0 <= k < i ==> lengths[k] == ChunkLength(cs[k], encode))
    && (total.Some? <==> !AnyUnsized(cs[..i]))
    && (total.Some? ==> total.value == |Flatten(cs[..i], encode)|)
  }

  lemma SumStep(cs: seq<Chunk>, encode: string -> seq<byte>, i: nat, bufs: seq<seq<byte>>, lengths: seq<Option<nat>>, total: Option<nat>)
    requires i < |cs| && Summed(cs, encode, i, bufs, lengths, total)
    ensures var n := ChunkLength(cs[i], encode);
      Summed(cs, encode, i + 1, bufs + [ChunkCopy(cs[i], encode)], lengths + [n],
        if total.Some? && n.Some? then Some(total.value + n.value) else None)
  {
    FlattenSnoc(cs, i, encode);
  }

  /** The second loop of `arrayBuffer()`: `result.set(buf, idx)` for each
      chunk, where `idx` stays the running sum of lengths and is NaN (so 0)
      after a chunk without `byteLength`. */
  method CopyChunks(cs: seq<Chunk>, encode: string -> seq<byte>, bufs: seq<seq<byte>>, lengths: seq<Option<nat>>, size: nat)
    returns (r: Result<seq<byte>>)
    requires |bufs| == |cs| && |lengths| == |cs|
    requires forall k :: 0 <= k < |cs| ==> bufs[k] == ChunkCopy(cs[k], encode)
    requires forall k :: 0 <= k < |cs| ==> lengths[k] == ChunkLength(cs[k], encode)
    requires size == if AnyUnsized(cs) then 0 else |Flatten(cs, encode)|
    ensures !AnyUnsized(cs) ==> r == Success(Flatten(cs, encode))
    ensures AnyUnsized(cs) ==> r == if Flatten(cs, encode) == [] then Success([]) else Failure(OutOfBounds)
  {
    ghost var plain := !AnyUnsized(cs);
    var result: seq<byte> := seq(size, _ => 0);
    var idx: Option<nat> := Some(0);
    var i := 0;
    while i < |cs|
      invariant 0 <= i <= |cs|
      invariant Filled(cs, encode, i, plain, size, result, idx)
    {
      var step := SetAt(result, idx, bufs[i], lengths[i]);
      CopyStep(cs, encode, i, plain, size, result, idx);
      if step.Failure? {
        return Failure(step.error);
      }
      result, idx := step.value.0, step.value.1;
      i := i + 1;
    }
    assert cs[..i] == cs;
    if plain {
      assert result == result[..|result|];
    }
    return Success(result);
  }

  /** `result.set(buf, idx)` (NaN counts as 0), then `idx += length`. */
  function SetAt(result: seq<byte>, idx: Option<nat>, buf: seq<byte>, length: Option<nat>): (r: Result<(seq<byte>, Option<nat>)>)
    ensures var offset := if idx.Some? then idx.value else 0;
      && (r.Failure? <==> offset + |buf| > |result|)
      && (r.Failure? ==> r.error == OutOfBounds)
      && (r.Success? ==> |r.value.0| == |result| && r.value.0[offset..offset + |buf|] == buf)
      && (r.Success? ==> (r.value.1.Some? <==> idx.Some? && length.Some?))
      && (r.Success? && r.value.1.Some? ==> r.value.1.value == idx.value + length.value)
  {
    var offset := if idx.Some? then idx.value else 0;
    if offset + |buf| > |result| then Failure(OutOfBounds)
    else
      Success((Splice(result, offset, buf), if idx.Some? && length.Some? then Some(idx.value + length.value) else None))
  }

  /** What the copy loop keeps after `i` chunks: without plain objects the
      buffer starts with those chunks' bytes and `idx` counts them; with
      one, those chunks were all empty. */
  ghost predicate Filled(cs: seq<Chunk>, encode: string -> seq<byte>, i: nat, plain: bool, size: nat, result: seq<byte>, idx: Option<nat>) {
    && i <= |cs|
    && var done := Flatten(cs[..i], encode);
    && |result| == size
    && plain == !AnyUnsized(cs)
    && size == (if plain then |Flatten(cs, encode)| else 0)
    && (idx.Some? ==> idx.value == |done|)
    && (plain ==> |done| <= size && idx.Some? && result[..|done|] == done)
    && (!plain ==> done == [])
  }

  /** One round of the copy loop keeps `Filled`, and fails only when a plain
      object is among the chunks and some chunk has bytes. */
  lemma CopyStep(cs: seq<Chunk>, encode: string -> seq<byte>, i: nat, plain: bool, size: nat, result: seq<byte>, idx: Option<nat>)
    requires i < |cs| && Filled(cs, encode, i, plain, size, result, idx)
    ensures StepKeeps(cs, encode, i, plain, size, result, idx)
  {
    if (if idx.Some? then idx.value else 0) + |ChunkCopy(cs[i], encode)| > size {
      CopyOverflows(cs, encode, i, plain, size, result, idx);
    } else if plain {
      CopyPlain(cs, encode, i, size, result, idx);
    } else {
      CopyAfterObject(cs, encode, i, size, result, idx);
    }
  }

  /** The outcome of one round of the copy loop. */
  ghost predicate StepKeeps(cs: seq<Chunk>, encode: string -> seq<byte>, i: nat, plain: bool, size: nat, result: seq<byte>, idx: Option<nat>)
    requires i < |cs|
  {
    var step := SetAt(result, idx, ChunkCopy(cs[i], encode), ChunkLength(cs[i], encode));
    && (step.Failure? ==> !plain && Flatten(cs, encode) != [])
    && (step.Success? ==> Filled(cs, encode, i + 1, plain, size, step.value.0, step.value.1))
  }

  lemma CopyOverflows(cs: seq<Chunk>, encode: string -> seq<byte>, i: nat, plain: bool, size: nat, result: seq<byte>, idx: Option<nat>)
    requires i < |cs| && Filled(cs, encode, i, plain, size, result, idx)
    requires (if idx.Some? then idx.value else 0) + |ChunkCopy(cs[i], encode)| > size
    ensures StepKeeps(cs, encode, i, plain, size, result, idx)
  {
    FlattenSnoc(cs, i, encode);
    FlattenPrefixBound(cs, i + 1, encode);
    if plain {
      assert false;
    }
  }

  lemma CopyPlain(cs: seq<Chunk>, encode: string -> seq<byte>, i: nat, size: nat, result: seq<byte>, idx: Option<nat>)
    requires i < |cs| && Filled(cs, encode, i, true, size, result, idx)
    requires (if idx.Some? then idx.value else 0) + |ChunkCopy(cs[i], encode)| <= size
    ensures StepKeeps(cs, encode, i, true, size, result, idx)
  {
    FlattenSnoc(cs, i, encode);
    FlattenPrefixBound(cs, i + 1, encode);
    NoUnsizedAt(cs, i);
    SpliceExtends(result, Flatten(cs[..i], encode), ChunkCopy(cs[i], encode));
  }

  lemma CopyAfterObject(cs: seq<Chunk>, encode: string -> seq<byte>, i: nat, size: nat, result: seq<byte>, idx: Option<nat>)
    requires i < |cs| && Filled(cs, encode, i, false, size, result, idx)
    requires (if idx.Some? then idx.value else 0) + |ChunkCopy(cs[i], encode)| <= size
    ensures StepKeeps(cs, encode, i, false, size, result, idx)
  {
    FlattenSnoc(cs, i, encode);
  }

  /** `target.set(src, offset)` once the bounds check has passed. */
  function Splice(target: seq<byte>, offset: nat, src: seq<byte>): (r: seq<byte>)
    requires offset + |src| <= |target|
    ensures |r| == |target|
    ensures r[..offset] == target[..offset]
    ensures r[offset..offset + |src|] == src
  {
    target[..offset] + src + target[offset + |src|..]
  }

  /** Copying `src` right after a filled prefix `done` extends the prefix. */
  lemma SpliceExtends(target: seq<byte>, done: seq<byte>, src: seq<byte>)
    requires |done| + |src| <= |target| && target[..|done|] == done
    ensures Splice(target, |done|, src)[..|done| + |src|] == done + src
  {
    var r := Splice(target, |done|, src);
    assert r[..|done| + |src|] == r[..|done|] + r[|done|..|done| + |src|];
  }

  lemma NoUnsizedAt(cs: seq<Chunk>, i: nat)
    requires i < |cs| && !AnyUnsized(cs)
    ensures !Unsized(cs[i])
  {
  }

  /** With a plain object among the chunks, the buffer has size 0, so a
      non-empty chunk fails the bounds check. */
  lemma OpaqueFlattenNonEmpty(cs: seq<Chunk>, i: nat, encode: string -> seq<byte>)
    requires i <= |cs| && Flatten(cs[..i], encode) != []
    ensures Flatten(cs, encode) != []
  {
    FlattenPrefixBound(cs, i, encode);
  }

  lemma {:induction false} FlattenConcat(a: seq<Chunk>, c: seq<Chunk>, encode: string -> seq<byte>)
    ensures Flatten(a + c, encode) == Flatten(a, encode) + Flatten(c, encode)
  {
    if |a| > 0 {
      assert (a + c)[1..] == a[1..] + c;
      FlattenConcat(a[1..], c, encode);
    } else {
      assert a + c == c;
    }
  }

  /** One more chunk: the flattening grows by its bytes, and a plain object
      among the first `i + 1` chunks is one among the first `i` or chunk `i`. */
  lemma FlattenSnoc(cs: seq<Chunk>, i: nat, encode: string -> seq<byte>)
    requires i < |cs|
    ensures Flatten(cs[..i + 1], encode) == Flatten(cs[..i], encode) + ChunkCopy(cs[i], encode)
    ensures AnyUnsized(cs[..i + 1]) <==> AnyUnsized(cs[..i]) || Unsized(cs[i])
  {
    assert cs[..i + 1] == cs[..i] + [cs[i]];
    FlattenConcat(cs[..i], [cs[i]], encode);
    assert [cs[i]][1..] == [];
    if AnyUnsized(cs[..i + 1]) {
      var k :| 0 <= k < i + 1 && Unsized(cs[..i + 1][k]);
      if k < i { assert Unsized(cs[..i][k]); }
    }
    if AnyUnsized(cs[..i]) {
      var k :| 0 <= k < i && Unsized(cs[..i][k]);
      assert Unsized(cs[..i + 1][k]);
    }
  }

  /** A non-empty prefix flattening makes the whole flattening non-empty. */
  lemma FlattenPrefixBound(cs: seq<Chunk>, i: nat, encode: string -> seq<byte>)
    requires i <= |cs|
    ensures |Flatten(cs[..i], encode)| <= |Flatten(cs, encode)|
  {
    assert cs == cs[..i] + cs[i..];
    FlattenConcat(cs[..i], cs[i..], encode);
  }

  // ---------------------------------------------------------------------
  // Chunks sent to the host

  const BadChunk := TypeError("body chunks must be strings, ArrayBuffers, TypedArrays or DataViews")

  /** The `object` branch of `chunkAsArrayBuffer`: an object whose `buffer`
      is an `ArrayBuffer` is replaced by that buffer; anything else throws.
      An `ArrayBuffer` has no `buffer` of its own. */
  function ObjectBuffer(x: Buffer): (r: Result<seq<byte>>)
    ensures r.Success? <==> x.Uint8?
    ensures r.Success? ==> r.value == x.Underlying()
    ensures r.Failure? ==> r.error == BadChunk
  {
    match x
    case Uint8(p, w, q) => Success(p + w + q)
    case ArrayBuf(_) => Failure(BadChunk)
  }

  /** `chunkAsArrayBuffer(chunk)` as written: an `ArrayBuffer` is returned as
      is and a view is replaced by its whole underlying buffer. A string is
      encoded into an `ArrayBuffer`, which then falls into the `object`
      branch and throws there, so no string chunk gets through. */
  function ChunkAsArrayBuffer(c: Chunk, encode: string -> seq<byte>): (r: Result<seq<byte>>)
    ensures r.Success? <==> c.Buf?
    ensures r.Failure? ==> r.error == BadChunk
    ensures c.Buf? ==> r == Success(c.buf.Underlying())
  {
    match c
    case Buf(ArrayBuf(bytes)) => Success(bytes)
    case Buf(x) => ObjectBuffer(x)
    case Text(s) => ObjectBuffer(ArrayBuf(encode(s)))
    case _ => Failure(BadChunk)
  }

  /** Every string chunk is refused, even the empty one. */
  lemma StringChunkRefused(s: string, encode: string -> seq<byte>)
    ensures ChunkAsArrayBuffer(Text(s), encode) == Failure(BadChunk)
    ensures ChunkAsArrayBuffer(Text(""), encode).Failure?
  {
  }

  /** `chunkAsArrayBuffer` as its error message describes it: the encoded
      string is returned directly, and only objects go through the `buffer`
      test. */
  function ChunkAsArrayBufferCorrected(c: Chunk, encode: string -> seq<byte>): (r: Result<seq<byte>>)
    ensures r.Success? <==> c.Text? || c.Buf?
    ensures r.Failure? ==> r.error == BadChunk
    ensures c.Buf? ==> r == ChunkAsArrayBuffer(c, encode)
  {
    match c
    case Text(s) => Success(encode(s))
    case Buf(ArrayBuf(bytes)) => Success(bytes)
    case Buf(x) => ObjectBuffer(x)
    case _ => Failure(BadChunk)
  }

  /** Sending a view sends the bytes around its window too: a view of one
      byte in the middle of a three-byte buffer sends all three. */
  lemma ViewSendsWholeBuffer(encode: string -> seq<byte>)
    ensures ChunkAsArrayBuffer(Buf(Uint8([1], [2], [3])), encode) == Success([1, 2, 3])
    ensures Flatten([Buf(Uint8([1], [2], [3]))], encode) == [2]
  {
    assert [1] + [2] + [3] == [1, 2, 3];
    assert [Buf(Uint8([1], [2], [3]))][1..] == [];
  }

  /** For an `ArrayBuffer` or a view over a whole buffer, the bytes sent to
      the host are the bytes `arrayBuffer()` reads. */
  lemma SentMatchesRead(c: Chunk, encode: string -> seq<byte>)
    requires c.Buf?
    requires c.buf.Uint8? ==> c.buf.before == [] && c.buf.after == []
    ensures ChunkAsArrayBuffer(c, encode) == Success(ChunkCopy(c, encode))
  {
    if c.buf.Uint8? {
      assert [] + c.buf.window + [] == c.buf.window;
    }
  }

  /** With the correction, strings join buffers: for a string, an
      `ArrayBuffer` or a view over a whole buffer, the bytes sent to the
      host are the bytes `arrayBuffer()` reads. */
  lemma CorrectedSentMatchesRead(c: Chunk, encode: string -> seq<byte>)
    requires c.Text? || c.Buf?
    requires c.Buf? && c.buf.Uint8? ==> c.buf.before == [] && c.buf.after == []
    ensures ChunkAsArrayBufferCorrected(c, encode) == Success(ChunkCopy(c, encode))
  {
    if c.Buf? {
      SentMatchesRead(c, encode);
    }
  }
}
