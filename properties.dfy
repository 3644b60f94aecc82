/** What the compression middleware promises, stated over the specification
    of `Intercept` and exercised on the request a caller builds. */
module CompressionProperties {
  import opened Wrappers
  import opened Http
  import opened Compression

  /** The request goes down the compressed path: compression is on for it,
      it has a body, and both reading and compressing the body succeed. */
  predicate Compresses(h: CompressionHandler, enc: Encoder, s: RequestState)
  {
    h.ResolveShouldCompress(s.context) && s.body.Some? &&
    Drain(s.body.value).Ok? && CompressRequestBody(enc, Drain(s.body.value).value).Ok?
  }

  /** The body bytes a server recovers from a request: the body itself, or
      its gzip-decoding under `inflate` when the request announces gzip. */
  function Payload(r: RequestState, inflate: seq<Byte> -> seq<Byte>): Option<seq<Byte>>
  {
    if r.body.None? || Drain(r.body.value).Err? then None
    else if ContentEncoding in r.header && r.header[ContentEncoding] == [Gzip] then
      Some(inflate(Drain(r.body.value).value))
    else Some(Drain(r.body.value).value)
  }

  /** `inflate` undoes the encoder's gzip framing on every body. */
  ghost predicate Inflates(enc: Encoder, inflate: seq<Byte> -> seq<Byte>)
  {
    forall data :: inflate(enc.frame(data)) == data
  }

  /** Storing options under their own key overrides the handler's default,
      whatever that default is. */
  lemma PerRequestOverride(h: CompressionHandler, ctx: Context, o: CompressionOptions)
    ensures h.ResolveShouldCompress(ctx[o.GetKey() := Compression(o.ShouldCompress())]) == o.ShouldCompress()
  {
  }

  /** Compression off, or no body: one call with the request untouched, and
      its reply returned as it is. */
  lemma PassThrough(h: CompressionHandler, enc: Encoder, respond: Responder, n: nat, middlewareIndex: int, s: RequestState)
    requires Sound(respond)
    requires !h.ResolveShouldCompress(s.context) || s.body.None?
    ensures var x := h.Exchange(enc, respond, n, middlewareIndex, s);
      x.calls == [Call(s, middlewareIndex)] && x.reply == respond(n, Call(s, middlewareIndex)) && x.final == s
  {
  }

  /** A body that cannot be read: its error comes back with no response, the
      pipeline is never called, and only the body (now read) has changed. */
  lemma ReadFailure(h: CompressionHandler, enc: Encoder, respond: Responder, n: nat, middlewareIndex: int, s: RequestState)
    requires Sound(respond)
    requires h.ResolveShouldCompress(s.context) && s.body.Some? && s.body.value.failure.Some?
    ensures var x := h.Exchange(enc, respond, n, middlewareIndex, s);
      x.calls == [] && x.reply == Reply(None, s.body.value.failure) &&
      x.final == s.(body := Some(Exhausted(s.body.value)))
  {
  }

  /** A body that cannot be compressed: the encoder's error comes back with no
      response, the pipeline is never called, and headers and content length
      are as they were, and the body has been read to its end. */
  lemma CompressFailure(h: CompressionHandler, enc: Encoder, respond: Responder, n: nat, middlewareIndex: int, s: RequestState)
    requires Sound(respond)
    requires h.ResolveShouldCompress(s.context) && s.body.Some? && s.body.value.failure.None?
    requires enc.writeError.Some? || enc.closeError.Some?
    ensures var x := h.Exchange(enc, respond, n, middlewareIndex, s);
      x.calls == [] &&
      x.reply == Reply(None, if enc.writeError.Some? then enc.writeError else enc.closeError) &&
      x.final.header == s.header && x.final.contentLength == s.contentLength &&
      x.final.body == Some(Exhausted(s.body.value))
  {
  }

  /** The first forward carries `Content-Encoding: gzip`, the gzip framing of
      the bytes read, and their compressed size; no other header changes. */
  lemma FirstForwardCompressed(h: CompressionHandler, enc: Encoder, respond: Responder, n: nat, middlewareIndex: int, s: RequestState)
    requires Sound(respond) && Compresses(h, enc, s)
    ensures var x := h.Exchange(enc, respond, n, middlewareIndex, s);
      var original := Concat(s.body.value.chunks);
      |x.calls| >= 1 &&
      x.calls[0].request.header[ContentEncoding] == [Gzip] &&
      (forall key :: key != ContentEncoding && key in s.header ==> x.calls[0].request.header[key] == s.header[key]) &&
      x.calls[0].request.header.Keys == s.header.Keys + {ContentEncoding} &&
      Drain(x.calls[0].request.body.value) == Ok(enc.frame(original)) &&
      x.calls[0].request.contentLength == |enc.frame(original)|
  {
  }

  /** An error from the first forward comes back with no response, and there
      is no second call. */
  lemma FirstForwardError(h: CompressionHandler, enc: Encoder, respond: Responder, n: nat, middlewareIndex: int, s: RequestState)
    requires Sound(respond) && Compresses(h, enc, s)
    ensures var x := h.Exchange(enc, respond, n, middlewareIndex, s);
      |x.calls| >= 1 &&
      (respond(n, x.calls[0]).err.Some? ==>
        |x.calls| == 1 && x.reply == Reply(None, respond(n, x.calls[0]).err))
  {
  }

  /** A 415 to the first forward: exactly one more call, without
      `Content-Encoding`, with the bytes originally read and the content
      length recorded before compression, whose reply is returned as it is. */
  lemma RetryOn415(h: CompressionHandler, enc: Encoder, respond: Responder, n: nat, middlewareIndex: int, s: RequestState)
    requires Sound(respond) && Compresses(h, enc, s)
    ensures var x := h.Exchange(enc, respond, n, middlewareIndex, s);
      var answer := respond(n, x.calls[0]);
      |x.calls| >= 1 &&
      (answer.err.None? && answer.response.value.statusCode == 415 ==>
        |x.calls| == 2 &&
        x.calls[1].middlewareIndex == x.calls[0].middlewareIndex &&
        x.calls[1].request.header == s.header - {ContentEncoding} &&
        Drain(x.calls[1].request.body.value) == Ok(Concat(s.body.value.chunks)) &&
        x.calls[1].request.contentLength == s.contentLength &&
        x.reply == respond(n + 1, x.calls[1]) &&
        x.final == x.calls[1].request)
  {
  }

  /** Any status other than 415 to the first forward is returned with no
      error after that single call. */
  lemma NoRetryOtherwise(h: CompressionHandler, enc: Encoder, respond: Responder, n: nat, middlewareIndex: int, s: RequestState)
    requires Sound(respond) && Compresses(h, enc, s)
    ensures var x := h.Exchange(enc, respond, n, middlewareIndex, s);
      var answer := respond(n, x.calls[0]);
      |x.calls| >= 1 &&
      (answer.err.None? && answer.response.value.statusCode != 415 ==>
        |x.calls| == 1 && x.reply == Reply(answer.response, None) && x.final == x.calls[0].request)
  {
  }

  /** On the compressed path every request sent downstream delivers the
      original bytes to a server that honours `Content-Encoding`. */
  lemma WireRoundTrip(h: CompressionHandler, enc: Encoder, inflate: seq<Byte> -> seq<Byte>,
                      respond: Responder, n: nat, middlewareIndex: int, s: RequestState)
    requires Sound(respond) && Compresses(h, enc, s) && Inflates(enc, inflate)
    ensures var x := h.Exchange(enc, respond, n, middlewareIndex, s);
      forall i :: 0 <= i < |x.calls| ==> Payload(x.calls[i].request, inflate) == Some(Concat(s.body.value.chunks))
  {
  }

  /** When the caller's content length matches its body, every request sent
      downstream has a content length matching the body it carries. */
  lemma ContentLengthTracksBody(h: CompressionHandler, enc: Encoder, respond: Responder, n: nat, middlewareIndex: int, s: RequestState)
    requires Sound(respond) && Compresses(h, enc, s)
    requires s.contentLength == |Concat(s.body.value.chunks)|
    ensures var x := h.Exchange(enc, respond, n, middlewareIndex, s);
      forall i :: 0 <= i < |x.calls| ==>
        x.calls[i].request.body.Some? && Drain(x.calls[i].request.body.value).Ok? &&
        x.calls[i].request.contentLength == |Drain(x.calls[i].request.body.value).value|
  {
  }
}
