/** The request-compression middleware: per-request options, the gzip step
    and the compress-then-retry-uncompressed protocol of `Intercept`. */
module Compression {
  import opened Wrappers
  import opened Http

  /** The key both the options and a per-request override are stored under. */
  const CompressKey := RequestOptionKey("CompressionHandler")

  const ContentEncoding := "Content-Encoding"
  const Gzip := "gzip"

  /** HTTP 415 Unsupported Media Type (section 15.5.16 of RFC 9110). */
  const UnsupportedMediaType := 415

  /** The handler's configuration: compress request bodies or not. */
  datatype CompressionOptions = CompressionOptions(enableCompression: bool)
  {
    /** The name of the options in a request context. */
    function GetKey(): (k: RequestOptionKey)
      ensures k.key == "CompressionHandler"
    {
      CompressKey
    }

    function ShouldCompress(): bool
    {
      enableCompression
    }
  }

  function NewCompressionOptions(enableCompression: bool): (o: CompressionOptions)
    ensures o.ShouldCompress() == enableCompression
  {
    CompressionOptions(enableCompression)
  }

  /** The gzip writer over an in-memory buffer, a foreign library: `frame` is
      the gzip stream it produces for a body; either of its `Write` and
      `Close` calls may fail. */
  datatype Encoder = Encoder(
    frame: seq<Byte> -> seq<Byte>,
    writeError: Option<Error>,
    closeError: Option<Error>)

  /** A compressed body and the size reported for it. */
  datatype Compressed = Compressed(body: seq<Byte>, size: int)

  /** `compressReqBody`: gzip the whole body into a buffer and report the
      buffer's length; a write or close error is passed back as is. */
  function CompressRequestBody(enc: Encoder, data: seq<Byte>): (r: Result<Compressed, Error>)
    ensures r.Ok? <==> enc.writeError.None? && enc.closeError.None?
    ensures enc.writeError.Some? ==> r == Err(enc.writeError.value)
    ensures enc.writeError.None? && enc.closeError.Some? ==> r == Err(enc.closeError.value)
    ensures r.Ok? ==> r.value.body == enc.frame(data) && r.value.size == |r.value.body|
  {
    if enc.writeError.Some? then Err(enc.writeError.value)
    else if enc.closeError.Some? then Err(enc.closeError.value)
    else
      var buffer := enc.frame(data);
      Ok(Compressed(buffer, |buffer|))
  }

  /** The request as it is forwarded compressed: gzip encoding announced,
      the compressed body in place and its size as the content length. */
  function CompressedRequest(s: RequestState, c: Compressed): (r: RequestState)
    ensures r.context == s.context
    ensures ContentEncoding in r.header && r.header[ContentEncoding] == [Gzip]
    ensures forall key :: key != ContentEncoding ==>
      (key in r.header <==> key in s.header) && (key in s.header ==> r.header[key] == s.header[key])
    ensures r.body.Some? && Drain(r.body.value) == Ok(c.body) && r.contentLength == c.size
  {
    s.(header := s.header[ContentEncoding := [Gzip]],
       body := Some(FromBytes(c.body)),
       contentLength := c.size)
  }

  /** The request as it is forwarded again after a 415: no content encoding,
      a fresh reader over the original bytes and the content length recorded
      before compression. */
  function UncompressedRequest(s: RequestState, original: seq<Byte>, contentLength: int): (r: RequestState)
    ensures r.context == s.context
    ensures ContentEncoding !in r.header
    ensures forall key :: key != ContentEncoding ==>
      (key in r.header <==> key in s.header) && (key in s.header ==> r.header[key] == s.header[key])
    ensures r.body.Some? && Drain(r.body.value) == Ok(original) && r.contentLength == contentLength
  {
    s.(header := s.header - {ContentEncoding},
       body := Some(FromBytes(original)),
       contentLength := contentLength)
  }

  /** What one interception does, seen from outside: the calls made on the
      rest of the pipeline, the reply handed back, and the request afterwards. */
  datatype Trace = Trace(calls: seq<Call>, reply: Reply, final: RequestState)

  /** The middleware. Its options are only read, so it is a value. */
  datatype CompressionHandler = CompressionHandler(options: CompressionOptions)
  {
    /** The effective `ShouldCompress`: a per-request option that implements
        the `compression` interface wins; a missing one, or a value of another
        type, silently falls back to the handler's own options. */
    function ResolveShouldCompress(ctx: Context): (b: bool)
      ensures CompressKey in ctx && ctx[CompressKey].Compression? ==> b == ctx[CompressKey].shouldCompress
      ensures CompressKey !in ctx || ctx[CompressKey].OtherValue? ==> b == options.ShouldCompress()
    {
      if CompressKey in ctx && ctx[CompressKey].Compression? then ctx[CompressKey].shouldCompress
      else options.ShouldCompress()
    }

    /** The specification of `Intercept` on a request in state `s`, when the
        pipeline has already been called `n` times. */
    ghost function Exchange(enc: Encoder, respond: Responder, n: nat, middlewareIndex: int, s: RequestState): (x: Trace)
      requires Sound(respond)
      ensures |x.calls| <= 2
      ensures forall i :: 0 <= i < |x.calls| ==>
        x.calls[i].middlewareIndex == middlewareIndex && x.calls[i].request.context == s.context
      ensures x.final.context == s.context
      ensures x.calls == [] ==> x.reply.response.None? && x.reply.err.Some?
      ensures |x.calls| == 1 ==>
        x.reply.err == respond(n, x.calls[0]).err &&
        (x.reply.err.None? ==> x.reply.response == respond(n, x.calls[0]).response)
      ensures |x.calls| == 2 ==>
        respond(n, x.calls[0]).err.None? &&
        respond(n, x.calls[0]).response.value.statusCode == UnsupportedMediaType &&
        x.reply == respond(n + 1, x.calls[1])
    {
      var pass := Call(s, middlewareIndex);
      if !ResolveShouldCompress(s.context) || s.body.None? then
        Trace([pass], respond(n, pass), s)
      else
        var read := Drain(s.body.value);
        var drained := s.(body := Some(Exhausted(s.body.value)));
        if read.Err? then
          Trace([], Reply(None, Some(read.error)), drained)
        else
          var compressed := CompressRequestBody(enc, read.value);
          if compressed.Err? then
            Trace([], Reply(None, Some(compressed.error)), drained)
          else
            var sent := CompressedRequest(drained, compressed.value);
            var first := Call(sent, middlewareIndex);
            var answer := respond(n, first);
            if answer.err.Some? then
              Trace([first], Reply(None, answer.err), sent)
            else if answer.response.value.statusCode == UnsupportedMediaType then
              var resent := UncompressedRequest(sent, read.value, s.contentLength);
              var second := Call(resent, middlewareIndex);
              Trace([first, second], respond(n + 1, second), resent)
            else
              Trace([first], Reply(answer.response, None), sent)
    }

    /** `Intercept`: compress the body, forward it, and on a 415 forward it
        once more uncompressed. */
    method Intercept(pipeline: Pipeline, middlewareIndex: int, req: Request, enc: Encoder) returns (reply: Reply)
      requires Sound(pipeline.respond)
      modifies req, pipeline
      ensures var x := Exchange(enc, pipeline.respond, |old(pipeline.log)|, middlewareIndex, old(req.State()));
        pipeline.log == old(pipeline.log) + x.calls && reply == x.reply && req.State() == x.final
    {
      if !ResolveShouldCompress(req.context) || req.body.None? {
        reply := pipeline.Next(req, middlewareIndex);
        return;
      }

      var unCompressedBody := ReadAll(req.body.value);
      req.body := Some(Exhausted(req.body.value));
      var unCompressedContentLength := req.contentLength;
      if unCompressedBody.Err? {
        return Reply(None, Some(unCompressedBody.error));
      }

      var compressed := CompressRequestBody(enc, unCompressedBody.value);
      if compressed.Err? {
        return Reply(None, Some(compressed.error));
      }

      req.header := req.header[ContentEncoding := [Gzip]];
      req.body := Some(FromBytes(compressed.value.body));
      req.contentLength := compressed.value.size;

      var first := pipeline.Next(req, middlewareIndex);
      if first.err.Some? {
        return Reply(None, first.err);
      }

      if first.response.value.statusCode == UnsupportedMediaType {
        req.header := req.header - {ContentEncoding};
        req.body := Some(FromBytes(unCompressedBody.value));
        req.contentLength := unCompressedContentLength;
        reply := pipeline.Next(req, middlewareIndex);
        return;
      }

      reply := Reply(first.response, None);
    }
  }

  /** `NewCompressionHandler`: compression on by default. */
  function NewCompressionHandler(): (h: CompressionHandler)
    ensures h.options.ShouldCompress()
    ensures forall ctx: Context :: CompressKey !in ctx ==> h.ResolveShouldCompress(ctx)
  {
    NewCompressionHandlerWithOptions(NewCompressionOptions(true))
  }

  /** `NewCompressionHandlerWithOptions`: the given options decide every
      request that carries no compression option of its own. */
  function NewCompressionHandlerWithOptions(option: CompressionOptions): (h: CompressionHandler)
    ensures forall ctx: Context :: CompressKey !in ctx ==> h.ResolveShouldCompress(ctx) == option.ShouldCompress()
  {
    CompressionHandler(option)
  }
}
