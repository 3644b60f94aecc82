/** The parts of an outgoing HTTP request, of a response and of the middleware
    pipeline that the compression handler reads and changes. */
module Http {
  import opened Wrappers

  type Byte = bv8

  /** A Go `error`: compared by value, never wrapped or translated. */
  datatype Error = Error(message: string)

  /** The status line of a response; the rest of it is passed along untouched. */
  datatype Response = Response(statusCode: int, reason: string)

  /** What `Pipeline.Next` returns: a Go `(*http.Response, error)` pair,
      either part of which may be nil. */
  datatype Reply = Reply(response: Option<Response>, err: Option<Error>)

  /** The key under which a request option is stored in the request context. */
  datatype RequestOptionKey = RequestOptionKey(key: string)

  /** A value found in the request context: one that implements the handler's
      `compression` interface (so it has a `ShouldCompress` answer), or a value
      of any other type. */
  datatype ContextValue = Compression(shouldCompress: bool) | OtherValue

  type Context = map<RequestOptionKey, ContextValue>

  /** A request body as a reader: the chunks it still has to deliver, and the
      error it reports after them (`None` means it ends with EOF). */
  datatype Stream = Stream(chunks: seq<seq<Byte>>, failure: Option<Error>)

  /** A fresh reader over an in-memory byte buffer, as `ioutil.NopCloser` wraps one. */
  function FromBytes(data: seq<Byte>): (s: Stream)
    ensures s.failure.None? && Concat(s.chunks) == data
  {
    Stream([data], None)
  }

  /** The reader once it has been read to its end. */
  function Exhausted(s: Stream): (r: Stream)
    ensures Drain(r) == (if s.failure.Some? then Err(s.failure.value) else Ok([]))
  {
    Stream([], s.failure)
  }

  /** The bytes of the chunks, in order. */
  function Concat(chunks: seq<seq<Byte>>): seq<Byte>
  {
    if chunks == [] then [] else Concat(chunks[..|chunks| - 1]) + chunks[|chunks| - 1]
  }

  /** What reading a body to its end yields: all its bytes, or its error. */
  function Drain(s: Stream): (r: Result<seq<Byte>, Error>)
    ensures r.Ok? <==> s.failure.None?
    ensures r.Err? ==> r.error == s.failure.value
    ensures r.Ok? ==> r.value == Concat(s.chunks)
  {
    if s.failure.Some? then Err(s.failure.value) else Ok(Concat(s.chunks))
  }

  /** `ioutil.ReadAll`: read chunk after chunk until the reader reports EOF or
      an error. The bytes read before an error are dropped by the caller, so
      only the error is returned then. */
  method ReadAll(s: Stream) returns (r: Result<seq<Byte>, Error>)
    ensures r == Drain(s)
  {
    var data: seq<Byte> := [];
    var i := 0;
    while i < |s.chunks|
      invariant 0 <= i <= |s.chunks|
      invariant data == Concat(s.chunks[..i])
    {
      assert s.chunks[..i + 1][..i] == s.chunks[..i];
      data := data + s.chunks[i];
      i := i + 1;
    }
    assert s.chunks[..i] == s.chunks;
    if s.failure.Some? {
      r := Err(s.failure.value);
    } else {
      r := Ok(data);
    }
  }

  /** A snapshot of everything about a request that the handler reads or writes. */
  datatype RequestState = RequestState(
    context: Context,
    header: map<string, seq<string>>,
    body: Option<Stream>,
    contentLength: int)

  /** `*http.Request`: shared with the caller and with the later pipeline
      stages, and changed in place. Its context cannot be replaced in place. */
  class Request {
    const context: Context
    var header: map<string, seq<string>>
    var body: Option<Stream>
    var contentLength: int

    constructor (context: Context, header: map<string, seq<string>>, body: Option<Stream>, contentLength: int)
      ensures State() == RequestState(context, header, body, contentLength)
    {
      this.context := context;
      this.header := header;
      this.body := body;
      this.contentLength := contentLength;
    }

    function State(): RequestState
      reads this
    {
      RequestState(context, header, body, contentLength)
    }
  }

  /** One call of `Pipeline.Next`: the request as the next stage saw it, and
      the middleware index passed along. */
  datatype Call = Call(request: RequestState, middlewareIndex: int)

  /** How the rest of the pipeline answers the n-th call made on it. */
  type Responder = (nat, Call) -> Reply

  /** The Go convention the handler relies on: a call that reports no error
      has a response. */
  ghost predicate Sound(respond: Responder)
  {
    forall n: nat, c: Call :: respond(n, c).err.Some? || respond(n, c).response.Some?
  }

  /** The rest of the middleware pipeline, seen from the handler: every call
      of `Next` is logged with the request as it stood, and answered by
      `respond`. The later stages do not change the request here. */
  class Pipeline {
    const respond: Responder
    var log: seq<Call>

    constructor (respond: Responder)
      ensures this.respond == respond && log == []
    {
      this.respond := respond;
      log := [];
    }

    method Next(req: Request, middlewareIndex: int) returns (reply: Reply)
      modifies this
      ensures log == old(log) + [Call(req.State(), middlewareIndex)]
      ensures reply == respond(|old(log)|, Call(req.State(), middlewareIndex))
    {
      var call := Call(req.State(), middlewareIndex);
      reply := respond(|log|, call);
      log := log + [call];
    }
  }
}
