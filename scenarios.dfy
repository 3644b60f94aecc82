/** Two end-to-end calls of `Intercept`, verified, on a request a caller builds: a default
    handler, the body "hello world", and a pipeline that answers 200, or 415
    and then 200. */
module CompressionScenarios {
  import opened Wrappers
  import opened Http
  import opened Compression

  /** "hello world" in ASCII. */
  const HelloWorld: seq<Byte> := [0x68, 0x65, 0x6c, 0x6c, 0x6f, 0x20, 0x77, 0x6f, 0x72, 0x6c, 0x64]

  const Ok200 := Response(200, "OK")
  const Rejected415 := Response(415, "Unsupported Media Type")

  /** The server accepts the compressed body: one call, sent compressed, and
      its 200 returned. */
  method AcceptedScenario(frame: seq<Byte> -> seq<Byte>) returns (reply: Reply, calls: seq<Call>)
    ensures |calls| == 1
    ensures calls[0].request.header == map[ContentEncoding := [Gzip]]
    ensures calls[0].request.body.Some? && Drain(calls[0].request.body.value) == Ok(frame(HelloWorld))
    ensures calls[0].request.contentLength == |frame(HelloWorld)|
    ensures reply == Reply(Some(Ok200), None)
  {
    var handler := NewCompressionHandler();
    var req := new Request(map[], map[], Some(FromBytes(HelloWorld)), |HelloWorld|);
    var pipeline := new Pipeline((k: nat, c: Call) => Reply(Some(Ok200), None));
    reply := handler.Intercept(pipeline, 0, req, Encoder(frame, None, None));
    calls := pipeline.log;
  }

  /** The server rejects the compressed body: a second call with no
      `Content-Encoding` and the body "hello world", whose 200 is returned. */
  method RejectedScenario(frame: seq<Byte> -> seq<Byte>) returns (reply: Reply, calls: seq<Call>)
    ensures |calls| == 2
    ensures calls[0].request.header == map[ContentEncoding := [Gzip]]
    ensures calls[0].request.body.Some? && Drain(calls[0].request.body.value) == Ok(frame(HelloWorld))
    ensures calls[1].request.header == map[]
    ensures calls[1].request.body.Some? && Drain(calls[1].request.body.value) == Ok(HelloWorld)
    ensures calls[1].request.contentLength == 11
    ensures reply == Reply(Some(Ok200), None)
  {
    var handler := NewCompressionHandler();
    var req := new Request(map[], map[], Some(FromBytes(HelloWorld)), |HelloWorld|);
    var pipeline := new Pipeline((k: nat, c: Call) =>
      if k == 0 then Reply(Some(Rejected415), None) else Reply(Some(Ok200), None));
    reply := handler.Intercept(pipeline, 0, req, Encoder(frame, None, None));
    calls := pipeline.log;
  }
}
