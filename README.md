# Request-compression middleware, modelled in Dafny

This project models the Go `CompressionHandler` middleware of the Kiota HTTP
library (`http/go/nethttp/compression_handler.go`). On every outgoing request
the handler decides whether to compress, using a per-request option from the
request context or else its own default. If it compresses, it reads the whole
body, gzips it, and forwards the request with `Content-Encoding: gzip` and the
compressed length. If the server answers 415 Unsupported Media Type (section
15.5.16 of RFC 9110), it forwards the request exactly once more, with the
original bytes and the original content length.

Files:
- `wrappers.dfy`: `Option` and `Result`.
- `http.dfy`: the request as a mutable class `Request`, the body as a reader
  (`Stream`: chunks and an optional terminal error), `ReadAll` for
  `ioutil.ReadAll`, and the rest of the pipeline as an oracle class `Pipeline`.
  The oracle logs a snapshot of the request at each `Next` call. It answers
  through a `respond` function of the call number and the request.
- `compression.dfy`: `CompressionOptions`, the constructors, option resolution,
  `compressReqBody`, the specification function `Exchange`, and the method
  `Intercept`. `Intercept` changes the request in place, as the Go code does.
  Its contract ties the pipeline log, the reply and the final request state to
  `Exchange`.
- `properties.dfy`: the promises of the handler, as lemmas over `Exchange`.
- `scenarios.dfy`: two end-to-end calls of `Intercept`, verified, on a request
  built by a caller.

Four behaviours of the code may be unexpected. The model keeps each of them:
- Reading the body drains the reader, even when reading or compressing then
  fails. The request is not left exactly as it was. After a failure the model
  leaves an exhausted reader in place.
- On retry, the content length is restored to the value recorded before
  compression, not to the length of the body. A request built with an unknown
  length (`-1`) is retried with `-1`.
- A `Content-Encoding` header that the caller had set is overwritten by `gzip`.
  On a retry it is deleted, not restored.
- When the first forward returns an error together with a response, the
  response is dropped.

## Model

| member | source | states |
|---|---|---|
| `Http.ReadAll` | http/go/nethttp/compression_handler.go:69-73 | reading the body to its end yields all its bytes in order, or the reader's error (the bytes read before an error are dropped) |
| `Http.Drain` | http/go/nethttp/compression_handler.go:69 | a body read succeeds exactly when the reader ends without error, and then yields the concatenated chunks |
| `Http.Exhausted` | http/go/nethttp/compression_handler.go:69 | after the read, reading the body again yields no bytes: nothing if it had ended at EOF, or its error again |
| `Http.FromBytes` | http/go/nethttp/compression_handler.go:93 | the reader over an in-memory buffer delivers exactly that buffer, without error |
| `Http.Pipeline.Next` | http/go/nethttp/compression_handler.go:66 | each forward logs the request as it stands and the middleware index, and returns the oracle's answer for that call |
| `Compression.CompressionOptions.GetKey` | http/go/nethttp/compression_handler.go:28-50 | the options' key is always `"CompressionHandler"` |
| `Compression.NewCompressionOptions` | http/go/nethttp/compression_handler.go:42-55 | `NewCompressionOptions(b).ShouldCompress() == b`: `CompressionOptions.ShouldCompress` returns the flag the options were built with |
| `Compression.NewCompressionHandler` | http/go/nethttp/compression_handler.go:30-34 | the default handler compresses every request that carries no compression option |
| `Compression.NewCompressionHandlerWithOptions` | http/go/nethttp/compression_handler.go:36-40 | the given options decide every request that carries no compression option |
| `Compression.CompressionHandler.ResolveShouldCompress` | http/go/nethttp/compression_handler.go:60-63 | a context value of the `compression` type under the key decides; a missing value or one of another type falls back to the handler's options, without error |
| `Compression.CompressRequestBody` | http/go/nethttp/compression_handler.go:102-114 | success exactly when neither the gzip write nor the close fails; a write error takes precedence over a close error; on success the body is the gzip framing of the input and the size is its length |
| `Compression.CompressedRequest` | http/go/nethttp/compression_handler.go:80-82 | the compressed request has `Content-Encoding: gzip`, a body delivering the compressed bytes and their size as content length; every other header is unchanged |
| `Compression.UncompressedRequest` | http/go/nethttp/compression_handler.go:92-94 | the retried request has no `Content-Encoding`, a fresh body delivering the original bytes and the recorded content length; every other header is unchanged |
| `Compression.CompressionHandler.Exchange` | http/go/nethttp/compression_handler.go:59-100 | at most two forwards, all with the same middleware index and context; no forward only when an error is returned without a response; after one forward, that forward's error (or, without one, its response) is returned; two forwards only after a 415 with no error, and then the second reply is returned verbatim |
| `Compression.CompressionHandler.Intercept` | http/go/nethttp/compression_handler.go:59-100 | the in-place implementation: its forwards, its reply and the request it leaves behind are exactly those of `Exchange` |
| `CompressionProperties.PerRequestOverride` | http/go/nethttp/compression_handler.go:60-63 | options stored under their own key override the handler's default, either way |
| `CompressionProperties.PassThrough` | http/go/nethttp/compression_handler.go:65-67 | compression off or no body: exactly one forward with the request untouched, and its reply returned as it is |
| `CompressionProperties.ReadFailure` | http/go/nethttp/compression_handler.go:69-73 | a read error is returned with no response and no forward; only the (now drained) body has changed |
| `CompressionProperties.CompressFailure` | http/go/nethttp/compression_handler.go:75-78 | a compression error is returned with no response and no forward; headers and content length are unchanged, and the body has been read to its end |
| `CompressionProperties.FirstForwardCompressed` | http/go/nethttp/compression_handler.go:80-85 | the first forward carries `Content-Encoding: gzip`, the compressed bytes and their length; the other headers are unchanged |
| `CompressionProperties.FirstForwardError` | http/go/nethttp/compression_handler.go:85-88 | an error from the first forward is returned with no response and no retry |
| `CompressionProperties.RetryOn415` | http/go/nethttp/compression_handler.go:91-97 | a 415 leads to exactly one more forward with the same index: headers are the caller's minus `Content-Encoding`, the body is the original bytes and the content length is the recorded one; its reply is returned verbatim |
| `CompressionProperties.NoRetryOtherwise` | http/go/nethttp/compression_handler.go:91-99 | any other status is returned with no error after a single forward |
| `CompressionProperties.WireRoundTrip` | http/go/nethttp/compression_handler.go:80-96 | if gzip decoding inverts the encoder, every forwarded request delivers the original bytes to a server that honours `Content-Encoding` |
| `CompressionProperties.ContentLengthTracksBody` | http/go/nethttp/compression_handler.go:70-94 | if the caller's content length matched its body, every forwarded request's content length matches the body it carries |
| `CompressionScenarios.AcceptedScenario` | http/go/nethttp/compression_handler.go:80-99 | default handler, body "hello world", pipeline answers 200: one forward, compressed, and the 200 is returned |
| `CompressionScenarios.RejectedScenario` | http/go/nethttp/compression_handler.go:91-97 | same request, pipeline answers 415 then 200: two forwards; the second has no `Content-Encoding`, the body "hello world" and length 11; the 200 is returned |

## Left out

- The DEFLATE and gzip encoding itself (`compress/gzip`, `bytes.Buffer`) is a foreign library. `Encoder` stands for it: an arbitrary framing function, and an optional error from each of `Write` and `Close`. The decompress-after-compress law is not proved. `WireRoundTrip` takes it as a hypothesis (`Inflates`).
- The Go `context.Value` lookup and the interface type assertion are modelled as a map from option keys to `ContextValue`. A value that implements the `compression` interface is represented by its `ShouldCompress` answer, which the handler reads once.
- The implementation of the pipeline, the `net/http` transport and the network are not modelled. `Pipeline.Next` is an oracle: later stages neither change the request nor consume its body.
- Compression.CompressionHandler.Intercept: requires (`Http.Sound`) the net/http convention that a nil error comes with a response, for every call of `Next`. The Go code relies on it only for the first compressed forward: with a nil response and a nil error there, line 91 dereferences the response and panics. The convention also rules out pipelines that return a nil response with a nil error at line 66 or line 96. Go would pass such a reply back unchanged, and the model does not cover it.
- Header keys are not canonicalised. `Header.Set` canonicalises its key, but the key here is already canonical. A non-canonical variant of the key that is already present is not modelled.
- A nil header map, which makes `Header.Set` panic, is not modelled.
- `ContentLength` is an `int`, not an `int64`. The size of an in-memory buffer never overflows it.
- Closing readers (`NopCloser`) is not modelled.
- Concurrency is not modelled. The handler's only state is its options, and they are read-only.
- `tests/Kiota.Builder.Tests/Refiners/CSharpLanguageRefinerTests.cs` tests a C# code generator whose source is not part of this model. It has no behaviour of this handler to model.
