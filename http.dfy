/** What the application sees of an HTTP exchange. Sending, timeouts and
    headers are outside the model: a reply is given as data, scripted by
    the caller, in the shape the application reads it. */
module Http {
  import opened Wrappers
  import opened Bytes
  import Text
  import Json

  /** A response status: its code and the canonical reason phrase the
      `http` crate knows for it, if any. */
  datatype Status = Status(code: nat, reason: Option<string>)

  /** `StatusCode::is_success`: 200 to 299. */
  predicate IsSuccess(s: Status) {
    200 <= s.code <= 299
  }

  /** `Display` of a status: "404 Not Found", or the code followed by
      "<unknown status code>" when the crate has no phrase for it. */
  function Display(s: Status): (r: string)
    ensures Text.StartsWith(r, Text.NatToString(s.code) + " ")
  {
    Text.NatToString(s.code) + " " + s.reason.GetOr("<unknown status code>")
  }

  /** `resp.text().await.unwrap_or_else(|_| "<no body>".into())`: the body
      of an error reply, `None` when it could not be read. */
  function ErrorBody(body: Option<string>): string {
    body.GetOr("<no body>")
  }

  /** One item of a body stream: a chunk of text, or a transport error. */
  datatype Chunk = Data(text: string) | ChunkFailed(err: string)

  /** A streamed reply (`bytes_stream`). */
  datatype StreamReply =
    | StreamSendFailed(err: string)
    | StreamResponse(status: Status, errorBody: Option<string>, chunks: seq<Chunk>)

  /** A reply whose body is read whole as JSON (`resp.json()`); `body` is
      the decoded value or the decoder's error text. */
  datatype JsonReply =
    | JsonSendFailed(err: string)
    | JsonResponse(status: Status, errorBody: Option<string>, body: Result<Json.Json, string>)

  /** A GET whose body is read as bytes: the send or the read can fail. */
  datatype Fetch = FetchSendFailed(err: string) | FetchReadFailed(err: string) | Fetched(bytes: seq<Byte>)

  /** The data chunks that arrive before the first transport error. */
  function Received(chunks: seq<Chunk>): (r: seq<string>)
    ensures |r| <= |chunks|
    ensures forall i :: 0 <= i < |r| ==> chunks[i] == Data(r[i])
    ensures |r| < |chunks| ==> chunks[|r|].ChunkFailed?
  {
    if chunks == [] || chunks[0].ChunkFailed? then []
    else [chunks[0].text] + Received(chunks[1..])
  }

  /** The first transport error of the stream, if any. */
  function StreamError(chunks: seq<Chunk>): (r: Option<string>)
    ensures r.Some? <==> |Received(chunks)| < |chunks|
    ensures r.Some? ==> chunks[|Received(chunks)|] == ChunkFailed(r.value)
  {
    if chunks == [] then None
    else if chunks[0].ChunkFailed? then Some(chunks[0].err)
    else StreamError(chunks[1..])
  }
}
