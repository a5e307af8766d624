/** The Ollama client: a health check that lists the installed models, a
    one-shot generation and a streamed generation that hands each piece
    of text to a callback. The HTTP exchange is given as a reply value. */
module Ollama {
  import opened Wrappers
  import Text
  import opened Json
  import LineSplit
  import Http
  import opened Settings

  const DefaultBaseUrl: string := "http://127.0.0.1:11434"
  const DefaultModel: string := "gemma3:1b"
  const Unreachable: string := "Ollama server not reachable. Is it running on port 11434?"

  /** The server address: the configured one, else the local default. */
  function BaseUrl(settings: Settings): (r: string)
    ensures settings.ollamaBaseUrl.Some? ==> r == settings.ollamaBaseUrl.value
    ensures settings.ollamaBaseUrl.None? ==> r == "http://127.0.0.1:11434"
  {
    settings.ollamaBaseUrl.GetOr(DefaultBaseUrl)
  }

  /** The model used: the caller's, else the configured default, else
      `gemma3:1b`. */
  function ModelName(model: Option<string>, settings: Settings): (r: string)
    ensures model.Some? ==> r == model.value
    ensures model.None? && settings.defaultOllamaModel.Some? ==> r == settings.defaultOllamaModel.value
    ensures model.None? && settings.defaultOllamaModel.None? ==> r == "gemma3:1b"
  {
    model.Or(settings.defaultOllamaModel).GetOr(DefaultModel)
  }

  /** The body of a generation request and where it is posted. */
  datatype GenerateRequest = GenerateRequest(url: string, model: string, prompt: string, stream: bool)

  function Request(model: Option<string>, prompt: string, settings: Settings, stream: bool)
    : (req: GenerateRequest)
    ensures Text.StartsWith(req.url, BaseUrl(settings))
    ensures req.url == BaseUrl(settings) + "/api/generate"
    ensures model.Some? ==> req.model == model.value
    ensures model.None? && settings.defaultOllamaModel.Some? ==> req.model == settings.defaultOllamaModel.value
    ensures model.None? && settings.defaultOllamaModel.None? ==> req.model == DefaultModel
    ensures req.prompt == prompt && req.stream == stream
  {
    var url := BaseUrl(settings) + "/api/generate";
    assert url[..|BaseUrl(settings)|] == BaseUrl(settings);
    GenerateRequest(url, ModelName(model, settings), prompt, stream)
  }

  /** The status checks both generation calls make: 404 and 502 mean the
      server is not there; any other failure status is reported with its
      code. */
  function StatusError(status: Http.Status): (r: Option<string>)
    ensures r.None? <==> Http.IsSuccess(status)
    ensures status.code == 404 || status.code == 502 ==> r == Some(Unreachable)
    ensures r.Some? && r != Some(Unreachable) ==> Text.StartsWith(r.value, "ollama error: HTTP ")
    ensures !Http.IsSuccess(status) && status.code != 404 && status.code != 502
            ==> r == Some("ollama error: HTTP " + Http.Display(status))
  {
    if status.code == 404 || status.code == 502 then Some(Unreachable)
    else if !Http.IsSuccess(status) then
      var m := "ollama error: HTTP " + Http.Display(status);
      assert m[..|"ollama error: HTTP "|] == "ollama error: HTTP ";
      Some(m)
    else None
  }

  // ----- one-shot generation -----

  /** The `response` strings of the items of an array reply, in order;
      items without one are skipped. */
  function Responses(items: seq<Json>): (r: seq<string>)
    ensures |r| <= |items|
  {
    if items == [] then []
    else
      var last := items[|items| - 1];
      Responses(items[..|items| - 1]) + (match GetStr(last, "response") case Some(s) => [s] case None => [])
  }

  /** How a decoded reply is read: a top-level `response` string (even an
      empty one); else, for an array, the concatenated `response` strings
      of its items when that is not empty; else an error. */
  function ReadGenerated(v: Json): (r: Result<string, string>)
    ensures GetStr(v, "response").Some? ==> r == Ok(GetStr(v, "response").value)
    ensures r.Ok? && GetStr(v, "response").None? ==> v.Arr? && r.value != []
    ensures r.Err? ==> r.error == "Unexpected Ollama response format"
    ensures GetStr(v, "response").None? && v.Arr? && Text.Concat(Responses(v.items)) != []
      ==> r == Ok(Text.Concat(Responses(v.items)))
    ensures GetStr(v, "response").None? && !(v.Arr? && Text.Concat(Responses(v.items)) != [])
      ==> r == Err("Unexpected Ollama response format")
  {
    match GetStr(v, "response")
    case Some(s) => Ok(s)
    case None =>
      if v.Arr? && Text.Concat(Responses(v.items)) != [] then Ok(Text.Concat(Responses(v.items)))
      else Err("Unexpected Ollama response format")
  }

  /** The outcome of `generate` for a reply. */
  function GenerateSpec(reply: Http.JsonReply): (r: Result<string, string>)
    ensures r.Ok? ==> reply.JsonResponse? && Http.IsSuccess(reply.status) && reply.body.Ok?
  {
    match reply
    case JsonSendFailed(e) => Err("ollama request failed: " + e)
    case JsonResponse(status, _, body) =>
      match StatusError(status)
      case Some(e) => Err(e)
      case None =>
        match body
        case Err(e) => Err("response parse error: " + e)
        case Ok(v) => ReadGenerated(v)
  }

  /** `generate`: the request sent (not streamed) and the result read
      from the reply; an array reply is collected item by item. */
  method Generate(model: Option<string>, prompt: string, settings: Settings, reply: Http.JsonReply)
    returns (req: GenerateRequest, r: Result<string, string>)
    ensures req == Request(model, prompt, settings, false)
    ensures r == GenerateSpec(reply)
  {
    req := Request(model, prompt, settings, false);
    if reply.JsonSendFailed? {
      return req, Err("ollama request failed: " + reply.err);
    }
    var bad := StatusError(reply.status);
    if bad.Some? {
      return req, Err(bad.value);
    }
    if reply.body.Err? {
      return req, Err("response parse error: " + reply.body.error);
    }
    var v := reply.body.value;
    var top := GetStr(v, "response");
    if top.Some? {
      return req, Ok(top.value);
    }
    if v.Arr? {
      var items := v.items;
      var out: string := [];
      var k := 0;
      while k < |items|
        invariant k <= |items|
        invariant out == Text.Concat(Responses(items[..k]))
      {
        assert items[..k + 1][..k] == items[..k];
        var s := GetStr(items[k], "response");
        if s.Some? {
          out := out + s.value;
          assert Responses(items[..k + 1]) == Responses(items[..k]) + [s.value];
        } else {
          assert Responses(items[..k + 1]) == Responses(items[..k]);
        }
        k := k + 1;
      }
      assert items[..k] == items;
      if out != [] {
        return req, Ok(out);
      }
    }
    r := Err("Unexpected Ollama response format");
  }

  /** An array reply is refused exactly when none of its items carries a
      non-empty `response` string. */
  lemma {:induction false} EmptyOutputIff(items: seq<Json>)
    ensures Text.Concat(Responses(items)) == [] <==>
      forall i :: 0 <= i < |items| ==> GetStr(items[i], "response").None? || GetStr(items[i], "response") == Some([])
  {
    if items != [] {
      var init, last := items[..|items| - 1], items[|items| - 1];
      EmptyOutputIff(init);
      var tailPart := match GetStr(last, "response") case Some(s) => [s] case None => [];
      var all := Responses(init) + tailPart;
      assert Responses(items) == all;
      assert all[..|all| - |tailPart|] == Responses(init);
      if tailPart != [] {
        assert all[..|all| - 1] == Responses(init);
        assert Text.Concat(all) == Text.Concat(Responses(init)) + tailPart[0];
      } else {
        assert all == Responses(init);
      }
      assert forall i :: 0 <= i < |init| ==> init[i] == items[i];
    }
  }

  // ----- streamed generation -----

  /** The text a decoded line hands on: its `response` string when that
      is present and not empty. */
  function ResponseOf(parse: string -> Option<Json>, line: string): (r: Option<string>)
    ensures r.Some? ==> r.value != []
  {
    match parse(line)
    case None => None
    case Some(v) =>
      match GetStr(v, "response")
      case Some(s) => if s == [] then None else Some(s)
      case None => None
  }

  /** A completed line: blank and undecodable lines yield nothing. */
  function LineChunk(parse: string -> Option<Json>, line: string): (r: Option<string>)
    ensures r.Some? ==> r.value != []
  {
    if Text.IsBlank(line) then None else ResponseOf(parse, line)
  }

  function ChunkOf(parse: string -> Option<Json>): string -> Option<string> {
    l => LineChunk(parse, l)
  }

  /** The unterminated text left at the end is trimmed and read the same
      way. */
  function FinalChunk(parse: string -> Option<Json>, tail: string): (r: Option<string>)
    ensures r.Some? ==> r.value != []
  {
    var t := Text.Trim(tail);
    if t == [] then None else ResponseOf(parse, t)
  }

  function OptionSeq(o: Option<string>): seq<string> {
    if o.Some? then [o.value] else []
  }

  /** What the callback receives for a sequence of lines, in order. */
  function Delivered(f: string -> Option<string>, lines: seq<string>): (r: seq<string>)
    ensures |r| <= |lines|
  {
    if lines == [] then []
    else Delivered(f, lines[..|lines| - 1]) + OptionSeq(f(lines[|lines| - 1]))
  }

  /** When no line yields an empty piece, no piece handed on is empty. */
  lemma {:induction false} DeliveredNonEmpty(f: string -> Option<string>, lines: seq<string>)
    requires forall l :: f(l).Some? ==> f(l).value != []
    ensures forall i :: 0 <= i < |Delivered(f, lines)| ==> Delivered(f, lines)[i] != []
  {
    if lines != [] {
      DeliveredNonEmpty(f, lines[..|lines| - 1]);
    }
  }

  /** `ChunkOf` never yields an empty piece. */
  lemma ChunkOfNonEmpty(parse: string -> Option<Json>)
    ensures forall l :: ChunkOf(parse)(l).Some? ==> ChunkOf(parse)(l).value != []
  {
    forall l | ChunkOf(parse)(l).Some? ensures ChunkOf(parse)(l).value != [] {
      assert ChunkOf(parse)(l) == LineChunk(parse, l);
    }
  }

  /** The end of the streamed call, once the stream has been read: on a
      transport error the pending text is not read; otherwise its piece,
      if any, comes last. */
  function StreamEnd(failed: Option<string>, delivered: seq<string>, last: Option<string>)
    : (out: (Result<(), string>, seq<string>))
    ensures out.0.Ok? <==> failed.None?
    ensures out.1 == delivered || (failed.None? && last.Some? && out.1 == delivered + [last.value])
  {
    match failed
    case Some(e) => (Err("stream error: " + e), delivered)
    case None => (Ok(()), delivered + OptionSeq(last))
  }

  /** The outcome of `generate_streaming`: the result and the pieces
      passed to the callback, in order. After a transport error the
      pending text is not read. */
  function StreamSpec(reply: Http.StreamReply, parse: string -> Option<Json>)
    : (out: (Result<(), string>, seq<string>))
  {
    match reply
    case StreamSendFailed(e) => (Err("ollama request failed: " + e), [])
    case StreamResponse(status, _, chunks) =>
      match StatusError(status)
      case Some(e) => (Err(e), [])
      case None =>
        var all := Text.Concat(Http.Received(chunks));
        StreamEnd(Http.StreamError(chunks), Delivered(ChunkOf(parse), LineSplit.Lines(all)),
                  FinalChunk(parse, LineSplit.Tail(all)))
  }

  /** The streamed call succeeds exactly when the request is sent, the
      status is a success and no chunk fails; nothing is handed on before
      the status is accepted; every piece is non-empty. */
  lemma StreamOutcome(reply: Http.StreamReply, parse: string -> Option<Json>)
    ensures var out := StreamSpec(reply, parse);
      && (out.0.Ok? <==> reply.StreamResponse? && Http.IsSuccess(reply.status)
                         && Http.StreamError(reply.chunks).None?)
      && (out.1 != [] ==> reply.StreamResponse? && Http.IsSuccess(reply.status))
      && (forall i :: 0 <= i < |out.1| ==> out.1[i] != [])
  {
    if reply.StreamResponse? && Http.IsSuccess(reply.status) {
      var all := Text.Concat(Http.Received(reply.chunks));
      ChunkOfNonEmpty(parse);
      DeliveredNonEmpty(ChunkOf(parse), LineSplit.Lines(all));
      var d := Delivered(ChunkOf(parse), LineSplit.Lines(all));
      var last := FinalChunk(parse, LineSplit.Tail(all));
      var out := StreamEnd(Http.StreamError(reply.chunks), d, last);
      if out.1 != d {
        assert forall i :: 0 <= i < |out.1| ==> out.1[i] == if i < |d| then d[i] else last.value;
      }
    }
  }

  /** `generate_streaming`: the request sent (streamed), the result, and
      the pieces passed to `on_chunk`. */
  method GenerateStreaming(model: Option<string>, prompt: string, settings: Settings,
                           reply: Http.StreamReply, parse: string -> Option<Json>)
    returns (req: GenerateRequest, r: Result<(), string>, delivered: seq<string>)
    ensures req == Request(model, prompt, settings, true)
    ensures (r, delivered) == StreamSpec(reply, parse)
  {
    req := Request(model, prompt, settings, true);
    if reply.StreamSendFailed? {
      return req, Err("ollama request failed: " + reply.err), [];
    }
    var bad := StatusError(reply.status);
    if bad.Some? {
      return req, Err(bad.value), [];
    }
    var buf, failed;
    delivered, buf, failed := ReadChunks(reply.chunks, ChunkOf(parse));
    ghost var delivered0 := delivered;
    if failed.Some? {
      return req, Err("stream error: " + failed.value), delivered;
    }
    var last := FinalChunk(parse, buf);
    if last.Some? {
      delivered := delivered + [last.value];
    }
    r := Ok(());
    assert (r, delivered) == StreamEnd(failed, delivered0, last);
  }

  /** The chunk loop: append the chunk to `buf`, hand on the pieces of
      the completed lines, keep the unterminated text. */
  method ReadChunks(chunks: seq<Http.Chunk>, f: string -> Option<string>)
    returns (delivered: seq<string>, buf: string, failed: Option<string>)
    ensures var all := Text.Concat(Http.Received(chunks));
      && delivered == Delivered(f, LineSplit.Lines(all))
      && buf == LineSplit.Tail(all)
    ensures failed == Http.StreamError(chunks)
  {
    ghost var received := Http.Received(chunks);
    delivered, buf := [], [];
    var j := 0;
    while j < |chunks|
      invariant j <= |received|
      invariant buf == LineSplit.Tail(Text.Concat(received[..j]))
      invariant delivered == Delivered(f, LineSplit.Lines(Text.Concat(received[..j])))
    {
      if chunks[j].ChunkFailed? {
        assert j == |received|;
        assert received[..j] == received;
        return delivered, buf, Some(chunks[j].err);
      }
      var text := chunks[j].text;
      LineSplit.ChunkStep(received, j, text);
      var lines, rest := LineSplit.ScanLines(buf + text);
      delivered := DeliverLines(f, LineSplit.Lines(Text.Concat(received[..j])), lines, delivered);
      buf := rest;
      j := j + 1;
    }
    assert j == |received| && received[..j] == received;
    failed := None;
  }

  /** The line loop: the piece of each completed line, if any, in order. */
  method DeliverLines(f: string -> Option<string>, ghost seen: seq<string>, lines: seq<string>,
                      delivered0: seq<string>)
    returns (delivered: seq<string>)
    requires delivered0 == Delivered(f, seen)
    ensures delivered == Delivered(f, seen + lines)
  {
    delivered := delivered0;
    var k := 0;
    assert seen + lines[..0] == seen;
    while k < |lines|
      invariant k <= |lines|
      invariant delivered == Delivered(f, seen + lines[..k])
    {
      var line := lines[k];
      var piece := f(line);
      assert seen + lines[..k + 1] == (seen + lines[..k]) + [line];
      if piece.Some? {
        delivered := delivered + [piece.value];
      }
      k := k + 1;
    }
    assert lines[..k] == lines;
  }

  // ----- health and model list -----

  /** `OllamaHealth`. */
  datatype Health = Health(ok: bool, message: Option<string>, models: Option<seq<string>>)

  /** The reply to `GET /api/tags`: the body is decoded into the optional
      list of models, each with an optional name, or fails to decode. */
  datatype TagsReply =
    | TagsSendFailed(err: string)
    | TagsResponse(status: Http.Status, body: Result<Option<seq<Option<string>>>, string>)

  /** The names present, in order. */
  function Names(ms: seq<Option<string>>): (r: seq<string>)
    ensures |r| <= |ms|
    ensures forall i :: 0 <= i < |r| ==> Some(r[i]) in ms
  {
    if ms == [] then []
    else if ms[0].Some? then [ms[0].value] + Names(ms[1..])
    else Names(ms[1..])
  }

  /** Every name present is listed: `Names` loses nothing. */
  lemma {:induction false} NamesComplete(ms: seq<Option<string>>)
    ensures forall i :: 0 <= i < |ms| && ms[i].Some? ==> ms[i].value in Names(ms)
    ensures |Names(ms)| == |ms| <==> forall i :: 0 <= i < |ms| ==> ms[i].Some?
  {
    if ms != [] {
      NamesComplete(ms[1..]);
      assert forall i :: 1 <= i < |ms| ==> ms[i] == ms[1..][i - 1];
    }
  }

  /** `check_health`: a failed send or a failure status is a health report
      with `ok` false and a message; only a body that does not decode is
      an error. */
  function CheckHealth(reply: TagsReply): (r: Result<Health, string>)
    ensures r.Err? <==> reply.TagsResponse? && Http.IsSuccess(reply.status) && reply.body.Err?
    ensures r.Ok? ==> (r.value.ok <==> r.value.models.Some?) && (r.value.ok <==> r.value.message.None?)
    ensures r.Ok? && r.value.ok ==> reply.TagsResponse? && Http.IsSuccess(reply.status)
    ensures reply.TagsSendFailed? ==> r == Ok(Health(false, Some(reply.err), None))
    ensures reply.TagsResponse? && !Http.IsSuccess(reply.status)
      ==> r == Ok(Health(false, Some("HTTP " + Http.Display(reply.status)), None))
    ensures reply.TagsResponse? && Http.IsSuccess(reply.status) && reply.body.Ok?
      ==> r == Ok(Health(true, None, Some(Names(reply.body.value.GetOr([])))))
    ensures reply.TagsResponse? && Http.IsSuccess(reply.status) && reply.body.Err?
      ==> r == Err(reply.body.error)
  {
    match reply
    case TagsSendFailed(e) => Ok(Health(false, Some(e), None))
    case TagsResponse(status, body) =>
      if Http.IsSuccess(status) then
        match body
        case Err(e) => Err(e)
        case Ok(models) => Ok(Health(true, None, Some(Names(models.GetOr([])))))
      else Ok(Health(false, Some("HTTP " + Http.Display(status)), None))
  }

  /** `list_models`: the model names of a healthy server, else none. */
  function ListModels(reply: TagsReply): (r: Result<seq<string>, string>)
    ensures r.Err? <==> CheckHealth(reply).Err?
    ensures r.Ok? && r.value != [] ==> CheckHealth(reply).value.ok
    ensures r.Ok? && CheckHealth(reply).value.ok ==> Some(r.value) == CheckHealth(reply).value.models
  {
    match CheckHealth(reply)
    case Err(e) => Err(e)
    case Ok(h) => Ok(h.models.GetOr([]))
  }
}
