/** The Gemini image client: the streamed request with its line parser
    and synthetic progress, the non-streaming request, the fallback
    between them, the prompt and request helpers, and the nano-banana
    renderer's request and reply handling. Replies are given as data. */
module Gemini {
  import opened Wrappers
  import opened Bytes
  import Text
  import opened Json
  import Base64
  import LineSplit
  import Http
  import Paths
  import opened Settings
  import opened GeminiSearch

  /** One `on_progress(completed, total)` call. */
  datatype Tick = Tick(completed: nat, total: nat)

  /** The total every report carries. */
  const Total: nat := 100

  /** The API key: from the settings, else from `GEMINI_API_KEY` (the
      environment is a parameter). */
  function ApiKey(settings: Settings, envKey: Option<string>): (r: Option<string>)
    ensures r.None? <==> settings.geminiApiKey.None? && envKey.None?
  {
    settings.geminiApiKey.Or(envKey)
  }

  // ----- the stream's lines -----

  /** `line.strip_prefix("data: ")`, or the line itself. */
  function StripData(line: string): (r: string)
    ensures Text.StartsWith(line, "data: ") ==> line == "data: " + r
    ensures !Text.StartsWith(line, "data: ") ==> r == line
  {
    match Text.StripPrefix(line, "data: ")
    case Some(rest) => rest
    case None => line
  }

  /** The JSON a stream line carries: nothing for a blank line or one that
      does not parse; a leading "data: " is dropped before parsing.
      `parse` stands for `serde_json::from_str`. */
  function LineJson(parse: string -> Option<Json>, line: string): Option<Json> {
    if Text.IsBlank(line) then None else parse(StripData(line))
  }

  /** The inline payload one line yields. */
  function LineImage(parse: string -> Option<Json>, line: string): Option<string> {
    match LineJson(parse, line)
    case Some(j) => FindImageData(j)
    case None => None
  }

  /** The http(s) URI one line yields. */
  function LineHttp(parse: string -> Option<Json>, line: string): Option<string> {
    match LineJson(parse, line)
    case Some(j) => FindHttpUri(j)
    case None => None
  }

  /** The hit of the last line that has one. */
  function LastHit(f: string -> Option<string>, lines: seq<string>): Option<string> {
    if lines == [] then None
    else f(lines[|lines| - 1]).Or(LastHit(f, lines[..|lines| - 1]))
  }

  /** The hit of the first line that has one. */
  function FirstHit(f: string -> Option<string>, lines: seq<string>): Option<string> {
    if lines == [] then None
    else FirstHit(f, lines[..|lines| - 1]).Or(f(lines[|lines| - 1]))
  }

  /** The payload of the last line that has one (a later line replaces
      the candidate). */
  function LatestImage(parse: string -> Option<Json>, lines: seq<string>): Option<string> {
    LastHit(ImageOf(parse), lines)
  }

  /** The URI of the first line that has one (a candidate is kept). */
  function FirstHttp(parse: string -> Option<Json>, lines: seq<string>): Option<string> {
    FirstHit(HttpOf(parse), lines)
  }

  function ImageOf(parse: string -> Option<Json>): string -> Option<string> {
    l => LineImage(parse, l)
  }

  function HttpOf(parse: string -> Option<Json>): string -> Option<string> {
    l => LineHttp(parse, l)
  }

  /** Handling one more line. */
  lemma HitStep(f: string -> Option<string>, seen: seq<string>, line: string)
    ensures LastHit(f, seen + [line]) == f(line).Or(LastHit(f, seen))
    ensures FirstHit(f, seen + [line]) == FirstHit(f, seen).Or(f(line))
  {
    assert (seen + [line])[..|seen|] == seen;
  }

  /** `LastHit` is latest-wins: its value comes from some line, and no
      later line has a hit; it is `None` exactly when no line has one. */
  lemma {:induction false} LastHitIsLast(f: string -> Option<string>, lines: seq<string>)
    ensures LastHit(f, lines).Some? ==>
              exists i :: 0 <= i < |lines| && f(lines[i]) == LastHit(f, lines)
                          && forall j :: i < j < |lines| ==> f(lines[j]).None?
    ensures LastHit(f, lines).None? <==> forall i :: 0 <= i < |lines| ==> f(lines[i]).None?
  {
    if lines != [] {
      var n := |lines| - 1;
      var init := lines[..n];
      var r := LastHit(f, lines);
      LastHitIsLast(f, init);
      if f(lines[n]).Some? {
        assert f(lines[n]) == r;
      } else {
        assert r == LastHit(f, init);
        if r.Some? {
          var i :| 0 <= i < |init| && f(init[i]) == r
                   && forall j :: i < j < |init| ==> f(init[j]).None?;
          assert lines[i] == init[i];
          forall j | i < j < |lines|
            ensures f(lines[j]).None?
          {
            if j < n { assert lines[j] == init[j]; }
          }
        } else {
          forall i | 0 <= i < |lines|
            ensures f(lines[i]).None?
          {
            if i < n { assert lines[i] == init[i]; }
          }
        }
      }
    }
  }

  /** `FirstHit` is first-wins: its value comes from some line, and no
      earlier line has a hit; it is `None` exactly when no line has one. */
  lemma {:induction false} FirstHitIsFirst(f: string -> Option<string>, lines: seq<string>)
    ensures FirstHit(f, lines).Some? ==>
              exists i :: 0 <= i < |lines| && f(lines[i]) == FirstHit(f, lines)
                          && forall j :: 0 <= j < i ==> f(lines[j]).None?
    ensures FirstHit(f, lines).None? <==> forall i :: 0 <= i < |lines| ==> f(lines[i]).None?
  {
    if lines != [] {
      var n := |lines| - 1;
      var init := lines[..n];
      var r := FirstHit(f, lines);
      FirstHitIsFirst(f, init);
      if FirstHit(f, init).Some? {
        assert r == FirstHit(f, init);
        var i :| 0 <= i < |init| && f(init[i]) == r
                 && forall j :: 0 <= j < i ==> f(init[j]).None?;
        assert lines[i] == init[i];
        forall j | 0 <= j < i
          ensures f(lines[j]).None?
        {
          assert lines[j] == init[j];
        }
      } else {
        assert r == f(lines[n]);
        forall i | 0 <= i < n
          ensures f(lines[i]).None?
        {
          assert lines[i] == init[i];
        }
      }
    }
  }

  // ----- synthetic progress -----

  /** The progress value after `n` processed lines: 1, then 2 more per
      line while it is below 98. */
  function Progress(n: nat): nat {
    if n == 0 then 1
    else var p := Progress(n - 1); if p < 98 then p + 2 else p
  }

  /** The reports made up to and including the `n`th processed line. */
  function LineTicks(n: nat): (r: seq<Tick>)
    ensures |r| >= 1
  {
    if n == 0 then [Tick(1, Total)]
    else
      var p := Progress(n - 1);
      LineTicks(n - 1) + (if p < 98 then [Tick(p + 2, Total)] else [])
  }

  /** Progress climbs by two from 1 and stops at 99. */
  lemma {:induction false} ProgressValue(n: nat)
    ensures Progress(n) == if 1 + 2 * n < 99 then 1 + 2 * n else 99
  {
    if n > 0 {
      ProgressValue(n - 1);
    }
  }

  /** The line reports start at 1, are odd, strictly increase, never pass
      99, carry the total 100, and end with the current progress. */
  lemma {:induction false} LineTicksShape(n: nat)
    ensures LineTicks(n)[0] == Tick(1, Total)
    ensures LineTicks(n)[|LineTicks(n)| - 1].completed == Progress(n)
    ensures forall i :: 0 <= i < |LineTicks(n)| ==>
              LineTicks(n)[i].total == Total && LineTicks(n)[i].completed % 2 == 1
              && LineTicks(n)[i].completed <= Progress(n)
    ensures forall i, j :: 0 <= i < j < |LineTicks(n)| ==>
              LineTicks(n)[i].completed < LineTicks(n)[j].completed
  {
    if n > 0 {
      LineTicksShape(n - 1);
      ProgressValue(n - 1);
      ProgressValue(n);
      var t := LineTicks(n - 1);
      var p := Progress(n - 1);
      if p < 98 {
        var u := LineTicks(n);
        assert u == t + [Tick(p + 2, Total)];
        assert forall i :: 0 <= i < |t| ==> u[i] == t[i];
      } else {
        assert LineTicks(n) == t;
      }
    }
  }

  /** Every line report is odd and at most 99. */
  lemma LineTicksBounded(n: nat)
    ensures forall i :: 0 <= i < |LineTicks(n)| ==>
              LineTicks(n)[i].completed % 2 == 1 && LineTicks(n)[i].completed <= 99
  {
    LineTicksShape(n);
    ProgressValue(n);
  }

  // ----- the streamed request -----

  /** The outcome of the streamed request: the result and every progress
      report made, in order. The lines are those of the whole text
      received before any transport error, however it was chunked. */
  function StreamSpec(settings: Settings, envKey: Option<string>, reply: Http.StreamReply,
                      fetch: string -> Http.Fetch, parse: string -> Option<Json>)
    : (Result<string, string>, seq<Tick>)
  {
    if ApiKey(settings, envKey).None? then (Err("Gemini API key not set"), [])
    else
      match reply
      case StreamSendFailed(_) => (Err("gemini image request failed"), [])
      case StreamResponse(status, errorBody, chunks) =>
        if !Http.IsSuccess(status) then
          (Err("gemini image error: HTTP " + Http.Display(status) + " - " + Http.ErrorBody(errorBody)), [])
        else
          var lines := LineSplit.Lines(Text.Concat(Http.Received(chunks)));
          var ticks := LineTicks(|lines|);
          match Http.StreamError(chunks)
          case Some(e) => (Err("gemini stream error: " + e), ticks)
          case None =>
            Finish(LatestImage(parse, lines), FirstHttp(parse, lines), fetch, ticks + [Tick(99, Total)])
  }

  /** The end of the streamed request, once the stream is read and 99 is
      reported: the inline payload, else the fetched URI, else an error;
      100 is reported on success only. */
  function Finish(latest: Option<string>, httpUri: Option<string>, fetch: string -> Http.Fetch,
                  fin: seq<Tick>): (out: (Result<string, string>, seq<Tick>))
    ensures out.1 == fin || out.1 == fin + [Tick(100, Total)]
    ensures out.0.Ok? <==> out.1 == fin + [Tick(100, Total)]
    ensures latest.Some? ==> out.0 == Ok(latest.value)
    ensures out.0.Ok? && latest.None? ==> httpUri.Some? && fetch(httpUri.value).Fetched?
    ensures latest.None? && httpUri.None? ==> out.0 == Err("gemini stream: no image data received")
    ensures latest.None? && httpUri.Some? && fetch(httpUri.value).Fetched?
            ==> out.0 == Ok(Base64.Encode(fetch(httpUri.value).bytes))
    ensures latest.None? && httpUri.Some? && fetch(httpUri.value).FetchSendFailed?
            ==> out.0 == Err("gemini stream: fetch uri failed: " + fetch(httpUri.value).err)
    ensures latest.None? && httpUri.Some? && fetch(httpUri.value).FetchReadFailed?
            ==> out.0 == Err("gemini stream: read uri bytes failed: " + fetch(httpUri.value).err)
  {
    match latest
    case Some(b64) => (Ok(b64), fin + [Tick(100, Total)])
    case None =>
      match httpUri
      case None => (Err("gemini stream: no image data received"), fin)
      case Some(uri) =>
        match fetch(uri)
        case FetchSendFailed(e) => (Err("gemini stream: fetch uri failed: " + e), fin)
        case FetchReadFailed(e) => (Err("gemini stream: read uri bytes failed: " + e), fin)
        case Fetched(bytes) => (Ok(Base64.Encode(bytes)), fin + [Tick(100, Total)])
  }

  /** `generate_image_stream_progress`: after the key, send and status
      checks, reports 1, reads the stream, reports 99, then picks the
      inline payload, else fetches the URI, reporting 100 on success. */
  method GenerateImageStream(settings: Settings, envKey: Option<string>, reply: Http.StreamReply,
                             fetch: string -> Http.Fetch, parse: string -> Option<Json>)
    returns (r: Result<string, string>, ticks: seq<Tick>)
    ensures (r, ticks) == StreamSpec(settings, envKey, reply, fetch, parse)
  {
    if ApiKey(settings, envKey).None? {
      return Err("Gemini API key not set"), [];
    }
    if reply.StreamSendFailed? {
      return Err("gemini image request failed"), [];
    }
    if !Http.IsSuccess(reply.status) {
      return Err("gemini image error: HTTP " + Http.Display(reply.status) + " - "
                 + Http.ErrorBody(reply.errorBody)), [];
    }
    var latest, httpUri, failed;
    latest, httpUri, ticks, failed := ReadStream(reply.chunks, parse);
    if failed.Some? {
      return Err("gemini stream error: " + failed.value), ticks;
    }
    ticks := ticks + [Tick(99, Total)];
    if latest.Some? {
      return Ok(latest.value), ticks + [Tick(100, Total)];
    }
    if httpUri.None? {
      return Err("gemini stream: no image data received"), ticks;
    }
    match fetch(httpUri.value)
    case FetchSendFailed(e) => r := Err("gemini stream: fetch uri failed: " + e);
    case FetchReadFailed(e) => r := Err("gemini stream: read uri bytes failed: " + e);
    case Fetched(bytes) =>
      r := Ok(Base64.Encode(bytes));
      ticks := ticks + [Tick(100, Total)];
  }

  /** The chunk loop of `generate_image_stream_progress`: each chunk is
      appended to `buf`, the completed lines in `buf` are handled, and
      `buf` keeps only the unterminated text. A transport error stops the
      loop. */
  method ReadStream(chunks: seq<Http.Chunk>, parse: string -> Option<Json>)
    returns (latest: Option<string>, httpUri: Option<string>, ticks: seq<Tick>, failed: Option<string>)
    ensures var lines := LineSplit.Lines(Text.Concat(Http.Received(chunks)));
      && latest == LatestImage(parse, lines)
      && httpUri == FirstHttp(parse, lines)
      && ticks == LineTicks(|lines|)
    ensures failed == Http.StreamError(chunks)
  {
    ghost var received := Http.Received(chunks);
    latest, httpUri := None, None;
    var progress: nat := 1;
    ticks := [Tick(progress, Total)];
    var buf: string := [];
    var j := 0;
    while j < |chunks|
      invariant j <= |received|
      invariant buf == LineSplit.Tail(Text.Concat(received[..j]))
      invariant var seen := LineSplit.Lines(Text.Concat(received[..j]));
        && latest == LatestImage(parse, seen) && httpUri == FirstHttp(parse, seen)
        && progress == Progress(|seen|) && ticks == LineTicks(|seen|)
    {
      if chunks[j].ChunkFailed? {
        assert j == |received|;
        assert received[..j] == received;
        return latest, httpUri, ticks, Some(chunks[j].err);
      }
      var text := chunks[j].text;
      LineSplit.ChunkStep(received, j, text);
      buf := buf + text;
      var lines, rest := LineSplit.ScanLines(buf);
      latest, httpUri, progress, ticks :=
        HandleLines(ImageOf(parse), HttpOf(parse), LineSplit.Lines(Text.Concat(received[..j])), lines,
                    latest, httpUri, progress, ticks);
      buf := rest;
      j := j + 1;
    }
    assert j == |received| && received[..j] == received;
    failed := None;
  }

  /** The line loop: for each completed line, in order, a payload
      replaces the candidate, a URI is taken only while none is held, and
      progress moves by two (with a report) while below 98. What a line
      yields is given by `imageOf` and `httpOf`. */
  method HandleLines(imageOf: string -> Option<string>, httpOf: string -> Option<string>,
                     ghost seen: seq<string>, lines: seq<string>,
                     latest0: Option<string>, httpUri0: Option<string>, progress0: nat, ticks0: seq<Tick>)
    returns (latest: Option<string>, httpUri: Option<string>, progress: nat, ticks: seq<Tick>)
    requires latest0 == LastHit(imageOf, seen) && httpUri0 == FirstHit(httpOf, seen)
    requires progress0 == Progress(|seen|) && ticks0 == LineTicks(|seen|)
    ensures latest == LastHit(imageOf, seen + lines) && httpUri == FirstHit(httpOf, seen + lines)
    ensures progress == Progress(|seen + lines|) && ticks == LineTicks(|seen + lines|)
  {
    latest, httpUri, progress, ticks := latest0, httpUri0, progress0, ticks0;
    var k := 0;
    assert seen + lines[..0] == seen;
    while k < |lines|
      invariant k <= |lines|
      invariant latest == LastHit(imageOf, seen + lines[..k])
      invariant httpUri == FirstHit(httpOf, seen + lines[..k])
      invariant progress == Progress(|seen| + k) && ticks == LineTicks(|seen| + k)
    {
      var line := lines[k];
      assert seen + lines[..k + 1] == (seen + lines[..k]) + [line];
      HitStep(imageOf, seen + lines[..k], line);
      HitStep(httpOf, seen + lines[..k], line);
      var hit := imageOf(line);
      if hit.Some? {
        latest := hit;
      }
      if httpUri.None? {
        httpUri := httpOf(line);
      }
      if progress < 98 {
        progress := progress + 2;
        ticks := ticks + [Tick(progress, Total)];
      }
      k := k + 1;
    }
    assert lines[..k] == lines;
  }


  /** A well-formed report sequence: total 100, values between 1 and
      100, never going down. */
  predicate Rising(ts: seq<Tick>) {
    && (forall i :: 0 <= i < |ts| ==> ts[i].total == Total && 1 <= ts[i].completed <= 100)
    && (forall i, j :: 0 <= i < j < |ts| ==> ts[i].completed <= ts[j].completed)
  }

  lemma LineTicksRising(n: nat)
    ensures Rising(LineTicks(n))
    ensures forall i :: 0 <= i < |LineTicks(n)| ==> LineTicks(n)[i].completed <= 99
  {
    LineTicksShape(n);
    LineTicksBounded(n);
  }

  /** Appending a report no smaller than any before keeps a sequence rising. */
  lemma RisingSnoc(ts: seq<Tick>, c: nat)
    requires Rising(ts) && 1 <= c <= 100
    requires forall i :: 0 <= i < |ts| ==> ts[i].completed <= c
    ensures Rising(ts + [Tick(c, Total)])
  {
    var u := ts + [Tick(c, Total)];
    assert forall i :: 0 <= i < |ts| ==> u[i] == ts[i];
  }

  /** The reports of the streamed request: they start at 1, never go
      down, carry the total 100, and end at 100 exactly when the request
      succeeds. */
  lemma StreamTicks(settings: Settings, envKey: Option<string>, reply: Http.StreamReply,
                    fetch: string -> Http.Fetch, parse: string -> Option<Json>)
    ensures var out := StreamSpec(settings, envKey, reply, fetch, parse);
      && (out.0.Ok? <==> |out.1| > 0 && out.1[|out.1| - 1] == Tick(100, Total))
      && (|out.1| > 0 ==> out.1[0] == Tick(1, Total))
      && Rising(out.1)
  {
    var out := StreamSpec(settings, envKey, reply, fetch, parse);
    if reply.StreamResponse? && ApiKey(settings, envKey).Some? && Http.IsSuccess(reply.status) {
      var lines := LineSplit.Lines(Text.Concat(Http.Received(reply.chunks)));
      var t := LineTicks(|lines|);
      LineTicksShape(|lines|);
      LineTicksRising(|lines|);
      if Http.StreamError(reply.chunks).None? {
        var fin := t + [Tick(99, Total)];
        RisingSnoc(t, 99);
        assert fin[0] == t[0];
        var f := Finish(LatestImage(parse, lines), FirstHttp(parse, lines), fetch, fin);
        assert out == f;
        if f.0.Ok? {
          RisingSnoc(fin, 100);
          assert f.1[0] == t[0];
        }
      }
    }
  }

  /** An inline payload is returned as it is, and no URI is fetched:
      the fetch outcome does not matter. */
  lemma StreamInlineFirst(settings: Settings, envKey: Option<string>, reply: Http.StreamReply,
                          fetch1: string -> Http.Fetch, fetch2: string -> Http.Fetch,
                          parse: string -> Option<Json>)
    requires ApiKey(settings, envKey).Some? && reply.StreamResponse? && Http.IsSuccess(reply.status)
    requires Http.StreamError(reply.chunks).None?
    requires LatestImage(parse, LineSplit.Lines(Text.Concat(Http.Received(reply.chunks)))).Some?
    ensures StreamSpec(settings, envKey, reply, fetch1, parse).0
            == Ok(LatestImage(parse, LineSplit.Lines(Text.Concat(Http.Received(reply.chunks)))).value)
    ensures StreamSpec(settings, envKey, reply, fetch1, parse) == StreamSpec(settings, envKey, reply, fetch2, parse)
  {
  }

  // ----- the non-streaming request and the fallback -----

  /** `generate_image_once`: the same checks, then the whole reply as
      JSON; an inline payload, else a fetched http(s) URI, else an error. */
  function GenerateImageOnce(settings: Settings, envKey: Option<string>, reply: Http.JsonReply,
                             fetch: string -> Http.Fetch): (r: Result<string, string>)
    ensures r.Ok? ==> reply.JsonResponse? && reply.body.Ok?
    ensures ApiKey(settings, envKey).None? ==> r == Err("Gemini API key not set")
    ensures ApiKey(settings, envKey).Some? && reply.JsonSendFailed?
            ==> r == Err("gemini image request failed")
    ensures ApiKey(settings, envKey).Some? && reply.JsonResponse? && !Http.IsSuccess(reply.status)
            ==> r == Err("gemini image error: HTTP " + Http.Display(reply.status) + " - "
                         + Http.ErrorBody(reply.errorBody))
    ensures ApiKey(settings, envKey).Some? && reply.JsonResponse? && Http.IsSuccess(reply.status)
            && reply.body.Err?
            ==> r == Err("gemini image parse error")
    ensures reply.JsonResponse? && Http.IsSuccess(reply.status) && reply.body.Ok?
            && FindImageData(reply.body.value).Some? && ApiKey(settings, envKey).Some?
            ==> r == Ok(FindImageData(reply.body.value).value)
    ensures ApiKey(settings, envKey).Some? && reply.JsonResponse? && Http.IsSuccess(reply.status)
            && reply.body.Ok? && FindImageData(reply.body.value).None?
            ==> match FindHttpUri(reply.body.value)
                case None => r == Err("gemini image: no inline image data in response")
                case Some(uri) =>
                  match fetch(uri)
                  case FetchSendFailed(e) => r == Err("gemini once: fetch uri failed: " + e)
                  case FetchReadFailed(e) => r == Err("gemini once: read uri bytes failed: " + e)
                  case Fetched(bytes) => r == Ok(Base64.Encode(bytes))
  {
    if ApiKey(settings, envKey).None? then Err("Gemini API key not set")
    else
      match reply
      case JsonSendFailed(_) => Err("gemini image request failed")
      case JsonResponse(status, errorBody, body) =>
        if !Http.IsSuccess(status) then
          Err("gemini image error: HTTP " + Http.Display(status) + " - " + Http.ErrorBody(errorBody))
        else if body.Err? then Err("gemini image parse error")
        else
          match FindImageData(body.value)
          case Some(s) => Ok(s)
          case None =>
            match FindHttpUri(body.value)
            case None => Err("gemini image: no inline image data in response")
            case Some(uri) =>
              match fetch(uri)
              case FetchSendFailed(e) => Err("gemini once: fetch uri failed: " + e)
              case FetchReadFailed(e) => Err("gemini once: read uri bytes failed: " + e)
              case Fetched(bytes) => Ok(Base64.Encode(bytes))
  }

  /** `generate_image_with_progress`: the streamed request's result when it
      succeeds; otherwise the non-streaming request's, its error prefixed.
      The reports are those of the streamed request. */
  function WithProgress(settings: Settings, envKey: Option<string>, stream: Http.StreamReply,
                        once: Http.JsonReply, fetch: string -> Http.Fetch, fetchOnce: string -> Http.Fetch,
                        parse: string -> Option<Json>): (out: (Result<string, string>, seq<Tick>))
    ensures out.1 == StreamSpec(settings, envKey, stream, fetch, parse).1
    ensures out.0.Err? ==> Text.StartsWith(out.0.error, "gemini image failed: ")
    ensures StreamSpec(settings, envKey, stream, fetch, parse).0.Ok?
            ==> out.0 == StreamSpec(settings, envKey, stream, fetch, parse).0
    ensures StreamSpec(settings, envKey, stream, fetch, parse).0.Err?
            && GenerateImageOnce(settings, envKey, once, fetchOnce).Ok?
            ==> out.0 == GenerateImageOnce(settings, envKey, once, fetchOnce)
    ensures StreamSpec(settings, envKey, stream, fetch, parse).0.Err?
            && GenerateImageOnce(settings, envKey, once, fetchOnce).Err?
            ==> out.0 == Err("gemini image failed: " + GenerateImageOnce(settings, envKey, once, fetchOnce).error)
  {
    var (s, ticks) := StreamSpec(settings, envKey, stream, fetch, parse);
    if s.Ok? then (s, ticks)
    else
      match GenerateImageOnce(settings, envKey, once, fetchOnce)
      case Ok(b64) => (Ok(b64), ticks)
      case Err(e) => (Err("gemini image failed: " + e), ticks)
  }

  /** The streamed request's own error never reaches the caller: once
      streaming fails, only the non-streaming outcome decides. */
  lemma StreamErrorDiscarded(settings: Settings, envKey: Option<string>,
                             stream1: Http.StreamReply, stream2: Http.StreamReply,
                             once: Http.JsonReply, fetch: string -> Http.Fetch,
                             fetchOnce: string -> Http.Fetch, parse: string -> Option<Json>)
    requires StreamSpec(settings, envKey, stream1, fetch, parse).0.Err?
    requires StreamSpec(settings, envKey, stream2, fetch, parse).0.Err?
    ensures WithProgress(settings, envKey, stream1, once, fetch, fetchOnce, parse).0
            == WithProgress(settings, envKey, stream2, once, fetch, fetchOnce, parse).0
    ensures WithProgress(settings, envKey, stream1, once, fetch, fetchOnce, parse).0.Ok?
            <==> GenerateImageOnce(settings, envKey, once, fetchOnce).Ok?
    ensures WithProgress(settings, envKey, stream1, once, fetch, fetchOnce, parse).0
            == match GenerateImageOnce(settings, envKey, once, fetchOnce)
               case Ok(b64) => Ok(b64)
               case Err(e) => Err("gemini image failed: " + e)
  {
  }

  // ----- prompt and request helpers -----

  /** The guidance line appended before an avatar description. */
  const NotePrefix: string :=
    "\n\nCharacter consistency: The protagonist must match this description consistently across "

  function ConsistencyNote(subject: string): (r: string)
    ensures |r| > 0
  {
    NotePrefix + subject + ".\n"
  }

  /** Appends the note and the description when the description is set
      and not blank. */
  function WithAvatarDescription(text: string, desc: Option<string>, subject: string): (r: string)
    ensures Text.StartsWith(r, text)
    ensures r == text <==> desc.None? || Text.IsBlank(desc.value)
    ensures r != text ==> r == text + ConsistencyNote(subject) + desc.value
  {
    if desc.Some? && !Text.IsBlank(desc.value) then
      var r := text + ConsistencyNote(subject) + desc.value;
      assert r[..|text|] == text;
      r
    else text
  }

  /** `build_prompt_with_avatar_text`. */
  function BuildPromptWithAvatarText(prompt: string, settings: Settings): (r: string)
    ensures r == prompt <==> settings.avatarDescription.None? || Text.IsBlank(settings.avatarDescription.value)
    ensures r != prompt ==> r == prompt + ConsistencyNote("images") + settings.avatarDescription.value
  {
    WithAvatarDescription(prompt, settings.avatarDescription, "images")
  }

  /** The mime type of the avatar image, by its path's extension,
      compared in ASCII lower case. */
  function AvatarMime(path: string): (r: string)
    ensures r == "image/jpeg" || r == "image/webp" || r == "image/png"
    ensures Paths.Extension(path).None? ==> r == "image/png"
    ensures r == "image/jpeg"
            <==> (Paths.Extension(path).Some?
                  && (Text.AsciiLower(Paths.Extension(path).value) == "jpg"
                      || Text.AsciiLower(Paths.Extension(path).value) == "jpeg"))
    ensures r == "image/webp"
            <==> (Paths.Extension(path).Some? && Text.AsciiLower(Paths.Extension(path).value) == "webp")
  {
    match Paths.Extension(path)
    case Some(ext) =>
      var e := Text.AsciiLower(ext);
      if e == "jpg" || e == "jpeg" then "image/jpeg"
      else if e == "webp" then "image/webp"
      else "image/png"
    case None => "image/png"
  }

  /** `try_build_avatar_image_part`: the saved avatar as an inline image
      part; `read` stands for reading the file. */
  function AvatarImagePart(settings: Settings, read: string -> Option<seq<Byte>>): (r: Option<Json>)
    ensures r.Some? <==> settings.avatarImagePath.Some? && read(settings.avatarImagePath.value).Some?
  {
    if settings.avatarImagePath.None? then None
    else
      var path := settings.avatarImagePath.value;
      match read(path)
      case None => None
      case Some(bytes) =>
        Some(Obj([Field("inlineData", Obj([Field("mimeType", Str(AvatarMime(path))),
                                           Field("data", Str(Base64.Encode(bytes)))]))]))
  }

  /** The avatar part the client sends is one its own extractor reads
      back: the payload found in it is the encoded file. */
  lemma AvatarPartRoundTrip(settings: Settings, read: string -> Option<seq<Byte>>)
    requires AvatarImagePart(settings, read).Some?
    requires read(settings.avatarImagePath.value).value != []
    ensures FindImageData(AvatarImagePart(settings, read).value)
            == Some(Base64.Encode(read(settings.avatarImagePath.value).value))
  {
    var bytes := read(settings.avatarImagePath.value).value;
    var part := AvatarImagePart(settings, read).value;
    var inner := Get(part, "inlineData").value;
    assert inner == Obj([Field("mimeType", Str(AvatarMime(settings.avatarImagePath.value))),
                         Field("data", Str(Base64.Encode(bytes)))]);
    assert Lookup(inner.fields, "data") == Some(Str(Base64.Encode(bytes)));
    assert GetStr(inner, "data") == Some(Base64.Encode(bytes));
    assert Direct(Image, part) == Some(Base64.Encode(bytes));
  }

  // ----- nano-banana -----

  /** What is sent to the nano-banana renderer. */
  datatype NanoRequest = NanoRequest(url: string, storyboard: string, apiKey: Option<string>)

  /** The request `nano_banana_generate_image` sends: the base URL without
      trailing slashes plus "/generate", the storyboard with the avatar
      guidance, and the API key header when one is set. */
  function NanoBananaRequest(storyboard: string, settings: Settings): (r: Result<NanoRequest, string>)
    ensures r.Err? <==> settings.nanoBananaBaseUrl.None?
    ensures r.Err? ==> r.error == "nano-banana base URL not set in settings"
    ensures r.Ok? ==>
      var u := r.value.url;
      && Text.StartsWith(u, Text.TrimEndMatches(settings.nanoBananaBaseUrl.value, '/'))
      && u == Text.TrimEndMatches(settings.nanoBananaBaseUrl.value, '/') + "/generate"
      && Text.StartsWith(r.value.storyboard, storyboard)
      && r.value.storyboard == WithAvatarDescription(storyboard, settings.avatarDescription, "panels")
      && r.value.apiKey == settings.nanoBananaApiKey
  {
    match settings.nanoBananaBaseUrl
    case None => Err("nano-banana base URL not set in settings")
    case Some(base) =>
      Ok(NanoRequest(Text.TrimEndMatches(base, '/') + "/generate",
                     WithAvatarDescription(storyboard, settings.avatarDescription, "panels"),
                     settings.nanoBananaApiKey))
  }

  /** The request URL never has a '/' right before "/generate" unless the
      base was only slashes. */
  lemma NanoUrlSingleSlash(storyboard: string, settings: Settings)
    requires settings.nanoBananaBaseUrl.Some?
    ensures var u := NanoBananaRequest(storyboard, settings).value.url;
      && |u| >= 9 && u[|u| - 9..] == "/generate"
      && (|u| == 9 || u[|u| - 10] != '/')
  {
    var p := Text.TrimEndMatches(settings.nanoBananaBaseUrl.value, '/');
    var u := p + "/generate";
    assert u[|u| - 9..] == "/generate";
    if |p| > 0 {
      assert u[|u| - 10] == p[|p| - 1];
    }
  }

  /** How `nano_banana_generate_image` reads the reply: `image_base64`
      before `image`, both as strings. */
  function NanoBananaReply(reply: Http.JsonReply): (r: Result<string, string>)
    ensures r.Ok? <==> reply.JsonResponse? && Http.IsSuccess(reply.status) && reply.body.Ok?
                       && (GetStr(reply.body.value, "image_base64").Some?
                           || GetStr(reply.body.value, "image").Some?)
    ensures r.Ok? ==> Some(r.value) == GetStr(reply.body.value, "image_base64").Or(GetStr(reply.body.value, "image"))
  {
    match reply
    case JsonSendFailed(e) => Err("nano-banana request failed: " + e)
    case JsonResponse(status, errorBody, body) =>
      if !Http.IsSuccess(status) then
        Err("nano-banana error: HTTP " + Http.Display(status) + " - " + Http.ErrorBody(errorBody))
      else
        match body
        case Err(e) => Err("nano-banana parse error: " + e)
        case Ok(v) =>
          match GetStr(v, "image_base64")
          case Some(s) => Ok(s)
          case None =>
            match GetStr(v, "image")
            case Some(s) => Ok(s)
            case None => Err("nano-banana: no image in response")
  }

  /** `nano_banana_generate_image`: no request without a base URL. */
  function NanoBananaGenerate(storyboard: string, settings: Settings, reply: Http.JsonReply)
    : (r: Result<string, string>)
    ensures settings.nanoBananaBaseUrl.None? ==> r == Err("nano-banana base URL not set in settings")
    ensures settings.nanoBananaBaseUrl.Some? ==> r == NanoBananaReply(reply)
  {
    match NanoBananaRequest(storyboard, settings)
    case Err(e) => Err(e)
    case Ok(_) => NanoBananaReply(reply)
  }
}
