/** The comic job: from a journal entry to a storyboard (streamed from
    Ollama) to one rendered image (nano-banana or Gemini), reporting every
    step in a shared status map. Also the image byte helpers it uses. */
module Comic {
  import opened Wrappers
  import opened Bytes
  import Text
  import Base64
  import Paths
  import Http
  import opened Json
  import opened Settings
  import Ollama
  import Gemini

  // ----- image bytes -----

  /** The text after the first ',' (a `data:` URI's payload), or all of
      `s` when it has none. */
  function AfterComma(s: string): (r: string)
    ensures ',' !in s ==> r == s
    ensures ',' in s ==> exists i :: 0 <= i < |s| && s[i] == ',' && ',' !in s[..i] && r == s[i + 1..]
  {
    match Text.IndexOf(s, ',')
    case Some(i) =>
      assert forall c :: c in s[..i] ==> c != ',';
      s[i + 1..]
    case None => s
  }

  /** The decoder's own error text is not modelled; this fixed text takes
      its place after the "base64 decode: " prefix. */
  const DecodeErrorText: string := "invalid base64"

  /** `decode_base64_png`: strict standard base64 of the text after the
      first ','. */
  function DecodeBase64Png(s: string): (r: Result<seq<Byte>, string>)
    ensures r.Ok? <==> Base64.Decode(AfterComma(s)).Some?
    ensures r.Ok? ==> Base64.Encode(r.value) == AfterComma(s)
    ensures r.Err? ==> r.error == "base64 decode: " + DecodeErrorText
  {
    match Base64.Decode(AfterComma(s))
    case Some(b) => Base64.EncodeDecode(AfterComma(s)); Ok(b)
    case None => Err("base64 decode: " + DecodeErrorText)
  }

  /** A data URI with a comma-free header decodes to its payload. */
  lemma DecodeDataUri(header: string, b: seq<Byte>)
    requires ',' !in header
    ensures DecodeBase64Png(header + "," + Base64.Encode(b)) == Ok(b)
  {
    var s := header + "," + Base64.Encode(b);
    assert s[|header|] == ',';
    assert s[..|header|] == header;
    assert s[|header| + 1..] == Base64.Encode(b);
    assert Text.IndexOf(s, ',') == Some(|header|);
    Base64.DecodeEncode(b);
  }

  /** Bare base64 decodes as well. */
  lemma DecodeBare(b: seq<Byte>)
    ensures DecodeBase64Png(Base64.Encode(b)) == Ok(b)
  {
    Base64.EncodeNoComma(b);
    Base64.DecodeEncode(b);
  }

  /** The PNG signature (section 3.1 of RFC 2083). */
  const PngSignature: seq<Byte> := [0x89, 0x50, 0x4E, 0x47, 0x0D, 0x0A, 0x1A, 0x0A]
  /** The JPEG start-of-image marker and the first byte of the next one
      (ITU-T T.81, Table B.1). */
  const JpegStart: seq<Byte> := [0xFF, 0xD8, 0xFF]
  const Riff: seq<Byte> := [0x52, 0x49, 0x46, 0x46]
  const Webp: seq<Byte> := [0x57, 0x45, 0x42, 0x50]

  predicate IsPng(b: seq<Byte>) { |b| >= 8 && b[..8] == PngSignature }
  predicate IsJpeg(b: seq<Byte>) { |b| >= 3 && b[..3] == JpegStart }
  /** A RIFF container whose form type is WEBP. */
  predicate IsWebp(b: seq<Byte>) { |b| >= 12 && b[..4] == Riff && b[8..12] == Webp }

  /** The three signatures begin with different bytes. */
  lemma SignaturesExclusive(b: seq<Byte>)
    ensures !(IsPng(b) && IsJpeg(b)) && !(IsPng(b) && IsWebp(b)) && !(IsJpeg(b) && IsWebp(b))
  {
    if IsPng(b) { assert b[0] == b[..8][0] == 0x89; }
    if IsJpeg(b) { assert b[0] == b[..3][0] == 0xFF; }
    if IsWebp(b) { assert b[0] == b[..4][0] == 0x52; }
  }

  /** `guess_image_extension`: the file extension for the image format
      the leading bytes show, PNG when none matches. */
  function GuessImageExtension(b: seq<Byte>): (r: string)
    ensures r == "png" || r == "jpg" || r == "webp"
    ensures r == "jpg" <==> IsJpeg(b)
    ensures r == "webp" <==> IsWebp(b)
  {
    SignaturesExclusive(b);
    if IsPng(b) then "png"
    else if IsJpeg(b) then "jpg"
    else if IsWebp(b) then "webp"
    else "png"
  }

  /** Whatever follows a signature, the format is recognised. */
  lemma GuessBySignature(rest: seq<Byte>, size: seq<Byte>)
    requires |size| == 4
    ensures GuessImageExtension(PngSignature + rest) == "png"
    ensures GuessImageExtension(JpegStart + rest) == "jpg"
    ensures GuessImageExtension(Riff + size + Webp + rest) == "webp"
  {
    var p, j, w := PngSignature + rest, JpegStart + rest, Riff + size + Webp + rest;
    assert p[..8] == PngSignature;
    assert j[..3] == JpegStart;
    assert w[..4] == Riff && w[8..12] == Webp;
    SignaturesExclusive(p);
  }

  /** `<dir>/images/<entry>`, where an entry's images are kept. */
  function ImagesDir(dataDir: string, entryId: string): string {
    Paths.Join(Paths.Join(dataDir, "images"), entryId)
  }

  /** `save_image_to_disk`: decodes the payload and writes it as
      `<panel>.png` in the entry's image directory, whatever its format;
      `fsError` is the outcome of creating the directory and writing. */
  function SaveImageToDisk(dataDir: string, b64: string, entryId: string, panelId: string,
                           fsError: Option<string>): (r: Result<string, string>)
    ensures r.Ok? <==> DecodeBase64Png(b64).Ok? && fsError.None?
    ensures r.Ok? ==> Text.StartsWith(r.value, ImagesDir(dataDir, entryId) + "/")
    ensures r.Ok? ==> r.value[|ImagesDir(dataDir, entryId)| + 1..] == panelId + ".png"
  {
    match DecodeBase64Png(b64)
    case Err(e) => Err(e)
    case Ok(_) =>
      if fsError.Some? then Err(fsError.value)
      else
        var dir := ImagesDir(dataDir, entryId);
        var p := Paths.Join(dir, panelId + ".png");
        assert p[|dir| + 1..] == panelId + ".png";
        Ok(p)
  }

  // ----- job status -----

  datatype ComicStage =
    | Queued
    | Parsing
    | Storyboarding
    | Prompting
    | Rendering(completed: nat, total: nat)
    | Saving
    | Done
    | Failed(error: string)

  datatype ComicJobStatus = ComicJobStatus(
    jobId: string,
    entryId: string,
    style: string,
    stage: ComicStage,
    updatedAt: string,
    resultImagePath: Option<string>,
    storyboardText: Option<string>)

  /** What one status write of the job says beyond the job's identity and
      the time. */
  datatype Write = Write(stage: ComicStage, resultImagePath: Option<string>, storyboardText: Option<string>)

  /** The status stored for a write: the job's own ids and style, and the
      time of the write. */
  function Stamp(jobId: string, entryId: string, style: string, w: Write, at: string): (s: ComicJobStatus)
    ensures s.jobId == jobId && s.entryId == entryId && s.style == style && s.updatedAt == at
    ensures s.stage == w.stage && s.resultImagePath == w.resultImagePath && s.storyboardText == w.storyboardText
  {
    ComicJobStatus(jobId, entryId, style, w.stage, at, w.resultImagePath, w.storyboardText)
  }

  /** The shared status map, keyed by job id. */
  class ComicStatusMap {
    var entries: map<string, ComicJobStatus>

    constructor ()
      ensures entries == map[]
    {
      entries := map[];
    }

    /** `insert`: adds or replaces the status under `key`. */
    method Insert(key: string, s: ComicJobStatus)
      modifies this
      ensures entries == old(entries)[key := s]
    {
      entries := entries[key := s];
    }

    /** `get(..).cloned()`. */
    function Get(key: string): (r: Option<ComicJobStatus>)
      reads this
      ensures r.Some? <==> key in entries
      ensures r.Some? ==> r.value == entries[key]
    {
      if key in entries then Some(entries[key]) else None
    }
  }

  // ----- the job's writes, as a specification -----

  /** The scripted outcomes of everything the job waits on. */
  datatype Outcomes = Outcomes(
    entryBody: Result<string, string>,
    ollama: Http.StreamReply,
    nano: Http.JsonReply,
    geminiStream: Http.StreamReply,
    geminiOnce: Http.JsonReply,
    fetch: string -> Http.Fetch,
    fetchOnce: string -> Http.Fetch)

  /** The image step: nano-banana alone when its base URL is set (no
      progress reports), the Gemini chain with progress otherwise. */
  function ImageOutcome(settings: Settings, envKey: Option<string>, out: Outcomes,
                        parse: string -> Option<Json>, sb: string): (r: (Result<string, string>, seq<Gemini.Tick>))
    ensures settings.nanoBananaBaseUrl.Some? ==> r.1 == []
    ensures settings.nanoBananaBaseUrl.Some? ==> r.0 == Gemini.NanoBananaReply(out.nano)
  {
    if settings.nanoBananaBaseUrl.Some? then (Gemini.NanoBananaGenerate(sb, settings, out.nano), [])
    else Gemini.WithProgress(settings, envKey, out.geminiStream, out.geminiOnce, out.fetch, out.fetchOnce, parse)
  }

  /** The progress reports that get written: those above the last one
      written that are multiples of 5, starting from 0. */
  function Throttle(ticks: seq<Gemini.Tick>, last: nat): (r: seq<Gemini.Tick>)
  {
    if ticks == [] then []
    else if ticks[0].completed > last && ticks[0].completed % 5 == 0 then
      [ticks[0]] + Throttle(ticks[1..], ticks[0].completed)
    else Throttle(ticks[1..], last)
  }

  /** One Prompting write per storyboard piece, each holding the text so
      far. */
  function PromptWrites(pieces: seq<string>): (r: seq<Write>)
    ensures |r| == |pieces|
  {
    if pieces == [] then []
    else PromptWrites(pieces[..|pieces| - 1]) + [Write(Prompting, None, Some(Text.Concat(pieces)))]
  }

  /** One Rendering write per kept report. */
  function RenderWrites(kept: seq<Gemini.Tick>, sb: string): (r: seq<Write>)
    ensures |r| == |kept|
  {
    if kept == [] then []
    else [Write(Rendering(kept[0].completed, kept[0].total), None, Some(sb))] + RenderWrites(kept[1..], sb)
  }

  /** The path of the result image. */
  function ResultPath(imagesDir: string, jobId: string, ext: string): string {
    Paths.Join(imagesDir, jobId + "-result." + ext)
  }

  /** The writes after the image step. */
  function FinishWrites(image: Result<string, string>, sb: string, imagesDir: string, jobId: string)
    : (r: seq<Write>)
    ensures 1 <= |r| <= 2
  {
    match image
    case Err(e) => [Write(Failed("image generation failed: " + e), None, Some(sb))]
    case Ok(b64) =>
      match DecodeBase64Png(b64)
      case Err(e) => [Write(Failed("image decode failed: " + e), None, Some(sb))]
      case Ok(bytes) =>
        var p := ResultPath(imagesDir, jobId, GuessImageExtension(bytes));
        [Write(Saving, Some(p), Some(sb)), Write(Done, Some(p), Some(sb))]
  }

  /** The writes once the storyboard stream has ended. */
  function AfterPrompt(res: Result<(), string>, sb: string, image: (Result<string, string>, seq<Gemini.Tick>),
                       imagesDir: string, jobId: string): (r: seq<Write>)
  {
    match res
    case Err(e) => [Write(Failed("ollama prompting failed: " + e), None, None)]
    case Ok(_) =>
      [Write(Rendering(1, 1), None, Some(sb))] + RenderWrites(Throttle(image.1, 0), sb)
      + FinishWrites(image.0, sb, imagesDir, jobId)
  }

  /** The writes once the entry body has been loaded. */
  function AfterLoad(body: Result<string, string>, ollama: (Result<(), string>, seq<string>),
                     image: (Result<string, string>, seq<Gemini.Tick>), imagesDir: string, jobId: string)
    : (r: seq<Write>)
  {
    match body
    case Err(e) => [Write(Failed("load entry failed: " + e), None, None)]
    case Ok(_) =>
      [Write(Prompting, None, None)] + PromptWrites(ollama.1)
      + AfterPrompt(ollama.0, Text.Concat(ollama.1), image, imagesDir, jobId)
  }

  /** Every write the job makes, in order. */
  function ComicWrites(body: Result<string, string>, ollama: (Result<(), string>, seq<string>),
                       image: (Result<string, string>, seq<Gemini.Tick>), dataRoot: string,
                       jobId: string, entryId: string): (r: seq<Write>)
    ensures |r| >= 3 && r[0].stage == Parsing && r[1].stage == Storyboarding
  {
    [Write(Parsing, None, None), Write(Storyboarding, None, None)]
    + AfterLoad(body, ollama, image, ImagesDir(dataRoot, entryId), jobId)
  }

  // ----- the job, as run -----

  /** The status the map holds for the job after the writes of `trace`. */
  function Posted(m0: map<string, ComicJobStatus>, jobId: string, entryId: string, style: string,
                  now: nat -> string, trace: seq<Write>): (m: map<string, ComicJobStatus>)
    requires |trace| > 0
    ensures jobId in m && m[jobId].jobId == jobId && m[jobId].entryId == entryId && m[jobId].style == style
    ensures m[jobId].stage == trace[|trace| - 1].stage && m[jobId].updatedAt == now(|trace| - 1)
    ensures m[jobId].resultImagePath == trace[|trace| - 1].resultImagePath
    ensures m[jobId].storyboardText == trace[|trace| - 1].storyboardText
    ensures forall k :: k in m <==> k in m0 || k == jobId
    ensures forall k :: k in m0 && k != jobId ==> m[k] == m0[k]
  {
    m0[jobId := Stamp(jobId, entryId, style, trace[|trace| - 1], now(|trace| - 1))]
  }

  /** One write: appended to the trace and stored in the map under the
      job id, timestamped with the clock reading for its position. `m0`
      is the map as it was before the job's first write. */
  method Emit(m: ComicStatusMap, ghost m0: map<string, ComicJobStatus>, jobId: string, entryId: string,
              style: string, now: nat -> string, trace0: seq<Write>, w: Write) returns (trace: seq<Write>)
    requires if trace0 == [] then m.entries == m0 else m.entries == Posted(m0, jobId, entryId, style, now, trace0)
    modifies m
    ensures trace == trace0 + [w]
    ensures m.entries == Posted(m0, jobId, entryId, style, now, trace)
  {
    m.Insert(jobId, Stamp(jobId, entryId, style, w, now(|trace0|)));
    trace := trace0 + [w];
  }

  /** The work `create_comic_job` spawns. `now(i)` is the clock reading
      at the `i`th write; `settings` are those loaded from the data
      directory; `envKey` is `GEMINI_API_KEY`; `template` wraps the entry
      text in the fixed storyboard instructions. Returns the writes made. */
  method RunComicJob(m: ComicStatusMap, jobId: string, entryId: string, style: string,
                     settings: Settings, envKey: Option<string>, out: Outcomes, template: string -> string,
                     parse: string -> Option<Json>, dataRoot: string, now: nat -> string)
    returns (trace: seq<Write>)
    modifies m
    ensures trace == JobWrites(settings, envKey, out, parse, dataRoot, jobId, entryId)
    ensures |trace| > 0 && m.entries == Posted(old(m.entries), jobId, entryId, style, now, trace)
  {
    ghost var m0 := m.entries;
    var start := [Write(Parsing, None, None), Write(Storyboarding, None, None)];
    trace := Emit(m, m0, jobId, entryId, style, now, [], start[0]);
    trace := Emit(m, m0, jobId, entryId, style, now, trace, start[1]);
    assert trace == start;
    if out.entryBody.Err? {
      trace := Emit(m, m0, jobId, entryId, style, now, trace,
                    Write(Failed("load entry failed: " + out.entryBody.error), None, None));
      return;
    }
    trace := RunLoaded(m, m0, jobId, entryId, style, now, trace, settings, envKey, out,
                       template(out.entryBody.value), parse, ImagesDir(dataRoot, entryId));
  }

  /** The writes of the whole job, for the outcomes given. */
  function JobWrites(settings: Settings, envKey: Option<string>, out: Outcomes, parse: string -> Option<Json>,
                     dataRoot: string, jobId: string, entryId: string): (r: seq<Write>)
  {
    var ollama := Ollama.StreamSpec(out.ollama, parse);
    ComicWrites(out.entryBody, ollama, ImageOutcome(settings, envKey, out, parse, Text.Concat(ollama.1)),
                dataRoot, jobId, entryId)
  }

  /** Once the entry text is loaded: storyboard, image, result. */
  method RunLoaded(m: ComicStatusMap, ghost m0: map<string, ComicJobStatus>, jobId: string, entryId: string,
                   style: string, now: nat -> string, trace0: seq<Write>, settings: Settings,
                   envKey: Option<string>, out: Outcomes, prompt: string, parse: string -> Option<Json>,
                   dir: string) returns (trace: seq<Write>)
    requires out.entryBody.Ok?
    requires |trace0| > 0 && m.entries == Posted(m0, jobId, entryId, style, now, trace0)
    modifies m
    ensures var ollama := Ollama.StreamSpec(out.ollama, parse);
      trace == trace0 + AfterLoad(out.entryBody, ollama,
                                  ImageOutcome(settings, envKey, out, parse, Text.Concat(ollama.1)), dir, jobId)
    ensures |trace| > 0 && m.entries == Posted(m0, jobId, entryId, style, now, trace)
  {
    trace := Emit(m, m0, jobId, entryId, style, now, trace0, Write(Prompting, None, None));
    ghost var head := trace;
    var res, pieces := AskStoryboard(prompt, settings, out.ollama, parse);
    var sb;
    trace, sb := Storyboard(m, m0, jobId, entryId, style, now, trace, pieces);
    var image := ImageOutcome(settings, envKey, out, parse, sb);
    var rest := RunImage(m, m0, jobId, entryId, style, now, trace, res, sb, image, dir);
    ghost var after := AfterPrompt(res, sb, image, dir, jobId);
    assert rest == head + PromptWrites(pieces) + after;
    assert AfterLoad(out.entryBody, (res, pieces), image, dir, jobId)
        == [Write(Prompting, None, None)] + PromptWrites(pieces) + after;
    Assoc4(trace0, [Write(Prompting, None, None)], PromptWrites(pieces), after);
    trace := rest;
  }

  /** The storyboard request: the default model, streamed. */
  method AskStoryboard(prompt: string, settings: Settings, reply: Http.StreamReply,
                       parse: string -> Option<Json>)
    returns (res: Result<(), string>, pieces: seq<string>)
    ensures (res, pieces) == Ollama.StreamSpec(reply, parse)
  {
    var req;
    req, res, pieces := Ollama.GenerateStreaming(None, prompt, settings, reply, parse);
  }

  /** The storyboard callback: each piece is appended to the text and the
      text so far is written with stage Prompting. */
  method Storyboard(m: ComicStatusMap, ghost m0: map<string, ComicJobStatus>, jobId: string, entryId: string, style: string, now: nat -> string,
                    trace0: seq<Write>, pieces: seq<string>)
    returns (trace: seq<Write>, sb: string)
    requires |trace0| > 0 && m.entries == Posted(m0, jobId, entryId, style, now, trace0)
    modifies m
    ensures trace == trace0 + PromptWrites(pieces) && sb == Text.Concat(pieces)
    ensures m.entries == Posted(m0, jobId, entryId, style, now, trace)
  {
    trace, sb := trace0, [];
    var k := 0;
    assert pieces[..0] == [];
    while k < |pieces|
      invariant k <= |pieces|
      invariant trace == trace0 + PromptWrites(pieces[..k]) && sb == Text.Concat(pieces[..k])
      invariant m.entries == Posted(m0, jobId, entryId, style, now, trace)
    {
      assert pieces[..k + 1][..k] == pieces[..k];
      sb := sb + pieces[k];
      trace := Emit(m, m0, jobId, entryId, style, now, trace, Write(Prompting, None, Some(sb)));
      k := k + 1;
    }
    assert pieces[..k] == pieces;
  }

  /** From the end of the storyboard stream to the last write, given the
      outcome of the image step. */
  method RunImage(m: ComicStatusMap, ghost m0: map<string, ComicJobStatus>, jobId: string, entryId: string,
                  style: string, now: nat -> string, trace0: seq<Write>, res: Result<(), string>, sb: string,
                  image: (Result<string, string>, seq<Gemini.Tick>), imagesDir: string)
    returns (trace: seq<Write>)
    requires |trace0| > 0 && m.entries == Posted(m0, jobId, entryId, style, now, trace0)
    modifies m
    ensures trace == trace0 + AfterPrompt(res, sb, image, imagesDir, jobId)
    ensures |trace| > 0 && m.entries == Posted(m0, jobId, entryId, style, now, trace)
  {
    if res.Err? {
      trace := Emit(m, m0, jobId, entryId, style, now, trace0,
                    Write(Failed("ollama prompting failed: " + res.error), None, None));
      return;
    }
    trace := Emit(m, m0, jobId, entryId, style, now, trace0, Write(Rendering(1, 1), None, Some(sb)));
    ghost var head := trace;
    trace := Ticks(m, m0, jobId, entryId, style, now, trace, image.1, sb);
    assert trace == head + RenderWrites(Throttle(image.1, 0), sb);
    ghost var mid := trace;
    trace := Finish(m, m0, jobId, entryId, style, now, trace, image.0, sb, imagesDir);
    assert AfterPrompt(res, sb, image, imagesDir, jobId)
        == [Write(Rendering(1, 1), None, Some(sb))] + RenderWrites(Throttle(image.1, 0), sb)
           + FinishWrites(image.0, sb, imagesDir, jobId);
    Assoc4(trace0, [Write(Rendering(1, 1), None, Some(sb))], RenderWrites(Throttle(image.1, 0), sb),
           FinishWrites(image.0, sb, imagesDir, jobId));
  }

  /** Regrouping a four-part trace, proved outside the larger contexts
      of `RunLoaded` and `RunImage`. */
  lemma Assoc4<T>(a: seq<T>, b: seq<T>, c: seq<T>, d: seq<T>)
    ensures a + b + c + d == a + (b + c + d)
  {
  }

  /** The progress callback: a report is written when it is above the
      last one written and a multiple of 5. */
  method Ticks(m: ComicStatusMap, ghost m0: map<string, ComicJobStatus>, jobId: string, entryId: string, style: string, now: nat -> string,
               trace0: seq<Write>, ticks: seq<Gemini.Tick>, sb: string)
    returns (trace: seq<Write>)
    requires |trace0| > 0 && m.entries == Posted(m0, jobId, entryId, style, now, trace0)
    modifies m
    ensures trace == trace0 + RenderWrites(Throttle(ticks, 0), sb)
    ensures |trace| > 0 && m.entries == Posted(m0, jobId, entryId, style, now, trace)
  {
    trace := trace0;
    ghost var kept: seq<Gemini.Tick> := [];
    ghost var rest := Throttle(ticks, 0);
    var lastTick: nat := 0;
    var k := 0;
    while k < |ticks|
      invariant k <= |ticks|
      invariant rest == Throttle(ticks[k..], lastTick)
      invariant kept + rest == Throttle(ticks, 0)
      invariant trace == trace0 + RenderWrites(kept, sb)
      invariant |trace| > 0 && m.entries == Posted(m0, jobId, entryId, style, now, trace)
    {
      var t := ticks[k];
      assert ticks[k..][0] == t && ticks[k..][1..] == ticks[k + 1..];
      if t.completed > lastTick && t.completed % 5 == 0 {
        ghost var rest' := Throttle(ticks[k + 1..], t.completed);
        assert rest == [t] + rest';
        assert (kept + [t]) + rest' == kept + rest;
        lastTick := t.completed;
        RenderWritesSnoc(kept, t, sb);
        kept := kept + [t];
        rest := rest';
        trace := Emit(m, m0, jobId, entryId, style, now, trace, Write(Rendering(t.completed, t.total), None, Some(sb)));
      } else {
        assert rest == Throttle(ticks[k + 1..], lastTick);
        rest := Throttle(ticks[k + 1..], lastTick);
      }
      k := k + 1;
    }
    assert ticks[k..] == [];
    assert kept + rest == kept;
  }

  lemma {:induction false} RenderWritesSnoc(kept: seq<Gemini.Tick>, t: Gemini.Tick, sb: string)
    ensures RenderWrites(kept + [t], sb) == RenderWrites(kept, sb) + [Write(Rendering(t.completed, t.total), None, Some(sb))]
  {
    if kept != [] {
      assert (kept + [t])[1..] == kept[1..] + [t];
      RenderWritesSnoc(kept[1..], t, sb);
    }
  }

  /** The result: decoded, named by its sniffed format, written (a failed
      write is ignored), then Saving and Done. */
  method Finish(m: ComicStatusMap, ghost m0: map<string, ComicJobStatus>, jobId: string, entryId: string, style: string, now: nat -> string,
                trace0: seq<Write>, image: Result<string, string>, sb: string, imagesDir: string)
    returns (trace: seq<Write>)
    requires |trace0| > 0 && m.entries == Posted(m0, jobId, entryId, style, now, trace0)
    modifies m
    ensures trace == trace0 + FinishWrites(image, sb, imagesDir, jobId)
    ensures |trace| > 0 && m.entries == Posted(m0, jobId, entryId, style, now, trace)
  {
    if image.Err? {
      trace := Emit(m, m0, jobId, entryId, style, now, trace0,
                    Write(Failed("image generation failed: " + image.error), None, Some(sb)));
      return;
    }
    var decoded := DecodeBase64Png(image.value);
    if decoded.Err? {
      trace := Emit(m, m0, jobId, entryId, style, now, trace0,
                    Write(Failed("image decode failed: " + decoded.error), None, Some(sb)));
      return;
    }
    var p := ResultPath(imagesDir, jobId, GuessImageExtension(decoded.value));
    trace := Emit(m, m0, jobId, entryId, style, now, trace0, Write(Saving, Some(p), Some(sb)));
    trace := Emit(m, m0, jobId, entryId, style, now, trace, Write(Done, Some(p), Some(sb)));
  }
}
