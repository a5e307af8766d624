/** The command layer: the registries of jobs and their statuses, the
    commands that create, query and cancel jobs, the avatar job, the
    data-URI normalisation of generated images, and the identity
    "encryption" of entry bodies. */
module App {
  import opened Wrappers
  import opened Bytes
  import Text
  import Utf8
  import Base64
  import Http
  import Json
  import opened Settings
  import Gemini
  import Comic

  // ----- data URIs -----

  /** The media type `to_data_uri` names for an image extension. */
  function MimeOfExtension(ext: string): (r: string)
    ensures r == "image/png" || r == "image/jpeg" || r == "image/webp"
    ensures r == "image/jpeg" <==> ext == "jpg"
    ensures r == "image/webp" <==> ext == "webp"
  {
    match ext
    case "jpg" => "image/jpeg"
    case "webp" => "image/webp"
    case _ => "image/png"
  }

  /** The media type of an image payload: from its sniffed signature, and
      PNG when it does not decode. */
  function MimeOf(b64: string): (r: string)
    ensures Comic.DecodeBase64Png(b64).Err? ==> r == "image/png"
    ensures Comic.DecodeBase64Png(b64).Ok? ==>
      r == MimeOfExtension(Comic.GuessImageExtension(Comic.DecodeBase64Png(b64).value))
  {
    match Comic.DecodeBase64Png(b64)
    case Err(_) => "image/png"
    case Ok(bytes) => MimeOfExtension(Comic.GuessImageExtension(bytes))
  }

  /** `to_data_uri` (and its twin inside the avatar job): a data URI is
      kept; anything else is wrapped as `data:<mime>;base64,<payload>`
      (section 3 of RFC 2397). */
  function ToDataUri(s: string): (r: string)
    ensures Text.StartsWith(r, "data:")
    ensures Text.StartsWith(s, "data:") ==> r == s
    ensures !Text.StartsWith(s, "data:") ==> r == "data:" + MimeOf(s) + ";base64," + s
  {
    if Text.StartsWith(s, "data:") then s
    else
      var r := "data:" + MimeOf(s) + ";base64," + s;
      assert r[..5] == "data:";
      r
  }

  lemma ToDataUriIdempotent(s: string)
    ensures ToDataUri(ToDataUri(s)) == ToDataUri(s)
  {
  }

  /** No encoding starts like a data URI: ':' is not in the alphabet. */
  lemma EncodingIsBare(b: seq<Byte>)
    ensures !Text.StartsWith(Base64.Encode(b), "data:")
  {
    var e := Base64.Encode(b);
    Base64.EncodeNoComma(b);
    if |e| >= 5 {
      assert e[4] in e;
    }
  }

  /** The media type named for an encoding is that of the image it
      encodes. */
  lemma MimeOfEncoding(b: seq<Byte>)
    ensures MimeOf(Base64.Encode(b)) == MimeOfExtension(Comic.GuessImageExtension(b))
  {
    Comic.DecodeBare(b);
  }

  /** A bare encoding is wrapped under the media type of the image it
      encodes. */
  lemma WrapEncoding(b: seq<Byte>)
    ensures ToDataUri(Base64.Encode(b))
      == "data:" + MimeOfExtension(Comic.GuessImageExtension(b)) + ";base64," + Base64.Encode(b)
  {
    EncodingIsBare(b);
    MimeOfEncoding(b);
  }

  /** The wrapped payload decodes back to the image. */
  lemma DataUriRoundTrip(b: seq<Byte>)
    ensures Comic.DecodeBase64Png(ToDataUri(Base64.Encode(b))) == Ok(b)
  {
    var mime := MimeOfExtension(Comic.GuessImageExtension(b));
    WrapEncoding(b);
    Regroup(mime, Base64.Encode(b));
    Comic.DecodeDataUri("data:" + mime + ";base64", b);
  }

  /** The regrouping `DataUriRoundTrip` needs, proved outside that
      lemma's larger context. */
  lemma Regroup(mime: string, e: string)
    ensures "data:" + mime + ";base64" + "," + e == "data:" + mime + ";base64," + e
  {
  }

  // ----- encrypt / decrypt -----

  /** `encrypt`: the UTF-8 bytes of the text (no cipher is applied). */
  function Encrypt(plaintext: string): (r: Result<seq<Byte>, string>)
    ensures r.Ok? && |r.value| >= |plaintext|
  {
    Ok(Utf8.Encode(plaintext))
  }

  /** `decrypt`: the text the bytes spell, failing exactly on ill-formed
      UTF-8. */
  function Decrypt(cipher: seq<Byte>): (r: Result<string, string>)
    ensures r.Ok? <==> Utf8.Decode(cipher).Ok?
    ensures r.Ok? ==> Encrypt(r.value) == Ok(cipher)
    ensures r.Err? ==> r.error == Utf8.ErrorText(Utf8.Decode(cipher).error)
  {
    match Utf8.Decode(cipher)
    case Ok(s) => Utf8.EncodeDecode(cipher); Ok(s)
    case Err(e) => Err(Utf8.ErrorText(e))
  }

  lemma DecryptEncrypt(s: string)
    ensures Decrypt(Encrypt(s).value) == Ok(s)
  {
    Utf8.DecodeEncode(s);
  }

  // ----- the avatar job's outcomes -----

  /** The scripted outcomes the avatar job waits on; `beats` is how many
      800 ms heartbeats elapse before nano-banana answers. */
  datatype AvatarOutcomes = AvatarOutcomes(
    beats: nat,
    nano: Http.JsonReply,
    geminiStream: Http.StreamReply,
    geminiOnce: Http.JsonReply,
    fetch: string -> Http.Fetch,
    fetchOnce: string -> Http.Fetch)

  function GeminiImage(settings: Settings, envKey: Option<string>, out: AvatarOutcomes,
                       parse: string -> Option<Json.Json>): (r: (Result<string, string>, seq<Gemini.Tick>))
    ensures r == Gemini.WithProgress(settings, envKey, out.geminiStream, out.geminiOnce, out.fetch, out.fetchOnce, parse)
  {
    Gemini.WithProgress(settings, envKey, out.geminiStream, out.geminiOnce, out.fetch, out.fetchOnce, parse)
  }

  /** `generate_avatar_image`: nano-banana when configured, then the
      Gemini chain; the result is a data URI. The avatar image itself is
      never sent as a reference. */
  function GenerateAvatarImage(settings: Settings, envKey: Option<string>, prompt: string,
                               out: AvatarOutcomes, parse: string -> Option<Json.Json>): (r: Result<string, string>)
    ensures r.Ok? ==> Text.StartsWith(r.value, "data:")
    ensures r.Err? ==> Text.StartsWith(r.error, "avatar generation failed: ")
    ensures var nano := Gemini.NanoBananaGenerate(prompt, settings.(avatarImagePath := None), out.nano);
      && (settings.nanoBananaBaseUrl.Some? && nano.Ok? ==> r == Ok(ToDataUri(nano.value)))
      && (r.Err? <==>
            ((settings.nanoBananaBaseUrl.None? || nano.Err?)
             && GeminiImage(settings.(avatarImagePath := None), envKey, out, parse).0.Err?))
    ensures var nano := Gemini.NanoBananaGenerate(prompt, settings.(avatarImagePath := None), out.nano);
            var gemini := GeminiImage(settings.(avatarImagePath := None), envKey, out, parse).0;
      && ((settings.nanoBananaBaseUrl.None? || nano.Err?) && gemini.Ok? ==> r == Ok(ToDataUri(gemini.value)))
      && ((settings.nanoBananaBaseUrl.None? || nano.Err?) && gemini.Err?
          ==> r == Err("avatar generation failed: " + gemini.error))
  {
    var s := settings.(avatarImagePath := None);
    var nano := Gemini.NanoBananaGenerate(prompt, s, out.nano);
    if s.nanoBananaBaseUrl.Some? && nano.Ok? then Ok(ToDataUri(nano.value))
    else
      match GeminiImage(s, envKey, out, parse).0
      case Ok(b64) => Ok(ToDataUri(b64))
      case Err(e) =>
        var msg := "avatar generation failed: " + e;
        assert msg[..26] == "avatar generation failed: ";
        Err(msg)
  }

  // ----- avatar job statuses -----

  datatype AvatarStage = Queued | Rendering(completed: nat, total: nat) | Done | Failed(error: string)

  datatype AvatarJobStatus = AvatarJobStatus(jobId: string, updatedAt: string, stage: AvatarStage,
                                             imageBase64: Option<string>)

  /** One status write of the avatar job. */
  datatype AvatarWrite = AvatarWrite(stage: AvatarStage, imageBase64: Option<string>)

  /** The heartbeat writes while nano-banana works: 2 more per beat,
      capped at 98, and none once 98 is reached. */
  function Heartbeat(beats: nat, last: nat): (r: seq<AvatarWrite>)
  {
    if beats == 0 then []
    else if last < 98 then
      var n := if last + 2 < 98 then last + 2 else 98;
      [AvatarWrite(Rendering(n, 100), None)] + Heartbeat(beats - 1, n)
    else Heartbeat(beats - 1, last)
  }

  /** Every progress report of the Gemini chain is written, unthrottled. */
  function TickWrites(ticks: seq<Gemini.Tick>): (r: seq<AvatarWrite>)
    ensures |r| == |ticks|
  {
    if ticks == [] then []
    else [AvatarWrite(Rendering(ticks[0].completed, ticks[0].total), None)] + TickWrites(ticks[1..])
  }

  /** The last write: the image as a data URI, or the error without one. */
  function Final(res: Result<string, string>): (w: AvatarWrite)
    ensures w.stage.Done? <==> res.Ok?
    ensures res.Ok? ==> w.imageBase64 == Some(ToDataUri(res.value))
    ensures res.Err? ==> w == AvatarWrite(Failed(res.error), None)
  {
    match res
    case Ok(b64) => AvatarWrite(Done, Some(ToDataUri(b64)))
    case Err(e) => AvatarWrite(Failed(e), None)
  }

  /** What the avatar job's providers produced: the heartbeats elapsed
      while nano-banana worked (none when it is not configured), the
      Gemini chain's progress reports (none when nano-banana answered) and
      the final result. */
  datatype AvatarRun = AvatarRun(beats: nat, ticks: seq<Gemini.Tick>, result: Result<string, string>)

  /** The avatar job's provider chain: nano-banana first when configured,
      the Gemini chain after its failure or in its absence. */
  function AvatarAttempt(settings: Settings, envKey: Option<string>, prompt: string, out: AvatarOutcomes,
                         parse: string -> Option<Json.Json>): (r: AvatarRun)
    ensures r.beats == (if settings.nanoBananaBaseUrl.Some? then out.beats else 0)
    ensures var nano := Gemini.NanoBananaGenerate(prompt, settings, out.nano);
      var g := GeminiImage(settings, envKey, out, parse);
      && (settings.nanoBananaBaseUrl.Some? && nano.Ok? ==> r.ticks == [] && r.result == nano)
      && (settings.nanoBananaBaseUrl.None? || nano.Err? ==> r.ticks == g.1 && r.result == g.0)
    ensures Gemini.Rising(r.ticks)
    ensures |r.ticks| > 0 ==> r.ticks[0] == Gemini.Tick(1, Gemini.Total)
  {
    var g := GeminiImage(settings, envKey, out, parse);
    Gemini.StreamTicks(settings, envKey, out.geminiStream, out.fetch, parse);
    if settings.nanoBananaBaseUrl.Some? then
      match Gemini.NanoBananaGenerate(prompt, settings, out.nano)
      case Ok(s) => AvatarRun(out.beats, [], Ok(s))
      case Err(_) => AvatarRun(out.beats, g.1, g.0)
    else AvatarRun(0, g.1, g.0)
  }

  /** Every write the avatar job makes, in order. */
  function RunWrites(run: AvatarRun): (r: seq<AvatarWrite>)
    ensures |r| > 0 && r[|r| - 1] == Final(run.result)
  {
    Heartbeat(run.beats, 0) + TickWrites(run.ticks) + [Final(run.result)]
  }

  function AvatarStamp(jobId: string, w: AvatarWrite, at: string): (s: AvatarJobStatus)
    ensures s.jobId == jobId && s.updatedAt == at && s.stage == w.stage && s.imageBase64 == w.imageBase64
  {
    AvatarJobStatus(jobId, at, w.stage, w.imageBase64)
  }

  /** The status map after the writes of `trace`, from `m0`. */
  function AvatarPosted(m0: map<string, AvatarJobStatus>, jobId: string, now: nat -> string,
                        trace: seq<AvatarWrite>): (m: map<string, AvatarJobStatus>)
    requires |trace| > 0
    ensures jobId in m && m[jobId].jobId == jobId && m[jobId].stage == trace[|trace| - 1].stage
    ensures m[jobId].imageBase64 == trace[|trace| - 1].imageBase64 && m[jobId].updatedAt == now(|trace| - 1)
    ensures forall k :: k in m <==> k in m0 || k == jobId
    ensures forall k :: k in m0 && k != jobId ==> m[k] == m0[k]
  {
    m0[jobId := AvatarStamp(jobId, trace[|trace| - 1], now(|trace| - 1))]
  }

  /** What `cancel_job` can stop: the spawned work of either kind of job. */
  datatype Task = ComicTask(entryId: string, style: string) | AvatarTask(description: string)

  /** The shared state: the comic status map the comic jobs write, the
      avatar status map, and the one table of running tasks. */
  class AppState {
    const comicStatus: Comic.ComicStatusMap
    var avatarStatus: map<string, AvatarJobStatus>
    var jobs: map<string, Task>

    constructor ()
      ensures fresh(comicStatus) && comicStatus.entries == map[]
      ensures avatarStatus == map[] && jobs == map[]
    {
      comicStatus := new Comic.ComicStatusMap();
      avatarStatus := map[];
      jobs := map[];
    }

    /** `create_comic_job`: a Queued status under the fresh id, its handle
        registered under the same id, and the id returned. */
    method CreateComicJob(jobId: string, entryId: string, style: string, now: string)
      returns (r: Result<string, string>)
      modifies this, comicStatus
      ensures comicStatus.entries
        == old(comicStatus.entries)[jobId := Comic.ComicJobStatus(jobId, entryId, style, Comic.Queued, now, None, None)]
      ensures jobs == old(jobs)[jobId := ComicTask(entryId, style)]
      ensures avatarStatus == old(avatarStatus)
      ensures r == Ok(jobId)
    {
      comicStatus.Insert(jobId, Comic.ComicJobStatus(jobId, entryId, style, Comic.Queued, now, None, None));
      jobs := jobs[jobId := ComicTask(entryId, style)];
      r := Ok(jobId);
    }

    /** `get_comic_job_status`: a copy of the stored status. */
    function GetComicJobStatus(jobId: string): (r: Result<Comic.ComicJobStatus, string>)
      reads this, comicStatus
      ensures r.Ok? <==> jobId in comicStatus.entries
      ensures r.Ok? ==> r.value == comicStatus.entries[jobId]
      ensures r.Err? ==> r.error == "job not found"
    {
      match comicStatus.Get(jobId)
      case Some(s) => Ok(s)
      case None => Err("job not found")
    }

    /** `create_avatar_job`: as for comics. */
    method CreateAvatarJob(jobId: string, description: string, now: string) returns (r: Result<string, string>)
      modifies this
      ensures avatarStatus == old(avatarStatus)[jobId := AvatarJobStatus(jobId, now, Queued, None)]
      ensures jobs == old(jobs)[jobId := AvatarTask(description)]
      ensures r == Ok(jobId)
    {
      avatarStatus := avatarStatus[jobId := AvatarJobStatus(jobId, now, Queued, None)];
      jobs := jobs[jobId := AvatarTask(description)];
      r := Ok(jobId);
    }

    function GetAvatarJobStatus(jobId: string): (r: Result<AvatarJobStatus, string>)
      reads this
      ensures r.Ok? <==> jobId in avatarStatus
      ensures r.Ok? ==> r.value == avatarStatus[jobId]
      ensures r.Err? ==> r.error == "job not found"
    {
      if jobId in avatarStatus then Ok(avatarStatus[jobId]) else Err("job not found")
    }

    /** `cancel_job` and `cancel_avatar_job`: the job handle is dropped from the
        shared table, whatever its kind; an unknown id is no error. The
        last status written stays readable. */
    method CancelJob(jobId: string) returns (r: Result<(), string>)
      modifies this
      ensures jobs == old(jobs) - {jobId}
      ensures avatarStatus == old(avatarStatus) && comicStatus.entries == old(comicStatus.entries)
      ensures r == Ok(())
    {
      jobs := jobs - {jobId};
      r := Ok(());
    }

    /** One avatar write: appended and stored under the job id. */
    method AvatarEmit(ghost m0: map<string, AvatarJobStatus>, jobId: string, now: nat -> string,
                      trace0: seq<AvatarWrite>, w: AvatarWrite) returns (trace: seq<AvatarWrite>)
      requires if trace0 == [] then avatarStatus == m0 else avatarStatus == AvatarPosted(m0, jobId, now, trace0)
      modifies this
      ensures trace == trace0 + [w]
      ensures avatarStatus == AvatarPosted(m0, jobId, now, trace)
      ensures jobs == old(jobs)
    {
      avatarStatus := avatarStatus[jobId := AvatarStamp(jobId, w, now(|trace0|))];
      trace := trace0 + [w];
    }

    /** The heartbeat loop while nano-banana works. */
    method Heartbeats(ghost m0: map<string, AvatarJobStatus>, jobId: string, now: nat -> string, beats: nat)
      returns (trace: seq<AvatarWrite>)
      requires avatarStatus == m0
      modifies this
      ensures trace == Heartbeat(beats, 0)
      ensures if trace == [] then avatarStatus == m0 else avatarStatus == AvatarPosted(m0, jobId, now, trace)
      ensures jobs == old(jobs)
    {
      var lastTick: nat := 0;
      var i := 0;
      trace := [];
      ghost var rest := Heartbeat(beats, 0);
      while i < beats
        invariant i <= beats
        invariant rest == Heartbeat(beats - i, lastTick)
        invariant trace + rest == Heartbeat(beats, 0)
        invariant if trace == [] then avatarStatus == m0 else avatarStatus == AvatarPosted(m0, jobId, now, trace)
        invariant jobs == old(jobs)
      {
        if lastTick < 98 {
          var n: nat := if lastTick + 2 < 98 then lastTick + 2 else 98;
          var w := AvatarWrite(Rendering(n, 100), None);
          ghost var rest' := Heartbeat(beats - i - 1, n);
          assert rest == [w] + rest';
          assert (trace + [w]) + rest' == trace + rest;
          lastTick := n;
          trace := AvatarEmit(m0, jobId, now, trace, w);
          rest := rest';
        } else {
          rest := Heartbeat(beats - i - 1, lastTick);
        }
        i := i + 1;
      }
      assert rest == [];
    }

    /** The progress callback: every report written as it comes. */
    method Forward(ghost m0: map<string, AvatarJobStatus>, jobId: string, now: nat -> string,
                   trace0: seq<AvatarWrite>, ticks: seq<Gemini.Tick>) returns (trace: seq<AvatarWrite>)
      requires if trace0 == [] then avatarStatus == m0 else avatarStatus == AvatarPosted(m0, jobId, now, trace0)
      modifies this
      ensures trace == trace0 + TickWrites(ticks)
      ensures if trace == [] then avatarStatus == m0 else avatarStatus == AvatarPosted(m0, jobId, now, trace)
      ensures jobs == old(jobs)
    {
      trace := trace0;
      var i := 0;
      while i < |ticks|
        invariant i <= |ticks|
        invariant trace + TickWrites(ticks[i..]) == trace0 + TickWrites(ticks)
        invariant if trace == [] then avatarStatus == m0 else avatarStatus == AvatarPosted(m0, jobId, now, trace)
        invariant jobs == old(jobs)
      {
        var t := ticks[i];
        assert TickWrites(ticks[i..]) == [AvatarWrite(Rendering(t.completed, t.total), None)] + TickWrites(ticks[i + 1..]);
        trace := AvatarEmit(m0, jobId, now, trace, AvatarWrite(Rendering(t.completed, t.total), None));
        i := i + 1;
      }
      assert ticks[i..] == [];
    }

    /** The work `create_avatar_job` spawns; `prompt` is the description
        wrapped in the fixed avatar instructions. Returns the writes made. */
    method RunAvatarJob(jobId: string, settings: Settings, envKey: Option<string>, prompt: string,
                        out: AvatarOutcomes, parse: string -> Option<Json.Json>, now: nat -> string)
      returns (trace: seq<AvatarWrite>)
      modifies this
      ensures trace == RunWrites(AvatarAttempt(settings, envKey, prompt, out, parse))
      ensures |trace| > 0 && avatarStatus == AvatarPosted(old(avatarStatus), jobId, now, trace)
      ensures jobs == old(jobs)
    {
      ghost var m0 := avatarStatus;
      ghost var run := AvatarAttempt(settings, envKey, prompt, out, parse);
      var result: Result<string, string>;
      if settings.nanoBananaBaseUrl.Some? {
        trace := Heartbeats(m0, jobId, now, out.beats);
        var nano := Gemini.NanoBananaGenerate(prompt, settings, out.nano);
        if nano.Ok? {
          result := nano;
        } else {
          var g := GeminiImage(settings, envKey, out, parse);
          trace := Forward(m0, jobId, now, trace, g.1);
          result := g.0;
        }
      } else {
        var g := GeminiImage(settings, envKey, out, parse);
        trace := Forward(m0, jobId, now, [], g.1);
        result := g.0;
        assert Heartbeat(run.beats, 0) == [];
      }
      assert trace == Heartbeat(run.beats, 0) + TickWrites(run.ticks) && result == run.result;
      trace := AvatarEmit(m0, jobId, now, trace, Final(result));
    }
  }

  // ----- what the avatar writes guarantee -----

  /** The heartbeat climbs by 2 from 2, one write per beat, up to 98. */
  lemma {:induction false} HeartbeatShape(beats: nat, last: nat)
    requires last % 2 == 0 && last <= 98
    ensures var hb := Heartbeat(beats, last);
      && |hb| == (if beats <= (98 - last) / 2 then beats else (98 - last) / 2)
      && forall i :: 0 <= i < |hb| ==> hb[i] == AvatarWrite(Rendering(last + 2 * (i + 1), 100), None)
  {
    if beats > 0 && last < 98 {
      HeartbeatShape(beats - 1, last + 2);
      var rest := Heartbeat(beats - 1, last + 2);
      var hb := Heartbeat(beats, last);
      assert hb == [AvatarWrite(Rendering(last + 2, 100), None)] + rest;
      forall i | 0 <= i < |hb| ensures hb[i] == AvatarWrite(Rendering(last + 2 * (i + 1), 100), None) {
        if i > 0 { assert hb[i] == rest[i - 1]; }
      }
    } else if beats > 0 {
      HeartbeatShape(beats - 1, last);
    }
  }

  lemma {:induction false} TickWritesShape(ticks: seq<Gemini.Tick>)
    ensures forall i :: 0 <= i < |ticks| ==>
      TickWrites(ticks)[i] == AvatarWrite(Rendering(ticks[i].completed, ticks[i].total), None)
  {
    if ticks != [] {
      TickWritesShape(ticks[1..]);
    }
  }

  /** The last write, and only the last, is Done or Failed; Done carries
      the image as a data URI and Failed carries none. */
  lemma RunEnds(run: AvatarRun)
    ensures var ws := RunWrites(run);
      var last := ws[|ws| - 1];
      && (forall i :: 0 <= i < |ws| - 1 ==> ws[i].stage.Rendering? && ws[i].imageBase64.None?)
      && (last.stage.Done? || last.stage.Failed?)
      && (last.stage.Done? ==> last.imageBase64.Some? && Text.StartsWith(last.imageBase64.value, "data:"))
      && (last.stage.Failed? ==> last.imageBase64.None?)
  {
    var ws := RunWrites(run);
    var hb := Heartbeat(run.beats, 0);
    var tw := TickWrites(run.ticks);
    HeartbeatShape(run.beats, 0);
    TickWritesShape(run.ticks);
    assert forall i :: 0 <= i < |hb| ==> ws[i] == hb[i];
    assert forall i :: |hb| <= i < |ws| - 1 ==> ws[i] == tw[i - |hb|];
  }

  /** After a nano-banana failure the Gemini reports follow the heartbeat
      unthrottled, so the visible progress falls back: from 2 (or more)
      to Gemini's first report of 1. */
  lemma FallbackRegresses(run: AvatarRun)
    requires run.beats > 0 && |run.ticks| > 0 && run.ticks[0] == Gemini.Tick(1, Gemini.Total)
    ensures var ws := RunWrites(run);
      var k := |Heartbeat(run.beats, 0)|;
      && 0 < k < |ws|
      && ws[0] == AvatarWrite(Rendering(2, 100), None)
      && ws[k - 1].stage.Rendering? && ws[k - 1].stage.completed >= 2
      && ws[k] == AvatarWrite(Rendering(1, 100), None)
  {
    var ws := RunWrites(run);
    var hb := Heartbeat(run.beats, 0);
    HeartbeatShape(run.beats, 0);
    TickWritesShape(run.ticks);
    assert ws[0] == hb[0];
    assert ws[|hb| - 1] == hb[|hb| - 1];
    assert ws[|hb|] == TickWrites(run.ticks)[0];
  }

  /** Without nano-banana the avatar's progress is the Gemini chain's:
      every report, rising, within 100. */
  lemma GeminiProgressRises(run: AvatarRun)
    requires run.beats == 0 && Gemini.Rising(run.ticks)
    ensures var ws := RunWrites(run);
      forall i, j :: 0 <= i < j < |ws| - 1 ==>
        ws[i].stage.Rendering? && ws[j].stage.Rendering?
        && ws[i].stage.completed <= ws[j].stage.completed <= ws[j].stage.total == 100
  {
    TickWritesShape(run.ticks);
    var ws := RunWrites(run);
    assert Heartbeat(0, 0) == [];
    assert forall i :: 0 <= i < |ws| - 1 ==> ws[i] == TickWrites(run.ticks)[i];
  }
}
