/** What the comic job's sequence of status writes guarantees to a
    client polling its status: stages only move forward, exactly one
    terminal write ends the sequence, the storyboard text only grows,
    progress reports are throttled, and a finished job names its image. */
module ComicTrace {
  import opened Wrappers
  import Text
  import Gemini
  import Settings
  import Json
  import opened Comic

  /** The position of a stage in the job's life; a failure can only end
      it. */
  function Rank(s: ComicStage): nat {
    match s
    case Queued => 0
    case Parsing => 1
    case Storyboarding => 2
    case Prompting => 3
    case Rendering(_, _) => 4
    case Saving => 5
    case Done => 6
    case Failed(_) => 7
  }

  predicate Terminal(s: ComicStage) {
    s.Done? || s.Failed?
  }

  predicate Ordered(ws: seq<Write>) {
    forall i, j :: 0 <= i < j < |ws| ==> Rank(ws[i].stage) <= Rank(ws[j].stage)
  }

  /** Each write's stage is no earlier than the one before it. */
  predicate Stepwise(ws: seq<Write>) {
    forall i :: 0 < i < |ws| ==> Rank(ws[i - 1].stage) <= Rank(ws[i].stage)
  }

  /** The last write, and only the last, is terminal. */
  predicate EndsOnce(ws: seq<Write>) {
    && |ws| > 0 && Terminal(ws[|ws| - 1].stage)
    && forall i :: 0 <= i < |ws| - 1 ==> !Terminal(ws[i].stage)
  }

  predicate NoTerminal(ws: seq<Write>) {
    forall i :: 0 <= i < |ws| ==> !Terminal(ws[i].stage)
  }

  lemma {:induction false} StepwiseOrdered(ws: seq<Write>)
    requires Stepwise(ws)
    ensures Ordered(ws)
  {
    if |ws| > 1 {
      var init := ws[..|ws| - 1];
      assert Stepwise(init) by {
        forall i | 0 < i < |init| ensures Rank(init[i - 1].stage) <= Rank(init[i].stage) {
          assert init[i - 1] == ws[i - 1] && init[i] == ws[i];
        }
      }
      StepwiseOrdered(init);
      forall i, j | 0 <= i < j < |ws| ensures Rank(ws[i].stage) <= Rank(ws[j].stage) {
        if j < |ws| - 1 {
          assert init[i] == ws[i] && init[j] == ws[j];
        } else if i < j - 1 {
          assert init[i] == ws[i] && init[j - 1] == ws[j - 1];
        }
      }
    }
  }

  lemma StepwiseAppend(a: seq<Write>, b: seq<Write>)
    requires Stepwise(a) && Stepwise(b)
    requires a != [] && b != [] ==> Rank(a[|a| - 1].stage) <= Rank(b[0].stage)
    ensures Stepwise(a + b)
  {
    var ab := a + b;
    forall i | 0 < i < |ab| ensures Rank(ab[i - 1].stage) <= Rank(ab[i].stage) {
      if i < |a| {
        assert ab[i - 1] == a[i - 1] && ab[i] == a[i];
      } else if i == |a| {
        assert ab[i - 1] == a[i - 1] && ab[i] == b[0];
      } else {
        assert ab[i - 1] == b[i - 1 - |a|] && ab[i] == b[i - |a|];
      }
    }
  }

  lemma EndsOnceAppend(a: seq<Write>, b: seq<Write>)
    requires NoTerminal(a) && EndsOnce(b)
    ensures EndsOnce(a + b)
  {
    var ab := a + b;
    assert ab[|ab| - 1] == b[|b| - 1];
    forall i | 0 <= i < |ab| - 1 ensures !Terminal(ab[i].stage) {
      if i < |a| { assert ab[i] == a[i]; } else { assert ab[i] == b[i - |a|]; }
    }
  }

  /** The `k`th Prompting write holds the first `k + 1` pieces. */
  lemma {:induction false} PromptWritesShape(pieces: seq<string>)
    ensures forall k :: 0 <= k < |pieces| ==>
      PromptWrites(pieces)[k] == Write(Prompting, None, Some(Text.Concat(pieces[..k + 1])))
  {
    if pieces != [] {
      var init := pieces[..|pieces| - 1];
      PromptWritesShape(init);
      forall k | 0 <= k < |pieces|
        ensures PromptWrites(pieces)[k] == Write(Prompting, None, Some(Text.Concat(pieces[..k + 1])))
      {
        if k < |init| {
          assert init[..k + 1] == pieces[..k + 1];
        } else {
          assert pieces[..k + 1] == pieces;
        }
      }
    }
  }

  lemma {:induction false} RenderWritesShape(kept: seq<Gemini.Tick>, sb: string)
    ensures forall i :: 0 <= i < |kept| ==>
      RenderWrites(kept, sb)[i] == Write(Rendering(kept[i].completed, kept[i].total), None, Some(sb))
  {
    if kept != [] {
      RenderWritesShape(kept[1..], sb);
    }
  }

  /** Every report that passes the throttle is above the starting value,
      a multiple of 5 and one of the input reports. */
  lemma {:induction false} ThrottleKept(ticks: seq<Gemini.Tick>, last: nat)
    ensures forall t :: t in Throttle(ticks, last) ==> t.completed > last && t.completed % 5 == 0 && t in ticks
  {
    if ticks != [] {
      var t := ticks[0];
      assert forall x :: x in ticks[1..] ==> x in ticks;
      if t.completed > last && t.completed % 5 == 0 {
        var rest := Throttle(ticks[1..], t.completed);
        ThrottleKept(ticks[1..], t.completed);
        var kept := [t] + rest;
        assert Throttle(ticks, last) == kept;
        assert forall x :: x in kept ==> x == t || x in rest;
      } else {
        ThrottleKept(ticks[1..], last);
        assert Throttle(ticks, last) == Throttle(ticks[1..], last);
      }
    }
  }

  /** The reports that pass the throttle strictly increase. */
  lemma {:induction false} ThrottleIncreasing(ticks: seq<Gemini.Tick>, last: nat)
    ensures forall i, j :: 0 <= i < j < |Throttle(ticks, last)| ==>
      Throttle(ticks, last)[i].completed < Throttle(ticks, last)[j].completed
  {
    if ticks != [] {
      var t := ticks[0];
      if t.completed > last && t.completed % 5 == 0 {
        var rest := Throttle(ticks[1..], t.completed);
        ThrottleIncreasing(ticks[1..], t.completed);
        ThrottleKept(ticks[1..], t.completed);
        var kept := [t] + rest;
        assert Throttle(ticks, last) == kept;
        forall i, j | 0 <= i < j < |kept| ensures kept[i].completed < kept[j].completed {
          assert kept[j] == rest[j - 1] && kept[j] in rest;
          if i > 0 { assert kept[i] == rest[i - 1]; }
        }
      } else {
        ThrottleIncreasing(ticks[1..], last);
        assert Throttle(ticks, last) == Throttle(ticks[1..], last);
      }
    }
  }

  /** Conversely, a report is written when it is a multiple of 5 above
      the starting value and above every report before it. */
  lemma {:induction false} ThrottleKeeps(ticks: seq<Gemini.Tick>, last: nat, i: nat)
    requires i < |ticks| && ticks[i].completed % 5 == 0 && ticks[i].completed > last
    requires forall j :: 0 <= j < i ==> ticks[j].completed < ticks[i].completed
    ensures ticks[i] in Throttle(ticks, last)
  {
    if i > 0 {
      var t := ticks[0];
      var last' := if t.completed > last && t.completed % 5 == 0 then t.completed else last;
      forall j | 0 <= j < i - 1 ensures ticks[1..][j].completed < ticks[1..][i - 1].completed {
        assert ticks[1..][j] == ticks[j + 1];
      }
      ThrottleKeeps(ticks[1..], last', i - 1);
    }
  }

  lemma FinishShape(image: Result<string, string>, sb: string, dir: string, jobId: string)
    ensures var f := FinishWrites(image, sb, dir, jobId);
      && Stepwise(f) && Rank(f[0].stage) >= 5 && EndsOnce(f)
      && forall i :: 0 <= i < |f| ==> f[i].storyboardText == Some(sb) && !f[i].stage.Rendering?
  {
    var f := FinishWrites(image, sb, dir, jobId);
    if image.Ok? && DecodeBase64Png(image.value).Ok? {
      var p := ResultPath(dir, jobId, GuessImageExtension(DecodeBase64Png(image.value).value));
      assert f == [Write(Saving, Some(p), Some(sb)), Write(Done, Some(p), Some(sb))];
      SavedShape(p, sb);
    } else {
      assert |f| == 1 && f[0].stage.Failed? && f[0].storyboardText == Some(sb);
    }
  }

  lemma SavedShape(p: string, sb: string)
    ensures var f := [Write(Saving, Some(p), Some(sb)), Write(Done, Some(p), Some(sb))];
      && Stepwise(f) && Rank(f[0].stage) >= 5 && EndsOnce(f)
      && forall i :: 0 <= i < |f| ==> f[i].storyboardText == Some(sb) && !f[i].stage.Rendering?
  {
  }

  lemma RenderShape(kept: seq<Gemini.Tick>, sb: string)
    ensures var rw := [Write(Rendering(1, 1), None, Some(sb))] + RenderWrites(kept, sb);
      Stepwise(rw) && NoTerminal(rw) && rw[0].stage.Rendering? && rw[|rw| - 1].stage.Rendering?
  {
    RenderWritesShape(kept, sb);
  }

  lemma AfterPromptShape(res: Result<(), string>, sb: string, image: (Result<string, string>, seq<Gemini.Tick>),
                         dir: string, jobId: string)
    ensures var after := AfterPrompt(res, sb, image, dir, jobId);
      Stepwise(after) && Rank(after[0].stage) >= 4 && EndsOnce(after)
  {
    if res.Ok? {
      var rw := [Write(Rendering(1, 1), None, Some(sb))] + RenderWrites(Throttle(image.1, 0), sb);
      var f := FinishWrites(image.0, sb, dir, jobId);
      RenderShape(Throttle(image.1, 0), sb);
      FinishShape(image.0, sb, dir, jobId);
      StepwiseAppend(rw, f);
      EndsOnceAppend(rw, f);
      assert AfterPrompt(res, sb, image, dir, jobId) == rw + f;
    }
  }

  lemma PromptShape(pieces: seq<string>)
    ensures var pw := [Write(Prompting, None, None)] + PromptWrites(pieces);
      Stepwise(pw) && NoTerminal(pw) && Rank(pw[|pw| - 1].stage) == 3
  {
    PromptWritesShape(pieces);
  }

  lemma AfterLoadShape(body: Result<string, string>, ollama: (Result<(), string>, seq<string>),
                       image: (Result<string, string>, seq<Gemini.Tick>), dir: string, jobId: string)
    ensures var al := AfterLoad(body, ollama, image, dir, jobId);
      Stepwise(al) && Rank(al[0].stage) >= 3 && EndsOnce(al)
  {
    if body.Ok? {
      var pw := [Write(Prompting, None, None)] + PromptWrites(ollama.1);
      var after := AfterPrompt(ollama.0, Text.Concat(ollama.1), image, dir, jobId);
      PromptShape(ollama.1);
      AfterPromptShape(ollama.0, Text.Concat(ollama.1), image, dir, jobId);
      StepwiseAppend(pw, after);
      EndsOnceAppend(pw, after);
      assert AfterLoad(body, ollama, image, dir, jobId) == pw + after;
    }
  }

  /** Stages never go back, the last write is Done or Failed, and no
      earlier write is. */
  lemma StageOrder(body: Result<string, string>, ollama: (Result<(), string>, seq<string>),
                   image: (Result<string, string>, seq<Gemini.Tick>), dataRoot: string,
                   jobId: string, entryId: string)
    ensures var ws := ComicWrites(body, ollama, image, dataRoot, jobId, entryId);
      Ordered(ws) && EndsOnce(ws)
  {
    var start := [Write(Parsing, None, None), Write(Storyboarding, None, None)];
    var al := AfterLoad(body, ollama, image, ImagesDir(dataRoot, entryId), jobId);
    AfterLoadShape(body, ollama, image, ImagesDir(dataRoot, entryId), jobId);
    StepwiseAppend(start, al);
    EndsOnceAppend(start, al);
    StepwiseOrdered(start + al);
  }

  /** After the storyboard stream, any write holding text holds all of
      it. */
  lemma AfterPromptText(res: Result<(), string>, sb: string, image: (Result<string, string>, seq<Gemini.Tick>),
                        dir: string, jobId: string)
    ensures var after := AfterPrompt(res, sb, image, dir, jobId);
      forall i :: 0 <= i < |after| && after[i].storyboardText.Some? ==> after[i].storyboardText == Some(sb)
  {
    if res.Ok? {
      var rw := [Write(Rendering(1, 1), None, Some(sb))] + RenderWrites(Throttle(image.1, 0), sb);
      var f := FinishWrites(image.0, sb, dir, jobId);
      RenderWritesShape(Throttle(image.1, 0), sb);
      FinishShape(image.0, sb, dir, jobId);
      var after := rw + f;
      assert AfterPrompt(res, sb, image, dir, jobId) == after;
      forall i | 0 <= i < |after| ensures after[i].storyboardText == Some(sb) {
        if i < |rw| { assert after[i] == rw[i]; } else { assert after[i] == f[i - |rw|]; }
      }
    }
  }

  /** Text growth for any sequence laid out as three writes without text,
      one write per piece holding the pieces so far, then writes holding
      all of it or nothing. */
  lemma GrowingLayout(ws: seq<Write>, pieces: seq<string>)
    requires |ws| >= 3 + |pieces|
    requires forall k :: 0 <= k < 3 ==> ws[k].storyboardText.None?
    requires forall k :: 3 <= k < 3 + |pieces| ==> ws[k].storyboardText == Some(Text.Concat(pieces[..k - 2]))
    requires forall k :: 3 + |pieces| <= k < |ws| && ws[k].storyboardText.Some? ==>
      ws[k].storyboardText == Some(Text.Concat(pieces))
    ensures forall i, j :: 0 <= i < j < |ws| && ws[i].storyboardText.Some? && ws[j].storyboardText.Some? ==>
      Text.StartsWith(ws[j].storyboardText.value, ws[i].storyboardText.value)
  {
    forall i, j | 0 <= i < j < |ws| && ws[i].storyboardText.Some? && ws[j].storyboardText.Some?
      ensures Text.StartsWith(ws[j].storyboardText.value, ws[i].storyboardText.value)
    {
      if i >= 3 + |pieces| {
        var sb := Text.Concat(pieces);
        assert sb[..|sb|] == sb;
      } else if j < 3 + |pieces| {
        Text.ConcatPrefix(pieces[..j - 2], i - 2);
        assert pieces[..j - 2][..i - 2] == pieces[..i - 2];
      } else {
        Text.ConcatPrefix(pieces, i - 2);
      }
    }
  }

  /** The writes of a loaded job laid out: three without text, one per
      piece, then writes holding all of the text or none. */
  lemma PromptLayout(ws: seq<Write>, pieces: seq<string>, pw: seq<Write>, after: seq<Write>)
    requires |pw| == |pieces|
    requires forall k :: 0 <= k < |pieces| ==> pw[k] == Write(Prompting, None, Some(Text.Concat(pieces[..k + 1])))
    requires forall i :: 0 <= i < |after| && after[i].storyboardText.Some? ==>
      after[i].storyboardText == Some(Text.Concat(pieces))
    requires ws == [Write(Parsing, None, None), Write(Storyboarding, None, None), Write(Prompting, None, None)] + pw + after
    ensures forall i, j :: 0 <= i < j < |ws| && ws[i].storyboardText.Some? && ws[j].storyboardText.Some? ==>
      Text.StartsWith(ws[j].storyboardText.value, ws[i].storyboardText.value)
    ensures forall k :: 3 <= k < 3 + |pieces| ==> ws[k].storyboardText == Some(Text.Concat(pieces[..k - 2]))
  {
    assert forall k :: 3 <= k < 3 + |pw| ==> ws[k] == pw[k - 3];
    assert forall k :: 3 + |pw| <= k < |ws| ==> ws[k] == after[k - 3 - |pw|];
    GrowingLayout(ws, pieces);
  }

  /** The storyboard text only grows: a write holding it holds an
      extension of what every earlier write held; the write for the
      `k`th piece holds the first `k` pieces. */
  lemma StoryboardGrows(body: Result<string, string>, ollama: (Result<(), string>, seq<string>),
                        image: (Result<string, string>, seq<Gemini.Tick>), dataRoot: string,
                        jobId: string, entryId: string)
    ensures var ws := ComicWrites(body, ollama, image, dataRoot, jobId, entryId);
      && (forall i, j :: 0 <= i < j < |ws| && ws[i].storyboardText.Some? && ws[j].storyboardText.Some? ==>
            Text.StartsWith(ws[j].storyboardText.value, ws[i].storyboardText.value))
      && (body.Ok? ==> forall k :: 3 <= k < 3 + |ollama.1| ==>
            ws[k].storyboardText == Some(Text.Concat(ollama.1[..k - 2])))
  {
    var ws := ComicWrites(body, ollama, image, dataRoot, jobId, entryId);
    var dir := ImagesDir(dataRoot, entryId);
    if body.Ok? {
      var pieces := ollama.1;
      var after := AfterPrompt(ollama.0, Text.Concat(pieces), image, dir, jobId);
      AfterPromptText(ollama.0, Text.Concat(pieces), image, dir, jobId);
      var head := [Write(Parsing, None, None), Write(Storyboarding, None, None), Write(Prompting, None, None)];
      PromptWritesShape(pieces);
      assert ws == head + PromptWrites(pieces) + after;
      PromptLayout(ws, pieces, PromptWrites(pieces), after);
    } else {
      assert |ws| == 3 && ws[2].storyboardText.None?;
    }
  }

  /** The last writes: a load or storyboard failure ends the job at once
      with its reason, and otherwise the job ends with the image step's
      writes. */
  lemma LastWrites(body: Result<string, string>, ollama: (Result<(), string>, seq<string>),
                   image: (Result<string, string>, seq<Gemini.Tick>), dataRoot: string,
                   jobId: string, entryId: string)
    ensures var ws := ComicWrites(body, ollama, image, dataRoot, jobId, entryId);
      && (body.Err? ==> ws[|ws| - 1] == Write(Failed("load entry failed: " + body.error), None, None))
      && (body.Ok? && ollama.0.Err? ==>
            ws[|ws| - 1] == Write(Failed("ollama prompting failed: " + ollama.0.error), None, None))
      && (body.Ok? && ollama.0.Ok? ==>
            var f := FinishWrites(image.0, Text.Concat(ollama.1), ImagesDir(dataRoot, entryId), jobId);
            |ws| >= |f| && ws[|ws| - |f|..] == f)
  {
    if body.Ok? && ollama.0.Ok? {
      FinishedSuffix(body, ollama, image, dataRoot, jobId, entryId);
    }
  }

  /** A job that got its storyboard ends with the image step's writes. */
  lemma FinishedSuffix(body: Result<string, string>, ollama: (Result<(), string>, seq<string>),
                       image: (Result<string, string>, seq<Gemini.Tick>), dataRoot: string,
                       jobId: string, entryId: string)
    requires body.Ok? && ollama.0.Ok?
    ensures var ws := ComicWrites(body, ollama, image, dataRoot, jobId, entryId);
      var f := FinishWrites(image.0, Text.Concat(ollama.1), ImagesDir(dataRoot, entryId), jobId);
      |ws| >= |f| && ws[|ws| - |f|..] == f
  {
    var ws := ComicWrites(body, ollama, image, dataRoot, jobId, entryId);
    var sb := Text.Concat(ollama.1);
    var f := FinishWrites(image.0, sb, ImagesDir(dataRoot, entryId), jobId);
    var dir := ImagesDir(dataRoot, entryId);
    var rw := [Write(Rendering(1, 1), None, Some(sb))] + RenderWrites(Throttle(image.1, 0), sb);
    var pw := [Write(Prompting, None, None)] + PromptWrites(ollama.1);
    var start := [Write(Parsing, None, None), Write(Storyboarding, None, None)];
    assert AfterPrompt(ollama.0, sb, image, dir, jobId) == rw + f;
    assert AfterLoad(body, ollama, image, dir, jobId) == pw + (rw + f);
    assert ws == start + (pw + (rw + f));
    assert ws == (start + pw + rw) + f;
  }

  /** A Failed write without storyboard text ends the job exactly when
      the entry could not be loaded or the storyboard stream failed. */
  lemma FailureText(body: Result<string, string>, ollama: (Result<(), string>, seq<string>),
                    image: (Result<string, string>, seq<Gemini.Tick>), dataRoot: string,
                    jobId: string, entryId: string)
    ensures var ws := ComicWrites(body, ollama, image, dataRoot, jobId, entryId);
      (ws[|ws| - 1].stage.Failed? && ws[|ws| - 1].storyboardText.None?) <==> body.Err? || ollama.0.Err?
  {
    var ws := ComicWrites(body, ollama, image, dataRoot, jobId, entryId);
    LastWrites(body, ollama, image, dataRoot, jobId, entryId);
    if body.Ok? && ollama.0.Ok? {
      var f := FinishWrites(image.0, Text.Concat(ollama.1), ImagesDir(dataRoot, entryId), jobId);
      FinishShape(image.0, Text.Concat(ollama.1), ImagesDir(dataRoot, entryId), jobId);
      SuffixEnd(ws, f);
    }
  }

  /** The image step's writes end in Done exactly when the image
      decodes; Saving comes just before, and both name the result file. */
  lemma FinishDone(image: Result<string, string>, sb: string, dir: string, jobId: string)
    ensures var f := FinishWrites(image, sb, dir, jobId);
      && (f[|f| - 1].stage == Done <==> image.Ok? && DecodeBase64Png(image.value).Ok?)
      && (f[|f| - 1].stage == Done ==>
            var ext := GuessImageExtension(DecodeBase64Png(image.value).value);
            var p := Some(ResultPath(dir, jobId, ext));
            && |f| == 2 && f[0].stage == Saving && f[0].resultImagePath == p && f[1].resultImagePath == p
            && (ext == "png" || ext == "jpg" || ext == "webp"))
  {
  }

  lemma SuffixEnd(ws: seq<Write>, f: seq<Write>)
    requires 0 < |f| <= |ws| && ws[|ws| - |f|..] == f
    ensures ws[|ws| - 1] == f[|f| - 1]
    ensures |f| >= 2 ==> ws[|ws| - 2] == f[|f| - 2]
  {
    assert ws[|ws| - 1] == ws[|ws| - |f|..][|f| - 1];
    if |f| >= 2 {
      assert ws[|ws| - 2] == ws[|ws| - |f|..][|f| - 2];
    }
  }

  /** The job ends Done exactly when the image step succeeds and its
      payload decodes; Saving comes just before, and both name the image
      `<entry's image directory>/<job id>-result.<sniffed extension>`. */
  lemma ResultWrites(body: Result<string, string>, ollama: (Result<(), string>, seq<string>),
                     image: (Result<string, string>, seq<Gemini.Tick>), dataRoot: string,
                     jobId: string, entryId: string)
    ensures var ws := ComicWrites(body, ollama, image, dataRoot, jobId, entryId);
      && (ws[|ws| - 1].stage == Done <==>
            body.Ok? && ollama.0.Ok? && image.0.Ok? && DecodeBase64Png(image.0.value).Ok?)
      && (ws[|ws| - 1].stage == Done ==>
            var ext := GuessImageExtension(DecodeBase64Png(image.0.value).value);
            var p := Some(ResultPath(ImagesDir(dataRoot, entryId), jobId, ext));
            && ws[|ws| - 2].stage == Saving
            && ws[|ws| - 2].resultImagePath == p && ws[|ws| - 1].resultImagePath == p
            && (ext == "png" || ext == "jpg" || ext == "webp"))
  {
    var ws := ComicWrites(body, ollama, image, dataRoot, jobId, entryId);
    LastWrites(body, ollama, image, dataRoot, jobId, entryId);
    if body.Ok? && ollama.0.Ok? {
      var f := FinishWrites(image.0, Text.Concat(ollama.1), ImagesDir(dataRoot, entryId), jobId);
      FinishDone(image.0, Text.Concat(ollama.1), ImagesDir(dataRoot, entryId), jobId);
      SuffixEnd(ws, f);
    }
  }

  /** Throttled progress after position `from`: every Rendering write
      there is a positive multiple of 5 (within its total when `bounded`),
      and they strictly increase. */
  predicate ThrottledAfter(ws: seq<Write>, from: nat, bounded: bool) {
    && (forall i :: from < i < |ws| && ws[i].stage.Rendering? ==>
          ws[i].stage.completed % 5 == 0 && ws[i].stage.completed > 0
          && (bounded ==> ws[i].stage.completed <= ws[i].stage.total))
    && (forall i, j :: from < i < j < |ws| && ws[i].stage.Rendering? && ws[j].stage.Rendering? ==>
          ws[i].stage.completed < ws[j].stage.completed)
  }

  lemma ThrottledShift(head: seq<Write>, after: seq<Write>, bounded: bool)
    requires ThrottledAfter(after, 0, bounded)
    ensures ThrottledAfter(head + after, |head|, bounded)
  {
    var ws := head + after;
    assert forall i :: |head| <= i < |ws| ==> ws[i] == after[i - |head|];
  }

  /** Once the storyboard is ready: one Rendering write of 1 of 1, then
      throttled progress. */
  lemma AfterPromptRendering(sb: string, image: (Result<string, string>, seq<Gemini.Tick>),
                             dir: string, jobId: string)
    ensures var after := AfterPrompt(Ok(()), sb, image, dir, jobId);
      && after[0] == Write(Rendering(1, 1), None, Some(sb))
      && ThrottledAfter(after, 0, Gemini.Rising(image.1))
  {
    var kept := Throttle(image.1, 0);
    var rw := RenderWrites(kept, sb);
    var f := FinishWrites(image.0, sb, dir, jobId);
    RenderWritesShape(kept, sb);
    ThrottleKept(image.1, 0);
    ThrottleIncreasing(image.1, 0);
    FinishShape(image.0, sb, dir, jobId);
    var after := [Write(Rendering(1, 1), None, Some(sb))] + rw + f;
    assert AfterPrompt(Ok(()), sb, image, dir, jobId) == after;
    ThrottledLayout(image.1, kept, sb, rw, f, after);
  }

  /** Rendering (1,1), one write per kept report, then writes that are not
      Rendering: throttled progress. */
  lemma ThrottledLayout(ticks: seq<Gemini.Tick>, kept: seq<Gemini.Tick>, sb: string,
                        rw: seq<Write>, f: seq<Write>, after: seq<Write>)
    requires forall t :: t in kept ==> t.completed > 0 && t.completed % 5 == 0 && t in ticks
    requires forall i, j :: 0 <= i < j < |kept| ==> kept[i].completed < kept[j].completed
    requires |rw| == |kept|
    requires forall i :: 0 <= i < |kept| ==> rw[i] == Write(Rendering(kept[i].completed, kept[i].total), None, Some(sb))
    requires forall i :: 0 <= i < |f| ==> !f[i].stage.Rendering?
    requires after == [Write(Rendering(1, 1), None, Some(sb))] + rw + f
    ensures ThrottledAfter(after, 0, Gemini.Rising(ticks))
  {
    assert forall i :: 0 < i <= |rw| ==> after[i] == rw[i - 1];
    assert forall i :: |rw| < i < |after| ==> after[i] == f[i - 1 - |rw|];
    forall i | 0 < i < |after| && after[i].stage.Rendering?
      ensures after[i].stage.completed % 5 == 0 && after[i].stage.completed > 0
      ensures Gemini.Rising(ticks) ==> after[i].stage.completed <= after[i].stage.total
    {
      assert kept[i - 1] in kept && kept[i - 1] in ticks;
    }
  }

  /** The Rendering writes of the whole job: none before the storyboard
      is complete, then one of 1 of 1, then throttled progress. */
  lemma RenderingWrites(body: Result<string, string>, ollama: (Result<(), string>, seq<string>),
                        image: (Result<string, string>, seq<Gemini.Tick>), dataRoot: string,
                        jobId: string, entryId: string)
    requires body.Ok? && ollama.0.Ok?
    ensures var ws := ComicWrites(body, ollama, image, dataRoot, jobId, entryId);
      var first := 3 + |ollama.1|;
      && ws[first] == Write(Rendering(1, 1), None, Some(Text.Concat(ollama.1)))
      && (forall i :: 0 <= i < first ==> !ws[i].stage.Rendering?)
      && ThrottledAfter(ws, first, Gemini.Rising(image.1))
  {
    var ws := ComicWrites(body, ollama, image, dataRoot, jobId, entryId);
    var pieces := ollama.1;
    var sb := Text.Concat(pieces);
    var dir := ImagesDir(dataRoot, entryId);
    var pw := PromptWrites(pieces);
    var after := AfterPrompt(Ok(()), sb, image, dir, jobId);
    PromptWritesShape(pieces);
    AfterPromptRendering(sb, image, dir, jobId);
    var head := [Write(Parsing, None, None), Write(Storyboarding, None, None), Write(Prompting, None, None)] + pw;
    assert ws == head + after;
    assert forall i :: 3 <= i < |head| ==> head[i] == pw[i - 3];
    ThrottledShift(head, after, Gemini.Rising(image.1));
    assert ws[|head|] == after[0];
    assert forall i :: 0 <= i < |head| ==> ws[i] == head[i];
  }

  /** The Gemini chain's reports are well formed, so Rendering writes
      stay within their total; with nano-banana configured there are no
      reports, so the only Rendering write is the first. */
  lemma ImageTicks(settings: Settings.Settings, envKey: Option<string>, out: Outcomes,
                   parse: string -> Option<Json.Json>, sb: string)
    ensures Gemini.Rising(ImageOutcome(settings, envKey, out, parse, sb).1)
    ensures settings.nanoBananaBaseUrl.Some? ==> Throttle(ImageOutcome(settings, envKey, out, parse, sb).1, 0) == []
  {
    if settings.nanoBananaBaseUrl.None? {
      Gemini.StreamTicks(settings, envKey, out.geminiStream, out.fetch, parse);
    }
  }
}
