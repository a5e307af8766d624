# toonana core, modelled in Dafny

toonana is a desktop journal (a Tauri application with a Rust back end).
It turns journal entries into comics:

- a local Ollama server writes a storyboard from the entry;
- an image service draws it: a self-hosted "nano-banana" renderer, or Google's Gemini image model, streamed, with a one-shot request as fallback;
- the comic job publishes its progress as a sequence of status writes that the front end polls.

It also generates an avatar portrait in the same way, and lists the comics of recent entries grouped by day.

This project models the part of the back end that decides what the application does once the network, clock, file system and database have answered:

- the response parsers and image extractors of the Gemini and Ollama clients;
- the base64 and image-format helpers;
- the comic and avatar jobs, as sequences of status writes into shared maps;
- the job registries and the commands that create, query and cancel jobs;
- the entry store's rules;
- the gallery grouping.

Every outside answer is an input: the HTTP replies, chunked streams, JSON parser, clock, directory listings, heartbeat count, and the entry body the comic job loads (the comic job takes it as given, not from `Database.Db.GetEntryBody`).

Modules, one per file:

| module | models |
|---|---|
| `Wrappers` | `Option` and `Result` |
| `Bytes` | bytes |
| `Text` | the `str` methods the code calls: trim, prefix, find, split, ASCII lower-casing |
| `Paths` | `Path::extension` and `Path::join` |
| `Json` | the JSON values the code inspects |
| `Base64` | strict padded base64 (section 4 of RFC 4648) |
| `Utf8` | `String::into_bytes` and `String::from_utf8` |
| `LineSplit` | newline framing of a chunked stream |
| `Http` | status codes and scripted replies |
| `Settings` | the settings record |
| `GeminiSearch` | the recursive image and URI search |
| `Gemini` | the Gemini and nano-banana client |
| `Ollama` | the Ollama client |
| `Comic` | the comic helpers and the comic job |
| `ComicTrace` | what the comic job's writes guarantee |
| `Database` | the entry store |
| `App` | the command layer in `lib.rs` |
| `Gallery` | `list_comics_by_day` |

Where the code does work step by step, the model does too:

- the stream readers, the comic and avatar jobs, the newest-file scan and the gallery loop are methods with loops;
- the status maps and the database are classes whose methods update their fields;
- each method is proved equal to a specification function, and the lemmas state what the source promises about that function.

## Model

| member | source | states |
|---|---|---|
| GeminiSearch.Direct | src-tauri/src/gemini.rs:22-69 | a direct hit is found only on an object and is accepted by the target (non-empty for images, http(s) for URIs) |
| GeminiSearch.FileUri | src-tauri/src/gemini.rs:57-69 | a `fileData`/`file_data` URI counts as image data only when it starts with `data:` |
| GeminiSearch.FindImageData | src-tauri/src/gemini.rs:20-91 | `find_image_data` never returns an empty string |
| GeminiSearch.FindHttpUri | src-tauri/src/gemini.rs:171-217 | `find_http_uri` returns only strings starting with `http://` or `https://` |
| GeminiSearch.SearchIsFirstInPreorder | src-tauri/src/gemini.rs:73-91 | the recursive search returns exactly the direct hit of the first node, in depth-first preorder (array items in order, object values in iteration order), that has one |
| GeminiSearch.FirstDirectIsEarliest | src-tauri/src/gemini.rs:20-91 | the first hit comes from the earliest node that has one, and there is none only when no node has one |
| GeminiSearch.SearchItemsIsFirst | src-tauri/src/gemini.rs:74-81 | searching array items returns the first hit in the items' preorder |
| GeminiSearch.SearchFieldsIsFirst | src-tauri/src/gemini.rs:82-89 | searching object values returns the first hit in the values' preorder |
| Gemini.ApiKey | src-tauri/src/gemini.rs:93-97 | the key is missing only when neither the settings nor `GEMINI_API_KEY` supply it |
| Gemini.StripData | src-tauri/src/gemini.rs:160-164 | a line starting with `data: ` loses exactly that prefix; any other line is kept as it is |
| Gemini.LastHitIsLast | src-tauri/src/gemini.rs:166-169 | the payload kept comes from the last line that has one; it is none only when no line has one |
| Gemini.FirstHitIsFirst | src-tauri/src/gemini.rs:218-220 | the URI kept comes from the first line that has one; it is none only when no line has one |
| Gemini.ProgressValue | src-tauri/src/gemini.rs:226-229 | after n processed lines the progress is min(1 + 2n, 99) |
| Gemini.LineTicksShape | src-tauri/src/gemini.rs:145-229 | the line reports start at (1,100), are odd, out of 100, strictly increase and end at the current progress |
| Gemini.LineTicksBounded | src-tauri/src/gemini.rs:226-229 | every line report is odd and at most 99 |
| Gemini.Finish | src-tauri/src/gemini.rs:238-254 | after (99,100): an inline payload wins; else the fetched URI bytes, base64-encoded; else "gemini stream: no image data received", or the fetch error with its "fetch uri failed" / "read uri bytes failed" text; (100,100) is reported exactly on success |
| Gemini.GenerateImageStream | src-tauri/src/gemini.rs:14-255 | the streamed request's result and reports are those of its specification, over the key check, the send, the status check and the stream |
| Gemini.ReadStream | src-tauri/src/gemini.rs:149-236 | the chunk loop processes every newline-terminated line of the received text exactly once, in order, and stops at the first stream error |
| Gemini.HandleLines | src-tauri/src/gemini.rs:157-231 | the line loop keeps the latest payload, the first URI, and the progress and reports of the lines seen |
| Gemini.StreamTicks | src-tauri/src/gemini.rs:142-252 | the streamed request's reports start at (1,100) when there are any, rise within 1..100 with total 100, and end with (100,100) exactly when it succeeds |
| Gemini.StreamInlineFirst | src-tauri/src/gemini.rs:240-242 | with an inline payload the result is that payload and no URI is fetched |
| Gemini.GenerateImageOnce | src-tauri/src/gemini.rs:258-446 | each outcome of the one-shot request: no key, a failed send, an HTTP error with status and body, a body that does not decode, the inline image data, the fetched URI bytes base64-encoded, "no inline image data", and the two fetch errors, each with its own text |
| Gemini.WithProgress | src-tauri/src/gemini.rs:448-459 | the progress reports are exactly the streamed request's; a streamed success is the result; otherwise the one-shot result, its error prefixed with "gemini image failed: " |
| Gemini.StreamErrorDiscarded | src-tauri/src/gemini.rs:453-457 | once streaming fails, the outcome no longer depends on how it failed: it is the one-shot request's success, or its error prefixed with "gemini image failed: " |
| Gemini.WithAvatarDescription | src-tauri/src/gemini.rs:461-469 | the text is unchanged exactly when the description is absent or blank; otherwise it is followed by the consistency note for the subject and then the description |
| Gemini.BuildPromptWithAvatarText | src-tauri/src/gemini.rs:461-469 | the prompt comes back unchanged exactly when the avatar description is absent or whitespace; otherwise the header and description are appended |
| Gemini.AvatarMime | src-tauri/src/gemini.rs:491-495 | image/jpeg exactly for a `jpg` or `jpeg` extension, image/webp exactly for `webp` (compared in ASCII lower case), image/png otherwise, including no extension |
| Gemini.AvatarImagePart | src-tauri/src/gemini.rs:486-500 | an image part exists exactly when a path is set and the file can be read |
| Gemini.NanoBananaRequest | src-tauri/src/gemini.rs:502-533 | no request exactly when the base URL is unset ("nano-banana base URL not set in settings"); the URL is the base with trailing '/' removed plus "/generate"; the storyboard sent is the given one, followed by the "…across panels." note and the description exactly when the description is set and not blank; the API key is passed through |
| Gemini.NanoUrlSingleSlash | src-tauri/src/gemini.rs:511 | the request URL ends in "/generate" with no second '/' before it, unless the URL is "/generate" alone |
| Gemini.NanoBananaReply | src-tauri/src/gemini.rs:535-553 | success exactly on a successful decoded reply holding a string `image_base64`, else `image`, preferring the first |
| Gemini.NanoBananaGenerate | src-tauri/src/gemini.rs:502-553 | without a base URL the call fails with the fixed text; with one, the reply decides |
| LineSplit.LinesTailPartition | src-tauri/src/ollama.rs:183-205 | the text is its lines, each followed by '\n', then the unterminated tail; no line holds '\n' |
| LineSplit.AppendChunk | src-tauri/src/gemini.rs:152-236 | appending a chunk completes exactly the lines of the kept tail plus the chunk, so no line is processed twice or lost |
| LineSplit.ScanLines | src-tauri/src/ollama.rs:184-204 | the character loop cuts exactly the completed lines and keeps the tail |
| Ollama.BaseUrl | src-tauri/src/ollama.rs:38-40 | the configured server address, else http://127.0.0.1:11434 |
| Ollama.ModelName | src-tauri/src/ollama.rs:85-87 | the caller's model, else the configured default, else "gemma3:1b" |
| Ollama.Request | src-tauri/src/ollama.rs:77-97 | the URL is the base URL followed by `/api/generate`; the model is the caller's, else the configured default, else "gemma3:1b"; prompt and stream flag are passed through |
| Ollama.StatusError | src-tauri/src/ollama.rs:105-111 | 404 and 502 give "Ollama server not reachable…" ahead of the generic "ollama error: HTTP <status>"; success gives no error |
| Ollama.ReadGenerated | src-tauri/src/ollama.rs:117-134 | a top-level `response` string is the result; otherwise an array whose items' `response` strings concatenate to a non-empty text gives that text; anything else is "Unexpected Ollama response format" |
| Ollama.EmptyOutputIff | src-tauri/src/ollama.rs:122-131 | an array reply is refused exactly when none of its items has a non-empty `response` |
| Ollama.Generate | src-tauri/src/ollama.rs:77-135 | `generate` sends the non-streamed request built from its arguments and returns the reply's reading, which succeeds only on a successful, decoded reply |
| Ollama.DeliveredNonEmpty | src-tauri/src/ollama.rs:188-195 | no empty piece is handed to the callback |
| Ollama.StreamEnd | src-tauri/src/ollama.rs:207-219 | after the stream the trimmed tail is read as one more line; a stream error ends the call before it |
| Ollama.StreamOutcome | src-tauri/src/ollama.rs:137-219 | the streamed call succeeds exactly when the request is answered with a success status and the stream does not fail; pieces are delivered only after a success status, and none is empty |
| Ollama.GenerateStreaming | src-tauri/src/ollama.rs:137-219 | `generate_streaming` sends a streamed request and hands on, in order, the non-empty `response` of each completed line and then of the tail |
| Ollama.ReadChunks | src-tauri/src/ollama.rs:178-205 | the chunk loop delivers the pieces of every completed line of the received text once, in order, keeps the unterminated tail, and reports the first stream error |
| Ollama.DeliverLines | src-tauri/src/ollama.rs:185-199 | the line loop delivers the pieces of the lines it is given, in order |
| Ollama.NamesComplete | src-tauri/src/ollama.rs:49-52 | every present model name is listed, in order, and the list is shorter exactly when a name is missing |
| Ollama.CheckHealth | src-tauri/src/ollama.rs:37-70 | a success status gives ok=true with the model names listed, or the decode error; a failure status gives ok=false with "HTTP <status>"; a failed send gives ok=false with the send error |
| Ollama.ListModels | src-tauri/src/ollama.rs:72-75 | fails exactly when the health check does; names are listed only when the server is healthy, and then they are its models |
| Base64.DecodeEncode | src-tauri/src/comic.rs:54 | decoding an encoding gives the bytes back |
| Base64.EncodeDecode | src-tauri/src/comic.rs:54 | strict decoding accepts only canonical encodings: whatever decodes is the encoding of its result |
| Comic.AfterComma | src-tauri/src/comic.rs:49-53 | the payload is the text after the first ',' or the whole text when there is none |
| Comic.DecodeBase64Png | src-tauri/src/comic.rs:48-55 | success exactly when the text after the first ',' is strict base64, which is then the encoding of the result; failures are prefixed "base64 decode: " |
| Comic.DecodeDataUri | src-tauri/src/comic.rs:48-55 | `decode(p + "," + encode(b)) == b` for a comma-free header p |
| Comic.DecodeBare | src-tauri/src/comic.rs:48-55 | `decode(encode(b)) == b` |
| Comic.GuessImageExtension | src-tauri/src/comic.rs:57-74 | the result is png, jpg or webp; jpg exactly for FF D8 FF; webp exactly for RIFF….WEBP |
| Comic.GuessBySignature | src-tauri/src/comic.rs:57-74 | whatever follows a signature, the format it marks is recognised |
| Comic.SaveImageToDisk | src-tauri/src/comic.rs:266-281 | success exactly when the payload decodes and the write succeeds; the path is `<data>/images/<entry>/<panel>.png` |
| Comic.Posted | src-tauri/src/comic.rs:90-260 | after the job's writes the map holds, under the job id, a status with that job id, entry id and style, and the last write's stage, result image path, storyboard text and time; every other job's status is unchanged |
| App.AvatarPosted | src-tauri/src/lib.rs:330-424 | after the avatar job's writes the map holds, under the job id, the last stage and image written and its time; every other job's status is unchanged |
| Comic.ComicStatusMap.Insert | src-tauri/src/comic.rs:90-98 | an insert adds or replaces the status under the key and changes nothing else |
| Comic.ComicStatusMap.Get | src-tauri/src/lib.rs:234-238 | the stored status under the key, when there is one |
| Comic.ImageOutcome | src-tauri/src/comic.rs:188-206 | with a nano-banana base URL only nano-banana is asked and no progress is reported |
| Comic.ComicWrites | src-tauri/src/comic.rs:88-263 | every run writes Parsing, then Storyboarding, and at least one more status |
| Comic.RunComicJob | src-tauri/src/comic.rs:76-264 | the job's writes are exactly those its specification gives for the outcomes, and the map holds the last of them under the job id |
| Comic.Storyboard | src-tauri/src/comic.rs:144-159 | each storyboard piece is appended to the text and written as Prompting with the text so far |
| Comic.Ticks | src-tauri/src/comic.rs:191-205 | the progress callback writes Rendering, with the storyboard, for exactly the reports the throttle keeps, in order, and the map then holds the last write |
| Comic.Finish | src-tauri/src/comic.rs:208-262 | the writes after the image step are those of its specification |
| ComicTrace.StageOrder | src-tauri/src/comic.rs:88-263 | stages never go back (Parsing, Storyboarding, Prompting, Rendering, Saving, Done/Failed), and exactly the last write is Done or Failed |
| ComicTrace.StepwiseOrdered | src-tauri/src/comic.rs:88-263 | writes whose stage never goes back between neighbours never go back at all |
| ComicTrace.PromptWritesShape | src-tauri/src/comic.rs:147-159 | the k-th storyboard write is Prompting with the first k+1 pieces |
| ComicTrace.StoryboardGrows | src-tauri/src/comic.rs:144-171 | a later write's storyboard text extends an earlier one's, and the k-th Prompting write after the empty one holds exactly the first k pieces |
| ComicTrace.LastWrites | src-tauri/src/comic.rs:114-262 | a load failure ends the job with Failed("load entry failed: …") and a storyboard failure with Failed("ollama prompting failed: …"), both without text; otherwise the job ends with the writes after the image step |
| ComicTrace.FailureText | src-tauri/src/comic.rs:114-171 | the last write is Failed with no storyboard text exactly when loading or storyboarding failed |
| ComicTrace.ResultWrites | src-tauri/src/comic.rs:208-248 | Done is written exactly when everything succeeds and the image decodes; Saving precedes it; both carry `images/<entry>/<job>-result.<ext>` with ext png, jpg or webp |
| ComicTrace.RenderingWrites | src-tauri/src/comic.rs:174-206 | the first Rendering write is (1,1) with the full storyboard and comes after every storyboard write; each later Rendering is a positive multiple of 5, they strictly increase, and each is within its total when the reports rise |
| ComicTrace.ThrottleKept | src-tauri/src/comic.rs:193-194 | a kept report is above the last one kept, a multiple of 5, and one of the reports |
| ComicTrace.ThrottleIncreasing | src-tauri/src/comic.rs:191-204 | kept reports strictly increase |
| ComicTrace.ThrottleKeeps | src-tauri/src/comic.rs:193-194 | a report that is a multiple of 5, above the starting mark and above every earlier report is kept |
| ComicTrace.ImageTicks | src-tauri/src/comic.rs:188-206 | the reports of the image step rise within 1..100; with nano-banana none are written |
| Database.TagsRoundTrip | src-tauri/src/database.rs:183-221 | tags survive storage whenever the parser reads back what the serializer writes |
| Database.UpsertNew | src-tauri/src/database.rs:185-194 | a new row gets created_at = updated_at = now and no embedding |
| Database.UpsertTwice | src-tauri/src/database.rs:185-194 | a second upsert keeps the first creation time and the embedding and overwrites the rest |
| Database.BodyPreview | src-tauri/src/database.rs:256-269 | no preview exactly when the body is not UTF-8 |
| Database.PreviewOfText | src-tauri/src/database.rs:256-266 | a body of at most 50 bytes shows trimmed; a longer one shows its first 50 characters, trimmed, plus "..." |
| Database.PreviewMarksUncut | src-tauri/src/database.rs:260-262 | the byte count decides the ellipsis: a text of at most 50 characters but more than 50 bytes is shown whole, trimmed, and still gets "..." |
| Database.PreviewQuirkExample | src-tauri/src/database.rs:260-262 | 26 copies of 'é' (52 bytes, 26 characters) preview as the whole text plus "..." |
| Database.Window | src-tauri/src/database.rs:238-245 | `LIMIT`/`OFFSET` select a contiguous run of the ordered rows, at most `limit` long; a full page when enough rows follow the offset, and all the rows after it (none past the end) when fewer follow or the limit is negative |
| Database.WindowPages | src-tauri/src/database.rs:238-245 | consecutive pages of n rows join into the page of 2n rows |
| Database.DefaultPage | src-tauri/src/database.rs:235-236 | with no parameters the first 100 rows are listed |
| Database.NewestFirstExists | src-tauri/src/database.rs:239 | every table has a newest-first listing |
| Database.Db.GetEntry | src-tauri/src/database.rs:209-232 | the stored row under the id, with its times, body, mood and embedding, and its tags parsed; sqlx's no-rows error exactly when the id is not stored |
| Database.Db.UpsertEntry | src-tauri/src/database.rs:180-207 | the row is stored under the given or fresh id with the new fields, and the stored entry is returned; other tables are untouched |
| Database.Db.GetEntryBody | src-tauri/src/database.rs:285-301 | the body as text; "db: …" when the row is missing, "utf8: …" when it is not UTF-8 |
| Database.Db.ListEntries | src-tauri/src/database.rs:234-283 | the requested page of the newest-first listing, newest first |
| Database.Db.DeleteEntry | src-tauri/src/database.rs:303-323 | the entry's panels, storyboards and row go; every other row stays; an absent id is still Ok |
| Database.DeleteIdempotent | src-tauri/src/database.rs:303-323 | deleting twice is deleting once, and deletions commute |
| Utf8.DecodeEncode | src-tauri/src/lib.rs:149-156 | decoding the bytes of a string gives it back |
| Utf8.EncodeDecode | src-tauri/src/lib.rs:154-156 | bytes that decode are the encoding of their text |
| Utf8.ValidPrefix | src-tauri/src/lib.rs:154-156 | on invalid input the error's `valid_up_to` marks a prefix that does decode |
| App.MimeOf | src-tauri/src/lib.rs:292-298 | image/png on a decode failure; otherwise the media type of the sniffed format |
| App.ToDataUri | src-tauri/src/lib.rs:287-300 | the result is a data URI; one given is kept; anything else is wrapped as `data:<mime>;base64,<input>` |
| App.ToDataUriIdempotent | src-tauri/src/lib.rs:287-300 | normalising twice is normalising once |
| App.WrapEncoding | src-tauri/src/lib.rs:394-408 | a bare encoding is wrapped as `data:<mime>;base64,<encoding>` under the media type of the image it encodes (jpeg, webp or png) |
| App.DataUriRoundTrip | src-tauri/src/lib.rs:394-408 | the payload of the data URI made from an encoding decodes back to the image |
| App.Encrypt | src-tauri/src/lib.rs:149-151 | encryption always succeeds and gives the UTF-8 bytes |
| App.Decrypt | src-tauri/src/lib.rs:154-156 | decryption fails exactly on invalid UTF-8, with the library's message; what it returns encrypts back to the input |
| App.DecryptEncrypt | src-tauri/src/lib.rs:149-156 | `decrypt(encrypt(s)) == Ok(s)` |
| App.GenerateAvatarImage | src-tauri/src/lib.rs:274-322 | nano-banana's answer, if configured and successful, as a data URI; otherwise Gemini's answer as a data URI, or "avatar generation failed: " followed by Gemini's error |
| App.AvatarAttempt | src-tauri/src/lib.rs:352-387 | nano-banana first when configured (heartbeats counted), Gemini after its failure or in its absence; the reports rise and start at (1,100) |
| App.HeartbeatShape | src-tauri/src/lib.rs:362-371 | the heartbeat writes 2, 4, … one per beat, stopping at 98 |
| App.TickWritesShape | src-tauri/src/lib.rs:373-381 | every Gemini report is written as Rendering, unthrottled |
| App.Final | src-tauri/src/lib.rs:389-425 | Done carries the image as a data URI; Failed carries the error and no image |
| App.RunEnds | src-tauri/src/lib.rs:352-425 | exactly the last avatar write is Done or Failed; Done has a data URI, Failed has none |
| App.FallbackRegresses | src-tauri/src/lib.rs:362-381 | after a nano-banana failure the progress goes back from the heartbeat's value to Gemini's first report of 1 |
| App.GeminiProgressRises | src-tauri/src/lib.rs:383-387 | without nano-banana the avatar's progress never goes back and stays within 100 |
| App.AppState.CreateComicJob | src-tauri/src/lib.rs:198-227 | a Queued status under the new id, its task handle registered under the same id, and that id returned |
| App.AppState.GetComicJobStatus | src-tauri/src/lib.rs:229-239 | the stored status, or "job not found" |
| App.AppState.CancelJob | src-tauri/src/lib.rs:241-247 | the id leaves the table of running jobs, an unknown id is no error, and the statuses are untouched |
| App.AppState.CreateAvatarJob | src-tauri/src/lib.rs:324-336 | a Queued avatar status under the new id, its task handle registered, the id returned |
| App.AppState.GetAvatarJobStatus | src-tauri/src/lib.rs:432-442 | the stored avatar status, or "job not found" |
| App.AppState.Heartbeats | src-tauri/src/lib.rs:362-371 | the heartbeat loop makes exactly the heartbeat writes |
| App.AppState.Forward | src-tauri/src/lib.rs:373-381 | the progress callback writes every report in order |
| App.AppState.RunAvatarJob | src-tauri/src/lib.rs:344-427 | the avatar job's writes are exactly those its provider outcomes give, and the map holds the last under the job id |
| Gallery.NewestOfSpec | src-tauri/src/lib.rs:511-536 | the scan finds nothing exactly when the directory has no image; otherwise it finds the newest image, the first listed on a tie |
| Gallery.PickNewest | src-tauri/src/lib.rs:512-536 | the scan loop computes the newest image |
| Gallery.AddToDaySpec | src-tauri/src/lib.rs:538-544 | adding a comic keeps the days ordered and non-empty, appends it to its own day and leaves the others alone |
| Gallery.GroupedSpec | src-tauri/src/lib.rs:502-545 | under each day the map holds exactly that day's comics in list order, and no day without one |
| Gallery.DayItemsOfDay | src-tauri/src/lib.rs:503-505 | every comic listed under a day was written on that day |
| Gallery.ItemOf | src-tauri/src/lib.rs:502-545 | an entry yields a comic exactly when its timestamp has a day and its image directory exists and holds an image; the comic is dated by that day and names the image `NewestOf` picks from the listing |
| Gallery.ByDaySpec | src-tauri/src/lib.rs:547-556 | days come newest first, none twice or empty, each with exactly its comics; at most `limit` days |
| Gallery.ByDayComplete | src-tauri/src/lib.rs:547-556 | a day with comics is left out only when `limit` newer days fill the list |
| Gallery.NewestDays | src-tauri/src/lib.rs:547-555 | reading the ascending day map backwards and taking `limit` gives its newest days, newest first; fewer than all days only when `limit` is reached |
| Gallery.ListComicsByDay | src-tauri/src/lib.rs:484-557 | the command returns the grouping of the first 2000 entries, newest first, limited to `limit_days` (default 120) |
| Gallery.GroupEntries | src-tauri/src/lib.rs:502-545 | the entry loop builds exactly the by-day map |

## Left out

- HTTP. Requests, headers, timeouts and bodies are not modelled. Replies, chunk streams and URI fetches are scripted inputs, and the send and transport error texts are fixed stand-ins.
- Concurrency. `tokio::spawn`, `select!`, `sleep`, `abort` and DashMap locking are left out:
  - each job runs sequentially over scripted outcomes;
  - the nano-banana heartbeat is a given number of beats;
  - `abort` is removal from the table of running jobs only;
  - a comic or avatar task and a concurrent command never interleave.
- JSON text. `serde_json::from_str` is a parameter (`parse`), and serialisation is a parameter (`serialize`). The iteration order of an object's fields is the order of the model's field list.
- `String::from_utf8_lossy` on each chunk. Chunks arrive as text, so a multi-byte character split across chunks is not corrupted as it can be in the code.
- The clock (`now_iso`, `SystemTime`), `Uuid::new_v4`, the environment variable `GEMINI_API_KEY` and settings loading. These are parameters.
- The file system. Directory listings and file reads are parameters; writes are modelled as their outcome. `exists` and a failing `read_dir` are one case (no listing).
- SQL. The tables are maps, and statements never fail. The tie order of `ORDER BY created_at DESC` is a parameter (`order`) satisfying `NewestFirst`.
- Logging (`tracing`).
- The fixed prompt templates. The storyboard prompt and the avatar prompt are parameters (`template`, `prompt`).
- The f32 sampling fields of the settings, which are unused.
- The `avatar_description` and `avatar_image_path` settings are read by `gemini.rs` but not declared in `settings.rs`; the `Settings` datatype includes them.
- `Comic.DecodeBase64Png`: the `base64` crate's error message is replaced by a fixed text after the same "base64 decode: " prefix.
- `Paths.Join`: joining does not normalise paths and assumes a relative component.
- `Ollama.CheckHealth`: the `GET <base>/api/tags` request itself is not modelled; the function starts from its reply.
- `App.AppState.RunAvatarJob`: the fallback's progress callback also updates `last_tick`, which nothing reads afterwards. That update has no observable effect and is not modelled.
- `App.AppState.CancelJob`: one member models both `cancel_job` and `cancel_avatar_job`, which have the same body over the one shared task table.
- `Gallery.ListComicsByDay`: `list_entries`' `?` cannot fail here because the store's queries never fail. The sort of the collected map by date is modelled as reversing its ascending iteration order, which gives the same result because dates are unique keys.
- Commands that are file I/O or configuration only are not part of this model: `health`, `get_settings`, `update_settings`, `init_vault`, `export_pdf`, `save_avatar_image`, and the database wrappers that only forward.
