# Speech-To-Text core, modelled in Dafny

This project models the core logic of the Go speech-to-text command-line tool
`timpratim/Speech-To-Text`, which takes a YouTube link and fetches the
audio. It then downloads a whisper.cpp model, transcribes the audio and
stores the transcript. The model covers the parts of `main.go` that decide
something, plus the `models` package behaviour that
`models/raw_transcription_test.go` pins down. It proves properties of
each part:

- **Int64**: Go's `int64` arithmetic, where additions wrap modulo 2^64 and
  `/` and `%` truncate toward zero.
- **Decimal**: `%d` and `%0Nd` formatting, with the sign counted toward
  the width.
- **Duration**: the `time.Millisecond` and `time.Second` units and `Truncate`.
- **Names**: string rules:
  - `filepath.Ext`, `Base` and `Join`;
  - `URLForModel` and Download's output path;
  - the YouTube ID `youtubeDL` cuts out of a link;
  - `strings.Index` and `strings.Replace(…, 1)`;
  - the `<id>.wav` and `<id>_corrupted.wav` names.
- **Srt**: `srtTimestamp`, together with a parser for its `HH:MM:SS,mmm`
  output that the round-trip lemma is stated against.
- **Progress**: the `ProgressWriter` class, whose `Write` forwards to a
  sink, adds to an int64 total and calls the callback.
- **Fetch / FetchFacts**:
  - `DownloadReport`;
  - `Download`: its checks before the loop (request, status, an existing
    file of the right size, file creation) and its read loop;
  - what the loop keeps invariant.
- **Transcribe**:
  - the model-selection loop of `transcribe`;
  - `decodePCMBuffer`;
  - the reconversion when the first decode yields no samples;
  - `youtubeDL` and `saveWav`;
  - `GetModels`.
- **Segments**: the segment stream of a processed whisper context, plus
  `OutputSRT` and `Output`.
- **Records**: `RawTranscription`, `Transcription`, `ToModel` and `ToMap`.

Every call out of the process is an input of the model:

- the YouTube client, `os.Stat`, `os.Create`, ffmpeg, the WAV decoder and
  HTTP;
- the `select` of the download loop: Download takes a sequence of events,
  one per iteration, each saying which case ran and what `Read` and
  `Write` answered;
- the sink behind `ProgressWriter`;
- whisper's `NextSegment`.

Go's `error` values are a datatype: `io.EOF`, `context.Canceled`,
`context.DeadlineExceeded`, a message, or a message wrapping a cause (`%w`).
The model compares them structurally, so two distinct Go errors with the
same text are equal in the model. That is harmless here, because the core
only ever compares an error against `io.EOF`, `context.Canceled` and
`context.DeadlineExceeded`. A wrapped `io.EOF` is not `io.EOF` in either.

Where the code and its documentation disagree, the model follows the
code:

- `ProgressWriter.Write` calls the callback whenever one is set, even for
  a write the sink failed. It does not look at whether the total is known.
- A download that completes ends with the `io.EOF` of the body's `Read`. So
  `Download` never returns a nil error for a fresh download; the model loop
  accepts `io.EOF` as success.
- The bytes of a `Read` that returns both data and an error are dropped.
- `DownloadReport` divides by `ContentLength`, so a response with
  `ContentLength` 0 ends in a run-time panic at the first tick or at the
  final report. The model records that as the `Panicked` outcome.
- For a response of unknown length (`ContentLength` −1), `DownloadReport`
  divides by −1. The percentage then goes negative and falls as bytes
  arrive, so "the percentage never decreases" holds only for a known
  positive length.
- The retry's file name is right for every ID without `_corrupted`
  (Names.StripFresh). An ID that contains it can be renamed wrongly. For
  an ID that starts with it, such as `_corruptedx`, the first
  `_corrupted` taken out is the ID's own, and the retry converts into
  `x_corrupted.wav`, a file a later youtubeDL of the same link never
  looks for.
- `OutputSRT` stops at the first error of any kind and always returns a
  nil error. `Output` returns nil only for `io.EOF`.

## Model

| member | source | states |
|---|---|---|
| Int64.Wrap | main.go:544 | The int64 that `count += int64(m)` stores lies in [Min, Max] and equals the mathematical value whenever that fits. |
| Int64.WrapAdd | main.go:174 | Wrapping a running total after every addition equals wrapping the whole sum once, so the int64 totals are the wrapped sums. |
| Int64.QuotSpec | main.go:552 | Go's `/` truncates: \|q\|·\|b\| ≤ \|a\| < (\|q\|+1)·\|b\|, and a non-zero q is negative exactly when the operands' signs differ (Quot(1, −2) is 0). |
| Int64.RemSpec | main.go:469 | Go's `%`: a = q·b + r, \|r\| < \|b\|, and a non-zero r has the sign of a. |
| Int64.QuotNonNegative | main.go:469 | On a non-negative dividend and a positive divisor, Go's `/` and `%` agree with Euclidean division. |
| Int64.QuotNegate | main.go:469 | Negating the dividend negates both the truncated quotient and the remainder. |
| Int64.Quot | main.go:552 | No contract of its own. Go's truncating `/`, written out by the operands' signs; Int64.QuotSpec states its bounds and sign. |
| Int64.Rem | main.go:469 | No contract of its own. Go's `%`, the remainder of Int64.Quot; Int64.RemSpec states its equation, bound and sign. |
| Int64.Div | main.go:552 | Go's int64 `/` always yields an int64. It is the truncated quotient whenever that fits, and the one overflow, Min / -1, yields Min. |
| Decimal.Itoa | main.go:469 | `%d` of a natural number is a non-empty digit string, without a leading zero unless it is "0", whose decimal value is the number. |
| Decimal.ZeroPad | main.go:469 | `%0Nd` gives at least N characters. A non-negative value becomes digits denoting it, padded only as far as N. A negative one becomes '-' followed by digits denoting its magnitude, with the sign counted toward N. |
| Duration.Truncate | main.go:462 | `Truncate(m)` with m > 0 yields a multiple of m that is less than m away from d and lies between 0 and d; m ≤ 0 leaves d unchanged. |
| Srt.FieldBounds | main.go:469 | For t ≥ 0 the hour field is non-negative, minutes and seconds are below 60 and milliseconds below 1000. |
| Srt.FieldsSum | main.go:469 | For every t, negative ones included, hours·3600000 + minutes·60000 + seconds·1000 + milliseconds is t / time.Millisecond truncated. |
| Srt.SrtTimestamp | main.go:468-470 | `%02d:%02d:%02d,%03d` of the four fields is at least 12 characters. For t ≥ 0, Srt.ParseSrtTimestamp's round trip fixes the value and the `MM:SS,mmm` layout, but not how the hour field is padded. The exact text of every field, and of negative times, follows from Decimal.ZeroPad's contract. |
| Srt.ParseSrtTimestamp | main.go:468-470 | For t ≥ 0, reading `srtTimestamp(t)` back as `HH:MM:SS,mmm` gives t's whole milliseconds: the format loses only the sub-millisecond part. |
| Names.Ext | main.go:474 | `filepath.Ext` is a suffix of the path: either "" when the last element has no '.', or '.' followed by text containing no '.' or '/'. |
| Names.ExtAfterDot | main.go:474 | The extension of `a.b`, for b free of '.' and '/', is `.b`; so `ggml-tiny.en` has extension `.en`. |
| Names.LastPiece | main.go:393-395 | The last element of `strings.Split(s, sep)` is a suffix of s without sep, and is preceded by sep unless it is all of s. |
| Names.LastPieceAfter | main.go:393-395 | Whatever comes before the last separator does not change the last piece. |
| Names.TrimTrailing | main.go:508 | The result is a prefix of the path that is empty or ends in a non-separator, and every character dropped is a separator. So exactly the trailing separators are dropped. |
| Names.Base | main.go:508 | `filepath.Base` is never empty, and it is "/" or free of '/'. It is "." for the empty path, and "/" exactly for a non-empty path of separators only. For a path not ending in '/' it is the last element. |
| Names.Join | main.go:508 | `filepath.Join(dir, name)` starts with dir and ends with name. When both are non-empty they are separated by exactly one '/'; an empty element adds nothing. |
| Names.BaseOfJoin | main.go:508 | The base of a directory joined with a single non-empty element is that element. |
| Names.ModelPath | main.go:508 | Download's output path lies in the output directory, and its base is the base of the URL, unless the URL's base is "/". |
| Names.ModelFile | main.go:474-476 | `.bin` is appended exactly when the name's extension is not `.bin`; the result always has extension `.bin`. |
| Names.ExtOfBin | main.go:474-476 | Appending `.bin` makes the extension `.bin`, whatever came before. |
| Names.ModelFileIdempotent | main.go:474-476 | Normalising a name twice is the same as normalising it once. |
| Names.URLForModel | main.go:473-484 | The URL starts with `<srcUrl>/` and ends with the normalised model file, so it ends in `.bin`. |
| Names.DottedModelURL | main.go:473-484 | For a model `a.b` whose extension `.b` is not `.bin`, the URL is `<srcUrl>/a.b.bin`. |
| Names.ModelPathOfURL | main.go:508 | For a model name without '/', Download stores the model under `out/<name>[.bin]`: the base of the URL that URLForModel built. |
| Names.YoutubeId | main.go:393-395 | The ID is a suffix of the link that contains neither '/' nor '=', and it is preceded by '/' or '=' unless it is the whole link: the whole last piece. |
| Names.YoutubeIdIdempotent | main.go:393-395 | Cutting the ID out of an ID gives the same ID. |
| Names.YoutubeIdOfWatchLink | main.go:393-395 | For `<site>/<query>=<id>`, where the query has no '/' and the id has neither '/' nor '=', the ID is id. |
| Names.Index | main.go:326 | `strings.Index` is -1 exactly when the pattern does not occur; otherwise it is an occurrence with none before it. |
| Names.RemoveFirst | main.go:326 | `strings.Replace(s, pat, "", 1)` leaves s alone when pat does not occur. Otherwise the result is shorter by the length of pat, and putting pat back at the first occurrence's position gives s. |
| Names.StripMarker | main.go:326 | A name without `_corrupted` is unchanged; a name with it gets shorter by exactly the length of `_corrupted`. |
| Names.CachedName | main.go:396 | `<id>.wav`: the ID followed by `.wav`. |
| Names.FreshName | main.go:215 | `<id>_corrupted.wav`: the ID, then `_corrupted`, then `.wav`. |
| Names.DataPath | main.go:217 | `/data/%s`: the name under the data directory, after exactly one '/'. |
| Names.DataPathInjective | main.go:398 | Two names give the same file under /data exactly when they are equal, so the os.Stat of youtubeDL looks up the name it formed. |
| Names.StripFresh | main.go:326 | Taking the first `_corrupted` out of `<id>_corrupted.wav` gives `<id>.wav`, for an id without `_corrupted`. |
| Names.StripCached | main.go:326 | `<id>.wav` has no `_corrupted` to take out, for an id without it. |
| Names.StripMarkedId | main.go:326 | For an ID `_corrupted` + rest, the strip removes the ID's own marker and gives `<rest>_corrupted.wav`; when rest starts with a character other than `_`, that is not the ID's cached name. |
| Progress.RunningTotalsAt | main.go:174 | The total after write i is the int64-wrapped sum of the first i+1 byte counts. |
| Progress.RunningTotals | main.go:174 | One total per write; Progress.RunningTotalsAt gives the value of each. |
| Progress.ReportedTotals | main.go:172-182 | While the bytes written fit in int64, the totals the callback sees never decrease and end at the number of bytes written. |
| Progress.ProgressWriter.constructor | main.go:184-191 | NewProgressWriter starts at total 0, with the given length and callback, and nothing written or reported. |
| Progress.ProgressWriter.Write | main.go:172-182 | The sink's (n, err) is returned unchanged; n is added to the total with int64 wrap-around; the new total goes to the callback when one is set, even if the sink failed; the class invariant is kept. |
| Records.ToModel | models/raw_transcription_test.go:50-88 | One record per raw segment, in order, with the index and text copied and both times formatted. |
| Records.ToModelAppend | models/raw_transcription_test.go:50-88 | Converting a concatenation converts each part: the order of segments is kept. |
| Records.ToModelPreserves | models/raw_transcription_test.go:50-88 | Each record's index and text are the segment's, and its start and end strings are the formatter's rendering of that segment's start and stop times. |
| Records.ToModelFormatsOnlyTimes | models/raw_transcription_test.go:50-88 | Two Duration formatters that agree on the segments' start and stop times give the same records, so the four strings the test fixes decide its expected output. |
| Records.ToModelTestCase | models/raw_transcription_test.go:50-88 | TestToModel's two segments (10s-15s "Hello", 20s-25s "World") become the expected two records, given that Duration.String prints those times as the test expects. |
| Records.Record | models/raw_transcription_test.go:50-88 | A record has an empty grouping link, the segment's index and text, and both times formatted. It reads back unchanged from its map. |
| Records.RecordMap | models/raw_transcription_test.go:28-41 | A record's map has exactly the keys index, text, startTime and endTime, holding the record's fields. |
| Records.ToMap | models/raw_transcription_test.go:12-48 | One map per record, in order. |
| Records.FromMapRecordMap | models/raw_transcription_test.go:12-48 | Reading a record's map back gives the record with every field but the grouping link. |
| Records.RecordMapInjective | models/raw_transcription_test.go:12-48 | Two records have equal maps exactly when they agree on index, text and both times. |
| Records.ToMapTestCase | models/raw_transcription_test.go:12-48 | TestTranscriptions_ToMap's two records give exactly the expected two maps. |
| Segments.SegmentStream.NextSegment | main.go:434 | The next pending segment with a nil error, or the stream's error once none is left. |
| Segments.OutputSRT | main.go:429-451 | Every segment before the first error is collected in pull order, numbered 1, 2, … with its times and text; the returned error is always nil. |
| Segments.Output | main.go:454-465 | One line per segment, with times truncated to the millisecond. The error is nil when the stream ends with io.EOF, and the stream's error otherwise. The stream is drained and its stop error is left as it was. |
| Fetch.DownloadReport | main.go:551-557 | A `<count/1e6> MB written (<pct>%)` line is printed exactly when the new percentage exceeds the previous one, and it carries count/1e6 and the new percentage. The new percentage itself is the int64 expression of main.go:552; Fetch.ReportPercent states what it means. |
| Fetch.ReportPercent | main.go:552 | While count·100 fits, the percentage is the integer percentage: at most 100 while count ≤ total, and exactly 100 when count = total. |
| Fetch.Live | main.go:528-547 | The number of leading iterations after which the loop goes round again; the event after them ends the loop. |
| Fetch.Apply | main.go:533-545 | No contract of its own. One continuing iteration: a tick reports, a chunk adds its bytes with int64 wrap-around. FetchFacts.TickStep and FetchFacts.ChunkStep state its effect. |
| Fetch.Walk | main.go:528-547 | No contract of its own. The loop's variables after a run of continuing iterations; FetchFacts.WalkCount, WalkSteady and PctMonotone state what they hold. |
| Fetch.Close | main.go:530-546 | The iteration that ends the loop never leaves it unfinished, and leaves count and percentage alone. It panics exactly on a tick, or on a read error with ContentLength 0. Cancellation returns (path, ctx.Err()). A write error returns (path, that error). A read error returns (path, that error) after one final report whose line, if any, is appended. |
| Fetch.Transfer | main.go:528-547 | The loop is unfinished exactly when every event continues it. |
| Fetch.TransferStops | main.go:528-547 | The first event that ends the loop decides the result, applied to the variables the events before it produced. |
| Fetch.TransferReturns | main.go:530-546 | When event i is the first to end the loop, p being the variables of the events before it: cancellation returns (path, ctx.Err()) with p; a write error returns (path, that error) with p; a read error with ContentLength ≠ 0 returns (path, that error) with p plus the final report's line. |
| Fetch.TransferRunsOut | main.go:528-547 | When every event continues the loop, it is still running with the variables they produced. |
| Fetch.WalkStep | main.go:528-547 | One more continuing event is one more Apply on the loop's variables. |
| Fetch.Download | main.go:487-548 | Request errors and a non-200 status return ("", err) and create no file. An existing file of the right size returns (path, nil). An os.Create error returns ("", err). Otherwise the file is created and the result is the read loop's. |
| Fetch.Copy | main.go:525-547 | The read loop returns the outcome and final count, percentage and printed lines that Transfer specifies. |
| FetchFacts.WalkCount | main.go:544 | The loop's count is the int64-wrapped sum of the bytes written to the file. |
| FetchFacts.WalkSteady | main.go:533-545 | While count·100 fits and ContentLength > 0: the count is the bytes written; the percentage lies between 0 and the true percentage and is the last of the strictly increasing printed percentages; a tick sets it to the true percentage. |
| FetchFacts.TickStep | main.go:533-534 | While count·100 fits, a tick keeps the invariant and sets the percentage to the true percentage, which is no lower than the one held. |
| FetchFacts.ChunkStep | main.go:543-544 | While count·100 fits, a written chunk keeps the invariant for the new byte count and leaves the percentage alone. |
| FetchFacts.PctMonotone | main.go:533-545 | For ContentLength > 0, while count·100 fits in an int64, the held percentage never decreases along the loop. |
| FetchFacts.UnknownLengthPctFalls | main.go:551-557 | With ContentLength −1 (length unknown), stepping the loop's variables as Walk does, the held percentage is 0 after a first tick and −500 after 5 bytes and a second tick: it goes negative and falls. |
| FetchFacts.CountMonotone | main.go:544 | While the bytes written fit in int64, the count never decreases. |
| FetchFacts.FullDownloadShowsHundred | main.go:552-555 | For ContentLength > 0 with count·100 fitting in an int64, a tick after exactly ContentLength bytes leaves a printed `(100%)` line as the last one. |
| FetchFacts.TransferNeverNil | main.go:528-547 | Every return from the loop carries the output path and a non-nil error; Fetch.TransferReturns says which error each way of ending gives. |
| FetchFacts.TransferCount | main.go:537-544 | The final count covers only the chunks written before the loop stopped. |
| FetchFacts.DroppedFinalBytes | main.go:537-540 | After 4 of 10 bytes, a read returning 6 bytes with io.EOF ends with count 4, one `(40%)` line, and io.EOF. |
| FetchFacts.EmptyBodyPanics | main.go:539 | With ContentLength 0, the final DownloadReport at the end of the body divides by zero. |
| FetchFacts.ZeroLengthTickPanics | main.go:534 | With ContentLength 0, a tick as the first event divides by zero. |
| Transcribe.Classify | main.go:278-297 | Each attempt takes exactly one branch. A URL error is skipped. Nil or io.EOF is used. DeadlineExceeded is discarded and the loop goes on. Canceled and every other error stop the loop. |
| Transcribe.FirstStop | main.go:277-298 | The first attempt that stops the loop; every attempt before it continues. |
| Transcribe.Tried | main.go:277-298 | At most the number of models, and at least one when there is a model. Every model tried before the last continued the loop; when not all were tried, the last one tried stopped it. Without a stopping attempt all are tried. |
| Transcribe.LastUsable | main.go:282-284 | No contract of its own; Transcribe.LastUsableIsLast states that it is the last usable path, or "". |
| Transcribe.Removals | main.go:285-297 | No contract of its own; Transcribe.RemovalsAre states which files it holds. |
| Transcribe.SelectModel | main.go:275-298 | The loop tries models up to and including the first that stops it. modelPath is the last usable path tried. Removed files are those of every tried download that ended in an error other than io.EOF. |
| Transcribe.LastUsableIsLast | main.go:282-284 | modelPath is the path of the last attempt that was used, or "" when none was. |
| Transcribe.AfterStopIgnored | main.go:285-297 | What follows a stopping attempt is never tried and does not change the chosen model. |
| Transcribe.NoStopTriesAll | main.go:277-298 | Without an interrupt or a hard error, every model is tried. |
| Transcribe.RemovalsAre | main.go:285-297 | A file is removed exactly when a tried download of it ended in an error other than io.EOF. |
| Transcribe.DefaultModelKept | main.go:282-284 | With the default single model, a download ending in io.EOF is the chosen model. |
| Transcribe.InterruptStops | main.go:285-288 | An interrupt in the first model removes its file and stops the loop with no model, whatever the second would have met. |
| Transcribe.TimeoutMovesOn | main.go:289-292 | A timeout in the first model removes its file, and the second model is tried and used. |
| Transcribe.DefaultModelURL | main.go:473-484 | The default model, the one entry `ggml-tiny.en` of modelNames (main.go:43), is fetched from `<srcUrl>/ggml-tiny.en.bin`. |
| Transcribe.DecodePCM | main.go:370-388 | The open error, then the decoder's error, then the sample-rate check (16000), then the channel check (1), each with its message; otherwise the samples unchanged. |
| Transcribe.PrepareAudio | main.go:316-343 | The file is decoded once, and again only after converting to the name without `_corrupted` when the first decode gave no samples. At most one conversion runs. Each failure gets its wrapped message; the second decode's result stands. |
| Transcribe.Then | main.go:406 | `fmt.Errorf("<context>: %w", err)` leaves a success unchanged and turns an error into an error that keeps the cause and is none of io.EOF, Canceled and DeadlineExceeded. So the `==` tests of main.go:282-289 treat a wrapped error as "any other error". |
| Transcribe.SaveWav | main.go:192-245 | The video, stream, create and ffmpeg errors are checked in that order. The first one present is returned wrapped with its own message ("failed to get video details", "failed to get audio stream", "failed to create output file", "ffmpeg conversion failed"). `<id>_corrupted.wav` is returned exactly when none is present. |
| Transcribe.YoutubeDL | main.go:390-412 | The cached `<id>.wav` is used when present under /data; otherwise saveWav's result, with its error wrapped as "failed to save wav file". |
| Transcribe.AudioNameRoundTrip | main.go:396-404 | For a link whose ID does not contain `_corrupted`, youtubeDL hands on the cached or the fresh name of the link's ID, and taking out `_corrupted` gives the cached name. |
| Transcribe.RetryFillsCache | main.go:324-336 | For a link whose ID does not contain `_corrupted`, a reconversion writes to `/data/<id>.wav`, the file a later youtubeDL of the same link finds without downloading. |

## Left out

- Whisper itself: loading the model, creating the context, `Process`.
  Only its segment stream is modelled, as a finite queue plus a stop error.
- The YouTube client, ffmpeg, the WAV decoder, HTTP and the file system.
  Their answers are inputs, and no bytes or samples are transformed.
- `ContextForSignal`, the 5-second ticker and the `select`'s choice among
  ready cases. The download loop takes their effect as a given sequence
  of events.
- Fetch.Download: does not model the unbounded loop. The events are finite,
  and `Unfinished` stands for a loop still running when they run out.
- The float64 percentage `ProgressWriter` passes to its callback, and all
  printing and logging. Progress lines are kept as values, not text.
- Progress.ProgressWriter.Write: `reported` records only the totals the
  callback received, not what the callback does with them.
- `filepath.Join`'s lexical `Clean` and `url.Parse`/`url.String`'s
  escaping. Names.Join joins with one '/'. URLForModel's error branch
  cannot be taken for the constant base URL, and the selection loop still
  models it as an attempt kind.
- Transcribe.PrepareAudio: the decoder is an oracle from file path to
  result. It sees the path but not the file's contents after the
  conversion, so it does not model that ffmpeg's output is what the second
  decode reads.
- Go strings are byte sequences; the model's strings are sequences of
  characters. So Names.Index gives a character offset where `strings.Index`
  gives a byte offset. The two agree on ASCII text. Every separator and
  marker in the core is ASCII, and the offset only cuts the same string.
- Records.ToModel: `Duration.String` is a parameter. Its format is
  constrained only by the times the test fixes.
- The `models` package source (`RawTranscriptions`, `Transcriptions`,
  `ToModel`, `ToMap`) is not part of this model. Their behaviour is taken
  from the test file. The link field (`Ytlink`) is taken from the
  commented-out `save` command at main.go:123-129.
- Segments.OutputSRT: the `int` index n is not wrapped. Overflowing it
  would take more than 2^63 segments.
- The CLI (`main`, `transcribe_app`), `GetOut`, and the transcript
  repository with its database (`SaveTranscriptions`). They are I/O
  around the core.
