/** The decisions of transcribe: which downloaded model is loaded, how the
    audio file is found or fetched (youtubeDL, saveWav), and how it is
    decoded, with one reconversion when the first decode yields no samples.
    Every call into the YouTube client, ffmpeg, the WAV decoder and the file
    system is an input. */
module Transcribe {
  import opened Errors
  import Names
  import Decimal

  /** modelNames: the models transcribe downloads. */
  const ModelNames: seq<string> := ["ggml-tiny.en"]

  /** whisper.SampleRate. */
  const SampleRate: int := 16000

  // ------------------------------------------------------- model selection

  /** What one pass of the model loop met: URLForModel failed, or Download
      returned (path, err). */
  datatype Attempt =
    | UrlFailed(cause: Error)
    | Fetched(path: string, err: Option<Error>)

  /** The branch the model loop takes. */
  datatype Verdict =
    | Skip       // URL error: report, try the next model
    | Use        // nil or io.EOF: take the path, try the next model
    | Discard    // context.DeadlineExceeded: remove the file, try the next model
    | Interrupt  // context.Canceled: remove the file, stop
    | Abort      // any other error: remove the file, stop

  /** The branches in the order main.go tests them. Each test compares the
      error against one sentinel, so a wrapped io.EOF is not io.EOF. */
  function Classify(a: Attempt): (v: Verdict)
    ensures v == Skip <==> a.UrlFailed?
    ensures v == Use <==> a.Fetched? && (a.err == None || a.err == Some(EOF))
    ensures v == Discard <==> a.Fetched? && a.err == Some(DeadlineExceeded)
    ensures v == Interrupt <==> a.Fetched? && a.err == Some(Canceled)
    ensures v == Abort <==> a.Fetched? && a.err.Some? && a.err.value != EOF && a.err.value != Canceled && a.err.value != DeadlineExceeded
  {
    match a
    case UrlFailed(_) => Skip
    case Fetched(_, None) => Use
    case Fetched(_, Some(e)) =>
      if e == EOF then Use
      else if e == Canceled then Interrupt
      else if e == DeadlineExceeded then Discard
      else Abort
  }

  predicate Stops(a: Attempt) {
    Classify(a) == Interrupt || Classify(a) == Abort
  }

  /** The position of the first attempt that stops the loop, or the number
      of attempts when none does. */
  function FirstStop(xs: seq<Attempt>): (k: nat)
    ensures k <= |xs|
    ensures forall j :: 0 <= j < k ==> !Stops(xs[j])
    ensures k < |xs| ==> Stops(xs[k])
  {
    if xs == [] || Stops(xs[0]) then 0
    else
      var k := FirstStop(xs[1..]) + 1;
      assert forall j :: 1 <= j < k ==> xs[j] == xs[1..][j - 1];
      k
  }

  /** How many models the loop gets to: up to and including the first that
      stops it. */
  function Tried(xs: seq<Attempt>): (n: nat)
    ensures n <= |xs| && (xs != [] ==> 1 <= n)
    ensures forall j :: 0 <= j < n - 1 ==> !Stops(xs[j])
    ensures n < |xs| ==> Stops(xs[n - 1])
    ensures (forall j :: 0 <= j < |xs| ==> !Stops(xs[j])) ==> n == |xs|
  {
    if FirstStop(xs) < |xs| then FirstStop(xs) + 1 else |xs|
  }

  /** The path of the last usable attempt, or "" when there is none. */
  function LastUsable(xs: seq<Attempt>): string {
    if xs == [] then ""
    else if Classify(xs[|xs| - 1]) == Use then xs[|xs| - 1].path
    else LastUsable(xs[..|xs| - 1])
  }

  /** The files os.Remove is called on, in order. */
  function Removals(xs: seq<Attempt>): seq<string> {
    if xs == [] then []
    else
      var a := xs[|xs| - 1];
      Removals(xs[..|xs| - 1]) + (if a.Fetched? && Classify(a) != Use then [a.path] else [])
  }

  /** The model loop of transcribe, attempt i being what the i-th model of
      GetModels met. Returns modelPath, how many models were tried, and
      the files removed. */
  method SelectModel(attempts: seq<Attempt>) returns (modelPath: string, tried: nat, removed: seq<string>)
    ensures tried == Tried(attempts)
    ensures modelPath == LastUsable(attempts[..tried])
    ensures removed == Removals(attempts[..tried])
  {
    modelPath, removed := "", [];
    var i := 0;
    while i < |attempts|
      invariant i <= |attempts| && i <= FirstStop(attempts)
      invariant modelPath == LastUsable(attempts[..i]) && removed == Removals(attempts[..i])
    {
      var a := attempts[i];
      assert attempts[..i + 1][..i] == attempts[..i];
      var verdict := Classify(a);
      if verdict == Use {
        modelPath := a.path;
      } else if verdict != Skip {
        removed := removed + [a.path];
        if verdict != Discard {
          return modelPath, i + 1, removed;
        }
      }
      i := i + 1;
    }
    assert attempts[..i] == attempts;
    tried := i;
  }

  /** The model the loop leaves in modelPath. */
  function Selected(xs: seq<Attempt>): string {
    LastUsable(xs[..Tried(xs)])
  }

  /** Attempt j is usable and no later attempt is. */
  predicate LastUseAt(xs: seq<Attempt>, j: int) {
    0 <= j < |xs| && Classify(xs[j]) == Use && forall k :: j < k < |xs| ==> Classify(xs[k]) != Use
  }

  /** LastUsable is the path of the last usable attempt, and "" when no
      attempt is usable. */
  lemma {:induction false} LastUsableIsLast(xs: seq<Attempt>)
    ensures (forall j :: 0 <= j < |xs| ==> Classify(xs[j]) != Use) ==> LastUsable(xs) == ""
    ensures forall j :: LastUseAt(xs, j) ==> LastUsable(xs) == xs[j].path
  {
    if xs != [] {
      var init := xs[..|xs| - 1];
      LastUsableIsLast(init);
      forall j | LastUseAt(xs, j) && Classify(xs[|xs| - 1]) != Use ensures LastUseAt(init, j) {
        assert forall k :: j < k < |init| ==> init[k] == xs[k];
      }
    }
  }

  /** The models after the one that stops the loop are never tried: what
      follows a stopping attempt changes nothing. */
  lemma AfterStopIgnored(xs: seq<Attempt>, ys: seq<Attempt>)
    requires FirstStop(xs) < |xs|
    ensures Tried(xs + ys) == Tried(xs)
    ensures (xs + ys)[..Tried(xs)] == xs[..Tried(xs)]
    ensures Selected(xs + ys) == Selected(xs)
  {
    var t := Tried(xs);
    assert Tried(xs + ys) == t by {
      FirstStopAppend(xs, ys);
    }
    var front := (xs + ys)[..t];
    assert front == xs[..t] by {
      assert forall j :: 0 <= j < t ==> front[j] == xs[j];
    }
  }

  lemma FirstStopAppend(xs: seq<Attempt>, ys: seq<Attempt>)
    requires FirstStop(xs) < |xs|
    ensures FirstStop(xs + ys) == FirstStop(xs)
  {
    var k, k' := FirstStop(xs), FirstStop(xs + ys);
    assert Stops((xs + ys)[k]) by {
      assert (xs + ys)[k] == xs[k];
    }
    assert k' <= k;
  }

  /** Without a stopping attempt every model is tried. */
  lemma NoStopTriesAll(xs: seq<Attempt>)
    requires forall j :: 0 <= j < |xs| ==> !Stops(xs[j])
    ensures Tried(xs) == |xs| && Selected(xs) == LastUsable(xs)
  {
    assert xs[..|xs|] == xs;
  }

  /** A file is removed exactly when some tried download of it ended in an
      error other than io.EOF. */
  lemma {:induction false} RemovalsAre(xs: seq<Attempt>, p: string)
    ensures p in Removals(xs) <==>
              exists j :: 0 <= j < |xs| && xs[j].Fetched? && Classify(xs[j]) != Use && xs[j].path == p
  {
    if xs != [] {
      var init := xs[..|xs| - 1];
      RemovalsAre(init, p);
      assert forall j :: 0 <= j < |init| ==> init[j] == xs[j];
    }
  }

  /** The default model list, downloaded to p; a completed download ends in
      io.EOF and is kept. */
  lemma DefaultModelKept(p: string)
    ensures Selected([Fetched(p, Some(EOF))]) == p
  {
    assert [Fetched(p, Some(EOF))][..1] == [Fetched(p, Some(EOF))];
  }

  /** An interrupt in the first model stops the loop: its file is removed
      and no model is selected, whatever the second model would have met. */
  lemma InterruptStops(p: string, second: Attempt)
    ensures Tried([Fetched(p, Some(Canceled)), second]) == 1
    ensures Selected([Fetched(p, Some(Canceled)), second]) == ""
    ensures Removals([Fetched(p, Some(Canceled)), second][..1]) == [p]
  {
    var xs := [Fetched(p, Some(Canceled)), second];
    assert xs[..1] == [Fetched(p, Some(Canceled))];
    assert xs[..1][..0] == [];
    assert Tried(xs) == 1;
    assert Selected(xs) == LastUsable(xs[..1]) == LastUsable([]);
  }

  /** A timeout in the first model removes its file and moves on to the
      second. */
  lemma TimeoutMovesOn(p: string, q: string)
    ensures Tried([Fetched(p, Some(DeadlineExceeded)), Fetched(q, None)]) == 2
    ensures Selected([Fetched(p, Some(DeadlineExceeded)), Fetched(q, None)]) == q
    ensures Removals([Fetched(p, Some(DeadlineExceeded)), Fetched(q, None)]) == [p]
  {
    var xs := [Fetched(p, Some(DeadlineExceeded)), Fetched(q, None)];
    assert xs[..2] == xs;
    assert xs[..1] == [xs[0]];
    assert xs[..1][..0] == [];
    assert Removals(xs[..1]) == Removals([]) + [p];
    assert Removals(xs) == Removals(xs[..1]) + [];
  }

  /** The URL of the default model: `.bin` appended to `ggml-tiny.en`, whose
      extension is `.en`. */
  lemma DefaultModelURL()
    ensures Names.URLForModel(ModelNames[0]) == Names.SrcUrl + "/ggml-tiny.en.bin"
  {
    assert ModelNames[0] == "ggml-tiny" + "." + "en";
    Names.DottedModelURL("ggml-tiny", "en", "ggml-tiny.en.bin", "/ggml-tiny.en.bin");
  }

  // ---------------------------------------------------------------- audio

  /** What the WAV decoder met for a file: os.Open failing, FullPCMBuffer
      failing, or the format it read and the samples. */
  datatype Decoding =
    | OpenFailed(cause: Error)
    | BufferFailed(cause: Error)
    | Decoded(sampleRate: int, numChans: int, data: seq<int>)

  /** decodePCMBuffer: the samples of a 16 kHz mono file, the decoder's
      error, or a format error, checked in that order. */
  function DecodePCM(d: Decoding): (r: Result<seq<int>>)
    ensures r.Ok? <==> d.Decoded? && d.sampleRate == SampleRate && d.numChans == 1
    ensures r.Ok? ==> r.value == d.data
    ensures !d.Decoded? ==> r == Err(d.cause)
    ensures d.Decoded? && d.sampleRate != SampleRate ==>
              r == Err(Failure("unsupported sample rate: " + Decimal.ZeroPad(d.sampleRate, 0)))
    ensures d.Decoded? && d.sampleRate == SampleRate && d.numChans != 1 ==>
              r == Err(Failure("unsupported number of channels: " + Decimal.ZeroPad(d.numChans, 0)))
  {
    match d
    case OpenFailed(cause) => Err(cause)
    case BufferFailed(cause) => Err(cause)
    case Decoded(rate, chans, data) =>
      if rate != SampleRate then Err(Failure("unsupported sample rate: " + Decimal.ZeroPad(rate, 0)))
      else if chans != 1 then Err(Failure("unsupported number of channels: " + Decimal.ZeroPad(chans, 0)))
      else Ok(data)
  }

  /** A file operation of the decode step: decoding a file, or the ffmpeg
      resampling of one file into another. */
  datatype Step = Read(path: string) | Convert(source: string, target: string)

  datatype Audio = Audio(result: Result<seq<int>>, steps: seq<Step>)

  predicate IsConvert(s: Step) { s.Convert? }

  /** The decode step of transcribe: `decode` says what decoding each path
      meets, `convertError` what the ffmpeg run answered. A first decode
      with no samples is converted into the unmarked name and decoded once
      more; the second result stands, empty or not. */
  function PrepareAudio(file: string, decode: string -> Decoding, convertError: Option<Error>): (a: Audio)
    ensures 1 <= |a.steps| <= 3 && a.steps[0] == Read(Names.DataPath(file))
    ensures forall i, j :: 0 <= i < j < |a.steps| && IsConvert(a.steps[i]) ==> !IsConvert(a.steps[j])
    ensures |a.steps| > 1 <==> DecodePCM(decode(Names.DataPath(file))) == Ok([])
    ensures |a.steps| > 1 ==> a.steps[1] == Convert(Names.DataPath(file), Names.DataPath(Names.StripMarker(file)))
    ensures |a.steps| == 3 <==> |a.steps| > 1 && convertError == None
    ensures |a.steps| == 3 ==> a.steps[2] == Read(Names.DataPath(Names.StripMarker(file)))
    ensures |a.steps| == 1 ==> a.result == Then(DecodePCM(decode(Names.DataPath(file))), "failed to decode audio file")
    ensures |a.steps| == 2 ==> a.result == Err(Wrapped("ffmpeg conversion failed", convertError.value))
    ensures |a.steps| == 3 ==>
              a.result == Then(DecodePCM(decode(Names.DataPath(Names.StripMarker(file)))), "failed to decode audio file again")
  {
    var first := DecodePCM(decode(Names.DataPath(file)));
    var read := Read(Names.DataPath(file));
    if first != Ok([]) then Audio(Then(first, "failed to decode audio file"), [read])
    else
      var fixed := Names.StripMarker(file);
      var convert := Convert(Names.DataPath(file), Names.DataPath(fixed));
      if convertError.Some? then Audio(Err(Wrapped("ffmpeg conversion failed", convertError.value)), [read, convert])
      else
        var second := DecodePCM(decode(Names.DataPath(fixed)));
        Audio(Then(second, "failed to decode audio file again"), [read, convert, Read(Names.DataPath(fixed))])
  }

  /** fmt.Errorf("<context>: %w", err) on the error path, the value unchanged
      otherwise. */
  function Then<T>(r: Result<T>, context: string): (r': Result<T>)
    ensures r.Ok? ==> r' == r
    ensures r.Err? ==> r' == Err(Wrapped(context, r.error))
    ensures r'.Ok? <==> r.Ok?
    ensures r'.Err? ==> r'.error != EOF && r'.error != Canceled && r'.error != DeadlineExceeded
  {
    if r.Ok? then r else Err(Wrapped(context, r.error))
  }

  /** What the YouTube client, os.Create and ffmpeg answer in saveWav. */
  datatype Sources = Sources(videoError: Option<Error>, streamError: Option<Error>,
                             createError: Option<Error>, ffmpegError: Option<Error>)

  /** saveWav: the fresh `<id>_corrupted.wav` name once every stage
      succeeds; the first failing stage's error, wrapped, otherwise. */
  function SaveWav(id: string, s: Sources): (r: Result<string>)
    ensures r.Ok? <==> s.videoError == None && s.streamError == None && s.createError == None && s.ffmpegError == None
    ensures r.Ok? ==> r.value == Names.FreshName(id)
    ensures s.videoError.Some? ==> r == Err(Wrapped("failed to get video details", s.videoError.value))
    ensures s.videoError == None && s.streamError.Some? ==> r == Err(Wrapped("failed to get audio stream", s.streamError.value))
    ensures s.videoError == None && s.streamError == None && s.createError.Some? ==>
              r == Err(Wrapped("failed to create output file", s.createError.value))
    ensures s.videoError == None && s.streamError == None && s.createError == None && s.ffmpegError.Some? ==>
              r == Err(Wrapped("ffmpeg conversion failed", s.ffmpegError.value))
  {
    if s.videoError.Some? then Err(Wrapped("failed to get video details", s.videoError.value))
    else if s.streamError.Some? then Err(Wrapped("failed to get audio stream", s.streamError.value))
    else if s.createError.Some? then Err(Wrapped("failed to create output file", s.createError.value))
    else if s.ffmpegError.Some? then Err(Wrapped("ffmpeg conversion failed", s.ffmpegError.value))
    else Ok(Names.FreshName(id))
  }

  /** youtubeDL: the cached `<id>.wav` when it is among the files present
      under the data directory, otherwise what saveWav makes of the link. */
  function YoutubeDL(link: string, files: set<string>, s: Sources): (r: Result<string>)
    ensures Names.DataPath(Names.CachedName(Names.YoutubeId(link))) in files ==>
              r == Ok(Names.CachedName(Names.YoutubeId(link)))
    ensures Names.DataPath(Names.CachedName(Names.YoutubeId(link))) !in files ==>
              r == Then(SaveWav(Names.YoutubeId(link), s), "failed to save wav file")
  {
    var id := Names.YoutubeId(link);
    if Names.DataPath(Names.CachedName(id)) in files then Ok(Names.CachedName(id))
    else Then(SaveWav(id, s), "failed to save wav file")
  }

  /** The audio file youtubeDL hands on is the cached or the fresh name of
      the link's ID, and the empty-decode retry converts it into the cached
      name: the file a later youtubeDL of the same link finds. */
  lemma AudioNameRoundTrip(link: string, files: set<string>, s: Sources)
    requires YoutubeDL(link, files, s).Ok?
    requires !Names.HasMarker(Names.YoutubeId(link))
    ensures var f := YoutubeDL(link, files, s).value;
            (f == Names.CachedName(Names.YoutubeId(link)) || f == Names.FreshName(Names.YoutubeId(link)))
            && Names.StripMarker(f) == Names.CachedName(Names.YoutubeId(link))
  {
    var id := Names.YoutubeId(link);
    Names.StripFresh(id);
    Names.StripCached(id);
  }

  /** Once youtubeDL succeeded, a retried decode reads back the cached name,
      and YoutubeDL of the same link then finds it without downloading. */
  lemma RetryFillsCache(link: string, files: set<string>, s: Sources, decode: string -> Decoding)
    requires YoutubeDL(link, files, s).Ok?
    requires !Names.HasMarker(Names.YoutubeId(link))
    ensures var a := PrepareAudio(YoutubeDL(link, files, s).value, decode, None);
            |a.steps| > 1 ==>
              a.steps[1].target == Names.DataPath(Names.CachedName(Names.YoutubeId(link)))
              && YoutubeDL(link, files + {a.steps[1].target}, s) == Ok(Names.CachedName(Names.YoutubeId(link)))
  {
    AudioNameRoundTrip(link, files, s);
  }
}
