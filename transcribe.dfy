/** The speech-to-text provider fallback of `analyze_transcribe`
    (scripts/dev/analyze-video.py:521-545), and the full-text rule of the
    openai-whisper backend (lines 503-505).

    The two Whisper backends are foreign libraries. Each is modelled by its
    outcome for the run: a transcript, the "module not found" message that
    makes the fallback try the next provider, or any other error, which
    ends the run. */
module Transcribe {
  import opened Wrappers
  import opened Text

  const FasterWhisper: string := "faster-whisper"
  const OpenAiWhisper: string := "openai-whisper"
  const NoBackendMessage: string :=
    "No Whisper STT backend is available in this venv. Run `npm run dev:media:setup -- -WithStt`. Details: "
  const UnsupportedProviderMessage: string := "unsupported stt provider: "

  /** What running one backend gives. */
  datatype BackendOutcome<T> =
    | Transcribed(transcript: T)
    | ModuleMissing(message: string)  // the backend's module is not installed
    | Failed(error: Error)            // any other failure of the backend

  /** The providers tried, in order: both backends for "auto", otherwise
      the one named. */
  function Providers(sttProvider: string): (names: seq<string>)
    ensures sttProvider == "auto" ==> names == [FasterWhisper, OpenAiWhisper]
    ensures sttProvider != "auto" ==> names == [sttProvider]
  {
    if sttProvider == "auto" then [FasterWhisper, OpenAiWhisper] else [sttProvider]
  }

  /** `name` is one of the two backends. */
  predicate IsBackend(name: string) {
    name == FasterWhisper || name == OpenAiWhisper
  }

  /** Trying provider `name` ends the fallback: it is a backend, and its
      module is installed. */
  predicate Decides<T>(run: string -> BackendOutcome<T>, name: string) {
    IsBackend(name) && !run(name).ModuleMissing?
  }

  /** The result of a backend that decides the run. */
  function OutcomeResult<T>(outcome: BackendOutcome<T>): (r: Result<T>)
    requires !outcome.ModuleMissing?
    ensures outcome.Transcribed? ==> r == Ok(outcome.transcript)
    ensures outcome.Failed? ==> r == Err(outcome.error)
  {
    match outcome
    case Transcribed(t) => Ok(t)
    case Failed(e) => Err(e)
  }

  /** The (provider, message) pairs of the backends among `names` whose
      module is missing, in the order they were tried. */
  function Missing<T>(names: seq<string>, run: string -> BackendOutcome<T>): (m: seq<(string, string)>)
    ensures |m| <= |names|
    ensures forall k :: 0 <= k < |m| ==>
              m[k].0 in names && IsBackend(m[k].0) && run(m[k].0) == ModuleMissing(m[k].1)
    ensures forall n :: n in names && IsBackend(n) && run(n).ModuleMissing? ==> (n, run(n).message) in m
  {
    if names == [] then []
    else
      var front, name := names[..|names| - 1], names[|names| - 1];
      assert names == front + [name];
      Missing(front, run) +
        (if IsBackend(name) && run(name).ModuleMissing? then [(name, run(name).message)] else [])
  }

  /** The missing modules of providers tried one after the other are listed
      in that order. */
  lemma {:induction false} MissingAppend<T>(a: seq<string>, b: seq<string>, run: string -> BackendOutcome<T>)
    ensures Missing(a + b, run) == Missing(a, run) + Missing(b, run)
  {
    if b != [] {
      var front, last := b[..|b| - 1], b[|b| - 1];
      assert (a + b)[..|a + b| - 1] == a + front;
      assert (a + b)[|a + b| - 1] == last;
      MissingAppend(a, front, run);
    } else {
      assert a + b == a;
    }
  }

  /** The detail list of the "no backend" error: `name: message` entries
      separated by " / ". */
  function Details(missing: seq<(string, string)>): (d: string)
    ensures missing == [] ==> d == []
    ensures |missing| == 1 ==> d == missing[0].0 + ": " + missing[0].1
    ensures |missing| == 2 ==> d == missing[0].0 + ": " + missing[0].1 + " / " + missing[1].0 + ": " + missing[1].1
    ensures |missing| > 0 ==> var first := missing[0].0 + ": " + missing[0].1;
                                |first| <= |d| && d[..|first|] == first
  {
    var entries := seq(|missing|, k requires 0 <= k < |missing| => missing[k].0 + ": " + missing[k].1);
    if |missing| == 2 then
      JoinPair(" / ", entries);
      Join(" / ", entries)
    else
      Join(" / ", entries)
  }

  /** The error when no provider decided the run: no backend available if
      some backend was tried, otherwise an unsupported provider. */
  function NoDecisionError(missing: seq<(string, string)>, sttProvider: string): (e: Error)
    ensures e.BackendUnavailable? <==> missing != []
    ensures e.Unsupported? <==> missing == []
    ensures missing != [] ==> e.message == NoBackendMessage + Details(missing)
    ensures missing == [] ==> e.message == UnsupportedProviderMessage + sttProvider
  {
    if missing != [] then BackendUnavailable(NoBackendMessage + Details(missing))
    else Unsupported(UnsupportedProviderMessage + sttProvider)
  }

  /** `analyze_transcribe`: the first tried provider that decides the run
      gives its result; when none does, the error names the missing
      modules, or the provider when it names no backend. */
  method AnalyzeTranscribe<T>(sttProvider: string, run: string -> BackendOutcome<T>) returns (r: Result<T>)
    ensures var names := Providers(sttProvider);
            (exists k :: 0 <= k < |names| && Decides(run, names[k])) ==>
              exists k :: && 0 <= k < |names| && Decides(run, names[k])
                          && (forall j :: 0 <= j < k ==> !Decides(run, names[j]))
                          && r == OutcomeResult(run(names[k]))
    ensures var names := Providers(sttProvider);
            (forall k :: 0 <= k < |names| ==> !Decides(run, names[k])) ==>
              r == Err(NoDecisionError(Missing(names, run), sttProvider))
  {
    var names := Providers(sttProvider);
    var missing: seq<(string, string)> := [];
    var k := 0;
    while k < |names|
      invariant 0 <= k <= |names|
      invariant missing == Missing(names[..k], run)
      invariant forall j :: 0 <= j < k ==> !Decides(run, names[j])
    {
      var name := names[k];
      assert names[..k + 1][..k] == names[..k];
      if name == FasterWhisper || name == OpenAiWhisper {
        var outcome := run(name);
        match outcome {
          case Transcribed(t) =>
            return Ok(t);
          case Failed(e) =>
            return Err(e);
          case ModuleMissing(message) =>
            missing := missing + [(name, message)];
        }
      }
      k := k + 1;
    }
    assert names[..k] == names;
    if missing != [] {
      return Err(BackendUnavailable(NoBackendMessage + Details(missing)));
    }
    return Err(Unsupported(UnsupportedProviderMessage + sttProvider));
  }

  /** The two backends have different names. */
  lemma BackendsDiffer()
    ensures FasterWhisper != OpenAiWhisper
  {
    assert FasterWhisper[0] != OpenAiWhisper[0];
  }

  /** With the default provider and faster-whisper missing, openai-whisper
      is used. */
  method FallsBackToOpenAiWhisper() returns (r: Result<int>)
    ensures r == Ok(7)
  {
    var run := (name: string) =>
      if name == FasterWhisper then ModuleMissing("faster-whisper is not installed.") else Transcribed(7);
    BackendsDiffer();
    assert !Decides(run, FasterWhisper) && Decides(run, OpenAiWhisper);
    r := AnalyzeTranscribe("auto", run);
  }

  /** With the default provider and both backends installed, faster-whisper
      is used. */
  method AutoPrefersFasterWhisper() returns (r: Result<int>)
    ensures r == Ok(1)
  {
    var run := (name: string) => if name == FasterWhisper then Transcribed(1) else Transcribed(2);
    var names := Providers("auto");
    assert names[0] == FasterWhisper && Decides(run, names[0]);
    r := AnalyzeTranscribe("auto", run);
    ghost var k :| && 0 <= k < |names| && Decides(run, names[k])
                   && (forall j :: 0 <= j < k ==> !Decides(run, names[j]))
                   && r == OutcomeResult(run(names[k]));
    assert k == 0;
  }

  /** A backend that is installed but fails ends the run: the other backend
      is not tried. */
  method FailureIsNotFallenBackFrom() returns (r: Result<int>)
    ensures r == Err(Decode("bad audio"))
  {
    var run := (name: string) => if name == FasterWhisper then Failed(Decode("bad audio")) else Transcribed(2);
    var names := Providers("auto");
    assert names[0] == FasterWhisper && Decides(run, names[0]);
    r := AnalyzeTranscribe("auto", run);
    ghost var k :| && 0 <= k < |names| && Decides(run, names[k])
                   && (forall j :: 0 <= j < k ==> !Decides(run, names[j]))
                   && r == OutcomeResult(run(names[k]));
    assert k == 0;
  }

  /** The detail list of both backends names each with its message,
      faster-whisper first. */
  lemma BothMissingDetails()
    ensures Details([(FasterWhisper, "no fw"), (OpenAiWhisper, "no ow")]) ==
            "faster-whisper: no fw / openai-whisper: no ow"
  {
    var first, second := FasterWhisper + ": " + "no fw", OpenAiWhisper + ": " + "no ow";
    assert first == "faster-whisper: no fw";
    assert second == "openai-whisper: no ow";
    assert first + " / " + second == "faster-whisper: no fw / openai-whisper: no ow";
  }

  /** With the default provider and neither module installed, the error
      lists both backends with their messages, faster-whisper first. */
  method BothModulesMissing() returns (r: Result<int>)
    ensures r == Err(BackendUnavailable(NoBackendMessage + "faster-whisper: no fw / openai-whisper: no ow"))
  {
    var run := (name: string) => if name == FasterWhisper then ModuleMissing("no fw") else ModuleMissing("no ow");
    var missing := [(FasterWhisper, "no fw"), (OpenAiWhisper, "no ow")];
    BackendsDiffer();
    assert !Decides(run, FasterWhisper) && !Decides(run, OpenAiWhisper);
    assert Missing([FasterWhisper, OpenAiWhisper], run) == missing by {
      assert [FasterWhisper, OpenAiWhisper][..1] == [FasterWhisper];
      assert [FasterWhisper][..0] == [];
    }
    BothMissingDetails();
    r := AnalyzeTranscribe("auto", run);
  }

  /** The detail list of openai-whisper alone. */
  lemma OpenAiWhisperDetails()
    ensures Details([(OpenAiWhisper, "missing")]) == "openai-whisper: missing"
  {
    assert OpenAiWhisper + ": " + "missing" == "openai-whisper: missing";
  }

  /** An explicit provider is not replaced by the other backend: asking
      for openai-whisper when only faster-whisper is installed fails, and
      the error lists only openai-whisper. */
  method NoFallbackForExplicitProvider() returns (r: Result<int>)
    ensures r == Err(BackendUnavailable(NoBackendMessage + "openai-whisper: missing"))
  {
    var run := (name: string) => if name == OpenAiWhisper then ModuleMissing("missing") else Transcribed(1);
    var missing := [(OpenAiWhisper, "missing")];
    assert !Decides(run, OpenAiWhisper);
    assert Missing([OpenAiWhisper], run) == missing by {
      assert [OpenAiWhisper][..0] == [];
    }
    OpenAiWhisperDetails();
    r := AnalyzeTranscribe(OpenAiWhisper, run);
  }

  /** A provider that names no backend is unsupported. */
  method UnknownProvider() returns (r: Result<int>)
    ensures r == Err(Unsupported(UnsupportedProviderMessage + "vosk"))
  {
    var run := (name: string) => Transcribed(0);
    r := AnalyzeTranscribe("vosk", run);
    assert !IsBackend("vosk");
    assert Missing(["vosk"], run) == [] by {
      assert ["vosk"][..0] == [];
    }
  }

  /** The full text of a transcript (lines 437 and 447 for faster-whisper,
      493 and 503 for openai-whisper): each segment text is stripped, and
      the non-empty ones are joined by single spaces. It is stripped, and
      empty exactly when every segment text is blank. */
  function TranscriptText(segmentTexts: seq<string>): (text: string)
    ensures IsStripped(text)
    ensures text == [] <==> forall k :: 0 <= k < |segmentTexts| ==> Blank(segmentTexts[k])
  {
    var stripped := seq(|segmentTexts|, k requires 0 <= k < |segmentTexts| => Strip(segmentTexts[k]));
    forall k | 0 <= k < |stripped|
      ensures IsStripped(stripped[k]) && (stripped[k] == [] <==> Blank(segmentTexts[k]))
    {
    }
    JoinStrippedTexts(stripped);
    JoinTexts(stripped)
  }

  /** The full text of an openai-whisper transcript (lines 503-505): the
      joined segment texts, or else the backend's own text, stripped. It is
      empty only when all of these are blank. */
  function OpenAiWhisperText(segmentTexts: seq<string>, resultText: string): (text: string)
    ensures IsStripped(text)
    ensures text == [] <==>
              (forall k :: 0 <= k < |segmentTexts| ==> Blank(segmentTexts[k])) && Blank(resultText)
    ensures TranscriptText(segmentTexts) != [] ==> text == TranscriptText(segmentTexts)
    ensures TranscriptText(segmentTexts) == [] ==> text == Strip(resultText)
  {
    var joined := TranscriptText(segmentTexts);
    if joined == [] then Strip(resultText) else joined
  }
}
