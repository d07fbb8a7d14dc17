/** The entry point `run_analysis` (scripts/dev/analyze-video.py:557-604):
    the option checks, the legacy mode names of `normalize_mode_scope`
    (lines 548-554), and the dispatch to the reports.

    The order of the steps is part of the behaviour: the option checks come
    before anything is decoded; transcription decodes nothing of its own
    here; every metric mode decodes the clip first, so a clip without
    frames is reported as such before the tail scope or the mode name is
    looked at. */
module Analysis {
  import opened Wrappers
  import opened Scope
  import opened Metrics
  import opened Reports
  import opened Transcribe

  /** The options of one run that the analysis reads. */
  datatype Options = Options(
    mode: string, scope: string, tailSeconds: real,
    blackThreshold: real, freezeThreshold: real, minSegmentFrames: int,
    sttProvider: string, sttBeamSize: int)

  /** What a run returns: one of the three metric reports, or the
      transcript of the backend that ran. */
  datatype Report<T> =
    | SummaryReport(summary: Summary)
    | SegmentsReport(report: SegmentReport)
    | TranscriptReport(transcript: T)

  /** `normalize_mode_scope`: the legacy names "tail-black" and
      "full-black" become the black segment report over the tail or the
      whole clip; every other pair is left as it is. */
  function NormalizeModeScope(mode: string, scope: string): (r: (string, string))
    ensures mode == "tail-black" ==> r == ("black-segments", "tail")
    ensures mode == "full-black" ==> r == ("black-segments", "full")
    ensures mode != "tail-black" && mode != "full-black" ==> r == (mode, scope)
    ensures r.0 != "tail-black" && r.0 != "full-black"
  {
    if mode == "tail-black" then ("black-segments", "tail")
    else if mode == "full-black" then ("black-segments", "full")
    else (mode, scope)
  }

  /** Normalising a normalised pair changes nothing. */
  lemma NormalizeModeScopeIdempotent(mode: string, scope: string)
    ensures var (m, s) := NormalizeModeScope(mode, scope);
            NormalizeModeScope(m, s) == (m, s)
  {
  }

  const MinSegmentFramesMessage: string := "--min-segment-frames must be > 0"
  const BlackThresholdMessage: string := "--black-threshold must be >= 0"
  const FreezeThresholdMessage: string := "--freeze-threshold must be >= 0"
  const BeamSizeMessage: string := "--stt-beam-size must be > 0"

  /** The options every mode accepts: a positive minimum segment length,
      non-negative thresholds and a positive beam size. */
  predicate ValidOptions(o: Options) {
    o.minSegmentFrames > 0 && o.blackThreshold >= 0.0 && o.freezeThreshold >= 0.0 && o.sttBeamSize > 0
  }

  /** The message of the first option check that fails, in the order the
      script makes them, or none when the options are valid. */
  function OptionError(o: Options): (r: Option<string>)
    ensures r.None? <==> ValidOptions(o)
    ensures o.minSegmentFrames <= 0 ==> r == Some(MinSegmentFramesMessage)
    ensures o.minSegmentFrames > 0 && o.blackThreshold < 0.0 ==> r == Some(BlackThresholdMessage)
    ensures o.minSegmentFrames > 0 && o.blackThreshold >= 0.0 && o.freezeThreshold < 0.0 ==>
              r == Some(FreezeThresholdMessage)
    ensures o.minSegmentFrames > 0 && o.blackThreshold >= 0.0 && o.freezeThreshold >= 0.0 && o.sttBeamSize <= 0 ==>
              r == Some(BeamSizeMessage)
  {
    if o.minSegmentFrames <= 0 then Some(MinSegmentFramesMessage)
    else if o.blackThreshold < 0.0 then Some(BlackThresholdMessage)
    else if o.freezeThreshold < 0.0 then Some(FreezeThresholdMessage)
    else if o.sttBeamSize <= 0 then Some(BeamSizeMessage)
    else None
  }

  /** A transcription outcome as the result of a run: the transcript as
      the report, or the same error. */
  function AsTranscriptReport<T>(t: Result<T>): (r: Result<Report<T>>)
    ensures r.Ok? <==> t.Ok?
    ensures t.Ok? ==> r.value == TranscriptReport(t.value)
    ensures t.Err? ==> r.error == t.error
  {
    match t
    case Ok(v) => Ok(TranscriptReport(v))
    case Err(e) => Err(e)
  }

  const UnsupportedModeMessage: string := "unsupported mode: "

  /** `run_analysis` on a clip given as its decoded frames and reported
      frame rate, with the per-frame metrics and the speech-to-text
      backends as parameters. */
  method RunAnalysis<F, T>(
    o: Options, reportedFps: Option<real>, frames: seq<F>, luma: F -> real, diff: (F, F) -> real,
    run: string -> BackendOutcome<T>)
    returns (r: Result<Report<T>>)
    // the option checks come first, whatever the clip
    ensures OptionError(o).Some? ==> r == Err(InvalidParameter(OptionError(o).value))
    // transcription: the result of the first backend that decides the run
    ensures var (mode, _) := NormalizeModeScope(o.mode, o.scope);
            var names := Providers(o.sttProvider);
            ValidOptions(o) && mode == "transcribe" ==>
              && ((exists k :: 0 <= k < |names| && Decides(run, names[k])) ==>
                    exists k :: && 0 <= k < |names| && Decides(run, names[k])
                                && (forall j :: 0 <= j < k ==> !Decides(run, names[j]))
                                && r == AsTranscriptReport(OutcomeResult(run(names[k]))))
              && ((forall k :: 0 <= k < |names| ==> !Decides(run, names[k])) ==>
                    r == Err(NoDecisionError(Missing(names, run), o.sttProvider)))
    // every other mode decodes the clip before anything else
    ensures var (mode, _) := NormalizeModeScope(o.mode, o.scope);
            ValidOptions(o) && mode != "transcribe" && |frames| == 0 ==> r == Err(Decode(NoFramesMessage))
    ensures var (mode, _) := NormalizeModeScope(o.mode, o.scope);
            ValidOptions(o) && mode == "summary" && |frames| > 0 ==>
              var clip := ClipOf(reportedFps, frames, luma, diff);
              r == Ok(SummaryReport(AnalyzeSummary(clip.fps, clip.luma, clip.motion, o.blackThreshold)))
    ensures var (mode, scope) := NormalizeModeScope(o.mode, o.scope);
            ValidOptions(o) && mode == "black-segments" && |frames| > 0 ==>
              var clip := ClipOf(reportedFps, frames, luma, diff);
              var range := GetScopeIndices(|clip.luma|, scope, o.tailSeconds, clip.fps);
              && (range.Err? ==> r == Err(range.error))
              && (range.Ok? ==>
                    r.Ok? && r.value.SegmentsReport? &&
                    ReportsScan(r.value.report, "black-segments", clip.fps, AsOptions(clip.luma), scope,
                                o.tailSeconds, o.blackThreshold, o.minSegmentFrames, range.value.0, range.value.1))
    ensures var (mode, scope) := NormalizeModeScope(o.mode, o.scope);
            ValidOptions(o) && mode == "freeze-segments" && |frames| > 0 ==>
              var clip := ClipOf(reportedFps, frames, luma, diff);
              var range := GetScopeIndices(|clip.motion|, scope, o.tailSeconds, clip.fps);
              && (range.Err? ==> r == Err(range.error))
              && (range.Ok? ==>
                    var start := if range.value.0 < 1 then 1 else range.value.0;
                    r.Ok? && r.value.SegmentsReport? &&
                    ReportsScan(r.value.report, "freeze-segments", clip.fps, clip.motion, scope,
                                o.tailSeconds, o.freezeThreshold, o.minSegmentFrames, start, range.value.1))
    ensures var (mode, _) := NormalizeModeScope(o.mode, o.scope);
            ValidOptions(o) && mode !in {"summary", "black-segments", "freeze-segments", "transcribe"} && |frames| > 0 ==>
              r == Err(Unsupported(UnsupportedModeMessage + mode))
  {
    var error := OptionError(o);
    if error.Some? {
      return Err(InvalidParameter(error.value));
    }
    var (mode, scope) := NormalizeModeScope(o.mode, o.scope);
    if mode == "transcribe" {
      var transcript := AnalyzeTranscribe(o.sttProvider, run);
      return AsTranscriptReport(transcript);
    }
    var loaded := LoadMetrics(reportedFps, frames, luma, diff);
    if loaded.Err? {
      return Err(loaded.error);
    }
    var clip := loaded.value;
    if mode == "summary" {
      return Ok(SummaryReport(AnalyzeSummary(clip.fps, clip.luma, clip.motion, o.blackThreshold)));
    }
    if mode == "black-segments" {
      var report := AnalyzeBlackSegments(clip.fps, clip.luma, scope, o.tailSeconds, o.blackThreshold, o.minSegmentFrames);
      if report.Err? {
        return Err(report.error);
      }
      return Ok(SegmentsReport(report.value));
    }
    if mode == "freeze-segments" {
      var report := AnalyzeFreezeSegments(clip.fps, clip.motion, scope, o.tailSeconds, o.freezeThreshold, o.minSegmentFrames);
      if report.Err? {
        return Err(report.error);
      }
      return Ok(SegmentsReport(report.value));
    }
    return Err(Unsupported(UnsupportedModeMessage + mode));
  }
}
