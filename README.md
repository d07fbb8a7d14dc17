# A verified model of the video analyzer's metric engine

`scripts/dev/analyze-video.py` is a local debugging tool. It decodes a video
into two per-frame metric streams:

- **luma**: the mean brightness of each frame;
- **motion**: the mean absolute difference from the previous frame, with no
  value for frame 0.

From these streams it builds one of several reports:

- a **summary**: statistics of both streams, and the share of frames at or
  below a black threshold;
- **black segments**: the maximal runs of dark frames;
- **freeze segments**: the maximal runs of frames that barely move.

Either segment report can cover the whole clip or its last few seconds.
Runs shorter than a minimum frame count are dropped. A fourth mode hands the
clip to one of two Whisper speech-to-text backends, falling back from one to
the other.

This project models that engine in Dafny and proves what it promises. The
modules follow the script:

- `Wrappers` (`wrappers.dfy`): the `Option` and `Result` types, and the
  errors that end a run.
- `Stats` (`stats.dfy`): sorting, minimum, maximum and mean, and the
  linear-interpolation `percentile`.
- `Scope` (`scope.dfy`): Python's round-half-to-even, and the frame range of
  a scope (`get_scope_indices`).
- `Segments` (`segments.dfy`): the detector `detect_segments` and the
  enricher `enrich_segments_with_time`. Both are imperative loops. The
  detector is proved against a declarative specification, `IsDetection`.
  - Sound: every reported segment is a maximal run of defined values at or
    below the threshold, long enough, and with the right frame count.
  - Ordered: segments ascend, with a gap between any two.
  - Complete: every such run is reported, including one still open at the
    end of the range.
  - Determined: `DetectionUnique` proves the specification fixes the output.
- `Metrics` (`metrics.dfy`): the frame loop of `load_metrics` and its
  frame-rate default. The per-frame reductions are parameters.
- `Reports` (`reports.dfy`): `analyze_summary`, `analyze_black_segments` and
  `analyze_freeze_segments`, with the scope counts, the ratios and the
  at-end flag.
- `Text` (`text.dfy`): Python's `str.strip`, `normalize_stt_language` and the
  `" ".join` of transcript texts.
- `Transcribe` (`transcribe.dfy`): the provider fallback of
  `analyze_transcribe`, over abstract backend outcomes.
- `Analysis` (`analysis.dfy`): `normalize_mode_scope`, the option checks,
  and the order of steps in `run_analysis`.

Metric values, thresholds, frame rates and times are mathematical reals.
The NaN the script uses for "no value" is `None`.

## Model

| member | source | states |
|---|---|---|
| `Stats.Sort` | scripts/dev/analyze-video.py:261 | `sorted`: the result is ascending and a permutation (same multiset) of the input |
| `Stats.SeqMin` | scripts/dev/analyze-video.py:274 | `min`: the result is an element of the sample and at most every element |
| `Stats.SeqMax` | scripts/dev/analyze-video.py:275 | `max`: the result is an element of the sample and at least every element |
| `Stats.SumBounds` | scripts/dev/analyze-video.py:276 | if every element is in `[lo, hi]`, the sum is between `n*lo` and `n*hi` |
| `Stats.Sum` | scripts/dev/analyze-video.py:276 | no contract of its own: Python's `sum` over reals, the empty sum being 0; `Stats.SumBounds` and `Stats.MeanWithin` bound it |
| `Stats.MeanWithin` | scripts/dev/analyze-video.py:276 | the mean `sum / n` of a non-empty sample inside `[lo, hi]` is inside `[lo, hi]` |
| `Stats.AtRank` | scripts/dev/analyze-video.py:134-140 | the floor and ceiling of the fractional rank are in bounds and adjacent, and the value (exact, or interpolated) lies between the two neighbours |
| `Stats.Percentile` | scripts/dev/analyze-video.py:127-140 | empty sample gives the NaN sentinel (exactly then); `p <= 0` gives the first element; `p >= 100` the last; otherwise a value between the neighbours of rank `(n-1)*p/100` |
| `Stats.PercentileAtWholeRank` | scripts/dev/analyze-video.py:134-137 | when the rank is a whole number `k`, the result is exactly element `k`, and `k` is in bounds |
| `Stats.PercentileWithinSorted` | scripts/dev/analyze-video.py:127-140 | for a sorted sample, every percentile lies between the first and the last element |
| `Stats.PercentileMonotone` | scripts/dev/analyze-video.py:127-140 | for a sorted sample, the percentile grows with `p` |
| `Stats.StatsOf` | scripts/dev/analyze-video.py:273-288 | min and max are attained and bound every sample; `min <= mean <= max`; `min <= p05 <= p50 <= p95 <= max` |
| `Stats.MedianOfFirstFour` | scripts/dev/analyze-video.py:127-140 | the median of `[1, 2, 3, 4]` is 2.5 |
| `Scope.RoundHalfEven` | scripts/dev/analyze-video.py:248 | Python `round`: the result is within one half of `x`, and even on a tie |
| `Scope.RoundHalfEvenUnique` | scripts/dev/analyze-video.py:248 | at most one integer is within one half of `x` and even on a tie, so `round` is determined |
| `Scope.TailFrames` | scripts/dev/analyze-video.py:248 | `max(1, round(tail_seconds * fps))`: at least one frame, and the rounded product whenever that is at least one |
| `Scope.GetScopeIndices` | scripts/dev/analyze-video.py:241-250 | no frames gives `(0, 0)`; "full" gives the whole clip; the tail path with `tail_seconds <= 0` raises the tail error; otherwise `0 <= start < end == total` and `end - start == min(total, max(1, round(tail*fps)))` |
| `Scope.TailOfOneHundredFrames` | scripts/dev/analyze-video.py:241-250 | 100 frames, tail 2 s at 25 fps gives `(50, 100)` |
| `Scope.TailRoundsHalfToEven` | scripts/dev/analyze-video.py:248 | 2.5 tail frames round to 2 and 3.5 to 4 (half to even, not up) |
| `Segments.DetectSegments` | scripts/dev/analyze-video.py:176-219 | the output is sound, ascending with gaps, and complete for the range, including a run still open at its end; an empty range gives `[]` |
| `Segments.DetectionUnique` | scripts/dev/analyze-video.py:176-219 | two segment lists that both meet the detector's specification are equal |
| `Segments.DetectExample` | scripts/dev/analyze-video.py:176-219 | `[10,1,1,1,10,10,1,1,10]`, threshold 2, minimum 3 gives only frames 1-3; the 2-frame run is dropped |
| `Segments.BoundaryExample` | scripts/dev/analyze-video.py:208-217 | a run still open at the end of the range is flushed: `[10,1,1,1]`, minimum 2 gives frames 1-3 |
| `Segments.EnrichSegmentsWithTime` | scripts/dev/analyze-video.py:222-238 | same length and order; indices and count copied; start, end and duration are the divisions by `fps`; dropping the times gives back the input |
| `Segments.TimedDetectionOrdered` | scripts/dev/analyze-video.py:222-238 | timed detected segments have strictly ascending times, and each lasts from its start time to one frame past its end time |
| `Metrics.FrameRate` | scripts/dev/analyze-video.py:152-154 | the frame rate is always positive: the reported one when it is positive, otherwise 30 |
| `Metrics.ClipOf` | scripts/dev/analyze-video.py:156-166 | the streams have one slot per frame; luma is the per-frame value; motion is undefined at frame 0 and the difference from the previous frame everywhere else |
| `Metrics.LoadMetrics` | scripts/dev/analyze-video.py:152-173 | the frame loop fails with the decode error exactly when there are no frames; otherwise it returns `ClipOf` of the frames |
| `Reports.AsOptions` | scripts/dev/analyze-video.py:306 | the black flags are the luma values, every one defined |
| `Reports.DefinedValues` | scripts/dev/analyze-video.py:262 | exactly the defined motion values, no more of them than slots |
| `Reports.DefinedValuesCounts` | scripts/dev/analyze-video.py:262 | each defined value is kept exactly as often as it occurs in the stream |
| `Reports.DefinedValuesAppend` | scripts/dev/analyze-video.py:262 | filtering a concatenation is the concatenation of the filtered parts, so the order of the stream is kept |
| `Reports.NoDefinedValues` | scripts/dev/analyze-video.py:283-288 | there are no defined motion values exactly when every slot is undefined |
| `Reports.MotionSampleCount` | scripts/dev/analyze-video.py:282 | for a stream as the loader builds it, the motion sample count is the frame count minus one |
| `Reports.CountGood` | scripts/dev/analyze-video.py:316 | the scope count is at most the size of the range |
| `Reports.CountGoodSplit` | scripts/dev/analyze-video.py:316 | counting is additive over adjacent ranges |
| `Reports.CountGoodAll` | scripts/dev/analyze-video.py:316 | the count equals the range size exactly when every frame in it is at or below the threshold |
| `Reports.CountGoodNone` | scripts/dev/analyze-video.py:362-366 | the count is 0 exactly when no frame in the range is at or below the threshold |
| `Reports.SegmentFramesCounted` | scripts/dev/analyze-video.py:307-316 | the frames of the detected segments are no more than the frames counted in the scope |
| `Reports.Ratio` | scripts/dev/analyze-video.py:333 | 0.0 for an empty scope; otherwise in `[0, 1]`, 0 exactly when nothing is counted and 1 exactly when everything is |
| `Reports.AtVideoEnd` | scripts/dev/analyze-video.py:317-318 | the flag `bool(segments) and segments[-1].end_frame >= total - 1`: when set, some segment reaches the last frame; when no segment does, it is clear |
| `Reports.AtVideoEndIffFinalRun` | scripts/dev/analyze-video.py:317-318 | the at-end flag is set exactly when a qualifying maximal run ends at the last frame |
| `Reports.MotionStatsOf` | scripts/dev/analyze-video.py:281-288 | motion statistics are absent exactly when no slot is defined; otherwise they are computed over defined values only, bound all of them and are ordered |
| `Reports.BlackShare` | scripts/dev/analyze-video.py:290-291 | the black ratio is in `[0, 1]`; 1 exactly when every frame is dark; 0 exactly when none is |
| `Reports.AnalyzeSummary` | scripts/dev/analyze-video.py:253-292 | frame count and duration; luma statistics attained, bounding and ordered; motion statistics over defined values only; black count over the whole clip; ratio in `[0, 1]` |
| `Reports.ScanScope` | scripts/dev/analyze-video.py:307-318 | the returned report is the detection of the range with times, the count and ratio of the range, and the at-end flag |
| `Reports.ReportConsistent` | scripts/dev/analyze-video.py:304-337 | in a segment report the ratio is in `[0, 1]`; the segments hold no more frames than are counted; segment times ascend |
| `Reports.AnalyzeBlackSegments` | scripts/dev/analyze-video.py:295-337 | the scope error is passed on; otherwise the report is a scan of the luma stream over the resolved range |
| `Reports.AnalyzeFreezeSegments` | scripts/dev/analyze-video.py:340-387 | the same over the motion stream, with the range start clamped to at least 1, so no freeze segment contains frame 0 |
| `Text.SkipSpaces` | scripts/dev/analyze-video.py:391 | the forward scan of `strip`: it passes white space only and stops at the end or at the first other character |
| `Text.SkipSpacesBack` | scripts/dev/analyze-video.py:391 | the backward scan of `strip`: it passes white space only and stops at its lower bound or after the last other character |
| `Text.Strip` | scripts/dev/analyze-video.py:391 | an infix with only white space around it; no white space at either end; empty exactly when the input is all white space |
| `Text.StripUnique` | scripts/dev/analyze-video.py:391 | any infix with only white space around it and none at its ends is the strip |
| `Text.StripIdempotent` | scripts/dev/analyze-video.py:391 | stripping twice is stripping once |
| `Text.Lower` | scripts/dev/analyze-video.py:394 | ASCII lower-casing, character by character |
| `Text.NormalizeSttLanguage` | scripts/dev/analyze-video.py:390-397 | no language exactly for a blank option or "auto" / "none" in any letter case; otherwise a non-empty, stripped infix of the option |
| `Text.NormalizeSttLanguageIdempotent` | scripts/dev/analyze-video.py:390-397 | a normalised language normalises to itself |
| `Text.NormalizeDefaultLanguage` | scripts/dev/analyze-video.py:390-397 | "ja" is kept |
| `Text.NormalizePaddedLanguage` | scripts/dev/analyze-video.py:390-397 | " en\n" becomes "en" |
| `Text.NormalizeAutoInCapitals` | scripts/dev/analyze-video.py:390-397 | "  AUTO " means automatic detection |
| `Text.NormalizeNoneCapitalised` | scripts/dev/analyze-video.py:390-397 | "None" means automatic detection |
| `Text.Join` | scripts/dev/analyze-video.py:447 | `sep.join`: empty for no parts, the part itself for one, and it starts with the first part and ends with the last |
| `Text.JoinSnoc` | scripts/dev/analyze-video.py:447 | one more part at the end adds one separator and that part |
| `Text.JoinAppend` | scripts/dev/analyze-video.py:447 | joining two non-empty lists of parts is joining each and putting one separator between, so every part appears in order with exactly one separator between neighbours |
| `Text.JoinPair` | scripts/dev/analyze-video.py:538 | two parts are the first, the separator, and the second |
| `Text.NonEmpty` | scripts/dev/analyze-video.py:447 | exactly the non-empty texts; empty exactly when every text is |
| `Text.NonEmptyCounts` | scripts/dev/analyze-video.py:447 | each non-empty text is kept exactly as often as it occurs; the empty text never |
| `Text.NonEmptyAppend` | scripts/dev/analyze-video.py:447 | filtering a concatenation is the concatenation of the filtered parts, so the segment order is kept |
| `Text.JoinBlank` | scripts/dev/analyze-video.py:447 | texts joined by single spaces are blank exactly when every text is |
| `Text.NonEmptyBlank` | scripts/dev/analyze-video.py:447 | dropping the empty texts leaves every text blank exactly when every text was |
| `Text.JoinTexts` | scripts/dev/analyze-video.py:447 | `" ".join(...).strip()` of the non-empty texts: the result is stripped, and empty exactly when every text is blank |
| `Text.JoinStrippedTexts` | scripts/dev/analyze-video.py:447 | for stripped segment texts the final strip changes nothing, and the full text is empty exactly when every segment text is |
| `Transcribe.Providers` | scripts/dev/analyze-video.py:522-524 | "auto" tries faster-whisper, then openai-whisper; any other value tries only itself |
| `Transcribe.Missing` | scripts/dev/analyze-video.py:533-534 | every entry is a tried provider that is a backend, with its "module not found" message; every tried backend whose module is missing is listed |
| `Transcribe.MissingAppend` | scripts/dev/analyze-video.py:527-535 | the entries of providers tried one after the other come in that order |
| `Transcribe.Details` | scripts/dev/analyze-video.py:538 | the `" / ".join` of `name: message` entries: empty for none, the entry itself for one, both entries with " / " between them for two (the most the providers give), and it starts with the first entry |
| `Transcribe.NoDecisionError` | scripts/dev/analyze-video.py:537-545 | the no-backend error, with the details, exactly when some backend's module was missing; otherwise the unsupported-provider error naming the provider |
| `Transcribe.AnalyzeTranscribe` | scripts/dev/analyze-video.py:521-545 | the first tried backend whose module loads decides the result; if none does, the error lists the missing modules, or names the unsupported provider |
| `Transcribe.FallsBackToOpenAiWhisper` | scripts/dev/analyze-video.py:527-535 | with "auto" and faster-whisper missing, openai-whisper's transcript is returned |
| `Transcribe.AutoPrefersFasterWhisper` | scripts/dev/analyze-video.py:522-530 | with "auto" and both backends installed, faster-whisper's transcript is returned |
| `Transcribe.FailureIsNotFallenBackFrom` | scripts/dev/analyze-video.py:527-535 | a backend that is installed but fails ends the run with its error; the other backend is not tried |
| `Transcribe.BothMissingDetails` | scripts/dev/analyze-video.py:538 | the details of two missing backends read `faster-whisper: no fw / openai-whisper: no ow` |
| `Transcribe.BothModulesMissing` | scripts/dev/analyze-video.py:522-543 | with "auto" and neither module installed, the no-backend error lists faster-whisper's reason, " / ", then openai-whisper's |
| `Transcribe.OpenAiWhisperDetails` | scripts/dev/analyze-video.py:538 | the details of openai-whisper alone are `openai-whisper: missing` |
| `Transcribe.NoFallbackForExplicitProvider` | scripts/dev/analyze-video.py:537-543 | naming a missing backend explicitly gives the no-backend error, listing only that backend |
| `Transcribe.UnknownProvider` | scripts/dev/analyze-video.py:545 | a provider that is not a backend gives "unsupported stt provider" |
| `Transcribe.TranscriptText` | scripts/dev/analyze-video.py:437-447 | the full text is stripped, and empty exactly when every segment text is blank |
| `Transcribe.OpenAiWhisperText` | scripts/dev/analyze-video.py:503-505 | stripped; empty exactly when the segment texts and the backend's own text are all blank; the joined segment text whenever it is non-empty, otherwise the backend's own text, stripped |
| `Analysis.NormalizeModeScope` | scripts/dev/analyze-video.py:548-554 | "tail-black" and "full-black" become the black report over the tail or the whole clip; every other pair is unchanged; the result is never a legacy name |
| `Analysis.NormalizeModeScopeIdempotent` | scripts/dev/analyze-video.py:548-554 | normalising twice is normalising once |
| `Analysis.OptionError` | scripts/dev/analyze-video.py:561-568 | no error exactly for valid options; otherwise the message of the first failing check, in the script's order |
| `Analysis.AsTranscriptReport` | scripts/dev/analyze-video.py:571-572 | a transcription's transcript becomes the run's report, and its error the run's error |
| `Analysis.RunAnalysis` | scripts/dev/analyze-video.py:557-604 | option errors come first, whatever the clip; transcription returns the result of the first provider that decides the run, or the no-decision error; a metric mode on a clip without frames reports the decode error before any tail-scope or unknown-mode error; each metric mode returns its report |

## Left out

- Decoding is left out: the imageio reader, its metadata, `reader.close()`
  and the "imageio was not found" error (lines 143-151 and 167-169). The
  model starts from the decoded frames and the reported frame rate.
- `compute_luma` and `compute_frame_diff` (lines 104-124) are numpy
  reductions over pixels. The model takes them as uninterpreted parameters.
- IEEE floating point is not modelled; all arithmetic is exact real
  arithmetic. In particular, a NaN frame rate, which the script would keep,
  is not modelled.
- The backend calls `analyze_transcribe_faster_whisper` and
  `analyze_transcribe_openai_whisper` (lines 415-518) are foreign. They
  appear only as their outcomes: a transcript, the "module not found"
  message, or another failure. The pure parts of them are modelled: the
  language option, the text join and the openai-whisper text fallback.
  - The segment lists they build, with index, start and end times, are not
    modelled.
  - `prepend_imageio_ffmpeg_to_path` (lines 400-412) is left out. It only
    edits the process environment.
- The `input_path.exists()` check (lines 558-560) is left out: it asks the
  filesystem.
- `parse_args`, `main`, the JSON output and the output file (lines 15-101
  and 607-629) are left out. The fields that only echo an input path are
  not modelled.
- The model names error kinds by role: options, decoding, missing backend,
  unsupported value. Python raises a `ValueError` for the option, tail,
  mode and provider errors, and a `RuntimeError` for decoding and missing
  backends. `main` prints only the message, so the message is what the
  model keeps.
- `Text.Lower` lower-cases ASCII letters only. Python's `str.lower` is
  Unicode-wide, but for the comparison with "auto" and "none" the two agree:
  no non-ASCII character lower-cases to one of their letters.
- `Segments.EnrichSegmentsWithTime` requires `fps > 0`, and so do
  `Reports.AnalyzeSummary` and the segment reports. The script divides by
  whatever frame rate it is given, but its only frame rate comes from
  `load_metrics`, which is always positive (`Metrics.FrameRate`).
- `Reports.AnalyzeSummary` requires a non-empty luma stream. The script's
  `min` would raise on an empty one, and `load_metrics` never returns one.
- `Segments.DetectSegments` requires `index_end <= len(values)` when the
  range is non-empty. The script would raise an `IndexError` beyond the
  list, and every caller passes `index_end == len(values)`.
- `scripts/dev/analyze-end-blackout.py` and
  `scripts/dev/prefetch-whisper-models.py` are not part of this model. They
  are wrappers: one runs the analyzer, the other downloads models.
- `missing_errors` (line 525) is a dictionary keyed by provider. The model
  keeps a list in the order of trying, which holds the same entries because
  the providers tried are distinct.
- The tail length is rounded half to even (line 248), not up to whole
  frames (`Scope.TailRoundsHalfToEven`).
