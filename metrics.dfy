/** The metric-building part of `load_metrics`
    (scripts/dev/analyze-video.py:143-173): the frame rate taken from the
    decoder's metadata, and the one pass over the decoded frames that builds
    the luma and motion streams.

    The decoder itself is not modelled: its frames arrive as a sequence of
    an abstract frame type `F`, and its reported frame rate as an optional
    real. The two per-frame reductions `compute_luma` and
    `compute_frame_diff` (lines 104-124) are parameters, uninterpreted. */
module Metrics {
  import opened Wrappers

  /** The luma stream, the motion stream and the frame rate of a clip. */
  datatype ClipMetrics = ClipMetrics(fps: real, luma: seq<real>, motion: seq<Option<real>>)

  const DefaultFps: real := 30.0
  const NoFramesMessage: string := "No video frames could be decoded."

  /** The frame rate in use: the reported one when it is positive,
      otherwise 30 (no report, a zero report, or a negative one). */
  function FrameRate(reported: Option<real>): (fps: real)
    ensures fps > 0.0
    ensures reported.Some? && reported.value > 0.0 ==> fps == reported.value
    ensures !(reported.Some? && reported.value > 0.0) ==> fps == DefaultFps
  {
    var fps := if reported.Some? && reported.value != 0.0 then reported.value else DefaultFps;
    if fps <= 0.0 then DefaultFps else fps
  }

  /** The shape every clip the loader returns has: two parallel streams of
      one slot per frame, at least one frame, a positive frame rate, and a
      motion value in every slot but the first. */
  predicate WellShaped(m: ClipMetrics) {
    && m.fps > 0.0
    && 0 < |m.luma| == |m.motion|
    && m.motion[0].None?
    && forall i :: 1 <= i < |m.motion| ==> m.motion[i].Some?
  }

  /** The streams of a non-empty clip: one luma value per frame, and the
      difference of each frame from the previous one, none for frame 0. */
  function ClipOf<F>(reportedFps: Option<real>, frames: seq<F>, luma: F -> real, diff: (F, F) -> real): (c: ClipMetrics)
    requires |frames| > 0
    ensures WellShaped(c)
    ensures c.fps == FrameRate(reportedFps) && |c.luma| == |frames|
    ensures forall i :: 0 <= i < |frames| ==> c.luma[i] == luma(frames[i])
    ensures forall i :: 1 <= i < |frames| ==> c.motion[i] == Some(diff(frames[i - 1], frames[i]))
  {
    var lumaValues := seq(|frames|, i requires 0 <= i < |frames| => luma(frames[i]));
    var motionValues := seq(|frames|, i requires 0 <= i < |frames| => MotionAt(frames, diff, i));
    ClipMetrics(FrameRate(reportedFps), lumaValues, motionValues)
  }

  /** The motion slot of frame `i`: none for frame 0, otherwise the
      difference from the previous frame. */
  function MotionAt<F>(frames: seq<F>, diff: (F, F) -> real, i: int): (m: Option<real>)
    requires 0 <= i < |frames|
    ensures m.None? <==> i == 0
  {
    if i == 0 then None else Some(diff(frames[i - 1], frames[i]))
  }

  /** `load_metrics` after the decoder has been opened: one pass over the
      frames, appending each frame's luma and its difference from the
      previous frame (none for the first), then the error when no frame was
      decoded. */
  method LoadMetrics<F>(reportedFps: Option<real>, frames: seq<F>, luma: F -> real, diff: (F, F) -> real)
    returns (r: Result<ClipMetrics>)
    ensures r.Err? <==> |frames| == 0
    ensures r.Err? ==> r.error == Decode(NoFramesMessage)
    ensures r.Ok? ==> r.value == ClipOf(reportedFps, frames, luma, diff)
  {
    var fps := FrameRate(reportedFps);
    var lumaValues: seq<real> := [];
    var motionValues: seq<Option<real>> := [];
    var prevFrame: Option<F> := None;
    for k := 0 to |frames|
      invariant |lumaValues| == |motionValues| == k
      invariant prevFrame.None? <==> k == 0
      invariant k > 0 ==> prevFrame == Some(frames[k - 1])
      invariant forall i :: 0 <= i < k ==> lumaValues[i] == luma(frames[i])
      invariant k > 0 ==> motionValues[0].None?
      invariant forall i :: 1 <= i < k ==> motionValues[i] == Some(diff(frames[i - 1], frames[i]))
    {
      var frame := frames[k];
      lumaValues := lumaValues + [luma(frame)];
      if prevFrame.None? {
        motionValues := motionValues + [None];
      } else {
        motionValues := motionValues + [Some(diff(prevFrame.value, frame))];
      }
      prevFrame := Some(frame);
    }
    if |lumaValues| == 0 {
      return Err(Decode(NoFramesMessage));
    }
    var clip := ClipOf(reportedFps, frames, luma, diff);
    assert lumaValues == clip.luma;
    assert motionValues == clip.motion;
    return Ok(ClipMetrics(fps, lumaValues, motionValues));
  }
}
