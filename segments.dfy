/** The segment detector `detect_segments`
    (scripts/dev/analyze-video.py:176-219) and the segment enricher
    `enrich_segments_with_time` (lines 222-238).

    A metric stream is a sequence of optional reals: `None` is a frame with
    no value (frame 0 of the motion stream). The detector scans a half-open
    index range once, left to right, and reports the maximal runs inside
    that range whose values are all defined and at most the threshold, and
    that are at least `minFrames` long. The specification below says which
    segments those are without reference to the scan; the detector is
    proved to meet it, and `DetectionUnique` shows that it pins the output
    down completely. */
module Segments {
  import opened Wrappers

  /** A detected segment: inclusive start and end frame index, frame count. */
  datatype Segment = Segment(startFrame: nat, endFrame: nat, frameCount: int)

  /** Frame `i` exists, has a value, and that value is at most `threshold`. */
  predicate AtOrBelow(values: seq<Option<real>>, threshold: real, i: int) {
    0 <= i < |values| && values[i].Some? && values[i].value <= threshold
  }

  /** Every frame of `[s, e]` is at or below the threshold. */
  predicate AllAtOrBelow(values: seq<Option<real>>, threshold: real, s: int, e: int) {
    forall i :: s <= i <= e ==> AtOrBelow(values, threshold, i)
  }

  /** `[s, e]` is a maximal run inside `[lo, hi)`: it lies in the range, all
      its frames are at or below the threshold, and the neighbour on either
      side, when it is inside the range, is not. */
  predicate MaximalRun(values: seq<Option<real>>, threshold: real, lo: int, hi: int, s: int, e: int) {
    && lo <= s <= e < hi
    && AllAtOrBelow(values, threshold, s, e)
    && (s == lo || !AtOrBelow(values, threshold, s - 1))
    && (e == hi - 1 || !AtOrBelow(values, threshold, e + 1))
  }

  /** A maximal run that is long enough to be reported. */
  predicate Qualifies(values: seq<Option<real>>, threshold: real, minFrames: int, lo: int, hi: int, s: int, e: int) {
    MaximalRun(values, threshold, lo, hi, s, e) && e - s + 1 >= minFrames
  }

  /** Segment `[s, e]` is among `segs`. */
  ghost predicate Reported(segs: seq<Segment>, s: int, e: int) {
    exists k :: 0 <= k < |segs| && segs[k].startFrame == s && segs[k].endFrame == e
  }

  /** Each segment is a qualifying maximal run with the right frame count. */
  predicate AllQualify(values: seq<Option<real>>, threshold: real, minFrames: int, lo: int, hi: int, segs: seq<Segment>) {
    forall k :: 0 <= k < |segs| ==>
      && segs[k].frameCount == segs[k].endFrame - segs[k].startFrame + 1
      && Qualifies(values, threshold, minFrames, lo, hi, segs[k].startFrame, segs[k].endFrame)
  }

  /** The segments ascend, with at least one frame between any two. */
  predicate Ascending(segs: seq<Segment>) {
    forall j, k :: 0 <= j < k < |segs| ==> segs[j].endFrame + 1 < segs[k].startFrame
  }

  /** Every qualifying maximal run that ends before frame `bound - 1` is
      reported. */
  ghost predicate CompleteBefore(values: seq<Option<real>>, threshold: real, minFrames: int, lo: int, hi: int, segs: seq<Segment>, bound: int) {
    forall s, e {:trigger Reported(segs, s, e)} ::
      Qualifies(values, threshold, minFrames, lo, hi, s, e) && e + 1 < bound ==> Reported(segs, s, e)
  }

  /** What the detector promises of its output `segs`:
      sound (each segment is a qualifying maximal run with the right frame
      count), ordered (ascending, disjoint and with a gap between any two),
      and complete (every qualifying maximal run is reported). */
  ghost predicate IsDetection(values: seq<Option<real>>, threshold: real, minFrames: int, lo: int, hi: int, segs: seq<Segment>) {
    && AllQualify(values, threshold, minFrames, lo, hi, segs)
    && Ascending(segs)
    && (forall s, e {:trigger Reported(segs, s, e)} ::
          Qualifies(values, threshold, minFrames, lo, hi, s, e) ==> Reported(segs, s, e))
  }

  /** Two maximal runs of one range that end at the same frame are the
      same run. */
  lemma SameEndSameRun(values: seq<Option<real>>, threshold: real, lo: int, hi: int, s1: int, s2: int, e: int)
    requires MaximalRun(values, threshold, lo, hi, s1, e)
    requires MaximalRun(values, threshold, lo, hi, s2, e)
    ensures s1 == s2
  {
  }

  /** A frame at or below the threshold cannot follow the end of a maximal
      run, so scanning it closes no run. */
  lemma CompleteAcrossGood(values: seq<Option<real>>, threshold: real, minFrames: int, lo: int, hi: int, segs: seq<Segment>, idx: int)
    requires idx < hi && AtOrBelow(values, threshold, idx)
    requires CompleteBefore(values, threshold, minFrames, lo, hi, segs, idx)
    ensures CompleteBefore(values, threshold, minFrames, lo, hi, segs, idx + 1)
  {
  }

  /** With no run open at `idx`, no maximal run ends at `idx - 1`. */
  lemma CompleteWithoutRun(values: seq<Option<real>>, threshold: real, minFrames: int, lo: int, hi: int, segs: seq<Segment>, idx: int)
    requires idx == lo || !AtOrBelow(values, threshold, idx - 1)
    requires CompleteBefore(values, threshold, minFrames, lo, hi, segs, idx)
    ensures CompleteBefore(values, threshold, minFrames, lo, hi, segs, idx + 1)
  {
    forall s, e | Qualifies(values, threshold, minFrames, lo, hi, s, e) && e + 1 < idx + 1
      ensures Reported(segs, s, e)
    {
      assert AtOrBelow(values, threshold, e);
    }
  }

  /** Closing the open run `[start, idx - 1]`, and reporting it when it is
      long enough, completes the runs ending at `idx - 1`. */
  lemma CompleteAfterClose(
    values: seq<Option<real>>, threshold: real, minFrames: int, lo: int, hi: int,
    segs: seq<Segment>, closed: seq<Segment>, start: nat, idx: int)
    requires lo <= start < idx && AllAtOrBelow(values, threshold, start, idx - 1)
    requires start == lo || !AtOrBelow(values, threshold, start - 1)
    requires CompleteBefore(values, threshold, minFrames, lo, hi, segs, idx)
    requires closed == if idx - start >= minFrames then segs + [Segment(start, idx - 1, idx - start)] else segs
    ensures CompleteBefore(values, threshold, minFrames, lo, hi, closed, idx + 1)
  {
    forall s, e | Qualifies(values, threshold, minFrames, lo, hi, s, e) && e + 1 < idx + 1
      ensures Reported(closed, s, e)
    {
      if e + 1 == idx {
        SameEndSameRun(values, threshold, lo, hi, s, start, e);
        assert closed[|closed| - 1] == Segment(start, idx - 1, idx - start);
      } else {
        assert Reported(segs, s, e);
        var k :| 0 <= k < |segs| && segs[k].startFrame == s && segs[k].endFrame == e;
        assert closed[k] == segs[k];
      }
    }
  }

  /** Appending a qualifying run that starts after every reported one keeps
      the segments sound and ascending. */
  lemma AppendKeepsSoundAndAscending(
    values: seq<Option<real>>, threshold: real, minFrames: int, lo: int, hi: int,
    segs: seq<Segment>, s: nat, e: nat)
    requires AllQualify(values, threshold, minFrames, lo, hi, segs) && Ascending(segs)
    requires Qualifies(values, threshold, minFrames, lo, hi, s, e)
    requires forall k :: 0 <= k < |segs| ==> segs[k].endFrame + 1 < s
    ensures AllQualify(values, threshold, minFrames, lo, hi, segs + [Segment(s, e, e - s + 1)])
    ensures Ascending(segs + [Segment(s, e, e - s + 1)])
  {
  }

  /** `detect_segments`: scans `values[lo..hi]` (nothing when `hi <= lo`)
      and returns exactly the qualifying maximal runs, in ascending order. */
  method DetectSegments(values: seq<Option<real>>, threshold: real, minFrames: int, lo: nat, hi: nat)
    returns (segs: seq<Segment>)
    requires lo < hi ==> hi <= |values|
    ensures IsDetection(values, threshold, minFrames, lo, hi, segs)
    ensures hi <= lo ==> segs == []
  {
    segs := [];
    var segStart: Option<nat> := None;
    var segEnd: Option<nat> := None;
    var idx := lo;
    while idx < hi
      invariant lo <= idx && (idx <= hi || idx == lo)
      invariant idx == lo ==> segs == [] && segStart.None?
      invariant segStart.Some? <==> segEnd.Some?
      // an open run ends at the previous frame and started at a run boundary
      invariant segStart.Some? ==>
                  && lo <= segStart.value <= segEnd.value && segEnd.value + 1 == idx
                  && AllAtOrBelow(values, threshold, segStart.value, idx - 1)
                  && (segStart.value == lo || !AtOrBelow(values, threshold, segStart.value - 1))
      invariant segStart.None? ==> idx == lo || !AtOrBelow(values, threshold, idx - 1)
      // what has been reported is sound, ascending, and before any open run ...
      invariant AllQualify(values, threshold, minFrames, lo, hi, segs) && Ascending(segs)
      invariant forall k :: 0 <= k < |segs| ==>
                  segs[k].endFrame + 1 < (if segStart.Some? then segStart.value else idx)
      // ... and complete for every run that a later frame has closed
      invariant CompleteBefore(values, threshold, minFrames, lo, hi, segs, idx)
    {
      var value := values[idx];
      if value.Some? && value.value <= threshold {
        if segStart.None? {
          segStart := Some(idx);
        }
        segEnd := Some(idx);
        CompleteAcrossGood(values, threshold, minFrames, lo, hi, segs, idx);
        idx := idx + 1;
        continue;
      }
      if segStart.Some? && segEnd.Some? {
        var frameCount := segEnd.value - segStart.value + 1;
        ghost var before := segs;
        if frameCount >= minFrames {
          AppendKeepsSoundAndAscending(values, threshold, minFrames, lo, hi, segs, segStart.value, segEnd.value);
          segs := segs + [Segment(segStart.value, segEnd.value, frameCount)];
        }
        CompleteAfterClose(values, threshold, minFrames, lo, hi, before, segs, segStart.value, idx);
        segStart := None;
        segEnd := None;
      } else {
        CompleteWithoutRun(values, threshold, minFrames, lo, hi, segs, idx);
      }
      idx := idx + 1;
    }
    // a run still open here reaches the last frame of the range
    ghost var before := segs;
    if segStart.Some? && segEnd.Some? {
      var frameCount := segEnd.value - segStart.value + 1;
      if frameCount >= minFrames {
        AppendKeepsSoundAndAscending(values, threshold, minFrames, lo, hi, segs, segStart.value, segEnd.value);
        segs := segs + [Segment(segStart.value, segEnd.value, frameCount)];
      }
      CompleteAfterClose(values, threshold, minFrames, lo, hi, before, segs, segStart.value, idx);
    } else {
      CompleteWithoutRun(values, threshold, minFrames, lo, hi, segs, idx);
    }
    assert CompleteBefore(values, threshold, minFrames, lo, hi, segs, hi + 1);
  }

  /** Two outputs that both meet the detector's specification and agree
      before position `k` agree at `k`. */
  lemma DetectionAgreesAt(
    values: seq<Option<real>>, threshold: real, minFrames: int, lo: int, hi: int,
    a: seq<Segment>, b: seq<Segment>, k: nat)
    requires IsDetection(values, threshold, minFrames, lo, hi, a)
    requires IsDetection(values, threshold, minFrames, lo, hi, b)
    requires k < |a| && k < |b|
    requires forall j :: 0 <= j < k ==> a[j] == b[j]
    ensures a[k] == b[k]
  {
    // a[k] is reported in b at some place m, and b[k] in a at some place m'
    assert Reported(b, a[k].startFrame, a[k].endFrame);
    var m :| 0 <= m < |b| && b[m].startFrame == a[k].startFrame && b[m].endFrame == a[k].endFrame;
    assert Reported(a, b[k].startFrame, b[k].endFrame);
    var m' :| 0 <= m' < |a| && a[m'].startFrame == b[k].startFrame && a[m'].endFrame == b[k].endFrame;
    // m < k or m' < k would make a segment start twice; m, m' > k would make
    // a[k] start strictly before itself
    assert m == k || m' == k;
  }

  /** Two outputs that both meet the detector's specification agree on
      their first `n` segments. */
  lemma {:induction false} DetectionPrefixUnique(
    values: seq<Option<real>>, threshold: real, minFrames: int, lo: int, hi: int,
    a: seq<Segment>, b: seq<Segment>, n: nat)
    requires IsDetection(values, threshold, minFrames, lo, hi, a)
    requires IsDetection(values, threshold, minFrames, lo, hi, b)
    requires n <= |a| && n <= |b|
    ensures forall j :: 0 <= j < n ==> a[j] == b[j]
  {
    if n > 0 {
      DetectionPrefixUnique(values, threshold, minFrames, lo, hi, a, b, n - 1);
      DetectionAgreesAt(values, threshold, minFrames, lo, hi, a, b, n - 1);
    }
  }

  /** A sequence meeting the specification has no segment beyond another
      one that meets it and agrees with it on all of its positions. */
  lemma DetectionNoExtra(
    values: seq<Option<real>>, threshold: real, minFrames: int, lo: int, hi: int,
    a: seq<Segment>, b: seq<Segment>)
    requires IsDetection(values, threshold, minFrames, lo, hi, a)
    requires IsDetection(values, threshold, minFrames, lo, hi, b)
    requires |a| <= |b|
    requires forall j :: 0 <= j < |a| ==> a[j] == b[j]
    ensures |a| == |b|
  {
    // b[|a|], if it existed, would have to be reported in a, where a and b agree
    var k := |a|;
    assert k < |b| ==> Reported(a, b[k].startFrame, b[k].endFrame);
  }

  /** The specification determines the detector's output: two outputs that
      both meet it are equal. */
  lemma DetectionUnique(
    values: seq<Option<real>>, threshold: real, minFrames: int, lo: int, hi: int,
    a: seq<Segment>, b: seq<Segment>)
    requires IsDetection(values, threshold, minFrames, lo, hi, a)
    requires IsDetection(values, threshold, minFrames, lo, hi, b)
    ensures a == b
  {
    if |a| <= |b| {
      DetectionPrefixUnique(values, threshold, minFrames, lo, hi, a, b, |a|);
      DetectionNoExtra(values, threshold, minFrames, lo, hi, a, b);
    } else {
      DetectionPrefixUnique(values, threshold, minFrames, lo, hi, b, a, |b|);
      DetectionNoExtra(values, threshold, minFrames, lo, hi, b, a);
    }
  }

  /** A segment with its times in seconds. */
  datatype TimedSegment = TimedSegment(
    startFrame: nat, endFrame: nat, startTimeSec: real, endTimeSec: real,
    frameCount: int, durationSec: real)

  /** The frame-index part of timed segments. */
  function FrameSegments(timed: seq<TimedSegment>): (r: seq<Segment>)
    ensures |r| == |timed|
  {
    seq(|timed|, k requires 0 <= k < |timed| => Segment(timed[k].startFrame, timed[k].endFrame, timed[k].frameCount))
  }

  /** `t` carries the indices and count of `s`, and times obtained by
      dividing by `fps`. */
  predicate TimedAs(t: TimedSegment, s: Segment, fps: real)
    requires fps > 0.0
  {
    && t.startFrame == s.startFrame && t.endFrame == s.endFrame && t.frameCount == s.frameCount
    && t.startTimeSec == s.startFrame as real / fps
    && t.endTimeSec == s.endFrame as real / fps
    && t.durationSec == s.frameCount as real / fps
  }

  /** `enrich_segments_with_time`: the same segments, in the same order,
      with times: dropping the times gives back the input. */
  method EnrichSegmentsWithTime(segs: seq<Segment>, fps: real) returns (timed: seq<TimedSegment>)
    requires fps > 0.0
    ensures |timed| == |segs|
    ensures forall k :: 0 <= k < |segs| ==> TimedAs(timed[k], segs[k], fps)
    ensures FrameSegments(timed) == segs
  {
    timed := [];
    for k := 0 to |segs|
      invariant |timed| == k
      invariant forall j :: 0 <= j < k ==> TimedAs(timed[j], segs[j], fps)
    {
      var seg := segs[k];
      timed := timed + [TimedSegment(
        seg.startFrame, seg.endFrame,
        seg.startFrame as real / fps, seg.endFrame as real / fps,
        seg.frameCount, seg.frameCount as real / fps)];
    }
  }

  /** The segments of a detection, once timed, start later in the clip one
      after the other, and each lasts from its start time to one frame past
      its end time. */
  lemma TimedDetectionOrdered(
    values: seq<Option<real>>, threshold: real, minFrames: int, lo: int, hi: int,
    segs: seq<Segment>, timed: seq<TimedSegment>, fps: real)
    requires fps > 0.0
    requires IsDetection(values, threshold, minFrames, lo, hi, segs)
    requires |timed| == |segs| && forall k :: 0 <= k < |segs| ==> TimedAs(timed[k], segs[k], fps)
    ensures forall j, k :: 0 <= j < k < |timed| ==> timed[j].endTimeSec < timed[k].startTimeSec
    ensures forall k :: 0 <= k < |timed| ==>
              timed[k].startTimeSec <= timed[k].endTimeSec
              && timed[k].durationSec == timed[k].endTimeSec - timed[k].startTimeSec + 1.0 / fps
  {
    forall j, k | 0 <= j < k < |timed|
      ensures timed[j].endTimeSec < timed[k].startTimeSec
    {
      DivideMonotone(segs[j].endFrame as real, segs[k].startFrame as real, fps);
    }
    forall k | 0 <= k < |timed|
      ensures timed[k].startTimeSec <= timed[k].endTimeSec
      ensures timed[k].durationSec == timed[k].endTimeSec - timed[k].startTimeSec + 1.0 / fps
    {
      var s, e, c := segs[k].startFrame as real, segs[k].endFrame as real, segs[k].frameCount as real;
      if s < e {
        DivideMonotone(s, e, fps);
      }
      assert c == e - s + 1.0;
      DivideSpan(s, e, fps);
    }
  }

  /** Dividing a span of frames by the frame rate spans the divided ends. */
  lemma DivideSpan(s: real, e: real, fps: real)
    requires fps > 0.0
    ensures (e - s + 1.0) / fps == e / fps - s / fps + 1.0 / fps
  {
  }

  /** Dividing by a positive `fps` keeps a strict order. */
  lemma DivideMonotone(x: real, y: real, fps: real)
    requires fps > 0.0 && x < y
    ensures x / fps < y / fps
  {
    assert y / fps - x / fps == (y - x) / fps;
  }

  /** The first example of the detector: in `[10, 1, 1, 1, 10, 10, 1, 1, 10]`
      with threshold 2 and minimum 3 only frames 1 to 3 are reported; the
      run at frames 6 and 7 is too short. */
  method DetectExample() returns (segs: seq<Segment>)
    ensures segs == [Segment(1, 3, 3)]
  {
    var values := seq(9, i => if i == 1 || i == 2 || i == 3 || i == 6 || i == 7 then Some(1.0) else Some(10.0));
    assert values == [Some(10.0), Some(1.0), Some(1.0), Some(1.0), Some(10.0), Some(10.0), Some(1.0), Some(1.0), Some(10.0)];
    segs := DetectSegments(values, 2.0, 3, 0, 9);
    var expected := [Segment(1, 3, 3)];
    assert forall i :: AtOrBelow(values, 2.0, i) <==> i == 1 || i == 2 || i == 3 || i == 6 || i == 7;
    forall s, e | Qualifies(values, 2.0, 3, 0, 9, s, e)
      ensures Reported(expected, s, e)
    {
      // frame 4 separates the two candidate runs, and frames 6..7 are too few
      assert !AtOrBelow(values, 2.0, 4);
      assert AtOrBelow(values, 2.0, s) && AtOrBelow(values, 2.0, e);
      assert s == 1 && e == 3;
      assert expected[0] == Segment(1, 3, 3);
    }
    assert Qualifies(values, 2.0, 3, 0, 9, 1, 3);
    assert IsDetection(values, 2.0, 3, 0, 9, expected);
    DetectionUnique(values, 2.0, 3, 0, 9, segs, expected);
  }

  /** The second example: a run that is still open at the end of the range,
      `[10, 1, 1, 1]` with threshold 2 and minimum 2, is reported up to
      frame 3. */
  method BoundaryExample() returns (segs: seq<Segment>)
    ensures segs == [Segment(1, 3, 3)]
  {
    var values := seq(4, i => if i == 0 then Some(10.0) else Some(1.0));
    assert values == [Some(10.0), Some(1.0), Some(1.0), Some(1.0)];
    segs := DetectSegments(values, 2.0, 2, 0, 4);
    var expected := [Segment(1, 3, 3)];
    assert forall i :: AtOrBelow(values, 2.0, i) <==> 1 <= i < 4;
    forall s, e | Qualifies(values, 2.0, 2, 0, 4, s, e)
      ensures Reported(expected, s, e)
    {
      assert AtOrBelow(values, 2.0, s) && AtOrBelow(values, 2.0, e);
      assert s == 1 && e == 3;
      assert expected[0] == Segment(1, 3, 3);
    }
    assert Qualifies(values, 2.0, 2, 0, 4, 1, 3);
    assert IsDetection(values, 2.0, 2, 0, 4, expected);
    DetectionUnique(values, 2.0, 2, 0, 4, segs, expected);
  }
}
