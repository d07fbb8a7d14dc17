/** The three metric reports: `analyze_summary`,
    `analyze_black_segments` and `analyze_freeze_segments`
    (scripts/dev/analyze-video.py:253-387).

    The summary describes the whole clip: statistics of the luma stream, of
    the defined motion values, and the share of black frames. The two
    segment reports scan the frame range of a scope with the segment
    detector, count the frames in that range at or below the threshold, and
    say whether a reported segment reaches the last frame of the clip. The
    black report scans the luma stream; the freeze report scans the motion
    stream, whose frame 0 has no value, from frame 1 on. */
module Reports {
  import opened Wrappers
  import opened Stats
  import opened Scope
  import opened Segments

  /** The luma stream as a metric stream in which every frame has a value. */
  function AsOptions(luma: seq<real>): (r: seq<Option<real>>)
    ensures |r| == |luma|
    ensures forall i :: 0 <= i < |luma| ==> r[i] == Some(luma[i])
  {
    seq(|luma|, i requires 0 <= i < |luma| => Some(luma[i]))
  }

  /** The defined values of a metric stream, in order. */
  function DefinedValues(values: seq<Option<real>>): (r: seq<real>)
    ensures |r| <= |values|
    ensures forall x :: x in r <==> Some(x) in values
  {
    if values == [] then []
    else
      var prefix := values[..|values| - 1];
      var last := values[|values| - 1];
      assert values == prefix + [last];
      DefinedValues(prefix) + (if last.Some? then [last.value] else [])
  }

  /** Each defined value is kept as often as it occurs in the stream. */
  lemma {:induction false} DefinedValuesCounts(values: seq<Option<real>>)
    ensures forall x :: multiset(DefinedValues(values))[x] == multiset(values)[Some(x)]
  {
    if values != [] {
      var prefix, last := values[..|values| - 1], values[|values| - 1];
      assert values == prefix + [last];
      DefinedValuesCounts(prefix);
      assert multiset(values) == multiset(prefix) + multiset{last};
    }
  }

  /** Filtering a concatenation filters each part and keeps them in order. */
  lemma {:induction false} DefinedValuesAppend(a: seq<Option<real>>, b: seq<Option<real>>)
    ensures DefinedValues(a + b) == DefinedValues(a) + DefinedValues(b)
  {
    if b != [] {
      var front, last := b[..|b| - 1], b[|b| - 1];
      assert (a + b)[..|a + b| - 1] == a + front;
      assert (a + b)[|a + b| - 1] == last;
      DefinedValuesAppend(a, front);
    } else {
      assert a + b == a;
    }
  }

  /** A stream has no defined value exactly when its defined values are
      empty. */
  lemma NoDefinedValues(values: seq<Option<real>>)
    ensures DefinedValues(values) == [] <==> forall i :: 0 <= i < |values| ==> values[i].None?
  {
    var r := DefinedValues(values);
    if r != [] {
      assert r[0] in r;
      assert Some(r[0]) in values;
      var i :| 0 <= i < |values| && values[i] == Some(r[0]);
      assert values[i].Some?;
    }
    if i :| 0 <= i < |values| && values[i].Some? {
      assert Some(values[i].value) in values;
      assert values[i].value in r;
    }
  }

  /** A motion stream as the loader builds it, undefined at frame 0 only,
      has one sample fewer than there are frames. */
  lemma {:induction false} MotionSampleCount(motion: seq<Option<real>>)
    requires |motion| > 0 && motion[0].None?
    requires forall i :: 1 <= i < |motion| ==> motion[i].Some?
    ensures |DefinedValues(motion)| == |motion| - 1
  {
    if |motion| > 1 {
      var prefix := motion[..|motion| - 1];
      MotionSampleCount(prefix);
    }
  }

  /** The number of frames of `[lo, hi)` at or below the threshold. */
  function CountGood(values: seq<Option<real>>, threshold: real, lo: int, hi: int): (n: nat)
    ensures n <= if lo <= hi then hi - lo else 0
    decreases hi - lo
  {
    if hi <= lo then 0
    else CountGood(values, threshold, lo, hi - 1) + (if AtOrBelow(values, threshold, hi - 1) then 1 else 0)
  }

  /** Counting over two adjacent ranges is counting over their union. */
  lemma {:induction false} CountGoodSplit(values: seq<Option<real>>, threshold: real, lo: int, mid: int, hi: int)
    requires lo <= mid <= hi
    ensures CountGood(values, threshold, lo, hi) ==
            CountGood(values, threshold, lo, mid) + CountGood(values, threshold, mid, hi)
    decreases hi - mid
  {
    if mid < hi {
      CountGoodSplit(values, threshold, lo, mid, hi - 1);
    }
  }

  /** Every frame of a range is counted exactly when all of them are at or
      below the threshold. */
  lemma {:induction false} CountGoodAll(values: seq<Option<real>>, threshold: real, lo: int, hi: int)
    requires lo <= hi
    ensures CountGood(values, threshold, lo, hi) == hi - lo <==>
            forall i :: lo <= i < hi ==> AtOrBelow(values, threshold, i)
    decreases hi - lo
  {
    if lo < hi {
      CountGoodAll(values, threshold, lo, hi - 1);
    }
  }

  /** No frame of a range is counted exactly when none of them is at or
      below the threshold. */
  lemma {:induction false} CountGoodNone(values: seq<Option<real>>, threshold: real, lo: int, hi: int)
    requires lo <= hi
    ensures CountGood(values, threshold, lo, hi) == 0 <==>
            forall i :: lo <= i < hi ==> !AtOrBelow(values, threshold, i)
    decreases hi - lo
  {
    if lo < hi {
      CountGoodNone(values, threshold, lo, hi - 1);
    }
  }

  /** The total frame count of some segments. */
  function SumFrames(segs: seq<Segment>): int {
    if segs == [] then 0 else SumFrames(segs[..|segs| - 1]) + segs[|segs| - 1].frameCount
  }

  /** Sound, ascending segments that end before `bound` cover no more
      frames than are counted in `[lo, bound)`. */
  lemma {:induction false} SegmentFramesCountedBefore(
    values: seq<Option<real>>, threshold: real, minFrames: int, lo: int, hi: int,
    segs: seq<Segment>, bound: int)
    requires AllQualify(values, threshold, minFrames, lo, hi, segs) && Ascending(segs)
    requires lo <= bound && forall k :: 0 <= k < |segs| ==> segs[k].endFrame < bound
    ensures SumFrames(segs) <= CountGood(values, threshold, lo, bound)
  {
    if segs != [] {
      var prefix, last := segs[..|segs| - 1], segs[|segs| - 1];
      assert forall k :: 0 <= k < |prefix| ==> prefix[k] == segs[k];
      assert forall k :: 0 <= k < |prefix| ==> prefix[k].endFrame < last.startFrame;
      assert Qualifies(values, threshold, minFrames, lo, hi, last.startFrame, last.endFrame);
      SegmentFramesCountedBefore(values, threshold, minFrames, lo, hi, prefix, last.startFrame);
      CountGoodSplit(values, threshold, lo, last.startFrame, bound);
      CountGoodSplit(values, threshold, last.startFrame, last.endFrame + 1, bound);
      CountGoodAll(values, threshold, last.startFrame, last.endFrame + 1);
    }
  }

  /** The frames of the detected segments are all among the counted frames
      of the scope. */
  lemma SegmentFramesCounted(
    values: seq<Option<real>>, threshold: real, minFrames: int, lo: int, hi: int, segs: seq<Segment>)
    requires lo <= hi
    requires IsDetection(values, threshold, minFrames, lo, hi, segs)
    ensures SumFrames(segs) <= CountGood(values, threshold, lo, hi)
  {
    SegmentFramesCountedBefore(values, threshold, minFrames, lo, hi, segs, hi);
  }

  /** The share `count / scoped` of a scope, 0 for an empty scope. */
  function Ratio(count: nat, scoped: int): (r: real)
    ensures scoped <= 0 ==> r == 0.0
    ensures 0 < scoped && count <= scoped ==>
              && 0.0 <= r <= 1.0
              && (r == 0.0 <==> count == 0)
              && (r == 1.0 <==> count == scoped)
  {
    if scoped > 0 then count as real / scoped as real else 0.0
  }

  /** The at-end flag: some segment is reported and the last one ends at
      or after the last frame of the clip. */
  function AtVideoEnd(segs: seq<TimedSegment>, total: int): (r: bool)
    ensures r ==> exists k :: 0 <= k < |segs| && segs[k].endFrame >= total - 1
    ensures (forall k :: 0 <= k < |segs| ==> segs[k].endFrame < total - 1) ==> !r
  {
    |segs| > 0 && segs[|segs| - 1].endFrame >= total - 1
  }

  /** A qualifying maximal run of `[lo, hi)` ends at frame `e`. */
  ghost predicate RunEndsAt(values: seq<Option<real>>, threshold: real, minFrames: int, lo: int, hi: int, e: int) {
    exists s :: Qualifies(values, threshold, minFrames, lo, hi, s, e)
  }

  /** A scan whose range ends at the end of the clip reports a segment at
      the clip's end exactly when a qualifying maximal run ends at the last
      frame. */
  lemma AtVideoEndIffFinalRun(
    values: seq<Option<real>>, threshold: real, minFrames: int, lo: int, hi: int,
    timed: seq<TimedSegment>)
    requires IsDetection(values, threshold, minFrames, lo, hi, FrameSegments(timed))
    ensures AtVideoEnd(timed, hi) <==> RunEndsAt(values, threshold, minFrames, lo, hi, hi - 1)
  {
    var segs := FrameSegments(timed);
    var e := hi - 1;
    if AtVideoEnd(timed, hi) {
      var last := segs[|segs| - 1];
      assert Qualifies(values, threshold, minFrames, lo, hi, last.startFrame, last.endFrame);
    }
    if s :| Qualifies(values, threshold, minFrames, lo, hi, s, e) {
      assert Reported(segs, s, hi - 1);
      var k :| 0 <= k < |segs| && segs[k].startFrame == s && segs[k].endFrame == hi - 1;
      var n := |segs| - 1;
      assert Qualifies(values, threshold, minFrames, lo, hi, segs[n].startFrame, segs[n].endFrame);
      assert k == n;
    }
  }

  /** What `analyze_summary` returns. The motion statistics are absent
      (NaN throughout in the script) when no frame has a motion value. */
  datatype Summary = Summary(
    fps: real, totalFrames: nat, durationSecEstimate: real, blackThreshold: real,
    lumaStats: SampleStats, motionSampleCount: nat, motionStats: Option<SampleStats>,
    blackFrameCount: nat, blackFrameRatio: real)

  /** The statistics of the defined motion values: absent when there are
      none, otherwise attained by defined values, bounding all of them, and
      ordered. */
  function MotionStatsOf(motion: seq<Option<real>>): (r: Option<SampleStats>)
    ensures r.None? <==> forall i :: 0 <= i < |motion| ==> motion[i].None?
    ensures r.Some? ==>
              && Some(r.value.min) in motion && Some(r.value.max) in motion
              && (forall i :: 0 <= i < |motion| && motion[i].Some? ==>
                    r.value.min <= motion[i].value <= r.value.max)
              && r.value.min <= r.value.mean <= r.value.max
              && r.value.min <= r.value.p05 <= r.value.p50 <= r.value.p95 <= r.value.max
  {
    var valid := DefinedValues(motion);
    NoDefinedValues(motion);
    if valid == [] then None
    else
      var stats := StatsOf(valid);
      assert forall i :: 0 <= i < |motion| && motion[i].Some? ==> motion[i].value in valid;
      Some(stats)
  }

  /** The share of frames of a non-empty luma stream at or below the
      threshold: in `[0, 1]`, 1 exactly when every frame is that dark and 0
      exactly when none is. */
  lemma BlackShare(luma: seq<real>, threshold: real)
    requires |luma| > 0
    ensures var ratio := Ratio(CountGood(AsOptions(luma), threshold, 0, |luma|), |luma|);
            && 0.0 <= ratio <= 1.0
            && (ratio == 1.0 <==> forall i :: 0 <= i < |luma| ==> luma[i] <= threshold)
            && (ratio == 0.0 <==> forall i :: 0 <= i < |luma| ==> luma[i] > threshold)
  {
    var values := AsOptions(luma);
    CountGoodAll(values, threshold, 0, |luma|);
    CountGoodNone(values, threshold, 0, |luma|);
    assert forall i :: 0 <= i < |luma| ==> (AtOrBelow(values, threshold, i) <==> luma[i] <= threshold);
  }

  /** `analyze_summary` on the streams of a decoded clip. */
  function AnalyzeSummary(fps: real, luma: seq<real>, motion: seq<Option<real>>, blackThreshold: real): (r: Summary)
    requires fps > 0.0 && |luma| > 0
    ensures r.totalFrames == |luma| && r.durationSecEstimate == |luma| as real / fps
    ensures r.lumaStats.min in luma && r.lumaStats.max in luma
    ensures forall i :: 0 <= i < |luma| ==> r.lumaStats.min <= luma[i] <= r.lumaStats.max
    ensures r.lumaStats.min <= r.lumaStats.mean <= r.lumaStats.max
    ensures r.lumaStats.min <= r.lumaStats.p05 <= r.lumaStats.p50 <= r.lumaStats.p95 <= r.lumaStats.max
    ensures r.motionSampleCount == |DefinedValues(motion)| <= |motion|
    ensures r.motionStats.None? <==> forall i :: 0 <= i < |motion| ==> motion[i].None?
    ensures r.motionStats.Some? ==>
              && Some(r.motionStats.value.min) in motion && Some(r.motionStats.value.max) in motion
              && (forall i :: 0 <= i < |motion| && motion[i].Some? ==>
                    r.motionStats.value.min <= motion[i].value <= r.motionStats.value.max)
    ensures r.blackFrameCount == CountGood(AsOptions(luma), blackThreshold, 0, |luma|)
    ensures 0.0 <= r.blackFrameRatio <= 1.0
    ensures r.blackFrameRatio == 1.0 <==> forall i :: 0 <= i < |luma| ==> luma[i] <= blackThreshold
    ensures r.blackFrameRatio == 0.0 <==> forall i :: 0 <= i < |luma| ==> luma[i] > blackThreshold
  {
    var blackCount := CountGood(AsOptions(luma), blackThreshold, 0, |luma|);
    BlackShare(luma, blackThreshold);
    Summary(
      fps, |luma|, |luma| as real / fps, blackThreshold,
      StatsOf(luma), |DefinedValues(motion)|, MotionStatsOf(motion),
      blackCount, Ratio(blackCount, |luma|))
  }

  /** What the two segment reports return; `mode` names the report. */
  datatype SegmentReport = SegmentReport(
    mode: string, fps: real, totalFrames: nat, durationSecEstimate: real,
    scope: string, tailSeconds: Option<real>,
    scopeStartFrame: nat, scopeEndFrameExclusive: nat,
    threshold: real, minSegmentFrames: int,
    frameCountInScope: nat, frameRatioInScope: real,
    atVideoEnd: bool, segmentCount: nat, segments: seq<TimedSegment>)

  /** `rep` is the report of a scan of `values[start..end]`: the segments
      are the detection of that range with their times, the count and ratio
      are those of the range, the at-end flag says whether a qualifying run
      ends at the last frame, and the other fields echo the inputs. */
  ghost predicate ReportsScan(
    rep: SegmentReport, mode: string, fps: real, values: seq<Option<real>>,
    scope: string, tailSeconds: real, threshold: real, minFrames: int, start: nat, end: nat)
    requires fps > 0.0
  {
    && rep.mode == mode && rep.fps == fps
    && rep.totalFrames == |values| && rep.durationSecEstimate == |values| as real / fps
    && rep.scope == scope && rep.tailSeconds == (if scope == "tail" then Some(tailSeconds) else None)
    && rep.scopeStartFrame == start && rep.scopeEndFrameExclusive == end
    && rep.threshold == threshold && rep.minSegmentFrames == minFrames
    && IsDetection(values, threshold, minFrames, start, end, FrameSegments(rep.segments))
    && (forall k :: 0 <= k < |rep.segments| ==> TimedAs(rep.segments[k], FrameSegments(rep.segments)[k], fps))
    && rep.segmentCount == |rep.segments|
    && rep.frameCountInScope == CountGood(values, threshold, start, end)
    && rep.frameRatioInScope == Ratio(rep.frameCountInScope, end - start)
    && (rep.atVideoEnd <==> RunEndsAt(values, threshold, minFrames, start, end, |values| - 1))
  }

  /** The numbers of a segment report agree with each other: the ratio is a
      share, the segments hold no more frames than are counted, and their
      times ascend. */
  lemma ReportConsistent(
    rep: SegmentReport, mode: string, fps: real, values: seq<Option<real>>,
    scope: string, tailSeconds: real, threshold: real, minFrames: int, start: nat, end: nat)
    requires fps > 0.0
    requires start <= end
    requires ReportsScan(rep, mode, fps, values, scope, tailSeconds, threshold, minFrames, start, end)
    ensures 0.0 <= rep.frameRatioInScope <= 1.0
    ensures SumFrames(FrameSegments(rep.segments)) <= rep.frameCountInScope
    ensures forall j, k :: 0 <= j < k < |rep.segments| ==>
              rep.segments[j].endTimeSec < rep.segments[k].startTimeSec
  {
    SegmentFramesCounted(values, threshold, minFrames, start, end, FrameSegments(rep.segments));
    TimedDetectionOrdered(values, threshold, minFrames, start, end, FrameSegments(rep.segments), rep.segments, fps);
  }

  /** The scan shared by both segment reports: detect, attach times, count,
      and set the at-end flag. */
  method ScanScope(
    mode: string, fps: real, values: seq<Option<real>>, scope: string, tailSeconds: real,
    threshold: real, minFrames: int, start: nat, end: nat, scoped: int)
    returns (rep: SegmentReport)
    requires fps > 0.0 && end == |values| && scoped == (if end - start < 0 then 0 else end - start)
    ensures ReportsScan(rep, mode, fps, values, scope, tailSeconds, threshold, minFrames, start, end)
  {
    var raw := DetectSegments(values, threshold, minFrames, start, end);
    var timed := EnrichSegmentsWithTime(raw, fps);
    var count := CountGood(values, threshold, start, end);
    var atEnd := AtVideoEnd(timed, |values|);
    AtVideoEndIffFinalRun(values, threshold, minFrames, start, end, timed);
    rep := SegmentReport(
      mode, fps, |values|, |values| as real / fps,
      scope, if scope == "tail" then Some(tailSeconds) else None,
      start, end, threshold, minFrames,
      count, Ratio(count, scoped), atEnd, |timed|, timed);
  }

  /** `analyze_black_segments`: the scope's range of the luma stream,
      scanned for dark runs. A non-positive tail duration on the tail path
      is the scope resolver's error. */
  method AnalyzeBlackSegments(
    fps: real, luma: seq<real>, scope: string, tailSeconds: real, blackThreshold: real, minSegmentFrames: int)
    returns (r: Result<SegmentReport>)
    requires fps > 0.0
    ensures var range := GetScopeIndices(|luma|, scope, tailSeconds, fps);
            && (range.Err? ==> r == Err(range.error))
            && (range.Ok? ==>
                  r.Ok? && ReportsScan(r.value, "black-segments", fps, AsOptions(luma), scope, tailSeconds,
                                       blackThreshold, minSegmentFrames, range.value.0, range.value.1))
  {
    var range := GetScopeIndices(|luma|, scope, tailSeconds, fps);
    if range.Err? {
      return Err(range.error);
    }
    var start, end := range.value.0, range.value.1;
    var rep := ScanScope("black-segments", fps, AsOptions(luma), scope, tailSeconds,
                         blackThreshold, minSegmentFrames, start, end, end - start);
    return Ok(rep);
  }

  /** `analyze_freeze_segments`: as the black report, over the motion
      stream, with the range starting no earlier than frame 1, so that no
      freeze segment contains frame 0. */
  method AnalyzeFreezeSegments(
    fps: real, motion: seq<Option<real>>, scope: string, tailSeconds: real, freezeThreshold: real, minSegmentFrames: int)
    returns (r: Result<SegmentReport>)
    requires fps > 0.0
    ensures var range := GetScopeIndices(|motion|, scope, tailSeconds, fps);
            && (range.Err? ==> r == Err(range.error))
            && (range.Ok? ==>
                  var start := if range.value.0 < 1 then 1 else range.value.0;
                  r.Ok? && ReportsScan(r.value, "freeze-segments", fps, motion, scope, tailSeconds,
                                       freezeThreshold, minSegmentFrames, start, range.value.1))
    ensures r.Ok? ==> r.value.scopeStartFrame >= 1 &&
                      forall k :: 0 <= k < |r.value.segments| ==> r.value.segments[k].startFrame >= 1
  {
    var range := GetScopeIndices(|motion|, scope, tailSeconds, fps);
    if range.Err? {
      return Err(range.error);
    }
    var start, end := range.value.0, range.value.1;
    // frame 0 has no motion value
    start := if start < 1 then 1 else start;
    var scoped := if end < start then 0 else end - start;
    var rep := ScanScope("freeze-segments", fps, motion, scope, tailSeconds,
                         freezeThreshold, minSegmentFrames, start, end, scoped);
    assert forall k :: 0 <= k < |rep.segments| ==> rep.segments[k].startFrame == FrameSegments(rep.segments)[k].startFrame;
    return Ok(rep);
  }
}
