/** The scope resolver `get_scope_indices`
    (scripts/dev/analyze-video.py:241-250): the half-open frame range that
    the segment reports scan, either the whole clip or its trailing
    `tail_seconds`. */
module Scope {
  import opened Wrappers

  /** Python's `round` on a real: the nearest integer, ties going to the
      even neighbour. */
  function RoundHalfEven(x: real): (r: int)
    ensures -0.5 <= x - r as real <= 0.5
    ensures x - r as real == 0.5 || x - r as real == -0.5 ==> r % 2 == 0
  {
    var f := x.Floor;
    var d := x - f as real;
    if d < 0.5 then f
    else if d > 0.5 then f + 1
    else if f % 2 == 0 then f
    else f + 1
  }

  /** The nearest integer, ties to even, is unique: any integer that is
      within one half of `x`, and even when exactly one half away, is the
      rounded value. */
  lemma RoundHalfEvenUnique(x: real, k: int)
    requires -0.5 <= x - k as real <= 0.5
    requires x - k as real == 0.5 || x - k as real == -0.5 ==> k % 2 == 0
    ensures RoundHalfEven(x) == k
  {
  }

  const TailSecondsMessage: string := "--tail-seconds must be > 0 when --scope tail"

  /** The number of trailing frames a tail scope asks for: at least one. */
  function TailFrames(tailSeconds: real, fps: real): (n: int)
    ensures n >= 1
    ensures n == RoundHalfEven(tailSeconds * fps) || (n == 1 && RoundHalfEven(tailSeconds * fps) < 1)
  {
    var rounded := RoundHalfEven(tailSeconds * fps);
    if rounded < 1 then 1 else rounded
  }

  /** The frame range `(start, end)` of a scope over `total` frames. Any
      scope other than "full" takes the tail path. The range is empty when
      there are no frames, the whole clip for "full", and otherwise a
      non-empty suffix of `min(total, max(1, round(tail * fps)))` frames;
      a non-positive tail duration is an error raised only on the tail path
      of a non-empty clip. */
  function GetScopeIndices(total: int, scope: string, tailSeconds: real, fps: real): (r: Result<(nat, nat)>)
    ensures total <= 0 ==> r == Ok((0, 0))
    ensures total > 0 && scope == "full" ==> r == Ok((0, total))
    ensures total > 0 && scope != "full" && tailSeconds <= 0.0 ==>
              r == Err(InvalidParameter(TailSecondsMessage))
    ensures total > 0 && scope != "full" && tailSeconds > 0.0 ==>
              r.Ok? && r.value.1 == total && 0 <= r.value.0 < total &&
              var rounded := RoundHalfEven(tailSeconds * fps);
              total - r.value.0 == (if rounded < 1 then 1 else if rounded > total then total else rounded)
    ensures r.Ok? ==> r.value.0 <= r.value.1 && (total > 0 ==> r.value.1 == total)
  {
    if total <= 0 then Ok((0, 0))
    else if scope == "full" then Ok((0, total))
    else if tailSeconds <= 0.0 then Err(InvalidParameter(TailSecondsMessage))
    else
      var tailFrames := TailFrames(tailSeconds, fps);
      var start := if total - tailFrames < 0 then 0 else total - tailFrames;
      Ok((start, total))
  }

  /** The worked example: the last two seconds of 100 frames at 25 fps are
      frames 50 to 99. */
  lemma TailOfOneHundredFrames()
    ensures GetScopeIndices(100, "tail", 2.0, 25.0) == Ok((50, 100))
  {
    RoundHalfEvenUnique(50.0, 50);
  }

  /** The tail length is rounded half to even, not rounded up: 0.5 s at
      5 fps asks for 2.5 frames and gets 2, and 0.7 s asks for 3.5 and
      gets 4. */
  lemma TailRoundsHalfToEven()
    ensures GetScopeIndices(10, "tail", 0.5, 5.0) == Ok((8, 10))
    ensures GetScopeIndices(10, "tail", 0.7, 5.0) == Ok((6, 10))
  {
    RoundHalfEvenUnique(2.5, 2);
    RoundHalfEvenUnique(3.5, 4);
  }
}
