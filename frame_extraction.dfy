/** Frame selection of the note generator (`extract_frame` in
    backend/video/views/note_generation.py): a clamped start time, a bounded run of read
    attempts that step forward by a fixed offset, and the sharpest decoded frame kept. The
    video is an oracle: whether it opens, its frame rate and frame count, and for every frame
    position either a failed read (None) or the Laplacian variance of the decoded frame. */
module FrameExtraction {
  import opened Wrappers

  datatype Video = Video(isOpened: bool, fps: real, frameCount: real, frameAt: int -> Option<real>)

  /** The keyword arguments `max_retries`, `retry_offset` and `blur_threshold`. */
  datatype Params = Params(maxRetries: int, retryOffset: real, blurThreshold: real)

  const DefaultParams := Params(3, 0.5, 100.0)

  /** A kept frame: the attempt that read it, its frame position and its variance. */
  datatype Candidate = Candidate(attempt: nat, position: int, score: real)

  /** OpenFailed and NoFrame are the two ValueErrors the source raises; Frame is the frame
      that would be written to disk. */
  datatype Extraction = OpenFailed | NoFrame | Frame(kept: Candidate)

  /** Python's `int(x)` on a float: truncation toward zero. */
  function Trunc(x: real): int {
    if x >= 0.0 then x.Floor else -((-x).Floor)
  }

  /** Truncation drops the fraction and moves toward zero. */
  lemma TruncBounds(x: real)
    ensures x >= 0.0 ==> 0 <= Trunc(x) && Trunc(x) as real <= x < Trunc(x) as real + 1.0
    ensures x < 0.0 ==> Trunc(x) <= 0 && Trunc(x) as real - 1.0 < x <= Trunc(x) as real
  {
  }

  function Min(a: real, b: real): real { if a <= b then a else b }

  function Max(a: real, b: real): real { if a >= b then a else b }

  // ---------------------------------------------------------------------------
  // Specification of the attempts

  /** Length of the video in seconds; 0 when the frame rate is not positive. */
  function Duration(v: Video): real {
    if v.fps > 0.0 then Trunc(v.frameCount) as real / v.fps else 0.0
  }

  /** The start time: the requested time, at most 0.1 s before the end, and never negative. */
  function StartTime(v: Video, t: real): (r: real)
    ensures r >= 0.0
    ensures r <= t || r == 0.0
    ensures r <= Duration(v) - 0.1 || r == 0.0
    ensures 0.0 <= t <= Duration(v) - 0.1 ==> r == t
    ensures t > Duration(v) - 0.1 >= 0.0 ==> r == Duration(v) - 0.1
    ensures t < 0.0 || Duration(v) - 0.1 < 0.0 ==> r == 0.0
  {
    Max(0.0, Min(t, Duration(v) - 0.1))
  }

  /** The time of attempt `k`, had every earlier attempt moved on. */
  function TimeAt(v: Video, t: real, p: Params, k: nat): real {
    StartTime(v, t) + k as real * p.retryOffset
  }

  /** Each attempt that moves on advances the time by exactly `retry_offset`. */
  lemma TimeAdvances(v: Video, t: real, p: Params, k: nat)
    ensures TimeAt(v, t, p, k + 1) == TimeAt(v, t, p, k) + p.retryOffset
    ensures TimeAt(v, t, p, 0) == StartTime(v, t)
  {
  }

  function PositionAt(v: Video, t: real, p: Params, k: nat): int {
    Trunc(TimeAt(v, t, p, k) * v.fps)
  }

  function ScoreAt(v: Video, t: real, p: Params, k: nat): Option<real> {
    v.frameAt(PositionAt(v, t, p, k))
  }

  /** Attempt `k` decoded a frame that is not blurry. */
  predicate SharpAt(v: Video, t: real, p: Params, k: nat) {
    ScoreAt(v, t, p, k).Some? && ScoreAt(v, t, p, k).value >= p.blurThreshold
  }

  /** The number of attempts made from attempt `k` on: up to the first sharp frame, and never
      beyond `max_retries`. */
  function AttemptsFrom(v: Video, t: real, p: Params, k: nat): nat
    decreases p.maxRetries - k
  {
    if k >= p.maxRetries then k
    else if SharpAt(v, t, p, k) then k + 1
    else AttemptsFrom(v, t, p, k + 1)
  }

  function AttemptsMade(v: Video, t: real, p: Params): nat {
    AttemptsFrom(v, t, p, 0)
  }

  function BestScore(best: Option<Candidate>): real {
    match best
    case None => 0.0
    case Some(c) => c.score
  }

  /** The loop of the source from attempt `k` on, holding the frame kept so far. */
  function SearchFrom(v: Video, t: real, p: Params, k: nat, best: Option<Candidate>): Option<Candidate>
    decreases p.maxRetries - k
  {
    if k >= p.maxRetries then best
    else
      match ScoreAt(v, t, p, k)
      case None => SearchFrom(v, t, p, k + 1, best)
      case Some(score) =>
        var best' := if score > BestScore(best) then Some(Candidate(k, PositionAt(v, t, p, k), score)) else best;
        if score >= p.blurThreshold then best' else SearchFrom(v, t, p, k + 1, best')
  }

  function Extract(v: Video, t: real, p: Params): Extraction {
    if !v.isOpened then OpenFailed
    else
      match SearchFrom(v, t, p, 0, None)
      case None => NoFrame
      case Some(c) => Frame(c)
  }

  // ---------------------------------------------------------------------------
  // Independent description of the kept frame

  /** `c` is what attempt `c.attempt` read: a decoded frame with a positive variance, and the
      first among the first `n` attempts with the greatest variance. */
  predicate IsBest(v: Video, t: real, p: Params, c: Candidate, n: nat) {
    && c.attempt < n
    && c.position == PositionAt(v, t, p, c.attempt)
    && ScoreAt(v, t, p, c.attempt) == Some(c.score)
    && c.score > 0.0
    && (forall j: nat | j < n && ScoreAt(v, t, p, j).Some? :: ScoreAt(v, t, p, j).value <= c.score)
    && (forall j: nat | j < c.attempt && ScoreAt(v, t, p, j).Some? :: ScoreAt(v, t, p, j).value < c.score)
  }

  /** None of the first `n` attempts decoded a frame with a positive variance. */
  predicate NoUsable(v: Video, t: real, p: Params, n: nat) {
    forall j: nat | j < n && ScoreAt(v, t, p, j).Some? :: ScoreAt(v, t, p, j).value <= 0.0
  }

  /** What the frame kept after `k` attempts is. */
  predicate KeptAfter(v: Video, t: real, p: Params, k: nat, best: Option<Candidate>) {
    match best
    case None => NoUsable(v, t, p, k)
    case Some(c) => IsBest(v, t, p, c, k)
  }

  /** The attempts stop at the first sharp frame or after `max_retries` attempts, whichever
      comes first. */
  lemma {:induction false} AttemptsStopRule(v: Video, t: real, p: Params, k: nat)
    requires k <= p.maxRetries || k == 0
    ensures var n := AttemptsFrom(v, t, p, k);
      && k <= n <= (if p.maxRetries > k then p.maxRetries else k)
      && (forall j: nat | k <= j < n - 1 :: !SharpAt(v, t, p, j))
      && (n < p.maxRetries ==> n > k && SharpAt(v, t, p, n - 1))
    decreases p.maxRetries - k
  {
    if k < p.maxRetries && !SharpAt(v, t, p, k) {
      AttemptsStopRule(v, t, p, k + 1);
    }
  }

  /** At most `max_retries` attempts (none when it is not positive); every attempt before
      the last found a blurry frame or none; stopping early means the last one was sharp. */
  lemma AttemptsBound(v: Video, t: real, p: Params)
    ensures AttemptsMade(v, t, p) <= if p.maxRetries > 0 then p.maxRetries else 0
    ensures forall j: nat | j < AttemptsMade(v, t, p) - 1 :: !SharpAt(v, t, p, j)
    ensures AttemptsMade(v, t, p) < p.maxRetries ==>
      AttemptsMade(v, t, p) >= 1 && SharpAt(v, t, p, AttemptsMade(v, t, p) - 1)
  {
    AttemptsStopRule(v, t, p, 0);
  }

  /** One more attempt keeps the description of the kept frame true. */
  lemma StepKept(v: Video, t: real, p: Params, k: nat, best: Option<Candidate>)
    requires KeptAfter(v, t, p, k, best)
    ensures match ScoreAt(v, t, p, k)
      case None => KeptAfter(v, t, p, k + 1, best)
      case Some(score) =>
        KeptAfter(v, t, p, k + 1,
          if score > BestScore(best) then Some(Candidate(k, PositionAt(v, t, p, k), score)) else best)
  {
    match ScoreAt(v, t, p, k)
    case None =>
    case Some(score) =>
      if score > BestScore(best) {
        var c := Candidate(k, PositionAt(v, t, p, k), score);
        assert forall j: nat | j < k + 1 && ScoreAt(v, t, p, j).Some? :: ScoreAt(v, t, p, j).value <= c.score by {
          forall j: nat | j < k + 1 && ScoreAt(v, t, p, j).Some?
            ensures ScoreAt(v, t, p, j).value <= c.score
          {
            if j < k {
              match best
              case None =>
              case Some(b) =>
            }
          }
        }
        assert IsBest(v, t, p, c, k + 1);
      }
  }

  lemma {:induction false} SearchKept(v: Video, t: real, p: Params, k: nat, best: Option<Candidate>)
    requires KeptAfter(v, t, p, k, best)
    ensures KeptAfter(v, t, p, AttemptsFrom(v, t, p, k), SearchFrom(v, t, p, k, best))
    decreases p.maxRetries - k
  {
    if k < p.maxRetries {
      StepKept(v, t, p, k, best);
      match ScoreAt(v, t, p, k)
      case None =>
        SearchKept(v, t, p, k + 1, best);
      case Some(score) =>
        var best' := if score > BestScore(best) then Some(Candidate(k, PositionAt(v, t, p, k), score)) else best;
        if score < p.blurThreshold {
          SearchKept(v, t, p, k + 1, best');
        }
    }
  }

  /** The frame kept is the first one with the strictly greatest positive variance among the
      attempts made, and there is none exactly when no attempt decoded a frame scoring above
      zero (which covers every read failing). */
  lemma ExtractCharacterised(v: Video, t: real, p: Params)
    ensures Extract(v, t, p) == OpenFailed <==> !v.isOpened
    ensures Extract(v, t, p) == NoFrame <==> v.isOpened && NoUsable(v, t, p, AttemptsMade(v, t, p))
    ensures Extract(v, t, p).Frame? ==> IsBest(v, t, p, Extract(v, t, p).kept, AttemptsMade(v, t, p))
  {
    SearchKept(v, t, p, 0, None);
    var n := AttemptsMade(v, t, p);
    match SearchFrom(v, t, p, 0, None)
    case None =>
    case Some(c) =>
      assert ScoreAt(v, t, p, c.attempt).value > 0.0;
      assert !NoUsable(v, t, p, n);
  }

  /** The description of the kept frame admits only one frame. */
  lemma BestUnique(v: Video, t: real, p: Params, c: Candidate, d: Candidate, n: nat)
    requires IsBest(v, t, p, c, n) && IsBest(v, t, p, d, n)
    ensures c == d
  {
  }

  /** A video that cannot be decoded at all never yields a frame. */
  lemma UnreadableVideo(v: Video, t: real, p: Params)
    requires v.isOpened
    requires forall pos: int :: v.frameAt(pos) == None
    ensures Extract(v, t, p) == NoFrame
  {
    ExtractCharacterised(v, t, p);
  }

  /** With the default parameters and a sharp frame at the start position, the first attempt
      is kept and no further attempt is made. */
  lemma SharpFirstFrame(v: Video, t: real)
    requires v.isOpened && ScoreAt(v, t, DefaultParams, 0) == Some(150.0)
    ensures Extract(v, t, DefaultParams) == Frame(Candidate(0, PositionAt(v, t, DefaultParams, 0), 150.0))
    ensures AttemptsMade(v, t, DefaultParams) == 1
  {
  }

  // ---------------------------------------------------------------------------
  // The loop

  /** The frame read at the loop's current time is the one attempt `k` reads. */
  lemma ReadAt(v: Video, t: real, p: Params, k: nat, time: real)
    requires time == TimeAt(v, t, p, k)
    ensures Trunc(time * v.fps) == PositionAt(v, t, p, k)
    ensures v.frameAt(Trunc(time * v.fps)) == ScoreAt(v, t, p, k)
  {
  }

  /** One attempt of the search: a failed read moves on, a sharp frame ends the search
      with the kept frame updated, and a blurry one moves on with it updated. */
  lemma SearchStep(v: Video, t: real, p: Params, k: nat, best: Option<Candidate>)
    requires k < p.maxRetries
    ensures ScoreAt(v, t, p, k).None? ==> SearchFrom(v, t, p, k, best) == SearchFrom(v, t, p, k + 1, best)
    ensures ScoreAt(v, t, p, k).Some? ==>
      var score := ScoreAt(v, t, p, k).value;
      var best' := if score > BestScore(best) then Some(Candidate(k, PositionAt(v, t, p, k), score)) else best;
      SearchFrom(v, t, p, k, best) == if score >= p.blurThreshold then best' else SearchFrom(v, t, p, k + 1, best')
  {
  }

  /** The retry loop: from the clamped start time, read, keep the sharpest frame so far,
      stop at a sharp one, otherwise step forward by `retry_offset`. */
  method SearchFrames(v: Video, timestampSeconds: real, p: Params, startTime: real) returns (best: Option<Candidate>)
    requires startTime == StartTime(v, timestampSeconds)
    ensures best == SearchFrom(v, timestampSeconds, p, 0, None)
  {
    var currentTime := startTime;
    best := None;
    var bestVariance := 0.0;
    ghost var goal := SearchFrom(v, timestampSeconds, p, 0, None);
    var attempt: nat := 0;
    TimeAdvances(v, timestampSeconds, p, 0);
    while attempt < p.maxRetries
      invariant currentTime == TimeAt(v, timestampSeconds, p, attempt)
      invariant bestVariance == BestScore(best)
      invariant SearchFrom(v, timestampSeconds, p, attempt, best) == goal
      decreases p.maxRetries - attempt
    {
      var framePos := Trunc(currentTime * v.fps);
      var read := v.frameAt(framePos);
      ReadAt(v, timestampSeconds, p, attempt, currentTime);
      SearchStep(v, timestampSeconds, p, attempt, best);
      TimeAdvances(v, timestampSeconds, p, attempt);
      if read.None? {
        currentTime := currentTime + p.retryOffset;
        attempt := attempt + 1;
        continue;
      }
      var variance := read.value;
      if variance > bestVariance {
        bestVariance := variance;
        best := Some(Candidate(attempt, framePos, variance));
      }
      if variance >= p.blurThreshold {
        return;
      }
      currentTime := currentTime + p.retryOffset;
      attempt := attempt + 1;
    }
  }

  /** `extract_frame`: the two failures, or the frame the retry loop kept. */
  method ExtractFrame(v: Video, timestampSeconds: real, p: Params) returns (r: Extraction)
    ensures r == Extract(v, timestampSeconds, p)
  {
    if !v.isOpened {
      return OpenFailed;
    }
    var fps := v.fps;
    var totalFrames := Trunc(v.frameCount);
    var duration := if fps > 0.0 then totalFrames as real / fps else 0.0;
    var currentTime := Min(timestampSeconds, duration - 0.1);
    currentTime := Max(0.0, currentTime);
    var best := SearchFrames(v, timestampSeconds, p, currentTime);
    if best == None {
      return NoFrame;
    }
    return Frame(best.value);
  }
}
