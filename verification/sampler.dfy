/** The frame sampler `get_frames` (app.py, lines 25-43).

    The decoder is opaque: it is modelled by the sequence of results its
    successive `read()` calls return, `Some(frame)` for `ret == True` and
    `None` for `ret == False`. Running out of that sequence is the same as a
    failed read. Whether the stream could be opened is a parameter. */
module Sampler {
  import opened Outcomes
  import opened Params

  /** The error raised when `VideoCapture` cannot open the stream. */
  datatype SourceError = SourceUnavailable

  /** One yielded tuple `(frame_count, frame_time, frame)`. */
  datatype SampledFrame<F> = SampledFrame(index: nat, time: real, image: F)

  /** What the sampler hands back: the frames it yielded and the positions,
      in seconds, it asked the decoder to seek to before each read. */
  datatype Sampling<F> = Sampling(frames: seq<SampledFrame<F>>, seeks: seq<real>)

  /** The time, in seconds, of the `k`-th tick of the sampling clock. */
  function Tick(k: nat): real
  {
    k as real / FRAME_RATE as real
  }

  /** Number of attempts that succeed before the first failing one. */
  function ReadablePrefix<F>(attempts: seq<Option<F>>): (n: nat)
    ensures n <= |attempts|
    ensures forall k :: 0 <= k < n ==> attempts[k].Some?
    ensures n < |attempts| ==> attempts[n].None?
  {
    if attempts == [] || attempts[0].None? then 0
    else 1 + ReadablePrefix(attempts[1..])
  }

  /** A frame sequence numbered the way `get_frames` numbers it: the `k`-th
      frame (from 0) has index `k + 1` and carries the clock value after the
      increment, `(k + 1) / FRAME_RATE`. */
  predicate WellNumbered<F>(frames: seq<SampledFrame<F>>)
  {
    forall k :: 0 <= k < |frames| ==>
      frames[k].index == k + 1 && frames[k].time == Tick(k + 1)
  }

  /** The frames `get_frames` yields for a given sequence of read results,
      written down directly: one per read before the first failure, numbered
      from 1 and stamped with the clock after the increment. */
  function SampledFrames<F>(attempts: seq<Option<F>>): seq<SampledFrame<F>>
  {
    seq(ReadablePrefix(attempts), k requires 0 <= k < ReadablePrefix(attempts) =>
      SampledFrame(k + 1, Tick(k + 1), attempts[k].value))
  }

  /** The generator loop. Each round seeks to the current clock value, advances
      the clock by `1 / FRAME_RATE`, attempts, and stops at the first failed read;
      otherwise it counts the frame and yields it with the advanced clock. */
  method GetFrames<F>(isOpened: bool, attempts: seq<Option<F>>)
    returns (r: Result<Sampling<F>, SourceError>)
    ensures !isOpened <==> r == Failure(SourceUnavailable)
    ensures r.Success? ==>
      var frames := r.value.frames;
      && |frames| == ReadablePrefix(attempts)
      && WellNumbered(frames)
      && (forall k :: 0 <= k < |frames| ==> frames[k].image == attempts[k].value)
      && |r.value.seeks| == |frames| + 1
      && (forall k :: 0 <= k < |r.value.seeks| ==> r.value.seeks[k] == Tick(k))
  {
    if !isOpened {
      return Failure(SourceUnavailable);
    }
    var frameTime: real := 0.0;
    var frameCount: nat := 0;
    var frames: seq<SampledFrame<F>> := [];
    var seeks: seq<real> := [];
    while true
      invariant frameCount <= ReadablePrefix(attempts)
      invariant frameTime == Tick(frameCount)
      invariant |frames| == frameCount && |seeks| == frameCount
      invariant WellNumbered(frames)
      invariant forall k :: 0 <= k < frameCount ==> frames[k].image == attempts[k].value
      invariant forall k :: 0 <= k < frameCount ==> seeks[k] == Tick(k)
      decreases |attempts| - frameCount
    {
      seeks := seeks + [frameTime];
      frameTime := frameTime + 1.0 / FRAME_RATE as real;
      if frameCount >= |attempts| || attempts[frameCount].None? {
        break;
      }
      var frame := attempts[frameCount].value;
      frameCount := frameCount + 1;
      frames := frames + [SampledFrame(frameCount, frameTime, frame)];
    }
    return Success(Sampling(frames, seeks));
  }

  /** Along a sampled run indices go up by exactly one and timestamps strictly
      increase; the timestamp of frame `k` is `k / FRAME_RATE`, one tick later
      than the position that was sought before reading it. */
  lemma SamplingClock<F>(frames: seq<SampledFrame<F>>)
    requires WellNumbered(frames)
    ensures |frames| > 0 ==> frames[0].index == 1
    ensures forall k :: 0 < k < |frames| ==> frames[k].index == frames[k - 1].index + 1
    ensures forall k :: 0 <= k < |frames| ==> frames[k].time == Tick(frames[k].index)
    ensures forall j, k :: 0 <= j < k < |frames| ==> frames[j].time < frames[k].time
    ensures forall k :: 0 <= k < |frames| ==> frames[k].time == Tick(k) + 1.0 / FRAME_RATE as real
  {
    forall j, k | 0 <= j < k < |frames|
      ensures frames[j].time < frames[k].time
    {
      assert frames[j].time == Tick(j + 1) && frames[k].time == Tick(k + 1);
    }
  }

  /** A frame that would be captured (index above `WARMUP`) carries a timestamp
      strictly after the first second; it was read at position
      `(index - 1) / FRAME_RATE`, which is at least one second. */
  lemma AfterWarmupIsAfterFirstSecond<F>(frames: seq<SampledFrame<F>>, k: nat)
    requires WellNumbered(frames)
    requires k < |frames| && frames[k].index > WARMUP
    ensures frames[k].time > 1.0
  {
  }
}
