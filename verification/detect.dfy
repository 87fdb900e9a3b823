/** The loop of `detect_unique_screenshots` (app.py, lines 46-74): each sampled
    frame's mask is reduced to a change ratio against the area of the first
    mask, and the ratio drives the capture state machine. The background
    subtractor is opaque, so the masks it returns are inputs. */
module Detect {
  import opened Outcomes
  import opened Params
  import opened Ratio
  import opened Sampler
  import opened Capture

  /** The masks come with a usable first area (app.py, lines 62-65 divide by it). */
  predicate UsableMasks(masks: seq<Mask>)
  {
    |masks| > 0 ==> masks[0].width * masks[0].height > 0
  }

  /** The machine's inputs for a run: index, time and image from the sampler,
      ratio of each mask's foreground against the first mask's area. */
  function Inputs<F>(frames: seq<SampledFrame<F>>, masks: seq<Mask>): seq<Input<F>>
    requires |masks| == |frames| && UsableMasks(masks)
  {
    seq(|frames|, i requires 0 <= i < |frames| =>
      Input(frames[i].index, frames[i].time,
            ChangeRatio(masks[i].foreground, masks[0].width, masks[0].height),
            frames[i].image))
  }

  /** The detection loop. It returns the screenshots written, in order, and
      the final `screenshot_count`. */
  method DetectUniqueScreenshots<F>(frames: seq<SampledFrame<F>>, masks: seq<Mask>)
    returns (shots: seq<Shot<F>>, screenshotCount: nat)
    requires |masks| == |frames| && UsableMasks(masks)
    ensures shots == Shots(Run(Init, Inputs(frames, masks)).events)
    ensures screenshotCount == |shots|
    ensures forall k :: 0 <= k < |shots| ==> shots[k].number == k && shots[k].index > WARMUP
    ensures forall k :: 0 <= k < |shots| ==> TakenFromStillFrame(shots[k], frames, masks)
  {
    ghost var xs := Inputs(frames, masks);
    var captured := false;
    screenshotCount := 0;
    var size: Option<(nat, nat)> := None;
    shots := [];
    var i := 0;
    while i < |frames|
      invariant 0 <= i <= |frames|
      invariant Run(Init, xs[..i]).final == State(captured, screenshotCount)
      invariant shots == Shots(Run(Init, xs[..i]).events)
      invariant i == 0 <==> size.None?
      invariant size.Some? ==> size.value == (masks[0].height, masks[0].width)
    {
      var frame := frames[i];
      var mask := masks[i];
      if size.None? {
        size := Some((mask.height, mask.width));
      }
      var (h, w) := size.value;
      var pDiff := ChangeRatio(mask.foreground, w, h);
      var x := Input(frame.index, frame.time, pDiff, frame.image);
      assert x == xs[i];
      RunExtend(Init, xs, i);
      var written: Option<Shot<F>>;
      captured, screenshotCount, written := CheckFrame(captured, screenshotCount, x);
      if written.Some? {
        shots := shots + [written.value];
      }
      i := i + 1;
    }
    assert xs[..i] == xs;
    NumberedFromZero(xs);
    NoCaptureDuringWarmup(Init, xs);
    ShotsFromStillFrames(frames, masks);
  }

  /** The body of the loop for one frame, with the branch written out on the
      mutable flag and counter: it agrees with `Step` on the next state and on
      the screenshot written, if any. */
  method CheckFrame<F>(captured: bool, screenshotCount: nat, x: Input<F>)
    returns (captured': bool, screenshotCount': nat, written: Option<Shot<F>>)
    ensures var r := Step(State(captured, screenshotCount), x);
      && State(captured', screenshotCount') == r.next
      && (written.Some? <==> r.event.Captured?)
      && (written.Some? ==> written.value == r.event.shot)
  {
    captured', screenshotCount', written := captured, screenshotCount, None;
    if x.ratio < MIN_PERCENT && !captured && x.index > WARMUP {
      captured' := true;
      written := Some(Shot(screenshotCount, x.index, x.time, x.image));
      screenshotCount' := screenshotCount + 1;
    } else if captured && x.ratio >= MAX_PERCENT {
      captured' := false;
    }
  }

  /** Every screenshot of a run was taken from one of its frames, whose mask
      had fewer than one foreground pixel per thousand of the first area. */
  lemma {:induction false} ShotsFromStillFrames<F>(frames: seq<SampledFrame<F>>, masks: seq<Mask>)
    requires |masks| == |frames| && UsableMasks(masks)
    ensures var shots := Shots(Run(Init, Inputs(frames, masks)).events);
      forall k :: 0 <= k < |shots| ==> TakenFromStillFrame(shots[k], frames, masks)
  {
    var xs := Inputs(frames, masks);
    var shots := Shots(Run(Init, xs).events);
    forall k | 0 <= k < |shots|
      ensures TakenFromStillFrame(shots[k], frames, masks)
    {
      var j := ShotOrigin(Init, xs, k);
      StillIffFewerThanOnePerMille(masks[j].foreground, masks[0].width, masks[0].height);
      assert StillFrameAt(shots[k], frames, masks, j);
    }
  }

  /** The screenshot was taken from frame `i`, whose mask was still. */
  ghost predicate StillFrameAt<F>(shot: Shot<F>, frames: seq<SampledFrame<F>>, masks: seq<Mask>, i: int)
  {
    && 0 <= i < |frames| == |masks|
    && shot.index == frames[i].index
    && shot.image == frames[i].image
    && 1000 * masks[i].foreground < masks[0].width * masks[0].height
  }

  /** The screenshot was taken from some frame whose mask was still. */
  ghost predicate TakenFromStillFrame<F>(shot: Shot<F>, frames: seq<SampledFrame<F>>, masks: seq<Mask>)
  {
    exists i :: StillFrameAt(shot, frames, masks, i)
  }

  /** Sampling followed by detection: a stream that cannot be opened fails;
      otherwise the screenshots are those of the capture machine run over the
      readable frames and their masks. Every screenshot is numbered by its
      position, comes from a frame whose timestamp is its index over
      `FRAME_RATE`, and carries a timestamp strictly after the first second
      (the frame itself was read at a position of at least one second). */
  method ExtractScreenshots<F>(isOpened: bool, attempts: seq<Option<F>>, masks: seq<Mask>)
    returns (r: Result<seq<Shot<F>>, SourceError>)
    requires |masks| == ReadablePrefix(attempts) && UsableMasks(masks)
    ensures !isOpened <==> r == Failure(SourceUnavailable)
    ensures r.Success? ==> r.value == Shots(Run(Init, Inputs(SampledFrames(attempts), masks)).events)
    ensures r.Success? ==> |r.value| <= ReadablePrefix(attempts)
    ensures r.Success? ==> forall k :: 0 <= k < |r.value| ==>
      && r.value[k].number == k
      && 1 <= r.value[k].index <= ReadablePrefix(attempts)
      && r.value[k].time == Tick(r.value[k].index)
      && r.value[k].time > 1.0
      && r.value[k].image == attempts[r.value[k].index - 1].value
  {
    var sampled := GetFrames(isOpened, attempts);
    if sampled.Failure? {
      return Failure(sampled.error);
    }
    var frames := sampled.value.frames;
    assert frames == SampledFrames(attempts);
    var shots, _ := DetectUniqueScreenshots(frames, masks);
    forall k | 0 <= k < |shots|
      ensures shots[k].time == Tick(shots[k].index) && shots[k].time > 1.0
      ensures 1 <= shots[k].index <= |frames|
    {
      var j := ShotOrigin(Init, Inputs(frames, masks), k);
      AfterWarmupIsAfterFirstSecond(frames, j);
    }
    return Success(shots);
  }
}
