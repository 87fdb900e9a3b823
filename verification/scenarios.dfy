/** Whole runs of the capture state machine on typical streams: a still
    video, a slide change and a scene that only drifts. The
    frame indices are the ones the sampler hands out, 1, 2, 3, ... */
module Scenarios {
  import opened Params
  import opened Capture

  /** Frame `i` (from 0) carries index `i + 1`. */
  predicate SampledIndices<F>(xs: seq<Input<F>>)
  {
    forall i :: 0 <= i < |xs| ==> xs[i].index == i + 1
  }

  /** A video that is still throughout and longer than the warmup yields
      exactly one screenshot, numbered 0, of the first frame past the warmup. */
  lemma {:induction false} StillVideo<F>(xs: seq<Input<F>>)
    requires SampledIndices(xs) && |xs| > WARMUP
    requires forall i :: 0 <= i < |xs| ==> xs[i].ratio < MIN_PERCENT
    ensures Shots(Run(Init, xs).events) == [Shot(0, WARMUP + 1, xs[WARMUP].time, xs[WARMUP].image)]
    ensures Run(Init, xs).final == State(true, 1)
  {
    var warm, rest := xs[..WARMUP], xs[WARMUP..];
    assert warm + rest == xs;
    WarmupHolds(Init, warm);
    StillSceneCapturesOnce(Init, rest);
    RunAppend(Init, warm, rest);
    ShotsAppend(Run(Init, warm).events, Run(Init, rest).events);
  }

  /** Thirty frames: still for 1-10, moving (ratio 10) for 11-20, still again
      for 21-30. The first slide is taken at frame 4, the motion at frame 11
      re-arms the machine, and the second slide is taken at frame 21. */
  lemma {:induction false} SlideChange<F>(xs: seq<Input<F>>)
    requires SampledIndices(xs) && |xs| == 30
    requires forall i :: 0 <= i < 10 || 20 <= i < 30 ==> xs[i].ratio == 0.0
    requires forall i :: 10 <= i < 20 ==> xs[i].ratio == 10.0
    ensures var shots := Shots(Run(Init, xs).events);
      && |shots| == 2
      && shots[0].number == 0 && shots[0].index == 4
      && shots[1].number == 1 && shots[1].index == 21
    ensures Run(Init, xs).final == State(true, 2)
  {
    var a, b, c, d := xs[..3], xs[3..10], xs[10..20], xs[20..];
    assert a + b + c + d == xs;
    WarmupHolds(Init, a);
    var ab := Run(Init, a + b);
    StillSceneCapturesOnce(Init, b);
    RunAppend(Init, a, b);
    ShotsAppend(Run(Init, a).events, Run(Init, b).events);
    MotionRearms(ab.final, c);
    RunAppend(Init, a + b, c);
    ShotsAppend(ab.events, Run(ab.final, c).events);
    var abc := Run(Init, a + b + c);
    StillSceneCapturesOnce(abc.final, d);
    RunAppend(Init, a + b + c, d);
    ShotsAppend(abc.events, Run(abc.final, d).events);
  }

  /** Ratios that stay inside the hysteresis band after the warmup (whatever
      they are during it) never produce a screenshot. */
  lemma {:induction false} DriftNeverCaptures<F>(xs: seq<Input<F>>)
    requires SampledIndices(xs)
    requires forall i :: WARMUP <= i < |xs| ==> MIN_PERCENT <= xs[i].ratio < MAX_PERCENT
    ensures Shots(Run(Init, xs).events) == []
    ensures Run(Init, xs).final == Init
  {
    if |xs| <= WARMUP {
      WarmupHolds(Init, xs);
    } else {
      var warm, rest := xs[..WARMUP], xs[WARMUP..];
      assert warm + rest == xs;
      WarmupHolds(Init, warm);
      BandKeepsState(Init, rest);
      RunAppend(Init, warm, rest);
      ShotsAppend(Run(Init, warm).events, Run(Init, rest).events);
    }
  }
}
