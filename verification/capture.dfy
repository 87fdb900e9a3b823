/** The capture state machine of `detect_unique_screenshots` (app.py, lines
    53-74): a flag `captured`, a counter `screenshot_count`, and one step per
    sampled frame. The image carried by each input is opaque (`F`); the step
    only forwards it into the screenshot it emits. */
module Capture {
  import opened Params

  /** `captured` and `screenshot_count`. */
  datatype State = State(captured: bool, count: nat)

  /** The state before the first frame (app.py, lines 53 and 55). */
  const Init: State := State(false, 0)

  /** What the machine is told about one frame: its 1-based index, its
      timestamp in seconds, its change ratio in percent and its original image. */
  datatype Input<F> = Input(index: nat, time: real, ratio: real, image: F)

  /** A written screenshot: its sequence number (the `:03` prefix of the file
      name), the frame it was taken from and that frame's original image. */
  datatype Shot<F> = Shot(number: nat, index: nat, time: real, image: F)

  /** The outcome of one step: the `if` branch, the `elif` branch, or neither. */
  datatype Event<F> = Captured(shot: Shot<F>) | Rearmed | Held

  datatype StepResult<F> = StepResult(next: State, event: Event<F>)

  /** One iteration of the loop body: capture when the scene is still, not
      yet captured and past the warmup; otherwise re-arm when captured and the
      scene moves strongly. */
  function Step<F>(s: State, x: Input<F>): (r: StepResult<F>)
    ensures r.event.Captured? <==> !s.captured && x.ratio < MIN_PERCENT && x.index > WARMUP
    ensures r.event.Rearmed? <==> s.captured && x.ratio >= MAX_PERCENT
    ensures r.event.Captured? ==>
      r.event.shot.number == s.count && r.event.shot.index == x.index &&
      r.event.shot.time == x.time && r.event.shot.image == x.image
    ensures r.next.captured <==> (s.captured && x.ratio < MAX_PERCENT) || r.event.Captured?
    ensures r.next.count == if r.event.Captured? then s.count + 1 else s.count
  {
    if x.ratio < MIN_PERCENT && !s.captured && x.index > WARMUP then
      StepResult(State(true, s.count + 1), Captured(Shot(s.count, x.index, x.time, x.image)))
    else if s.captured && x.ratio >= MAX_PERCENT then
      StepResult(State(false, s.count), Rearmed)
    else
      StepResult(s, Held)
  }

  /** The recorded run of the machine over a sequence of inputs: the state at
      the end and one event per input, in input order. */
  datatype Trace<F> = Trace(final: State, events: seq<Event<F>>)

  /** The loop over all frames, as a fold from the left. */
  function Run<F>(s: State, xs: seq<Input<F>>): (t: Trace<F>)
    ensures |t.events| == |xs|
    ensures t.final.count >= s.count
    decreases |xs|
  {
    if xs == [] then Trace(s, [])
    else
      var t := Run(s, xs[..|xs| - 1]);
      var r := Step(t.final, xs[|xs| - 1]);
      Trace(r.next, t.events + [r.event])
  }

  /** The screenshots among a run's events, in the order they were written. */
  function Shots<F>(es: seq<Event<F>>): (r: seq<Shot<F>>)
    ensures |r| <= |es|
    ensures forall k :: 0 <= k < |r| ==> Captured(r[k]) in es
    decreases |es|
  {
    if es == [] then []
    else
      var last := es[|es| - 1];
      Shots(es[..|es| - 1]) + (if last.Captured? then [last.shot] else [])
  }

  /** Every capture event's screenshot is among the run's screenshots. */
  lemma {:induction false} CapturesAreShots<F>(es: seq<Event<F>>, i: nat)
    requires i < |es| && es[i].Captured?
    ensures es[i].shot in Shots(es)
    decreases |es|
  {
    if i < |es| - 1 {
      CapturesAreShots(es[..|es| - 1], i);
    }
  }

  /** The state in force just before input `i` is processed. */
  function Before<F>(s: State, xs: seq<Input<F>>, i: nat): State
    requires i <= |xs|
  {
    Run(s, xs[..i]).final
  }

  /** Running a prefix records a prefix of the events. */
  lemma {:induction false} RunPrefix<F>(s: State, xs: seq<Input<F>>, i: nat)
    requires i <= |xs|
    ensures Run(s, xs[..i]).events == Run(s, xs).events[..i]
    decreases |xs|
  {
    if i < |xs| {
      assert xs[..|xs| - 1][..i] == xs[..i];
      RunPrefix(s, xs[..|xs| - 1], i);
    } else {
      assert xs[..i] == xs;
    }
  }

  /** The event recorded for input `i` is the step taken from the state in
      force before it, and that step leads to the state in force after it. */
  lemma {:induction false} RunStep<F>(s: State, xs: seq<Input<F>>, i: nat)
    requires i < |xs|
    ensures Step(Before(s, xs, i), xs[i]).next == Before(s, xs, i + 1)
    ensures Step(Before(s, xs, i), xs[i]).event == Run(s, xs).events[i]
  {
    assert xs[..i + 1][..i] == xs[..i];
    RunPrefix(s, xs, i + 1);
  }

  /** Extending the inputs by one more frame takes one more step from where
      the shorter run ended, and adds that step's screenshot, if any. */
  lemma {:induction false} RunExtend<F>(s: State, xs: seq<Input<F>>, i: nat)
    requires i < |xs|
    ensures Run(s, xs[..i + 1]).final == Step(Run(s, xs[..i]).final, xs[i]).next
    ensures Shots(Run(s, xs[..i + 1]).events) ==
      Shots(Run(s, xs[..i]).events) +
      (var e := Step(Run(s, xs[..i]).final, xs[i]).event; if e.Captured? then [e.shot] else [])
  {
    assert xs[..i + 1][..i] == xs[..i];
    var events := Run(s, xs[..i + 1]).events;
    assert events[..|events| - 1] == Run(s, xs[..i]).events;
  }

  /** Running a concatenation is running the first part, then the second part
      from where the first ended. */
  lemma {:induction false} RunAppend<F>(s: State, a: seq<Input<F>>, b: seq<Input<F>>)
    ensures Run(s, a + b).final == Run(Run(s, a).final, b).final
    ensures Run(s, a + b).events == Run(s, a).events + Run(Run(s, a).final, b).events
    decreases |b|
  {
    if b == [] {
      assert a + b == a;
    } else {
      var b' := b[..|b| - 1];
      assert (a + b)[..|a + b| - 1] == a + b';
      assert (a + b)[|a + b| - 1] == b[|b| - 1];
      RunAppend(s, a, b');
    }
  }

  /** The screenshots of concatenated event lists are concatenated. */
  lemma {:induction false} ShotsAppend<F>(a: seq<Event<F>>, b: seq<Event<F>>)
    ensures Shots(a + b) == Shots(a) + Shots(b)
    decreases |b|
  {
    if b == [] {
      assert a + b == a;
    } else {
      var b' := b[..|b| - 1];
      assert (a + b)[..|a + b| - 1] == a + b';
      ShotsAppend(a, b');
    }
  }

  /** Sequence numbers are handed out consecutively from the starting count,
      and the final count is the starting count plus the number of
      screenshots written. */
  lemma {:induction false} Numbering<F>(s: State, xs: seq<Input<F>>)
    ensures var shots := Shots(Run(s, xs).events);
      && Run(s, xs).final.count == s.count + |shots|
      && forall k :: 0 <= k < |shots| ==> shots[k].number == s.count + k
    decreases |xs|
  {
    if xs != [] {
      var xs' := xs[..|xs| - 1];
      Numbering(s, xs');
      var t := Run(s, xs');
      var events := Run(s, xs).events;
      assert events[..|events| - 1] == t.events;
    }
  }

  /** From the initial state the screenshots are numbered 0, 1, ..., n - 1 and
      `screenshot_count` ends at n. */
  lemma {:induction false} NumberedFromZero<F>(xs: seq<Input<F>>)
    ensures var shots := Shots(Run(Init, xs).events);
      && Run(Init, xs).final.count == |shots|
      && forall k :: 0 <= k < |shots| ==> shots[k].number == k
  {
    Numbering(Init, xs);
  }

  /** A capture happens only on a still frame past the warmup, and records
      that frame. */
  lemma {:induction false} CaptureConditions<F>(s: State, xs: seq<Input<F>>, i: nat)
    requires i < |xs| && Run(s, xs).events[i].Captured?
    ensures xs[i].index > WARMUP && xs[i].ratio < MIN_PERCENT
    ensures !Before(s, xs, i).captured
    ensures Run(s, xs).events[i].shot.index == xs[i].index
    ensures Run(s, xs).events[i].shot.image == xs[i].image
  {
    RunStep(s, xs, i);
  }

  /** Every screenshot of a run comes from one still input past the warmup,
      whose index, time and image it records. */
  lemma {:induction false} ShotOrigin<F>(s: State, xs: seq<Input<F>>, k: nat) returns (i: nat)
    requires k < |Shots(Run(s, xs).events)|
    ensures i < |xs| && Run(s, xs).events[i].Captured?
    ensures var shot := Shots(Run(s, xs).events)[k];
      && xs[i].index > WARMUP && xs[i].ratio < MIN_PERCENT
      && shot.index == xs[i].index && shot.time == xs[i].time && shot.image == xs[i].image
  {
    var events := Run(s, xs).events;
    assert Captured(Shots(events)[k]) in events;
    i :| 0 <= i < |events| && events[i] == Captured(Shots(events)[k]);
    RunStep(s, xs, i);
  }

  /** No screenshot is ever taken from a frame whose index is within the
      warmup. */
  lemma {:induction false} NoCaptureDuringWarmup<F>(s: State, xs: seq<Input<F>>)
    ensures forall shot :: shot in Shots(Run(s, xs).events) ==> shot.index > WARMUP
  {
    var events := Run(s, xs).events;
    forall shot | shot in Shots(events)
      ensures shot.index > WARMUP
    {
      var k :| 0 <= k < |Shots(events)| && Shots(events)[k] == shot;
      var i :| 0 <= i < |events| && events[i] == Captured(shot);
      CaptureConditions(s, xs, i);
    }
  }

  /** A re-arm happens only while captured, on a frame at or above
      `MAX_PERCENT`. */
  lemma {:induction false} RearmConditions<F>(s: State, xs: seq<Input<F>>, i: nat)
    requires i < |xs| && Run(s, xs).events[i].Rearmed?
    ensures Before(s, xs, i).captured && xs[i].ratio >= MAX_PERCENT
    ensures !Before(s, xs, i + 1).captured
  {
    RunStep(s, xs, i);
  }

  /** Once captured, the machine stays captured until a re-arm. */
  lemma {:induction false} StaysCaptured<F>(s: State, xs: seq<Input<F>>, i: nat, j: nat)
    requires i <= j <= |xs|
    requires Before(s, xs, i).captured
    requires forall m :: i <= m < j ==> !Run(s, xs).events[m].Rearmed?
    ensures Before(s, xs, j).captured
    decreases j - i
  {
    if i < j {
      RunStep(s, xs, i);
      StaysCaptured(s, xs, i + 1, j);
    }
  }

  /** Between any two screenshots there is a re-arm: the machine never
      captures twice while it stays in the captured state. */
  lemma {:induction false} RearmBetweenCaptures<F>(s: State, xs: seq<Input<F>>, p: nat, q: nat)
    requires p < q < |xs|
    requires Run(s, xs).events[p].Captured? && Run(s, xs).events[q].Captured?
    ensures exists m :: p < m < q && Run(s, xs).events[m].Rearmed?
  {
    var events := Run(s, xs).events;
    if forall m :: p < m < q ==> !events[m].Rearmed? {
      RunStep(s, xs, p);
      StaysCaptured(s, xs, p + 1, q);
      CaptureConditions(s, xs, q);
      assert false;
    }
  }

  /** A ratio in the hysteresis band changes nothing: from any state, a run of
      band ratios ends where it started and writes no screenshot. */
  lemma {:induction false} BandKeepsState<F>(s: State, xs: seq<Input<F>>)
    requires forall i :: 0 <= i < |xs| ==> MIN_PERCENT <= xs[i].ratio < MAX_PERCENT
    ensures Run(s, xs).final == s
    ensures forall i :: 0 <= i < |xs| ==> Run(s, xs).events[i].Held?
    ensures Shots(Run(s, xs).events) == []
    decreases |xs|
  {
    if xs != [] {
      BandKeepsState(s, xs[..|xs| - 1]);
    }
  }

  /** During the warmup nothing happens to an idle machine, whatever the
      ratios: the index rules out a capture and the idle state a re-arm. */
  lemma {:induction false} WarmupHolds<F>(s: State, xs: seq<Input<F>>)
    requires !s.captured
    requires forall i :: 0 <= i < |xs| ==> xs[i].index <= WARMUP
    ensures Run(s, xs).final == s
    ensures Shots(Run(s, xs).events) == []
    decreases |xs|
  {
    if xs != [] {
      WarmupHolds(s, xs[..|xs| - 1]);
    }
  }

  /** While captured, frames below `MAX_PERCENT` change nothing: no second
      screenshot of the same still scene. */
  lemma {:induction false} CapturedHolds<F>(s: State, xs: seq<Input<F>>)
    requires s.captured
    requires forall i :: 0 <= i < |xs| ==> xs[i].ratio < MAX_PERCENT
    ensures Run(s, xs).final == s
    ensures Shots(Run(s, xs).events) == []
    decreases |xs|
  {
    if xs != [] {
      CapturedHolds(s, xs[..|xs| - 1]);
    }
  }

  /** An idle machine that sees a still scene past the warmup captures its
      first frame, and only that one. */
  lemma {:induction false} StillSceneCapturesOnce<F>(s: State, xs: seq<Input<F>>)
    requires !s.captured && |xs| > 0
    requires forall i :: 0 <= i < |xs| ==> xs[i].ratio < MIN_PERCENT && xs[i].index > WARMUP
    ensures Run(s, xs).final == State(true, s.count + 1)
    ensures Shots(Run(s, xs).events) == [Shot(s.count, xs[0].index, xs[0].time, xs[0].image)]
  {
    var first := xs[..1];
    RunSingle(s, xs[0]);
    assert first == [xs[0]];
    var t := Run(s, first);
    CapturedHolds(t.final, xs[1..]);
    RunAppend(s, first, xs[1..]);
    ShotsAppend(t.events, Run(t.final, xs[1..]).events);
    assert first + xs[1..] == xs;
  }

  /** A run over one input is one step. */
  lemma {:induction false} RunSingle<F>(s: State, x: Input<F>)
    ensures Run(s, [x]).final == Step(s, x).next
    ensures Shots(Run(s, [x]).events) ==
      (var e := Step(s, x).event; if e.Captured? then [e.shot] else [])
  {
    var xs := [x];
    assert xs[..|xs| - 1] == [];
    assert Run(s, xs[..|xs| - 1]) == Trace(s, []);
    var e := Step(s, x).event;
    var es := Run(s, xs).events;
    assert es == [] + [e];
    assert es[..|es| - 1] == [];
  }

  /** Strong motion always leaves the machine idle with its count unchanged
      and writes nothing. */
  lemma {:induction false} MotionRearms<F>(s: State, xs: seq<Input<F>>)
    requires |xs| > 0
    requires forall i :: 0 <= i < |xs| ==> xs[i].ratio >= MAX_PERCENT
    ensures Run(s, xs).final == State(false, s.count)
    ensures Shots(Run(s, xs).events) == []
    decreases |xs|
  {
    if |xs| > 1 {
      MotionRearms(s, xs[..|xs| - 1]);
    }
  }
}

