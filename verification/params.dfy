/** The tuning constants of the screenshot extractor (app.py, lines 16-22).
    Percentages are exact reals: `0.1` here is exactly one tenth. */
module Params {

  /** Number of frames sampled per second of video. */
  const FRAME_RATE: nat := 3

  /** Number of leading frames that may never be captured: one second's worth. */
  const WARMUP: nat := FRAME_RATE

  /** History length handed to the background subtractor (not modelled further). */
  const FGBG_HISTORY: nat := FRAME_RATE * 15

  /** Variance threshold handed to the background subtractor (not modelled further). */
  const VAR_THRESHOLD: nat := 16

  /** Shadow detection is off: shadows count as foreground. */
  const DETECT_SHADOWS: bool := false

  /** A frame whose change ratio is below this is "still". */
  const MIN_PERCENT: real := 0.1

  /** A frame whose change ratio is at least this is "moving". */
  const MAX_PERCENT: real := 3.0
}
