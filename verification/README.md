# Slide extraction from a lecture video: a Dafny model

`app.py` turns a YouTube lecture into a PDF of its slides. It samples the video
at `FRAME_RATE` frames per second, computes each sample's foreground mask
with a MOG2 background subtractor, and reduces the mask to a *change ratio*:
the percentage of foreground pixels. A two-state machine then drives the
capture. A frame whose ratio is below `MIN_PERCENT` is "still". It is
written as a screenshot if nothing has been captured since the last strong
motion and the frame lies past the one-second warmup. A ratio of at least
`MAX_PERCENT` re-arms the machine. Screenshots are named with a three-digit
sequence-number prefix, and the PDF lists them in sorted file-name order.

The model covers this core with immutable datatypes and pure functions. The
modules are:

- `Params`: the constants (app.py, lines 16-22).
- `Sampler`: `get_frames`, with the decoder given as the sequence of its
  `read()` results.
- `Ratio`: the change ratio, and the two thresholds restated in whole pixels.
- `Capture`: the state machine. `Step` is one loop iteration and `Run` folds
  it over a stream. The lemmas about whole runs cover numbering, the
  hysteresis, the warmup and where each screenshot comes from.
- `Detect`: the detection loop, written as a method whose state lives in
  local variables. `CheckFrame` writes out the branch of the loop body on
  that mutable state and is proved to agree with `Step`. The loop as a whole
  is proved to write the screenshots of `Run`, and `ExtractScreenshots`
  composes it with the sampler.
- `Naming`: the `:03` prefix, its round trip, and the order produced by
  `sorted`.
- `Scenarios`: whole runs on typical streams.

The image type is a type parameter throughout: the model forwards images and
never inspects them.

The timestamp is modelled as the code computes it, not as a "timestamp of the
frame" reading would suggest. The loop seeks to `frame_time`, then increments
it, then yields. So frame k (counting from 1) is read at position
(k-1)/`FRAME_RATE` seconds but carries the time k/`FRAME_RATE`.
`Sampler.GetFrames` states both the sought positions and the yielded times.

## Model

| member | source | states |
|---|---|---|
| Ratio.ChangeRatio | app.py:65 | the ratio is non-negative; it is 0 exactly for an empty mask and 100 exactly when every pixel of the recorded area is foreground; it is at most 100 when the count fits in that area; ratio times area equals 100 times the foreground count |
| Ratio.StillIffFewerThanOnePerMille | app.py:65-67 | a frame passes the capture threshold exactly when fewer than one pixel in a thousand of the first mask's area is foreground |
| Ratio.MovingIffThreePercent | app.py:73 | a frame re-arms the machine exactly when at least three pixels in a hundred are foreground |
| Ratio.RatioMonotone | app.py:65 | more foreground pixels never give a smaller ratio |
| Ratio.EmptyMaskIsStill | app.py:65-67 | a mask with no foreground always passes the capture threshold |
| Sampler.ReadablePrefix | app.py:35-41 | the number of reads before the first failed one: all of those reads succeed, and the next one, if any, fails |
| Sampler.GetFrames | app.py:30-42 | a stream that cannot be opened fails, and only such a stream; otherwise exactly the reads before the first failure are yielded, the k-th (from 0) with index k+1, time (k+1)/FRAME_RATE and the k-th read's image; the position sought before read k is k/FRAME_RATE, including the failing read |
| Sampler.SamplingClock | app.py:33-42 | yielded indices start at 1 and go up by one; each time is its index over FRAME_RATE; times strictly increase; each time is one tick past the position sought for that frame |
| Sampler.AfterWarmupIsAfterFirstSecond | app.py:33-42 | a frame past the warmup carries a time strictly after the first second |
| Capture.Step | app.py:67-74 | it captures exactly when not captured, the ratio is below MIN_PERCENT and the index is past WARMUP; the screenshot carries the current count and the frame's index, time and image; it re-arms exactly when captured and the ratio is at least MAX_PERCENT; afterwards the machine is captured exactly when it just captured or was captured and the ratio stayed below MAX_PERCENT; the count goes up by one exactly on a capture |
| Capture.Run | app.py:57-74 | one event per frame; the count never decreases |
| Capture.Shots | app.py:67-72 | at most one screenshot per frame, and each is the screenshot of one of the run's capture events |
| Capture.CapturesAreShots | app.py:67-72 | every capture event's screenshot is among the screenshots written |
| Capture.RunExtend | app.py:57-74 | one more frame means one more step from where the run stood, adding that step's screenshot if it captured |
| Capture.RunAppend | app.py:57-74 | processing a concatenated stream is processing the first part, then the second from the state the first left |
| Capture.ShotsAppend | app.py:67-72 | the screenshots of concatenated event lists are the concatenated screenshots |
| Capture.Numbering | app.py:67-72 | screenshots are numbered consecutively from the starting count, and the final count is the starting count plus the number written |
| Capture.NumberedFromZero | app.py:53-72 | from the initial state the screenshots are numbered 0, 1, ..., n-1, and `screenshot_count` ends at n |
| Capture.CaptureConditions | app.py:67-71 | a capture happens only on a still frame past the warmup while not captured, and records that frame's index and image |
| Capture.ShotOrigin | app.py:67-71 | every screenshot comes from some input that is still and past the warmup, and records its index, time and image |
| Capture.NoCaptureDuringWarmup | app.py:67 | no screenshot is ever taken from a frame whose index is within the warmup |
| Capture.RearmConditions | app.py:73-74 | a re-arm happens only while captured, on a frame at or above MAX_PERCENT, and leaves the machine not captured |
| Capture.StaysCaptured | app.py:67-74 | once captured, the machine stays captured until a re-arm |
| Capture.RearmBetweenCaptures | app.py:67-74 | between any two screenshots there is a re-arm, so one still scene is never written twice |
| Capture.BandKeepsState | app.py:67-74 | ratios in the band [MIN_PERCENT, MAX_PERCENT) leave the state unchanged, hold at every step and write nothing |
| Capture.WarmupHolds | app.py:67-74 | an idle machine stays idle, and writes nothing, over frames within the warmup whatever their ratios |
| Capture.CapturedHolds | app.py:67-74 | a captured machine stays captured, and writes nothing, while ratios stay below MAX_PERCENT |
| Capture.StillSceneCapturesOnce | app.py:67-74 | an idle machine shown a still scene past the warmup writes exactly one screenshot, of the scene's first frame, and ends captured with its count one higher |
| Capture.RunSingle | app.py:57-74 | a stream of one frame is one step |
| Capture.MotionRearms | app.py:73-74 | a run of strong motion leaves the machine idle with its count unchanged and writes nothing |
| Detect.DetectUniqueScreenshots | app.py:53-74 | the loop with its mutable `captured`, `screenshot_count` and first-mask size writes exactly the screenshots of `Run` from the initial state; the final count is their number; the k-th is numbered k, comes from a frame past the warmup, and comes from a frame whose mask had fewer than one foreground pixel per thousand of the first area |
| Detect.CheckFrame | app.py:67-74 | the if/elif on the mutable flag and counter leads to the state `Step` leads to, and writes a screenshot exactly when `Step` captures, the same one |
| Detect.ShotsFromStillFrames | app.py:62-67 | every screenshot comes from a frame whose mask was still against the first mask's area |
| Detect.ExtractScreenshots | app.py:30-74 | an unopenable stream fails, and only such a stream; otherwise the screenshots are exactly those of `Run` from the initial state over the frames the sampler yields (index k+1, time (k+1)/FRAME_RATE and the k-th read's image, for each read before the first failure) with their masks; there are at most as many screenshots as readable frames; the k-th is numbered k, comes from a readable frame whose image it holds, and has time index/FRAME_RATE, strictly after the first second |
| Naming.DigitChar | app.py:69 | the character is a digit whose value is the given digit |
| Naming.Decimal | app.py:69 | the rendering is a non-empty digit string; a single digit below 10, and never a leading zero when longer; at least as long as the number's magnitude needs |
| Naming.Format03 | app.py:69 | the prefix is all digits; it is exactly three characters long exactly when the number is below 1000, and a longer prefix never starts with a zero |
| Naming.DecimalRoundTrip | app.py:69 | reading back the decimal rendering gives the number |
| Naming.Format03RoundTrip | app.py:69 | reading back the prefix gives the sequence number, above 999 too |
| Naming.NamesOrderedByNumber | app.py:69 | below 1000, a name with a smaller sequence number sorts first, whatever follows the underscore |
| Naming.EmissionOrderIsSorted | app.py:91 | for up to 1000 screenshots, sorting the names gives the order in which they were written, so the PDF pages follow the video |
| Naming.OrderBreaksAtThousand | app.py:91 | from the thousandth screenshot on, the order breaks: screenshot 1000 sorts before screenshot 999 |
| Scenarios.StillVideo | app.py:53-74 | a video that is still throughout and longer than the warmup yields exactly one screenshot, numbered 0, of frame WARMUP+1 |
| Scenarios.SlideChange | app.py:53-74 | still, then moving, then still again gives two screenshots, numbered 0 and 1, of frames 4 and 21, and ends captured with count 2 |
| Scenarios.DriftNeverCaptures | app.py:53-74 | ratios that stay in the band after the warmup never produce a screenshot and end in the initial state |

## Left out

- Fetching the video: the pafy and yt-dlp lookup, the backend setting of line 13, and `cv2.VideoCapture`. These are network and foreign calls. The model takes whether the stream opened and the sequence of read results as inputs. The URL in the exception message is not modelled.
- The MOG2 background subtractor and `imutils.resize`: foreign image processing. The model takes each frame's mask (its shape and non-zero count) as an input. `FGBG_HISTORY`, `VAR_THRESHOLD` and `DETECT_SHADOWS` are declared with their values but only configure that subtractor.
- Detect.DetectUniqueScreenshots: requires a non-zero area for the first mask. Python would raise `ZeroDivisionError` at line 65 for an empty first mask, and that path is not modelled. A resize to width 600 never produces one.
- Writing files: `cv2.imwrite`, `os.path.join` and the output folder setup of lines 77-84 are I/O. A written screenshot is the `Shot` value the model returns.
- The minutes part of the file name, `round(frame_time/60, 2)`: floating-point rounding. `Naming.FileName` leaves that part as an arbitrary string, so the order lemmas hold whatever it is.
- Floating point in general: `frame_time` accumulates `1/3` in binary floating point, and the ratio is a float division. The model uses exact reals, so the accumulation error and any rounding at the thresholds are not modelled.
- The PDF conversion of lines 87-92 beyond the order of `sorted(glob(...))`: `img2pdf` is a foreign call. Its failure on an empty list, when no screenshot was written, is not modelled.
- The Streamlit interface of lines 95-116: user interface and error display.
- `vs.release()`: resource handling with no effect on the results.
