# Idle detector: motion and presence detection core

A Dafny model of the detection core of the idle-detector backend
(`backend/motion_detector.py`). It covers the `MotionDetector` object and
its `detect_motion` step, and the `generate_frames` streaming loop.

`detect_motion` does four things on each frame:

- **Motion.** It takes the per-pixel absolute difference between the
  reference frame and the new blurred grayscale frame. A pixel that differs
  by more than 25 becomes 255 in a binary mask, and every other pixel becomes
  0. Motion is reported when the mask mean is strictly above 30.
- **Presence.** A human is present when any class id from the object
  detector is the person class, 0.
- **Reporting.** A write of the `detection_status` record is attempted in two
  cases: the (motion, humans) pair differs from the last pair reported, or
  more than 2 seconds have passed since the last report. After an attempt,
  the last pair and its time are updated whether or not the write succeeded.
- **Reference update.** On every call that returns, the new frame becomes
  the reference; a frame of another size raises and leaves the old reference
  in place. On the very first call the frame is only stored, and
  (False, False) is returned.

Files, one module each:

- `wrappers.dfy` (`Wrappers`): `Option` and `Result`.
- `frames.dfy` (`Frames`): images as rows of bytes, `AbsDiff`, `Threshold`,
  the exact mean test `MeanExceeds`, `MotionDetected`, and the reference count
  `ChangedCount` with the lemmas that connect them.
- `presence.dfy` (`Presence`): `HumansDetected`.
- `reporting.dfy` (`Reporting`): `Observation`, the emit rule `ShouldReport`,
  the `Emission` record of a write attempt, and `SpacedAfter`. That predicate
  says that writes of an unchanged pair are more than the update interval
  apart.
- `detector.dfy` (`Detection`): the detector state and `DetectStep`, the
  specification of one `detect_motion` call. Also the class `MotionDetector`,
  whose fields `prevFrame`, `lastState` and `lastUpdate` are updated in place
  by `DetectMotion`. That method is proved to follow `DetectStep`. A ghost log
  `emissions` records every write attempt.
- `streaming.dfy` (`Streaming`): the label and colour overlay, the function
  `Stream` that specifies the loop, and the loop itself as the method
  `GenerateFrames`.

Everything outside the detector is a parameter. For each frame, a `Capture`
carries what `detect_motion` learns from outside: the blurred grayscale
image, the class ids returned by the object detector, the reading of
`time.time()`, and whether the store write succeeds. The camera reads are a
sequence of `Option<Capture>`, where `None` is a failed read.

Three behaviours of the code are worth stating outright:

- When the reference and the new frame cannot be differenced (different
  sizes), `cv2.absdiff` raises. Nothing in the loop catches this, so the
  exception ends the stream (`Raised`). The iteration is not skipped. Since
  the old reference stays, after a change of frame size every later stream
  on the same detector ends at its first frame.
- The code compares the mean of a 0/255 mask with 30, which is the same as
  comparing the fraction of changed pixels with 30/255. The model states the
  test exactly: 255 × changed > 30 × pixels.
- The time of the last report is whatever `time.time()` returned at the last
  attempt. It never decreases only while the clock does not run backwards,
  and `LastUpdateMonotone` takes that as its precondition.

## Model

| member | source | states |
|---|---|---|
| `Frames.AbsDiff` | backend/motion_detector.py:118 | the difference image has the new frame's shape, each pixel is the distance between the two frames' pixels, and it is 0 exactly where they agree |
| `Frames.Threshold` | backend/motion_detector.py:119 | the mask has the image's shape, and each pixel is the maximum value when strictly above the threshold and 0 otherwise |
| `Frames.MeanExceeds` | backend/motion_detector.py:120 | true iff the image has pixels and the real mean of its pixels is strictly above the limit; an empty image is never above |
| `Frames.MotionDetected` | backend/motion_detector.py:118-120 | motion implies that some pixel changed by more than 25 and that more than a ninth of the pixels did; the exact count is in `MotionIffChangedFraction` |
| `Frames.MotionIffChangedFraction` | backend/motion_detector.py:118-120 | motion is detected iff 255 times the number of pixels differing by more than 25 exceeds 30 times the pixel count |
| `Frames.MaskSum` | backend/motion_detector.py:118-119 | the threshold mask of the difference sums to 255 per changed pixel and has as many pixels as the frame |
| `Frames.IdenticalFramesNoMotion` | backend/motion_detector.py:118-120 | a frame compared with an identical reference never shows motion |
| `Frames.WholeFrameChangeIsMotion` | backend/motion_detector.py:118-120 | a non-empty frame that differs by more than 25 at every pixel always shows motion |
| `Frames.MotionSymmetric` | backend/motion_detector.py:118 | swapping the reference and the new frame does not change the motion verdict |
| `Presence.HumansDetected` | backend/motion_detector.py:123 | true iff at least one detected class id is the person class 0 |
| `Presence.HumansDetectedConcat` | backend/motion_detector.py:123 | presence over two batches of detections is presence in either batch, whatever their count or order |
| `Reporting.ShouldReport` | backend/motion_detector.py:128 | always fires before the first report and on any change of the pair; for an unchanged pair it fires iff strictly more than the interval has passed |
| `Reporting.SpacedAfterAt` | backend/motion_detector.py:128-141 | in a spaced log, consecutive attempts of the same pair are more than the interval apart |
| `Reporting.SpacedAfterConcat` | backend/motion_detector.py:128-141 | a spaced batch of writes followed by a batch spaced from the pair and time the first batch left is spaced as a whole |
| `Reporting.LastOfConcat` | backend/motion_detector.py:140-141 | the last reported pair and time after two batches of writes are those the second batch leaves after the first |
| `Reporting.ExactIntervalDoesNotReemit` | backend/motion_detector.py:128 | an unchanged pair seen exactly one interval after its last report is not reported again |
| `Detection.DetectStep` | backend/motion_detector.py:110-144 | the first call stores the frame and returns (False, False) without reporting. A frame of another size raises and changes nothing. Otherwise it returns (motion, humans) and the frame becomes the reference. A write is attempted iff the emit rule fires, and then the last pair and time become the current ones; otherwise both are kept |
| `Detection.StepKeepsSpacing` | backend/motion_detector.py:128-141 | if the writes after a call are spaced from the state the call leaves, then the call's own write followed by them is spaced from the state before it. The rule repeats a pair only after more than the interval, and a write makes its pair and time the last ones |
| `Detection.StepExtendsLog` | backend/motion_detector.py:104-141 | if the last pair and time are those of the last write in a spaced log, they still are after one more call, with that call's write appended to the log |
| `Detection.HeartbeatAtZeroOneThree` | backend/motion_detector.py:114-141 | after the reference is stored, three calls with an unchanged frame at times 0, 1 and 3 report at 0 and 3 but not at 1 |
| `Detection.HeartbeatWithMotion` | backend/motion_detector.py:118-141 | with two frames that differ by more than 25 at every pixel alternating at times 0, 1 and 3, every call returns motion true, and the unchanged pair is reported at 0 and 3 but not at 1 |
| `Detection.WriteOutcomeDoesNotMatter` | backend/motion_detector.py:129-141 | whether the store write fails changes neither the returned pair nor the new state |
| `Detection.FirstComparisonReports` | backend/motion_detector.py:104-128 | from a fresh detector, the first call that compares frames always attempts a write |
| `Detection.RepeatedFrameNoMotion` | backend/motion_detector.py:118-126 | a frame equal to the reference returns motion False and the presence verdict of its detections |
| `Detection.LastUpdateMonotone` | backend/motion_detector.py:125-140 | with a clock that does not run backwards, the time of the last report never decreases |
| `Detection.MotionDetector.constructor` | backend/motion_detector.py:104-108 | a new detector has no reference frame, nothing reported, last update 0, and an empty write log that agrees with those fields |
| `Detection.MotionDetector.DetectMotion` | backend/motion_detector.py:110-144 | updating the fields in place gives exactly the state, result and write attempt of `DetectStep`, and the fields keep agreeing with the spaced write log |
| `Streaming.Annotate` | backend/motion_detector.py:160-161 | the overlay carries the label of the pair, and it is green iff motion or humans were detected, red otherwise |
| `Streaming.Label` | backend/motion_detector.py:160 | the label starts with "Motion: " followed by Y or N for motion, and ends with Yes or No for humans |
| `Streaming.LabelDeterminesObservation` | backend/motion_detector.py:160 | two pairs with the same label text are the same pair |
| `Streaming.Stream` | backend/motion_detector.py:153-165 | the loop yields at most one frame per read, and one per read when it stops only because the reads ran out |
| `Streaming.FailedReadEndsStream` | backend/motion_detector.py:154-157 | reads after the first failed read have no effect, and the loop either raised on an earlier frame or stops with a failed read after exactly one frame per earlier read |
| `Streaming.FirstFrameShowsNothing` | backend/motion_detector.py:114-116 | the first frame of a fresh detector is labelled no motion, no humans |
| `Streaming.StreamSpaced` | backend/motion_detector.py:153-159 | all writes of the loop are spaced after the detector's last report |
| `Streaming.StreamFinalIsLastWrite` | backend/motion_detector.py:153-165 | after the loop the last reported pair and time are those of the loop's last write, or unchanged when it wrote nothing |
| `Streaming.StreamExtendsLog` | backend/motion_detector.py:153-165 | a loop run keeps the detector's fields in agreement with its spaced write log, extended by the loop's writes |
| `Streaming.ConsecutiveRunsSpaced` | backend/motion_detector.py:151-165 | two loop runs in a row on the one detector produce writes that are spaced together |
| `Streaming.StreamHeartbeatSpaced` | backend/motion_detector.py:128-141 | from a fresh detector, two consecutive writes of the same pair are always more than 2 seconds apart |
| `Streaming.GenerateFrames` | backend/motion_detector.py:153-165 | the loop leaves the detector in the final state of `Stream` and returns its overlays and stop reason, and it logs exactly the writes of `Stream`, keeping the fields in agreement with the spaced write log |

## Left out

- Virtual-environment check, package installation, `.env` loading and Firebase initialisation (lines 12-87) are left out. They are process bootstrap and I/O.
- The colour conversion and the 21×21 Gaussian blur (lines 111-112) are library image filters. The model takes the blurred grayscale image as input, so it does not check that this image comes from the frame.
- YOLO model loading and inference (lines 94, 122) are left out. Only the class ids it returns are modelled. They are integers here, where YOLO returns floats with integral values. An inference error is not modelled.
- Opening and configuring the camera, including the `RuntimeError` when no camera is found (lines 95-102), is hardware I/O. Each `cap.read` is an element of the given read sequence.
- The Firebase write, the server timestamp and the `print` logging (lines 130-138) are network I/O. The model keeps only whether the write succeeded, recorded in the `Emission` of the attempt.
- `motion_threshold` and `update_interval` are instance attributes that are never reassigned, so the model makes them module constants.
- Time is a `real` clock reading. The float64 `np.mean` of the uint8 mask is compared exactly in integers. This is exact for any frame size a camera gives, because a mean strictly above 30 is at least 30 + 1/pixels. An empty image (mean NaN, compared False) is also False in the model.
- Images are rows of bytes. Only equal row counts and equal row lengths between the two images are required, which holds for numpy's rectangular arrays.
- `Streaming.Stream`: the source loop runs forever while reads succeed. The model runs over a finite sequence of reads, and stops with `ReadsExhausted` when it ends.
- Drawing the text on the frame, JPEG encoding, multipart framing and the Flask route (lines 161-169, 174-176) are streaming plumbing. The model keeps only the label text and colour of each frame.
- Concurrent streams are not modelled. Flask's threaded server can run several `generate_frames` generators (lines 153, 167-169) on the one module-level detector (line 151), and the store write (lines 130-136) lets another thread run between the emit test and the field updates. The spacing results hold for one loop at a time, or loops run one after another (`ConsecutiveRunsSpaced`).
- `app/page.tsx` is a React view of the status record, and it holds no detection logic.
