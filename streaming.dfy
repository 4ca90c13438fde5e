/**
 * generate_frames: read frames until a read fails, run detect_motion on
 * each, and annotate each frame with a label and a colour for the stream.
 *
 * The camera reads are given as a finite sequence of captures; None is a
 * failed read. The source loops for as long as reads succeed, so a sequence
 * that runs out without a failed read stands for the reads seen so far.
 */
module Streaming {
  import opened Wrappers
  import opened Reporting
  import opened Detection

  /** An OpenCV colour, in blue-green-red order. */
  datatype Bgr = Bgr(b: int, g: int, r: int)

  const Green: Bgr := Bgr(0, 255, 0)
  const Red: Bgr := Bgr(0, 0, 255)

  /** The text and colour drawn on a frame. */
  datatype Overlay = Overlay(text: string, colour: Bgr)

  function YesNo(b: bool): string {
    if b then "Yes" else "No"
  }

  /** The label shows the motion verdict right after "Motion: " and ends with the humans verdict. */
  function Label(o: Observation): (s: string)
    ensures |s| > 8 && s[..8] == "Motion: " && s[8] == (if o.motion then 'Y' else 'N')
    ensures |s| >= |YesNo(o.humans)| && s[|s| - |YesNo(o.humans)|..] == YesNo(o.humans)
  {
    "Motion: " + YesNo(o.motion) + " | Humans: " + YesNo(o.humans)
  }

  /** The overlay for a detection pair: green when anything was detected, red otherwise. */
  function Annotate(o: Observation): (v: Overlay)
    ensures v.text == Label(o)
    ensures v.colour == Green <==> o.motion || o.humans
    ensures v.colour == Red <==> !o.motion && !o.humans
  {
    Overlay(Label(o), if o.humans || o.motion then Green else Red)
  }

  /** The label tells the pair it was drawn for. */
  lemma LabelDeterminesObservation(a: Observation, b: Observation)
    requires Label(a) == Label(b)
    ensures a == b
  {
    // The ninth character gives the motion verdict, and the next-to-last one the humans verdict.
  }

  /** Why the stream stopped. */
  datatype StopReason =
    | ReadFailed             // a camera read failed: the loop breaks
    | Raised(error: FrameError)  // detect_motion raised: the error leaves the generator
    | ReadsExhausted         // the given reads ran out (the bound of the model)

  /** The final detector state, the annotated frames yielded, the writes attempted, and why it stopped. */
  datatype Streamed = Streamed(final: Detector, frames: seq<Overlay>, emissions: seq<Emission>, stop: StopReason)

  /** The streaming loop over a sequence of captures, starting from detector state d. */
  function Stream(d: Detector, captures: seq<Option<Capture>>): (r: Streamed)
    ensures |r.frames| <= |captures|
    ensures |r.emissions| <= |captures|
    ensures r.stop == ReadsExhausted ==> |r.frames| == |captures|
    decreases |captures|
  {
    if captures == [] then Streamed(d, [], [], ReadsExhausted)
    else match captures[0]
      case None => Streamed(d, [], [], ReadFailed)
      case Some(c) =>
        var s := DetectStep(d, c);
        match s.result
        case Err(e) => Streamed(s.next, [], [], Raised(e))
        case Ok(o) =>
          var rest := Stream(s.next, captures[1..]);
          Streamed(rest.final, [Annotate(o)] + rest.frames, Attempts(s.emission) + rest.emissions, rest.stop)
  }

  /**
   * A failed read ends the loop cleanly: unless an earlier frame raised, the
   * loop stops with ReadFailed right there, having yielded one frame per
   * earlier read, and the reads after it are never made.
   */
  lemma {:induction false} FailedReadEndsStream(d: Detector, captures: seq<Option<Capture>>, k: nat)
    requires k < |captures| && captures[k].None?
    requires forall j :: 0 <= j < k ==> captures[j].Some?
    ensures Stream(d, captures) == Stream(d, captures[..k + 1])
    ensures Stream(d, captures).stop.Raised?
         || (Stream(d, captures).stop == ReadFailed && |Stream(d, captures).frames| == k)
    ensures |Stream(d, captures).frames| <= k
    decreases k
  {
    if k > 0 {
      var c := captures[0].value;
      var s := DetectStep(d, c);
      assert captures[..k + 1][0] == captures[0];
      assert captures[..k + 1][1..] == captures[1..][..k];
      if s.result.Ok? {
        FailedReadEndsStream(s.next, captures[1..], k - 1);
      }
    }
  }

  /** The first frame of a fresh detector is always labelled "no motion, no humans". */
  lemma FirstFrameShowsNothing(captures: seq<Option<Capture>>)
    requires captures != [] && captures[0].Some?
    ensures Stream(Initial, captures).frames != []
    ensures Stream(Initial, captures).frames[0] == Annotate(Observation(false, false))
  {
  }

  /** One turn of the loop: a successful read whose frame the detector accepts. */
  lemma StreamUnfold(d: Detector, captures: seq<Option<Capture>>)
    requires captures != [] && captures[0].Some? && DetectStep(d, captures[0].value).result.Ok?
    ensures var s := DetectStep(d, captures[0].value);
      var rest := Stream(s.next, captures[1..]);
      && Stream(d, captures).final == rest.final
      && Stream(d, captures).frames == [Annotate(s.result.value)] + rest.frames
      && Stream(d, captures).emissions == Attempts(s.emission) + rest.emissions
      && Stream(d, captures).stop == rest.stop
  {
  }

  /** A loop that stops before yielding anything leaves the detector as it was and attempts no write. */
  lemma StreamHalts(d: Detector, captures: seq<Option<Capture>>)
    requires captures == [] || captures[0].None? || DetectStep(d, captures[0].value).result.Err?
    ensures Stream(d, captures).final == d && Stream(d, captures).emissions == []
    ensures Stream(d, captures).frames == []
    ensures Stream(d, captures).stop == (if captures == [] then ReadsExhausted
      else if captures[0].None? then ReadFailed
      else Raised(DetectStep(d, captures[0].value).result.error))
  {
  }

  /** The writes of the whole loop are spaced after the detector's last report. */
  lemma {:induction false} StreamSpaced(d: Detector, captures: seq<Option<Capture>>)
    ensures SpacedAfter(d.lastState, d.lastUpdate, Stream(d, captures).emissions)
    decreases |captures|
  {
    if captures == [] || captures[0].None? || DetectStep(d, captures[0].value).result.Err? {
      StreamHalts(d, captures);
    } else {
      var c := captures[0].value;
      var s := DetectStep(d, c);
      StreamSpaced(s.next, captures[1..]);
      StreamUnfold(d, captures);
      StepKeepsSpacing(d, c, Stream(s.next, captures[1..]).emissions);
    }
  }

  /** After the loop, the last reported pair and time are those of its last write, or unchanged without one. */
  lemma {:induction false} StreamFinalIsLastWrite(d: Detector, captures: seq<Option<Capture>>)
    ensures Stream(d, captures).final.lastState == LastPair(d.lastState, Stream(d, captures).emissions)
    ensures Stream(d, captures).final.lastUpdate == LastAt(d.lastUpdate, Stream(d, captures).emissions)
    decreases |captures|
  {
    if captures == [] || captures[0].None? || DetectStep(d, captures[0].value).result.Err? {
      StreamHalts(d, captures);
    } else {
      var s := DetectStep(d, captures[0].value);
      StreamFinalIsLastWrite(s.next, captures[1..]);
      StreamUnfold(d, captures);
      LastOfConcat(d.lastState, d.lastUpdate, Attempts(s.emission), Stream(s.next, captures[1..]).emissions);
    }
  }

  /** A loop run on a detector whose state agrees with its write log leaves them agreeing. */
  lemma StreamExtendsLog(d: Detector, log: seq<Emission>, captures: seq<Option<Capture>>)
    requires Logged(d, log)
    ensures Logged(Stream(d, captures).final, log + Stream(d, captures).emissions)
  {
    var e := Stream(d, captures).emissions;
    StreamSpaced(d, captures);
    StreamFinalIsLastWrite(d, captures);
    SpacedAfterConcat(None, 0.0, log, e);
    LastOfConcat(None, 0.0, log, e);
  }

  /**
   * The one detector is reused by successive streams: the writes of two
   * runs in a row, taken together, are still spaced after the first run's
   * starting state.
   */
  lemma ConsecutiveRunsSpaced(d: Detector, first: seq<Option<Capture>>, second: seq<Option<Capture>>)
    ensures SpacedAfter(d.lastState, d.lastUpdate,
      Stream(d, first).emissions + Stream(Stream(d, first).final, second).emissions)
  {
    var r1 := Stream(d, first);
    StreamSpaced(d, first);
    StreamSpaced(r1.final, second);
    StreamFinalIsLastWrite(d, first);
    SpacedAfterConcat(d.lastState, d.lastUpdate, r1.emissions, Stream(r1.final, second).emissions);
  }

  /**
   * From a fresh detector, two consecutive writes of the same pair are
   * always more than the update interval (2 seconds) apart.
   */
  lemma StreamHeartbeatSpaced(captures: seq<Option<Capture>>, k: nat)
    requires 0 < k < |Stream(Initial, captures).emissions|
    requires Stream(Initial, captures).emissions[k - 1].obs == Stream(Initial, captures).emissions[k].obs
    ensures Stream(Initial, captures).emissions[k].at - Stream(Initial, captures).emissions[k - 1].at > UpdateInterval
  {
    StreamSpaced(Initial, captures);
    SpacedAfterAt(None, 0.0, Stream(Initial, captures).emissions, k);
  }

  /** What the loop has yielded and attempted so far, followed by what the rest of the loop does. */
  function After(frames: seq<Overlay>, emitted: seq<Emission>, rest: Streamed): Streamed {
    Streamed(rest.final, frames + rest.frames, emitted + rest.emissions, rest.stop)
  }

  /** Moving one turn's overlay and writes from the rest of the loop to what has been done. */
  lemma AfterOneMore(frames: seq<Overlay>, emitted: seq<Emission>, v: Overlay, e: seq<Emission>, rest: Streamed)
    ensures After(frames, emitted, Streamed(rest.final, [v] + rest.frames, e + rest.emissions, rest.stop))
         == After(frames + [v], emitted + e, rest)
  {
  }

  /** One successful turn of the loop moves its overlay and write from the rest of the loop to what has been done. */
  lemma AfterStep(d: Detector, captures: seq<Option<Capture>>, frames: seq<Overlay>, emitted: seq<Emission>)
    requires captures != [] && captures[0].Some? && DetectStep(d, captures[0].value).result.Ok?
    ensures var s := DetectStep(d, captures[0].value);
      After(frames, emitted, Stream(d, captures))
      == After(frames + [Annotate(s.result.value)], emitted + Attempts(s.emission), Stream(s.next, captures[1..]))
  {
    var s := DetectStep(d, captures[0].value);
    StreamUnfold(d, captures);
    AfterOneMore(frames, emitted, Annotate(s.result.value), Attempts(s.emission), Stream(s.next, captures[1..]));
  }

  /** A turn that ends the loop adds nothing to what has been yielded and attempted. */
  lemma AfterHalts(d: Detector, captures: seq<Option<Capture>>, frames: seq<Overlay>, emitted: seq<Emission>)
    requires captures == [] || captures[0].None? || DetectStep(d, captures[0].value).result.Err?
    ensures After(frames, emitted, Stream(d, captures)) == Streamed(d, frames, emitted, Stream(d, captures).stop)
  {
    StreamHalts(d, captures);
    assert frames + [] == frames && emitted + [] == emitted;
  }

  /** generate_frames: run the detector over the reads and yield one overlay per processed frame. */
  method GenerateFrames(detector: MotionDetector, captures: seq<Option<Capture>>) returns (frames: seq<Overlay>, stop: StopReason)
    modifies detector
    ensures old(detector.Valid()) ==> detector.Valid()
    ensures detector.State() == Stream(old(detector.State()), captures).final
    ensures frames == Stream(old(detector.State()), captures).frames
    ensures stop == Stream(old(detector.State()), captures).stop
    ensures detector.emissions == old(detector.emissions) + Stream(old(detector.State()), captures).emissions
  {
    ghost var start, log := detector.State(), detector.emissions;
    ghost var total := Stream(start, captures);
    // The whole run: the overlays yielded and the write log once the loop is over.
    ghost var whole := Streamed(total.final, total.frames, log + total.emissions, total.stop);
    assert [] + total.frames == total.frames;
    frames := [];
    stop := ReadsExhausted;
    var rest := captures;
    while rest != []
      invariant whole == After(frames, detector.emissions, Stream(detector.State(), rest))
    {
      var read := rest[0];
      if read.None? {
        // The read failed: the loop breaks and the generator ends.
        stop := ReadFailed;
        AfterHalts(detector.State(), rest, frames, detector.emissions);
        break;
      }
      ghost var before, emitted := detector.State(), detector.emissions;
      var result := detector.DetectMotion(read.value);
      if result.Err? {
        // detect_motion raised: the exception leaves the generator.
        stop := Raised(result.error);
        AfterHalts(before, rest, frames, emitted);
        assert emitted + [] == emitted;
        break;
      }
      AfterStep(before, rest, frames, emitted);
      frames := frames + [Annotate(result.value)];
      rest := rest[1..];
    }
    if rest == [] {
      AfterHalts(detector.State(), rest, frames, detector.emissions);
    }
    if Logged(start, log) {
      StreamExtendsLog(start, log, captures);
    }
  }
}
