/**
 * MotionDetector: the per-frame state machine of detect_motion over the
 * reference frame, the last reported pair and the time of the last report.
 *
 * DetectStep is the specification of one call as a function of the old
 * state and of what the call observes from the outside world (the blurred
 * gray image, the detector's class ids, the clock reading and whether the
 * store write went through). The class MotionDetector updates its fields
 * in place, as the source does, and is proved to follow DetectStep.
 */
module Detection {
  import opened Wrappers
  import opened Frames
  import opened Presence
  import opened Reporting

  /** The fields detect_motion reads and writes. */
  datatype Detector = Detector(prevFrame: Option<Image>, lastState: Option<Observation>, lastUpdate: real)

  /** The state __init__ leaves: no reference frame, nothing reported, last update at time 0. */
  const Initial: Detector := Detector(None, None, 0.0)

  /**
   * What one call observes outside the detector: the blurred grayscale
   * image of the frame, the class ids the object detector returns for it,
   * the clock reading, and whether the status-record write succeeds.
   */
  datatype Capture = Capture(gray: Image, classIds: seq<int>, now: real, writeOk: bool)

  /** The reference frame and the new frame cannot be differenced (cv2.absdiff raises). */
  datatype FrameError = ShapeMismatch

  /** The new state, the returned pair or the error raised, and the write attempted if any. */
  datatype Step = Step(next: Detector, result: Result<Observation, FrameError>, emission: Option<Emission>)

  /** One call of detect_motion. */
  function DetectStep(d: Detector, c: Capture): (s: Step)
    // First call: the frame becomes the reference, (False, False) is returned, nothing else changes.
    ensures d.prevFrame.None? ==>
      s.result == Ok(Observation(false, false)) && s.emission.None? && s.next == d.(prevFrame := Some(c.gray))
    // A frame the reference cannot be differenced with raises before any field changes.
    ensures d.prevFrame.Some? && !SameShape(d.prevFrame.value, c.gray) ==>
      s.result == Err(ShapeMismatch) && s.emission.None? && s.next == d
    // Otherwise the pair is (motion, humans) and the frame becomes the new reference.
    ensures d.prevFrame.Some? && SameShape(d.prevFrame.value, c.gray) ==>
      && s.result == Ok(Observation(MotionDetected(d.prevFrame.value, c.gray), HumansDetected(c.classIds)))
      && s.next.prevFrame == Some(c.gray)
      && (s.emission.Some? <==> ShouldReport(s.result.value, d.lastState, c.now, d.lastUpdate))
    // A write attempt records the pair and the time, whatever the write's outcome.
    ensures s.emission.Some? ==>
      && s.emission.value == Emission(s.result.value, c.now, c.writeOk)
      && s.next.lastState == Some(s.result.value) && s.next.lastUpdate == c.now
    // Without a write attempt the last reported pair and its time stay as they were.
    ensures s.emission.None? ==> s.next.lastState == d.lastState && s.next.lastUpdate == d.lastUpdate
  {
    match d.prevFrame
    case None => Step(d.(prevFrame := Some(c.gray)), Ok(Observation(false, false)), None)
    case Some(prev) =>
      if !SameShape(prev, c.gray) then Step(d, Err(ShapeMismatch), None)
      else
        var current := Observation(MotionDetected(prev, c.gray), HumansDetected(c.classIds));
        if ShouldReport(current, d.lastState, c.now, d.lastUpdate) then
          Step(Detector(Some(c.gray), Some(current), c.now), Ok(current), Some(Emission(current, c.now, c.writeOk)))
        else
          Step(d.(prevFrame := Some(c.gray)), Ok(current), None)
  }

  /**
   * One call followed by further writes keeps the spacing of same-pair
   * writes: the rule only repeats the last reported pair after more than
   * the update interval, and a write makes its pair and time the last ones.
   */
  lemma StepKeepsSpacing(d: Detector, c: Capture, later: seq<Emission>)
    requires SpacedAfter(DetectStep(d, c).next.lastState, DetectStep(d, c).next.lastUpdate, later)
    ensures SpacedAfter(d.lastState, d.lastUpdate, Attempts(DetectStep(d, c).emission) + later)
  {
    var s := DetectStep(d, c);
    if s.emission.None? {
      assert Attempts(s.emission) + later == later;
    } else {
      assert (Attempts(s.emission) + later)[1..] == later;
    }
  }

  /**
   * The state of a detector created by __init__ after the writes `log`: the
   * last write gives the last reported pair and time (none and 0 before
   * any write), and writes of an unchanged pair are spaced.
   */
  ghost predicate Logged(d: Detector, log: seq<Emission>) {
    && d.lastState == LastPair(None, log)
    && d.lastUpdate == LastAt(0.0, log)
    && SpacedAfter(None, 0.0, log)
  }

  /** Every call keeps the state and the extended write log in that relation. */
  lemma StepExtendsLog(d: Detector, c: Capture, log: seq<Emission>)
    requires Logged(d, log)
    ensures Logged(DetectStep(d, c).next, log + Attempts(DetectStep(d, c).emission))
  {
    var s := DetectStep(d, c);
    StepKeepsSpacing(d, c, []);
    assert Attempts(s.emission) + [] == Attempts(s.emission);
    SpacedAfterConcat(None, 0.0, log, Attempts(s.emission));
    if s.emission.None? {
      assert log + [] == log;
    }
  }

  /**
   * The 0, 1, 3 example, threaded through three calls: after the reference
   * is stored, an unchanged frame seen at times 0, 1 and 3 is reported at 0
   * (first report) and at 3, but not at 1.
   */
  lemma HeartbeatAtZeroOneThree(g: Image, ids: seq<int>, primedAt: real)
    ensures var d := DetectStep(Initial, Capture(g, ids, primedAt, true)).next;
      var s0 := DetectStep(d, Capture(g, ids, 0.0, true));
      var s1 := DetectStep(s0.next, Capture(g, ids, 1.0, true));
      var s3 := DetectStep(s1.next, Capture(g, ids, 3.0, true));
      s0.emission.Some? && s1.emission.None? && s3.emission.Some?
  {
  }

  /**
   * The same example with motion: two frames that differ by more than the
   * difference threshold at every pixel alternate, so every comparison shows
   * motion and the pair stays (true, humans). It is reported at 0 and 3,
   * but not at 1.
   */
  lemma HeartbeatWithMotion(a: Image, b: Image, ids: seq<int>, primedAt: real)
    requires SameShape(a, b) && PixelCount(b) > 0
    requires forall i, j :: 0 <= i < |a| && 0 <= j < |a[i]| ==> Dist(a[i][j], b[i][j]) > DiffThreshold
    ensures var d := DetectStep(Initial, Capture(a, ids, primedAt, true)).next;
      var s0 := DetectStep(d, Capture(b, ids, 0.0, true));
      var s1 := DetectStep(s0.next, Capture(a, ids, 1.0, true));
      var s3 := DetectStep(s1.next, Capture(b, ids, 3.0, true));
      && s0.result == Ok(Observation(true, HumansDetected(ids)))
      && s1.result == Ok(Observation(true, HumansDetected(ids)))
      && s3.result == Ok(Observation(true, HumansDetected(ids)))
      && s0.emission.Some? && s1.emission.None? && s3.emission.Some?
  {
    WholeFrameChangeIsMotion(a, b);
    MotionSymmetric(a, b);
  }

  /** Whether the store write succeeds never changes the returned pair or the new state. */
  lemma WriteOutcomeDoesNotMatter(d: Detector, c: Capture)
    ensures DetectStep(d, c.(writeOk := true)).next == DetectStep(d, c.(writeOk := false)).next
    ensures DetectStep(d, c.(writeOk := true)).result == DetectStep(d, c.(writeOk := false)).result
  {
  }

  /** The first call that compares frames always attempts a write, since nothing was reported yet. */
  lemma FirstComparisonReports(first: Capture, second: Capture)
    requires SameShape(first.gray, second.gray)
    ensures DetectStep(DetectStep(Initial, first).next, second).emission.Some?
  {
  }

  /** A frame identical to the reference shows no motion. */
  lemma RepeatedFrameNoMotion(d: Detector, c: Capture)
    requires d.prevFrame == Some(c.gray)
    ensures DetectStep(d, c).result == Ok(Observation(false, HumansDetected(c.classIds)))
  {
    IdenticalFramesNoMotion(c.gray);
  }

  /** With a clock that does not run backwards the time of the last report never decreases. */
  lemma LastUpdateMonotone(d: Detector, c: Capture)
    requires c.now >= d.lastUpdate
    ensures DetectStep(d, c).next.lastUpdate >= d.lastUpdate
  {
  }

  /** The detector object: its fields change in place on every call. */
  class MotionDetector {
    var prevFrame: Option<Image>
    var lastState: Option<Observation>
    var lastUpdate: real
    /** The status-record writes attempted so far. */
    ghost var emissions: seq<Emission>

    function State(): Detector
      reads this
    {
      Detector(prevFrame, lastState, lastUpdate)
    }

    /** The ghost log agrees with the fields: see Logged. */
    ghost predicate Valid()
      reads this
    {
      Logged(State(), emissions)
    }

    constructor ()
      ensures Valid() && State() == Initial && emissions == []
    {
      prevFrame := None;
      lastState := None;
      lastUpdate := 0.0;
      emissions := [];
    }

    /** detect_motion: classify the frame, report if the rule fires, and keep the frame as the reference. */
    method DetectMotion(c: Capture) returns (r: Result<Observation, FrameError>)
      modifies this
      ensures old(Valid()) ==> Valid()
      ensures State() == DetectStep(old(State()), c).next
      ensures r == DetectStep(old(State()), c).result
      ensures emissions == old(emissions) + Attempts(DetectStep(old(State()), c).emission)
    {
      if Valid() {
        StepExtendsLog(State(), c, emissions);
      }
      if prevFrame.None? {
        prevFrame := Some(c.gray);
        return Ok(Observation(false, false));
      }
      var prev := prevFrame.value;
      if !SameShape(prev, c.gray) {
        return Err(ShapeMismatch);
      }
      var motion := MotionDetected(prev, c.gray);
      var humans := HumansDetected(c.classIds);
      var current := Observation(motion, humans);
      if Some(current) != lastState || c.now - lastUpdate > UpdateInterval {
        // The write is attempted; its failure is only logged by the source.
        emissions := emissions + [Emission(current, c.now, c.writeOk)];
        lastUpdate := c.now;
        lastState := Some(current);
      }
      prevFrame := Some(c.gray);
      r := Ok(current);
    }
  }
}
