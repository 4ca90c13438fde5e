/**
 * The change-reporting rule of MotionDetector.detect_motion: an update of
 * the remote status record is attempted when the observed pair differs
 * from the last one reported, or when more than the update interval has
 * passed since the last report.
 */
module Reporting {
  import opened Wrappers

  /** The (motion, humans) pair observed for one frame. */
  datatype Observation = Observation(motion: bool, humans: bool)

  /** Seconds between heartbeat writes of an unchanged state. */
  const UpdateInterval: real := 2.0

  /**
   * One attempted write of the status record: the pair written, the clock
   * reading at which it was attempted, and whether the write went through.
   */
  datatype Emission = Emission(obs: Observation, at: real, written: bool)

  /**
   * The emit rule. `last` is None until the first report (the source's
   * `(None, None)`, which never equals an observed pair).
   */
  function ShouldReport(current: Observation, last: Option<Observation>, now: real, lastUpdate: real): (fire: bool)
    ensures last.None? ==> fire
    ensures last.Some? && last.value != current ==> fire
    ensures last == Some(current) ==> (fire <==> now - lastUpdate > UpdateInterval)
  {
    Some(current) != last || now - lastUpdate > UpdateInterval
  }

  /** The write attempts of one step, as a log fragment. */
  function Attempts(e: Option<Emission>): seq<Emission> {
    match e
    case None => []
    case Some(x) => [x]
  }

  /**
   * The writes `log`, attempted after `last` was last reported at time
   * `lastAt`, never repeat the pair reported just before them unless more
   * than the update interval has passed.
   */
  ghost predicate SpacedAfter(last: Option<Observation>, lastAt: real, log: seq<Emission>)
    decreases |log|
  {
    log == [] ||
    (&& (last == Some(log[0].obs) ==> log[0].at - lastAt > UpdateInterval)
     && SpacedAfter(Some(log[0].obs), log[0].at, log[1..]))
  }

  /** SpacedAfter, read pair by pair: attempts k - 1 and k of the same pair are more than the interval apart. */
  lemma {:induction false} SpacedAfterAt(last: Option<Observation>, lastAt: real, log: seq<Emission>, k: nat)
    requires SpacedAfter(last, lastAt, log)
    requires 0 < k < |log| && log[k - 1].obs == log[k].obs
    ensures log[k].at - log[k - 1].at > UpdateInterval
    decreases k
  {
    if k > 1 {
      SpacedAfterAt(Some(log[0].obs), log[0].at, log[1..], k - 1);
    }
  }

  /** The pair last reported once the writes `log` follow a report of `last`. */
  function LastPair(last: Option<Observation>, log: seq<Emission>): Option<Observation> {
    if log == [] then last else Some(log[|log| - 1].obs)
  }

  /** The time of the last report once the writes `log` follow a report at `lastAt`. */
  function LastAt(lastAt: real, log: seq<Emission>): real {
    if log == [] then lastAt else log[|log| - 1].at
  }

  /** The last report after two batches of writes is the last report of the second batch after the first. */
  lemma LastOfConcat(last: Option<Observation>, lastAt: real, a: seq<Emission>, b: seq<Emission>)
    ensures LastPair(last, a + b) == LastPair(LastPair(last, a), b)
    ensures LastAt(lastAt, a + b) == LastAt(LastAt(lastAt, a), b)
  {
  }

  /** Spaced writes followed by writes spaced after the last of them are spaced as a whole. */
  lemma {:induction false} SpacedAfterConcat(last: Option<Observation>, lastAt: real, a: seq<Emission>, b: seq<Emission>)
    requires SpacedAfter(last, lastAt, a)
    requires SpacedAfter(LastPair(last, a), LastAt(lastAt, a), b)
    ensures SpacedAfter(last, lastAt, a + b)
    decreases |a|
  {
    if a == [] {
      assert a + b == b;
    } else {
      assert (a + b)[0] == a[0] && (a + b)[1..] == a[1..] + b;
      assert LastPair(Some(a[0].obs), a[1..]) == LastPair(last, a);
      assert LastAt(a[0].at, a[1..]) == LastAt(lastAt, a);
      SpacedAfterConcat(Some(a[0].obs), a[0].at, a[1..], b);
    }
  }

  /** A pair observed exactly one interval after the last report of that pair is not re-reported. */
  lemma ExactIntervalDoesNotReemit(o: Observation, t: real)
    ensures !ShouldReport(o, Some(o), t + UpdateInterval, t)
  {
  }
}
