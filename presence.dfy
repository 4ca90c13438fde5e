/**
 * The reduction of the object detector's output to "a human is present":
 * any detected class id equal to the person class.
 */
module Presence {

  /** The person class of the detection model. */
  const PersonClass: int := 0

  /** True iff at least one detection carries the person class, whatever their number or order. */
  function HumansDetected(classIds: seq<int>): (r: bool)
    ensures r <==> exists k :: 0 <= k < |classIds| && classIds[k] == PersonClass
  {
    if classIds == [] then false
    else classIds[0] == PersonClass || HumansDetected(classIds[1..])
  }

  /** Presence over two batches of detections is presence in either batch. */
  lemma {:induction false} HumansDetectedConcat(a: seq<int>, b: seq<int>)
    ensures HumansDetected(a + b) <==> HumansDetected(a) || HumansDetected(b)
  {
    if a == [] {
      assert a + b == b;
    } else {
      assert (a + b)[1..] == a[1..] + b;
      HumansDetectedConcat(a[1..], b);
    }
  }
}
