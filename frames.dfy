/**
 * The frame-differencing motion test of MotionDetector.detect_motion:
 * absolute difference against the reference frame, a binary threshold
 * mask, and the comparison of the mask's mean against the sensitivity.
 *
 * Images are the already converted and blurred grayscale images (the
 * colour conversion and Gaussian blur are library filters outside the
 * model), held as rows of 8-bit intensities.
 */
module Frames {

  /** An 8-bit grayscale intensity (numpy uint8). */
  type Byte = x: int | 0 <= x < 256

  /** A grayscale image, row by row. */
  type Image = seq<seq<Byte>>

  /** A pixel whose difference is strictly greater than this is "changed". */
  const DiffThreshold: Byte := 25

  /** The value a changed pixel takes in the binary mask. */
  const MaskValue: Byte := 255

  /** The mask mean must be strictly greater than this for motion. */
  const MotionThreshold: int := 30

  /** Two images the element-wise operations accept together: same rows, same row lengths. */
  predicate SameShape(a: Image, b: Image) {
    |a| == |b| && forall i :: 0 <= i < |a| ==> |a[i]| == |b[i]|
  }

  /** |x - y| of two intensities; it always fits in a byte. */
  function Dist(x: Byte, y: Byte): Byte {
    if x >= y then x - y else y - x
  }

  function DiffRow(a: seq<Byte>, b: seq<Byte>): seq<Byte>
    requires |a| == |b|
  {
    seq(|a|, j requires 0 <= j < |a| => Dist(a[j], b[j]))
  }

  /**
   * Per-pixel absolute difference of two images of the same shape: each pixel
   * is what must be added to the smaller intensity to reach the larger one.
   */
  function AbsDiff(a: Image, b: Image): (d: Image)
    requires SameShape(a, b)
    ensures SameShape(d, b)
    ensures forall i, j :: 0 <= i < |d| && 0 <= j < |d[i]| ==>
      (a[i][j] as int + d[i][j] == b[i][j] || b[i][j] as int + d[i][j] == a[i][j])
    ensures forall i, j :: 0 <= i < |d| && 0 <= j < |d[i]| ==> (d[i][j] == 0 <==> a[i][j] == b[i][j])
  {
    seq(|a|, i requires 0 <= i < |a| => DiffRow(a[i], b[i]))
  }

  function ThresholdRow(row: seq<Byte>, t: Byte, maxval: Byte): seq<Byte> {
    seq(|row|, j requires 0 <= j < |row| => if row[j] > t then maxval else 0)
  }

  /** A binary threshold: a pixel strictly above t becomes maxval, every other pixel 0. */
  function Threshold(img: Image, t: Byte, maxval: Byte): (m: Image)
    ensures SameShape(m, img)
    ensures forall i, j :: 0 <= i < |m| && 0 <= j < |m[i]| ==> (m[i][j] == 0 || m[i][j] == maxval)
    ensures forall i, j :: 0 <= i < |m| && 0 <= j < |m[i]| && img[i][j] > t ==> m[i][j] == maxval
    ensures forall i, j :: 0 <= i < |m| && 0 <= j < |m[i]| && img[i][j] <= t ==> m[i][j] == 0
  {
    seq(|img|, i requires 0 <= i < |img| => ThresholdRow(img[i], t, maxval))
  }

  function RowSum(row: seq<Byte>): nat {
    if row == [] then 0 else row[0] + RowSum(row[1..])
  }

  /** The sum of all intensities of an image. */
  function Sum(img: Image): nat {
    if img == [] then 0 else RowSum(img[0]) + Sum(img[1..])
  }

  /** The number of pixels of an image. */
  function PixelCount(img: Image): nat {
    if img == [] then 0 else |img[0]| + PixelCount(img[1..])
  }

  /**
   * The mean intensity is strictly greater than limit, compared exactly:
   * Sum / PixelCount > limit. An image without pixels has no mean (NaN),
   * and a NaN compares false; so does 0 > 0 here.
   */
  predicate MeanExceeds(img: Image, limit: int): (r: bool)
    ensures PixelCount(img) == 0 ==> !r
    ensures PixelCount(img) > 0 ==> (r <==> (Sum(img) as real) / (PixelCount(img) as real) > limit as real)
  {
    NoPixelsNoSum(img);
    MeanComparison(Sum(img), PixelCount(img), limit);
    Sum(img) > limit * PixelCount(img)
  }

  lemma {:induction false} NoPixelsNoSum(img: Image)
    ensures PixelCount(img) == 0 ==> Sum(img) == 0
  {
    if img != [] {
      assert PixelCount(img) == 0 ==> img[0] == [];
      NoPixelsNoSum(img[1..]);
    }
  }

  /** For a positive count, comparing the sum with limit * count is comparing the mean with limit. */
  lemma MeanComparison(sum: nat, count: nat, limit: int)
    ensures count > 0 ==> (sum > limit * count <==> (sum as real) / (count as real) > limit as real)
  {
    if count > 0 {
      var x, n, l := sum as real, count as real, limit as real;
      assert (limit * count) as real == l * n;
      assert x == (x / n) * n;
      if x / n > l {
        assert (x / n) * n > l * n;
      } else {
        assert (x / n) * n <= l * n;
      }
    }
  }

  /**
   * Motion: the mean of the difference mask is strictly greater than the
   * sensitivity. It needs more than one changed pixel in nine (30/255); see
   * MotionIffChangedFraction for the exact condition.
   */
  predicate MotionDetected(prev: Image, gray: Image): (r: bool)
    requires SameShape(prev, gray)
    ensures r ==> ChangedCount(prev, gray) > 0
    ensures r ==> 9 * ChangedCount(prev, gray) > PixelCount(gray)
  {
    MaskSum(prev, gray);
    MeanExceeds(Threshold(AbsDiff(prev, gray), DiffThreshold, MaskValue), MotionThreshold)
  }

  function RowChanged(a: seq<Byte>, b: seq<Byte>): nat
    requires |a| == |b|
  {
    if a == [] then 0
    else (if Dist(a[0], b[0]) > DiffThreshold then 1 else 0) + RowChanged(a[1..], b[1..])
  }

  /** The number of pixel positions whose intensities differ by more than DiffThreshold. */
  function ChangedCount(a: Image, b: Image): nat
    requires SameShape(a, b)
  {
    if a == [] then 0 else RowChanged(a[0], b[0]) + ChangedCount(a[1..], b[1..])
  }

  lemma {:induction false} MaskRowSum(a: seq<Byte>, b: seq<Byte>)
    requires |a| == |b|
    ensures RowSum(ThresholdRow(DiffRow(a, b), DiffThreshold, MaskValue)) == MaskValue * RowChanged(a, b)
  {
    if a != [] {
      assert ThresholdRow(DiffRow(a, b), DiffThreshold, MaskValue)[1..]
          == ThresholdRow(DiffRow(a[1..], b[1..]), DiffThreshold, MaskValue);
      MaskRowSum(a[1..], b[1..]);
    }
  }

  /** The mask sums to MaskValue per changed pixel and has one pixel per pixel of the frame. */
  lemma {:induction false} MaskSum(a: Image, b: Image)
    requires SameShape(a, b)
    ensures Sum(Threshold(AbsDiff(a, b), DiffThreshold, MaskValue)) == MaskValue * ChangedCount(a, b)
    ensures PixelCount(Threshold(AbsDiff(a, b), DiffThreshold, MaskValue)) == PixelCount(b)
  {
    if a != [] {
      assert Threshold(AbsDiff(a, b), DiffThreshold, MaskValue)[1..]
          == Threshold(AbsDiff(a[1..], b[1..]), DiffThreshold, MaskValue);
      MaskRowSum(a[0], b[0]);
      MaskSum(a[1..], b[1..]);
    }
  }

  /** Motion holds iff 255 times the number of changed pixels exceeds 30 times the pixel count. */
  lemma MotionIffChangedFraction(prev: Image, gray: Image)
    requires SameShape(prev, gray)
    ensures MotionDetected(prev, gray) <==> MaskValue * ChangedCount(prev, gray) > MotionThreshold * PixelCount(gray)
  {
    MaskSum(prev, gray);
  }

  lemma {:induction false} NothingChangedAgainstItself(g: Image)
    ensures ChangedCount(g, g) == 0
  {
    if g != [] {
      RowUnchanged(g[0]);
      NothingChangedAgainstItself(g[1..]);
    }
  }

  lemma {:induction false} RowUnchanged(row: seq<Byte>)
    ensures RowChanged(row, row) == 0
  {
    if row != [] {
      RowUnchanged(row[1..]);
    }
  }

  /** Two identical consecutive frames never show motion. */
  lemma IdenticalFramesNoMotion(g: Image)
    ensures !MotionDetected(g, g)
  {
    NothingChangedAgainstItself(g);
    MotionIffChangedFraction(g, g);
  }

  lemma {:induction false} RowChangedSymmetric(a: seq<Byte>, b: seq<Byte>)
    requires |a| == |b|
    ensures RowChanged(a, b) == RowChanged(b, a)
  {
    if a != [] {
      RowChangedSymmetric(a[1..], b[1..]);
    }
  }

  lemma {:induction false} ChangedCountSymmetric(a: Image, b: Image)
    requires SameShape(a, b)
    ensures ChangedCount(a, b) == ChangedCount(b, a)
  {
    if a != [] {
      RowChangedSymmetric(a[0], b[0]);
      ChangedCountSymmetric(a[1..], b[1..]);
    }
  }

  /** The motion test does not depend on which of the two frames is the reference. */
  lemma MotionSymmetric(prev: Image, gray: Image)
    requires SameShape(prev, gray)
    ensures MotionDetected(prev, gray) == MotionDetected(gray, prev)
  {
    ChangedCountSymmetric(prev, gray);
    MotionIffChangedFraction(prev, gray);
    MotionIffChangedFraction(gray, prev);
    assert PixelCount(prev) == PixelCount(gray) by { SameShapeSamePixels(prev, gray); }
  }

  lemma {:induction false} SameShapeSamePixels(a: Image, b: Image)
    requires SameShape(a, b)
    ensures PixelCount(a) == PixelCount(b)
  {
    if a != [] {
      SameShapeSamePixels(a[1..], b[1..]);
    }
  }

  lemma {:induction false} RowAllChanged(a: seq<Byte>, b: seq<Byte>)
    requires |a| == |b|
    requires forall j :: 0 <= j < |a| ==> Dist(a[j], b[j]) > DiffThreshold
    ensures RowChanged(a, b) == |b|
  {
    if a != [] {
      RowAllChanged(a[1..], b[1..]);
    }
  }

  lemma {:induction false} AllChanged(a: Image, b: Image)
    requires SameShape(a, b)
    requires forall i, j :: 0 <= i < |a| && 0 <= j < |a[i]| ==> Dist(a[i][j], b[i][j]) > DiffThreshold
    ensures ChangedCount(a, b) == PixelCount(b)
  {
    if a != [] {
      RowAllChanged(a[0], b[0]);
      AllChanged(a[1..], b[1..]);
    }
  }

  /** A non-empty frame that differs from the reference by more than 25 at every pixel shows motion. */
  lemma WholeFrameChangeIsMotion(prev: Image, gray: Image)
    requires SameShape(prev, gray)
    requires PixelCount(gray) > 0
    requires forall i, j :: 0 <= i < |prev| && 0 <= j < |prev[i]| ==> Dist(prev[i][j], gray[i][j]) > DiffThreshold
    ensures MotionDetected(prev, gray)
  {
    AllChanged(prev, gray);
    MotionIffChangedFraction(prev, gray);
  }
}
